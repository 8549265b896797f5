/**
 * a2t/citool/DocumentUploader.java: the same reconciliation as CiDocumentUploader, bound to a
 * corpus only; the two flags are arguments of each call. The service client is the UploadService
 * each call is given.
 */
module A2tDocumentUploader {
  import opened Outcomes
  import opened Watson
  import opened CiCorpusHelper
  import opened Reconciliation

  class DocumentUploader {
    const corpus: Corpus
    var numUploadedDocs: nat
    var numDeletedDocs: nat

    /** `new DocumentUploader(service, corpus)`: both counters at zero. */
    constructor (corpus: Corpus)
      ensures this.corpus == corpus && numUploadedDocs == 0 && numDeletedDocs == 0
    {
      this.corpus := corpus;
      numUploadedDocs := 0;
      numDeletedDocs := 0;
    }

    /**
     * `uploadDocuments(ciDocuments, overwriteExisting, deleteOthers)`: one run of the
     * reconciliation from the current counters, which keep what was counted even when a failure
     * escapes; they never decrease.
     */
    method UploadDocuments(ciDocuments: seq<CiDocument>, overwriteExisting: bool, deleteOthers: bool,
                           service: UploadService)
      returns (r: Result<seq<Document>>, deleteCalls: seq<string>, createCalls: seq<nat>, etas: seq<int>)
      modifies this
      ensures var o := Reconciled(corpus, ciDocuments, overwriteExisting, deleteOthers, service,
                                  old(numUploadedDocs), old(numDeletedDocs));
        r == o.result && numUploadedDocs == o.uploaded && numDeletedDocs == o.deleted &&
        ToSet(deleteCalls) == o.deleteCalls && createCalls == o.createCalls && etas == o.etas
      ensures NoDuplicates(deleteCalls)
      ensures old(numUploadedDocs) <= numUploadedDocs <= old(numUploadedDocs) + |ciDocuments|
      ensures old(numDeletedDocs) <= numDeletedDocs <= old(numDeletedDocs) + |deleteCalls|
    {
      var uploaded, deleted;
      r, uploaded, deleted, deleteCalls, createCalls, etas :=
        Reconcile(corpus, ciDocuments, overwriteExisting, deleteOthers, service, numUploadedDocs, numDeletedDocs);
      CountersBounded(corpus, ciDocuments, overwriteExisting, deleteOthers, service, numUploadedDocs, numDeletedDocs,
                      deleteCalls);
      numUploadedDocs, numDeletedDocs := uploaded, deleted;
    }
  }
}
