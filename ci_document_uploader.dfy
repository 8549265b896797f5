/**
 * gmjonker/citool/CiDocumentUploader.java: an uploader bound to one corpus with its two flags fixed
 * at construction, and the two counters it keeps across calls. The service client is the
 * UploadService each call is given.
 */
module CiDocumentUploader {
  import opened Outcomes
  import opened Watson
  import opened CiCorpusHelper
  import opened Reconciliation

  class Uploader {
    const corpus: Corpus
    const overwriteExisting: bool
    const deleteOthers: bool
    var numUploadedDocs: nat
    var numDeletedDocs: nat

    /** `new CiDocumentUploader(service, corpus, overwriteExisting, deleteOthers)`: both counters at zero. */
    constructor (corpus: Corpus, overwriteExisting: bool, deleteOthers: bool)
      ensures this.corpus == corpus && this.overwriteExisting == overwriteExisting && this.deleteOthers == deleteOthers
      ensures numUploadedDocs == 0 && numDeletedDocs == 0
    {
      this.corpus := corpus;
      this.overwriteExisting := overwriteExisting;
      this.deleteOthers := deleteOthers;
      numUploadedDocs := 0;
      numDeletedDocs := 0;
    }

    /** `getReplacingDocumentUploader(service, corpus)`: an uploader that overwrites and deletes others. */
    static method GetReplacingDocumentUploader(corpus: Corpus) returns (u: Uploader)
      ensures fresh(u)
      ensures u.corpus == corpus && u.overwriteExisting && u.deleteOthers
      ensures u.numUploadedDocs == 0 && u.numDeletedDocs == 0
    {
      u := new Uploader(corpus, true, true);
    }

    /**
     * `uploadDocuments(ciDocuments)`: one run of the reconciliation from the current counters,
     * which keep what was counted even when a failure escapes; they never decrease.
     */
    method UploadDocuments(ciDocuments: seq<CiDocument>, service: UploadService)
      returns (r: Result<seq<Document>>, deleteCalls: seq<string>, createCalls: seq<nat>, etas: seq<int>)
      modifies this
      ensures var o := Reconciled(corpus, ciDocuments, overwriteExisting, deleteOthers, service,
                                  old(numUploadedDocs), old(numDeletedDocs));
        r == o.result && numUploadedDocs == o.uploaded && numDeletedDocs == o.deleted &&
        ToSet(deleteCalls) == o.deleteCalls && createCalls == o.createCalls && etas == o.etas
      ensures NoDuplicates(deleteCalls)
      ensures old(numUploadedDocs) <= numUploadedDocs <= old(numUploadedDocs) + |ciDocuments|
      ensures old(numDeletedDocs) <= numDeletedDocs <= old(numDeletedDocs) + |deleteCalls|
    {
      var uploaded, deleted;
      r, uploaded, deleted, deleteCalls, createCalls, etas :=
        Reconcile(corpus, ciDocuments, overwriteExisting, deleteOthers, service, numUploadedDocs, numDeletedDocs);
      CountersBounded(corpus, ciDocuments, overwriteExisting, deleteOthers, service, numUploadedDocs, numDeletedDocs,
                      deleteCalls);
      numUploadedDocs, numDeletedDocs := uploaded, deleted;
    }
  }
}
