/**
 * The body of `uploadDocuments`, which CiDocumentUploader and a2t's DocumentUploader share word for
 * word: take the names now in the corpus, delete the names no input has (when deleting others),
 * create every input (unless it exists and overwriting is off), count the successful calls in the
 * uploader's counters, and poll the corpus and estimate the remaining time every 25 uploads.
 *
 * Every remote call is an oracle of UploadService: the listing, whether deleting a name succeeds,
 * whether creating the input at a position succeeds, whether the processing-state poll after that
 * input succeeds, the stopwatch reading after it, and whether the final corpus-stats call succeeds.
 */
module Reconciliation {
  import opened Outcomes
  import opened Watson
  import opened Util
  import opened CiCorpusHelper

  /** `CiDocument`: a document to upload, named (URL-safe), labelled and with one plain text body. */
  datatype CiDocument = CiDocument(name: string, docLabel: string, body: string)

  /** The remote side of one upload run. */
  datatype UploadService = UploadService(
    listing: Result<seq<string>>,   // the ids listed for the corpus, or the listing's failure
    deleteOk: string -> bool,       // deleteDocument of the named document returns normally
    createOk: nat -> bool,          // createDocument of the input at that position returns normally
    pollOk: nat -> bool,            // logProcessingState after that input returns normally
    clock: nat -> nat,              // nanoseconds on the upload stopwatch after that input
    statsOk: bool)                  // the closing getCorpusStats returns normally

  const TextPartName := "Text part"
  const TextContentType := "text/plain"

  /** How often (in successful uploads) the processing state is polled and the ETA logged. */
  const StatsInterval: nat := 25

  /** The document built for an input: its name and label and one text part holding its body. */
  function BuildDocument(corpus: Corpus, d: CiDocument): (doc: Document)
    ensures doc.corpus == corpus && doc.name == d.name && doc.docLabel == Some(d.docLabel)
    ensures doc.parts == [Part(TextPartName, d.body, TextContentType)]
    ensures doc.expiresOn == None && doc.lastModified == None && doc.timeToLive == None && doc.userFields == None
  {
    NewDocument(corpus, d.name).(docLabel := Some(d.docLabel), parts := [Part(TextPartName, d.body, TextContentType)])
  }

  /** `documentsToAdd`: one built document per input, in input order. */
  function BuildDocuments(corpus: Corpus, ds: seq<CiDocument>): (docs: seq<Document>)
    ensures |docs| == |ds|
    ensures forall i :: 0 <= i < |ds| ==> docs[i] == BuildDocument(corpus, ds[i])
  {
    Map(ds, d => BuildDocument(corpus, d))
  }

  /** The input names. */
  function InputNames(ds: seq<CiDocument>): set<string> {
    set i | 0 <= i < |ds| :: ds[i].name
  }

  /**
   * `namesToDelete`: with deleteOthers, the snapshot's names that no input has; otherwise none.
   */
  function DeleteCandidates(snapshot: set<string>, ds: seq<CiDocument>, deleteOthers: bool): (r: set<string>)
    ensures forall n :: n in r <==> deleteOthers && n in snapshot && forall i :: 0 <= i < |ds| ==> ds[i].name != n
    ensures r <= snapshot
    ensures !deleteOthers ==> r == {}
  {
    if deleteOthers then snapshot - InputNames(ds) else {}
  }

  /** Whether the create loop calls createDocument for a document (otherwise it logs a skip). */
  predicate CreateWanted(doc: Document, snapshot: set<string>, overwriteExisting: bool) {
    overwriteExisting || doc.name !in snapshot
  }

  /** The positions, from i on, whose document the create loop means to create, in order. */
  function PlannedCreates(docs: seq<Document>, snapshot: set<string>, overwriteExisting: bool, i: nat): (r: seq<nat>)
    requires i <= |docs|
    ensures forall k :: 0 <= k < |r| ==> i <= r[k] < |docs| && CreateWanted(docs[r[k]], snapshot, overwriteExisting)
    ensures forall j :: i <= j < |docs| && CreateWanted(docs[j], snapshot, overwriteExisting) ==> j in r
    ensures forall k, l :: 0 <= k < l < |r| ==> r[k] < r[l]
    decreases |docs| - i
  {
    if i == |docs| then []
    else
      var rest := PlannedCreates(docs, snapshot, overwriteExisting, i + 1);
      if CreateWanted(docs[i], snapshot, overwriteExisting) then [i] + rest else rest
  }

  /**
   * The advisory remaining-time estimate, in nanoseconds: the average time per upload so far
   * (Java long division; both operands are non-negative here) times the uploads still to come.
   * The source computes it only when something was uploaded.
   */
  function EtaEstimate(elapsed: nat, uploaded: nat, total: nat): (r: int)
    requires uploaded > 0
    ensures uploaded == total ==> r == 0
    ensures uploaded <= total ==> 0 <= r && r * uploaded <= elapsed * (total - uploaded)
    ensures uploaded > total && elapsed >= uploaded ==> r < 0
  {
    EtaBounds(elapsed, uploaded, total);
    (elapsed / uploaded) * (total - uploaded)
  }

  lemma EtaBounds(elapsed: nat, uploaded: nat, total: nat)
    requires uploaded > 0
    ensures var r := (elapsed / uploaded) * (total - uploaded);
      (uploaded <= total ==> 0 <= r && r * uploaded <= elapsed * (total - uploaded)) &&
      (uploaded > total && elapsed >= uploaded ==> r < 0)
  {
    var average := elapsed / uploaded;
    QuotientBelow(elapsed, uploaded);
    if uploaded <= total {
      var rest := total - uploaded;
      MultiplyKeepsOrder(average * uploaded, elapsed, rest);
      SwapLastFactors(average, rest, uploaded);
      ProductSigns(average, rest);
    } else if elapsed >= uploaded {
      QuotientAtLeastOne(elapsed, uploaded);
      ProductSigns(average, total - uploaded);
    }
  }

  lemma QuotientBelow(n: nat, d: nat)
    requires d > 0
    ensures 0 <= n / d && (n / d) * d <= n
  {
  }

  lemma QuotientAtLeastOne(n: nat, d: nat)
    requires 0 < d <= n
    ensures n / d >= 1
  {
  }

  lemma ProductSigns(a: int, b: int)
    ensures a >= 0 && b >= 0 ==> a * b >= 0
    ensures a >= 1 && b < 0 ==> a * b < 0
  {
  }

  lemma SwapLastFactors(a: int, b: int, c: int)
    ensures a * b * c == a * c * b
  {
  }

  lemma MultiplyKeepsOrder(a: int, b: int, c: nat)
    requires a <= b
    ensures a * c <= b * c
  {
  }

  // ---------------------------------------------------------------------------------------------
  // The create loop

  /** The counter and the calls of the create loop so far; `aborted` once a poll has thrown. */
  datatype Uploads = Uploads(uploaded: nat, created: seq<nat>, etas: seq<int>, aborted: bool)

  /**
   * The create loop on the document at position i: skipped when it exists and overwriting is off;
   * otherwise created (a failure is caught and logged), and when the counter is then a multiple of
   * 25 the processing state is polled (a failure escapes) and, if something was uploaded, the ETA logged.
   */
  function CreateStep(docs: seq<Document>, snapshot: set<string>, overwriteExisting: bool, service: UploadService,
                      u: Uploads, i: nat): (r: Uploads)
    requires i < |docs|
    ensures r.created == u.created + (if CreateWanted(docs[i], snapshot, overwriteExisting) then [i] else [])
    ensures r.uploaded == u.uploaded + (if CreateWanted(docs[i], snapshot, overwriteExisting) && service.createOk(i) then 1 else 0)
    ensures |u.etas| <= |r.etas| <= |u.etas| + 1
    ensures r.aborted ==> u.aborted || !service.pollOk(i)
  {
    if !CreateWanted(docs[i], snapshot, overwriteExisting) then u
    else
      var uploaded := if service.createOk(i) then u.uploaded + 1 else u.uploaded;
      var created := u.created + [i];
      if uploaded % StatsInterval != 0 then Uploads(uploaded, created, u.etas, false)
      else if !service.pollOk(i) then Uploads(uploaded, created, u.etas, true)
      else if uploaded > 0 then
        Uploads(uploaded, created, u.etas + [EtaEstimate(service.clock(i), uploaded, |docs|)], false)
      else Uploads(uploaded, created, u.etas, false)
  }

  /** The create loop from position i on, stopping at the first poll that throws. */
  function CreatesFrom(docs: seq<Document>, snapshot: set<string>, overwriteExisting: bool, service: UploadService,
                       u: Uploads, i: nat): (r: Uploads)
    requires i <= |docs|
    ensures u.uploaded <= r.uploaded <= u.uploaded + (|docs| - i)
    decreases |docs| - i
  {
    if i == |docs| || u.aborted then u
    else CreatesFrom(docs, snapshot, overwriteExisting, service, CreateStep(docs, snapshot, overwriteExisting, service, u, i), i + 1)
  }

  /** The loop only appends: at most one create call per remaining position. */
  lemma {:induction false} CreatesExtend(docs: seq<Document>, snapshot: set<string>, overwriteExisting: bool,
                                         service: UploadService, u: Uploads, i: nat)
    requires i <= |docs|
    ensures var r := CreatesFrom(docs, snapshot, overwriteExisting, service, u, i);
      |u.created| <= |r.created| <= |u.created| + |docs| - i &&
      r.created[..|u.created|] == u.created &&
      |u.etas| <= |r.etas| && |r.etas| - |u.etas| <= |r.created| - |u.created|
    decreases |docs| - i
  {
    if i < |docs| && !u.aborted {
      var next := CreateStep(docs, snapshot, overwriteExisting, service, u, i);
      assert CreatesFrom(docs, snapshot, overwriteExisting, service, u, i)
          == CreatesFrom(docs, snapshot, overwriteExisting, service, next, i + 1);
      CreatesExtend(docs, snapshot, overwriteExisting, service, next, i + 1);
      var r := CreatesFrom(docs, snapshot, overwriteExisting, service, next, i + 1);
      assert r.created[..|u.created|] == next.created[..|u.created|];
    }
  }

  /** No create call for a document that exists while overwriting is off; calls are for positions i.. only. */
  lemma {:induction false} CreatesOnlyWanted(docs: seq<Document>, snapshot: set<string>, overwriteExisting: bool,
                                             service: UploadService, u: Uploads, i: nat)
    requires i <= |docs|
    ensures var r := CreatesFrom(docs, snapshot, overwriteExisting, service, u, i);
      forall k :: |u.created| <= k < |r.created| ==>
        i <= r.created[k] < |docs| && CreateWanted(docs[r.created[k]], snapshot, overwriteExisting)
    decreases |docs| - i
  {
    if i < |docs| && !u.aborted {
      var next := CreateStep(docs, snapshot, overwriteExisting, service, u, i);
      assert CreatesFrom(docs, snapshot, overwriteExisting, service, u, i)
          == CreatesFrom(docs, snapshot, overwriteExisting, service, next, i + 1);
      CreatesOnlyWanted(docs, snapshot, overwriteExisting, service, next, i + 1);
      CreatesExtend(docs, snapshot, overwriteExisting, service, next, i + 1);
      var r := CreatesFrom(docs, snapshot, overwriteExisting, service, next, i + 1);
      forall k | |u.created| <= k < |r.created|
        ensures i <= r.created[k] < |docs| && CreateWanted(docs[r.created[k]], snapshot, overwriteExisting)
      {
        if k < |next.created| {
          assert next.created == u.created + [i];
          assert r.created[k] == next.created[k];
        }
      }
    }
  }

  /** A run that no poll ends has made exactly the planned create calls: a failed create stops nothing. */
  lemma {:induction false} CreatesAllPlanned(docs: seq<Document>, snapshot: set<string>, overwriteExisting: bool,
                                             service: UploadService, u: Uploads, i: nat)
    requires i <= |docs|
    requires !CreatesFrom(docs, snapshot, overwriteExisting, service, u, i).aborted
    ensures CreatesFrom(docs, snapshot, overwriteExisting, service, u, i).created
         == u.created + PlannedCreates(docs, snapshot, overwriteExisting, i)
    decreases |docs| - i
  {
    if i < |docs| {
      var next := CreateStep(docs, snapshot, overwriteExisting, service, u, i);
      assert CreatesFrom(docs, snapshot, overwriteExisting, service, u, i)
          == CreatesFrom(docs, snapshot, overwriteExisting, service, next, i + 1);
      CreatesAllPlanned(docs, snapshot, overwriteExisting, service, next, i + 1);
      var rest := PlannedCreates(docs, snapshot, overwriteExisting, i + 1);
      if CreateWanted(docs[i], snapshot, overwriteExisting) {
        assert next.created == u.created + [i];
        assert u.created + [i] + rest == u.created + ([i] + rest);
      }
    }
  }

  /** The counter grows by exactly the number of create calls that succeeded. */
  lemma {:induction false} CreatesCount(docs: seq<Document>, snapshot: set<string>, overwriteExisting: bool,
                                        service: UploadService, u: Uploads, i: nat)
    requires i <= |docs|
    ensures var r := CreatesFrom(docs, snapshot, overwriteExisting, service, u, i);
      |u.created| <= |r.created| &&
      r.uploaded == u.uploaded + |Filter(r.created[|u.created|..], service.createOk)|
    decreases |docs| - i
  {
    if i < |docs| && !u.aborted {
      var next := CreateStep(docs, snapshot, overwriteExisting, service, u, i);
      assert CreatesFrom(docs, snapshot, overwriteExisting, service, u, i)
          == CreatesFrom(docs, snapshot, overwriteExisting, service, next, i + 1);
      CreatesCount(docs, snapshot, overwriteExisting, service, next, i + 1);
      CreatesExtend(docs, snapshot, overwriteExisting, service, next, i + 1);
      CountCarries(u, next, CreatesFrom(docs, snapshot, overwriteExisting, service, next, i + 1), i,
                   CreateWanted(docs[i], snapshot, overwriteExisting), service.createOk);
    } else {
      assert u.created[|u.created|..] == [];
    }
  }

  /** The counting fact for the loop from i + 1 on gives the one from i on. */
  lemma CountCarries(u: Uploads, next: Uploads, r: Uploads, i: nat, wanted: bool, ok: nat -> bool)
    requires next.created == u.created + (if wanted then [i] else [])
    requires next.uploaded == u.uploaded + (if wanted && ok(i) then 1 else 0)
    requires |next.created| <= |r.created| && r.created[..|next.created|] == next.created
    requires r.uploaded == next.uploaded + |Filter(r.created[|next.created|..], ok)|
    ensures |u.created| <= |r.created|
    ensures r.uploaded == u.uploaded + |Filter(r.created[|u.created|..], ok)|
  {
    if wanted {
      assert r.created[|u.created|..] == [i] + r.created[|next.created|..] by {
        assert r.created[|u.created|] == next.created[|u.created|];
      }
      FilterConsCount(i, r.created[|next.created|..], ok);
    }
  }

  /** Two loop states that differ at most in the estimates they logged. */
  predicate SameCalls(a: Uploads, b: Uploads) {
    a.uploaded == b.uploaded && a.created == b.created && a.aborted == b.aborted && |a.etas| == |b.etas|
  }

  /** One step on states with the same calls, under services that differ at most in their clocks. */
  lemma StepIgnoresClock(docs: seq<Document>, snapshot: set<string>, overwriteExisting: bool,
                         service1: UploadService, service2: UploadService, u1: Uploads, u2: Uploads, i: nat)
    requires i < |docs|
    requires service2 == service1.(clock := service2.clock)
    requires SameCalls(u1, u2)
    ensures SameCalls(CreateStep(docs, snapshot, overwriteExisting, service1, u1, i),
                      CreateStep(docs, snapshot, overwriteExisting, service2, u2, i))
  {
  }

  /** The rest of the loop from states with the same calls, under services that differ at most in their clocks. */
  lemma {:induction false} CreatesIgnoreEstimates(docs: seq<Document>, snapshot: set<string>, overwriteExisting: bool,
                                                  service1: UploadService, service2: UploadService,
                                                  u1: Uploads, u2: Uploads, i: nat)
    requires i <= |docs|
    requires service2 == service1.(clock := service2.clock)
    requires SameCalls(u1, u2)
    ensures SameCalls(CreatesFrom(docs, snapshot, overwriteExisting, service1, u1, i),
                      CreatesFrom(docs, snapshot, overwriteExisting, service2, u2, i))
    decreases |docs| - i
  {
    if i < |docs| && !u1.aborted {
      StepIgnoresClock(docs, snapshot, overwriteExisting, service1, service2, u1, u2, i);
      CreatesIgnoreEstimates(docs, snapshot, overwriteExisting, service1, service2,
                             CreateStep(docs, snapshot, overwriteExisting, service1, u1, i),
                             CreateStep(docs, snapshot, overwriteExisting, service2, u2, i), i + 1);
    }
  }

  /** When every poll succeeds the loop runs to the end. */
  lemma {:induction false} PollsOkNoAbort(docs: seq<Document>, snapshot: set<string>, overwriteExisting: bool,
                                          service: UploadService, u: Uploads, i: nat)
    requires i <= |docs|
    requires !u.aborted
    requires forall j :: i <= j < |docs| ==> service.pollOk(j)
    ensures !CreatesFrom(docs, snapshot, overwriteExisting, service, u, i).aborted
    decreases |docs| - i
  {
    if i < |docs| {
      var next := CreateStep(docs, snapshot, overwriteExisting, service, u, i);
      PollsOkNoAbort(docs, snapshot, overwriteExisting, service, next, i + 1);
    }
  }

  // ---------------------------------------------------------------------------------------------
  // The delete loop

  /** No name occurs twice: that is how the loop over a HashSet meets its elements. */
  predicate NoDuplicates(xs: seq<string>) {
    forall i, j :: 0 <= i < j < |xs| ==> xs[i] != xs[j]
  }

  /** The candidates whose deleteDocument call succeeds. */
  function SucceededDeletes(candidates: set<string>, deleteOk: string -> bool): (r: set<string>)
    ensures r <= candidates
    ensures forall n :: n in candidates && deleteOk(n) ==> n in r
  {
    set n | n in candidates && deleteOk(n)
  }

  /** The tail of a list without repetitions has none either, and lacks the head. */
  lemma NoDuplicatesTail(xs: seq<string>)
    requires xs != [] && NoDuplicates(xs)
    ensures NoDuplicates(xs[1..]) && xs[0] !in xs[1..]
  {
    var rest := xs[1..];
    forall i, j | 0 <= i < j < |rest| ensures rest[i] != rest[j] {
      assert rest[i] == xs[i + 1] && rest[j] == xs[j + 1];
    }
    forall k | 0 <= k < |rest| ensures rest[k] != xs[0] {
      assert rest[k] == xs[k + 1];
    }
  }

  /** Taking the head off removes exactly it from the successes. */
  lemma SucceededWithoutHead(xs: seq<string>, ok: string -> bool)
    requires xs != [] && xs[0] !in xs[1..]
    ensures SucceededDeletes(ToSet(xs), ok)
         == SucceededDeletes(ToSet(xs[1..]), ok) + (if ok(xs[0]) then {xs[0]} else {})
    ensures xs[0] !in SucceededDeletes(ToSet(xs[1..]), ok)
  {
    assert xs == [xs[0]] + xs[1..];
    assert ToSet(xs) == ToSet(xs[1..]) + {xs[0]};
  }

  /** Over a list without repetitions, counting the successes equals counting the set of successes. */
  lemma {:induction false} SuccessesOfDistinct(xs: seq<string>, ok: string -> bool)
    requires NoDuplicates(xs)
    ensures |Filter(xs, ok)| == |SucceededDeletes(ToSet(xs), ok)|
    decreases |xs|
  {
    if xs != [] {
      NoDuplicatesTail(xs);
      SuccessesOfDistinct(xs[1..], ok);
      SucceededWithoutHead(xs, ok);
      assert |Filter(xs, ok)| == (if ok(xs[0]) then 1 else 0) + |Filter(xs[1..], ok)|;
    }
  }

  // ---------------------------------------------------------------------------------------------
  // One run

  /**
   * What one uploadDocuments call does: its result (the built documents, or the failure that
   * escaped), the new counter values, the names passed to deleteDocument (as a set: the loop's
   * order is the HashSet's), the input positions passed to createDocument and the ETAs logged.
   */
  datatype Outcome = Outcome(result: Result<seq<Document>>, uploaded: nat, deleted: nat,
                             deleteCalls: set<string>, createCalls: seq<nat>, etas: seq<int>)

  /** The run from counters `uploaded0` and `deleted0`, as the two loops perform it. */
  function Reconciled(corpus: Corpus, ds: seq<CiDocument>, overwriteExisting: bool, deleteOthers: bool,
                      service: UploadService, uploaded0: nat, deleted0: nat): (r: Outcome)
    ensures uploaded0 <= r.uploaded <= uploaded0 + |ds|
    ensures deleted0 <= r.deleted
    ensures !deleteOthers ==> r.deleteCalls == {} && r.deleted == deleted0
  {
    match GetAllDocumentNames(corpus, service.listing)
    case Failure(e) => Outcome(Failure(e), uploaded0, deleted0, {}, [], [])
    case Success(snapshot) =>
      var candidates := DeleteCandidates(snapshot, ds, deleteOthers);
      var docs := BuildDocuments(corpus, ds);
      var u := CreatesFrom(docs, snapshot, overwriteExisting, service, Uploads(uploaded0, [], [], false), 0);
      var result := if u.aborted || !service.statsOk then Failure(RemoteFailure) else Success(docs);
      Outcome(result, u.uploaded, deleted0 + |SucceededDeletes(candidates, service.deleteOk)|,
              candidates, u.created, u.etas)
  }

  /** A listing that fails, or holds an id without '/', escapes before any delete or create. */
  lemma ListingFailureChangesNothing(corpus: Corpus, ds: seq<CiDocument>, overwriteExisting: bool,
                                     deleteOthers: bool, service: UploadService, uploaded0: nat, deleted0: nat)
    requires GetAllDocumentNames(corpus, service.listing).Failure?
    ensures var o := Reconciled(corpus, ds, overwriteExisting, deleteOthers, service, uploaded0, deleted0);
      o.result == Failure(GetAllDocumentNames(corpus, service.listing).error) &&
      o.uploaded == uploaded0 && o.deleted == deleted0 && o.deleteCalls == {} && o.createCalls == []
  {
  }

  /**
   * The names deleted are the snapshot's names no input has, and only with deleteOthers; the
   * counter grows by the number of them whose delete succeeds, at most the number of candidates.
   */
  lemma ReconcileDeletes(corpus: Corpus, ds: seq<CiDocument>, overwriteExisting: bool, deleteOthers: bool,
                         service: UploadService, uploaded0: nat, deleted0: nat)
    requires GetAllDocumentNames(corpus, service.listing).Success?
    ensures var snapshot := GetAllDocumentNames(corpus, service.listing).value;
      var o := Reconciled(corpus, ds, overwriteExisting, deleteOthers, service, uploaded0, deleted0);
      (forall n :: n in o.deleteCalls <==> deleteOthers && n in snapshot && n !in InputNames(ds)) &&
      (forall n, i :: n in o.deleteCalls && 0 <= i < |ds| ==> ds[i].name != n) &&
      deleted0 <= o.deleted <= deleted0 + |o.deleteCalls|
  {
    var snapshot := GetAllDocumentNames(corpus, service.listing).value;
    var candidates := DeleteCandidates(snapshot, ds, deleteOthers);
    SubsetSize(SucceededDeletes(candidates, service.deleteOk), candidates);
    forall n | n in InputNames(ds) ensures n !in candidates {
      var i :| 0 <= i < |ds| && ds[i].name == n;
    }
  }

  lemma {:induction false} SubsetSize(a: set<string>, b: set<string>)
    requires a <= b
    ensures |a| <= |b|
    decreases |b|
  {
    if b != {} {
      var x :| x in b;
      SubsetSize(a - {x}, b - {x});
      if x in a {
        assert a == (a - {x}) + {x};
      } else {
        assert a == a - {x};
      }
    }
  }

  /**
   * With overwriting off no input already in the snapshot is created; every create call is for an
   * input position, the counter grows by the number of calls that succeeded (at most one per
   * input), and at most one ETA is logged per call.
   */
  lemma ReconcileCreates(corpus: Corpus, ds: seq<CiDocument>, overwriteExisting: bool, deleteOthers: bool,
                         service: UploadService, uploaded0: nat, deleted0: nat)
    requires GetAllDocumentNames(corpus, service.listing).Success?
    ensures var snapshot := GetAllDocumentNames(corpus, service.listing).value;
      var o := Reconciled(corpus, ds, overwriteExisting, deleteOthers, service, uploaded0, deleted0);
      (forall k :: 0 <= k < |o.createCalls| ==>
         o.createCalls[k] < |ds| && (overwriteExisting || ds[o.createCalls[k]].name !in snapshot)) &&
      o.uploaded == uploaded0 + |Filter(o.createCalls, service.createOk)| &&
      uploaded0 <= o.uploaded <= uploaded0 + |ds| &&
      |o.etas| <= |o.createCalls| <= |ds|
  {
    var snapshot := GetAllDocumentNames(corpus, service.listing).value;
    var docs := BuildDocuments(corpus, ds);
    var start := Uploads(uploaded0, [], [], false);
    CreatesExtend(docs, snapshot, overwriteExisting, service, start, 0);
    CreatesOnlyWanted(docs, snapshot, overwriteExisting, service, start, 0);
    CreatesCount(docs, snapshot, overwriteExisting, service, start, 0);
    var u := CreatesFrom(docs, snapshot, overwriteExisting, service, start, 0);
    assert u.created[0..] == u.created;
  }

  /**
   * A run that ends normally returns one built document per input, in order, and made exactly the
   * planned create calls, whatever failed; it ends normally when the listing, every poll and the
   * stats call succeed.
   */
  lemma ReconcileCompletes(corpus: Corpus, ds: seq<CiDocument>, overwriteExisting: bool, deleteOthers: bool,
                           service: UploadService, uploaded0: nat, deleted0: nat)
    ensures var o := Reconciled(corpus, ds, overwriteExisting, deleteOthers, service, uploaded0, deleted0);
      o.result.Success? ==>
        o.result.value == BuildDocuments(corpus, ds) &&
        o.createCalls == PlannedCreates(BuildDocuments(corpus, ds), GetAllDocumentNames(corpus, service.listing).value,
                                        overwriteExisting, 0)
    ensures GetAllDocumentNames(corpus, service.listing).Success? && service.statsOk &&
            (forall j :: 0 <= j < |ds| ==> service.pollOk(j)) ==>
              Reconciled(corpus, ds, overwriteExisting, deleteOthers, service, uploaded0, deleted0).result.Success?
  {
    var names := GetAllDocumentNames(corpus, service.listing);
    if names.Success? {
      var docs := BuildDocuments(corpus, ds);
      var start := Uploads(uploaded0, [], [], false);
      var u := CreatesFrom(docs, names.value, overwriteExisting, service, start, 0);
      if !u.aborted {
        CreatesAllPlanned(docs, names.value, overwriteExisting, service, start, 0);
      }
      if forall j :: 0 <= j < |ds| ==> service.pollOk(j) {
        PollsOkNoAbort(docs, names.value, overwriteExisting, service, start, 0);
      }
    }
  }

  /** The stopwatch decides nothing: another clock gives the same result, counters and calls. */
  lemma ReconcileIgnoresClock(corpus: Corpus, ds: seq<CiDocument>, overwriteExisting: bool, deleteOthers: bool,
                              service: UploadService, clock: nat -> nat, uploaded0: nat, deleted0: nat)
    ensures var o1 := Reconciled(corpus, ds, overwriteExisting, deleteOthers, service, uploaded0, deleted0);
      var o2 := Reconciled(corpus, ds, overwriteExisting, deleteOthers, service.(clock := clock), uploaded0, deleted0);
      o1.result == o2.result && o1.uploaded == o2.uploaded && o1.deleted == o2.deleted &&
      o1.deleteCalls == o2.deleteCalls && o1.createCalls == o2.createCalls && |o1.etas| == |o2.etas|
  {
    var names := GetAllDocumentNames(corpus, service.listing);
    if names.Success? {
      var u := Uploads(uploaded0, [], [], false);
      CreatesIgnoreEstimates(BuildDocuments(corpus, ds), names.value, overwriteExisting, service,
                             service.(clock := clock), u, u, 0);
    }
  }

  /** Per run the counters grow by at most one per input and one per name deleted. */
  lemma CountersBounded(corpus: Corpus, ds: seq<CiDocument>, overwriteExisting: bool, deleteOthers: bool,
                        service: UploadService, uploaded0: nat, deleted0: nat, deleteCalls: seq<string>)
    requires NoDuplicates(deleteCalls)
    requires ToSet(deleteCalls) == Reconciled(corpus, ds, overwriteExisting, deleteOthers, service, uploaded0, deleted0).deleteCalls
    ensures var o := Reconciled(corpus, ds, overwriteExisting, deleteOthers, service, uploaded0, deleted0);
      uploaded0 <= o.uploaded <= uploaded0 + |ds| && deleted0 <= o.deleted <= deleted0 + |deleteCalls|
  {
    if GetAllDocumentNames(corpus, service.listing).Success? {
      ReconcileCreates(corpus, ds, overwriteExisting, deleteOthers, service, uploaded0, deleted0);
      ReconcileDeletes(corpus, ds, overwriteExisting, deleteOthers, service, uploaded0, deleted0);
      DistinctSize(deleteCalls);
    }
  }

  /** A list without repetitions is as long as its set. */
  lemma {:induction false} DistinctSize(xs: seq<string>)
    requires NoDuplicates(xs)
    ensures |ToSet(xs)| == |xs|
    decreases |xs|
  {
    if xs != [] {
      NoDuplicatesTail(xs);
      DistinctSize(xs[1..]);
      assert xs == [xs[0]] + xs[1..];
      assert ToSet(xs) == ToSet(xs[1..]) + {xs[0]};
    }
  }

  /** The loop building `documentsToAdd`. */
  method BuildDocumentsLoop(corpus: Corpus, ds: seq<CiDocument>) returns (docs: seq<Document>)
    ensures docs == BuildDocuments(corpus, ds)
  {
    docs := [];
    for k := 0 to |ds|
      invariant |docs| == k
      invariant forall m :: 0 <= m < k ==> docs[m] == BuildDocument(corpus, ds[m])
    {
      docs := docs + [BuildDocument(corpus, ds[k])];
    }
  }

  /** Appending a name the list lacks keeps it free of repetitions and adds the name to its set. */
  lemma AppendFresh(names: seq<string>, n: string)
    requires NoDuplicates(names) && n !in names
    ensures NoDuplicates(names + [n])
    ensures ToSet(names + [n]) == ToSet(names) + {n}
  {
  }

  /** `documentsToDelete`: the candidate names met one at a time, in no particular order. */
  method DrawNames(candidates: set<string>) returns (names: seq<string>)
    ensures ToSet(names) == candidates
    ensures NoDuplicates(names)
  {
    names := [];
    var left := candidates;
    while left != {}
      invariant left <= candidates
      invariant ToSet(names) == candidates - left
      invariant NoDuplicates(names)
      decreases |left|
    {
      var n :| n in left;
      assert n !in ToSet(names);
      AppendFresh(names, n);
      names := names + [n];
      left := left - {n};
    }
  }

  /** The test the delete loop applies to each drawn name. */
  function InSnapshot(snapshot: set<string>): (p: string -> bool)
    ensures forall n :: p(n) <==> n in snapshot
  {
    n => n in snapshot
  }

  /**
   * The delete loop: a name missing from the snapshot is skipped, every other one is deleted, and
   * a failing delete is caught; the counter counts the deletes that succeed.
   */
  method DeleteLoop(toDelete: seq<string>, snapshot: set<string>, deleteOk: string -> bool, deleted0: nat)
    returns (deleted: nat, calls: seq<string>)
    ensures calls == Filter(toDelete, InSnapshot(snapshot))
    ensures (forall k :: 0 <= k < |toDelete| ==> toDelete[k] in snapshot) ==> calls == toDelete
    ensures forall k :: 0 <= k < |calls| ==> calls[k] in toDelete && calls[k] in snapshot
    ensures deleted == deleted0 + |Filter(calls, deleteOk)|
  {
    deleted, calls := deleted0, [];
    for i := 0 to |toDelete|
      invariant calls == Filter(toDelete[..i], InSnapshot(snapshot))
      invariant deleted == deleted0 + |Filter(calls, deleteOk)|
    {
      var name := toDelete[i];
      FilterPrefixStep(toDelete, i, InSnapshot(snapshot));
      if name in snapshot {
        FilterAppendCount(calls, name, deleteOk);
        calls := calls + [name];
        if deleteOk(name) {
          deleted := deleted + 1;
        }
      }
    }
    assert toDelete[..|toDelete|] == toDelete;
    FilterKept(toDelete, InSnapshot(snapshot), calls);
  }


  /** The create loop, ending early when a poll throws. */
  method CreateLoop(docs: seq<Document>, snapshot: set<string>, overwriteExisting: bool, service: UploadService,
                    uploaded0: nat)
    returns (u: Uploads)
    ensures u == CreatesFrom(docs, snapshot, overwriteExisting, service, Uploads(uploaded0, [], [], false), 0)
  {
    var uploaded: nat, createCalls: seq<nat>, etas: seq<int> := uploaded0, [], [];
    var i := 0;
    while i < |docs|
      invariant 0 <= i <= |docs|
      invariant CreatesFrom(docs, snapshot, overwriteExisting, service, Uploads(uploaded, createCalls, etas, false), i)
             == CreatesFrom(docs, snapshot, overwriteExisting, service, Uploads(uploaded0, [], [], false), 0)
    {
      var doc := docs[i];
      if !overwriteExisting && doc.name in snapshot {
        i := i + 1;
        continue;
      }
      createCalls := createCalls + [i];
      if service.createOk(i) {
        uploaded := uploaded + 1;
      }
      if uploaded % StatsInterval == 0 {
        if !service.pollOk(i) {
          return Uploads(uploaded, createCalls, etas, true);
        }
        if uploaded > 0 {
          var elapsed := service.clock(i);
          etas := etas + [EtaEstimate(elapsed, uploaded, |docs|)];
        }
      }
      i := i + 1;
    }
    return Uploads(uploaded, createCalls, etas, false);
  }

  /**
   * The shared body of both `uploadDocuments`: a failing listing escapes before any call, the
   * delete and create loops catch a failing call and go on, and the processing-state poll and the
   * closing stats call are outside any try, so their failure escapes (the counters keep what
   * they counted by then).
   */
  method Reconcile(corpus: Corpus, ds: seq<CiDocument>, overwriteExisting: bool, deleteOthers: bool,
                   service: UploadService, uploaded0: nat, deleted0: nat)
    returns (r: Result<seq<Document>>, uploaded: nat, deleted: nat,
             deleteCalls: seq<string>, createCalls: seq<nat>, etas: seq<int>)
    ensures var o := Reconciled(corpus, ds, overwriteExisting, deleteOthers, service, uploaded0, deleted0);
      r == o.result && uploaded == o.uploaded && deleted == o.deleted &&
      createCalls == o.createCalls && etas == o.etas
    ensures ToSet(deleteCalls) == Reconciled(corpus, ds, overwriteExisting, deleteOthers, service, uploaded0, deleted0).deleteCalls
    ensures NoDuplicates(deleteCalls)
  {
    var names := GetAllDocumentNames(corpus, service.listing);
    if names.Failure? {
      return Failure(names.error), uploaded0, deleted0, [], [], [];
    }
    var snapshot := names.value;
    var docs := BuildDocumentsLoop(corpus, ds);
    var candidates := DeleteCandidates(snapshot, ds, deleteOthers);
    var toDelete := DrawNames(candidates);
    deleted, deleteCalls := DeleteLoop(toDelete, snapshot, service.deleteOk, deleted0);
    SuccessesOfDistinct(deleteCalls, service.deleteOk);
    var u := CreateLoop(docs, snapshot, overwriteExisting, service, uploaded0);
    uploaded, createCalls, etas := u.uploaded, u.created, u.etas;
    if u.aborted || !service.statsOk {
      return Failure(RemoteFailure), uploaded, deleted, deleteCalls, createCalls, etas;
    }
    return Success(docs), uploaded, deleted, deleteCalls, createCalls, etas;
  }
}
