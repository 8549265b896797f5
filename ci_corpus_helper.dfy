/**
 * gmjonker/citool/CiCorpusHelper.java: getting (or creating) a corpus, listing its documents, and
 * copying a fetched document's fields. Every call into the Concept Insights service is an
 * argument: the outcome the service gave, or a function from the attempt number to that outcome.
 */
module CiCorpusHelper {
  import opened Outcomes
  import opened JavaStrings
  import opened Watson
  import opened Util
  import opened CiUtil

  // ---------------------------------------------------------------------------------------------
  // getCorpusWithRetries

  /** The number of retries after the first lookup (`retriesLeft` starts at 3). */
  const Retries: nat := 3

  /** The pause before a retry, in milliseconds (`retryTime * 1000` with `retryTime == 5`). */
  const RetryPauseMillis: nat := 5000

  /**
   * `getCorpusWithRetries`: looks the corpus up until a lookup succeeds, at most 1 + 3 times,
   * pausing 5 s after each failure that is followed by another lookup. `fetch(i)` is what the
   * service answers to lookup number i. `lookups` counts the lookups made and `pauses` lists the
   * sleeps in the order they happen.
   */
  method GetCorpusWithRetries(accountId: string, corpusName: string, fetch: nat -> Result<Corpus>)
    returns (r: Result<Corpus>, lookups: nat, pauses: seq<nat>)
    ensures 1 <= lookups <= Retries + 1
    ensures forall i :: 0 <= i < lookups - 1 ==> fetch(i).Failure?
    ensures r.Success? ==> r == fetch(lookups - 1)
    ensures r.Failure? ==> lookups == Retries + 1 && fetch(Retries).Failure? && r.error == RetriesExhausted
    ensures |pauses| == lookups - 1
    ensures forall i :: 0 <= i < |pauses| ==> pauses[i] == RetryPauseMillis
  {
    var retriesLeft: nat := Retries;
    lookups := 0;
    pauses := [];
    while true
      invariant lookups + retriesLeft == Retries
      invariant forall i :: 0 <= i < lookups ==> fetch(i).Failure?
      invariant |pauses| == lookups
      invariant forall i :: 0 <= i < |pauses| ==> pauses[i] == RetryPauseMillis
      decreases retriesLeft
    {
      var answer := fetch(lookups);
      lookups := lookups + 1;
      if answer.Success? {
        return answer, lookups, pauses;
      }
      if retriesLeft == 0 {
        return Failure(RetriesExhausted), lookups, pauses;
      }
      retriesLeft := retriesLeft - 1;
      pauses := pauses + [RetryPauseMillis];
    }
  }

  // ---------------------------------------------------------------------------------------------
  // getOrCreateCorpus

  /** What `getCorpus` does: returns the corpus, raises BadRequestException, or raises something else. */
  datatype CorpusLookup = Found(corpus: Corpus) | Rejected(message: Option<string>) | Crashed

  /** How `getOrCreateCorpus` ends. `Exited` is `System.exit(0)` after the user declined. */
  datatype CorpusOutcome = Existing(corpus: Corpus) | Created(corpus: Corpus) | Exited | Thrown(error: Error)

  /** The service's message for a corpus that does not exist. */
  const NotFoundMessage: string := "not found"

  /** The user's answer to "Are you sure? [yn]" accepts: lower-cased, it starts with "y". */
  predicate Accepts(line: string) {
    StartsWith(ToLowerCase(line), "y")
  }

  /** The lookup said "not found" and a line was read that accepts: the only case that calls createCorpus. */
  predicate CreateAttempted(lookup: CorpusLookup, answer: Option<string>) {
    lookup == Rejected(Some(NotFoundMessage)) && answer.Some? && Accepts(answer.value)
  }

  /**
   * `getOrCreateCorpus(service, accountId, corpusName)`: `lookup` is what getCorpus did,
   * `answer` the line read from standard input (None when there is none: Scanner.nextLine
   * throws), `createOk` whether the createCorpus call returned normally.
   */
  function GetOrCreateCorpus(accountId: string, corpusName: string, lookup: CorpusLookup,
                             answer: Option<string>, createOk: bool): (r: CorpusOutcome)
    ensures lookup.Found? ==> r == Existing(lookup.corpus)
    ensures r.Created? <==> CreateAttempted(lookup, answer) && createOk
    ensures r.Created? ==> r.corpus == Corpus(accountId, corpusName)
    ensures r.Exited? <==> lookup == Rejected(Some(NotFoundMessage)) && answer.Some? && !Accepts(answer.value)
    ensures lookup.Rejected? && lookup.message != Some(NotFoundMessage) ==> r == Thrown(BadRequest(lookup.message))
    ensures lookup == Rejected(Some(NotFoundMessage)) && answer.None? ==> r == Thrown(NoInputLine)
    ensures lookup.Crashed? ==> r == Thrown(RemoteFailure)
    ensures CreateAttempted(lookup, answer) && !createOk ==> r == Thrown(RemoteFailure)
  {
    match lookup
    case Found(corpus) => Existing(corpus)
    case Crashed => Thrown(RemoteFailure)
    case Rejected(message) =>
      if message != Some(NotFoundMessage) then Thrown(BadRequest(message))
      else if answer.None? then Thrown(NoInputLine)
      else if !Accepts(answer.value) then Exited
      else if createOk then Created(Corpus(accountId, corpusName))
      else Thrown(RemoteFailure)
  }

  /** The answer is read only after a "not found": in every other case it makes no difference. */
  lemma AnswerOnlyMattersWhenNotFound(accountId: string, corpusName: string, lookup: CorpusLookup,
                                      answer1: Option<string>, answer2: Option<string>, createOk: bool)
    requires lookup != Rejected(Some(NotFoundMessage))
    ensures GetOrCreateCorpus(accountId, corpusName, lookup, answer1, createOk)
         == GetOrCreateCorpus(accountId, corpusName, lookup, answer2, createOk)
  {
  }

  // ---------------------------------------------------------------------------------------------
  // Listing documents

  /** The number of ids at which the listing may have been cut off by the service. */
  const ListingLimit: nat := 100000

  /** `getAllDocumentIds`: the set of listed ids and whether the possible-truncation warning is logged. */
  datatype DocumentIds = DocumentIds(ids: set<string>, truncationWarned: bool)

  /** The elements of a list, as `new HashSet<>(list)` collects them. */
  function ToSet(xs: seq<string>): (r: set<string>)
    ensures forall x :: x in r <==> x in xs
  {
    set x | x in xs
  }

  /** Collecting a list into a set never makes it larger. */
  lemma {:induction false} ToSetSize(xs: seq<string>)
    ensures |ToSet(xs)| <= |xs|
    decreases |xs|
  {
    if xs != [] {
      var init := xs[..|xs| - 1];
      ToSetSize(init);
      assert xs == init + [xs[|xs| - 1]];
      assert ToSet(xs) == ToSet(init) + {xs[|xs| - 1]};
    }
  }

  /**
   * `getAllDocumentIds(service, corpus)`: `listing` is what listDocuments returned (the ids in the
   * service's order) or the failure it raised. The log line's `getNameFromId(corpus.getId())`
   * cannot fail, since a corpus id always holds '/'.
   */
  function GetAllDocumentIds(corpus: Corpus, listing: Result<seq<string>>): (r: Result<DocumentIds>)
    ensures listing.Failure? ==> r == Failure(listing.error)
    ensures listing.Success? ==> r.Success?
    ensures r.Success? ==> forall id :: id in r.value.ids <==> id in listing.value
    ensures r.Success? ==> |r.value.ids| <= |listing.value|
    ensures r.Success? ==> (r.value.truncationWarned <==> |listing.value| == ListingLimit)
  {
    assert GetNameFromId(CorpusId(corpus)).Success?;
    match listing
    case Failure(e) => Failure(e)
    case Success(list) =>
      ToSetSize(list);
      Success(DocumentIds(ToSet(list), |list| == ListingLimit))
  }

  /** Every id holds '/', so getNameFromId accepts it. */
  predicate AllWatsonIds(ids: set<string>) {
    forall id :: id in ids ==> '/' in id
  }

  /**
   * The id getNameFromId is taken to reject first. The HashSet's iteration order is unspecified;
   * the model picks the first such id of the listing.
   */
  function FirstNonWatsonId(list: seq<string>): (id: string)
    requires exists id :: id in list && '/' !in id
    ensures id in list && '/' !in id
  {
    var bad := Filter(list, id => '/' !in id);
    var w :| w in list && '/' !in w;
    assert w in bad;
    bad[0]
  }

  /**
   * `getAllDocumentNames(service, corpus)`: the image of the id set under getNameFromId, which
   * throws on the first id without '/' the set's iteration meets.
   */
  function GetAllDocumentNames(corpus: Corpus, listing: Result<seq<string>>): (r: Result<set<string>>)
    ensures listing.Failure? ==> r == Failure(listing.error)
    ensures listing.Success? ==> (r.Success? <==> forall id :: id in listing.value ==> '/' in id)
    ensures r.Failure? && listing.Success? ==>
              r.error.InvalidWatsonId? && r.error.id in listing.value && '/' !in r.error.id
    ensures r.Success? ==> forall name :: name in r.value <==>
              exists id :: id in listing.value && GetNameFromId(id) == Success(name)
    ensures r.Success? ==> |r.value| <= |listing.value|
  {
    match GetAllDocumentIds(corpus, listing)
    case Failure(e) => Failure(e)
    case Success(listed) =>
      var ids := listed.ids;
      if AllWatsonIds(ids) then
        MapSetSize(ids, NameOfId);
        Success(MapSet(ids, NameOfId))
      else
        Failure(InvalidWatsonId(FirstNonWatsonId(listing.value)))
  }

  /** For a listing of Watson ids, the names are the image of the id set under NameOfId. */
  lemma NamesAreImage(corpus: Corpus, list: seq<string>)
    requires forall id :: id in list ==> '/' in id
    ensures GetAllDocumentNames(corpus, Success(list)) == Success(MapSet(ToSet(list), NameOfId))
  {
    assert GetAllDocumentIds(corpus, Success(list)) == Success(DocumentIds(ToSet(list), |list| == ListingLimit));
    assert AllWatsonIds(ToSet(list));
  }

  /** Two listed ids that end in the same name make the name set smaller than the id set. */
  lemma NamesMayCollide(corpus: Corpus, list: seq<string>, id1: string, id2: string)
    requires forall id :: id in list ==> '/' in id
    requires id1 in list && id2 in list && id1 != id2
    requires GetNameFromId(id1) == GetNameFromId(id2)
    ensures |GetAllDocumentNames(corpus, Success(list)).value| < |ToSet(list)|
  {
    NamesAreImage(corpus, list);
    MapSetCollision(ToSet(list), NameOfId, id1, id2);
  }

  /** The list in its first-occurrence order with later repetitions dropped. */
  function Distinct(xs: seq<string>): (r: seq<string>)
    ensures forall x :: x in r <==> x in xs
    ensures forall i, j :: 0 <= i < j < |r| ==> r[i] != r[j]
    ensures |r| <= |xs|
    decreases |xs|
  {
    if xs == [] then []
    else
      var init := Distinct(xs[..|xs| - 1]);
      assert forall x :: x in xs <==> x in xs[..|xs| - 1] || x == xs[|xs| - 1] by {
        assert xs == xs[..|xs| - 1] + [xs[|xs| - 1]];
      }
      if xs[|xs| - 1] in init then init else init + [xs[|xs| - 1]]
  }

  /** Whether the document an id names matches the query, both normalised. */
  predicate NameMatches(id: string, query: string) {
    ContainsNormalized(NameOfId(id), query)
  }

  /** The listed ids, each once and in listing order, whose name matches the query. */
  function MatchingIds(list: seq<string>, query: string): (r: seq<string>)
    ensures forall i :: 0 <= i < |r| ==> r[i] in list && NameMatches(r[i], query)
    ensures forall id :: id in list && NameMatches(id, query) ==> id in r
    ensures forall i, j :: 0 <= i < j < |r| ==> r[i] != r[j]
    ensures |r| <= |list|
  {
    var ids := Distinct(list);
    var p := id => NameMatches(id, query);
    var kept := Filter(ids, p);
    forall id | id in list && NameMatches(id, query) ensures id in kept {
      assert id in ids;
      var k :| 0 <= k < |ids| && ids[k] == id;
      assert p(ids[k]);
    }
    forall i | 0 <= i < |kept| ensures kept[i] in list && NameMatches(kept[i], query) {
      assert kept[i] in ids && p(kept[i]);
    }
    FilterDistinct(ids, p);
    kept
  }

  /** Each element of the image of a list is the image of an element of it, with what that element satisfies. */
  lemma ImagesHaveSources(kept: seq<string>, list: seq<string>, p: string -> bool, f: string -> Document)
    requires forall i :: 0 <= i < |kept| ==> kept[i] in list && p(kept[i])
    ensures forall d :: d in Map(kept, f) ==> exists id :: id in list && p(id) && d == f(id)
  {
    forall d | d in Map(kept, f)
      ensures exists id :: id in list && p(id) && d == f(id)
    {
      var i :| 0 <= i < |kept| && Map(kept, f)[i] == d;
      assert kept[i] in list && p(kept[i]) && d == f(kept[i]);
    }
  }

  /**
   * `findDocumentsByPartialName(service, corpus, query)`: the documents of the listed ids whose
   * normalised name contains the normalised query. The Java stream runs over a HashSet, whose
   * order is unspecified; the model keeps the service's listing order, each id once.
   */
  function FindDocumentsByPartialName(corpus: Corpus, listing: Result<seq<string>>, query: string)
    : (r: Result<seq<Document>>)
    ensures listing.Failure? ==> r == Failure(listing.error)
    ensures listing.Success? ==> (r.Success? <==> forall id :: id in listing.value ==> '/' in id)
    ensures r.Failure? && listing.Success? ==>
              r.error.InvalidWatsonId? && r.error.id in listing.value && '/' !in r.error.id
    ensures r.Success? ==> forall id :: id in listing.value && NameMatches(id, query) ==>
              GetDocumentFromId(id, corpus) in r.value
    ensures r.Success? ==> forall d :: d in r.value ==>
              exists id :: id in listing.value && NameMatches(id, query) && d == GetDocumentFromId(id, corpus)
    ensures r.Success? ==> |r.value| <= |listing.value|
    ensures r.Success? ==> |r.value| == |MatchingIds(listing.value, query)|
    ensures r.Success? ==> forall i :: 0 <= i < |r.value| ==>
              r.value[i] == GetDocumentFromId(MatchingIds(listing.value, query)[i], corpus)
  {
    match GetAllDocumentIds(corpus, listing)
    case Failure(e) => Failure(e)
    case Success(listed) =>
      if AllWatsonIds(listed.ids) then
        var kept := MatchingIds(listing.value, query);
        var docs := Map(kept, id => GetDocumentFromId(id, corpus));
        ImagesHaveSources(kept, listing.value, id => NameMatches(id, query), id => GetDocumentFromId(id, corpus));
        Success(docs)
      else
        Failure(InvalidWatsonId(FirstNonWatsonId(listing.value)))
  }

  // ---------------------------------------------------------------------------------------------
  // enrich

  /**
   * What `enrich(service, document)` leaves in the document: expiresOn, label, lastModified, parts,
   * timeToLive and userFields copied from the fetched one; corpus and name stay. `fetched` is what
   * getDocument returned. The Java asserts that the ids and names agree are disabled by default
   * and are not checked here either.
   */
  function Enriched(document: Document, fetched: Result<Document>): (r: Result<Document>)
    ensures fetched.Failure? ==> r == Failure(fetched.error)
    ensures fetched.Success? ==> r.Success?
    ensures r.Success? ==> r.value.corpus == document.corpus && r.value.name == document.name
    ensures r.Success? ==> r.value.expiresOn == fetched.value.expiresOn && r.value.docLabel == fetched.value.docLabel
    ensures r.Success? ==> r.value.lastModified == fetched.value.lastModified && r.value.parts == fetched.value.parts
    ensures r.Success? ==> r.value.timeToLive == fetched.value.timeToLive && r.value.userFields == fetched.value.userFields
  {
    match fetched
    case Failure(e) => Failure(e)
    case Success(full) =>
      Success(document.(docLabel := full.docLabel, parts := full.parts, expiresOn := full.expiresOn,
                        lastModified := full.lastModified, timeToLive := full.timeToLive,
                        userFields := full.userFields))
  }

  /** A client-library Document object, which its setters change in place. */
  class DocumentObject {
    var fields: Document

    constructor (fields: Document)
      ensures this.fields == fields
    {
      this.fields := fields;
    }
  }

  /**
   * `enrich(service, document)`: getDocument (whose failure escapes before anything is set), then
   * the six setters one after the other.
   */
  method Enrich(document: DocumentObject, fetched: Result<Document>) returns (r: Result<()>)
    modifies document
    ensures r.Failure? <==> fetched.Failure?
    ensures fetched.Failure? ==> r.error == fetched.error && document.fields == old(document.fields)
    ensures fetched.Success? ==> Enriched(old(document.fields), fetched) == Success(document.fields)
  {
    if fetched.Failure? {
      return Failure(fetched.error);
    }
    var full := fetched.value;
    document.fields := document.fields.(expiresOn := full.expiresOn);
    document.fields := document.fields.(docLabel := full.docLabel);
    document.fields := document.fields.(lastModified := full.lastModified);
    document.fields := document.fields.(parts := full.parts);
    document.fields := document.fields.(timeToLive := full.timeToLive);
    document.fields := document.fields.(userFields := full.userFields);
    return Success(());
  }

  /** When the fetched document is the one asked for (same corpus and name), enriching yields it. */
  lemma EnrichGivesFetched(document: Document, full: Document)
    requires full.corpus == document.corpus && full.name == document.name
    ensures Enriched(document, Success(full)) == Success(full)
  {
  }

  /** Whatever the document held before, only its corpus and name survive enrichment. */
  lemma EnrichForgetsOldContents(d1: Document, d2: Document, fetched: Result<Document>)
    requires d1.corpus == d2.corpus && d1.name == d2.name
    ensures Enriched(d1, fetched) == Enriched(d2, fetched)
  {
  }
}
