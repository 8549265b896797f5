/**
 * gmjonker/citool/CiGraphQuerier.java: whether a concept name exists in a graph, asked of the
 * service directly or through a memo of the names already found and not found. The service's
 * `getConcept` is the function `service`, from the graph and the name to what the call does.
 */
module CiGraphQuerier {
  import opened Outcomes

  /** A concept graph of an account, such as the public Wikipedia graph. */
  datatype Graph = Graph(accountId: string, name: string)

  /**
   * What `getConcept(new Concept(graph, conceptName))` does: returns metadata, raises
   * NotFoundException, raises another ServiceResponseException, or raises any other exception
   * (which neither method catches).
   */
  datatype Lookup = Found | NotFound | ServiceError | Unexpected

  /** The answer the uncached and the cached check give to one lookup. */
  function AnswerOf(lookup: Lookup): (r: Result<bool>)
    ensures r == Success(true) <==> lookup == Found
    ensures r.Failure? <==> lookup == Unexpected
    ensures r.Failure? ==> r.error == RemoteFailure
  {
    match lookup
    case Found => Success(true)
    case NotFound => Success(false)
    case ServiceError => Success(false)
    case Unexpected => Failure(RemoteFailure)
  }

  /** `checkConceptNameExists(graph, conceptName)`: one lookup; it keeps nothing. */
  function CheckConceptNameExists(graph: Graph, conceptName: string, service: (Graph, string) -> Lookup)
    : (r: Result<bool>)
    ensures r == Success(true) <==> service(graph, conceptName) == Found
    ensures r == Success(false) <==> service(graph, conceptName) in {NotFound, ServiceError}
    ensures r.Failure? <==> service(graph, conceptName) == Unexpected
  {
    AnswerOf(service(graph, conceptName))
  }

  // ---------------------------------------------------------------------------------------------
  // The memo

  /** The two name sets of a querier: `conceptNamesFound` and `conceptNamesNotFound`. */
  datatype Memo = Memo(found: set<string>, notFound: set<string>)

  /** No name is both found and not found. */
  predicate Disjoint(m: Memo) {
    m.found !! m.notFound
  }

  /** What one cached check answers, the memo it leaves and whether it called the service. */
  datatype Step = Step(answer: Result<bool>, memo: Memo, remoteCalled: bool)

  /**
   * One `checkConceptNameExistsCached(graph, conceptName)` on memo `m`: a remembered name is
   * answered from the memo, keyed by the name alone; otherwise the service is asked, a found name
   * joins `found`, a not-found name joins `notFound`, and a failed lookup remembers nothing.
   */
  function CacheStep(m: Memo, graph: Graph, conceptName: string, service: (Graph, string) -> Lookup)
    : (s: Step)
    ensures conceptName in m.found ==> s == Step(Success(true), m, false)
    ensures conceptName !in m.found && conceptName in m.notFound ==> s == Step(Success(false), m, false)
    ensures s.remoteCalled <==> conceptName !in m.found && conceptName !in m.notFound
    ensures s.remoteCalled ==> s.answer == CheckConceptNameExists(graph, conceptName, service)
    ensures s.memo.found == m.found + (if s.remoteCalled && s.answer == Success(true) then {conceptName} else {})
    ensures s.memo.notFound == m.notFound +
              (if s.remoteCalled && service(graph, conceptName) == NotFound then {conceptName} else {})
    ensures Disjoint(m) ==> Disjoint(s.memo)
  {
    if conceptName in m.found then Step(Success(true), m, false)
    else if conceptName in m.notFound then Step(Success(false), m, false)
    else
      var lookup := service(graph, conceptName);
      match lookup
      case Found => Step(Success(true), m.(found := m.found + {conceptName}), true)
      case NotFound => Step(Success(false), m.(notFound := m.notFound + {conceptName}), true)
      case ServiceError => Step(Success(false), m, true)
      case Unexpected => Step(Failure(RemoteFailure), m, true)
  }

  /** A cache hit does not depend on the graph asked about nor on what the service would say. */
  lemma HitIgnoresGraphAndService(m: Memo, g1: Graph, g2: Graph, conceptName: string,
                                  s1: (Graph, string) -> Lookup, s2: (Graph, string) -> Lookup)
    requires conceptName in m.found || conceptName in m.notFound
    ensures CacheStep(m, g1, conceptName, s1) == CacheStep(m, g2, conceptName, s2)
  {
  }

  /** A memo's answers agree with the service whenever the memo was filled from that service. */
  predicate Consistent(m: Memo, graph: Graph, service: (Graph, string) -> Lookup) {
    (forall n :: n in m.found ==> service(graph, n) == Found) &&
    (forall n :: n in m.notFound ==> service(graph, n) == NotFound)
  }

  /**
   * Against a memo filled from the same graph and service, the cached check gives the uncached
   * check's answer, and the memo stays consistent with the service.
   */
  lemma CacheAgreesWithService(m: Memo, graph: Graph, conceptName: string, service: (Graph, string) -> Lookup)
    requires Consistent(m, graph, service)
    ensures CacheStep(m, graph, conceptName, service).answer == CheckConceptNameExists(graph, conceptName, service)
    ensures Consistent(CacheStep(m, graph, conceptName, service).memo, graph, service)
  {
  }

  /** One query: the graph and the concept name. */
  datatype Query = Query(graph: Graph, conceptName: string)

  /**
   * The answers to a sequence of cached checks on one querier, and the memo left at the end.
   * Check number i reaches the service as `services[i]`, so the service may answer the same name
   * differently over time (a transient failure, say).
   */
  function Replay(m: Memo, queries: seq<Query>, services: seq<(Graph, string) -> Lookup>)
    : (r: (seq<Result<bool>>, Memo))
    requires |services| == |queries|
    ensures |r.0| == |queries|
    ensures m.found <= r.1.found && m.notFound <= r.1.notFound
    ensures Disjoint(m) ==> Disjoint(r.1)
    decreases |queries|
  {
    if queries == [] then ([], m)
    else
      var first := CacheStep(m, queries[0].graph, queries[0].conceptName, services[0]);
      var rest := Replay(first.memo, queries[1..], services[1..]);
      ([first.answer] + rest.0, rest.1)
  }

  /**
   * Once a name is found it is answered true by every later check; once not found, false; and
   * this whatever the service would answer by then.
   */
  lemma {:induction false} AnswersAreSticky(m: Memo, queries: seq<Query>, services: seq<(Graph, string) -> Lookup>,
                                            conceptName: string)
    requires |services| == |queries|
    requires Disjoint(m)
    requires conceptName in m.found || conceptName in m.notFound
    ensures forall i :: 0 <= i < |queries| && queries[i].conceptName == conceptName ==>
              Replay(m, queries, services).0[i] == Success(conceptName in m.found)
    decreases |queries|
  {
    if queries != [] {
      var first := CacheStep(m, queries[0].graph, queries[0].conceptName, services[0]);
      AnswersAreSticky(first.memo, queries[1..], services[1..], conceptName);
      assert conceptName in first.memo.found <==> conceptName in m.found;
      var r := Replay(m, queries, services);
      forall i | 0 <= i < |queries| && queries[i].conceptName == conceptName
        ensures r.0[i] == Success(conceptName in m.found)
      {
        if i > 0 {
          assert queries[1..][i - 1] == queries[i];
        }
      }
    }
  }

  /**
   * A service error is not remembered: a name whose first lookup fails that way is answered false,
   * and a second check asks again and answers true when the concept is then found.
   */
  lemma ServiceErrorIsRetried(m: Memo, graph: Graph, conceptName: string, s1: (Graph, string) -> Lookup,
                              s2: (Graph, string) -> Lookup)
    requires conceptName !in m.found && conceptName !in m.notFound
    requires s1(graph, conceptName) == ServiceError && s2(graph, conceptName) == Found
    ensures var q := Query(graph, conceptName);
      Replay(m, [q, q], [s1, s2]).0 == [Success(false), Success(true)]
    ensures conceptName in Replay(m, [Query(graph, conceptName), Query(graph, conceptName)], [s1, s2]).1.found
  {
    var q := Query(graph, conceptName);
    var first := CacheStep(m, graph, conceptName, s1);
    assert first.memo == m;
    assert [q, q][1..] == [q] && [s1, s2][1..] == [s2];
    assert [q][1..] == [] && [s2][1..] == [];
  }

  /** `class CiGraphQuerier` with its two memo fields; the service stands for its client. */
  class Querier {
    var conceptNamesFound: set<string>
    var conceptNamesNotFound: set<string>

    function State(): Memo
      reads this
    {
      Memo(conceptNamesFound, conceptNamesNotFound)
    }

    predicate Valid()
      reads this
    {
      Disjoint(State())
    }

    /** A new querier remembers nothing. */
    constructor ()
      ensures Valid()
      ensures conceptNamesFound == {} && conceptNamesNotFound == {}
    {
      conceptNamesFound := {};
      conceptNamesNotFound := {};
    }

    /** `checkConceptNameExistsCached(graph, conceptName)`: one step of CacheStep on the fields. */
    method CheckConceptNameExistsCached(graph: Graph, conceptName: string, service: (Graph, string) -> Lookup)
      returns (answer: Result<bool>, remoteCalled: bool)
      requires Valid()
      modifies this
      ensures Valid()
      ensures Step(answer, State(), remoteCalled) == CacheStep(old(State()), graph, conceptName, service)
    {
      if conceptName in conceptNamesFound {
        return Success(true), false;
      }
      if conceptName in conceptNamesNotFound {
        return Success(false), false;
      }
      remoteCalled := true;
      var lookup := service(graph, conceptName);
      match lookup {
        case Found =>
          conceptNamesFound := conceptNamesFound + {conceptName};
          answer := Success(true);
        case NotFound =>
          conceptNamesNotFound := conceptNamesNotFound + {conceptName};
          answer := Success(false);
        case ServiceError =>
          answer := Success(false);
        case Unexpected =>
          answer := Failure(RemoteFailure);
      }
    }
  }
}
