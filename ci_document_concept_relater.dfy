/**
 * gmjonker/citool/CiDocumentConceptRelater.java: the relation scores between every document of a
 * corpus and a list of concepts, asked of the service twenty concepts at a time, with every failed
 * batch isolated, recorded for the failed-requests file, and counted per document.
 *
 * The service's `getDocumentRelationScores(document, batch)` is `respond(d, b)`: what the call for
 * the d-th document and its b-th batch returned, or the exception it raised.
 */
module CiDocumentConceptRelater {
  import opened Outcomes
  import opened Watson
  import opened Util
  import opened CiUtil

  /** `CONCEPT_BATCH_SIZE`: the most concepts asked about in one request. */
  const ConceptBatchSize: nat := 20

  /** The table of relations: (document name, concept name) to score, as HashBasedTable keeps it. */
  type Table = map<(string, string), real>

  /** The concatenation of a list of lists. */
  function Flatten<T>(xss: seq<seq<T>>): seq<T>
    decreases |xss|
  {
    if xss == [] then [] else xss[0] + Flatten(xss[1..])
  }

  // ---------------------------------------------------------------------------------------------
  // Lists.partition

  /** Guava's `Lists.partition(list, size)`: consecutive sublists of `size` elements, the last possibly shorter. */
  function Partition<T>(xs: seq<T>, size: nat): (r: seq<seq<T>>)
    requires size > 0
    ensures Flatten(r) == xs
    ensures forall i :: 0 <= i < |r| ==> 1 <= |r[i]| <= size
    ensures forall i :: 0 <= i < |r| - 1 ==> |r[i]| == size
    ensures (r == []) <==> (xs == [])
    decreases |xs|
  {
    if xs == [] then []
    else if |xs| <= size then
      assert Flatten([xs]) == xs + Flatten([]);
      [xs]
    else
      var rest := Partition(xs[size..], size);
      var r := [xs[..size]] + rest;
      assert r[1..] == rest;
      assert xs == xs[..size] + xs[size..];
      r
  }

  /** There are ⌈n / 20⌉ batches of twenty. */
  lemma {:induction false} BatchCount<T>(xs: seq<T>)
    ensures |Partition(xs, ConceptBatchSize)| == (|xs| + ConceptBatchSize - 1) / ConceptBatchSize
    decreases |xs|
  {
    if |xs| > ConceptBatchSize {
      BatchCount(xs[ConceptBatchSize..]);
    }
  }

  /** Forty-five concepts are asked about as batches of 20, 20 and 5. */
  lemma FortyFiveConcepts<T>(xs: seq<T>)
    requires |xs| == 45
    ensures var batches := Partition(xs, ConceptBatchSize);
      |batches| == 3 && |batches[0]| == 20 && |batches[1]| == 20 && |batches[2]| == 5
  {
    var batches := Partition(xs, ConceptBatchSize);
    assert batches == [xs[..20]] + Partition(xs[20..], 20);
    assert Partition(xs[20..], 20) == [xs[20..][..20]] + Partition(xs[20..][20..], 20);
    assert Partition(xs[20..][20..], 20) == [xs[20..][20..]];
  }

  // ---------------------------------------------------------------------------------------------
  // The exclusion filter

  /** Whether a concept is asked about: its name is not among those Watson does not know. */
  predicate Kept(excluded: set<string>, c: Concept) {
    c.name !in excluded
  }

  /** The concepts asked about, in their order: the excluded names are dropped. */
  function AskedConcepts(concepts: seq<Concept>, excluded: set<string>): (r: seq<Concept>)
    ensures forall i :: 0 <= i < |r| ==> r[i].name !in excluded && r[i] in concepts
    ensures forall i :: 0 <= i < |concepts| && concepts[i].name !in excluded ==> concepts[i] in r
    ensures forall c :: multiset(r)[c] == if c.name in excluded then 0 else multiset(concepts)[c]
  {
    var r := Filter(concepts, c => Kept(excluded, c));
    forall c ensures multiset(r)[c] == if c.name in excluded then 0 else multiset(concepts)[c] {
      FilterCounts(concepts, c => Kept(excluded, c), c);
    }
    r
  }

  /** The filter keeps order: it filters each part of a list separately and keeps the parts in place... */
  lemma AskedConceptsConcat(xs: seq<Concept>, ys: seq<Concept>, excluded: set<string>)
    ensures AskedConcepts(xs + ys, excluded) == AskedConcepts(xs, excluded) + AskedConcepts(ys, excluded)
  {
    FilterConcat(xs, ys, c => Kept(excluded, c));
  }

  /** ... and decides on each concept by its name alone. */
  lemma AskedConceptsSingle(c: Concept, excluded: set<string>)
    ensures AskedConcepts([c], excluded) == if c.name in excluded then [] else [c]
  {
    assert [c][1..] == [];
  }

  // ---------------------------------------------------------------------------------------------
  // One response

  /**
   * The table after the puts of one response's scores, in order, keyed by the document name and
   * the last segment of each score's concept id, and whether every score was put: a concept id
   * without '/' raises in getNameFromId, after the earlier puts of the response were made.
   */
  function PutAll(table: Table, documentName: string, scores: seq<Score>): (r: (Table, bool))
    ensures table.Keys <= r.0.Keys
    ensures r.1 <==> forall i :: 0 <= i < |scores| ==> '/' in scores[i].concept
    ensures forall k :: k in r.0 && k !in table ==> k.0 == documentName
    ensures forall k :: k in table && k.0 != documentName ==> r.0[k] == table[k]
    ensures r.1 ==> forall i :: 0 <= i < |scores| ==> (documentName, NameOfId(scores[i].concept)) in r.0
    decreases |scores|
  {
    if scores == [] then (table, true)
    else
      match GetNameFromId(scores[0].concept)
      case Failure(_) => (table, false)
      case Success(name) =>
        var rest := PutAll(table[(documentName, name) := scores[0].score], documentName, scores[1..]);
        assert forall i :: 1 <= i < |scores| ==> scores[i] == scores[1..][i - 1];
        rest
  }

  /** Of two scores of the same concept in one response, the later one stays in the table. */
  lemma LaterScoreWins(table: Table, documentName: string, s1: Score, s2: Score)
    requires '/' in s1.concept && NameOfId(s1.concept) == NameOfId(s2.concept) && '/' in s2.concept
    ensures PutAll(table, documentName, [s1, s2]).0[(documentName, NameOfId(s1.concept))] == s2.score
  {
    var name := NameOfId(s1.concept);
    var t1 := table[(documentName, name) := s1.score];
    assert [s1, s2][1..] == [s2];
    assert [s2][1..] == [];
    assert PutAll(table, documentName, [s1, s2]) == PutAll(t1, documentName, [s2]);
    assert PutAll(t1, documentName, [s2]) == PutAll(t1[(documentName, name) := s2.score], documentName, []);
  }

  /** The same puts, one score at a time. */
  method PutScores(table: Table, documentName: string, scores: seq<Score>) returns (result: Table, ok: bool)
    ensures (result, ok) == PutAll(table, documentName, scores)
  {
    result := table;
    var i := 0;
    while i < |scores|
      invariant 0 <= i <= |scores|
      invariant PutAll(result, documentName, scores[i..]) == PutAll(table, documentName, scores)
    {
      assert scores[i..][1..] == scores[i + 1..];
      var name := GetNameFromId(scores[i].concept);
      if name.Failure? {
        return result, false;
      }
      result := result[(documentName, name.value) := scores[i].score];
      i := i + 1;
    }
    return result, true;
  }

  /** How many scores of a response are put: those before the first concept id without '/'. */
  function PutCount(scores: seq<Score>): (n: nat)
    ensures n <= |scores|
    ensures forall i :: 0 <= i < n ==> '/' in scores[i].concept
    ensures n < |scores| ==> '/' !in scores[n].concept
    decreases |scores|
  {
    if scores == [] || '/' !in scores[0].concept then 0
    else
      assert forall i :: 1 <= i < |scores| ==> scores[i] == scores[1..][i - 1];
      1 + PutCount(scores[1..])
  }

  /** The last element of `xs` whose key is `name`, if there is one. */
  function LastFor<T>(xs: seq<T>, key: T -> string, name: string): Option<T>
    decreases |xs|
  {
    if xs == [] then None
    else if key(xs[|xs| - 1]) == name then Some(xs[|xs| - 1])
    else LastFor(xs[..|xs| - 1], key, name)
  }

  /** LastFor finds an element exactly when some element has the key. */
  lemma {:induction false} LastForFound<T>(xs: seq<T>, key: T -> string, name: string)
    ensures LastFor(xs, key, name).Some? <==> exists i :: 0 <= i < |xs| && key(xs[i]) == name
    decreases |xs|
  {
    if xs != [] {
      var n := |xs| - 1;
      var init := xs[..n];
      if key(xs[n]) != name {
        LastForFound(init, key, name);
        if LastFor(init, key, name).Some? {
          var i :| 0 <= i < n && key(init[i]) == name;
          assert init[i] == xs[i];
        } else {
          forall i | 0 <= i < |xs| ensures key(xs[i]) != name {
            if i < n {
              assert xs[i] == init[i];
            }
          }
        }
      }
    }
  }

  /** What LastFor finds is an element with the key and no such element after it. */
  lemma {:induction false} LastForLatest<T>(xs: seq<T>, key: T -> string, name: string)
    ensures LastFor(xs, key, name).Some? ==>
              exists i :: 0 <= i < |xs| && xs[i] == LastFor(xs, key, name).value && key(xs[i]) == name &&
                          forall j :: i < j < |xs| ==> key(xs[j]) != name
    decreases |xs|
  {
    if xs != [] {
      var n := |xs| - 1;
      var init := xs[..n];
      if key(xs[n]) != name {
        LastForLatest(init, key, name);
        if LastFor(init, key, name).Some? {
          var i :| 0 <= i < n && init[i] == LastFor(init, key, name).value && key(init[i]) == name &&
                   forall j :: i < j < n ==> key(init[j]) != name;
          assert init[i] == xs[i];
          forall j | i < j < |xs| ensures key(xs[j]) != name {
            if j < n {
              assert xs[j] == init[j];
            }
          }
        }
      }
    }
  }

  /** An element in front counts only when no later element has the key. */
  lemma {:induction false} LastForCons<T>(x: T, rest: seq<T>, key: T -> string, name: string)
    ensures LastFor([x] + rest, key, name)
         == if LastFor(rest, key, name).Some? then LastFor(rest, key, name)
            else if key(x) == name then Some(x) else None
    decreases |rest|
  {
    if rest == [] {
      assert [x] + rest == [x];
      assert [x][..0] == [];
    } else {
      var init := rest[..|rest| - 1];
      assert ([x] + rest)[..|rest|] == [x] + init;
      assert ([x] + rest)[|rest|] == rest[|rest| - 1];
      LastForCons(x, init, key, name);
    }
  }

  /** The table column a score is put under: the last segment of its concept id. */
  function ColumnOf(s: Score): string {
    NameOfId(s.concept)
  }

  /** The score of the last of `scores` whose concept id ends in `name`, if there is one. */
  function LastScore(scores: seq<Score>, name: string): Option<real> {
    var last := LastFor(scores, ColumnOf, name);
    if last.Some? then Some(last.value.score) else None
  }

  /**
   * LastScore finds a score exactly when some score is for the concept, and then it is the score of
   * the last one.
   */
  lemma LastScoreSpec(scores: seq<Score>, name: string)
    ensures LastScore(scores, name).Some? <==> exists i :: 0 <= i < |scores| && NameOfId(scores[i].concept) == name
    ensures LastScore(scores, name).Some? ==>
              exists i :: 0 <= i < |scores| && NameOfId(scores[i].concept) == name &&
                          LastScore(scores, name).value == scores[i].score &&
                          forall j :: i < j < |scores| ==> NameOfId(scores[j].concept) != name
  {
    LastForFound(scores, ColumnOf, name);
    LastForLatest(scores, ColumnOf, name);
    if LastScore(scores, name).Some? {
      var i :| 0 <= i < |scores| && scores[i] == LastFor(scores, ColumnOf, name).value && ColumnOf(scores[i]) == name &&
               forall j :: i < j < |scores| ==> ColumnOf(scores[j]) != name;
      forall j | i < j < |scores| ensures NameOfId(scores[j].concept) != name {
        assert ColumnOf(scores[j]) != name;
      }
    } else {
      forall i | 0 <= i < |scores| ensures NameOfId(scores[i].concept) != name {
        assert ColumnOf(scores[i]) != name;
      }
    }
  }

  /** A score in front counts only when no later score has the same concept name. */
  lemma LastScoreCons(s: Score, rest: seq<Score>, name: string)
    ensures LastScore([s] + rest, name)
         == if LastScore(rest, name).Some? then LastScore(rest, name)
            else if NameOfId(s.concept) == name then Some(s.score) else None
  {
    LastForCons(s, rest, ColumnOf, name);
  }

  /**
   * The cells one response's puts leave. The scores before the first concept id without '/' are
   * put, each under the document's name and the last segment of its id; a column put more than
   * once holds the last of its scores; every other cell is as before.
   */
  lemma {:induction false} PutAllCells(table: Table, documentName: string, scores: seq<Score>)
    ensures var r := PutAll(table, documentName, scores);
      var put := scores[..PutCount(scores)];
      (r.1 <==> PutCount(scores) == |scores|) &&
      (forall k :: k in r.0 <==> k in table || (k.0 == documentName && LastScore(put, k.1).Some?)) &&
      (forall k :: k in r.0 ==> r.0[k] == if k.0 == documentName && LastScore(put, k.1).Some?
                                          then LastScore(put, k.1).value else table[k])
    decreases |scores|
  {
    var put := scores[..PutCount(scores)];
    if scores == [] || '/' !in scores[0].concept {
      assert put == [];
    } else {
      var name := NameOfId(scores[0].concept);
      var next := table[(documentName, name) := scores[0].score];
      PutAllCells(next, documentName, scores[1..]);
      var rest := scores[1..][..PutCount(scores[1..])];
      assert put == [scores[0]] + rest;
      assert PutAll(table, documentName, scores) == PutAll(next, documentName, scores[1..]);
      forall n: string
        ensures LastScore(put, n) == if LastScore(rest, n).Some? then LastScore(rest, n)
                                     else if name == n then Some(scores[0].score) else None
      {
        LastScoreCons(scores[0], rest, n);
      }
      CellsCarry(table, documentName, name, scores[0].score, rest, put, PutAll(next, documentName, scores[1..]).0);
    }
  }

  /** The cells fact for the scores after the first, and the first put, give the fact for all of them. */
  lemma CellsCarry(table: Table, documentName: string, name: string, value: real, rest: seq<Score>,
                   put: seq<Score>, r: Table)
    requires forall n :: LastScore(put, n) == if LastScore(rest, n).Some? then LastScore(rest, n)
                                              else if name == n then Some(value) else None
    requires forall k :: k in r <==> k in table[(documentName, name) := value] ||
                                     (k.0 == documentName && LastScore(rest, k.1).Some?)
    requires forall k :: k in r ==> r[k] == if k.0 == documentName && LastScore(rest, k.1).Some?
                                            then LastScore(rest, k.1).value else table[(documentName, name) := value][k]
    ensures forall k :: k in r <==> k in table || (k.0 == documentName && LastScore(put, k.1).Some?)
    ensures forall k :: k in r ==> r[k] == if k.0 == documentName && LastScore(put, k.1).Some?
                                           then LastScore(put, k.1).value else table[k]
  {
    forall k | k in r
      ensures r[k] == if k.0 == documentName && LastScore(put, k.1).Some? then LastScore(put, k.1).value else table[k]
    {
      assert LastScore(put, k.1) == if LastScore(rest, k.1).Some? then LastScore(rest, k.1)
                                    else if name == k.1 then Some(value) else None;
    }
  }

  /** Some score of `scores` is for the concept `name` and has the value `value`. */
  predicate Gives(scores: seq<Score>, name: string, value: real) {
    exists s :: s in scores && NameOfId(s.concept) == name && s.score == value
  }

  /** Every cell a response's puts add or change holds one of its scores for the cell's concept. */
  lemma PutAllProvenance(table: Table, documentName: string, scores: seq<Score>)
    ensures var r := PutAll(table, documentName, scores).0;
      forall k :: k in r ==> (k in table && r[k] == table[k]) || (k.0 == documentName && Gives(scores, k.1, r[k]))
  {
    PutAllCells(table, documentName, scores);
    var r := PutAll(table, documentName, scores).0;
    var put := scores[..PutCount(scores)];
    forall k | k in r && !(k in table && r[k] == table[k])
      ensures k.0 == documentName && Gives(scores, k.1, r[k])
    {
      var last := LastScore(put, k.1);
      LastScoreSpec(put, k.1);
      assert k.0 == documentName && last.Some? && r[k] == last.value;
      var i :| 0 <= i < |put| && NameOfId(put[i].concept) == k.1 && last.value == put[i].score;
      assert put[i] == scores[i];
      assert scores[i] in scores;
    }
  }

  // ---------------------------------------------------------------------------------------------
  // One document

  /** One relation-scores request: the document's name and the batch of concepts. */
  datatype Request = Request(documentName: string, concepts: seq<Concept>)

  /** What the batches of one document have given so far. */
  datatype DocumentPass = DocumentPass(table: Table, successful: seq<Concept>, failed: seq<Concept>,
                                       requests: seq<Request>)

  /** Batch b of document d: a request, then the puts, then the batch joins the successful or the failed. */
  function BatchStep(acc: DocumentPass, documentName: string, batch: seq<Concept>,
                     response: Result<seq<Score>>): (r: DocumentPass)
    ensures r.requests == acc.requests + [Request(documentName, batch)]
    ensures (r.successful == acc.successful + batch && r.failed == acc.failed)
         || (r.successful == acc.successful && r.failed == acc.failed + batch)
    ensures r.successful == acc.successful + batch <==> batch == [] || (response.Success? && PutAll(acc.table, documentName, response.value).1)
    ensures response.Failure? ==> r.table == acc.table
    ensures acc.table.Keys <= r.table.Keys
    ensures forall k :: k in r.table && k !in acc.table ==> k.0 == documentName
    ensures forall k :: k in acc.table && k.0 != documentName ==> r.table[k] == acc.table[k]
  {
    var request := Request(documentName, batch);
    match response
    case Failure(_) => acc.(failed := acc.failed + batch, requests := acc.requests + [request])
    case Success(scores) =>
      var (table, ok) := PutAll(acc.table, documentName, scores);
      if ok then acc.(table := table, successful := acc.successful + batch, requests := acc.requests + [request])
      else acc.(table := table, failed := acc.failed + batch, requests := acc.requests + [request])
  }

  /** Batches `j..` of document number `d`, continuing from `acc`. */
  function BatchesFrom(acc: DocumentPass, documentName: string, batches: seq<seq<Concept>>, d: nat,
                       respond: (nat, nat) -> Result<seq<Score>>, j: nat): (r: DocumentPass)
    requires j <= |batches|
    ensures |r.requests| == |acc.requests| + (|batches| - j)
    decreases |batches| - j
  {
    if j == |batches| then acc
    else BatchesFrom(BatchStep(acc, documentName, batches[j], respond(d, j)), documentName, batches, d, respond, j + 1)
  }

  /** The requests one document makes for a sequence of batches: one per batch, in batch order. */
  function BatchRequests(documentName: string, batches: seq<seq<Concept>>): (r: seq<Request>)
    ensures |r| == |batches|
    ensures forall b :: 0 <= b < |batches| ==> r[b] == Request(documentName, batches[b])
  {
    seq(|batches|, b requires 0 <= b < |batches| => Request(documentName, batches[b]))
  }

  lemma BatchRequestsUnfold(documentName: string, batches: seq<seq<Concept>>, j: nat)
    requires j < |batches|
    ensures BatchRequests(documentName, batches[j..])
         == [Request(documentName, batches[j])] + BatchRequests(documentName, batches[j + 1..])
  {
    assert batches[j..][1..] == batches[j + 1..];
  }

  /** Batches `j..` each make one request, in batch order, whatever their responses. */
  lemma {:induction false} BatchesRequests(acc: DocumentPass, documentName: string, batches: seq<seq<Concept>>, d: nat,
                                           respond: (nat, nat) -> Result<seq<Score>>, j: nat)
    requires j <= |batches|
    ensures BatchesFrom(acc, documentName, batches, d, respond, j).requests
         == acc.requests + BatchRequests(documentName, batches[j..])
    decreases |batches| - j
  {
    if j < |batches| {
      var next := BatchStep(acc, documentName, batches[j], respond(d, j));
      BatchesRequests(next, documentName, batches, d, respond, j + 1);
      BatchRequestsUnfold(documentName, batches, j);
    } else {
      assert batches[j..] == [];
    }
  }

  /** Every concept of batches `j..` joins the successful or the failed ones, and nothing else does. */
  lemma {:induction false} BatchesConcepts(acc: DocumentPass, documentName: string, batches: seq<seq<Concept>>, d: nat,
                                           respond: (nat, nat) -> Result<seq<Score>>, j: nat)
    requires j <= |batches|
    ensures var r := BatchesFrom(acc, documentName, batches, d, respond, j);
      multiset(r.successful) + multiset(r.failed)
        == multiset(acc.successful) + multiset(acc.failed) + multiset(Flatten(batches[j..]))
    decreases |batches| - j
  {
    if j < |batches| {
      var next := BatchStep(acc, documentName, batches[j], respond(d, j));
      BatchesConcepts(next, documentName, batches, d, respond, j + 1);
      assert Flatten(batches[j..]) == batches[j] + Flatten(batches[j + 1..]) by {
        assert batches[j..][1..] == batches[j + 1..];
      }
    } else {
      assert batches[j..] == [];
    }
  }

  /** Batches `j..` keep every cell, add cells only to the document's row and leave the other rows alone. */
  lemma {:induction false} BatchesTable(acc: DocumentPass, documentName: string, batches: seq<seq<Concept>>, d: nat,
                                        respond: (nat, nat) -> Result<seq<Score>>, j: nat)
    requires j <= |batches|
    ensures var r := BatchesFrom(acc, documentName, batches, d, respond, j);
      acc.table.Keys <= r.table.Keys &&
      (forall k :: k in r.table && k !in acc.table ==> k.0 == documentName) &&
      (forall k :: k in acc.table && k.0 != documentName ==> r.table[k] == acc.table[k])
    decreases |batches| - j
  {
    if j < |batches| {
      var next := BatchStep(acc, documentName, batches[j], respond(d, j));
      BatchesTable(next, documentName, batches, d, respond, j + 1);
    }
  }

  /** The response succeeded and scored the concept `name` with `value`. */
  predicate FromResponse(response: Result<seq<Score>>, name: string, value: real) {
    response.Success? && Gives(response.value, name, value)
  }

  /** Every cell batches `j..` add or change holds a score a response of this document gave for it. */
  lemma {:induction false} BatchesProvenance(acc: DocumentPass, documentName: string, batches: seq<seq<Concept>>,
                                             d: nat, respond: (nat, nat) -> Result<seq<Score>>, j: nat)
    requires j <= |batches|
    ensures var r := BatchesFrom(acc, documentName, batches, d, respond, j).table;
      forall k :: k in r ==>
        (k in acc.table && r[k] == acc.table[k]) ||
        (k.0 == documentName && exists b :: j <= b < |batches| && FromResponse(respond(d, b), k.1, r[k]))
    decreases |batches| - j
  {
    if j < |batches| {
      var response := respond(d, j);
      var next := BatchStep(acc, documentName, batches[j], response);
      BatchesProvenance(next, documentName, batches, d, respond, j + 1);
      if response.Success? {
        assert next.table == PutAll(acc.table, documentName, response.value).0;
        PutAllProvenance(acc.table, documentName, response.value);
      }
      var r := BatchesFrom(acc, documentName, batches, d, respond, j).table;
      assert r == BatchesFrom(next, documentName, batches, d, respond, j + 1).table;
      forall k | k in r && !(k in acc.table && r[k] == acc.table[k])
        ensures k.0 == documentName && exists b :: j <= b < |batches| && FromResponse(respond(d, b), k.1, r[k])
      {
        if k in next.table && r[k] == next.table[k] {
          assert FromResponse(respond(d, j), k.1, r[k]);
        }
      }
    }
  }

  /** All batches of document number `d`, starting from an empty pass on `table`. */
  function RelateDocument(table: Table, documentName: string, batches: seq<seq<Concept>>, d: nat,
                          respond: (nat, nat) -> Result<seq<Score>>): (r: DocumentPass)
    ensures |r.requests| == |batches|
  {
    BatchesFrom(DocumentPass(table, [], [], []), documentName, batches, d, respond, 0)
  }

  /** A document asks for every batch once, in batch order. */
  lemma RelateDocumentRequests(table: Table, documentName: string, batches: seq<seq<Concept>>, d: nat,
                               respond: (nat, nat) -> Result<seq<Score>>)
    ensures RelateDocument(table, documentName, batches, d, respond).requests == BatchRequests(documentName, batches)
  {
    BatchesRequests(DocumentPass(table, [], [], []), documentName, batches, d, respond, 0);
    assert batches[0..] == batches;
  }

  /** The successful and the failed concepts of a document are, together, exactly the concepts of its batches. */
  lemma RelateDocumentConcepts(table: Table, documentName: string, batches: seq<seq<Concept>>, d: nat,
                               respond: (nat, nat) -> Result<seq<Score>>)
    ensures var r := RelateDocument(table, documentName, batches, d, respond);
      multiset(r.successful) + multiset(r.failed) == multiset(Flatten(batches)) &&
      |r.successful| + |r.failed| == |Flatten(batches)|
  {
    var r := RelateDocument(table, documentName, batches, d, respond);
    BatchesConcepts(DocumentPass(table, [], [], []), documentName, batches, d, respond, 0);
    assert batches[0..] == batches;
    assert |multiset(r.successful) + multiset(r.failed)| == |multiset(Flatten(batches))|;
  }

  /** A document adds cells to its own row only and leaves every other row alone. */
  lemma RelateDocumentTable(table: Table, documentName: string, batches: seq<seq<Concept>>, d: nat,
                            respond: (nat, nat) -> Result<seq<Score>>)
    ensures var r := RelateDocument(table, documentName, batches, d, respond);
      table.Keys <= r.table.Keys &&
      (forall k :: k in r.table && k !in table ==> k.0 == documentName) &&
      (forall k :: k in table && k.0 != documentName ==> r.table[k] == table[k])
  {
    BatchesTable(DocumentPass(table, [], [], []), documentName, batches, d, respond, 0);
  }

  /** Every cell a document adds or changes holds a score one of its responses gave for that concept. */
  lemma RelateDocumentProvenance(table: Table, documentName: string, batches: seq<seq<Concept>>, d: nat,
                                 respond: (nat, nat) -> Result<seq<Score>>)
    ensures var r := RelateDocument(table, documentName, batches, d, respond).table;
      forall k :: k in r ==>
        (k in table && r[k] == table[k]) ||
        (k.0 == documentName && exists b :: 0 <= b < |batches| && FromResponse(respond(d, b), k.1, r[k]))
  {
    BatchesProvenance(DocumentPass(table, [], [], []), documentName, batches, d, respond, 0);
  }

  /** The loop over the batches of one document. */
  method RelateDocumentLoop(table: Table, documentName: string, batches: seq<seq<Concept>>, d: nat,
                            respond: (nat, nat) -> Result<seq<Score>>) returns (pass: DocumentPass)
    ensures pass == RelateDocument(table, documentName, batches, d, respond)
  {
    pass := DocumentPass(table, [], [], []);
    var j := 0;
    while j < |batches|
      invariant 0 <= j <= |batches|
      invariant BatchesFrom(pass, documentName, batches, d, respond, j)
             == BatchesFrom(DocumentPass(table, [], [], []), documentName, batches, d, respond, 0)
    {
      var request := Request(documentName, batches[j]);
      var response := respond(d, j);
      match response {
        case Failure(_) =>
          pass := pass.(failed := pass.failed + batches[j], requests := pass.requests + [request]);
        case Success(scores) =>
          var updated, ok := PutScores(pass.table, documentName, scores);
          if ok {
            pass := pass.(table := updated, successful := pass.successful + batches[j], requests := pass.requests + [request]);
          } else {
            pass := pass.(table := updated, failed := pass.failed + batches[j], requests := pass.requests + [request]);
          }
      }
      j := j + 1;
    }
  }

  // ---------------------------------------------------------------------------------------------
  // All documents

  /** A line of failedRequests.csv: the document's name and the names of the concepts that failed for it. */
  datatype FailureRecord = FailureRecord(documentName: string, conceptNames: seq<string>)

  /** `map(failedConcepts, concept -> getNameFromId(concept.getId()))`: fails on the first id without '/'. */
  function NamesOfConcepts(concepts: seq<Concept>): (r: Result<seq<string>>)
    ensures r.Success? <==> forall i :: 0 <= i < |concepts| ==> '/' in concepts[i].id
    ensures r.Success? ==> |r.value| == |concepts|
    ensures r.Success? ==> forall i :: 0 <= i < |concepts| ==> r.value[i] == NameOfId(concepts[i].id)
    ensures r.Failure? ==> r.error.InvalidWatsonId? && '/' !in r.error.id
    decreases |concepts|
  {
    if concepts == [] then Success([])
    else
      match GetNameFromId(concepts[0].id)
      case Failure(e) => Failure(e)
      case Success(name) =>
        match NamesOfConcepts(concepts[1..])
        case Failure(e) => Failure(e)
        case Success(names) =>
          assert forall i :: 1 <= i < |concepts| ==> concepts[i] == concepts[1..][i - 1];
          Success([name] + names)
  }

  /**
   * What the run has produced: the table, the lines written to failedRequests.csv, the
   * `successfulConceptCounts` (in document order; the multiset of the source forgets the order)
   * and, per document, the requests made for it.
   */
  datatype Relations = Relations(table: Table, failureRecords: seq<FailureRecord>,
                                 successCounts: seq<nat>, requests: seq<seq<Request>>)

  /**
   * What document `documentName` adds once its batches have given `pass`: its table, its requests,
   * its successful-concept count and, if some batch failed and the printer was opened, its failure
   * line. A failed concept whose id holds no '/' makes getNameFromId raise while the line is built,
   * an exception the method does not catch.
   */
  function Record(acc: Relations, documentName: string, pass: DocumentPass, printerOpen: bool): (r: Result<Relations>)
    ensures r.Failure? <==> printerOpen && NamesOfConcepts(pass.failed).Failure?
    ensures r.Success? ==> r.value.successCounts == acc.successCounts + [|pass.successful|]
    ensures r.Success? ==> r.value.requests == acc.requests + [pass.requests]
    ensures r.Success? ==> r.value.table == pass.table
    ensures r.Success? ==> if pass.failed != [] && printerOpen
              then r.value.failureRecords == acc.failureRecords + [FailureRecord(documentName, NamesOfConcepts(pass.failed).value)]
              else r.value.failureRecords == acc.failureRecords
  {
    var next := acc.(table := pass.table, successCounts := acc.successCounts + [|pass.successful|],
                     requests := acc.requests + [pass.requests]);
    if pass.failed != [] && printerOpen then
      match NamesOfConcepts(pass.failed)
      case Failure(e) => Failure(e)
      case Success(names) => Success(next.(failureRecords := acc.failureRecords + [FailureRecord(documentName, names)]))
    else
      Success(next)
  }

  /** Documents `i..`, continuing from `acc`. */
  function DocumentsFrom(acc: Relations, documents: seq<Document>, batches: seq<seq<Concept>>,
                         respond: (nat, nat) -> Result<seq<Score>>, printerOpen: bool, i: nat): (r: Result<Relations>)
    requires i <= |documents|
    decreases |documents| - i
  {
    if i == |documents| then Success(acc)
    else
      var pass := RelateDocument(acc.table, documents[i].name, batches, i, respond);
      match Record(acc, documents[i].name, pass, printerOpen)
      case Failure(e) => Failure(e)
      case Success(next) => DocumentsFrom(next, documents, batches, respond, printerOpen, i + 1)
  }

  /** Without a failed-requests printer nothing is recorded and no failure propagates. */
  lemma {:induction false} NoPrinterNoAbort(acc: Relations, documents: seq<Document>, batches: seq<seq<Concept>>,
                                            respond: (nat, nat) -> Result<seq<Score>>, i: nat)
    requires i <= |documents|
    ensures var r := DocumentsFrom(acc, documents, batches, respond, false, i);
      r.Success? && r.value.failureRecords == acc.failureRecords
    decreases |documents| - i
  {
    if i < |documents| {
      var pass := RelateDocument(acc.table, documents[i].name, batches, i, respond);
      var next := Record(acc, documents[i].name, pass, false).value;
      NoPrinterNoAbort(next, documents, batches, respond, i + 1);
    }
  }

  /** The whole run: the excluded concepts dropped, the rest in batches of twenty, every document in turn. */
  function Relate(documents: seq<Document>, concepts: seq<Concept>, excluded: set<string>,
                  respond: (nat, nat) -> Result<seq<Score>>, printerOpen: bool): (r: Result<Relations>)
    ensures !printerOpen ==> r.Success? && r.value.failureRecords == []
  {
    var batches := Partition(AskedConcepts(concepts, excluded), ConceptBatchSize);
    NoPrinterNoAbort(Relations(map[], [], [], []), documents, batches, respond, 0);
    DocumentsFrom(Relations(map[], [], [], []), documents, batches, respond, printerOpen, 0)
  }

  /**
   * `getDocumentConceptNameRelations(concepts, limit, onlyIds)`: `documents` stands for what
   * CiCorpusHelper.getDocuments returned (in the Set's iteration order), `excluded` for
   * CONCEPT_NAMES_IN_WIKIPEDIA_BUT_NOT_IN_WATSON, and `printerOpen` for whether
   * failedRequests.csv could be opened.
   */
  method GetDocumentConceptNameRelations(documents: seq<Document>, concepts: seq<Concept>, excluded: set<string>,
                                         respond: (nat, nat) -> Result<seq<Score>>, printerOpen: bool)
    returns (r: Result<Relations>)
    ensures r == Relate(documents, concepts, excluded, respond, printerOpen)
  {
    var asked := AskedConcepts(concepts, excluded);
    var batches := Partition(asked, ConceptBatchSize);
    var acc := Relations(map[], [], [], []);
    var i := 0;
    while i < |documents|
      invariant 0 <= i <= |documents|
      invariant DocumentsFrom(acc, documents, batches, respond, printerOpen, i)
             == DocumentsFrom(Relations(map[], [], [], []), documents, batches, respond, printerOpen, 0)
    {
      var document := documents[i];
      var pass := RelateDocumentLoop(acc.table, document.name, batches, i, respond);
      var next := acc.(table := pass.table, successCounts := acc.successCounts + [|pass.successful|],
                       requests := acc.requests + [pass.requests]);
      if pass.failed != [] && printerOpen {
        var names := NamesOfConcepts(pass.failed);
        if names.Failure? {
          return Failure(names.error);
        }
        next := next.(failureRecords := acc.failureRecords + [FailureRecord(document.name, names.value)]);
      }
      acc := next;
      i := i + 1;
    }
    return Success(acc);
  }
}
