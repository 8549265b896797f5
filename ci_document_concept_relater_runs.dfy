/**
 * What a whole run of getDocumentConceptNameRelations gives, proved over the documents one at a
 * time: the counts and requests per document, the rows of the table, and the failure lines.
 */
module CiDocumentConceptRelaterRuns {
  import opened Outcomes
  import opened Watson
  import opened CiDocumentConceptRelater
  import Util

  /**
   * One document of a run that completes: it adds its batch requests and one count, at most the
   * number of concepts, keeps every cell, and adds only cells of its own row.
   */
  lemma Advance(acc: Relations, documents: seq<Document>, batches: seq<seq<Concept>>,
                respond: (nat, nat) -> Result<seq<Score>>, printerOpen: bool, i: nat)
    returns (next: Relations)
    requires i < |documents|
    requires DocumentsFrom(acc, documents, batches, respond, printerOpen, i).Success?
    ensures DocumentsFrom(acc, documents, batches, respond, printerOpen, i)
         == DocumentsFrom(next, documents, batches, respond, printerOpen, i + 1)
    ensures next.requests == acc.requests + [BatchRequests(documents[i].name, batches)]
    ensures |next.successCounts| == |acc.successCounts| + 1
    ensures next.successCounts[..|acc.successCounts|] == acc.successCounts
    ensures next.successCounts[|acc.successCounts|] <= |Flatten(batches)|
    ensures acc.table.Keys <= next.table.Keys
    ensures forall key :: key in next.table && key !in acc.table ==> key.0 == documents[i].name
  {
    var pass := RelateDocument(acc.table, documents[i].name, batches, i, respond);
    next := Record(acc, documents[i].name, pass, printerOpen).value;
    RelateDocumentRequests(acc.table, documents[i].name, batches, i, respond);
    RelateDocumentConcepts(acc.table, documents[i].name, batches, i, respond);
    RelateDocumentTable(acc.table, documents[i].name, batches, i, respond);
  }

  /** One successful-concept count per document, in order, each at most the number of concepts asked about. */
  lemma {:induction false} CountsPerDocument(acc: Relations, documents: seq<Document>, batches: seq<seq<Concept>>,
                                             respond: (nat, nat) -> Result<seq<Score>>, printerOpen: bool, i: nat)
    requires i <= |documents|
    requires DocumentsFrom(acc, documents, batches, respond, printerOpen, i).Success?
    ensures var counts := DocumentsFrom(acc, documents, batches, respond, printerOpen, i).value.successCounts;
      |counts| == |acc.successCounts| + |documents| - i &&
      counts[..|acc.successCounts|] == acc.successCounts &&
      forall k :: |acc.successCounts| <= k < |counts| ==> counts[k] <= |Flatten(batches)|
    decreases |documents| - i
  {
    if i < |documents| {
      var next := Advance(acc, documents, batches, respond, printerOpen, i);
      CountsPerDocument(next, documents, batches, respond, printerOpen, i + 1);
      var counts := DocumentsFrom(next, documents, batches, respond, printerOpen, i + 1).value.successCounts;
      assert DocumentsFrom(acc, documents, batches, respond, printerOpen, i).value.successCounts == counts;
      assert |counts| == |next.successCounts| + |documents| - (i + 1);
      assert counts[..|acc.successCounts|] == next.successCounts[..|acc.successCounts|];
      assert counts[|acc.successCounts|] == next.successCounts[|acc.successCounts|];
      forall k | |acc.successCounts| <= k < |counts| ensures counts[k] <= |Flatten(batches)| {
        if k > |acc.successCounts| {
          assert |next.successCounts| <= k;
        }
      }
    } else {
      assert DocumentsFrom(acc, documents, batches, respond, printerOpen, i) == Success(acc);
    }
  }

  /** The requests of documents i.. : each document's batch requests, in document order. */
  function RequestsOf(documents: seq<Document>, batches: seq<seq<Concept>>, i: nat): (r: seq<seq<Request>>)
    requires i <= |documents|
    ensures |r| == |documents| - i
    ensures forall m :: 0 <= m < |r| ==> r[m] == BatchRequests(documents[i + m].name, batches)
  {
    seq(|documents| - i, m requires 0 <= m < |documents| - i => BatchRequests(documents[i + m].name, batches))
  }

  lemma RequestsOfUnfold(documents: seq<Document>, batches: seq<seq<Concept>>, i: nat)
    requires i < |documents|
    ensures RequestsOf(documents, batches, i) == [BatchRequests(documents[i].name, batches)] + RequestsOf(documents, batches, i + 1)
  {
  }

  /** Every document asks for every batch exactly once, in batch order, whatever failed before. */
  lemma {:induction false} RequestsPerDocument(acc: Relations, documents: seq<Document>, batches: seq<seq<Concept>>,
                                               respond: (nat, nat) -> Result<seq<Score>>, printerOpen: bool, i: nat)
    requires i <= |documents|
    requires DocumentsFrom(acc, documents, batches, respond, printerOpen, i).Success?
    ensures DocumentsFrom(acc, documents, batches, respond, printerOpen, i).value.requests
         == acc.requests + RequestsOf(documents, batches, i)
    decreases |documents| - i
  {
    if i < |documents| {
      var next := Advance(acc, documents, batches, respond, printerOpen, i);
      RequestsPerDocument(next, documents, batches, respond, printerOpen, i + 1);
      RequestsOfUnfold(documents, batches, i);
      var requests := DocumentsFrom(next, documents, batches, respond, printerOpen, i + 1).value.requests;
      assert DocumentsFrom(acc, documents, batches, respond, printerOpen, i).value.requests == requests;
      assert requests == next.requests + RequestsOf(documents, batches, i + 1);
      Util.ConcatAssociative(acc.requests, [BatchRequests(documents[i].name, batches)], RequestsOf(documents, batches, i + 1));
    } else {
      assert RequestsOf(documents, batches, i) == [];
    }
  }

  /** Table cells are never removed, and every new row is the name of a document of the run. */
  lemma {:induction false} RowsAreDocuments(acc: Relations, documents: seq<Document>, batches: seq<seq<Concept>>,
                                            respond: (nat, nat) -> Result<seq<Score>>, printerOpen: bool, i: nat)
    requires i <= |documents|
    requires DocumentsFrom(acc, documents, batches, respond, printerOpen, i).Success?
    ensures var r := DocumentsFrom(acc, documents, batches, respond, printerOpen, i).value;
      acc.table.Keys <= r.table.Keys &&
      forall key :: key in r.table && key !in acc.table ==> exists m :: i <= m < |documents| && documents[m].name == key.0
    decreases |documents| - i
  {
    if i < |documents| {
      var next := Advance(acc, documents, batches, respond, printerOpen, i);
      RowsAreDocuments(next, documents, batches, respond, printerOpen, i + 1);
      var r := DocumentsFrom(next, documents, batches, respond, printerOpen, i + 1).value;
      assert DocumentsFrom(acc, documents, batches, respond, printerOpen, i).value == r;
      RowsCarry(acc.table, next.table, r.table, documents, i);
    }
  }

  /** The rows fact for documents i + 1.. and the cells document i adds give the fact for documents i.. . */
  lemma RowsCarry(t0: Table, t1: Table, t2: Table, documents: seq<Document>, i: nat)
    requires i < |documents|
    requires t0.Keys <= t1.Keys && t1.Keys <= t2.Keys
    requires forall key :: key in t1 && key !in t0 ==> key.0 == documents[i].name
    requires forall key :: key in t2 && key !in t1 ==> exists m :: i + 1 <= m < |documents| && documents[m].name == key.0
    ensures t0.Keys <= t2.Keys
    ensures forall key :: key in t2 && key !in t0 ==> exists m :: i <= m < |documents| && documents[m].name == key.0
  {
    forall key | key in t2 && key !in t0
      ensures exists m :: i <= m < |documents| && documents[m].name == key.0
    {
      if key !in t1 {
        var m :| i + 1 <= m < |documents| && documents[m].name == key.0;
      }
    }
  }

  /** Document m (from i on) has the row's name, and its response to batch b gave the cell's score. */
  predicate Answered(documents: seq<Document>, batchCount: nat, respond: (nat, nat) -> Result<seq<Score>>,
                     key: (string, string), value: real, i: nat)
  {
    exists m, b :: i <= m < |documents| && 0 <= b < batchCount && documents[m].name == key.0 &&
                   FromResponse(respond(m, b), key.1, value)
  }

  /** Every cell documents i.. add or change holds a score that a response for such a document gave. */
  lemma {:induction false} DocumentsProvenance(acc: Relations, documents: seq<Document>, batches: seq<seq<Concept>>,
                                               respond: (nat, nat) -> Result<seq<Score>>, printerOpen: bool, i: nat)
    requires i <= |documents|
    requires DocumentsFrom(acc, documents, batches, respond, printerOpen, i).Success?
    ensures var r := DocumentsFrom(acc, documents, batches, respond, printerOpen, i).value.table;
      forall k :: k in r ==> (k in acc.table && r[k] == acc.table[k]) || Answered(documents, |batches|, respond, k, r[k], i)
    decreases |documents| - i
  {
    if i < |documents| {
      var pass := RelateDocument(acc.table, documents[i].name, batches, i, respond);
      var next := Record(acc, documents[i].name, pass, printerOpen).value;
      assert DocumentsFrom(acc, documents, batches, respond, printerOpen, i)
          == DocumentsFrom(next, documents, batches, respond, printerOpen, i + 1);
      assert next.table == pass.table;
      RelateDocumentProvenance(acc.table, documents[i].name, batches, i, respond);
      DocumentsProvenance(next, documents, batches, respond, printerOpen, i + 1);
      var r := DocumentsFrom(next, documents, batches, respond, printerOpen, i + 1).value.table;
      forall k | k in r && !(k in acc.table && r[k] == acc.table[k])
        ensures Answered(documents, |batches|, respond, k, r[k], i)
      {
        if k in next.table && r[k] == next.table[k] {
          var b :| 0 <= b < |batches| && FromResponse(respond(i, b), k.1, r[k]);
          assert documents[i].name == k.0;
        } else {
          var m, b :| i + 1 <= m < |documents| && 0 <= b < |batches| && documents[m].name == k.0 &&
                      FromResponse(respond(m, b), k.1, r[k]);
        }
      }
    } else {
      assert DocumentsFrom(acc, documents, batches, respond, printerOpen, i) == Success(acc);
    }
  }

  // ---------------------------------------------------------------------------------------------
  // The whole run

  /** An element of one of the lists is an element of their concatenation. */
  lemma {:induction false} InFlatten<T>(xss: seq<seq<T>>, b: nat, x: T)
    requires b < |xss| && x in xss[b]
    ensures x in Flatten(xss)
    decreases b
  {
    if b > 0 {
      assert xss[1..][b - 1] == xss[b];
      InFlatten(xss[1..], b - 1, x);
    }
  }

  /** A concept asked about is one of the concepts and is not excluded. */
  lemma AskedIsKept(concepts: seq<Concept>, excluded: set<string>, c: Concept)
    requires c in AskedConcepts(concepts, excluded)
    ensures c.name !in excluded && c in concepts
  {
    var asked := AskedConcepts(concepts, excluded);
    var n :| 0 <= n < |asked| && asked[n] == c;
  }

  /**
   * A completed run has one successful-concept count per document, each at most the number of
   * concepts asked about (those not excluded).
   */
  lemma RelateCounts(documents: seq<Document>, concepts: seq<Concept>, excluded: set<string>,
                     respond: (nat, nat) -> Result<seq<Score>>, printerOpen: bool, r: Relations)
    requires Relate(documents, concepts, excluded, respond, printerOpen) == Success(r)
    ensures |r.successCounts| == |documents|
    ensures forall k :: 0 <= k < |documents| ==> r.successCounts[k] <= |AskedConcepts(concepts, excluded)|
  {
    var batches := Partition(AskedConcepts(concepts, excluded), ConceptBatchSize);
    CountsPerDocument(Relations(map[], [], [], []), documents, batches, respond, printerOpen, 0);
  }

  /** A completed run asks about every batch of twenty for every document, in order. */
  lemma RelateRequests(documents: seq<Document>, concepts: seq<Concept>, excluded: set<string>,
                       respond: (nat, nat) -> Result<seq<Score>>, printerOpen: bool, r: Relations)
    requires Relate(documents, concepts, excluded, respond, printerOpen) == Success(r)
    ensures r.requests == RequestsOf(documents, Partition(AskedConcepts(concepts, excluded), ConceptBatchSize), 0)
  {
    var batches := Partition(AskedConcepts(concepts, excluded), ConceptBatchSize);
    RequestsPerDocument(Relations(map[], [], [], []), documents, batches, respond, printerOpen, 0);
  }

  /** No request of any document asks about an excluded concept, nor about one not given. */
  lemma ExcludedNeverAsked(documents: seq<Document>, concepts: seq<Concept>, excluded: set<string>,
                           respond: (nat, nat) -> Result<seq<Score>>, printerOpen: bool, r: Relations,
                           k: nat, b: nat, c: Concept)
    requires Relate(documents, concepts, excluded, respond, printerOpen) == Success(r)
    requires k < |r.requests| && b < |r.requests[k]| && c in r.requests[k][b].concepts
    ensures c.name !in excluded && c in concepts
  {
    var batches := Partition(AskedConcepts(concepts, excluded), ConceptBatchSize);
    RelateRequests(documents, concepts, excluded, respond, printerOpen, r);
    assert r.requests[k] == RequestsOf(documents, batches, 0)[k] == BatchRequests(documents[k].name, batches);
    InFlatten(batches, b, c);
    AskedIsKept(concepts, excluded, c);
  }

  /** Every row of the final table is the name of one of the documents. */
  lemma RelateRowsAreDocuments(documents: seq<Document>, concepts: seq<Concept>, excluded: set<string>,
                               respond: (nat, nat) -> Result<seq<Score>>, printerOpen: bool)
    requires Relate(documents, concepts, excluded, respond, printerOpen).Success?
    ensures var r := Relate(documents, concepts, excluded, respond, printerOpen).value;
      forall key :: key in r.table ==> exists m :: 0 <= m < |documents| && documents[m].name == key.0
  {
    var batches := Partition(AskedConcepts(concepts, excluded), ConceptBatchSize);
    RowsAreDocuments(Relations(map[], [], [], []), documents, batches, respond, printerOpen, 0);
  }

  /**
   * Every cell of the final table holds a score that the service gave: a response, for a document
   * with the cell's row name and one of the batches, scored the cell's concept with that value.
   */
  lemma RelateProvenance(documents: seq<Document>, concepts: seq<Concept>, excluded: set<string>,
                         respond: (nat, nat) -> Result<seq<Score>>, printerOpen: bool)
    requires Relate(documents, concepts, excluded, respond, printerOpen).Success?
    ensures var r := Relate(documents, concepts, excluded, respond, printerOpen).value.table;
      var batchCount := |Partition(AskedConcepts(concepts, excluded), ConceptBatchSize)|;
      forall k :: k in r ==> exists m, b :: 0 <= m < |documents| && 0 <= b < batchCount && documents[m].name == k.0 &&
                                            FromResponse(respond(m, b), k.1, r[k])
  {
    var batches := Partition(AskedConcepts(concepts, excluded), ConceptBatchSize);
    DocumentsProvenance(Relations(map[], [], [], []), documents, batches, respond, printerOpen, 0);
  }
}
