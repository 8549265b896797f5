/**
 * Values of the Concept Insights client library that the core builds and passes around.
 * The library's own code is not part of this model; only the fields the core reads or sets appear.
 */
module Watson {
  import opened Outcomes

  datatype Corpus = Corpus(accountId: string, name: string)

  /** A corpus id as the client library lays it out: "/corpora/<account>/<name>". */
  function CorpusId(c: Corpus): (id: string)
    ensures '/' in id
  {
    "/corpora/" + c.accountId + "/" + c.name
  }

  datatype Part = Part(name: string, data: string, contentType: string)

  /**
   * A document of a corpus. `new Document(corpus, name)` gives the empty-bodied value of NewDocument;
   * the library derives the document id from the corpus and the name.
   */
  datatype Document = Document(
    corpus: Corpus,
    name: string,
    docLabel: Option<string>,  // the library's "label"
    parts: seq<Part>,
    expiresOn: Option<int>,
    lastModified: Option<int>,
    timeToLive: Option<int>,
    userFields: Option<map<string, string>>)

  /** `new Document(corpus, name)`: only the corpus and the name are set. */
  function NewDocument(corpus: Corpus, name: string): (d: Document)
    ensures d.corpus == corpus && d.name == name
    ensures d.docLabel == None && d.parts == []
  {
    Document(corpus, name, None, [], None, None, None, None)
  }

  /** A concept of a graph, with its full id ("/graphs/<account>/<graph>/concepts/<name>") and its name. */
  datatype Concept = Concept(id: string, name: string)

  /** One relation score in a scoring response: the scored concept's id and the score. */
  datatype Score = Score(concept: string, score: real)
}
