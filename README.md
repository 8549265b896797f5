# ciTool core, modelled in Dafny

ciTool is a command-line tool around IBM Watson's Concept Insights service. It uploads documents
to a corpus, relates every document of a corpus to a list of Wikipedia concepts, asks whether
concept names exist in a concept graph, and looks corpora and documents up. This project models
the logic of that core. Every remote call (listing, creating and deleting documents, polling the
corpus, relation scores, concept lookups, the stopwatch, the console line read before creating a
corpus) is a parameter: an oracle function or value that says what the call returns or whether it
throws. The model then states and proves what the tool does with those answers.

Files, one module each:

- `outcomes.dfy`: `Option`, `Result` and the errors that escape the tool's catch blocks.
- `watson.dfy`: the client library's corpus, document, part, concept and score values, as far as
  the core uses them.
- `java_strings.dfy`: the `java.lang.String` operations used (`trim`, ASCII `toLowerCase`,
  `startsWith`, `endsWith`, `contains`, `lastIndexOf`) and Java's truncating `/ 2`.
- `util.dfy`: the helpers of `util/Util.java` that the core uses.
- `ci_util.dfy`: the id and name codecs of `CiUtil`.
- `ci_corpus_helper.dfy`: corpus lookup with retries, get-or-create, document listing, search by
  partial name and `enrich`, both as a function on values and as a method on a mutable document.
- `ci_graph_querier.dfy`: the uncached and the memoised concept-name check, and the `Querier`
  class with its two memo fields.
- `ci_document_concept_relater.dfy` and `ci_document_concept_relater_runs.dfy`: the relation run.
  It drops the excluded concepts, asks for twenty concepts per request, fills the
  (document, concept) table, and records failed batches and per-document success counts.
- `reconciliation.dfy`: the body of `uploadDocuments`, which both uploader classes share. It
  takes a snapshot, deletes the names the inputs lack, creates the inputs, counts the successful
  calls. After every create attempt (a skipped document is no attempt) whose counter is then a
  multiple of 25, zero included, it polls the corpus status, and when the counter is above zero it
  also logs an ETA.
- `ci_document_uploader.dfy` and `a2t_document_uploader.dfy`: the two uploader classes. Their
  counters are fields that `UploadDocuments` updates.

## Model

| member | source | states |
|---|---|---|
| JavaStrings.Trim | src/main/java/gmjonker/citool/CiUtil.java:63 | the result is no longer than the input and has no character U+0020 or below at either end |
| JavaStrings.TrimMiddle | src/main/java/gmjonker/citool/CiUtil.java:63 | what `trim` returns is the part of the string between a prefix and a suffix made of removable characters only |
| JavaStrings.TrimKeepsUntrimmedEnds | src/main/java/gmjonker/citool/CiUtil.java:63 | trimming a string that already has untrimmable ends changes nothing |
| JavaStrings.ToLowerCase | src/main/java/gmjonker/citool/CiUtil.java:63 | same length; each character lower-cased on its own; no ASCII capital remains |
| JavaStrings.LowerCaseIdempotent | src/main/java/util/Util.java:78-83 | lower-casing twice is lower-casing once |
| JavaStrings.LowerCaseKeepsLower | src/main/java/util/Util.java:78-83 | lower-casing leaves a string without ASCII capitals unchanged |
| JavaStrings.ContainsAt | src/main/java/util/Util.java:111-114 | a query occurring at some position makes `contains` true |
| JavaStrings.ContainsPosition | src/main/java/util/Util.java:111-114 | when `contains` is true the query occurs at the position the lemma returns |
| JavaStrings.ContainsIff | src/main/java/util/Util.java:111-114 | `contains` is true exactly when the query occurs at some position |
| JavaStrings.LastIndexOf | src/main/java/gmjonker/citool/CiUtil.java:39 | -1 exactly when the character is absent; otherwise a position holding it with none after it |
| JavaStrings.LastIndexOfSeparator | src/main/java/gmjonker/citool/CiUtil.java:39 | in p + "/" + q with no "/" in q, the last "/" is the middle one |
| JavaStrings.JavaHalf | src/main/java/util/Util.java:123 | Java's int `/ 2`: the half truncated toward zero, for negative operands too |
| Util.Map | src/main/java/util/Util.java:522-525 | same length, and each element is the function applied to the element at the same position |
| Util.Filter | src/main/java/util/Util.java:540-543 | every kept element passes and comes from the list; every passing element is kept |
| Util.FilterConcat | src/main/java/util/Util.java:540-543 | filtering a concatenation is the concatenation of the filtered parts, so order is kept |
| Util.FilterDistinct | src/main/java/util/Util.java:540-543 | filtering a list without repetitions gives a list without repetitions |
| Util.FilterCounts | src/main/java/util/Util.java:540-543 | each element occurs as often in the result as in the list if it passes, and not at all otherwise |
| Util.MapSet | src/main/java/util/Util.java:527-533 | the result is exactly the image of the set |
| Util.MapSetSize | src/main/java/util/Util.java:527-533 | the image is never larger than the set |
| Util.MapSetCollision | src/main/java/util/Util.java:527-533 | two distinct elements with one image make the image strictly smaller |
| Util.ZipWith | src/main/java/util/Util.java:548-559 | for lists of equal length: same length, each element the function of the pair at its position |
| Util.LinesAppend | src/main/java/util/Util.java:285-292 | one more element adds exactly its indented line at the end |
| Util.ListToStringLineByLine | src/main/java/util/Util.java:285-292 | "[" and a newline, then one line per element, in order, then "]" |
| Util.NormalizeText | src/main/java/util/Util.java:78-83 | the result is no longer than the input, has untrimmable ends and has no ASCII capital |
| Util.Normalize | src/main/java/util/Util.java:78-83 | null stays null and a string stays a string |
| Util.NormalizeTextIdempotent | src/main/java/util/Util.java:78-83 | normalising a string twice is normalising it once |
| Util.NormalizeIdempotent | src/main/java/util/Util.java:78-83 | the same, with null allowed |
| Util.IsNormalized | src/main/java/util/Util.java:101-104 | null is normalized (`normalize(null)` is null); the non-null case is characterised by IsNormalizedCharacterised |
| Util.EqualsNormalized | src/main/java/util/Util.java:106-109 | every string, null included, equals itself up to normalisation, and null equals only null |
| Util.ContainsNormalized | src/main/java/util/Util.java:111-114 | a query that normalises to the empty string is contained in every string |
| Util.NormalizeIsNormalized | src/main/java/util/Util.java:101-104 | what `normalize` returns passes `isNormalized` |
| Util.IsNormalizedCharacterised | src/main/java/util/Util.java:101-104 | a string is normalized exactly when it has no ASCII capital and no trimmable end |
| Util.EqualsOwnNormalForm | src/main/java/util/Util.java:106-109 | every string, null included, equals its normal form up to normalisation |
| Util.EqualsImpliesContains | src/main/java/util/Util.java:106-114 | two strings equal up to normalisation contain each other up to normalisation |
| Util.NormalizeArray | src/main/java/util/Util.java:86-91 | the array afterwards holds the normal form of each earlier element; a null array is left alone |
| Util.NormalizeList | src/main/java/util/Util.java:94-99 | null stays null; otherwise the list of the normal forms, element by element |
| Util.ShortenString | src/main/java/util/Util.java:116-125 | a string that fits is unchanged; it fails with an index exception exactly for a negative width, or for width 0 on 9 or more characters; from width 2 on the result fits; below 9 characters the first `desiredLength` are kept; from 9 on it is the first and the last (desiredLength-2)/2 characters around "..", which for width 1 is ".." alone |
| Util.StripUrlPrefix | src/main/java/util/Util.java:127-137 | a suffix of the URL; the five prefixes are tried in source order, and the first that matches, and only that one, is removed ("https://www." 12 characters, "http://www." 11, "https://" 8, "http://" 7, "www." 4); a URL matching none is unchanged |
| Util.StripUrlPrefixOnce | src/main/java/util/Util.java:129-136 | for every rest, "https://www." or "http://www." followed by it gives that rest back unchanged, even when it starts with a prefix itself |
| Util.ShortenUrlString | src/main/java/util/Util.java:127-137 | the same cases as shortenString, stated of the URL with its prefix stripped: unchanged when it fits, the exact failure condition, the cut below 9 characters, the two ends around ".." from 9 on (".." for width 1), and a result that fits from width 2 on |
| Util.ToWidth | src/main/java/util/Util.java:303-306 | fails exactly for a negative width; otherwise exactly that width, the text cut or padded with spaces, null printed as "null" |
| Util.WholeUnitsPositive | src/main/java/util/Util.java:259-268 | a duration holds at least one whole unit exactly when it is at least one unit long |
| Util.ChooseUnit | src/main/java/util/Util.java:259-268 | the largest unit with at least one whole unit in the duration, nanoseconds below one microsecond |
| Util.Abbreviate | src/main/java/util/Util.java:271-283 | every unit has a non-empty symbol |
| Util.AbbreviateInjective | src/main/java/util/Util.java:271-283 | no two units share a symbol |
| CiUtil.GetNameFromId | src/main/java/gmjonker/citool/CiUtil.java:37-43 | fails, naming the id, exactly when the id has no '/'; otherwise a name without '/' that is shorter than the id |
| CiUtil.NameOfId | src/main/java/gmjonker/citool/CiUtil.java:39-42 | for an id holding '/', the name getNameFromId returns |
| CiUtil.NameFromIdSplits | src/main/java/gmjonker/citool/CiUtil.java:39-42 | an accepted id is a prefix, one '/' and the name |
| CiUtil.ConceptNameToId | src/main/java/gmjonker/citool/CiUtil.java:45-48 | the id starts with "/graphs/<account>/" and ends with "/concepts/<name>" |
| CiUtil.ConceptIdRoundTrip | src/main/java/gmjonker/citool/CiUtil.java:37-48 | getNameFromId recovers a concept name without '/' from the id built for it |
| CiUtil.GetDocumentFromId | src/main/java/gmjonker/citool/CiUtil.java:50-55 | an empty document of the corpus, named by a '/'-free ending of the id, or the whole id if it has no '/' |
| CiUtil.DocumentFromIdAgreesWithName | src/main/java/gmjonker/citool/CiUtil.java:37-55 | for an id holding '/', the document's name is the one getNameFromId returns |
| CiUtil.DropRun | src/main/java/gmjonker/citool/CiUtil.java:67 | the suffix left after the leading run of characters outside `[_\-\w\s]`; shorter when that run is non-empty |
| CiUtil.ReplaceRunsChars | src/main/java/gmjonker/citool/CiUtil.java:67 | only name characters; each is '_' or comes from the input; no capitals introduced |
| CiUtil.ReplaceRuns | src/main/java/gmjonker/citool/CiUtil.java:67 | never longer than the input and empty only for the empty input; its value on every string is fixed by ReplaceRunsSingle, ReplaceRunsRun and ReplaceRunsConcat |
| CiUtil.ReplaceRunsSingle | src/main/java/gmjonker/citool/CiUtil.java:67 | a single name character is kept and any other single character becomes "_" |
| CiUtil.ReplaceRunsRun | src/main/java/gmjonker/citool/CiUtil.java:67 | a non-empty run of characters outside the class, of any length, becomes exactly one "_" |
| CiUtil.DropRunConcat | src/main/java/gmjonker/citool/CiUtil.java:67 | the leading run of a concatenation ends inside the first part when a name character borders the cut |
| CiUtil.ReplaceRunsConcat | src/main/java/gmjonker/citool/CiUtil.java:67 | where a name character borders a cut, replacing the whole is replacing each part and concatenating; with the two single-character cases and the run case this fixes the result of every string |
| CiUtil.ReplaceRunsIdentity | src/main/java/gmjonker/citool/CiUtil.java:67 | the replacement leaves a string unchanged exactly when it consists of name characters only |
| CiUtil.StripScheme | src/main/java/gmjonker/citool/CiUtil.java:64-65 | removes "https://", or else "http://", or nothing |
| CiUtil.StripTrailingSlash | src/main/java/gmjonker/citool/CiUtil.java:66 | removes one trailing '/', or nothing |
| CiUtil.UrlToDocumentName | src/main/java/gmjonker/citool/CiUtil.java:60-70 | the name has only characters of `[_\-\w\s]`, no ASCII capital, and is no longer than the URL |
| CiCorpusHelper.GetCorpusWithRetries | src/main/java/gmjonker/citool/CiCorpusHelper.java:52-73 | at most four lookups, each earlier one failed, a 5000 ms pause before each retry; the corpus of the last lookup, or the failure after the fourth |
| CiCorpusHelper.GetOrCreateCorpus | src/main/java/gmjonker/citool/CiCorpusHelper.java:75-98 | an existing corpus is returned; createCorpus is called only after "not found" and an answer starting with y or Y; a "no" exits; every other failure escapes |
| CiCorpusHelper.AnswerOnlyMattersWhenNotFound | src/main/java/gmjonker/citool/CiCorpusHelper.java:81-95 | unless the lookup said "not found", the console answer changes nothing |
| CiCorpusHelper.ToSet | src/main/java/gmjonker/citool/CiCorpusHelper.java:117 | the set of the list's elements |
| CiCorpusHelper.ToSetSize | src/main/java/gmjonker/citool/CiCorpusHelper.java:117 | the set is never larger than the list |
| CiCorpusHelper.GetAllDocumentIds | src/main/java/gmjonker/citool/CiCorpusHelper.java:107-118 | a failed listing propagates; otherwise exactly the listed ids, and the truncation warning exactly when 100000 ids came back |
| CiCorpusHelper.FirstNonWatsonId | src/main/java/gmjonker/citool/CiCorpusHelper.java:120-123 | the id reported is a listed id without '/' |
| CiCorpusHelper.GetAllDocumentNames | src/main/java/gmjonker/citool/CiCorpusHelper.java:120-123 | fails exactly when the listing fails or holds an id without '/'; otherwise exactly the names of the listed ids |
| CiCorpusHelper.NamesAreImage | src/main/java/gmjonker/citool/CiCorpusHelper.java:120-123 | the names are the image of the id set under getNameFromId |
| CiCorpusHelper.NamesMayCollide | src/main/java/gmjonker/citool/CiCorpusHelper.java:120-123 | two ids ending in the same name give fewer names than ids |
| CiCorpusHelper.Distinct | src/main/java/gmjonker/citool/CiCorpusHelper.java:131 | the same elements, each once, never longer |
| CiCorpusHelper.MatchingIds | src/main/java/gmjonker/citool/CiCorpusHelper.java:130-135 | exactly the listed ids whose name contains the query after normalisation; no id occurs twice |
| CiCorpusHelper.FindDocumentsByPartialName | src/main/java/gmjonker/citool/CiCorpusHelper.java:130-140 | the same failures as the name listing; otherwise, position by position, the document getDocumentFromId gives for each of the matching ids, so one per matching id and only such documents |
| CiCorpusHelper.Enriched | src/main/java/gmjonker/citool/CiCorpusHelper.java:169-180 | a failed fetch propagates; otherwise corpus and name are kept and the six other fields come from the fetched document |
| CiCorpusHelper.Enrich | src/main/java/gmjonker/citool/CiCorpusHelper.java:169-180 | on the mutable document: a failed fetch leaves it unchanged; otherwise its new fields are Enriched of the old ones |
| CiCorpusHelper.EnrichGivesFetched | src/main/java/gmjonker/citool/CiCorpusHelper.java:172-179 | enriching with the document asked for yields that document |
| CiCorpusHelper.EnrichForgetsOldContents | src/main/java/gmjonker/citool/CiCorpusHelper.java:174-179 | only corpus and name of the document matter to the result |
| CiGraphQuerier.AnswerOf | src/main/java/gmjonker/citool/CiGraphQuerier.java:49-62 | true exactly for a found concept; an unexpected exception is the only failure |
| CiGraphQuerier.CheckConceptNameExists | src/main/java/gmjonker/citool/CiGraphQuerier.java:49-62 | true exactly when found; false for NotFound and for other service errors; fails on any other exception |
| CiGraphQuerier.CacheStep | src/main/java/gmjonker/citool/CiGraphQuerier.java:67-86 | a remembered name is answered from the memo without a call; otherwise the uncached answer, a found or not-found name is remembered, a service error is not; the memo stays disjoint |
| CiGraphQuerier.HitIgnoresGraphAndService | src/main/java/gmjonker/citool/CiGraphQuerier.java:67-72 | a cache hit depends on neither the graph asked about nor the service |
| CiGraphQuerier.CacheAgreesWithService | src/main/java/gmjonker/citool/CiGraphQuerier.java:49-86 | with a memo filled from the same graph and service, cached and uncached answers agree and the memo stays consistent |
| CiGraphQuerier.Replay | src/main/java/gmjonker/citool/CiGraphQuerier.java:64-86 | one answer per query, each check reaching the service as it is at that moment; the memo only grows and stays disjoint |
| CiGraphQuerier.AnswersAreSticky | src/main/java/gmjonker/citool/CiGraphQuerier.java:67-81 | once a name is remembered, every later check of it gives the remembered answer, whatever the service would answer by then |
| CiGraphQuerier.ServiceErrorIsRetried | src/main/java/gmjonker/citool/CiGraphQuerier.java:67-85 | a service error is not remembered: the first check answers false, and a later check asks again and answers true, remembering the name, once the concept is found |
| CiGraphQuerier.Querier.constructor | src/main/java/gmjonker/citool/CiGraphQuerier.java:64-65 | a new querier remembers nothing |
| CiGraphQuerier.Querier.CheckConceptNameExistsCached | src/main/java/gmjonker/citool/CiGraphQuerier.java:67-86 | the answer, the call and the new memo fields are those of CacheStep on the old fields; the fields stay disjoint |
| CiDocumentConceptRelater.Partition | src/main/java/gmjonker/citool/CiDocumentConceptRelater.java:97 | consecutive batches of at most 20 (all but the last exactly 20) whose concatenation is the list |
| CiDocumentConceptRelater.BatchCount | src/main/java/gmjonker/citool/CiDocumentConceptRelater.java:97 | n concepts make ceil(n / 20) batches |
| CiDocumentConceptRelater.FortyFiveConcepts | src/main/java/gmjonker/citool/CiDocumentConceptRelater.java:97 | 45 concepts make batches of 20, 20 and 5 |
| CiDocumentConceptRelater.AskedConcepts | src/main/java/gmjonker/citool/CiDocumentConceptRelater.java:77-86 | exactly the concepts whose name is not excluded, with their multiplicities |
| CiDocumentConceptRelater.AskedConceptsConcat | src/main/java/gmjonker/citool/CiDocumentConceptRelater.java:77-86 | the filter keeps the order of the concepts |
| CiDocumentConceptRelater.AskedConceptsSingle | src/main/java/gmjonker/citool/CiDocumentConceptRelater.java:77-86 | each concept is kept or dropped by its name alone |
| CiDocumentConceptRelater.PutAll | src/main/java/gmjonker/citool/CiDocumentConceptRelater.java:103-105 | cells are never removed; new cells are in the document's row; other rows unchanged; succeeds exactly when every concept id holds '/', and then each score has its cell |
| CiDocumentConceptRelater.LaterScoreWins | src/main/java/gmjonker/citool/CiDocumentConceptRelater.java:104-105 | of two scores for one concept, the later one stays in the table |
| CiDocumentConceptRelater.PutCount | src/main/java/gmjonker/citool/CiDocumentConceptRelater.java:104-105 | the number of puts made before the first score whose concept id has no '/': all ids before it hold '/', and the one at it does not |
| CiDocumentConceptRelater.LastForFound | src/main/java/gmjonker/citool/CiDocumentConceptRelater.java:104-105 | the search for the last element with a key finds one exactly when some element has that key |
| CiDocumentConceptRelater.LastForLatest | src/main/java/gmjonker/citool/CiDocumentConceptRelater.java:104-105 | what the search finds is an element with the key, and no later element has it |
| CiDocumentConceptRelater.LastForCons | src/main/java/gmjonker/citool/CiDocumentConceptRelater.java:104-105 | an element in front is found only when no later element has the key |
| CiDocumentConceptRelater.LastScoreSpec | src/main/java/gmjonker/citool/CiDocumentConceptRelater.java:104-105 | the last score for a name is present exactly when some score gives that name, and then it is one of them with no later score for the name |
| CiDocumentConceptRelater.LastScoreCons | src/main/java/gmjonker/citool/CiDocumentConceptRelater.java:104-105 | a score in front counts for its name only when no later score gives that name |
| CiDocumentConceptRelater.PutAllCells | src/main/java/gmjonker/citool/CiDocumentConceptRelater.java:103-105 | exactly the puts before the first id without '/' are made: each cell of the document's row named by one of them holds the last such score, every other cell keeps its value, no other cell appears; it succeeds exactly when every id holds '/' |
| CiDocumentConceptRelater.PutAllProvenance | src/main/java/gmjonker/citool/CiDocumentConceptRelater.java:103-105 | each cell afterwards is either an unchanged earlier cell or in the document's row, holding a score one of the given scores gives for that concept name |
| CiDocumentConceptRelater.PutScores | src/main/java/gmjonker/citool/CiDocumentConceptRelater.java:103-105 | the loop of puts gives PutAll's table and outcome |
| CiDocumentConceptRelater.BatchStep | src/main/java/gmjonker/citool/CiDocumentConceptRelater.java:101-113 | one request per batch; the batch joins the successful concepts exactly when the request and all its puts succeed, else the failed; a failed request keeps the table |
| CiDocumentConceptRelater.BatchesFrom | src/main/java/gmjonker/citool/CiDocumentConceptRelater.java:101-113 | the remaining batches add exactly one request each |
| CiDocumentConceptRelater.BatchRequests | src/main/java/gmjonker/citool/CiDocumentConceptRelater.java:103 | one request per batch, in batch order, each naming the document |
| CiDocumentConceptRelater.BatchesRequests | src/main/java/gmjonker/citool/CiDocumentConceptRelater.java:101-113 | the remaining batches each add their request, in order, whatever the responses |
| CiDocumentConceptRelater.BatchesConcepts | src/main/java/gmjonker/citool/CiDocumentConceptRelater.java:101-113 | every concept of the remaining batches joins the successful or the failed ones, and nothing else does |
| CiDocumentConceptRelater.BatchesTable | src/main/java/gmjonker/citool/CiDocumentConceptRelater.java:101-113 | the remaining batches keep every cell and add cells to the document's row only |
| CiDocumentConceptRelater.BatchesProvenance | src/main/java/gmjonker/citool/CiDocumentConceptRelater.java:101-113 | each cell after the remaining batches is an earlier cell unchanged or in the document's row, holding a score that a successful response to one of those batches gave for that concept |
| CiDocumentConceptRelater.RelateDocumentRequests | src/main/java/gmjonker/citool/CiDocumentConceptRelater.java:97-113 | a document asks for every batch once, in batch order |
| CiDocumentConceptRelater.RelateDocument | src/main/java/gmjonker/citool/CiDocumentConceptRelater.java:97-113 | a document makes one request per batch; RelateDocumentRequests gives them in order |
| CiDocumentConceptRelater.RelateDocumentConcepts | src/main/java/gmjonker/citool/CiDocumentConceptRelater.java:99-113 | successful and failed concepts together are exactly the document's batches |
| CiDocumentConceptRelater.RelateDocumentTable | src/main/java/gmjonker/citool/CiDocumentConceptRelater.java:101-113 | a document keeps every cell and writes into its own row only |
| CiDocumentConceptRelater.RelateDocumentProvenance | src/main/java/gmjonker/citool/CiDocumentConceptRelater.java:101-113 | each cell after a document's pass is unchanged or holds a score a successful response for that document gave for that concept |
| CiDocumentConceptRelater.RelateDocumentLoop | src/main/java/gmjonker/citool/CiDocumentConceptRelater.java:97-113 | the batch loop ends in RelateDocument's pass |
| CiDocumentConceptRelater.NamesOfConcepts | src/main/java/gmjonker/citool/CiDocumentConceptRelater.java:119 | succeeds exactly when every id holds '/', then the names in order; otherwise the error names an id without '/' |
| CiDocumentConceptRelater.Record | src/main/java/gmjonker/citool/CiDocumentConceptRelater.java:115-126 | fails exactly when a printer is open and a failed concept id has no '/'; otherwise appends the success count and the requests, keeps the table, and writes a failure line exactly when something failed and a printer is open |
| CiDocumentConceptRelater.DocumentsFrom | src/main/java/gmjonker/citool/CiDocumentConceptRelater.java:91-127 | the loop over the documents from position i on, each document's batches recorded in turn; its properties are stated by NoPrinterNoAbort and the run lemmas |
| CiDocumentConceptRelater.Relate | src/main/java/gmjonker/citool/CiDocumentConceptRelater.java:70-127 | without a printer the whole run completes and writes no failure line; the run lemmas in CiDocumentConceptRelaterRuns state its counts, requests and table |
| CiDocumentConceptRelater.GetDocumentConceptNameRelations | src/main/java/gmjonker/citool/CiDocumentConceptRelater.java:62-133 | the loops give Relate's result |
| CiDocumentConceptRelater.NoPrinterNoAbort | src/main/java/gmjonker/citool/CiDocumentConceptRelater.java:70-75 | without a printer the document loop never fails and writes no failure line |
| CiDocumentConceptRelaterRuns.Advance | src/main/java/gmjonker/citool/CiDocumentConceptRelater.java:91-127 | one document adds its batch requests and one count, at most the number of concepts, and new cells only in its own row |
| CiDocumentConceptRelaterRuns.CountsPerDocument | src/main/java/gmjonker/citool/CiDocumentConceptRelater.java:126 | one success count per remaining document, earlier counts kept, each at most the concepts asked |
| CiDocumentConceptRelaterRuns.RequestsOf | src/main/java/gmjonker/citool/CiDocumentConceptRelater.java:91-113 | one list of batch requests per document, in document order |
| CiDocumentConceptRelaterRuns.RequestsPerDocument | src/main/java/gmjonker/citool/CiDocumentConceptRelater.java:91-113 | every document asks for every batch once, in order, whatever failed before |
| CiDocumentConceptRelaterRuns.RowsAreDocuments | src/main/java/gmjonker/citool/CiDocumentConceptRelater.java:91-105 | cells are never removed and every new row is the name of a remaining document |
| CiDocumentConceptRelaterRuns.DocumentsProvenance | src/main/java/gmjonker/citool/CiDocumentConceptRelater.java:91-113 | each cell after the remaining documents is an earlier cell unchanged or a score a successful response gave for one of those documents, in its row, for that concept |
| CiDocumentConceptRelaterRuns.AskedIsKept | src/main/java/gmjonker/citool/CiDocumentConceptRelater.java:77-86 | a concept asked about is one of the given concepts and not excluded |
| CiDocumentConceptRelaterRuns.RelateCounts | src/main/java/gmjonker/citool/CiDocumentConceptRelater.java:89-90 | a completed run has one count per document, each at most the number of concepts asked |
| CiDocumentConceptRelaterRuns.RelateRequests | src/main/java/gmjonker/citool/CiDocumentConceptRelater.java:91-113 | a completed run asks every batch of twenty of the kept concepts for every document, in order |
| CiDocumentConceptRelaterRuns.ExcludedNeverAsked | src/main/java/gmjonker/citool/CiDocumentConceptRelater.java:77-103 | no request asks about an excluded concept or one not given |
| CiDocumentConceptRelaterRuns.RelateRowsAreDocuments | src/main/java/gmjonker/citool/CiDocumentConceptRelater.java:103-105 | every row of the final table is the name of one of the documents |
| CiDocumentConceptRelaterRuns.RelateProvenance | src/main/java/gmjonker/citool/CiDocumentConceptRelater.java:62-133 | every cell of the final table holds a score that a successful response for some document and batch gave for that cell's concept, in the row named by that document |
| Reconciliation.BuildDocument | src/main/java/gmjonker/citool/CiDocumentUploader.java:73-80 | the document has the input's name and label and one plain-text part holding its body, nothing else |
| Reconciliation.BuildDocuments | src/main/java/gmjonker/citool/CiDocumentUploader.java:70-82 | one built document per input, in input order |
| Reconciliation.DeleteCandidates | src/main/java/gmjonker/citool/CiDocumentUploader.java:85-93 | exactly the snapshot names no input has, and none unless deleteOthers |
| Reconciliation.PlannedCreates | src/main/java/gmjonker/citool/CiDocumentUploader.java:121-127 | exactly the positions whose document is created (new, or overwriting on), increasing |
| Reconciliation.EtaEstimate | src/main/java/gmjonker/citool/CiDocumentUploader.java:147-150 | zero when all are uploaded; non-negative and at most the elapsed time per upload times the uploads left; negative once more were uploaded than the run's inputs |
| Reconciliation.EtaBounds | src/main/java/gmjonker/citool/CiDocumentUploader.java:147-150 | the arithmetic of the same bounds for the truncating quotient |
| Reconciliation.CreateStep | src/main/java/gmjonker/citool/CiDocumentUploader.java:123-153 | one create call exactly for a wanted document; the counter grows exactly when that call succeeds; at most one ETA; the loop stops only at a failing poll |
| Reconciliation.CreatesFrom | src/main/java/gmjonker/citool/CiDocumentUploader.java:121-154 | the upload counter never falls and grows by at most one per remaining document |
| Reconciliation.CreatesExtend | src/main/java/gmjonker/citool/CiDocumentUploader.java:121-154 | the loop only appends, at most one create call per remaining position |
| Reconciliation.CreatesOnlyWanted | src/main/java/gmjonker/citool/CiDocumentUploader.java:124-127 | no create call for an existing document while overwriting is off |
| Reconciliation.CreatesAllPlanned | src/main/java/gmjonker/citool/CiDocumentUploader.java:121-142 | a loop no poll ends makes exactly the planned create calls: a failed create stops nothing |
| Reconciliation.CreatesCount | src/main/java/gmjonker/citool/CiDocumentUploader.java:132-142 | the counter grows by exactly the number of create calls that succeeded |
| Reconciliation.StepIgnoresClock | src/main/java/gmjonker/citool/CiDocumentUploader.java:144-153 | one step under another stopwatch makes the same calls and counts |
| Reconciliation.CreatesIgnoreEstimates | src/main/java/gmjonker/citool/CiDocumentUploader.java:121-154 | the whole loop under another stopwatch makes the same calls and counts |
| Reconciliation.PollsOkNoAbort | src/main/java/gmjonker/citool/CiDocumentUploader.java:144-146 | when every poll succeeds the loop runs to the end |
| Reconciliation.SucceededDeletes | src/main/java/gmjonker/citool/CiDocumentUploader.java:106-115 | the candidates whose delete succeeds |
| Reconciliation.Reconciled | src/main/java/gmjonker/citool/CiDocumentUploader.java:59-163 | the upload counter grows by at most the number of inputs and the delete counter never falls; without deleteOthers nothing is deleted and the delete counter is kept |
| Reconciliation.NoDuplicatesTail | src/main/java/gmjonker/citool/CiDocumentUploader.java:97 | the tail of a list without repetitions has none and lacks the head |
| Reconciliation.SuccessesOfDistinct | src/main/java/gmjonker/citool/CiDocumentUploader.java:97-116 | over distinct names, counting successful calls equals counting the set of successful names |
| Reconciliation.ListingFailureChangesNothing | src/main/java/gmjonker/citool/CiDocumentUploader.java:66 | a failing listing escapes before any delete or create, counters unchanged |
| Reconciliation.ReconcileDeletes | src/main/java/gmjonker/citool/CiDocumentUploader.java:85-116 | deletes exactly the snapshot's names that no input has, only with deleteOthers; the counter grows by at most the number of those names |
| Reconciliation.ReconcileCreates | src/main/java/gmjonker/citool/CiDocumentUploader.java:118-154 | no existing document is created while overwriting is off; the counter grows by exactly the successful creates, at most one per input |
| Reconciliation.ReconcileCompletes | src/main/java/gmjonker/citool/CiDocumentUploader.java:59-163 | a run that returns gives the built documents and made exactly the planned creates; it returns when the listing, every poll and the stats call succeed |
| Reconciliation.ReconcileIgnoresClock | src/main/java/gmjonker/citool/CiDocumentUploader.java:144-153 | the stopwatch changes no result, counter or call, only the ETA values |
| Reconciliation.CountersBounded | src/main/java/gmjonker/citool/CiDocumentUploader.java:112-139 | per run the counters grow by at most one per input and one per deleted name |
| Reconciliation.DistinctSize | src/main/java/gmjonker/citool/CiDocumentUploader.java:97 | a list without repetitions is as long as its set |
| Reconciliation.BuildDocumentsLoop | src/main/java/gmjonker/citool/CiDocumentUploader.java:70-82 | the loop builds BuildDocuments |
| Reconciliation.AppendFresh | src/main/java/gmjonker/citool/CiDocumentUploader.java:91-92 | adding a new name keeps the list free of repetitions and adds it to the set |
| Reconciliation.DrawNames | src/main/java/gmjonker/citool/CiDocumentUploader.java:91-92 | the set's names, each exactly once |
| Reconciliation.DeleteLoop | src/main/java/gmjonker/citool/CiDocumentUploader.java:97-116 | the delete calls are exactly the drawn names that are in the snapshot, in drawing order (the skip branch drops the rest); all of them when all are in it; the counter grows by the successful calls |
| Reconciliation.CreateLoop | src/main/java/gmjonker/citool/CiDocumentUploader.java:118-154 | the loop gives CreatesFrom from position 0 |
| Reconciliation.Reconcile | src/main/java/gmjonker/citool/CiDocumentUploader.java:59-163 | the result, counters, create calls and ETAs of Reconciled; delete calls are distinct and are exactly Reconciled's set |
| CiDocumentUploader.Uploader.constructor | src/main/java/gmjonker/citool/CiDocumentUploader.java:41-48 | the settings are stored and both counters are zero |
| CiDocumentUploader.Uploader.GetReplacingDocumentUploader | src/main/java/gmjonker/citool/CiDocumentUploader.java:25-28 | a new uploader that overwrites and deletes others |
| CiDocumentUploader.Uploader.UploadDocuments | src/main/java/gmjonker/citool/CiDocumentUploader.java:59-163 | the counters become Reconciled's values; the result and calls are Reconciled's; the counters grow by at most one per input and one per delete call |
| A2tDocumentUploader.DocumentUploader.constructor | src/main/java/a2t/citool/DocumentUploader.java:32-36 | the corpus is stored and both counters are zero |
| A2tDocumentUploader.DocumentUploader.UploadDocuments | src/main/java/a2t/citool/DocumentUploader.java:41-144 | the same as CiDocumentUploader's, with overwriteExisting and deleteOthers as arguments |

## Left out

- Logging, console output and `Stopwatch` formatting (`nanosToString`) are not modelled. The stopwatch is an oracle (`UploadService.clock`) and only feeds the ETA.
- Remote calls are oracles. `getDocuments`, the relation-scores call, `getConcept`, `createCorpus`, `getCorpus`, `listDocuments`, `createDocument`, `deleteDocument`, `CiStatus.logProcessingState` (`pollOk`) and `getCorpusStats` (`statsOk`) are modelled by what they return or whether they throw. The layout of Watson ids belongs to the client library and is taken as given.
- Thread.sleep in the retry loop is not modelled as waiting; the model records the pauses.
- `System.exit(0)` after a declined corpus creation is the `Exited` outcome; the console line is an `Option` (`None` when no line can be read).
- Lower-casing is ASCII-only, and Java regex `\w` and `\s` are taken in their ASCII sense. Unicode case mapping and other Unicode character classes are not modelled.
- Java `null` is modelled only where the source handles it (`normalize`, `isNormalized`, `equalsNormalized`, `toWidth`). Elsewhere arguments are taken as non-null.
- Reconciliation.CountersBounded: the `int` counters and the `long` ETA arithmetic are unbounded here, so overflow is not modelled.
- Reconciliation.EtaEstimate: it divides by the cumulative upload counter, as the source does. On an uploader reused for a second run the counter can pass the run's input count, and the model gives the negative estimate the source would log.
- Iteration order of `HashSet`s is not modelled. The delete loop meets the candidate names in an order `DrawNames` leaves open. `findDocumentsByPartialName` is modelled in listing order with repeated ids dropped, and `FirstNonWatsonId` reports the first offending id of the listing.
- The delete loop's "not in corpus, skipping" branch cannot fire (every candidate comes from the snapshot). `DeleteLoop` keeps it, and `Reconcile` proves that every drawn name gets exactly one delete call.
- Util.ShortenString, Util.ShortenUrlString, Util.ToWidth: lengths, cuts and padding are counted in Unicode code points (a Dafny `char`), where Java's `length`, `substring` and padding count UTF-16 code units. On text with characters outside the Basic Multilingual Plane the results differ, and a Java cut that splits a surrogate pair gives a string the model cannot represent.
- Util.ZipWith: the source's size assertion is a precondition here.
- CiDocumentConceptRelater.AskedConcepts: the relater's `filter` and `map` come from `gmjonker.util.CollectionsUtil`, which is not part of this model; they are taken to behave like `filter` and `map` of `util/Util.java` (`Util.Filter`, `Util.Map`).
- CiDocumentConceptRelater: the successful-concept counts are an ordered sequence, one per document, rather than Guava's `Multiset`. The list `CONCEPT_NAMES_IN_WIKIPEDIA_BUT_NOT_IN_WATSON` is the `excluded` parameter, and whether `failedRequests.csv` could be opened is `printerOpen`. An `IOException` while writing a line is caught by the source and is not modelled.
- Util.NormalizeList works on the list as a value: aliasing of the Java list is not modelled.
- The a2t `CiDocument` class is not part of this model. Its fields are taken to be those of `gmjonker/citool/CiDocument.java` (name, label, body).
- Not modelled, because they lie outside this core: the logger, `CiCorpusQuerier`, `MatchedDocument`, `CiDocumentStatusQuerier`, the command-line facades, the tests, floating-point score formatting, file input, the `CiGraphQuerier` singleton accessor, and `gmjonker/citool/util/Util.java`.
