/**
 * gmjonker/citool/CiUtil.java: the string codecs between Concept Insights ids ("/graphs/…/concepts/X",
 * ".../documents/Y") and the names the tool works with, and the encoding of a URL as a document name.
 */
module CiUtil {
  import opened Outcomes
  import opened JavaStrings
  import opened Watson

  /** `getNameFromId(id)`: the part after the last '/'; an id without '/' is not a Watson id. */
  function GetNameFromId(id: string): (r: Result<string>)
    ensures r.Failure? <==> '/' !in id
    ensures r.Failure? ==> r.error == InvalidWatsonId(id)
    ensures r.Success? ==> '/' !in r.value && |r.value| < |id|
  {
    var lastIndex := LastIndexOf(id, '/');
    if lastIndex == -1 then Failure(InvalidWatsonId(id)) else Success(id[lastIndex + 1..])
  }

  /** The part after the last '/' of an id: what getNameFromId gives for an id holding '/'. */
  function NameOfId(id: string): (name: string)
    ensures '/' in id ==> GetNameFromId(id) == Success(name)
  {
    var lastIndex := LastIndexOf(id, '/');
    id[lastIndex + 1..]
  }

  /** An accepted id is the name with a prefix and one '/' in front of it. */
  lemma NameFromIdSplits(id: string)
    requires '/' in id
    ensures var name := GetNameFromId(id).value;
      id == id[..|id| - |name| - 1] + "/" + name
  {
    var lastIndex := LastIndexOf(id, '/');
    assert id == id[..lastIndex] + "/" + id[lastIndex + 1..];
  }

  /** `conceptNameToId(accountId, graphName, conceptName)`. */
  function ConceptNameToId(accountId: string, graphName: string, conceptName: string): (id: string)
    ensures StartsWith(id, "/graphs/" + accountId + "/")
    ensures EndsWith(id, "/concepts/" + conceptName)
  {
    "/graphs/" + accountId + "/" + graphName + "/concepts/" + conceptName
  }

  /** The name is recovered from the id built for it, provided the name holds no '/'. */
  lemma ConceptIdRoundTrip(accountId: string, graphName: string, conceptName: string)
    requires '/' !in conceptName
    ensures GetNameFromId(ConceptNameToId(accountId, graphName, conceptName)) == Success(conceptName)
  {
    var front := "/graphs/" + accountId + "/" + graphName + "/concepts";
    var id := ConceptNameToId(accountId, graphName, conceptName);
    assert id == front + ['/'] + conceptName;
    LastIndexOfSeparator(front, '/', conceptName);
    assert id[|front| + 1..] == conceptName;
  }

  /** `getDocumentFromId(documentId, corpus)`: the document named by the part after the last '/'. */
  function GetDocumentFromId(documentId: string, corpus: Corpus): (d: Document)
    ensures d == NewDocument(corpus, d.name)
    ensures '/' !in d.name && EndsWith(documentId, d.name)
    ensures '/' !in documentId ==> d.name == documentId
  {
    var lastIndex := LastIndexOf(documentId, '/');
    NewDocument(corpus, documentId[lastIndex + 1..])
  }

  /** Where getNameFromId succeeds, getDocumentFromId names the document by the same part. */
  lemma DocumentFromIdAgreesWithName(documentId: string, corpus: Corpus)
    requires '/' in documentId
    ensures GetDocumentFromId(documentId, corpus).name == GetNameFromId(documentId).value
  {
  }

  // ---------------------------------------------------------------------------------------------
  // urlToDocumentName

  /** Java regex `\w` (ASCII word characters). */
  predicate IsWordChar(c: char) {
    ('a' <= c <= 'z') || ('A' <= c <= 'Z') || ('0' <= c <= '9') || c == '_'
  }

  /** Java regex `\s`: space, tab, newline, vertical tab, form feed, carriage return. */
  predicate IsSpaceChar(c: char) {
    c == ' ' || c == '\t' || c == '\n' || c == '\U{000B}' || c == '\U{000C}' || c == '\r'
  }

  /** The class `[_\-\w\s]` a document name may consist of. */
  predicate IsNameChar(c: char) {
    c == '_' || c == '-' || IsWordChar(c) || IsSpaceChar(c)
  }

  /** No ASCII capital letter: what lower-casing guarantees and the later steps keep. */
  predicate NoCapitals(s: string) {
    forall k :: 0 <= k < |s| ==> !('A' <= s[k] <= 'Z')
  }

  /** What is left after the maximal run of non-name characters at the start. */
  function DropRun(s: string): (r: string)
    ensures |r| <= |s| && r == s[|s| - |r|..]
    ensures r == [] || IsNameChar(r[0])
    ensures s != [] && !IsNameChar(s[0]) ==> |r| < |s|
  {
    if s != [] && !IsNameChar(s[0]) then DropRun(s[1..]) else s
  }

  /** `replaceAll("[^_\\-\\w\\s]+", "_")`: each maximal run of other characters becomes one '_'. */
  function ReplaceRuns(s: string): (r: string)
    ensures |r| <= |s|
    ensures r == [] <==> s == []
    decreases |s|
  {
    if s == [] then []
    else if IsNameChar(s[0]) then [s[0]] + ReplaceRuns(s[1..])
    else "_" + ReplaceRuns(DropRun(s))
  }

  /**
   * The replacement consists of name characters only, each of them a '_' or a character of the
   * input; it is never longer than the input, empty only for the empty input, and introduces no
   * capital letter.
   */
  lemma {:induction false} ReplaceRunsChars(s: string)
    ensures forall k :: 0 <= k < |ReplaceRuns(s)| ==> IsNameChar(ReplaceRuns(s)[k])
    ensures forall k :: 0 <= k < |ReplaceRuns(s)| ==> ReplaceRuns(s)[k] == '_' || ReplaceRuns(s)[k] in s
    ensures NoCapitals(s) ==> NoCapitals(ReplaceRuns(s))
    decreases |s|
  {
    if s != [] && IsNameChar(s[0]) {
      var tail := s[1..];
      ReplaceRunsKeep(s);
      ReplaceRunsChars(tail);
      var rest := ReplaceRuns(tail);
      PrependChars([s[0]], rest, tail, s);
      assert ReplaceRuns(s) == [s[0]] + rest;
    } else if s != [] {
      var tail := DropRun(s);
      ReplaceRunsSkip(s);
      ReplaceRunsChars(tail);
      var rest := ReplaceRuns(tail);
      PrependChars("_", rest, tail, s);
      assert ReplaceRuns(s) == "_" + rest;
    }
  }

  /** The step of `ReplaceRunsChars`: one allowed character in front of an allowed rest. */
  lemma PrependChars(head: string, rest: string, tail: string, s: string)
    requires |head| == 1 && IsNameChar(head[0]) && (head[0] == '_' || head[0] in s)
    requires NoCapitals(s) ==> !('A' <= head[0] <= 'Z')
    requires |tail| < |s| && tail == s[|s| - |tail|..]
    requires |rest| <= |tail|
    requires forall k :: 0 <= k < |rest| ==> IsNameChar(rest[k])
    requires forall k :: 0 <= k < |rest| ==> rest[k] == '_' || rest[k] in tail
    requires NoCapitals(tail) ==> NoCapitals(rest)
    ensures |head + rest| <= |s|
    ensures forall k :: 0 <= k < |head + rest| ==> IsNameChar((head + rest)[k])
    ensures forall k :: 0 <= k < |head + rest| ==> (head + rest)[k] == '_' || (head + rest)[k] in s
    ensures NoCapitals(s) ==> NoCapitals(head + rest)
  {
    if NoCapitals(s) {
      assert NoCapitals(tail) by {
        forall m | 0 <= m < |tail| ensures !('A' <= tail[m] <= 'Z') {
          assert tail[m] == s[|s| - |tail| + m];
        }
      }
    }
    forall k | 0 < k < |head + rest|
      ensures (head + rest)[k] == '_' || (head + rest)[k] in s
    {
      assert (head + rest)[k] == rest[k - 1];
      if rest[k - 1] in tail {
        var m :| 0 <= m < |tail| && tail[m] == rest[k - 1];
        assert tail[m] == s[|s| - |tail| + m];
      }
    }
  }

  /** The replacement leaves a string alone exactly when it is made of name characters only. */
  lemma {:induction false} ReplaceRunsIdentity(s: string)
    ensures ReplaceRuns(s) == s <==> forall k :: 0 <= k < |s| ==> IsNameChar(s[k])
    decreases |s|
  {
    if s != [] {
      ReplaceRunsIdentity(s[1..]);
      if forall k :: 0 <= k < |s| ==> IsNameChar(s[k]) {
        assert forall k :: 0 <= k < |s[1..]| ==> IsNameChar(s[1..][k]) by {
          forall k | 0 <= k < |s[1..]| ensures IsNameChar(s[1..][k]) {
            assert s[1..][k] == s[k + 1];
          }
        }
      }
    }
  }

  /** A character alone is kept if it is a name character and becomes one '_' otherwise. */
  lemma ReplaceRunsSingle(c: char)
    ensures ReplaceRuns([c]) == if IsNameChar(c) then [c] else "_"
  {
    assert [c][1..] == [];
    if !IsNameChar(c) {
      assert DropRun([c]) == DropRun([]);
    }
  }

  /** A whole run of characters outside the class, however long, becomes a single '_'. */
  lemma ReplaceRunsRun(s: string)
    requires s != [] && forall k :: 0 <= k < |s| ==> !IsNameChar(s[k])
    ensures ReplaceRuns(s) == "_"
  {
  }

  /** A leading name character is copied through. */
  lemma ReplaceRunsKeep(s: string)
    requires s != [] && IsNameChar(s[0])
    ensures ReplaceRuns(s) == [s[0]] + ReplaceRuns(s[1..])
  {
  }

  /** A leading run of other characters becomes one '_', and the replacement goes on after it. */
  lemma ReplaceRunsSkip(s: string)
    requires s != [] && !IsNameChar(s[0])
    ensures ReplaceRuns(s) == "_" + ReplaceRuns(DropRun(s))
  {
  }

  /** Cutting a string where a name character borders the cut does not cut through a run. */
  lemma {:induction false} DropRunConcat(a: string, b: string)
    requires b == [] || IsNameChar(b[0]) || (a != [] && IsNameChar(a[|a| - 1]))
    ensures DropRun(a + b) == DropRun(a) + b
    decreases |a|
  {
    if a != [] && !IsNameChar(a[0]) {
      assert (a + b)[1..] == a[1..] + b;
      DropRunConcat(a[1..], b);
    }
  }

  /**
   * Replacing runs is done piece by piece: a string may be cut anywhere a name character borders
   * the cut, so that no run is split.
   */
  lemma {:induction false} ReplaceRunsConcat(a: string, b: string)
    requires a == [] || b == [] || IsNameChar(a[|a| - 1]) || IsNameChar(b[0])
    ensures ReplaceRuns(a + b) == ReplaceRuns(a) + ReplaceRuns(b)
    decreases |a|, 1
  {
    if a == [] {
      assert a + b == b;
    } else if b == [] {
      assert a + b == a;
    } else if IsNameChar(a[0]) {
      ReplaceRunsConcatKeep(a, b);
    } else {
      ReplaceRunsConcatSkip(a, b);
    }
  }

  /** The case of `ReplaceRunsConcat` where the first piece starts with a name character. */
  lemma {:induction false} ReplaceRunsConcatKeep(a: string, b: string)
    requires a != [] && IsNameChar(a[0])
    requires b == [] || IsNameChar(a[|a| - 1]) || IsNameChar(b[0])
    ensures ReplaceRuns(a + b) == ReplaceRuns(a) + ReplaceRuns(b)
    decreases |a|, 0
  {
    var ab := a + b;
    assert ab[0] == a[0] && ab[1..] == a[1..] + b;
    ReplaceRunsKeep(ab);
    ReplaceRunsKeep(a);
    ReplaceRunsConcat(a[1..], b);
    var ra, rb := ReplaceRuns(a[1..]), ReplaceRuns(b);
    calc {
      ReplaceRuns(ab);
      [a[0]] + ReplaceRuns(a[1..] + b);
      [a[0]] + (ra + rb);
      { ConcatAssoc([a[0]], ra, rb); }
      ([a[0]] + ra) + rb;
    }
  }

  /** The case of `ReplaceRunsConcat` where the first piece starts with a run of other characters. */
  lemma {:induction false} ReplaceRunsConcatSkip(a: string, b: string)
    requires a != [] && !IsNameChar(a[0])
    requires b == [] || IsNameChar(a[|a| - 1]) || IsNameChar(b[0])
    ensures ReplaceRuns(a + b) == ReplaceRuns(a) + ReplaceRuns(b)
    decreases |a|, 0
  {
    var ab := a + b;
    assert ab[0] == a[0];
    DropRunConcat(a, b);
    var tail := DropRun(a);
    ReplaceRunsSkip(ab);
    ReplaceRunsSkip(a);
    if tail != [] {
      assert tail[|tail| - 1] == a[|a| - 1];
    }
    ReplaceRunsConcat(tail, b);
    var rt, rb := ReplaceRuns(tail), ReplaceRuns(b);
    calc {
      ReplaceRuns(ab);
      "_" + ReplaceRuns(tail + b);
      "_" + (rt + rb);
      { ConcatAssoc("_", rt, rb); }
      ("_" + rt) + rb;
    }
  }

  lemma ConcatAssoc(x: string, y: string, z: string)
    ensures x + (y + z) == (x + y) + z
  {
  }

  function StripScheme(name: string): (r: string)
    ensures StartsWith(name, "https://") ==> r == name[8..]
    ensures !StartsWith(name, "https://") && StartsWith(name, "http://") ==> r == name[7..]
    ensures !StartsWith(name, "https://") && !StartsWith(name, "http://") ==> r == name
    ensures |r| <= |name|
    ensures NoCapitals(name) ==> NoCapitals(r)
  {
    if StartsWith(name, "https://") then name[8..]
    else if StartsWith(name, "http://") then name[7..]
    else name
  }

  function StripTrailingSlash(name: string): (r: string)
    ensures EndsWith(name, "/") ==> r == name[..|name| - 1]
    ensures !EndsWith(name, "/") ==> r == name
    ensures |r| <= |name|
    ensures NoCapitals(name) ==> NoCapitals(r)
  {
    if EndsWith(name, "/") then name[..|name| - 1] else name
  }

  /**
   * `urlToDocumentName(url)`: trimmed and lower-cased, one leading "https://" (or else "http://") and
   * one trailing '/' removed, then every run of characters outside `[_\-\w\s]` replaced by '_'.
   */
  function UrlToDocumentName(url: string): (name: string)
    ensures forall k :: 0 <= k < |name| ==> IsNameChar(name[k])
    ensures NoCapitals(name)
    ensures |name| <= |url|
  {
    var lowered := ToLowerCase(Trim(url));
    var stripped := StripTrailingSlash(StripScheme(lowered));
    ReplaceRunsChars(stripped);
    ReplaceRuns(stripped)
  }
}
