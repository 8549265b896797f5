/**
 * The generic string and collection helpers of util/Util.java: normalisation (trim and lower-case),
 * shortening for display, fixed-width padding, the time unit chosen for a duration, and the stream-
 * and loop-based list helpers. A Java `null` string is `None`.
 */
module Util {
  import opened Outcomes
  import opened JavaStrings

  // ---------------------------------------------------------------------------------------------
  // Collections

  /** `map(list, function)`: the list of the images, in order. */
  function Map<T, R>(xs: seq<T>, f: T -> R): (r: seq<R>)
    ensures |r| == |xs|
    ensures forall i :: 0 <= i < |xs| ==> r[i] == f(xs[i])
  {
    seq(|xs|, i requires 0 <= i < |xs| => f(xs[i]))
  }

  /** `filter(list, function)`: the elements that pass, in their original order. */
  function Filter<T>(xs: seq<T>, p: T -> bool): (r: seq<T>)
    ensures |r| <= |xs|
    ensures forall i :: 0 <= i < |r| ==> r[i] in xs && p(r[i])
    ensures forall i :: 0 <= i < |xs| && p(xs[i]) ==> xs[i] in r
    decreases |xs|
  {
    if xs == [] then [] else (if p(xs[0]) then [xs[0]] else []) + Filter(xs[1..], p)
  }

  /** Concatenation is associative. */
  lemma ConcatAssociative<T>(x: seq<T>, y: seq<T>, z: seq<T>)
    ensures (x + y) + z == x + (y + z)
  {
  }

  /** Filtering a concatenation filters each part: the kept elements keep their relative order. */
  lemma {:induction false} FilterConcat<T>(xs: seq<T>, ys: seq<T>, p: T -> bool)
    ensures Filter(xs + ys, p) == Filter(xs, p) + Filter(ys, p)
    decreases |xs|
  {
    if xs == [] {
      assert xs + ys == ys;
    } else {
      var head := if p(xs[0]) then [xs[0]] else [];
      assert (xs + ys)[0] == xs[0];
      assert (xs + ys)[1..] == xs[1..] + ys;
      FilterConcat(xs[1..], ys, p);
      calc {
        Filter(xs + ys, p);
        head + Filter(xs[1..] + ys, p);
        head + (Filter(xs[1..], p) + Filter(ys, p));
        (head + Filter(xs[1..], p)) + Filter(ys, p);
      }
    }
  }

  /** One more element at the front is kept exactly when it passes. */
  lemma FilterConsCount<T>(x: T, xs: seq<T>, p: T -> bool)
    ensures |Filter([x] + xs, p)| == (if p(x) then 1 else 0) + |Filter(xs, p)|
  {
    assert ([x] + xs)[1..] == xs;
  }

  /** Filtering a list without repetitions gives a list without repetitions. */
  lemma {:induction false} FilterDistinct<T>(xs: seq<T>, p: T -> bool)
    requires forall i, j :: 0 <= i < j < |xs| ==> xs[i] != xs[j]
    ensures forall i, j :: 0 <= i < j < |Filter(xs, p)| ==> Filter(xs, p)[i] != Filter(xs, p)[j]
    decreases |xs|
  {
    if xs != [] {
      var tail := xs[1..];
      assert forall i, j :: 0 <= i < j < |tail| ==> tail[i] != tail[j] by {
        forall i, j | 0 <= i < j < |tail| ensures tail[i] != tail[j] {
          assert tail[i] == xs[i + 1] && tail[j] == xs[j + 1];
        }
      }
      FilterDistinct(tail, p);
      var rest := Filter(tail, p);
      assert xs[0] !in tail by {
        forall k | 0 <= k < |tail| ensures tail[k] != xs[0] {
          assert tail[k] == xs[k + 1];
        }
      }
      var head := if p(xs[0]) then [xs[0]] else [];
      assert Filter(xs, p) == head + rest;
      forall i, j | 0 <= i < j < |head + rest| ensures (head + rest)[i] != (head + rest)[j] {
        if i < |head| {
          assert (head + rest)[i] == xs[0] && (head + rest)[j] == rest[j - |head|];
        } else {
          assert (head + rest)[i] == rest[i - |head|] && (head + rest)[j] == rest[j - |head|];
        }
      }
    }
  }

  /** A list whose every element passes is its own filtering. */
  lemma {:induction false} FilterAllPass<T>(xs: seq<T>, p: T -> bool)
    requires forall k :: 0 <= k < |xs| ==> p(xs[k])
    ensures Filter(xs, p) == xs
    decreases |xs|
  {
    if xs != [] {
      assert p(xs[0]);
      FilterAllPass(xs[1..], p);
    }
  }

  /** What a filtering keeps: elements of the list that pass, and the whole list when all pass. */
  lemma FilterKept<T>(xs: seq<T>, p: T -> bool, r: seq<T>)
    requires r == Filter(xs, p)
    ensures (forall k :: 0 <= k < |xs| ==> p(xs[k])) ==> r == xs
    ensures forall k :: 0 <= k < |r| ==> r[k] in xs && p(r[k])
  {
    if forall k :: 0 <= k < |xs| ==> p(xs[k]) {
      FilterAllPass(xs, p);
    }
  }

  /** Filtering one more element of a list, taken from the front of the list. */
  lemma FilterPrefixStep<T>(xs: seq<T>, i: nat, p: T -> bool)
    requires i < |xs|
    ensures Filter(xs[..i + 1], p) == Filter(xs[..i], p) + (if p(xs[i]) then [xs[i]] else [])
  {
    assert xs[..i + 1] == xs[..i] + [xs[i]];
    FilterAppend(xs[..i], xs[i], p);
  }

  /** Filtering a list with one more element at the back. */
  lemma FilterAppend<T>(xs: seq<T>, x: T, p: T -> bool)
    ensures Filter(xs + [x], p) == Filter(xs, p) + (if p(x) then [x] else [])
  {
    FilterConcat(xs, [x], p);
    assert Filter([x], p) == (if p(x) then [x] else []) + Filter([x][1..], p);
  }

  /** One more element at the back is kept exactly when it passes. */
  lemma FilterAppendCount<T>(xs: seq<T>, x: T, p: T -> bool)
    ensures |Filter(xs + [x], p)| == |Filter(xs, p)| + (if p(x) then 1 else 0)
  {
    FilterConcat(xs, [x], p);
    assert Filter([x], p) == (if p(x) then [x] else []) + Filter([x][1..], p);
  }

  /** Every occurrence of a passing element is kept and every failing one dropped. */
  lemma {:induction false} FilterCounts<T>(xs: seq<T>, p: T -> bool, x: T)
    ensures multiset(Filter(xs, p))[x] == if p(x) then multiset(xs)[x] else 0
    decreases |xs|
  {
    if xs != [] {
      FilterCounts(xs[1..], p, x);
      assert xs == [xs[0]] + xs[1..];
      var head := if p(xs[0]) then [xs[0]] else [];
      assert multiset(Filter(xs, p)) == multiset(head) + multiset(Filter(xs[1..], p));
    }
  }

  /** `map(set, function)`: the image of the set, skipping null elements (none here). */
  function MapSet<T, R>(s: set<T>, f: T -> R): (r: set<R>)
    ensures forall x :: x in s ==> f(x) in r
    ensures forall y :: y in r ==> exists x :: x in s && f(x) == y
  {
    set x | x in s :: f(x)
  }

  /** The image of a set is never larger than the set. */
  lemma {:induction false} MapSetSize<T, R>(s: set<T>, f: T -> R)
    ensures |MapSet(s, f)| <= |s|
    decreases |s|
  {
    if s != {} {
      var x :| x in s;
      var rest := s - {x};
      MapSetSize(rest, f);
      assert MapSet(s, f) == MapSet(rest, f) + {f(x)};
    }
  }

  /** Two elements with one image make the image smaller than the set. */
  lemma MapSetCollision<T, R>(s: set<T>, f: T -> R, x1: T, x2: T)
    requires x1 in s && x2 in s && x1 != x2 && f(x1) == f(x2)
    ensures |MapSet(s, f)| < |s|
  {
    var rest := s - {x1};
    forall y | y in MapSet(s, f) ensures y in MapSet(rest, f) {
      var x :| x in s && f(x) == y;
      if x == x1 {
        assert x2 in rest;
      } else {
        assert x in rest;
      }
    }
    assert MapSet(s, f) == MapSet(rest, f);
    MapSetSize(rest, f);
  }

  /**
   * `zipWith(list1, list2, function)`; the source asserts that the lists are equally long, so the
   * model demands it of its callers.
   */
  method ZipWith<L1, L2, R>(list1: seq<L1>, list2: seq<L2>, f: (L1, L2) -> R) returns (result: seq<R>)
    requires |list1| == |list2|
    ensures |result| == |list1|
    ensures forall i :: 0 <= i < |result| ==> result[i] == f(list1[i], list2[i])
  {
    result := [];
    var i := 0;
    while i < |list1|
      invariant 0 <= i <= |list1|
      invariant |result| == i
      invariant forall k :: 0 <= k < i ==> result[k] == f(list1[k], list2[k])
    {
      result := result + [f(list1[i], list2[i])];
      i := i + 1;
    }
  }

  /** The lines of a line-by-line listing: each element indented by two spaces and ended by a newline. */
  function Lines(items: seq<string>): string
  {
    if items == [] then "" else "  " + items[0] + "\n" + Lines(items[1..])
  }

  /** Appending an element appends its line. */
  lemma {:induction false} LinesAppend(items: seq<string>, item: string)
    ensures Lines(items + [item]) == Lines(items) + "  " + item + "\n"
    decreases |items|
  {
    if items != [] {
      assert (items + [item])[1..] == items[1..] + [item];
      LinesAppend(items[1..], item);
    }
  }

  /** `listToStringLineByLine(list)`; `show` stands for each element's `toString()`. */
  method ListToStringLineByLine<T>(list: seq<T>, show: T -> string) returns (result: string)
    ensures result == "[\n" + Lines(Map(list, show)) + "]"
  {
    result := "[\n";
    var i := 0;
    while i < |list|
      invariant 0 <= i <= |list|
      invariant result == "[\n" + Lines(Map(list[..i], show))
    {
      assert Map(list[..i + 1], show) == Map(list[..i], show) + [show(list[i])];
      LinesAppend(Map(list[..i], show), show(list[i]));
      result := result + "  " + show(list[i]) + "\n";
      i := i + 1;
    }
    assert list[..i] == list;
    result := result + "]";
  }

  // ---------------------------------------------------------------------------------------------
  // Normalisation

  /** `normalize(string)` on a non-null string: trimmed, then lower-cased. */
  function NormalizeText(s: string): (r: string)
    ensures |r| <= |s|
    ensures r == [] || (!IsTrimmed(r[0]) && !IsTrimmed(r[|r| - 1]))
    ensures forall k :: 0 <= k < |r| ==> !('A' <= r[k] <= 'Z')
  {
    ToLowerCase(Trim(s))
  }

  /** `normalize(string)`: null stays null. */
  function Normalize(s: Option<string>): (r: Option<string>)
    ensures r.None? <==> s.None?
  {
    match s
    case None => None
    case Some(t) => Some(NormalizeText(t))
  }

  lemma NormalizeTextIdempotent(s: string)
    ensures NormalizeText(NormalizeText(s)) == NormalizeText(s)
  {
    var n := NormalizeText(s);
    TrimKeepsUntrimmedEnds(n);
    assert Trim(n) == n;
    LowerCaseIdempotent(Trim(s));
  }

  /** Normalising twice is normalising once. */
  lemma NormalizeIdempotent(s: Option<string>)
    ensures Normalize(Normalize(s)) == Normalize(s)
  {
    if s.Some? {
      NormalizeTextIdempotent(s.value);
    }
  }

  /** `isNormalized(string)`. */
  predicate IsNormalized(s: Option<string>)
    ensures s.None? ==> IsNormalized(s)
  {
    s == Normalize(s)
  }

  /** What `normalize` produces is normalized. */
  lemma NormalizeIsNormalized(s: Option<string>)
    ensures IsNormalized(Normalize(s))
  {
    NormalizeIdempotent(s);
  }

  /** A non-null string is normalized exactly when it has no ASCII capital and no trimmable end. */
  lemma IsNormalizedCharacterised(t: string)
    ensures IsNormalized(Some(t)) <==>
      ((t == [] || (!IsTrimmed(t[0]) && !IsTrimmed(t[|t| - 1]))) &&
       forall k :: 0 <= k < |t| ==> !('A' <= t[k] <= 'Z'))
  {
    if (t == [] || (!IsTrimmed(t[0]) && !IsTrimmed(t[|t| - 1]))) &&
       forall k :: 0 <= k < |t| ==> !('A' <= t[k] <= 'Z') {
      TrimKeepsUntrimmedEnds(t);
      LowerCaseKeepsLower(t);
    }
  }

  /** `equalsNormalized(string1, string2)`. */
  predicate EqualsNormalized(s1: Option<string>, s2: Option<string>)
    ensures s1 == s2 ==> EqualsNormalized(s1, s2)
    ensures EqualsNormalized(s1, s2) ==> (s1.None? <==> s2.None?)
  {
    Normalize(s1) == Normalize(s2)
  }

  /** A string equals its own normal form up to normalisation. */
  lemma EqualsOwnNormalForm(s: Option<string>)
    ensures EqualsNormalized(s, Normalize(s))
  {
    NormalizeIdempotent(s);
  }

  /** `containsNormalized(string, query)` on non-null arguments. */
  predicate ContainsNormalized(s: string, query: string)
    ensures NormalizeText(query) == [] ==> ContainsNormalized(s, query)
  {
    Contains(NormalizeText(s), NormalizeText(query))
  }

  /** Strings equal up to normalisation contain each other up to normalisation. */
  lemma EqualsImpliesContains(s: string, query: string)
    requires EqualsNormalized(Some(s), Some(query))
    ensures ContainsNormalized(s, query)
  {
    var n := NormalizeText(s);
    assert n[0..|n|] == n;
    ContainsAt(n, NormalizeText(query), 0);
  }

  /** `normalize(String[])`: every element replaced by its normal form; a null array is left alone. */
  method NormalizeArray(strings: array?<Option<string>>)
    modifies strings
    ensures strings != null ==> strings[..] == Map(old(strings[..]), Normalize)
  {
    if strings != null {
      ghost var before := strings[..];
      var i := 0;
      while i < strings.Length
        invariant 0 <= i <= strings.Length
        invariant forall k :: 0 <= k < i ==> strings[k] == Normalize(before[k])
        invariant forall k :: i <= k < strings.Length ==> strings[k] == before[k]
      {
        strings[i] := Normalize(strings[i]);
        i := i + 1;
      }
      assert strings[..] == Map(before, Normalize);
    }
  }

  /** `normalize(List<String>)`, each `set(i, …)` an update of the list value; None is a null list. */
  method NormalizeList(strings: Option<seq<Option<string>>>) returns (result: Option<seq<Option<string>>>)
    ensures result.None? <==> strings.None?
    ensures strings.Some? ==> result.value == Map(strings.value, Normalize)
  {
    if strings.None? {
      return None;
    }
    var input := strings.value;
    var list := input;
    var i := 0;
    while i < |list|
      invariant 0 <= i <= |list| && |list| == |input|
      invariant forall k :: 0 <= k < i ==> list[k] == Normalize(input[k])
      invariant forall k :: i <= k < |list| ==> list[k] == input[k]
    {
      list := list[i := Normalize(list[i])];
      i := i + 1;
    }
    assert list == Map(input, Normalize);
    result := Some(list);
  }

  // ---------------------------------------------------------------------------------------------
  // Shortening and padding

  function Min(a: int, b: int): int {
    if a <= b then a else b
  }

  /**
   * `shortenString(string, desiredLength)`. Short strings are cut; from nine characters on, a head and
   * a tail of `(desiredLength - 2) / 2` characters each are joined by "..". A negative cut raises
   * StringIndexOutOfBoundsException.
   */
  function ShortenString(s: string, desiredLength: int): (r: Result<string>)
    ensures |s| <= desiredLength ==> r == Success(s)
    ensures r.Failure? <==> |s| > desiredLength && (desiredLength < 0 || (|s| >= 9 && desiredLength == 0))
    ensures r.Failure? ==> r.error == IndexOutOfBounds
    ensures desiredLength >= 2 ==> r.Success? && |r.value| <= desiredLength
    ensures |s| > desiredLength >= 2 && |s| >= 9 ==>
      var p := (desiredLength - 2) / 2;
      r.value == s[..p] + ".." + s[|s| - p..]
    ensures |s| > desiredLength >= 0 && |s| < 9 ==> r.value == s[..desiredLength]
    ensures |s| >= 9 && desiredLength == 1 ==> r == Success("..")
  {
    var length := |s|;
    if length <= desiredLength then Success(s)
    else if length < 9 then
      var end := Min(length, desiredLength);
      if end < 0 then Failure(IndexOutOfBounds) else Success(s[..end])
    else
      var partLength := JavaHalf(desiredLength - 2);
      assert desiredLength == 1 ==> partLength == 0 && s[..0] + ".." + s[length..] == "..";
      if partLength < 0 then Failure(IndexOutOfBounds)
      else Success(s[..partLength] + ".." + s[length - partLength..])
  }

  /** The prefix `shortenUrlString` drops: the first of five that matches, and only that one. */
  function StripUrlPrefix(url: string): (r: string)
    ensures |r| <= |url| && r == url[|url| - |r|..]
    ensures StartsWith(url, "https://www.") ==> r == url[12..]
    ensures !StartsWith(url, "https://www.") && StartsWith(url, "http://www.") ==> r == url[11..]
    ensures (!StartsWith(url, "https://www.") && !StartsWith(url, "http://www.") &&
             StartsWith(url, "https://")) ==> r == url[8..]
    ensures (!StartsWith(url, "http://www.") && !StartsWith(url, "https://") &&
             StartsWith(url, "http://")) ==> r == url[7..]
    ensures (!StartsWith(url, "http://www.") && !StartsWith(url, "https://") && !StartsWith(url, "http://") &&
             StartsWith(url, "www.")) ==> r == url[4..]
    ensures (!StartsWith(url, "http://www.") && !StartsWith(url, "https://") && !StartsWith(url, "http://") &&
             !StartsWith(url, "www.")) ==> r == url
  {
    if StartsWith(url, "https://www.") then url[12..]
    else if StartsWith(url, "http://www.") then url[11..]
    else if StartsWith(url, "https://") then url[8..]
    else if StartsWith(url, "http://") then url[7..]
    else if StartsWith(url, "www.") then url[4..]
    else url
  }

  /**
   * At most one prefix goes: whatever follows "https://www." (or "http://www.") is kept as it is,
   * even when it starts with one of the five prefixes itself.
   */
  lemma StripUrlPrefixOnce(rest: string)
    ensures StripUrlPrefix("https://www." + rest) == rest
    ensures StripUrlPrefix("http://www." + rest) == rest
  {
    var a, b := "https://www." + rest, "http://www." + rest;
    assert a[..12] == "https://www." && a[12..] == rest;
    assert b[..11] == "http://www." && b[11..] == rest && b[4] == ':';
  }

  /** `shortenUrlString(urlString, desiredLength)`. */
  function ShortenUrlString(url: string, desiredLength: int): (r: Result<string>)
    ensures desiredLength >= 2 ==> r.Success? && |r.value| <= desiredLength
    ensures |StripUrlPrefix(url)| <= desiredLength ==> r == Success(StripUrlPrefix(url))
    ensures var t := StripUrlPrefix(url);
      r.Failure? <==> |t| > desiredLength && (desiredLength < 0 || (|t| >= 9 && desiredLength == 0))
    ensures r.Failure? ==> r.error == IndexOutOfBounds
    ensures var t := StripUrlPrefix(url);
      |t| > desiredLength >= 2 && |t| >= 9 ==>
        var p := (desiredLength - 2) / 2;
        r.value == t[..p] + ".." + t[|t| - p..]
    ensures var t := StripUrlPrefix(url);
      |t| > desiredLength >= 0 && |t| < 9 ==> r.value == t[..desiredLength]
    ensures |StripUrlPrefix(url)| >= 9 && desiredLength == 1 ==> r == Success("..")
  {
    ShortenString(StripUrlPrefix(url), desiredLength)
  }

  function Spaces(n: nat): (r: string)
    ensures |r| == n && forall k :: 0 <= k < n ==> r[k] == ' '
  {
    seq(n, k => ' ')
  }

  /**
   * `toWidth(string, width)`: `"" + string` (null prints as "null"), padded with spaces to `width`
   * and cut to `width`; a negative width raises StringIndexOutOfBoundsException from substring.
   */
  function ToWidth(s: Option<string>, width: int): (r: Result<string>)
    ensures r.Success? <==> width >= 0
    ensures r.Failure? ==> r.error == IndexOutOfBounds
    ensures r.Success? ==> |r.value| == width
    ensures r.Success? ==> var text := if s.None? then "null" else s.value;
      forall k :: 0 <= k < width ==> r.value[k] == if k < |text| then text[k] else ' '
  {
    var text := if s.None? then "null" else s.value;
    var padded := if |text| >= width then text else text + Spaces(width - |text|);
    if width < 0 then Failure(IndexOutOfBounds) else Success(padded[..width])
  }

  // ---------------------------------------------------------------------------------------------
  // Time units

  datatype TimeUnit = Nanoseconds | Microseconds | Milliseconds | Seconds | Minutes | Hours | Days

  /** How many nanoseconds one unit holds (java.util.concurrent.TimeUnit). */
  function NanosIn(u: TimeUnit): (n: nat)
    ensures n >= 1
  {
    match u
    case Nanoseconds => 1
    case Microseconds => 1000
    case Milliseconds => 1000000
    case Seconds => 1000000000
    case Minutes => 60000000000
    case Hours => 3600000000000
    case Days => 86400000000000
  }

  /** `unit.convert(nanos, NANOSECONDS)`: whole units in a duration, truncated toward zero. */
  function WholeUnits(nanos: int, u: TimeUnit): int
  {
    if nanos >= 0 then nanos / NanosIn(u) else -((-nanos) / NanosIn(u))
  }

  /** A duration holds a positive number of whole units exactly when it is at least one unit long. */
  lemma WholeUnitsPositive(nanos: int, u: TimeUnit)
    ensures WholeUnits(nanos, u) > 0 <==> nanos >= NanosIn(u)
  {
    var n := NanosIn(u);
    if nanos >= n {
      assert nanos / n >= n / n;
    } else if nanos >= 0 {
      assert nanos / n == 0;
    }
  }

  /** `chooseUnit(nanos)`: the largest unit with at least one whole unit in the duration. */
  function ChooseUnit(nanos: int): (r: TimeUnit)
    ensures r == Nanoseconds || NanosIn(r) <= nanos
    ensures forall u :: NanosIn(u) > NanosIn(r) ==> nanos < NanosIn(u)
    ensures nanos < 1000 ==> r == Nanoseconds
  {
    WholeUnitsPositive(nanos, Days);
    WholeUnitsPositive(nanos, Hours);
    WholeUnitsPositive(nanos, Minutes);
    WholeUnitsPositive(nanos, Seconds);
    WholeUnitsPositive(nanos, Milliseconds);
    WholeUnitsPositive(nanos, Microseconds);
    if WholeUnits(nanos, Days) > 0 then Days
    else if WholeUnits(nanos, Hours) > 0 then Hours
    else if WholeUnits(nanos, Minutes) > 0 then Minutes
    else if WholeUnits(nanos, Seconds) > 0 then Seconds
    else if WholeUnits(nanos, Milliseconds) > 0 then Milliseconds
    else if WholeUnits(nanos, Microseconds) > 0 then Microseconds
    else Nanoseconds
  }

  /** `abbreviate(unit)`: the unit's symbol; the source's `default` arm cannot be reached. */
  function Abbreviate(u: TimeUnit): (r: string)
    ensures r != []
  {
    match u
    case Nanoseconds => "ns"
    case Microseconds => "\U{03BC}s"
    case Milliseconds => "ms"
    case Seconds => "s"
    case Minutes => "min"
    case Hours => "h"
    case Days => "d"
  }

  /** No two units share a symbol. */
  lemma AbbreviateInjective(u: TimeUnit, v: TimeUnit)
    ensures Abbreviate(u) == Abbreviate(v) ==> u == v
  {
  }
}
