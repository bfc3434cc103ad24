/**
  The string builtins the search engine relies on, restricted to ASCII:
  `str.lower()`, `str.upper()`, `str.strip()`, the `in` test for a
  substring and `str.split(sep)` with an explicit separator.
  Whitespace is the set `str.isspace()` accepts among ASCII characters; the
  same set is matched by the regular-expression class `\s`, skipped by
  `str.split()` and trimmed by `str.strip()`.
*/
module Text {
  import opened Wrappers

  predicate IsSpace(c: char) {
    c == ' ' || '\t' <= c <= '\r' || '\U{1C}' <= c <= '\U{1F}'
  }

  predicate IsUpper(c: char) { 'A' <= c <= 'Z' }

  predicate IsLower(c: char) { 'a' <= c <= 'z' }

  predicate AllSpace(s: string) {
    forall i :: 0 <= i < |s| ==> IsSpace(s[i])
  }

  predicate NoLower(s: string) {
    forall i :: 0 <= i < |s| ==> !IsLower(s[i])
  }

  predicate NoUpper(s: string) {
    forall i :: 0 <= i < |s| ==> !IsUpper(s[i])
  }

  predicate NoSpace(s: string) {
    forall i :: 0 <= i < |s| ==> !IsSpace(s[i])
  }

  /** ASCII case mapping of one character; every other character is left alone. */
  function ToLower(c: char): (r: char)
    ensures !IsUpper(r)
    ensures IsLower(r) <==> IsLower(c) || IsUpper(c)
    ensures IsSpace(r) <==> IsSpace(c)
    ensures !IsUpper(c) ==> r == c
    ensures IsUpper(c) ==> r as int - 'a' as int == c as int - 'A' as int
  {
    if IsUpper(c) then (c as int + 32) as char else c
  }

  function ToUpper(c: char): (r: char)
    ensures !IsLower(r)
    ensures IsUpper(r) <==> IsLower(c) || IsUpper(c)
    ensures IsSpace(r) <==> IsSpace(c)
    ensures !IsLower(c) ==> r == c
    ensures IsLower(c) ==> r as int - 'A' as int == c as int - 'a' as int
  {
    if IsLower(c) then (c as int - 32) as char else c
  }

  lemma CaseRoundTrip(c: char)
    ensures ToLower(ToUpper(c)) == ToLower(c)
    ensures ToUpper(ToLower(c)) == ToUpper(c)
  {
  }

  /** `str.lower()` */
  function Lower(s: string): (r: string)
    ensures |r| == |s|
    ensures forall i :: 0 <= i < |s| ==> r[i] == ToLower(s[i])
  {
    if s == [] then [] else [ToLower(s[0])] + Lower(s[1..])
  }

  /** `str.upper()` */
  function Upper(s: string): (r: string)
    ensures |r| == |s|
    ensures forall i :: 0 <= i < |s| ==> r[i] == ToUpper(s[i])
    ensures NoLower(r)
  {
    if s == [] then [] else [ToUpper(s[0])] + Upper(s[1..])
  }

  /** The characters of `s` that satisfy `keep`, in order. */
  function Filter(s: string, keep: char -> bool): (r: string)
    ensures |r| <= |s|
    ensures forall i :: 0 <= i < |r| ==> keep(r[i])
  {
    if s == [] then []
    else (if keep(s[0]) then [s[0]] else []) + Filter(s[1..], keep)
  }

  lemma {:induction false} FilterConcat(a: string, b: string, keep: char -> bool)
    ensures Filter(a + b, keep) == Filter(a, keep) + Filter(b, keep)
  {
    if a != [] {
      assert (a + b)[0] == a[0] && (a + b)[1..] == a[1..] + b;
      FilterConcat(a[1..], b, keep);
    } else {
      assert a + b == b;
    }
  }

  /** A character that fails the test is deleted. */
  lemma FilterDrops(c: char, keep: char -> bool)
    requires !keep(c)
    ensures Filter([c], keep) == []
  {
  }

  /** A filter that keeps every character of `s` returns `s`. */
  lemma {:induction false} FilterKeepsAll(s: string, keep: char -> bool)
    requires forall i :: 0 <= i < |s| ==> keep(s[i])
    ensures Filter(s, keep) == s
  {
    if s != [] {
      FilterKeepsAll(s[1..], keep);
      assert s == [s[0]] + s[1..];
    }
  }

  /** Two filters that agree on the characters of `s` give the same result. */
  lemma {:induction false} FilterAgree(s: string, keep: char -> bool, keep': char -> bool)
    requires forall i :: 0 <= i < |s| ==> keep(s[i]) == keep'(s[i])
    ensures Filter(s, keep) == Filter(s, keep')
  {
    if s != [] {
      FilterAgree(s[1..], keep, keep');
    }
  }

  lemma LowerConcat(a: string, b: string)
    ensures Lower(a + b) == Lower(a) + Lower(b)
  {
  }

  lemma UpperConcat(a: string, b: string)
    ensures Upper(a + b) == Upper(a) + Upper(b)
  {
  }

  /** Number of whitespace characters at the front of `s`. */
  function LeadingSpaces(s: string): (k: nat)
    ensures k <= |s| && AllSpace(s[..k])
    ensures k < |s| ==> !IsSpace(s[k])
  {
    if s == [] || !IsSpace(s[0]) then 0 else 1 + LeadingSpaces(s[1..])
  }

  /** Number of whitespace characters at the back of `s`. */
  function TrailingSpaces(s: string): (k: nat)
    ensures k <= |s| && AllSpace(s[|s| - k..])
    ensures k < |s| ==> !IsSpace(s[|s| - 1 - k])
  {
    if s == [] || !IsSpace(s[|s| - 1]) then 0 else 1 + TrailingSpaces(s[..|s| - 1])
  }

  /** `str.strip()`: `s` without its leading and trailing whitespace. */
  function Strip(s: string): (r: string)
    ensures |r| <= |s|
    ensures r == [] || (!IsSpace(r[0]) && !IsSpace(r[|r| - 1]))
  {
    var i := LeadingSpaces(s);
    s[i..|s| - TrailingSpaces(s[i..])]
  }

  /** A string is the concatenation of its three slices around `i` and `j`. */
  lemma ThreeSlices(s: string, i: nat, j: nat)
    requires i <= j <= |s|
    ensures s == s[..i] + s[i..j] + s[j..]
  {
    assert s[..j] == s[..i] + s[i..j];
  }

  /** A string that neither starts nor ends with whitespace is its own
      stripped form. */
  lemma StripUnpadded(s: string)
    requires s == [] || (!IsSpace(s[0]) && !IsSpace(s[|s| - 1]))
    ensures Strip(s) == s
  {
    var i, j := StripBounds(s);
  }

  /** Two strings with whitespace at the same positions have the same
      leading and trailing whitespace. */
  lemma SameSpaces(s: string, t: string)
    requires |s| == |t| && forall i :: 0 <= i < |s| ==> IsSpace(s[i]) == IsSpace(t[i])
    ensures LeadingSpaces(s) == LeadingSpaces(t) && TrailingSpaces(s) == TrailingSpaces(t)
  {
    SameLeadingSpaces(s, t);
    SameTrailingSpaces(s, t);
  }

  lemma {:induction false} SameLeadingSpaces(s: string, t: string)
    requires |s| == |t| && forall i :: 0 <= i < |s| ==> IsSpace(s[i]) == IsSpace(t[i])
    ensures LeadingSpaces(s) == LeadingSpaces(t)
  {
    if s != [] && IsSpace(s[0]) {
      SameLeadingSpaces(s[1..], t[1..]);
    }
  }

  lemma {:induction false} SameTrailingSpaces(s: string, t: string)
    requires |s| == |t| && forall i :: 0 <= i < |s| ==> IsSpace(s[i]) == IsSpace(t[i])
    ensures TrailingSpaces(s) == TrailingSpaces(t)
  {
    if s != [] && IsSpace(s[|s| - 1]) {
      SameTrailingSpaces(s[..|s| - 1], t[..|t| - 1]);
    }
  }

  /** Stripping removes whitespace, and only whitespace, from both ends:
      the result is a slice of `s` that neither starts nor ends with
      whitespace, and everything cut off around it is whitespace. */
  lemma StripBounds(s: string) returns (i: nat, j: nat)
    ensures i == LeadingSpaces(s) && j == |s| - TrailingSpaces(s[i..])
    ensures i <= j <= |s| && Strip(s) == s[i..j]
    ensures AllSpace(s[..i]) && AllSpace(s[j..])
    ensures i < j ==> !IsSpace(s[i]) && !IsSpace(s[j - 1])
    ensures i == j ==> AllSpace(s)
  {
    i := LeadingSpaces(s);
    var t := s[i..];
    var k := TrailingSpaces(t);
    j := |s| - k;
    assert s[j..] == t[|t| - k..];
    if i < j {
      assert s[j - 1] == t[|t| - 1 - k];
    } else {
      assert s[..i] == s;
    }
  }

  /** Strings with whitespace at the same positions are stripped at the same
      positions. */
  lemma StripSameSpaces(s: string, t: string) returns (i: nat, j: nat)
    requires |s| == |t| && forall k :: 0 <= k < |s| ==> IsSpace(s[k]) == IsSpace(t[k])
    ensures i <= j <= |s| && Strip(s) == s[i..j] && Strip(t) == t[i..j]
  {
    SameSpaces(s, t);
    i, j := StripBounds(s);
    SameSpaces(s[i..], t[i..]);
    var i', j' := StripBounds(t);
  }

  lemma LowerSlice(s: string, i: nat, j: nat)
    requires i <= j <= |s|
    ensures Lower(s[i..j]) == Lower(s)[i..j]
  {
    var u, v := Lower(s[i..j]), Lower(s)[i..j];
    assert |u| == |v| == j - i;
    forall k | 0 <= k < |u| ensures u[k] == v[k] {
      assert s[i..j][k] == s[i + k];
      assert v[k] == Lower(s)[i + k];
    }
  }

  lemma UpperSlice(s: string, i: nat, j: nat)
    requires i <= j <= |s|
    ensures Upper(s[i..j]) == Upper(s)[i..j]
  {
    var u, v := Upper(s[i..j]), Upper(s)[i..j];
    assert |u| == |v| == j - i;
    forall k | 0 <= k < |u| ensures u[k] == v[k] {
      assert s[i..j][k] == s[i + k];
      assert v[k] == Upper(s)[i + k];
    }
  }

  /** Stripping commutes with lowercasing. */
  lemma StripLower(s: string)
    ensures Strip(Lower(s)) == Lower(Strip(s))
  {
    var i, j := StripSameSpaces(s, Lower(s));
    LowerSlice(s, i, j);
  }

  /** Stripping commutes with uppercasing. */
  lemma StripUpper(s: string)
    ensures Strip(Upper(s)) == Upper(Strip(s))
  {
    var i, j := StripSameSpaces(s, Upper(s));
    UpperSlice(s, i, j);
  }

  /** Uppercasing after lowercasing is uppercasing; uppercasing a string
      that has no lowercase letters changes nothing. */
  lemma UpperAfterLower(s: string)
    ensures Upper(Lower(s)) == Upper(s)
    ensures NoLower(s) ==> Upper(s) == s
    ensures NoLower(Upper(s))
  {
    forall k | 0 <= k < |s| ensures Upper(Lower(s))[k] == Upper(s)[k] {
      CaseRoundTrip(s[k]);
    }
  }

  /** `sep` occurs in `s` starting at index `i`. */
  predicate OccursAt(s: string, sep: string, i: nat) {
    i + |sep| <= |s| && s[i..i + |sep|] == sep
  }

  /** Python's `sep in s`. */
  predicate Contains(s: string, sep: string) {
    exists i: nat :: i <= |s| && OccursAt(s, sep, i)
  }

  /** The first occurrence of `sep` in `s` at or after index `from`. */
  function FindFrom(s: string, sep: string, from: nat): (r: Option<nat>)
    requires from <= |s|
    ensures r.Some? ==> from <= r.value <= |s| && OccursAt(s, sep, r.value)
    ensures r.Some? ==> forall j: nat :: from <= j < r.value ==> !OccursAt(s, sep, j)
    ensures r.None? ==> forall j: nat :: from <= j <= |s| ==> !OccursAt(s, sep, j)
    decreases |s| - from
  {
    if OccursAt(s, sep, from) then Some(from)
    else if from == |s| then None
    else FindFrom(s, sep, from + 1)
  }

  function Find(s: string, sep: string): (r: Option<nat>)
    ensures r.Some? ==> r.value <= |s| && OccursAt(s, sep, r.value)
    ensures r.Some? ==> forall j: nat :: j < r.value ==> !OccursAt(s, sep, j)
    ensures r.None? ==> forall j: nat :: j <= |s| ==> !OccursAt(s, sep, j)
  {
    FindFrom(s, sep, 0)
  }

  /** The search finds something exactly when `sep in s` holds. */
  lemma FindFindsContained(s: string, sep: string)
    ensures Find(s, sep).Some? <==> Contains(s, sep)
  {
  }

  /** A string missing one character of the separator does not contain it. */
  lemma MissingCharacter(s: string, sep: string, k: nat)
    requires k < |sep| && sep[k] !in s
    ensures !Contains(s, sep)
  {
  }

  /** Python's `s.split(sep)` for a non-empty separator: the pieces between
      the non-overlapping occurrences of `sep`, found from left to right. */
  function SplitOn(s: string, sep: string): (parts: seq<string>)
    requires |sep| > 0
    ensures |parts| >= 1
    decreases |s|
  {
    match Find(s, sep)
    case None => [s]
    case Some(k) => [s[..k]] + SplitOn(s[k + |sep|..], sep)
  }

  /** An occurrence in a prefix is an occurrence in the whole string. */
  lemma OccursInPrefix(s: string, k: nat, sep: string, j: nat)
    requires k <= |s|
    ensures OccursAt(s[..k], sep, j) ==> OccursAt(s, sep, j)
  {
    if OccursAt(s[..k], sep, j) {
      assert s[j..j + |sep|] == s[..k][j..j + |sep|];
    }
  }

  /** A string without the separator is one piece. */
  lemma SplitOnAbsent(s: string, sep: string)
    requires |sep| > 0 && !Contains(s, sep)
    ensures SplitOn(s, sep) == [s]
  {
    FindFindsContained(s, sep);
  }

  /** Splitting `a + sep + b` cuts at the separator between `a` and `b`
      when no occurrence can start inside `a` and `b` holds none. */
  lemma SplitOnOnce(a: string, sep: string, b: string)
    requires |sep| > 0 && sep[0] !in a && !Contains(b, sep)
    ensures SplitOn(a + sep + b, sep) == [a, b]
  {
    var s := a + sep + b;
    assert OccursAt(s, sep, |a|) by {
      assert s[|a|..|a| + |sep|] == sep;
    }
    var found := Find(s, sep);
    assert found == Some(|a|) by {
      FindFindsContained(s, sep);
      assert found.Some?;
    }
    assert s[..|a|] == a && s[|a| + |sep|..] == b;
    SplitOnAbsent(b, sep);
  }

  /** The string has a single piece exactly when it does not contain the
      separator, and no piece contains the separator. */
  lemma {:induction false} SplitOnPieces(s: string, sep: string)
    requires |sep| > 0
    ensures |SplitOn(s, sep)| == 1 <==> !Contains(s, sep)
    ensures forall p :: p in SplitOn(s, sep) ==> !Contains(p, sep)
    decreases |s|
  {
    FindFindsContained(s, sep);
    match Find(s, sep)
    case None =>
    case Some(k) =>
      var first := s[..k];
      var rest := s[k + |sep|..];
      assert !Contains(first, sep) by {
        forall j: nat | j <= |first| ensures !OccursAt(first, sep, j) {
          OccursInPrefix(s, k, sep, j);
        }
      }
      SplitOnPieces(rest, sep);
      assert SplitOn(s, sep) == [first] + SplitOn(rest, sep);
  }

  /** Splitting a string without lowercase letters gives pieces without them. */
  lemma {:induction false} SplitOnNoLower(s: string, sep: string)
    requires |sep| > 0 && NoLower(s)
    ensures forall i :: 0 <= i < |SplitOn(s, sep)| ==> NoLower(SplitOn(s, sep)[i])
    decreases |s|
  {
    match Find(s, sep)
    case None =>
    case Some(k) =>
      var rest := s[k + |sep|..];
      assert NoLower(s[..k]) && NoLower(rest);
      SplitOnNoLower(rest, sep);
      assert SplitOn(s, sep) == [s[..k]] + SplitOn(rest, sep);
  }

  /** Stripping keeps a string free of lowercase letters. */
  lemma StripNoLower(s: string)
    requires NoLower(s)
    ensures NoLower(Strip(s))
  {
    var i, j := StripBounds(s);
  }

  /** Python's `sep.join(parts)`. */
  function Join(parts: seq<string>, sep: string): string {
    if parts == [] then []
    else if |parts| == 1 then parts[0]
    else parts[0] + sep + Join(parts[1..], sep)
  }

  lemma JoinCons(first: string, rest: seq<string>, sep: string)
    requires rest != []
    ensures Join([first] + rest, sep) == first + sep + Join(rest, sep)
  {
    assert ([first] + rest)[1..] == rest;
  }

  lemma SplitAround(s: string, sep: string, k: nat)
    requires OccursAt(s, sep, k)
    ensures s == s[..k] + sep + s[k + |sep|..]
  {
    assert s == s[..k] + s[k..k + |sep|] + s[k + |sep|..];
  }

  /** Splitting on a separator and joining with it gives back the string. */
  lemma {:induction false} JoinSplitOn(s: string, sep: string)
    requires |sep| > 0
    ensures Join(SplitOn(s, sep), sep) == s
    decreases |s|
  {
    var found := Find(s, sep);
    if found.Some? {
      var k := found.value;
      var rest := s[k + |sep|..];
      var tail := SplitOn(rest, sep);
      assert SplitOn(s, sep) == [s[..k]] + tail;
      JoinSplitOn(rest, sep);
      JoinCons(s[..k], tail, sep);
      SplitAround(s, sep, k);
    } else {
      assert SplitOn(s, sep) == [s];
    }
  }

  /** Where the `i`-th piece starts in the split string: the lengths of the
      earlier pieces, each followed by the separator. */
  function Offset(parts: seq<string>, sep: string, i: nat): nat
    requires i <= |parts|
  {
    if i == 0 then 0 else |parts[0]| + |sep| + Offset(parts[1..], sep, i - 1)
  }

  /** The first piece ends where the separator first occurs; when it is
      the only piece, the separator does not occur. */
  lemma SplitOnFirstCut(s: string, sep: string)
    requires |sep| > 0
    ensures var parts := SplitOn(s, sep);
      Find(s, sep) == if 0 < |parts| - 1 then Some(|parts[0]|) else None
  {
    var parts := SplitOn(s, sep);
    var found := Find(s, sep);
    if found.Some? {
      var k := found.value;
      assert parts == [s[..k]] + SplitOn(s[k + |sep|..], sep);
    }
  }

  lemma OffsetCons(first: string, tail: seq<string>, sep: string, i: nat)
    requires 0 < i <= |tail| + 1
    ensures Offset([first] + tail, sep, i) == |first| + |sep| + Offset(tail, sep, i - 1)
  {
    assert ([first] + tail)[1..] == tail;
  }

  /** Splitting from the start of the `i`-th piece gives the pieces from
      the `i`-th on. */
  lemma {:induction false} SplitOnSuffix(s: string, sep: string, i: nat)
    requires |sep| > 0 && i < |SplitOn(s, sep)|
    ensures Offset(SplitOn(s, sep), sep, i) <= |s|
    ensures SplitOn(s[Offset(SplitOn(s, sep), sep, i)..], sep) == SplitOn(s, sep)[i..]
    decreases |s|
  {
    var parts := SplitOn(s, sep);
    if i == 0 {
      assert s[0..] == s && parts[0..] == parts;
    } else {
      var k := Find(s, sep).value;
      var d := k + |sep|;
      var tail := SplitOn(s[d..], sep);
      assert parts == [s[..k]] + tail;
      OffsetCons(s[..k], tail, sep, i);
      SplitOnSuffix(s[d..], sep, i - 1);
      assert parts[i..] == tail[i - 1..];
      var at := Offset(parts, sep, i);
      assert s[at..] == s[d..][at - d..];
    }
  }

  /** The `i`-th piece of the split ends where the first occurrence of the
      separator after its start begins; after the start of the last piece
      the separator does not occur. */
  lemma SplitOnCut(s: string, sep: string, i: nat)
    requires |sep| > 0 && i < |SplitOn(s, sep)|
    ensures Offset(SplitOn(s, sep), sep, i) <= |s|
    ensures Find(s[Offset(SplitOn(s, sep), sep, i)..], sep) ==
      if i < |SplitOn(s, sep)| - 1 then Some(|SplitOn(s, sep)[i]|) else None
  {
    var parts := SplitOn(s, sep);
    SplitOnSuffix(s, sep, i);
    var rest := s[Offset(parts, sep, i)..];
    SplitOnFirstCut(rest, sep);
    assert SplitOn(rest, sep) == parts[i..];
  }

  /** `str.split` cuts at the leftmost occurrences, from left to right: each
      piece ends where the first occurrence of the separator after its start
      begins, and after the start of the last piece there is none. With
      `JoinSplitOn` this determines the pieces completely. */
  lemma SplitOnLeftmost(s: string, sep: string)
    requires |sep| > 0
    ensures var parts := SplitOn(s, sep);
      forall i :: 0 <= i < |parts| ==>
        && Offset(parts, sep, i) <= |s|
        && Find(s[Offset(parts, sep, i)..], sep) == if i < |parts| - 1 then Some(|parts[i]|) else None
  {
    forall i | 0 <= i < |SplitOn(s, sep)| {
      SplitOnCut(s, sep, i);
    }
  }
}
