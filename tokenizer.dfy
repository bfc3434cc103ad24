/**
  The engine's tokenizer (`SimpleSearchEngine._tokenize`): lowercase the
  text, delete every character that is neither a letter `a`-`z` nor
  whitespace, and split what remains on runs of whitespace.
*/
module Tokenizer {
  import opened Text

  /** The characters the pattern `[^a-z\s]` does not delete. */
  predicate Kept(c: char) { IsLower(c) || IsSpace(c) }

  predicate IsWordChar(c: char) { !IsSpace(c) }

  /** A word of `str.split()`: non-empty and free of whitespace. */
  predicate IsWord(w: string) { w != [] && NoSpace(w) }

  /** Every character of `w` is a letter `a`-`z`. */
  predicate IsLetters(w: string) {
    forall i :: 0 <= i < |w| ==> IsLower(w[i])
  }

  /** Length of the run of non-whitespace characters at the front of `s`. */
  function WordLength(s: string): (k: nat)
    ensures k <= |s|
    ensures NoSpace(s[..k])
    ensures k < |s| ==> IsSpace(s[k])
  {
    if s == [] || IsSpace(s[0]) then 0 else 1 + WordLength(s[1..])
  }

  /** `str.split()` without a separator: the maximal runs of non-whitespace
      characters of `s`, in order. */
  function SplitWhitespace(s: string): (words: seq<string>)
    ensures forall w :: w in words ==> IsWord(w)
    decreases |s|
  {
    if s == [] then []
    else if IsSpace(s[0]) then SplitWhitespace(s[1..])
    else
      var k := WordLength(s);
      [s[..k]] + SplitWhitespace(s[k..])
  }

  /** The tokens of `text`: each one a non-empty run of letters `a`-`z`. */
  function Tokenize(text: string): (tokens: seq<string>)
    ensures forall t :: t in tokens ==> t != [] && IsLetters(t)
  {
    var kept := Filter(Lower(text), Kept);
    SplitKeptIsLetters(kept);
    SplitWhitespace(kept)
  }

  /** The words of a string made of letters and whitespace are made of letters. */
  lemma {:induction false} SplitKeptIsLetters(s: string)
    requires forall i :: 0 <= i < |s| ==> Kept(s[i])
    ensures forall w :: w in SplitWhitespace(s) ==> IsLetters(w)
    decreases |s|
  {
    if s != [] {
      if IsSpace(s[0]) {
        SplitKeptIsLetters(s[1..]);
      } else {
        var k := WordLength(s);
        SplitKeptIsLetters(s[k..]);
        assert IsLetters(s[..k]) by {
          forall i | 0 <= i < k ensures IsLower(s[..k][i]) {
            assert Kept(s[i]) && !IsSpace(s[i]);
          }
        }
      }
    }
  }

  /** The letters `a`-`z` of the lowercased text, in order. */
  function Letters(text: string): string {
    if text == [] then []
    else (if IsLower(ToLower(text[0])) then [ToLower(text[0])] else []) + Letters(text[1..])
  }

  lemma {:induction false} LettersOfLower(text: string)
    ensures Letters(text) == Filter(Lower(text), IsLower)
  {
    if text != [] {
      LettersOfLower(text[1..]);
      assert Lower(text)[1..] == Lower(text[1..]);
    }
  }

  /** `text` holds no letter of either case. */
  predicate NoLetters(text: string) {
    forall i :: 0 <= i < |text| ==> !IsLower(ToLower(text[i]))
  }

  lemma {:induction false} LettersOfNoLetters(text: string)
    requires NoLetters(text)
    ensures Letters(text) == []
  {
    if text != [] {
      LettersOfNoLetters(text[1..]);
    }
  }

  lemma {:induction false} LettersOfWord(w: string)
    requires IsLetters(w)
    ensures Letters(w) == w
  {
    if w != [] {
      LettersOfWord(w[1..]);
      assert w == [w[0]] + w[1..];
    }
  }

  /** `"".join(words)`, the same string as `Join(words, "")`
      (`ConcatIsJoin`). */
  function Concat(words: seq<string>): string {
    if words == [] then [] else words[0] + Concat(words[1..])
  }

  lemma {:induction false} ConcatIsJoin(words: seq<string>)
    ensures Concat(words) == Join(words, "")
  {
    if words != [] {
      ConcatIsJoin(words[1..]);
    }
  }

  /** Splitting on whitespace loses exactly the whitespace: the words, put
      back together, are the non-whitespace characters of `s`. */
  lemma {:induction false} SplitWhitespaceKeepsWords(s: string)
    ensures Concat(SplitWhitespace(s)) == Filter(s, IsWordChar)
    decreases |s|
  {
    if s == [] {
    } else if IsSpace(s[0]) {
      SplitWhitespaceKeepsWords(s[1..]);
    } else {
      var k := WordLength(s);
      SplitWhitespaceKeepsWords(s[k..]);
      var words := [s[..k]] + SplitWhitespace(s[k..]);
      assert words[0] == s[..k] && words[1..] == SplitWhitespace(s[k..]);
      FilterConcat(s[..k], s[k..], IsWordChar);
      FilterKeepsAll(s[..k], IsWordChar);
      assert s[..k] + s[k..] == s;
    }
  }

  /** Splitting words joined by single spaces gives the words back. */
  lemma {:induction false} SplitWhitespaceJoin(words: seq<string>)
    requires forall w :: w in words ==> IsWord(w)
    ensures SplitWhitespace(Join(words, " ")) == words
  {
    if |words| == 1 {
      var w := words[0];
      assert w in words;
      WordLengthStopsAtSpace(w, []);
      assert w + [] == w && w[..|w|] == w && w[|w|..] == [];
    } else if |words| > 1 {
      var w, rest := words[0], words[1..];
      assert w in words;
      var tail := " " + Join(rest, " ");
      var s := w + tail;
      assert Join(words, " ") == s;
      SplitWhitespaceJoin(rest);
      WordLengthStopsAtSpace(w, tail);
      assert s[0] == w[0] && s[..|w|] == w && s[|w|..] == tail;
      assert tail[0] == ' ' && tail[1..] == Join(rest, " ");
      assert SplitWhitespace(tail) == rest;
      assert SplitWhitespace(s) == [w] + rest;
    }
  }

  /** A word followed by text that starts with whitespace ends with the word. */
  lemma {:induction false} WordLengthStopsAtSpace(w: string, tail: string)
    requires NoSpace(w)
    requires tail == [] || IsSpace(tail[0])
    ensures WordLength(w + tail) == |w|
  {
    if w != [] {
      assert (w + tail)[1..] == w[1..] + tail;
      WordLengthStopsAtSpace(w[1..], tail);
    } else {
      assert w + tail == tail;
    }
  }

  /** Leading whitespace does not change the words. */
  lemma {:induction false} SplitWhitespaceLeading(pad: string, s: string)
    requires AllSpace(pad)
    ensures SplitWhitespace(pad + s) == SplitWhitespace(s)
  {
    if pad == [] {
      assert pad + s == s;
    } else {
      assert (pad + s)[0] == pad[0] && (pad + s)[1..] == pad[1..] + s;
      SplitWhitespaceLeading(pad[1..], s);
    }
  }

  /** Trailing whitespace does not change the words. */
  lemma {:induction false} SplitWhitespaceTrailing(s: string, pad: string)
    requires AllSpace(pad)
    ensures SplitWhitespace(s + pad) == SplitWhitespace(s)
    decreases |s|
  {
    if s == [] {
      SplitWhitespaceLeading(pad, []);
      assert s + pad == pad + [];
    } else if IsSpace(s[0]) {
      assert (s + pad)[0] == s[0] && (s + pad)[1..] == s[1..] + pad;
      SplitWhitespaceTrailing(s[1..], pad);
    } else {
      var k := WordLength(s);
      assert s == s[..k] + s[k..];
      WordLengthStopsAtSpace(s[..k], s[k..] + pad);
      assert s + pad == s[..k] + (s[k..] + pad);
      assert (s + pad)[..k] == s[..k] && (s + pad)[k..] == s[k..] + pad;
      SplitWhitespaceTrailing(s[k..], pad);
    }
  }

  /** Every whitespace character separates: the words of `a + [c] + b`,
      for a whitespace `c`, are the words of `a` followed by those of `b`. */
  lemma {:induction false} SplitWhitespaceAt(a: string, c: char, b: string)
    requires IsSpace(c)
    ensures SplitWhitespace(a + [c] + b) == SplitWhitespace(a) + SplitWhitespace(b)
    decreases |a|
  {
    var s := a + [c] + b;
    if a == [] {
      assert s[0] == c && s[1..] == b;
    } else if IsSpace(a[0]) {
      assert s[0] == a[0] && s[1..] == a[1..] + [c] + b;
      SplitWhitespaceAt(a[1..], c, b);
    } else {
      var k := WordLength(a);
      assert a == a[..k] + a[k..];
      WordLengthStopsAtSpace(a[..k], a[k..] + [c] + b);
      assert s == a[..k] + (a[k..] + [c] + b);
      assert s[..k] == a[..k] && s[k..] == a[k..] + [c] + b;
      SplitWhitespaceAt(a[k..], c, b);
      assert SplitWhitespace(s) == [a[..k]] + (SplitWhitespace(a[k..]) + SplitWhitespace(b));
    }
  }

  /** Tokenizing is compositional over any whitespace character: the
      tokens of `a + [c] + b` are the tokens of `a` followed by those of `b`. */
  lemma TokenizeAt(a: string, c: char, b: string)
    requires IsSpace(c)
    ensures Tokenize(a + [c] + b) == Tokenize(a) + Tokenize(b)
  {
    LowerConcat(a + [c], b);
    LowerConcat(a, [c]);
    assert Lower([c]) == [c];
    var la, lb := Lower(a), Lower(b);
    FilterConcat(la + [c], lb, Kept);
    FilterConcat(la, [c], Kept);
    assert Filter([c], Kept) == [c];
    SplitWhitespaceAt(Filter(la, Kept), c, Filter(lb, Kept));
  }

  lemma {:induction false} FilterKeptThenWordChars(s: string)
    ensures Filter(Filter(s, Kept), IsWordChar) == Filter(s, IsLower)
  {
    if s != [] {
      FilterKeptThenWordChars(s[1..]);
      FilterConcat(if Kept(s[0]) then [s[0]] else [], Filter(s[1..], Kept), IsWordChar);
    }
  }

  /** The tokens, put back together, are exactly the letters of the
      lowercased text: punctuation and digits are deleted, no letter is lost. */
  lemma TokensSpellLetters(text: string)
    ensures Concat(Tokenize(text)) == Letters(text)
  {
    LettersOfLower(text);
    SplitWhitespaceKeepsWords(Filter(Lower(text), Kept));
    FilterKeptThenWordChars(Lower(text));
  }

  /** A string without whitespace is a single word, or none when empty. */
  lemma ConcatOfWords(words: seq<string>)
    requires forall w :: w in words ==> w != []
    ensures Concat(words) == [] ==> words == []
  {
    if words != [] {
      assert words[0] in words;
    }
  }

  /** A text without letters has no tokens. */
  lemma TokenizeNoLetters(text: string)
    requires NoLetters(text)
    ensures Tokenize(text) == []
  {
    TokensSpellLetters(text);
    LettersOfNoLetters(text);
    ConcatOfWords(Tokenize(text));
  }

  /** A string without whitespace is one word, or no word when empty. */
  lemma SplitUnbroken(s: string)
    requires NoSpace(s)
    ensures SplitWhitespace(s) == if s == [] then [] else [s]
  {
    if s != [] {
      WordLengthStopsAtSpace(s, []);
      assert s + [] == s && s[..|s|] == s && s[|s|..] == [];
    }
  }

  /** Text without whitespace is one token at most: deleting a character
      never splits a word ("don't" gives the single token "dont"). */
  lemma UnbrokenWord(text: string)
    requires NoSpace(text)
    ensures var letters := Letters(text);
            Tokenize(text) == if letters == [] then [] else [letters]
  {
    LettersOfLower(text);
    var lowered := Lower(text);
    assert NoSpace(lowered) by {
      forall k | 0 <= k < |lowered| ensures !IsSpace(lowered[k]) {
        assert !IsSpace(text[k]);
      }
    }
    FilterAgree(lowered, Kept, IsLower);
    var letters := Filter(lowered, IsLower);
    assert NoSpace(letters) by {
      forall k | 0 <= k < |letters| ensures !IsSpace(letters[k]) {
        assert IsLower(letters[k]);
      }
    }
    SplitUnbroken(letters);
  }

  lemma LowerKeepsSpace(s: string)
    requires AllSpace(s)
    ensures AllSpace(Lower(s))
    ensures Filter(Lower(s), Kept) == Lower(s)
  {
    forall k | 0 <= k < |s| ensures IsSpace(Lower(s)[k]) {
      assert IsSpace(s[k]);
    }
    FilterKeepsAll(Lower(s), Kept);
  }

  /** Whitespace around a string of letters and whitespace adds no words. */
  lemma SplitWhitespacePadded(pad: string, s: string, pad': string)
    requires AllSpace(pad) && AllSpace(pad')
    ensures SplitWhitespace(pad + s + pad') == SplitWhitespace(s)
  {
    assert pad + s + pad' == pad + (s + pad');
    SplitWhitespaceLeading(pad, s + pad');
    SplitWhitespaceTrailing(s, pad');
  }

  /** Whitespace around a text adds no tokens. */
  lemma TokenizePadded(head: string, mid: string, tail: string)
    requires AllSpace(head) && AllSpace(tail)
    ensures Tokenize(head + mid + tail) == Tokenize(mid)
  {
    var lh, lm, lt := Lower(head), Lower(mid), Lower(tail);
    var m := Filter(lm, Kept);
    assert Lower(head + mid + tail) == lh + lm + lt by {
      LowerConcat(head + mid, tail);
      LowerConcat(head, mid);
    }
    LowerKeepsSpace(head);
    LowerKeepsSpace(tail);
    assert Filter(lh + lm + lt, Kept) == lh + m + lt by {
      FilterConcat(lh + lm, lt, Kept);
      FilterConcat(lh, lm, Kept);
    }
    SplitWhitespacePadded(lh, m, lt);
  }

  /** Uppercasing a text changes none of its tokens. */
  lemma TokenizeUpper(text: string)
    ensures Tokenize(Upper(text)) == Tokenize(text)
  {
    assert Lower(Upper(text)) == Lower(text) by {
      forall k | 0 <= k < |text| ensures Lower(Upper(text))[k] == Lower(text)[k] {
        CaseRoundTrip(text[k]);
      }
    }
  }

  /** Tokenizing ignores letter case and surrounding whitespace: the
      stripped, uppercased query has the tokens of the raw query. */
  lemma TokenizeNormalizedQuery(query: string)
    ensures Tokenize(Upper(Strip(query))) == Tokenize(query)
  {
    var i, j := StripBounds(query);
    var head, mid, tail := query[..i], query[i..j], query[j..];
    ThreeSlices(query, i, j);
    TokenizePadded(head, mid, tail);
    TokenizeUpper(mid);
  }
}
