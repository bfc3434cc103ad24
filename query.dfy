/** How `SimpleSearchEngine.search` reads a query and which documents it
    returns, as functions of the stored documents and the inverted index. */
module Query {
  import opened Text
  import opened Tokenizer
  import opened InvertedIndex

  /** The two boolean operators a query may use. */
  datatype Operator = And | Or

  /** A query after parsing: the operator that combines the terms, and the
      terms in query order. */
  datatype Parsed = Parsed(op: Operator, terms: seq<Term>)

  const AndSeparator: string := " AND "
  const OrSeparator: string := " OR "

  function Separator(op: Operator): (sep: string)
    ensures |sep| > 0
  {
    match op
    case And => AndSeparator
    case Or => OrSeparator
  }

  /** The query with its surrounding whitespace removed, in upper case: the
      string that the operator tests and the explicit split work on. */
  function Normalize(query: string): (q: string)
    ensures |q| <= |query| && NoLower(q)
    ensures q == [] || (!IsSpace(q[0]) && !IsSpace(q[|q| - 1]))
  {
    Upper(Strip(query))
  }

  /** The terms of an explicit query: each piece between separators, trimmed
      and lowercased, but not tokenized. */
  function SegmentTerms(q: string, sep: string): (terms: seq<Term>)
    requires |sep| > 0
    ensures |terms| == |SplitOn(q, sep)|
    ensures forall i :: 0 <= i < |terms| ==> NoUpper(terms[i])
  {
    var parts := SplitOn(q, sep);
    seq(|parts|, i requires 0 <= i < |parts| => Lower(Strip(parts[i])))
  }

  /** The operator and term list `search` computes before it touches the index. */
  function ParseQuery(query: string): (parsed: Parsed)
    ensures parsed.op == Or ==> Contains(Normalize(query), OrSeparator) && !Contains(Normalize(query), AndSeparator)
    ensures forall i :: 0 <= i < |parsed.terms| ==> NoUpper(parsed.terms[i])
  {
    ParseNormalized(Normalize(query))
  }

  /** Parsing once the query has been normalized. */
  function ParseNormalized(q: string): (parsed: Parsed)
    ensures forall i :: 0 <= i < |parsed.terms| ==> NoUpper(parsed.terms[i])
    ensures parsed.op == Or ==> Contains(q, OrSeparator) && !Contains(q, AndSeparator)
    ensures Contains(q, AndSeparator) || Contains(q, OrSeparator) ==> |parsed.terms| >= 2
  {
    if Contains(q, AndSeparator) then
      SplitOnPieces(q, AndSeparator);
      Parsed(And, SegmentTerms(q, AndSeparator))
    else if Contains(q, OrSeparator) then
      SplitOnPieces(q, OrSeparator);
      Parsed(Or, SegmentTerms(q, OrSeparator))
    else
      var tokens := Tokenize(q);
      assert forall i :: 0 <= i < |tokens| ==> tokens[i] in tokens;
      Parsed(And, tokens)
  }

  /** The result set after folding `intersection_update` over the terms,
      starting from the postings of the first term. */
  function Intersection(index: Index, terms: seq<Term>): (ids: set<DocId>)
    requires |terms| > 0
    ensures forall i :: 0 <= i < |terms| ==> ids <= Postings(index, terms[i])
  {
    if |terms| == 1 then Postings(index, terms[0])
    else Intersection(index, terms[..|terms| - 1]) * Postings(index, terms[|terms| - 1])
  }

  /** The result set after folding `update` (union) over the terms,
      starting from the postings of the first term. */
  function Union(index: Index, terms: seq<Term>): (ids: set<DocId>)
    requires |terms| > 0
    ensures forall i :: 0 <= i < |terms| ==> Postings(index, terms[i]) <= ids
  {
    if |terms| == 1 then Postings(index, terms[0])
    else Union(index, terms[..|terms| - 1]) + Postings(index, terms[|terms| - 1])
  }

  /** The identifiers a parsed query selects; no terms select nothing. */
  function Matches(index: Index, parsed: Parsed): (ids: set<DocId>)
    ensures parsed.terms == [] ==> ids == {}
    ensures parsed.op == And ==> forall i :: 0 <= i < |parsed.terms| ==> ids <= Postings(index, parsed.terms[i])
    ensures parsed.op == Or ==> forall i :: 0 <= i < |parsed.terms| ==> Postings(index, parsed.terms[i]) <= ids
  {
    if parsed.terms == [] then {}
    else match parsed.op
      case And => Intersection(index, parsed.terms)
      case Or => Union(index, parsed.terms)
  }

  /** The stored documents whose identifiers are in `ids`. */
  function Found(docs: Store, ids: set<DocId>): (found: Store)
    ensures found.Keys == ids * docs.Keys
    ensures forall d :: d in found ==> found[d] == docs[d]
  {
    map d | d in ids && d in docs :: docs[d]
  }

  /** What `search(query)` returns for the given documents and index. */
  function SearchResult(docs: Store, index: Index, query: string): (found: Store)
    ensures forall d :: d in found ==> d in docs && found[d] == docs[d]
    ensures ParseQuery(query).terms == [] ==> found == map[]
  {
    Found(docs, Matches(index, ParseQuery(query)))
  }

  /** A document text answers a parsed query: with AND it holds every term
      as a token, with OR at least one; a query without terms answers nothing. */
  predicate Satisfies(text: string, parsed: Parsed) {
    && parsed.terms != []
    && (parsed.op == And ==> forall i :: 0 <= i < |parsed.terms| ==> parsed.terms[i] in Tokenize(text))
    && (parsed.op == Or ==> exists i :: 0 <= i < |parsed.terms| && parsed.terms[i] in Tokenize(text))
  }

  /** An identifier survives the intersections exactly when every term
      lists it. */
  lemma {:induction false} IntersectionContains(index: Index, terms: seq<Term>, d: DocId)
    requires |terms| > 0
    ensures d in Intersection(index, terms) <==> forall i :: 0 <= i < |terms| ==> d in Postings(index, terms[i])
  {
    if |terms| > 1 {
      var init := terms[..|terms| - 1];
      IntersectionContains(index, init, d);
      assert forall i :: 0 <= i < |init| ==> init[i] == terms[i];
    }
  }

  /** An identifier is in the union exactly when some term lists it. */
  lemma {:induction false} UnionContains(index: Index, terms: seq<Term>, d: DocId)
    requires |terms| > 0
    ensures d in Union(index, terms) <==> exists i :: 0 <= i < |terms| && d in Postings(index, terms[i])
  {
    if |terms| > 1 {
      var init := terms[..|terms| - 1];
      UnionContains(index, init, d);
      assert forall i :: 0 <= i < |init| ==> init[i] == terms[i];
      if d in Postings(index, terms[|terms| - 1]) {
        assert 0 <= |terms| - 1 < |terms| && d in Postings(index, terms[|terms| - 1]);
      }
    }
  }

  /** A parsed query selects an identifier exactly when it has terms and
      every term lists the identifier (AND) or some term does (OR). */
  lemma MatchesContains(index: Index, parsed: Parsed, d: DocId)
    ensures d in Matches(index, parsed) <==>
      && parsed.terms != []
      && (parsed.op == And ==> forall i :: 0 <= i < |parsed.terms| ==> d in Postings(index, parsed.terms[i]))
      && (parsed.op == Or ==> exists i :: 0 <= i < |parsed.terms| && d in Postings(index, parsed.terms[i]))
  {
    if parsed.terms != [] {
      match parsed.op
      case And => IntersectionContains(index, parsed.terms, d);
      case Or => UnionContains(index, parsed.terms, d);
    }
  }

  /** Combining the same terms with AND never selects more than with OR. */
  lemma AndWithinOr(index: Index, terms: seq<Term>)
    ensures Matches(index, Parsed(And, terms)) <= Matches(index, Parsed(Or, terms))
  {
    if terms != [] {
      forall d | d in Intersection(index, terms) ensures d in Union(index, terms) {
        IntersectionContains(index, terms, d);
        UnionContains(index, terms, d);
        assert d in Postings(index, terms[0]);
      }
    }
  }

  /** On a consistent index, `search` returns exactly the stored documents
      that answer the parsed query, each with its stored text. */
  lemma SearchMeaning(docs: Store, index: Index, query: string)
    requires Consistent(docs, index)
    ensures var found := SearchResult(docs, index, query);
      && (forall d :: d in found <==> d in docs && Satisfies(docs[d], ParseQuery(query)))
      && (forall d :: d in found ==> found[d] == docs[d])
  {
    var parsed := ParseQuery(query);
    var terms := parsed.terms;
    forall d | d in docs ensures d in Matches(index, parsed) <==> Satisfies(docs[d], parsed) {
      if terms != [] {
        assert forall i :: 0 <= i < |terms| ==> (d in Postings(index, terms[i]) <==> terms[i] in Tokenize(docs[d]));
        if parsed.op == And {
          IntersectionContains(index, terms, d);
        } else {
          UnionContains(index, terms, d);
        }
      }
    }
  }

  /** A term that is not a non-empty run of lowercase letters is never a
      token, so a consistent index lists no document for it. */
  lemma NonWordTermFindsNothing(docs: Store, index: Index, term: Term)
    requires Consistent(docs, index)
    requires term == [] || !IsLetters(term)
    ensures Postings(index, term) == {}
  {
    forall d ensures d !in Postings(index, term) {
      if d in docs {
        assert term !in Tokenize(docs[d]);
      }
    }
  }

  /** Without an explicit operator the query is tokenized like a document
      and its tokens are combined with AND. */
  lemma ImplicitQuery(query: string)
    requires !Contains(Normalize(query), AndSeparator) && !Contains(Normalize(query), OrSeparator)
    ensures ParseQuery(query) == Parsed(And, Tokenize(query))
  {
    TokenizeNormalizedQuery(query);
  }

  /** With an explicit operator, AND takes precedence over OR; the normalized
      query is cut at every separator into at least two pieces, and each term
      is its piece trimmed and lowercased. */
  lemma ExplicitQuery(query: string)
    requires Contains(Normalize(query), AndSeparator) || Contains(Normalize(query), OrSeparator)
    ensures var parsed := ParseQuery(query);
      var q := Normalize(query);
      var sep := Separator(parsed.op);
      var parts := SplitOn(q, sep);
      && (parsed.op == And <==> Contains(q, AndSeparator))
      && Join(parts, sep) == q
      && |parsed.terms| == |parts| >= 2
      && forall i :: 0 <= i < |parts| ==>
           Upper(parsed.terms[i]) == Strip(parts[i]) && NoUpper(parsed.terms[i]) && !Contains(parts[i], sep)
  {
    var parsed := ParseQuery(query);
    var q := Normalize(query);
    var sep := Separator(parsed.op);
    var parts := SplitOn(q, sep);
    JoinSplitOn(q, sep);
    SplitOnPieces(q, sep);
    UpperAfterLower(Strip(query));
    SplitOnNoLower(q, sep);
    forall i | 0 <= i < |parts|
      ensures Upper(parsed.terms[i]) == Strip(parts[i]) && !Contains(parts[i], sep)
    {
      assert parts[i] in parts;
      StripNoLower(parts[i]);
      UpperAfterLower(Strip(parts[i]));
    }
  }

  lemma NormalizeIgnoresCase(query: string)
    ensures Normalize(Lower(query)) == Normalize(query)
    ensures Normalize(Upper(query)) == Normalize(query)
  {
    var s := Strip(query);
    StripLower(query);
    StripUpper(query);
    UpperAfterLower(s);
    UpperAfterLower(Upper(s));
  }

  /** The case of the query's letters does not matter to the parse. */
  lemma CaseInsensitiveParse(query: string)
    ensures ParseQuery(Lower(query)) == ParseQuery(query)
    ensures ParseQuery(Upper(query)) == ParseQuery(query)
  {
    NormalizeIgnoresCase(query);
    assert ParseQuery(Lower(query)) == ParseNormalized(Normalize(query));
    assert ParseQuery(Upper(query)) == ParseNormalized(Normalize(query));
  }

  /** The case of the query's letters does not matter to the result. */
  lemma CaseInsensitiveSearch(docs: Store, index: Index, query: string)
    ensures SearchResult(docs, index, Lower(query)) == SearchResult(docs, index, query)
    ensures SearchResult(docs, index, Upper(query)) == SearchResult(docs, index, query)
  {
    CaseInsensitiveParse(query);
    SameParseSameResult(docs, index, Lower(query), query);
    SameParseSameResult(docs, index, Upper(query), query);
  }

  lemma SameParseSameResult(docs: Store, index: Index, q1: string, q2: string)
    requires ParseQuery(q1) == ParseQuery(q2)
    ensures SearchResult(docs, index, q1) == SearchResult(docs, index, q2)
  {
  }

  /** Normalizing keeps a query free of letters. */
  lemma NormalizeNoLetters(query: string)
    requires NoLetters(query)
    ensures NoLetters(Normalize(query))
  {
    var i, j := StripBounds(query);
    var stripped := query[i..j];
    assert NoLetters(stripped);
    var q := Upper(stripped);
    assert Normalize(query) == q;
    forall k | 0 <= k < |q| ensures !IsLower(ToLower(q[k])) {
      CaseRoundTrip(stripped[k]);
    }
  }

  /** A string without letters holds no separator. */
  lemma NoSeparatorWithoutLetters(q: string, sep: string)
    requires NoLetters(q) && |sep| > 1 && IsUpper(sep[1])
    ensures !Contains(q, sep)
  {
  }

  /** A query holding no letter at all, for instance an empty or blank one,
      finds nothing. */
  lemma LetterlessQueryFindsNothing(docs: Store, index: Index, query: string)
    requires NoLetters(query)
    ensures ParseQuery(query).terms == []
    ensures SearchResult(docs, index, query) == map[]
  {
    var q := Normalize(query);
    NormalizeNoLetters(query);
    NoSeparatorWithoutLetters(q, AndSeparator);
    NoSeparatorWithoutLetters(q, OrSeparator);
    TokenizeNoLetters(q);
  }

  /** Searching for any token of a stored document, on its own, finds that
      document. */
  lemma SingleTokenFindsDocument(docs: Store, index: Index, d: DocId, token: Term)
    requires Consistent(docs, index)
    requires d in docs && token in Tokenize(docs[d])
    ensures d in SearchResult(docs, index, token)
    ensures SearchResult(docs, index, token)[d] == docs[d]
  {
    assert token != [] && IsLetters(token);
    var i, j := StripBounds(token);
    assert Strip(token) == token by {
      assert !IsSpace(token[0]) && !IsSpace(token[|token| - 1]);
      assert i == 0;
      assert j == |token|;
    }
    var q := Normalize(token);
    assert NoSpace(q);
    forall sep: string, k: nat | |sep| > 0 && sep[0] == ' '
      ensures !OccursAt(q, sep, k)
    {
    }
    assert AndSeparator[0] == ' ' && OrSeparator[0] == ' ';
    ImplicitQuery(token);
    assert NoSpace(token);
    UnbrokenWord(token);
    LettersOfWord(token);
    assert ParseQuery(token) == Parsed(And, [token]);
    SearchMeaning(docs, index, token);
  }
}
