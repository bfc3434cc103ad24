/** Concrete scenarios, proved by the verifier: the checks of `test_add_document_updates_index`
    and `test_or_search_logic`, the parse of the query of
    `test_and_search_logic`, and the reuse of an explicit identifier by the
    counter. Every fact about a concrete word is a lemma of its own, taking
    the word as a parameter; longer texts and queries are assembled from
    their words with the general lemmas. */
module Scenarios {
  import opened Wrappers
  import opened Text
  import opened Tokenizer
  import opened InvertedIndex
  import opened Query
  import opened Engine

  /** A single word without whitespace is one token, its letters lowercased. */
  lemma Word(w: string, letters: string)
    requires NoSpace(w) && Letters(w) == letters && letters != []
    ensures Tokenize(w) == [letters]
  {
    UnbrokenWord(w);
  }

  // Digits and punctuation are deleted, not turned into separators.
  lemma TokenizeIpso(w: string) requires w == "IPSO-3" ensures Tokenize(w) == ["ipso"] { Word("IPSO-3", "ipso"); }
  lemma TokenizeDont(w: string) requires w == "don't" ensures Tokenize(w) == ["dont"] { Word("don't", "dont"); }

  lemma TokenizeHello(w: string) requires w == "Hello" ensures Tokenize(w) == ["hello"] { Word("Hello", "hello"); }
  lemma TokenizeWorld(w: string) requires w == "World" ensures Tokenize(w) == ["world"] { Word("World", "world"); }
  lemma TokenizeDog(w: string) requires w == "Dog" ensures Tokenize(w) == ["dog"] { Word("Dog", "dog"); }
  lemma TokenizeCat(w: string) requires w == "Cat" ensures Tokenize(w) == ["cat"] { Word("Cat", "cat"); }
  lemma TokenizeBird(w: string) requires w == "Bird" ensures Tokenize(w) == ["bird"] { Word("Bird", "bird"); }

  lemma HelloWorldWords(text: string, a: string, b: string)
    requires text == "Hello World" && a == "Hello" && b == "World"
    ensures text == a + [' '] + b
  {
  }

  /** The text of `test_add_document_updates_index`. */
  lemma TokenizeHelloWorld(text: string)
    requires text == "Hello World"
    ensures Tokenize(text) == ["hello", "world"]
  {
    var a, b := "Hello", "World";
    HelloWorldWords(text, a, b);
    TokenizeHello(a);
    TokenizeWorld(b);
    TokenizeAt(a, ' ', b);
  }

  lemma UpperDog() ensures Upper("Dog") == "DOG" {}
  lemma UpperCat() ensures Upper("Cat") == "CAT" {}
  lemma LowerDog() ensures Lower("DOG") == "dog" {}
  lemma LowerCat() ensures Lower("CAT") == "cat" {}
  lemma NoSpaceDog() ensures NoSpace("DOG") && ' ' !in "DOG" {}
  lemma NoSpaceCat() ensures NoSpace("CAT") && ' ' !in "CAT" {}

  /** The normalized form of a query made of two parts around a separator. */
  lemma NormalizeAround(query: string, a: string, sep: string, b: string)
    requires query == a + sep + b && a != [] && b != []
    requires !IsSpace(a[0]) && !IsSpace(b[|b| - 1]) && NoLower(sep)
    ensures Normalize(query) == Upper(a) + sep + Upper(b)
  {
    assert query[0] == a[0] && query[|query| - 1] == b[|b| - 1];
    StripUnpadded(query);
    UpperConcat(a + sep, b);
    UpperConcat(a, sep);
    UpperAfterLower(sep);
  }

  lemma ContainsAround(a: string, sep: string, b: string)
    ensures Contains(a + sep + b, sep)
  {
    var q := a + sep + b;
    assert OccursAt(q, sep, |a|) by {
      assert q[|a|..|a| + |sep|] == sep;
    }
  }

  /** Two words around one separator give the two words, lowercased, as
      the explicit terms. */
  lemma SegmentPair(a: string, sep: string, b: string, x: string, y: string)
    requires |sep| > 0 && sep[0] !in a && sep[0] !in b
    requires a != [] && b != [] && NoSpace(a) && NoSpace(b)
    requires Lower(a) == x && Lower(b) == y
    ensures SegmentTerms(a + sep + b, sep) == [x, y]
  {
    MissingCharacter(b, sep, 0);
    SplitOnOnce(a, sep, b);
    StripUnpadded(a);
    StripUnpadded(b);
    var terms := SegmentTerms(a + sep + b, sep);
    assert terms[0] == x && terms[1] == y;
  }

  /** A query made of two words around the separator of `op`, with no
      earlier operator in its normalized form, parses into the two words
      lowercased. */
  lemma ParsePair(query: string, op: Operator, a: string, b: string, x: string, y: string, lx: string, ly: string)
    requires query == a + Separator(op) + b && a != [] && b != []
    requires !IsSpace(a[0]) && !IsSpace(b[|b| - 1])
    requires Upper(a) == x && Upper(b) == y && Lower(x) == lx && Lower(y) == ly
    requires x != [] && y != [] && NoSpace(x) && NoSpace(y) && ' ' !in x && ' ' !in y
    requires op == Or ==> !Contains(x + OrSeparator + y, AndSeparator)
    ensures ParseQuery(query) == Parsed(op, [lx, ly])
  {
    var sep := Separator(op);
    assert NoLower(sep) && sep[0] == ' ';
    NormalizeAround(query, a, sep, b);
    ContainsAround(x, sep, y);
    SegmentPair(x, sep, y, lx, ly);
  }

  /** The concrete facts about `"Dog"` and `"Cat"` that both queries need. */
  lemma DogCatFacts(a: string, b: string, x: string, y: string)
    requires a == "Dog" && b == "Cat" && x == "DOG" && y == "CAT"
    ensures a != [] && b != [] && !IsSpace(a[0]) && !IsSpace(b[|b| - 1])
    ensures Upper(a) == x && Upper(b) == y && Lower(x) == "dog" && Lower(y) == "cat"
    ensures x != [] && y != [] && NoSpace(x) && NoSpace(y) && ' ' !in x && ' ' !in y
    ensures !Contains(x + OrSeparator + y, AndSeparator)
  {
    UpperDog();
    UpperCat();
    LowerDog();
    LowerCat();
    NoSpaceDog();
    NoSpaceCat();
    var q := x + OrSeparator + y;
    assert 'N' !in q;
    MissingCharacter(q, AndSeparator, 2);
  }

  lemma DogOrCatWords(query: string, a: string, b: string)
    requires query == "Dog OR Cat" && a == "Dog" && b == "Cat"
    ensures query == a + OrSeparator + b
  {
  }

  lemma DogAndCatWords(query: string, a: string, b: string)
    requires query == "Dog AND Cat" && a == "Dog" && b == "Cat"
    ensures query == a + AndSeparator + b
  {
  }

  /** `"Dog OR Cat"` is an OR query for the terms `dog` and `cat`. */
  lemma ParseDogOrCat(query: string)
    requires query == "Dog OR Cat"
    ensures ParseQuery(query) == Parsed(Or, ["dog", "cat"])
  {
    var a, b, x, y := "Dog", "Cat", "DOG", "CAT";
    DogOrCatWords(query, a, b);
    DogCatFacts(a, b, x, y);
    ParsePair(query, Or, a, b, x, y, "dog", "cat");
  }

  /** `"Dog AND Cat"` is an AND query for the terms `dog` and `cat`. */
  lemma ParseDogAndCat(query: string)
    requires query == "Dog AND Cat"
    ensures ParseQuery(query) == Parsed(And, ["dog", "cat"])
  {
    var a, b, x, y := "Dog", "Cat", "DOG", "CAT";
    DogAndCatWords(query, a, b);
    DogCatFacts(a, b, x, y);
    ParsePair(query, And, a, b, x, y, "dog", "cat");
  }

  /** Which of the three single-word texts answer "dog OR cat". */
  lemma OrAnswers(dog: string, cat: string, bird: string)
    requires dog == "Dog" && cat == "Cat" && bird == "Bird"
    ensures Satisfies(dog, Parsed(Or, ["dog", "cat"]))
    ensures Satisfies(cat, Parsed(Or, ["dog", "cat"]))
    ensures !Satisfies(bird, Parsed(Or, ["dog", "cat"]))
  {
    var terms := ["dog", "cat"];
    TokenizeDog(dog);
    TokenizeCat(cat);
    TokenizeBird(bird);
    assert terms[0] in Tokenize(dog);
    assert terms[1] in Tokenize(cat);
  }

  /** The documents stored under 1, 2 and 3 found by "dog OR cat". */
  lemma OrOutcome(docs: Store, results: Store)
    requires docs.Keys == {1, 2, 3} && docs[1] == "Dog" && docs[2] == "Cat" && docs[3] == "Bird"
    requires forall d :: d in results <==> d in docs && Satisfies(docs[d], Parsed(Or, ["dog", "cat"]))
    ensures results.Keys == {1, 2}
  {
    OrAnswers(docs[1], docs[2], docs[3]);
    forall d ensures d in results <==> d == 1 || d == 2 {
      if d in docs {
        assert d == 1 || d == 2 || d == 3;
      }
    }
  }

  /** `test_add_document_updates_index`: adding "Hello World" under 5
      returns 5 and lists 5 under `hello`. */
  method AddDocumentUpdatesIndex() returns (docId: DocId, index: Index)
    ensures docId == 5
    ensures "hello" in index && 5 in index["hello"]
  {
    var engine := new SearchEngine();
    var text := "Hello World";
    docId := engine.AddDocument(text, Some(5));
    TokenizeHelloWorld(text);
    assert "hello" in Tokenize(text);
    index := engine.invertedIndex;
  }

  /** `test_or_search_logic`: of "Dog", "Cat" and "Bird", the query
      "Dog OR Cat" finds the first two. */
  method OrSearchLogic() returns (results: Store)
    ensures results.Keys == {1, 2}
  {
    var engine := new SearchEngine();
    var dog, cat, bird := "Dog", "Cat", "Bird";
    var _ := engine.AddDocument(dog, Some(1));
    var _ := engine.AddDocument(cat, Some(2));
    var _ := engine.AddDocument(bird, Some(3));
    assert engine.documents.Keys == {1, 2, 3};
    var query := "Dog OR Cat";
    ParseDogOrCat(query);
    results := engine.Search(query);
    OrOutcome(engine.documents, results);
  }

  /** An explicit identifier does not move the counter: adding under 0 and
      then without an identifier uses 0 twice, and the second text replaces
      the first. */
  method AutomaticIdReusesExplicitId() returns (first: DocId, second: DocId, documents: Store)
    ensures first == 0 && second == 0
    ensures documents == map[0 := "cat"]
  {
    var engine := new SearchEngine();
    first := engine.AddDocument("dog", Some(0));
    second := engine.AddDocument("cat", None);
    documents := engine.documents;
  }
}
