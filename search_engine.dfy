/** The `SimpleSearchEngine` object: a document store, the inverted index
    over it and the counter for automatically assigned identifiers, updated
    in place by its methods. */
module Engine {
  import opened Wrappers
  import opened Tokenizer
  import opened InvertedIndex
  import opened Query

  class SearchEngine {
    /** Document identifier to document text. */
    var documents: Store
    /** Term to the identifiers of the documents containing it. */
    var invertedIndex: Index
    /** The identifier the next automatically numbered document gets. */
    var nextDocId: nat

    /** The object invariant: the index lists exactly the tokens of the
        stored texts, and holds no empty posting set. */
    ghost predicate Valid()
      reads this
    {
      Consistent(documents, invertedIndex)
    }

    constructor()
      ensures Valid()
      ensures documents == map[] && invertedIndex == map[] && nextDocId == 0
    {
      documents := map[];
      invertedIndex := map[];
      nextDocId := 0;
    }

    /** Stores `text` under `docId`, or under the next counter value when no
        identifier is given, replacing any document already stored under it,
        and indexes its tokens. */
    method AddDocument(text: string, docId: Option<DocId>) returns (id: DocId)
      requires Valid()
      modifies this
      ensures Valid()
      ensures docId.None? ==> id == old(nextDocId) && nextDocId == old(nextDocId) + 1
      ensures docId.Some? ==> id == docId.value && nextDocId == old(nextDocId)
      ensures documents == old(documents)[id := text]
      ensures invertedIndex == WithDocument(WithoutDocument(old(documents), old(invertedIndex), id), id, text)
      ensures forall t :: id in Postings(invertedIndex, t) <==> t in Tokenize(text)
    {
      if docId.None? {
        id := nextDocId;
        nextDocId := nextDocId + 1;
      } else {
        id := docId.value;
      }

      if id in documents {
        var _ := DeleteDocument(id);
      }
      assert invertedIndex == WithoutDocument(old(documents), old(invertedIndex), id);

      documents := documents[id := text];
      var tokens := TermSet(text);
      AddPostingsTo(id, tokens);
      ReplaceKeepsConsistent(old(documents), old(invertedIndex), id, text);
      DocumentPostings(documents, invertedIndex, id);
    }

    /** The loop of `add_document`: every term gets `id` in its posting set,
        which is created empty when the term is new. */
    method AddPostingsTo(id: DocId, terms: set<Term>)
      modifies this
      ensures invertedIndex == AddPostings(old(invertedIndex), id, terms)
      ensures documents == old(documents) && nextDocId == old(nextDocId)
    {
      ghost var start := invertedIndex;
      AddPostingsNothing(start, id);
      var tokens := terms;
      while tokens != {}
        invariant tokens <= terms
        invariant invertedIndex == AddPostings(start, id, terms - tokens)
        invariant documents == old(documents) && nextDocId == old(nextDocId)
        decreases tokens
      {
        HasMember(tokens);
        var token :| token in tokens;
        AddPostingsStep(start, id, terms - tokens, token);
        if token !in invertedIndex {
          invertedIndex := invertedIndex[token := {}];
        }
        invertedIndex := invertedIndex[token := invertedIndex[token] + {id}];
        assert terms - (tokens - {token}) == (terms - tokens) + {token};
        tokens := tokens - {token};
      }
      assert terms - tokens == terms;
    }

    /** Removes the document stored under `docId` and its postings; reports
        whether there was one. */
    method DeleteDocument(docId: DocId) returns (deleted: bool)
      requires Valid()
      modifies this
      ensures Valid()
      ensures deleted <==> docId in old(documents)
      ensures documents == old(documents) - {docId}
      ensures invertedIndex == WithoutDocument(old(documents), old(invertedIndex), docId)
      ensures nextDocId == old(nextDocId)
      ensures forall t :: docId !in Postings(invertedIndex, t)
    {
      if docId !in documents {
        assert documents - {docId} == documents;
        return false;
      }
      var text := documents[docId];
      documents := documents - {docId};
      var tokens := TermSet(text);
      RemovePostingsFrom(docId, tokens);
      DeleteKeepsConsistent(old(documents), old(invertedIndex), docId);
      deleted := true;
    }

    /** The loop of `delete_document`: every term the index has loses `id`,
        and a term whose posting set becomes empty is dropped. */
    method RemovePostingsFrom(id: DocId, terms: set<Term>)
      modifies this
      ensures invertedIndex == RemovePostings(old(invertedIndex), id, terms)
      ensures documents == old(documents) && nextDocId == old(nextDocId)
    {
      ghost var start := invertedIndex;
      var tokens := terms;
      while tokens != {}
        invariant tokens <= terms
        invariant invertedIndex == RemovePostings(start, id, terms - tokens)
        invariant documents == old(documents) && nextDocId == old(nextDocId)
        decreases tokens
      {
        HasMember(tokens);
        var token :| token in tokens;
        RemovePostingsStep(start, id, terms - tokens, token);
        if token in invertedIndex {
          invertedIndex := invertedIndex[token := invertedIndex[token] - {id}];
          if invertedIndex[token] == {} {
            invertedIndex := invertedIndex - {token};
          }
        }
        assert terms - (tokens - {token}) == (terms - tokens) + {token};
        tokens := tokens - {token};
      }
      assert terms - tokens == terms;
    }

    /** The documents answering `query`, by identifier. */
    method Search(query: string) returns (found: Store)
      ensures found == SearchResult(documents, invertedIndex, query)
      ensures forall d :: d in found ==> d in documents && found[d] == documents[d]
      ensures Valid() ==>
        forall d :: d in found <==> d in documents && Satisfies(documents[d], ParseQuery(query))
    {
      var parsed := ParseQuery(query);
      var terms := parsed.terms;
      if terms == [] {
        found := map[];
        if Valid() {
          SearchMeaning(documents, invertedIndex, query);
        }
        return;
      }
      var resultSet;
      if parsed.op == And {
        resultSet := IntersectPostings(terms);
      } else {
        resultSet := UnitePostings(terms);
      }
      found := map d | d in resultSet && d in documents :: documents[d];
      if Valid() {
        SearchMeaning(documents, invertedIndex, query);
      }
    }

    /** The AND loop of `search`: the postings of the first term, narrowed by
        those of each later term. */
    method IntersectPostings(terms: seq<Term>) returns (resultSet: set<DocId>)
      requires |terms| > 0
      ensures resultSet == Intersection(invertedIndex, terms)
    {
      resultSet := Postings(invertedIndex, terms[0]);
      for i := 1 to |terms|
        invariant resultSet == Intersection(invertedIndex, terms[..i])
      {
        var docIds := Postings(invertedIndex, terms[i]);
        resultSet := resultSet * docIds;
        assert terms[..i + 1][..i] == terms[..i];
      }
      assert terms[..|terms|] == terms;
    }

    /** The OR loop of `search`: the postings of the first term, widened by
        those of each later term. */
    method UnitePostings(terms: seq<Term>) returns (resultSet: set<DocId>)
      requires |terms| > 0
      ensures resultSet == Union(invertedIndex, terms)
    {
      resultSet := Postings(invertedIndex, terms[0]);
      for i := 1 to |terms|
        invariant resultSet == Union(invertedIndex, terms[..i])
      {
        var docIds := Postings(invertedIndex, terms[i]);
        resultSet := resultSet + docIds;
        assert terms[..i + 1][..i] == terms[..i];
      }
      assert terms[..|terms|] == terms;
    }
  }
}
