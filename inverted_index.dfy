/**
  The engine's two maps as values: the document store (id -> text) and the
  inverted index (term -> posting set), the consistency invariant that ties
  them together, and the effect of adding and deleting one document on the
  index.
*/
module InvertedIndex {
  import opened Tokenizer

  type DocId = int
  type Term = string

  /** `documents: Dict[int, str]` */
  type Store = map<DocId, string>

  /** `inverted_index: Dict[str, Set[int]]` */
  type Index = map<Term, set<DocId>>

  /** `inverted_index.get(term, set())` */
  function Postings(index: Index, term: Term): (ids: set<DocId>)
    ensures term in index ==> ids == index[term]
    ensures term !in index ==> ids == {}
  {
    if term in index then index[term] else {}
  }

  /** `set(self._tokenize(text))`: the unique terms of a text. */
  function TermSet(text: string): (terms: set<Term>)
    ensures forall t :: t in terms <==> t in Tokenize(text)
    ensures forall t :: t in terms ==> t != [] && IsLetters(t)
  {
    set t | t in Tokenize(text)
  }

  /** The index describes the store exactly: a document is in the posting
      set of a term iff that term is one of its tokens (which also puts
      every posted id in the store), and no posting set is empty. */
  ghost predicate Consistent(docs: Store, index: Index) {
    && (forall t, d :: d in Postings(index, t) <==> d in docs && t in Tokenize(docs[d]))
    && (forall t :: t in index ==> index[t] != {})
  }

  /** Every term of every stored document. */
  function AllTerms(docs: Store): set<Term> {
    set d, t | d in docs && t in Tokenize(docs[d]) :: t
  }

  /** The index built from scratch for a store. */
  function IndexOf(docs: Store): Index {
    map t | t in AllTerms(docs) :: set d | d in docs && t in Tokenize(docs[d])
  }

  lemma HasMember<T>(ids: set<T>)
    ensures ids != {} ==> exists d :: d in ids
  {
    if forall d :: d !in ids {
      assert ids == {};
    }
  }

  /** Some element of a non-empty set. */
  lemma Pick<T>(s: set<T>) returns (x: T)
    requires s != {}
    ensures x in s
  {
    HasMember(s);
    x :| x in s;
  }

  lemma IndexedTermIsUsed(docs: Store, index: Index, t: Term)
    requires Consistent(docs, index) && t in index
    ensures t in AllTerms(docs)
  {
    var d := Pick(index[t]);
    assert d in Postings(index, t);
    assert d in docs && t in Tokenize(docs[d]);
  }

  /** A store has exactly one consistent index: the one built from scratch. */
  lemma ConsistentIsIndexOf(docs: Store, index: Index)
    ensures Consistent(docs, index) <==> index == IndexOf(docs)
  {
    var built := IndexOf(docs);
    assert Consistent(docs, built) by {
      forall t | t in built ensures built[t] != {} {
        var d, u :| d in docs && u in Tokenize(docs[d]) && u == t;
        assert d in built[t];
      }
    }
    if Consistent(docs, index) {
      forall t ensures t in index <==> t in built {
        if t in index {
          IndexedTermIsUsed(docs, index, t);
        }
        if t in built {
          var d :| d in docs && t in Tokenize(docs[d]);
          assert d in Postings(index, t);
        }
      }
      forall t | t in index ensures index[t] == built[t] {
        forall d ensures d in index[t] <==> d in built[t] {
          assert d in index[t] <==> d in Postings(index, t);
        }
      }
    }
  }

  /** The index after `add_document` inserts `id` into the posting set of
      every term in `terms`, creating the sets that are missing. */
  function AddPostings(index: Index, id: DocId, terms: set<Term>): (after: Index)
    ensures forall t :: t in terms ==> id in Postings(after, t)
    ensures forall t, d :: d != id ==> (d in Postings(after, t) <==> d in Postings(index, t))
    ensures forall t :: t !in terms ==> Postings(after, t) == Postings(index, t)
  {
    map t | t in index.Keys + terms :: Postings(index, t) + (if t in terms then {id} else {})
  }

  /** The index after `delete_document` discards `id` from the posting set of
      every term in `terms` that the index has, and drops the sets this
      empties. */
  function RemovePostings(index: Index, id: DocId, terms: set<Term>): (after: Index)
    ensures forall t :: t in terms ==> id !in Postings(after, t)
    ensures forall t, d :: d != id ==> (d in Postings(after, t) <==> d in Postings(index, t))
    ensures forall t :: t !in terms ==> Postings(after, t) == Postings(index, t)
    ensures (forall t :: t in index ==> index[t] != {}) ==> forall t :: t in after ==> after[t] != {}
  {
    map t | t in index && (t !in terms || index[t] - {id} != {}) ::
      if t in terms then index[t] - {id} else index[t]
  }

  /** In a consistent index the terms listing a stored document are the
      tokens of its text. */
  lemma DocumentPostings(docs: Store, index: Index, id: DocId)
    requires Consistent(docs, index) && id in docs
    ensures forall t :: id in Postings(index, t) <==> t in Tokenize(docs[id])
  {
  }

  lemma AddPostingsNothing(index: Index, id: DocId)
    ensures AddPostings(index, id, {}) == index
  {
    var after := AddPostings(index, id, {});
    forall t | t in index ensures after[t] == index[t] {}
  }

  /** One pass of the `add_document` loop: the posting set of `t`, created
      empty when missing, gains `id`. */
  lemma AddPostingsStep(index: Index, id: DocId, done: set<Term>, t: Term)
    requires t !in done
    ensures var before := AddPostings(index, id, done);
      var created := if t in before then before else before[t := {}];
      AddPostings(index, id, done + {t}) == created[t := created[t] + {id}]
  {
    var before := AddPostings(index, id, done);
    var after := AddPostings(index, id, done + {t});
    var expected := before[t := Postings(before, t) + {id}];
    assert after.Keys == expected.Keys;
    forall u | u in after ensures after[u] == expected[u] {
      if u != t {
        assert Postings(before, u) == Postings(index, u) + (if u in done then {id} else {});
      }
    }
  }

  /** One pass of the `delete_document` loop: `id` is discarded from the
      posting set of `t`, if there is one, and an emptied set is dropped. */
  lemma RemovePostingsStep(index: Index, id: DocId, done: set<Term>, t: Term)
    requires t !in done
    ensures var before := RemovePostings(index, id, done);
      RemovePostings(index, id, done + {t}) ==
        if t !in before then before
        else if before[t] - {id} == {} then before - {t}
        else before[t := before[t] - {id}]
  {
    var before := RemovePostings(index, id, done);
    var after := RemovePostings(index, id, done + {t});
    assert t in before <==> t in index;
  }

  /** The index once `id` has been deleted from the store `docs`: the terms
      re-derived from its stored text lose `id`; an absent id changes nothing. */
  function WithoutDocument(docs: Store, index: Index, id: DocId): (after: Index)
    ensures id in docs ==> forall t :: t in Tokenize(docs[id]) ==> id !in Postings(after, t)
    ensures forall t, d :: d != id ==> (d in Postings(after, t) <==> d in Postings(index, t))
  {
    if id in docs then RemovePostings(index, id, TermSet(docs[id])) else index
  }

  /** The index once `text` has been stored under the fresh id `id`. */
  function WithDocument(index: Index, id: DocId, text: string): (after: Index)
    ensures forall t, d :: d in Postings(after, t) <==> d in Postings(index, t) || (d == id && t in Tokenize(text))
  {
    AddPostings(index, id, TermSet(text))
  }

  /** What `delete_document` relies on: in a consistent index, the terms of
      the stored text are exactly the terms whose posting set holds `id`, so
      re-tokenizing removes `id` from every posting set. */
  lemma RetokenizingFindsAllPostings(docs: Store, index: Index, id: DocId)
    requires Consistent(docs, index)
    ensures WithoutDocument(docs, index, id) == RemovePostings(index, id, index.Keys)
  {
    var all := RemovePostings(index, id, index.Keys);
    var without := WithoutDocument(docs, index, id);
    if id in docs {
      var terms := TermSet(docs[id]);
      forall t ensures t in without <==> t in all {
        if t in index && t !in terms {
          assert id !in Postings(index, t);
        }
      }
      forall t | t in without ensures without[t] == all[t] {
        if t !in terms {
          assert id !in Postings(index, t);
        }
      }
    } else {
      forall t | t in index ensures t in all && all[t] == index[t] {
        assert id !in Postings(index, t);
        assert index[t] - {id} == index[t];
      }
    }
  }

  /** Deleting a document keeps the store and index consistent. */
  lemma DeleteKeepsConsistent(docs: Store, index: Index, id: DocId)
    requires Consistent(docs, index)
    ensures Consistent(docs - {id}, WithoutDocument(docs, index, id))
  {
    RetokenizingFindsAllPostings(docs, index, id);
    var after := RemovePostings(index, id, index.Keys);
    forall t, d ensures d in Postings(after, t) <==> d in docs - {id} && t in Tokenize((docs - {id})[d]) {
      assert d in Postings(after, t) <==> d in Postings(index, t) && d != id;
    }
  }

  /** Adding a document under an id the store does not have keeps the store
      and index consistent. */
  lemma AddKeepsConsistent(docs: Store, index: Index, id: DocId, text: string)
    requires Consistent(docs, index) && id !in docs
    ensures Consistent(docs[id := text], WithDocument(index, id, text))
  {
    var after := WithDocument(index, id, text);
    var docs' := docs[id := text];
    forall t, d ensures d in Postings(after, t) <==> d in docs' && t in Tokenize(docs'[d]) {
      assert d in Postings(after, t) <==> d in Postings(index, t) || (d == id && t in TermSet(text));
    }
    forall t | t in after ensures after[t] != {} {
      if t !in TermSet(text) {
        assert after[t] == index[t];
      }
    }
  }

  /** `add_document` with an id already in the store deletes first: the
      result is consistent with the store where the text is replaced. */
  lemma ReplaceKeepsConsistent(docs: Store, index: Index, id: DocId, text: string)
    requires Consistent(docs, index)
    ensures Consistent(docs[id := text], WithDocument(WithoutDocument(docs, index, id), id, text))
  {
    DeleteKeepsConsistent(docs, index, id);
    AddKeepsConsistent(docs - {id}, WithoutDocument(docs, index, id), id, text);
    assert (docs - {id})[id := text] == docs[id := text];
  }

  /** Deleting a document just added restores the index it was added to. */
  lemma DeleteUndoesAdd(docs: Store, index: Index, id: DocId, text: string)
    requires Consistent(docs, index) && id !in docs
    ensures WithoutDocument(docs[id := text], WithDocument(index, id, text), id) == index
  {
    AddKeepsConsistent(docs, index, id, text);
    DeleteKeepsConsistent(docs[id := text], WithDocument(index, id, text), id);
    assert docs[id := text] - {id} == docs;
    ConsistentIsIndexOf(docs, index);
    ConsistentIsIndexOf(docs, WithoutDocument(docs[id := text], WithDocument(index, id, text), id));
  }

  /** Re-adding under the same id leaves no trace of the earlier text: the
      index is the one a single add of the newer text gives. */
  lemma ReAddForgetsEarlierText(docs: Store, index: Index, id: DocId, first: string, second: string)
    requires Consistent(docs, index)
    ensures var docs1 := docs[id := first];
            var index1 := WithDocument(WithoutDocument(docs, index, id), id, first);
            WithDocument(WithoutDocument(docs1, index1, id), id, second)
              == WithDocument(WithoutDocument(docs, index, id), id, second)
  {
    var docs1 := docs[id := first];
    var index1 := WithDocument(WithoutDocument(docs, index, id), id, first);
    ReplaceKeepsConsistent(docs, index, id, first);
    ReplaceKeepsConsistent(docs1, index1, id, second);
    ReplaceKeepsConsistent(docs, index, id, second);
    assert docs1[id := second] == docs[id := second];
    ConsistentIsIndexOf(docs[id := second], WithDocument(WithoutDocument(docs1, index1, id), id, second));
    ConsistentIsIndexOf(docs[id := second], WithDocument(WithoutDocument(docs, index, id), id, second));
  }
}
