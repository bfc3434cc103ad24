# SimpleSearchEngine in Dafny

A verified model of `SimpleSearchEngine` in `search_engine.py`. This is a
small in-memory search engine. It keeps a store from document identifiers to
texts, and an inverted index from each word to the identifiers of the
documents that contain it. It answers keyword queries that are combined with
AND or OR.

The model follows the program's structure:

| file | models |
|---|---|
| `wrappers.dfy` | `Option`: the optional identifier passed to `add_document`, and the result of a substring search |
| `text.dfy` | The ASCII string operations the engine relies on: `str.lower`/`str.upper`, `str.isspace`, `str.strip`, the `in` substring test, `str.split(sep)`, and its inverse `sep.join` |
| `tokenizer.dfy` | `_tokenize`: lowercase the text, delete every character other than `a`–`z` or whitespace, and split on whitespace runs |
| `inverted_index.dfy` | The index invariant, and the two posting-set updates that `add_document` and `delete_document` perform, as functions on maps |
| `query.dfy` | How `search` parses a query (trim, uppercase, operator test, split or tokenize), the AND/OR folds over posting sets, and the projection onto the store |
| `search_engine.dfy` | The class `SearchEngine`, with the fields `documents`, `invertedIndex` and `nextDocId`, updated in place by `AddDocument` and `DeleteDocument` with the source's loops; `Search` reads them and changes nothing |
| `scenarios.dfy` | Concrete scenarios, proved by the verifier: the tokenizer's examples, the checks of `search_engine_test.py` and the identifier reuse described below |

The invariant of the class is `InvertedIndex.Consistent`. Under it, a
document identifier is in the posting set of a term exactly when the document
is stored and the term is one of the tokens of its text. It also requires
that no posting set is empty. The constructor establishes the invariant, and
`AddDocument` and `DeleteDocument` keep it. Their loop helpers
`AddPostingsTo` and `RemovePostingsFrom` run while it is temporarily
broken, so they neither require nor ensure it; each is proved equal to a
posting-update function instead. `ConsistentIsIndexOf` shows that it pins the index
down completely: the only consistent index is the one built from scratch.

`SearchMeaning` states what `search` returns. It returns exactly the stored
documents that hold every query term as a token (AND), or at least one
(OR). Each document comes with its stored text. A query with no terms
returns nothing.

### Identifier reuse and the split input

- An automatically assigned identifier can equal one given explicitly. The
  counter `next_doc_id` moves only when no identifier is given (lines
  34-36). So adding under `0` and then without an identifier uses `0`
  twice, and the second add replaces the first (lines 38-41).
  `Engine.SearchEngine.AddDocument` states this counter behaviour exactly.
- The explicit operators split the stripped, uppercased query, because
  line 80 reassigns `query`. `Query.ParseQuery` splits the normalized
  query.

## Model

| member | source | states |
|---|---|---|
| Text.ToLower | search_engine.py:25 | Lowercasing sends each capital `A`-`Z` to the lowercase letter at the same place in the alphabet (`A` to `a`), leaves no uppercase letter, keeps whitespace, and fixes every character that is not an uppercase letter |
| Text.Lower | search_engine.py:25 | `str.lower()`: the same length, each character lowercased by `Text.ToLower`, so no uppercase letter remains |
| Text.Upper | search_engine.py:80 | `str.upper()`: the same length, each character uppercased by `Text.ToUpper`, and no lowercase letter remains |
| Text.Filter | search_engine.py:25 | The deletion done by `re.sub`: the result is no longer than the input and every character left satisfies the test. With `Text.FilterDrops`, `Text.FilterKeepsAll` and `Text.FilterConcat` this fixes the result on every input |
| Text.FilterDrops | search_engine.py:25 | A character that fails the test is deleted, which is the `re.sub` deletion of a character outside `[a-z\s]` |
| Text.FilterKeepsAll | search_engine.py:25 | A text whose every character passes the test is left unchanged |
| Text.FilterConcat | search_engine.py:25 | Deleting from two texts joined is deleting from each and joining the results, so the kept characters stay in order |
| Text.ToUpper | search_engine.py:80 | The mirror of `ToLower`: each letter `a`-`z` goes to the capital at the same place in the alphabet, no lowercase letter remains, and every other character is kept |
| Text.StripBounds | search_engine.py:80 | The stripped query is a slice of the query. Everything cut off on either side is whitespace, and the slice neither starts nor ends with whitespace; an empty result means the query was all whitespace |
| Text.Strip | search_engine.py:80 | `str.strip()`: the result is no longer than the query, and is empty or neither starts nor ends with whitespace (the full characterization is `Text.StripBounds`) |
| Text.Find | search_engine.py:82 | The position found is the first occurrence of the separator; when nothing is found the separator occurs nowhere |
| Text.FindFindsContained | search_engine.py:82 | The search finds something exactly when the separator occurs (the `" AND " in query` test) |
| Text.SplitOnPieces | search_engine.py:84 | Splitting yields one piece exactly when the separator is absent, and no piece contains the separator |
| Text.JoinSplitOn | search_engine.py:84 | Joining the pieces with the separator gives back the split string |
| Text.SplitOnOnce | search_engine.py:84 | Splitting `a + sep + b` gives exactly `a` and `b` when `a` lacks the separator's first character and `b` does not contain the separator |
| Text.SplitOn | search_engine.py:84 | `str.split(sep)` always yields at least one piece; which pieces is stated by `Text.SplitOnLeftmost` with `Text.JoinSplitOn` |
| Text.SplitOnLeftmost | search_engine.py:84 | The cuts are the leftmost occurrences, taken from left to right: each piece ends where the separator first occurs after the piece's start, and after the start of the last piece it does not occur. With `Text.JoinSplitOn` this fixes the pieces, also where occurrences of the separator overlap |
| Tokenizer.SplitWhitespace | search_engine.py:26 | `str.split()`: every word is a non-empty run without whitespace. `Tokenizer.SplitWhitespaceAt` says every whitespace character cuts, `Tokenizer.SplitUnbroken` that a string without whitespace is one word, or none when empty; together these fix the words of every string |
| Tokenizer.SplitWhitespaceAt | search_engine.py:26 | Any whitespace character (space, tab, newline and the rest of the whitespace set) separates: the words of `a + [c] + b` are the words of `a` followed by those of `b` |
| Tokenizer.Tokenize | search_engine.py:20-26 | Every token is a non-empty string of the letters `a`-`z` |
| Tokenizer.TokensSpellLetters | search_engine.py:24-26 | The tokens, concatenated, are exactly the letters of the text, lowercased and in order: nothing else survives and no letter is lost |
| Tokenizer.SplitWhitespaceKeepsWords | search_engine.py:26 | Splitting on whitespace loses exactly the whitespace characters |
| Tokenizer.SplitWhitespaceJoin | search_engine.py:26 | Splitting words joined by single spaces gives back the words |
| Tokenizer.TokenizeAt | search_engine.py:20-26 | The tokens of two texts joined by any whitespace character are the tokens of the first followed by those of the second |
| Tokenizer.UnbrokenWord | search_engine.py:20-26 | A text without whitespace yields one token, its letters lowercased, or no token when it has no letter |
| Tokenizer.TokenizeNoLetters | search_engine.py:20-26 | A text without letters yields no token |
| Tokenizer.TokenizeNormalizedQuery | search_engine.py:80-91 | Trimming and uppercasing the query before tokenizing it changes no token |
| InvertedIndex.Postings | search_engine.py:98-110 | `inverted_index.get(term, set())`: the term's posting set, or the empty set for a term that is not indexed |
| InvertedIndex.TermSet | search_engine.py:45 | `set(self._tokenize(text))`: exactly the tokens of the text, each a non-empty run of the letters `a`-`z` |
| InvertedIndex.WithDocument | search_engine.py:43-50 | After adding `text` under a fresh identifier, a term lists an identifier exactly when it listed it before, or the identifier is the new one and the term is a token of `text` |
| InvertedIndex.ConsistentIsIndexOf | search_engine.py:14-16 | An index is consistent with a store exactly when it equals the index built from scratch over all stored texts |
| InvertedIndex.DocumentPostings | search_engine.py:45-50 | In a consistent index, the terms listing a stored document are exactly the tokens of its text |
| InvertedIndex.AddPostings | search_engine.py:47-50 | Every given term lists the identifier afterwards; the posting sets of other terms, and every other identifier, are unchanged |
| InvertedIndex.RemovePostings | search_engine.py:65-70 | No given term lists the identifier afterwards; other terms and identifiers are unchanged, and no empty posting set is left behind when there was none before |
| InvertedIndex.WithoutDocument | search_engine.py:59-70 | After deleting a stored document, none of its tokens lists it; every other identifier keeps its postings |
| InvertedIndex.AddPostingsStep | search_engine.py:47-50 | One pass of the add loop creates a missing posting set and puts the identifier into it, which is the posting update for one more term |
| InvertedIndex.RemovePostingsStep | search_engine.py:65-70 | One pass of the delete loop discards the identifier from the term's set and drops a set it empties, which is the posting update for one more term |
| InvertedIndex.AddKeepsConsistent | search_engine.py:43-50 | Adding a new document and its token postings keeps the index consistent |
| InvertedIndex.RetokenizingFindsAllPostings | search_engine.py:62-70 | Re-tokenizing the stored text reaches every posting set that lists the document, so discarding from those sets removes the document from the whole index |
| InvertedIndex.DeleteKeepsConsistent | search_engine.py:59-70 | Deleting a document and its postings keeps the index consistent |
| InvertedIndex.ReplaceKeepsConsistent | search_engine.py:38-50 | Re-adding under a stored identifier (delete, then add) keeps the index consistent |
| InvertedIndex.DeleteUndoesAdd | search_engine.py:43-70 | Deleting a document just added restores the previous index |
| InvertedIndex.ReAddForgetsEarlierText | search_engine.py:38-50 | After a replacement, the index holds no trace of the earlier text under that identifier |
| Query.Normalize | search_engine.py:80 | `query.strip().upper()`: no longer than the query, no lowercase letter, and neither starting nor ending with whitespace |
| Query.ParseNormalized | search_engine.py:82-91 | Every term is free of uppercase letters; OR is chosen only when the query holds `" OR "` and not `" AND "`; an explicit operator always gives at least two terms |
| Query.Matches | search_engine.py:93-111 | No terms select nothing; with AND the selection lies within every term's posting set, with OR it contains each of them (both directions: `Query.MatchesContains`) |
| Query.MatchesContains | search_engine.py:93-111 | A parsed query selects an identifier exactly when it has terms and every term's posting set lists it (AND) or some term's does (OR) |
| Query.Found | search_engine.py:113-118 | The result holds exactly the selected identifiers that are stored, each mapped to its stored text |
| Query.SearchResult | search_engine.py:75-120 | Every returned entry is a stored document with its stored text, and a query with no terms returns nothing (the full meaning is `Query.SearchMeaning`) |
| Query.Intersection | search_engine.py:96-106 | The AND fold lies within every term's posting set (both directions: `Query.IntersectionContains`) |
| Query.Union | search_engine.py:107-111 | The OR fold contains every term's posting set (both directions: `Query.UnionContains`) |
| Query.IntersectionContains | search_engine.py:96-106 | An identifier survives the AND fold exactly when every term's posting set lists it |
| Query.UnionContains | search_engine.py:107-111 | An identifier is in the OR fold exactly when some term's posting set lists it |
| Query.AndWithinOr | search_engine.py:96-111 | Combining the same terms with AND never selects more than combining them with OR |
| Query.SearchMeaning | search_engine.py:75-120 | On a consistent index, the result holds exactly the stored documents whose tokens include all terms (AND) or some term (OR), each with its stored text; no terms give nothing |
| Query.NonWordTermFindsNothing | search_engine.py:82-87 | An explicit term that is not a run of lowercase letters, such as a term with punctuation or a multi-word segment, matches no document |
| Query.ImplicitQuery | search_engine.py:88-91 | Without `" AND "` or `" OR "`, the query is tokenized like a document and its tokens are combined with AND |
| Query.ParseQuery | search_engine.py:80-91 | Every term is free of uppercase letters, so it can match the lowercase index; OR is chosen only when the normalized query holds `" OR "` and not `" AND "` |
| Query.SegmentTerms | search_engine.py:84-87 | One term per piece of the split, each free of uppercase letters |
| Query.ExplicitQuery | search_engine.py:80-87 | With an explicit operator, AND wins over OR. The normalized query splits into at least two pieces that join back to it. Each term is its piece trimmed and lowercased: it has no uppercase letter, and uppercasing it gives back the trimmed piece. No piece contains the separator |
| Query.CaseInsensitiveParse | search_engine.py:80-91 | Lowercasing or uppercasing the query does not change its parse |
| Query.CaseInsensitiveSearch | search_engine.py:75-120 | Lowercasing or uppercasing the query does not change the result |
| Query.LetterlessQueryFindsNothing | search_engine.py:80-94 | A query without letters, such as an empty or blank one, has no terms and finds nothing |
| Query.SingleTokenFindsDocument | search_engine.py:75-120 | Searching for any single token of a stored document finds that document with its text |
| Engine.SearchEngine.constructor | search_engine.py:12-18 | The engine starts with no documents, an empty index and the counter at zero, and the invariant holds |
| Engine.SearchEngine.AddDocument | search_engine.py:28-53 | The counter is used and advanced only when no identifier is given. The text is stored under the identifier, replacing any earlier one. The index is the old one with the earlier text's postings removed and the new tokens' postings added. The identifier is listed under exactly the tokens of the new text, and the invariant is kept |
| Engine.SearchEngine.AddPostingsTo | search_engine.py:45-50 | The loop adds the identifier to the posting set of every token, creating missing sets, and changes nothing else |
| Engine.SearchEngine.DeleteDocument | search_engine.py:55-73 | Reports whether the identifier was stored. Removes it from the store and from every posting set. Drops emptied sets and keeps the counter and the invariant |
| Engine.SearchEngine.RemovePostingsFrom | search_engine.py:63-70 | The loop discards the identifier from the posting set of every token the index has, drops emptied sets, and changes nothing else |
| Engine.SearchEngine.Search | search_engine.py:75-120 | Returns the query's result over the current store and index. Every entry is a stored document with its text, and on a valid engine the entries are exactly the documents answering the parsed query |
| Engine.SearchEngine.IntersectPostings | search_engine.py:96-106 | The AND loop computes the left fold of intersections over the terms' posting sets |
| Engine.SearchEngine.UnitePostings | search_engine.py:96-111 | The OR loop computes the left fold of unions over the terms' posting sets |
| Scenarios.TokenizeIpso | search_engine.py:25-26 | `"IPSO-3"` yields the one token `ipso`: case is folded and the digit and hyphen are deleted, not turned into a separator |
| Scenarios.TokenizeDont | search_engine.py:25-26 | `"don't"` yields the one token `dont` |
| Scenarios.TokenizeHelloWorld | search_engine_test.py:8 | `"Hello World"` yields the tokens `hello` and `world` |
| Scenarios.SegmentPair | search_engine.py:82-87 | Two words around one separator give the two words, lowercased, as the explicit terms |
| Scenarios.ParseDogAndCat | search_engine_test.py:26 | `"Dog AND Cat"` parses as an AND query for `dog` and `cat` |
| Scenarios.ParseDogOrCat | search_engine_test.py:43 | `"Dog OR Cat"` parses as an OR query for `dog` and `cat` |
| Scenarios.AddDocumentUpdatesIndex | search_engine_test.py:5-16 | Adding `"Hello World"` under 5 returns 5, and the index lists 5 under `hello` |
| Scenarios.OrSearchLogic | search_engine_test.py:35-50 | With `"Dog"`, `"Cat"` and `"Bird"` stored under 1, 2 and 3, `"Dog OR Cat"` finds exactly 1 and 2 |
| Scenarios.AutomaticIdReusesExplicitId | search_engine.py:34-41 | Adding under the explicit identifier 0 and then without an identifier uses 0 both times, and the second text replaces the first |

## Left out

- The `print` calls in `add_document` and `delete_document` (lines 39-40, 52 and 72) are output only and change no state.
- `display_index` and `display_documents` (lines 122-134) only print. The example script under `if __name__ == "__main__":` (lines 137-183) is a demonstration driver.
- Text.ToLower: only the ASCII letters `A`-`Z` change case. Python's `str.lower`, `str.upper` and `str.isspace` also act on non-ASCII characters. Whitespace is the ASCII part of `str.isspace`: space, `\t` to `\r`, and `\x1c` to `\x1f`. The same set stands for the regular expression's `\s`, `str.split()` and `str.strip()`.
- Dictionaries and sets are modelled as Dafny maps and sets. The iteration order of Python's dictionaries and sets is therefore not modelled. This order decides the key order of the returned dictionary and the order in which the loops visit tokens; neither changes any result.
- The first posting set is copied in `search` (line 99) so that the AND and OR loops do not alias the index. In the model, sets are values, so there is no aliasing to capture.
- Python's integers and strings are unbounded, as Dafny's are, so no overflow is modelled.
- Concrete texts longer than a word or two are not evaluated. This covers the example sentences of the demonstration script, and the two sentences of `test_and_search_logic` (search_engine_test.py:19-32). Only the parse of that test's query is proved concretely (`Scenarios.ParseDogAndCat`). `Query.SearchMeaning` states the result for every text.
