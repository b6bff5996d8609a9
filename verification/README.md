# EU law question answering: the passage index and its lookup

The application answers questions about EU laws by retrieving passages. At
startup it flattens a corpus of laws into a flat list of passages. Each law
has articles and each article has paragraphs. The flattening produces two
lists that are joined only by position: the passage texts, which are embedded
and added row by row to a vector index, and one metadata record per passage
(text, citation, URL of the law). At query time the index answers with row
numbers, and each row number is looked up in the metadata list.

This project models that core in Dafny:

- `corpus.dfy` (module `Corpus`): the law, article, paragraph and metadata
  records; `Flatten`, the depth-first flattening as a recursive function;
  and lemmas about it. They cover alignment of the two lists, the passage
  count, decomposition over concatenation, empty laws and articles, the row
  of each paragraph, the origin of each row, and document order.
- `flattener.dfy` (module `Flattener`): `FlattenLaws`, the flattening as the
  application runs it. Two lists start empty and grow inside three nested
  loops. It is proved equal to `Flatten`.
- `query.dfy` (module `Query`): resolving the search's row numbers to
  metadata records. It has the loop as written, with Python's list subscript,
  and a corrected lookup that drops the index's -1 padding and reports any
  other row number naming no passage. It also
  has the end-to-end positional invariant.

Identifiers of articles and paragraphs are modelled as the strings that
Python's f-string prints for them. `if query:` (app.py:41) skips only the
empty string; a query made of whitespace is searched, and `Query.Answer`
does the same.

## Model

| member | source | states |
|---|---|---|
| `Corpus.FlattenParagraphs` | app.py:24-27 | the passages of one article: aligned lists with exactly one entry per paragraph |
| `Corpus.FlattenArticles` | app.py:23-27 | the passages of one law: aligned lists whose length is the number of paragraphs over all its articles |
| `Corpus.Flatten` | app.py:19-28 | texts and metadata have equal length, entry i of each has the same text, and their length is the number of paragraphs in the whole corpus (zero for an empty corpus) |
| `Corpus.FlattenConcat` | app.py:22-28 | flattening a concatenation of two law lists gives the concatenation of the two flattenings |
| `Corpus.FlattenParagraphsConcat` | app.py:24-27 | the same decomposition for the paragraphs of one article |
| `Corpus.FlattenArticlesConcat` | app.py:23-27 | the same decomposition for the articles of one law |
| `Corpus.LawContributesNothing` | app.py:22-24 | appending a law leaves the flattening unchanged if and only if none of its articles has a paragraph (a law without articles adds nothing and raises no error) |
| `Corpus.AllEmptyIffNoParagraphs` | app.py:23-24 | a list of articles has no paragraphs at all if and only if each of its articles has an empty paragraph list |
| `Corpus.ParagraphLands` | app.py:24-27 | paragraph p of an article is entry p of that article's flattening, with the paragraph's citation and the law's URL |
| `Corpus.ArticleParagraphLands` | app.py:23-27 | paragraph p of article a lands after all paragraphs of the earlier articles of the law |
| `Corpus.EveryParagraphLands` | app.py:22-27 | every paragraph of the corpus appears at its depth-first row with its text, the reference "title, Article n, Paragraph m" of its own law, article and paragraph, and its law's URL |
| `Corpus.LocateInArticles` | app.py:23-24 | every row of a law's flattening comes from a valid article and paragraph whose depth-first row it is |
| `Corpus.Locate` | app.py:22-24 | every row of the corpus flattening comes from a valid law, article and paragraph whose depth-first row it is (the inverse of `Row`) |
| `Corpus.EveryRowHasOrigin` | app.py:25-27 | every metadata record is the record of some paragraph of the corpus, at that paragraph's row: nothing is invented |
| `Corpus.RowsFollowDocumentOrder` | app.py:22-28 | a paragraph earlier in law, article, paragraph order gets a strictly earlier row: no reordering, and no two paragraphs share a row |
| `Corpus.ParagraphStep` | app.py:24-27 | one more paragraph extends an article's flattening by exactly its text and its record |
| `Corpus.ArticleStep` | app.py:23-27 | one more article extends a law's flattening by exactly that article's passages |
| `Corpus.LawStep` | app.py:22-27 | one more law extends the corpus flattening by exactly that law's passages |
| `Flattener.FlattenLaws` | app.py:19-28 | the two lists built by appending inside three nested loops are exactly `Flatten(laws)`: equal length, the paragraph count, and entry-by-entry aligned texts |
| `Query.ResolveAsWritten` | app.py:45-46 | the lookup loop with Python's subscript succeeds if and only if every row number lies in -len .. len-1; it then yields one record per row number, `metadata[i]` for i >= 0 and `metadata[len + i]` for a negative i, counting from the end |
| `Query.PaddingRepeatsLastPassage` | app.py:43-46 | with one passage and search rows [0, -1, -1], the loop as written shows that passage three times, while `Resolve` shows it once |
| `Query.RealRows` | app.py:43-45 | the row numbers of a search answer without the -1 padding: no longer than the answer, and holding exactly its non-padding entries |
| `Query.RealRowsOfPaddedAnswer` | app.py:43-45 | for an answer made of real hits followed by padding, the non-padding rows are exactly those hits, in order |
| `Query.Resolve` | app.py:45-46 | succeeds if and only if every row number is padding or names a passage; it then returns `metadata[row]` for each non-padding row, in the search's order; otherwise it reports the first position whose row number is neither, and that row number |
| `Query.PaddedAnswerShowsItsHits` | app.py:43-46 | a search answer of valid hits followed by padding resolves to exactly one record per hit, `metadata[hit]`, in order |
| `Query.AsWrittenAgreesOnRows` | app.py:45-46 | when every row number names a passage, the loop as written and `Resolve` give the same records |
| `Query.ResolveSnoc` | app.py:45-46 | one more row number extends a successful lookup by nothing (padding), by its record (a passage), or fails at its position (anything else) |
| `Query.ResolveErrorStays` | app.py:45-46 | once a lookup has failed, row numbers after the failing one do not change the error |
| `Query.Lookup` | app.py:45-50 | the loop over the search's row numbers skips padding and returns exactly `Resolve`, stopping at the first row number that is neither padding nor a passage |
| `Query.Answer` | app.py:41-46 | an empty query shows nothing; any other query, whitespace included, shows the resolved records of the search's row numbers |
| `Query.HitsCiteTheirPassages` | app.py:30-46 | for row numbers from an index built over the flattened texts (each a row or -1 padding), lookup always succeeds and shows one record per non-padding row, in order; each carries the text embedded at its row and the record of the paragraph that text came from |

## Left out

- Loading the corpus from JSON (app.py:15-16) is I/O. The law list is the model's input.
- A corpus record with a missing key would raise KeyError in the source. The model's typed records cannot be malformed.
- The sentence-embedding model and its `encode` calls (app.py:12, 31, 42) are a foreign model producing float vectors. They are not modelled.
- The flat L2 index, its construction and its search (app.py:32-33, 43) are a foreign library computing floating-point distances. The ranking is not modelled. The row numbers a search returns are an input to `Query.Lookup`, `Query.Answer` and `Query.HitsCiteTheirPassages`. That the index pads a short answer only at its tail is an assumption of `Query.PaddedAnswerShowsItsHits`, not something the model derives.
- The web UI calls (app.py:36-39, 44-50) are left out: page setup, text input, headings and writing results. `Query.Lookup` returns the records that would be written, in the order they would be written.
- Query.Lookup: when a subscript raises in the source, the records before it have already been written to the page. The model returns only the error. Those records are the resolved records of the row numbers before the position reported.
- Query.ResolveAsWritten: likewise returns `None` when a subscript raises IndexError, and drops the records the source has already written before it.
- Identifiers of articles and paragraphs may be numbers or strings in the JSON. The model takes the string Python's f-string renders for them, not the JSON value.

## Findings

| source | as written | input that shows it | evidently intended | confidence | as-written member | corrected member |
|---|---|---|---|---|---|---|
| app.py:43-46 | each row number from the search is used as `metadata[idx]` with Python's subscript, so the -1 padding counts from the end of the list | a corpus with one paragraph and a search for k=3 hits: the flat index pads its answer to rows [0, -1, -1], and the only passage is shown three times | -1 is the index's marker for "no result": the padding is dropped and only the real hits are shown, at most min(k, number of passages); a row number that is neither padding nor a passage is reported | medium; not executed, relies on the index library padding short answers with -1 | `Query.ResolveAsWritten` (counterexample `Query.PaddingRepeatsLastPassage`) | `Query.Resolve`, run by `Query.Lookup` |
