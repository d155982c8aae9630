# CineNext query resolver — a Dafny model

CineNext is a Streamlit movie recommender. It stores each movie's tag text in a
ChromaDB collection and answers a search with the collection's five nearest
neighbours. Almost all of `app.py` is UI and library glue. This project models
the logic the script owns itself:

- **Normalization** (`normalization.dfy`). `normalize(text)` deletes every
  character outside `[A-Za-z0-9]` and lower-cases the rest. `Strip` is the
  regular-expression substitution, `Lower` is `.lower()`, and `Normalize` is the
  two together. `AlnumPositions` is a separate description of which characters
  survive.
- **Query resolution** (`resolver.dfy`). An empty text box leads to a warning and
  no query. Any other input is normalized and compared with every normalized
  catalog title, in catalog order. If a title matches, the query text is the
  `tags` of the first matching row. If none matches, the query text is the raw
  input. `Resolve` returns a `Resolution` (`NoInput`, `TitleMatch`, `FreeText`).
  `Plan` returns the `Action` sent to the collection: `Warn`, or
  `Query(text, 5)`.
- **Index bootstrap** (`index.dfy`, `decimal.dfy`, `catalog.dfy`). `init_db`
  fills the collection only when `collection.count() == 0`. It adds three parallel
  lists built from the catalog: ids (`str` of each id), documents (the tags) and
  metadatas (`{'title': t}`). The collection is a value holding its entries.
  `Add` appends to it. `IntToString` models Python's `str` on an int. Its inverse
  `ParseInt` shows that distinct ids give distinct id strings.

Only the exact empty string takes the warning branch (`if user_input:`,
app.py:46). A whitespace-only input is resolved like any other; see
`Resolver.WhitespaceInput`.

## Model

| member | source | states |
|---|---|---|
| Normalization.Strip | app.py:37 | the substitution keeps only ASCII letters and digits, never lengthens, and keeps exactly the alphanumeric characters of the input |
| Normalization.Lower | app.py:37 | lower-casing keeps the length and turns every ASCII letter or digit into a character of `a-z` or `0-9`; on the output of Strip it equals `.lower()` |
| Normalization.Normalize | app.py:36-37 | the normal form is never longer than the input, and every character of it is in `a-z` or `0-9` |
| Normalization.AlnumPositions | app.py:37 | the positions of the input's ASCII alphanumerics, strictly increasing, one for each such character |
| Normalization.NormalizeIsAlnumSubsequence | app.py:37 | the normal form is exactly the input's ASCII alphanumerics, in their original order, each lower-cased |
| Normalization.NormalizeIdempotent | app.py:37 | normalizing twice gives the same result as normalizing once |
| Normalization.NormalizeAppend | app.py:37 | normalizing a concatenation gives the concatenation of the normal forms |
| Normalization.NormalizeIgnoresCase | app.py:37 | strings that differ only in ASCII letter case normalize to the same value |
| Normalization.NormalizeIgnoresNonAlnum | app.py:37 | inserting or removing non-alphanumeric characters anywhere leaves the normal form unchanged |
| Normalization.ShoutedTitleVariant | app.py:37 | "INCEPTION!" and "Inception" normalize alike |
| Normalization.HyphenatedTitleVariant | app.py:37 | "in-ception" and "Inception" normalize alike |
| Decimal.NatToString | app.py:25 | `str` of a natural number is a non-empty string of digits with no leading zero |
| Decimal.IntToString | app.py:25 | `str` of an int is an optional minus sign followed by digits; the sign appears exactly when the id is negative |
| Decimal.ParseIntToString | app.py:25 | reading back the decimal string of an id gives the id |
| Decimal.IntToStringInjective | app.py:25 | two ids with the same string form are equal |
| Index.BuildBatch | app.py:22-25 | ids, documents and metadatas each have the catalog's length; position i holds row i's id as a string, row i's tags and row i's title |
| Index.Records | app.py:22-26 | `add` stores one record per position; record i is the i-th id, the i-th document and the i-th metadata |
| Index.Add | app.py:22-26 | after `add`, the collection holds its old entries followed by one entry per batch position, in order |
| Index.InitDb | app.py:20-26 | a non-empty collection is left unchanged; an empty one ends up holding exactly one entry per catalog row, in catalog order |
| Index.BatchIdsDistinct | app.py:25 | the batch ids are pairwise distinct exactly when the catalog's ids are unique |
| Index.InitDbIdempotent | app.py:20 | running the bootstrap a second time changes nothing |
| Index.InitDbEntriesFromCatalog | app.py:20-26 | every entry added to an empty collection belongs to a catalog row: its id reads back as that row's id, with that row's tags and title |
| Resolver.MatchingRows | app.py:50 | the filter returns, in increasing order, exactly the rows whose normalized title equals the key |
| Resolver.FirstRowIsLeast | app.py:50-54 | the first row of the filtered table is the lowest matching position |
| Resolver.FirstMatchUnique | app.py:52-54 | at most one row is the first match |
| Resolver.Resolve | app.py:46-58 | the empty string, and only it, gives `NoInput`; a title match names the lowest-index row whose normalized title equals the normalized input, with that row's title and tags; `FreeText` carries the raw input unchanged and happens only when no title matches |
| Resolver.Plan | app.py:46-65 | no query exactly for the empty input; every query asks for 5 results |
| Resolver.PlanQueriesFirstMatchTags | app.py:49-65 | when the input names a title, the query text is the tags of the first row with that normalized title |
| Resolver.PlanQueriesRawInput | app.py:56-65 | when no title matches, the query text is the input exactly as typed |
| Resolver.TitleMatchIff | app.py:46-52 | an input is resolved as a title match if and only if it is non-empty and some title normalizes like it |
| Resolver.ResolvesOwnTitle | app.py:49-55 | any spelling of a catalog title resolves to a title match at or before that row, with the same normalized title |
| Resolver.ResolvesOwnTitleUnique | app.py:49-55 | if no earlier row shares the normalized title, any spelling of row i's title resolves to row i, its title and its tags |
| Resolver.SameNormalFormSameResolution | app.py:49-58 | two non-empty inputs with one normal form get the same title match; on the free-text path each keeps its own raw text |
| Resolver.WhitespaceInput | app.py:46-50 | a non-empty input with no ASCII letter or digit (spaces, tabs, newlines, punctuation) is not the empty input; it matches exactly the titles that contain no letter or digit |
| Resolver.ToyCatalogTitleMatch | app.py:49-55 | with the catalog Inception/Cars, "inception" resolves to Inception's row and its tags |

## Left out

- Streamlit UI (page config, title, text box, button, spinner, toast and its `session_state` flag, headings, result rendering loop, footer; app.py:9, 31-33, 40-45, 55, 59, 68-76): presentation only. The headings' texts are not modelled, but the title a heading shows is `TitleMatch.title`.
- `collection.query(query_texts=[...], n_results=5)` (app.py:62-65): the embedding, distance metric and nearest-neighbour order belong to ChromaDB and are not visible. `Plan` stops at the query it would issue.
- `chromadb.PersistentClient` and `get_or_create_collection` (app.py:16-17): persistence and opening by name belong to the library. The collection is a value passed in.
- `pickle.load(open("movie_list.pkl"))` (app.py:18): file I/O. The catalog is an input sequence of `Movie` rows.
- `@st.cache_resource` (app.py:12): framework memoisation of `init_db`.
- `str(text)` inside `normalize` (app.py:37): titles are modelled as strings, so non-string titles such as a pandas NaN are not covered.
- Index.Add: ChromaDB rejects duplicate ids, lists of unequal length and an empty id list. The model requires aligned lists, which `BuildBatch` always produces. It does not model the duplicate-id error or the empty-list error: with an empty catalog, `init_db` on an empty collection raises in the program, while `InitDb` returns the empty collection (and `InitDbIdempotent` treats that run as a success); `BatchIdsDistinct` shows the ids are distinct when the catalog's ids are unique.
- Normalization.ToLower: maps only ASCII capitals. Python's `.lower()` also maps non-ASCII letters, but it runs after the substitution, which has already removed them, so the result is the same.
- A free-text example with the Inception/Cars catalog ("a movie about talking cars") is covered only by the general lemma `PlanQueriesRawInput`, not as a concrete example.
