/** The query resolver behind the "Get Recommendations" button: an empty input only
    raises a warning; otherwise the input is compared, after normalization, with every
    catalog title, and the first matching movie's tags become the query text, or else
    the raw input itself does. */
module Resolver {
  import opened Normalization
  import opened Catalog

  /** What the button handler decides to do with the text box's content. */
  datatype Resolution =
    | NoInput
    | TitleMatch(index: nat, title: string, tags: string)
    | FreeText(raw: string)

  /** What is sent to the collection: nothing, or one query text with `n_results`. */
  datatype Action = Warn | Query(text: string, nResults: nat)

  /** `n_results` of the collection query. */
  const ResultCount: nat := 5

  /** A movie's normalized title equals the normalized input. */
  predicate TitleMatches(m: Movie, input: string) {
    Normalize(m.title) == Normalize(input)
  }

  /** Movie j is the first catalog row whose title matches the input. */
  predicate IsFirstMatch(catalog: seq<Movie>, input: string, j: nat) {
    j < |catalog| && TitleMatches(catalog[j], input) &&
    forall k :: 0 <= k < j ==> !TitleMatches(catalog[k], input)
  }

  /** There is at most one first match. */
  lemma FirstMatchUnique(catalog: seq<Movie>, input: string, j: nat, k: nat)
    requires IsFirstMatch(catalog, input, j) && IsFirstMatch(catalog, input, k)
    ensures j == k
  {
  }

  /** The row positions of `movies[movies['title'].apply(normalize) == key]`, in
      catalog order. */
  function MatchingRows(catalog: seq<Movie>, key: string): (rows: seq<nat>)
    ensures forall k :: 0 <= k < |rows| ==>
              rows[k] < |catalog| && Normalize(catalog[rows[k]].title) == key
    ensures forall k, l :: 0 <= k < l < |rows| ==> rows[k] < rows[l]
    ensures forall j :: 0 <= j < |catalog| && Normalize(catalog[j].title) == key ==> j in rows
  {
    if catalog == [] then []
    else
      var n := |catalog| - 1;
      MatchingRows(catalog[..n], key) + (if Normalize(catalog[n].title) == key then [n] else [])
  }

  /** The first row of a filtered table is its lowest position. */
  lemma FirstRowIsLeast(catalog: seq<Movie>, key: string, j: nat)
    requires j < |catalog| && Normalize(catalog[j].title) == key
    ensures MatchingRows(catalog, key) != [] && MatchingRows(catalog, key)[0] <= j
  {
    var rows := MatchingRows(catalog, key);
    var k :| 0 <= k < |rows| && rows[k] == j;
    if k > 0 {
      assert rows[0] < rows[k];
    }
  }

  /** Lines 46-58 of the handler, without the rendering. */
  function Resolve(input: string, catalog: seq<Movie>): (r: Resolution)
    ensures r.NoInput? <==> input == ""
    ensures r.TitleMatch? ==>
              IsFirstMatch(catalog, input, r.index) &&
              r.title == catalog[r.index].title && r.tags == catalog[r.index].tags
    ensures r.FreeText? ==>
              r.raw == input && forall j :: 0 <= j < |catalog| ==> !TitleMatches(catalog[j], input)
  {
    if input == "" then NoInput
    else
      var rows := MatchingRows(catalog, Normalize(input));
      if rows != [] then
        var i := rows[0];
        assert forall j :: 0 <= j < i ==> !TitleMatches(catalog[j], input) by {
          forall j | 0 <= j < i ensures !TitleMatches(catalog[j], input) {
            if TitleMatches(catalog[j], input) {
              FirstRowIsLeast(catalog, Normalize(input), j);
            }
          }
        }
        TitleMatch(i, catalog[i].title, catalog[i].tags)
      else
        FreeText(input)
  }

  /** The query the handler issues: none for an empty input, otherwise one query
      text with five results. */
  function Plan(input: string, catalog: seq<Movie>): (a: Action)
    ensures a.Warn? <==> input == ""
    ensures a.Query? ==> a.nResults == ResultCount
  {
    var r := Resolve(input, catalog);
    if r.NoInput? then Warn
    else if r.TitleMatch? then Query(r.tags, ResultCount)
    else Query(r.raw, ResultCount)
  }

  /** When the input names a catalog title, the query text is the tags of the first
      movie carrying that title. */
  lemma PlanQueriesFirstMatchTags(input: string, catalog: seq<Movie>, j: nat)
    requires input != "" && IsFirstMatch(catalog, input, j)
    ensures Plan(input, catalog) == Query(catalog[j].tags, ResultCount)
  {
    var r := Resolve(input, catalog);
    FirstMatchUnique(catalog, input, j, r.index);
  }

  /** When no title matches, the query text is the input exactly as typed. */
  lemma PlanQueriesRawInput(input: string, catalog: seq<Movie>)
    requires input != "" && forall j :: 0 <= j < |catalog| ==> !TitleMatches(catalog[j], input)
    ensures Plan(input, catalog) == Query(input, ResultCount)
  {
  }

  /** A non-empty input is a title match exactly when some catalog title normalizes as it does. */
  lemma TitleMatchIff(input: string, catalog: seq<Movie>)
    ensures Resolve(input, catalog).TitleMatch? <==>
              input != "" && exists j :: 0 <= j < |catalog| && TitleMatches(catalog[j], input)
  {
  }

  /** Any spelling of a catalog title (other case, other punctuation) resolves to a
      movie no later in the catalog that carries the same normalized title. */
  lemma ResolvesOwnTitle(input: string, catalog: seq<Movie>, i: nat)
    requires input != "" && i < |catalog| && Normalize(input) == Normalize(catalog[i].title)
    ensures Resolve(input, catalog).TitleMatch?
    ensures Resolve(input, catalog).index <= i
    ensures Normalize(Resolve(input, catalog).title) == Normalize(catalog[i].title)
  {
  }

  /** With unique normalized titles, a spelling of title i yields exactly movie i's tags. */
  lemma ResolvesOwnTitleUnique(input: string, catalog: seq<Movie>, i: nat)
    requires input != "" && i < |catalog| && Normalize(input) == Normalize(catalog[i].title)
    requires forall j :: 0 <= j < i ==> Normalize(catalog[j].title) != Normalize(catalog[i].title)
    ensures Resolve(input, catalog) == TitleMatch(i, catalog[i].title, catalog[i].tags)
  {
  }

  /** Two non-empty inputs with one normal form resolve to the same title match;
      on the free-text path each keeps its own raw text. */
  lemma SameNormalFormSameResolution(a: string, b: string, catalog: seq<Movie>)
    requires a != "" && b != "" && Normalize(a) == Normalize(b)
    ensures Resolve(a, catalog).TitleMatch? ==> Resolve(b, catalog) == Resolve(a, catalog)
    ensures Resolve(a, catalog).FreeText? ==> Resolve(b, catalog) == FreeText(b)
  {
  }

  /** A non-empty input with no ASCII letter or digit (spaces, tabs, newlines,
      punctuation) is not the empty input: it is resolved, its normal form is empty,
      and it matches exactly the titles that contain no letter or digit either. */
  lemma WhitespaceInput(input: string, catalog: seq<Movie>)
    requires input != "" && forall i :: 0 <= i < |input| ==> !IsAsciiAlnum(input[i])
    ensures !Resolve(input, catalog).NoInput?
    ensures Resolve(input, catalog).FreeText? <==>
              forall j :: 0 <= j < |catalog| ==> Normalize(catalog[j].title) != ""
  {
    StripDropsAll(input);
  }

  /** A two-movie catalog. */
  function ToyCatalog(): seq<Movie> {
    [Movie(1, "Inception", "dream heist layers"), Movie(2, "Cars", "racing animated talking")]
  }

  /** Typing "inception" against the two-movie catalog queries with Inception's tags. */
  lemma ToyCatalogTitleMatch()
    ensures Resolve("inception", ToyCatalog()) == TitleMatch(0, "Inception", "dream heist layers")
  {
    InceptionCases();
    NormalizeIgnoresCase("inception", "Inception");
    ResolvesOwnTitleUnique("inception", ToyCatalog(), 0);
  }
}
