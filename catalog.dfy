/** The movie catalog loaded from the pickled table: one row per movie. */
module Catalog {

  /** A row of the table: its `id`, `title` and `tags` columns. */
  datatype Movie = Movie(id: int, title: string, tags: string)

  /** No two rows share an id. */
  predicate UniqueIds(catalog: seq<Movie>) {
    forall i, j :: 0 <= i < j < |catalog| ==> catalog[i].id != catalog[j].id
  }
}
