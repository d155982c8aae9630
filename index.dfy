/** The vector-store bootstrap of `init_db`: when the collection is empty, the catalog is
    turned into three parallel lists (ids, documents, metadatas) and added to it. */
module Index {
  import opened Catalog
  import opened Decimal

  /** The metadata dictionary `{'title': t}` stored with each document. */
  datatype Metadata = Metadata(title: string)

  /** The three lists passed to `collection.add`. */
  datatype Batch = Batch(ids: seq<string>, documents: seq<string>, metadatas: seq<Metadata>)

  /** One record stored in the collection. */
  datatype Entry = Entry(id: string, document: string, metadata: Metadata)

  /** The persistent collection, as far as the bootstrap uses it: `count()` is the
      number of entries. */
  datatype Collection = Collection(entries: seq<Entry>)

  predicate Aligned(b: Batch) {
    |b.ids| == |b.documents| == |b.metadatas|
  }

  predicate Distinct(s: seq<string>) {
    forall i, j :: 0 <= i < j < |s| ==> s[i] != s[j]
  }

  /** documents = the tags column, metadatas = one `{'title': t}` per title,
      ids = `str` of each id, all in catalog order. */
  function BuildBatch(catalog: seq<Movie>): (b: Batch)
    ensures Aligned(b) && |b.ids| == |catalog|
    ensures forall i :: 0 <= i < |catalog| ==>
              b.ids[i] == IntToString(catalog[i].id) &&
              b.documents[i] == catalog[i].tags &&
              b.metadatas[i].title == catalog[i].title
  {
    Batch(seq(|catalog|, i requires 0 <= i < |catalog| => IntToString(catalog[i].id)),
          seq(|catalog|, i requires 0 <= i < |catalog| => catalog[i].tags),
          seq(|catalog|, i requires 0 <= i < |catalog| => Metadata(catalog[i].title)))
  }

  /** The records `collection.add` stores for a batch: the i-th id, document and
      metadata together. */
  function Records(b: Batch): (r: seq<Entry>)
    requires Aligned(b)
    ensures |r| == |b.ids|
    ensures forall i :: 0 <= i < |b.ids| ==> r[i] == Entry(b.ids[i], b.documents[i], b.metadatas[i])
  {
    seq(|b.ids|, i requires 0 <= i < |b.ids| => Entry(b.ids[i], b.documents[i], b.metadatas[i]))
  }

  /** `collection.add(...)`: the batch's records are stored after the existing ones. */
  function Add(c: Collection, b: Batch): (c': Collection)
    requires Aligned(b)
    ensures |c'.entries| == |c.entries| + |b.ids|
    ensures c'.entries[..|c.entries|] == c.entries
    ensures forall i :: 0 <= i < |b.ids| ==>
              c'.entries[|c.entries| + i] == Entry(b.ids[i], b.documents[i], b.metadatas[i])
  {
    Collection(c.entries + Records(b))
  }

  /** The bootstrap of `init_db`: build only when `collection.count() == 0`. */
  function InitDb(c: Collection, catalog: seq<Movie>): (c': Collection)
    ensures |c.entries| != 0 ==> c' == c
    ensures |c.entries| == 0 ==> |c'.entries| == |catalog|
    ensures |c.entries| == 0 ==> forall i :: 0 <= i < |catalog| ==>
              c'.entries[i] == Entry(IntToString(catalog[i].id), catalog[i].tags, Metadata(catalog[i].title))
  {
    if |c.entries| == 0 then
      var b := BuildBatch(catalog);
      assert forall i :: 0 <= i < |catalog| ==>
        Entry(b.ids[i], b.documents[i], b.metadatas[i]) ==
        Entry(IntToString(catalog[i].id), catalog[i].tags, Metadata(catalog[i].title));
      Add(c, b)
    else c
  }

  /** The batch has distinct ids exactly when the catalog's ids are unique. */
  lemma BatchIdsDistinct(catalog: seq<Movie>)
    ensures UniqueIds(catalog) <==> Distinct(BuildBatch(catalog).ids)
  {
    var ids := BuildBatch(catalog).ids;
    if UniqueIds(catalog) {
      forall i, j | 0 <= i < j < |ids| ensures ids[i] != ids[j] {
        ParseIntToString(catalog[i].id);
        ParseIntToString(catalog[j].id);
      }
    }
  }

  /** Running the bootstrap again leaves the collection as the first run left it. */
  lemma InitDbIdempotent(c: Collection, catalog: seq<Movie>)
    ensures InitDb(InitDb(c, catalog), catalog) == InitDb(c, catalog)
  {
  }

  /** Every record a bootstrap stores into an empty collection belongs to one catalog row:
      its id reads back as that row's id, with that row's tags and title. */
  lemma InitDbEntriesFromCatalog(c: Collection, catalog: seq<Movie>, e: Entry)
    requires |c.entries| == 0 && e in InitDb(c, catalog).entries
    ensures exists i :: 0 <= i < |catalog| && ParseInt(e.id) == catalog[i].id &&
              e.document == catalog[i].tags && e.metadata.title == catalog[i].title
  {
    var entries := InitDb(c, catalog).entries;
    var i :| 0 <= i < |entries| && entries[i] == e;
    ParseIntToString(catalog[i].id);
  }
}
