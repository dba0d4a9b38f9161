/** `load_csv_data` after the CSV has been read: the five entity steps, then
    the join tables, and what the whole load guarantees. */
module Pipeline {
  import opened Tables
  import opened Records
  import opened SourceUrl
  import opened Loaders
  import opened Links

  /** `load_csv_data`. The entity steps cannot raise, so the outcome is that of
      the join-table step. */
  function LoadCsvData(s: Store, rows: seq<CsvRow>, faults: set<ReadSite>): (o: Outcome)
    ensures Valid(s) ==> Valid(o.store)
  {
    CreateLinks(LoadEntities(s, rows, faults), faults)
  }

  /** The load only appends: every table of the old state is a prefix of the
      same table afterwards, whether or not the load completes. */
  lemma LoadCsvDataExtends(s: Store, rows: seq<CsvRow>, faults: set<ReadSite>)
    ensures Extends(s, LoadCsvData(s, rows, faults).store)
  {
    var e := LoadEntities(s, rows, faults);
    var t := CreateLinks(e, faults).store;
    assert Extends(s, e) && SameLinks(s, e);
    assert SameEntities(e, t);
  }

  /** Whatever reads fail and whether the join tables complete, the entity
      tables end up holding every key the rows give. */
  lemma LoadCsvDataKeys(s: Store, rows: seq<CsvRow>, faults: set<ReadSite>)
    ensures var t := LoadCsvData(s, rows, faults).store;
      && KeysOf(Recs(t.authors), AuthorName) == KeysOf(Recs(s.authors), AuthorName) + ExtractedAuthors(rows)
      && KeysOf(Recs(t.repos), RepoUrl) == KeysOf(Recs(s.repos), RepoUrl) + SourceUrlSet(rows)
      && KeysOf(Recs(t.indexers), IndexerUrl) == KeysOf(Recs(s.indexers), IndexerUrl) + DatasetUrlSet(rows)
      && KeysOf(Recs(t.games), GameKey)
         == KeysOf(Recs(s.games), GameKey) + KeysOf(GameData(rows, LookupsOf(BeforeGames(s, rows, faults))), GameKey)
      && KeysOf(Recs(t.datasets), DatasetUrl) == KeysOf(Recs(s.datasets), DatasetUrl) + DatasetUrlSet(rows)
  {
    LoadEntitiesKeys(s, rows, faults);
  }

  /** Only a failed read of stored pairs can make the load raise. */
  lemma LoadCsvDataSucceeds(s: Store, rows: seq<CsvRow>, faults: set<ReadSite>)
    requires Valid(s)
    requires GameAuthorPairs !in faults && GameRepoPairs !in faults
    requires AuthorRepoPairs !in faults && DatasetGamePairs !in faults
    ensures LoadCsvData(s, rows, faults).ok
  {
    assert Valid(LoadEntities(s, rows, faults));
  }

  /** Without failed reads on the entity tables, a store with at most one row
      per natural key keeps that property. */
  lemma LoadCsvDataKeepsNaturalKeys(s: Store, rows: seq<CsvRow>, faults: set<ReadSite>)
    requires NaturalKeysUnique(s)
    requires AuthorNames !in faults && RepoUrls !in faults && IndexerUrls !in faults
    requires GameKeys !in faults && DatasetUrls !in faults
    ensures NaturalKeysUnique(LoadCsvData(s, rows, faults).store)
  {
    LoadEntitiesNaturalKeys(s, rows, faults);
  }

  /** A completed load followed by a second load of the same rows without
      failed reads changes nothing and completes. */
  lemma LoadCsvDataIdempotent(s: Store, rows: seq<CsvRow>, faults: set<ReadSite>)
    requires LoadCsvData(s, rows, faults).ok
    ensures var t := LoadCsvData(s, rows, faults).store;
      LoadCsvData(t, rows, {}) == Outcome(t, true)
  {
    var e := LoadEntities(s, rows, faults);
    var t := CreateLinks(e, faults).store;
    CreateLinksSettled(e, faults);
    LoadEntitiesSettled(s, rows, faults, t);
  }

  /** After a completed load every pair the join tables are derived from is
      stored: each game's author and repository, each author owning a
      repository under its name, and each dataset whose URL is the URL of a
      game's indexer. */
  lemma LoadCsvDataLinksComplete(s: Store, rows: seq<CsvRow>, faults: set<ReadSite>)
    requires LoadCsvData(s, rows, faults).ok
    ensures var t := LoadCsvData(s, rows, faults).store;
      && (forall g :: g in t.games && g.rec.authorId.Some? ==> (g.id, g.rec.authorId.value) in KeysOf(t.gameAuthors, LinkPair))
      && (forall g :: g in t.games && g.rec.repoId.Some? ==> (g.id, g.rec.repoId.value) in KeysOf(t.gameRepos, LinkPair))
      && (forall a, r :: (a in t.authors && r in t.repos && r.rec.author == a.rec.name) ==>
            (a.id, r.id) in KeysOf(t.authorRepos, LinkPair))
      && (forall g, i, d :: (g in t.games && i in t.indexers && d in t.datasets && g.rec.indexerId == Some(i.id) && d.rec.url == i.rec.url) ==>
            (d.id, g.id) in KeysOf(t.datasetGames, LinkPair))
  {
    CreateLinksComplete(LoadEntities(s, rows, faults), faults);
  }
}
