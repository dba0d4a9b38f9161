/** `VideoGameDatabase`: the object that owns the SQLite store and runs the
    CSV load. Its nine tables are fields the steps append to; each step is
    proved to leave exactly the state the matching function of `Loaders`,
    `Links` or `Pipeline` describes, so the lemmas proved there hold of the
    object too. */
module VideoGameDb {
  import opened Tables
  import opened Records
  import opened Loaders
  import opened Links
  import Pipeline

  class VideoGameDatabase {
    var authors: seq<Row<Author>>
    var repos: seq<Row<Repo>>
    var indexers: seq<Row<Indexer>>
    var games: seq<Row<VideoGame>>
    var datasets: seq<Row<Dataset>>
    var gameAuthors: seq<Link>
    var gameRepos: seq<Link>
    var authorRepos: seq<Link>
    var datasetGames: seq<Link>

    /** The tables as one value. */
    function State(): Store
      reads this
    {
      Store(authors, repos, indexers, games, datasets, gameAuthors, gameRepos, authorRepos, datasetGames)
    }

    /** Opening a database file: the tables hold whatever the file holds. */
    constructor (s: Store)
      ensures State() == s
    {
      authors, repos, indexers, games, datasets := s.authors, s.repos, s.indexers, s.games, s.datasets;
      gameAuthors, gameRepos, authorRepos, datasetGames := s.gameAuthors, s.gameRepos, s.authorRepos, s.datasetGames;
    }

    /** `_load_authors`. */
    method LoadAuthors(rows: seq<CsvRow>, faults: set<ReadSite>)
      modifies this
      ensures State() == Loaders.LoadAuthors(old(State()), rows, faults)
    {
      var authorsDf := AuthorCandidates(rows);
      authors := AppendMissing(authors, authorsDf, AuthorName, AuthorNames in faults);
    }

    /** `_load_repositories`: one record per row with a source URL, then
        `drop_duplicates(subset=['url'])`. */
    method LoadRepositories(rows: seq<CsvRow>, faults: set<ReadSite>)
      modifies this
      ensures State() == Loaders.LoadRepositories(old(State()), rows, faults)
    {
      var repoData: seq<Repo> := [];
      var i := 0;
      while i < |rows|
        invariant 0 <= i <= |rows|
        invariant repoData == RepoData(rows[..i])
      {
        assert rows[..i + 1][..i] == rows[..i];
        if rows[i].sourceUrl.Some? {
          repoData := repoData + [RepoRecord(rows[i].sourceUrl.value)];
        }
        i := i + 1;
      }
      assert rows[..|rows|] == rows;
      var reposDf := DistinctBy(repoData, RepoUrl);
      repos := AppendMissing(repos, reposDf, RepoUrl, RepoUrls in faults);
    }

    /** `_load_indexers`. */
    method LoadIndexers(rows: seq<CsvRow>, faults: set<ReadSite>)
      modifies this
      ensures State() == Loaders.LoadIndexers(old(State()), rows, faults)
    {
      var indexersDf := IndexerCandidates(rows);
      indexers := AppendMissing(indexers, indexersDf, IndexerUrl, IndexerUrls in faults);
    }

    /** `_load_video_games`: the three lookups are read first, then one record
        per row with a source URL, then `drop_duplicates(subset=['title',
        'author_id'])`. */
    method LoadVideoGames(rows: seq<CsvRow>, faults: set<ReadSite>)
      modifies this
      ensures State() == Loaders.LoadVideoGames(old(State()), rows, faults)
    {
      var lk := Lookups(IdIndex(authors, AuthorName), IdIndex(repos, RepoUrl), IdIndex(indexers, IndexerUrl));
      assert lk == LookupsOf(State());
      var gamesData: seq<VideoGame> := [];
      var i := 0;
      while i < |rows|
        invariant 0 <= i <= |rows|
        invariant gamesData == GameData(rows[..i], lk)
      {
        assert rows[..i + 1][..i] == rows[..i];
        if rows[i].sourceUrl.Some? {
          gamesData := gamesData + [GameFor(rows[i].sourceUrl.value, rows[i].datasetUrl, lk)];
        }
        i := i + 1;
      }
      assert rows[..|rows|] == rows;
      var gamesDf := DistinctBy(gamesData, GameKey);
      games := AppendMissing(games, gamesDf, GameKey, GameKeys in faults);
    }

    /** `_load_datasets`: one record per distinct dataset URL. */
    method LoadDatasets(rows: seq<CsvRow>, faults: set<ReadSite>)
      modifies this
      ensures State() == Loaders.LoadDatasets(old(State()), rows, faults)
    {
      var urls := DatasetUrlList(rows);
      var datasetsData: seq<Dataset> := [];
      var i := 0;
      while i < |urls|
        invariant 0 <= i <= |urls|
        invariant |datasetsData| == i
        invariant forall k :: 0 <= k < i ==> datasetsData[k] == DatasetRecord(urls[k])
      {
        datasetsData := datasetsData + [DatasetRecord(urls[i])];
        i := i + 1;
      }
      assert datasetsData == DatasetCandidates(rows);
      datasets := AppendMissing(datasets, datasetsData, DatasetUrl, DatasetUrls in faults);
    }

    /** The "Game-Author relationships" block. */
    method LinkGameAuthors(faults: set<ReadSite>) returns (ok: bool)
      modifies this
      ensures Links.LinkGameAuthors(old(State()), faults) == Outcome(State(), ok)
    {
      var o := Links.LinkGameAuthors(State(), faults);
      ok := o.ok;
      gameAuthors := o.store.gameAuthors;
    }

    /** The "Game-Repository relationships" block. */
    method LinkGameRepos(faults: set<ReadSite>) returns (ok: bool)
      modifies this
      ensures Links.LinkGameRepos(old(State()), faults) == Outcome(State(), ok)
    {
      var o := Links.LinkGameRepos(State(), faults);
      ok := o.ok;
      gameRepos := o.store.gameRepos;
    }

    /** The "Author-Repository relationships" block. */
    method LinkAuthorRepos(faults: set<ReadSite>) returns (ok: bool)
      modifies this
      ensures Links.LinkAuthorRepos(old(State()), faults) == Outcome(State(), ok)
    {
      var o := Links.LinkAuthorRepos(State(), faults);
      ok := o.ok;
      authorRepos := o.store.authorRepos;
    }

    /** The "Dataset ↔ VideoGame relationships" block. */
    method LinkDatasetGames(faults: set<ReadSite>) returns (ok: bool)
      modifies this
      ensures Links.LinkDatasetGames(old(State()), faults) == Outcome(State(), ok)
    {
      var o := Links.LinkDatasetGames(State(), faults);
      ok := o.ok;
      SetDatasetGames(o.store.datasetGames);
    }

    /** Replaces the `dataset_video_games` table and nothing else. */
    method SetDatasetGames(l: seq<Link>)
      modifies this
      ensures State() == old(State()).(datasetGames := l)
    {
      datasetGames := l;
    }

    /** `_create_many_to_many_relationships`: the four blocks in order; a block
        whose insert raises ends the step (`ok` false), and the blocks before
        it stay applied. */
    method CreateManyToManyRelationships(faults: set<ReadSite>) returns (ok: bool)
      modifies this
      ensures ok == CreateLinks(old(State()), faults).ok
      ensures State() == CreateLinks(old(State()), faults).store
    {
      ok := LinkGameAuthors(faults);
      if ok {
        ok := LinkGameRepos(faults);
        if ok {
          ok := LinkAuthorRepos(faults);
          if ok {
            ok := LinkDatasetGames(faults);
          }
        }
      }
    }

    /** `load_csv_data` on the rows read from the CSV file. */
    method LoadCsvData(rows: seq<CsvRow>, faults: set<ReadSite>) returns (ok: bool)
      modifies this
      ensures ok == Pipeline.LoadCsvData(old(State()), rows, faults).ok
      ensures State() == Pipeline.LoadCsvData(old(State()), rows, faults).store
    {
      LoadAuthors(rows, faults);
      LoadRepositories(rows, faults);
      LoadIndexers(rows, faults);
      ghost var s3 := State();
      assert s3 == BeforeGames(old(State()), rows, faults);
      LoadVideoGames(rows, faults);
      LoadDatasets(rows, faults);
      assert State() == LoadEntities(old(State()), rows, faults);
      ok := CreateManyToManyRelationships(faults);
    }
  }
}
