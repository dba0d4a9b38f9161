/** The five entity steps of the CSV load (`_load_authors` … `_load_datasets`)
    as functions from the database state before the step to the state after
    it. Each step derives candidate records from the CSV rows, drops the ones
    whose natural key is already stored (unless the read of the stored keys
    fails) and appends the rest with fresh row ids. */
module Loaders {
  import opened Tables
  import opened Records
  import opened SourceUrl

  /** The two CSV columns the loader reads; a missing cell is `None`. */
  datatype CsvRow = CsvRow(sourceUrl: Option<string>, datasetUrl: Option<string>)

  /** The nine tables the loader writes, each in row order. */
  datatype Store = Store(
    authors: seq<Row<Author>>,
    repos: seq<Row<Repo>>,
    indexers: seq<Row<Indexer>>,
    games: seq<Row<VideoGame>>,
    datasets: seq<Row<Dataset>>,
    gameAuthors: seq<Link>,
    gameRepos: seq<Link>,
    authorRepos: seq<Link>,
    datasetGames: seq<Link>)

  /** The guarded reads of already-stored keys, one per step. When such a
      read raises, the step keeps every candidate. */
  datatype ReadSite =
    | AuthorNames | RepoUrls | IndexerUrls | GameKeys | DatasetUrls
    | GameAuthorPairs | GameRepoPairs | AuthorRepoPairs | DatasetGamePairs

  /** What the database itself enforces: unique `_id`s in the entity tables
      and unique composite primary keys in the join tables. */
  predicate Valid(s: Store)
  {
    && UniqueIds(s.authors) && UniqueIds(s.repos) && UniqueIds(s.indexers)
    && UniqueIds(s.games) && UniqueIds(s.datasets)
    && KeysDistinct(s.gameAuthors, LinkPair) && KeysDistinct(s.gameRepos, LinkPair)
    && KeysDistinct(s.authorRepos, LinkPair) && KeysDistinct(s.datasetGames, LinkPair)
  }

  /** What the loader tries to keep without the database's help: at most one
      row per natural key in each entity table. */
  predicate NaturalKeysUnique(s: Store)
  {
    && NaturalKeyUnique(s.authors, AuthorName) && NaturalKeyUnique(s.repos, RepoUrl)
    && NaturalKeyUnique(s.indexers, IndexerUrl) && NaturalKeyUnique(s.games, GameKey)
    && NaturalKeyUnique(s.datasets, DatasetUrl)
  }

  ghost function SourceUrlSet(rows: seq<CsvRow>): set<string>
  {
    set r | r in rows && r.sourceUrl.Some? :: r.sourceUrl.value
  }

  ghost function DatasetUrlSet(rows: seq<CsvRow>): set<string>
  {
    set r | r in rows && r.datasetUrl.Some? :: r.datasetUrl.value
  }

  ghost function ExtractedAuthors(rows: seq<CsvRow>): set<string>
  {
    set r | r in rows :: ExtractRepoInfo(r.sourceUrl).author
  }

  lemma RowSetsSnoc(rows: seq<CsvRow>)
    requires |rows| > 0
    ensures var n := |rows| - 1;
      && SourceUrlSet(rows) == SourceUrlSet(rows[..n]) + (if rows[n].sourceUrl.Some? then {rows[n].sourceUrl.value} else {})
      && DatasetUrlSet(rows) == DatasetUrlSet(rows[..n]) + (if rows[n].datasetUrl.Some? then {rows[n].datasetUrl.value} else {})
  {
    assert rows == rows[..|rows| - 1] + [rows[|rows| - 1]];
  }

  // ---- authors ----------------------------------------------------------

  /** The record built for an author name: a GitHub address and active. */
  function AuthorRecord(name: string): Author
  {
    Author(name, name + "@github.com", true)
  }

  /** The author half of `_extract_repo_info` for every row, a missing URL
      included (it gives "unknown"). */
  function RowAuthors(rows: seq<CsvRow>): (names: seq<string>)
    ensures |names| == |rows|
    ensures forall i :: 0 <= i < |rows| ==> names[i] == ExtractRepoInfo(rows[i].sourceUrl).author
    ensures forall n :: n in names <==> n in ExtractedAuthors(rows)
    ensures forall i :: 0 <= i < |rows| ==> '/' !in names[i]
    ensures forall i :: 0 <= i < |rows| && rows[i].sourceUrl.None? ==> names[i] == Unknown
  {
    seq(|rows|, i requires 0 <= i < |rows| => ExtractRepoInfo(rows[i].sourceUrl).author)
  }

  /** `_load_authors`' frame before filtering: one record per distinct
      extracted author, in order of first appearance. */
  function AuthorCandidates(rows: seq<CsvRow>): (c: seq<Author>)
    ensures KeysDistinct(c, AuthorName)
    ensures KeysOf(c, AuthorName) == ExtractedAuthors(rows)
    ensures forall a :: a in c ==> a == AuthorRecord(a.name)
    ensures var names := Distinct(RowAuthors(rows));
      |c| == |names| && forall k :: 0 <= k < |names| ==> c[k] == AuthorRecord(names[k])
  {
    var all := RowAuthors(rows);
    var names := Distinct(all);
    var c := seq(|names|, k requires 0 <= k < |names| => AuthorRecord(names[k]));
    AuthorCandidatesFacts(rows, names, c);
    c
  }

  lemma AuthorCandidatesFacts(rows: seq<CsvRow>, names: seq<string>, c: seq<Author>)
    requires names == Distinct(RowAuthors(rows))
    requires |c| == |names| && forall k :: 0 <= k < |names| ==> c[k] == AuthorRecord(names[k])
    ensures KeysDistinct(c, AuthorName)
    ensures KeysOf(c, AuthorName) == ExtractedAuthors(rows)
  {
    var all := RowAuthors(rows);
    assert KeysDistinct(names, Identity);
    assert KeysOf(names, Identity) == KeysOf(all, Identity);
    forall n | n in KeysOf(c, AuthorName) ensures n in ExtractedAuthors(rows) {
      var k :| 0 <= k < |c| && AuthorName(c[k]) == n;
      assert Identity(names[k]) in KeysOf(all, Identity);
      var i :| 0 <= i < |all| && Identity(all[i]) == n;
      assert rows[i] in rows;
    }
    forall n | n in ExtractedAuthors(rows) ensures n in KeysOf(c, AuthorName) {
      var r :| r in rows && ExtractRepoInfo(r.sourceUrl).author == n;
      var i :| 0 <= i < |rows| && rows[i] == r;
      assert all[i] in all;
      assert Identity(all[i]) in KeysOf(names, Identity);
      var k :| 0 <= k < |names| && Identity(names[k]) == n;
      assert c[k] in c;
    }
  }

  /** `_load_authors`. */
  function LoadAuthors(s: Store, rows: seq<CsvRow>, faults: set<ReadSite>): (r: Store)
    ensures r == s.(authors := r.authors) && s.authors <= r.authors
    ensures Valid(s) ==> Valid(r)
  {
    var c := AuthorCandidates(rows);
    var t := AppendMissing(s.authors, c, AuthorName, AuthorNames in faults);
    s.(authors := t)
  }

  /** The keys `_load_authors` leaves stored: see `AppendMissingSpec`. */
  lemma LoadAuthorsKeys(s: Store, rows: seq<CsvRow>, faults: set<ReadSite>)
    ensures var r := LoadAuthors(s, rows, faults);
      && KeysOf(Recs(r.authors), AuthorName) == KeysOf(Recs(s.authors), AuthorName) + ExtractedAuthors(rows)
      && (AuthorNames !in faults && ExtractedAuthors(rows) <= KeysOf(Recs(s.authors), AuthorName) ==> r == s)
  {
    AppendMissingSpec(s.authors, AuthorCandidates(rows), AuthorName, AuthorNames in faults);
  }

  /** The rows `_load_authors` appends: the record for a key the rows give, and
      without a failed read only under a key not already stored. */
  lemma LoadAuthorsRows(s: Store, rows: seq<CsvRow>, faults: set<ReadSite>)
    ensures var r := LoadAuthors(s, rows, faults);
      && (forall i :: |s.authors| <= i < |r.authors| ==> r.authors[i].rec == AuthorRecord(r.authors[i].rec.name))
      && (AuthorNames !in faults ==>
            forall i :: |s.authors| <= i < |r.authors| ==> r.authors[i].rec.name !in KeysOf(Recs(s.authors), AuthorName))
      && (AuthorNames !in faults && NaturalKeysUnique(s) ==> NaturalKeysUnique(r))
  {
    var c := AuthorCandidates(rows);
    var fail := AuthorNames in faults;
    var t := AppendMissing(s.authors, c, AuthorName, fail);
    assert LoadAuthors(s, rows, faults).authors == t;
    assert !fail && NaturalKeysUnique(s) ==> NaturalKeysUnique(LoadAuthors(s, rows, faults)) by {
      AppendMissingSpec(s.authors, c, AuthorName, fail);
    }
    AppendMissingRows(s.authors, c, AuthorName, fail);
    forall i | |s.authors| <= i < |t|
      ensures t[i].rec == AuthorRecord(t[i].rec.name)
      ensures !fail ==> t[i].rec.name !in KeysOf(Recs(s.authors), AuthorName)
    {
      assert t[i].rec in c;
      assert AuthorName(t[i].rec) == t[i].rec.name;
    }
  }

  // ---- repositories -----------------------------------------------------

  /** The record `_load_repositories` builds for a source URL. */
  function RepoRecord(url: string): Repo
  {
    var info := ExtractRepoInfo(Some(url));
    Repo(info.title, info.author, url, true)
  }

  /** The loop of `_load_repositories`: one record per row that has a source
      URL, in row order. */
  function RepoData(rows: seq<CsvRow>): (d: seq<Repo>)
    ensures forall x :: x in d ==> x == RepoRecord(x.url)
    ensures KeysOf(d, RepoUrl) == SourceUrlSet(rows)
    decreases |rows|
  {
    if |rows| == 0 then []
    else
      var n := |rows| - 1;
      var init := RepoData(rows[..n]);
      var last := if rows[n].sourceUrl.Some? then [RepoRecord(rows[n].sourceUrl.value)] else [];
      RowSetsSnoc(rows);
      KeysOfConcat(init, last, RepoUrl);
      if rows[n].sourceUrl.Some? then
        KeysOfSingleton(RepoRecord(rows[n].sourceUrl.value), RepoUrl);
        init + last
      else init + last
  }

  /** The frame after `drop_duplicates(subset=['url'])` (first row kept). */
  function RepoCandidates(rows: seq<CsvRow>): (c: seq<Repo>)
    ensures KeysDistinct(c, RepoUrl)
    ensures KeysOf(c, RepoUrl) == SourceUrlSet(rows)
    ensures forall x :: x in c ==> x == RepoRecord(x.url)
  {
    DistinctBy(RepoData(rows), RepoUrl)
  }

  /** `_load_repositories`. */
  function LoadRepositories(s: Store, rows: seq<CsvRow>, faults: set<ReadSite>): (r: Store)
    ensures r == s.(repos := r.repos) && s.repos <= r.repos
    ensures Valid(s) ==> Valid(r)
  {
    var c := RepoCandidates(rows);
    var t := AppendMissing(s.repos, c, RepoUrl, RepoUrls in faults);
    s.(repos := t)
  }

  /** The keys `_load_repositories` leaves stored: see `AppendMissingSpec`. */
  lemma LoadRepositoriesKeys(s: Store, rows: seq<CsvRow>, faults: set<ReadSite>)
    ensures var r := LoadRepositories(s, rows, faults);
      && KeysOf(Recs(r.repos), RepoUrl) == KeysOf(Recs(s.repos), RepoUrl) + SourceUrlSet(rows)
      && (RepoUrls !in faults && SourceUrlSet(rows) <= KeysOf(Recs(s.repos), RepoUrl) ==> r == s)
  {
    AppendMissingSpec(s.repos, RepoCandidates(rows), RepoUrl, RepoUrls in faults);
  }

  /** The rows `_load_repositories` appends: the record for a key the rows give, and
      without a failed read only under a key not already stored. */
  lemma LoadRepositoriesRows(s: Store, rows: seq<CsvRow>, faults: set<ReadSite>)
    ensures var r := LoadRepositories(s, rows, faults);
      && (forall i :: |s.repos| <= i < |r.repos| ==> r.repos[i].rec == RepoRecord(r.repos[i].rec.url))
      && (RepoUrls !in faults ==>
            forall i :: |s.repos| <= i < |r.repos| ==> r.repos[i].rec.url !in KeysOf(Recs(s.repos), RepoUrl))
      && (RepoUrls !in faults && NaturalKeysUnique(s) ==> NaturalKeysUnique(r))
  {
    var c := RepoCandidates(rows);
    var fail := RepoUrls in faults;
    var t := AppendMissing(s.repos, c, RepoUrl, fail);
    assert LoadRepositories(s, rows, faults).repos == t;
    assert !fail && NaturalKeysUnique(s) ==> NaturalKeysUnique(LoadRepositories(s, rows, faults)) by {
      AppendMissingSpec(s.repos, c, RepoUrl, fail);
    }
    AppendMissingRows(s.repos, c, RepoUrl, fail);
    forall i | |s.repos| <= i < |t|
      ensures t[i].rec == RepoRecord(t[i].rec.url)
      ensures !fail ==> t[i].rec.url !in KeysOf(Recs(s.repos), RepoUrl)
    {
      assert t[i].rec in c;
      assert RepoUrl(t[i].rec) == t[i].rec.url;
    }
  }

  // ---- indexers and datasets -------------------------------------------

  /** `df['Referencing Dataset'].dropna()`, in row order. */
  function PresentDatasetUrls(rows: seq<CsvRow>): (u: seq<string>)
    ensures forall x :: x in u <==> x in DatasetUrlSet(rows)
    decreases |rows|
  {
    if |rows| == 0 then []
    else
      var n := |rows| - 1;
      RowSetsSnoc(rows);
      PresentDatasetUrls(rows[..n]) + (match rows[n].datasetUrl case Some(d) => [d] case None => [])
  }

  /** `.dropna().unique()`: each dataset URL once, in order of first
      appearance. */
  function DatasetUrlList(rows: seq<CsvRow>): (u: seq<string>)
    ensures forall i, j :: 0 <= i < j < |u| ==> u[i] != u[j]
    ensures forall x :: x in u <==> x in DatasetUrlSet(rows)
  {
    var all := PresentDatasetUrls(rows);
    var u := Distinct(all);
    assert KeysOf(u, Identity) == KeysOf(all, Identity);
    forall x | x in u ensures x in all {
      assert Identity(x) in KeysOf(all, Identity);
    }
    forall x | x in all ensures x in u {
      assert Identity(x) in KeysOf(u, Identity);
    }
    assert KeysDistinct(u, Identity);
    u
  }

  /** `url.split('/')[-1]`. */
  function LastSegment(url: string): (seg: string)
    ensures '/' !in seg
    ensures '/' !in url ==> seg == url
  {
    var parts := Split(url, '/');
    SplitHasTwo(url, '/');
    assert parts[|parts| - 1] in parts;
    if '/' !in url then
      SplitJoin(url, '/');
      parts[0]
    else parts[|parts| - 1]
  }

  /** A URL ending in `/<seg>` is split there. */
  lemma LastSegmentAfterSlash(prefix: string, seg: string)
    requires '/' !in seg
    ensures LastSegment(prefix + "/" + seg) == seg
  {
    var url := prefix + "/" + seg;
    assert url == prefix + ['/'] + seg;
    assert url[|prefix|] == '/';
    SplitLastPiece(prefix, seg, '/');
  }

  function IndexerRecord(url: string): Indexer
  {
    Indexer(LastSegment(url), url, true)
  }

  /** `_load_indexers`' frame before filtering. */
  function IndexerCandidates(rows: seq<CsvRow>): (c: seq<Indexer>)
    ensures KeysDistinct(c, IndexerUrl)
    ensures KeysOf(c, IndexerUrl) == DatasetUrlSet(rows)
    ensures forall x :: x in c ==> x == IndexerRecord(x.url)
  {
    var u := DatasetUrlList(rows);
    var c := seq(|u|, k requires 0 <= k < |u| => IndexerRecord(u[k]));
    assert forall x :: x in c ==> x.url in u;
    assert forall k :: 0 <= k < |u| ==> IndexerUrl(c[k]) == u[k];
    c
  }

  /** `_load_indexers`. */
  function LoadIndexers(s: Store, rows: seq<CsvRow>, faults: set<ReadSite>): (r: Store)
    ensures r == s.(indexers := r.indexers) && s.indexers <= r.indexers
    ensures Valid(s) ==> Valid(r)
  {
    var c := IndexerCandidates(rows);
    var t := AppendMissing(s.indexers, c, IndexerUrl, IndexerUrls in faults);
    s.(indexers := t)
  }

  /** The keys `_load_indexers` leaves stored: see `AppendMissingSpec`. */
  lemma LoadIndexersKeys(s: Store, rows: seq<CsvRow>, faults: set<ReadSite>)
    ensures var r := LoadIndexers(s, rows, faults);
      && KeysOf(Recs(r.indexers), IndexerUrl) == KeysOf(Recs(s.indexers), IndexerUrl) + DatasetUrlSet(rows)
      && (IndexerUrls !in faults && DatasetUrlSet(rows) <= KeysOf(Recs(s.indexers), IndexerUrl) ==> r == s)
  {
    AppendMissingSpec(s.indexers, IndexerCandidates(rows), IndexerUrl, IndexerUrls in faults);
  }

  /** The rows `_load_indexers` appends: the record for a key the rows give, and
      without a failed read only under a key not already stored. */
  lemma LoadIndexersRows(s: Store, rows: seq<CsvRow>, faults: set<ReadSite>)
    ensures var r := LoadIndexers(s, rows, faults);
      && (forall i :: |s.indexers| <= i < |r.indexers| ==> r.indexers[i].rec == IndexerRecord(r.indexers[i].rec.url))
      && (IndexerUrls !in faults ==>
            forall i :: |s.indexers| <= i < |r.indexers| ==> r.indexers[i].rec.url !in KeysOf(Recs(s.indexers), IndexerUrl))
      && (IndexerUrls !in faults && NaturalKeysUnique(s) ==> NaturalKeysUnique(r))
  {
    var c := IndexerCandidates(rows);
    var fail := IndexerUrls in faults;
    var t := AppendMissing(s.indexers, c, IndexerUrl, fail);
    assert LoadIndexers(s, rows, faults).indexers == t;
    assert !fail && NaturalKeysUnique(s) ==> NaturalKeysUnique(LoadIndexers(s, rows, faults)) by {
      AppendMissingSpec(s.indexers, c, IndexerUrl, fail);
    }
    AppendMissingRows(s.indexers, c, IndexerUrl, fail);
    forall i | |s.indexers| <= i < |t|
      ensures t[i].rec == IndexerRecord(t[i].rec.url)
      ensures !fail ==> t[i].rec.url !in KeysOf(Recs(s.indexers), IndexerUrl)
    {
      assert t[i].rec in c;
      assert IndexerUrl(t[i].rec) == t[i].rec.url;
    }
  }

  function DatasetRecord(url: string): Dataset
  {
    Dataset(LastSegment(url), "community", url, "game_collection", true)
  }

  /** The records built by the loop of `_load_datasets`, one per URL. */
  function DatasetCandidates(rows: seq<CsvRow>): (c: seq<Dataset>)
    ensures KeysDistinct(c, DatasetUrl)
    ensures KeysOf(c, DatasetUrl) == DatasetUrlSet(rows)
    ensures forall x :: x in c ==> x == DatasetRecord(x.url)
  {
    var u := DatasetUrlList(rows);
    var c := seq(|u|, k requires 0 <= k < |u| => DatasetRecord(u[k]));
    assert forall x :: x in c ==> x.url in u;
    assert forall k :: 0 <= k < |u| ==> DatasetUrl(c[k]) == u[k];
    c
  }

  /** `_load_datasets`. */
  function LoadDatasets(s: Store, rows: seq<CsvRow>, faults: set<ReadSite>): (r: Store)
    ensures r == s.(datasets := r.datasets) && s.datasets <= r.datasets
    ensures Valid(s) ==> Valid(r)
  {
    var c := DatasetCandidates(rows);
    var t := AppendMissing(s.datasets, c, DatasetUrl, DatasetUrls in faults);
    s.(datasets := t)
  }

  /** The keys `_load_datasets` leaves stored: see `AppendMissingSpec`. */
  lemma LoadDatasetsKeys(s: Store, rows: seq<CsvRow>, faults: set<ReadSite>)
    ensures var r := LoadDatasets(s, rows, faults);
      && KeysOf(Recs(r.datasets), DatasetUrl) == KeysOf(Recs(s.datasets), DatasetUrl) + DatasetUrlSet(rows)
      && (DatasetUrls !in faults && DatasetUrlSet(rows) <= KeysOf(Recs(s.datasets), DatasetUrl) ==> r == s)
  {
    AppendMissingSpec(s.datasets, DatasetCandidates(rows), DatasetUrl, DatasetUrls in faults);
  }

  /** The rows `_load_datasets` appends: the record for a key the rows give, and
      without a failed read only under a key not already stored. */
  lemma LoadDatasetsRows(s: Store, rows: seq<CsvRow>, faults: set<ReadSite>)
    ensures var r := LoadDatasets(s, rows, faults);
      && (forall i :: |s.datasets| <= i < |r.datasets| ==> r.datasets[i].rec == DatasetRecord(r.datasets[i].rec.url))
      && (DatasetUrls !in faults ==>
            forall i :: |s.datasets| <= i < |r.datasets| ==> r.datasets[i].rec.url !in KeysOf(Recs(s.datasets), DatasetUrl))
      && (DatasetUrls !in faults && NaturalKeysUnique(s) ==> NaturalKeysUnique(r))
  {
    var c := DatasetCandidates(rows);
    var fail := DatasetUrls in faults;
    var t := AppendMissing(s.datasets, c, DatasetUrl, fail);
    assert LoadDatasets(s, rows, faults).datasets == t;
    assert !fail && NaturalKeysUnique(s) ==> NaturalKeysUnique(LoadDatasets(s, rows, faults)) by {
      AppendMissingSpec(s.datasets, c, DatasetUrl, fail);
    }
    AppendMissingRows(s.datasets, c, DatasetUrl, fail);
    forall i | |s.datasets| <= i < |t|
      ensures t[i].rec == DatasetRecord(t[i].rec.url)
      ensures !fail ==> t[i].rec.url !in KeysOf(Recs(s.datasets), DatasetUrl)
    {
      assert t[i].rec in c;
      assert DatasetUrl(t[i].rec) == t[i].rec.url;
    }
  }

  // ---- video games ------------------------------------------------------

  /** The columns `_load_video_games` sets; the others stay NULL. */
  function GameRecord(title: string, authorId: Option<int>, repoId: Option<int>, indexerId: Option<int>): VideoGame
  {
    VideoGame(title, authorId, repoId, None, indexerId,
      Some("Open source video game: " + title), Some("Open Source"), None, None, None, true)
  }

  /** The name → id, URL → id lookups `_load_video_games` reads first. */
  datatype Lookups = Lookups(authors: map<string, int>, repos: map<string, int>, indexers: map<string, int>)

  function LookupsOf(s: Store): Lookups
  {
    Lookups(IdIndex(s.authors, AuthorName), IdIndex(s.repos, RepoUrl), IdIndex(s.indexers, IndexerUrl))
  }

  /** The record for a row with source URL `url`. */
  function GameFor(url: string, datasetUrl: Option<string>, lk: Lookups): (g: VideoGame)
    ensures var info := ExtractRepoInfo(Some(url));
      && g.title == info.title
      && (g.authorId.Some? <==> info.author in lk.authors)
      && (g.authorId.Some? ==> g.authorId.value == lk.authors[info.author])
    ensures (g.repoId.Some? <==> url in lk.repos) && (g.repoId.Some? ==> g.repoId.value == lk.repos[url])
    ensures g.indexerId.Some? <==> datasetUrl.Some? && datasetUrl.value in lk.indexers
    ensures g.indexerId.Some? ==> g.indexerId.value == lk.indexers[datasetUrl.value]
    ensures g.description == Some("Open source video game: " + g.title) && g.genre == Some("Open Source")
    ensures g.isPublished && g.marketplaceId.None? && g.version.None? && g.rating.None? && g.price.None?
  {
    var info := ExtractRepoInfo(Some(url));
    var indexerId := match datasetUrl case Some(d) => Lookup(lk.indexers, d) case None => None;
    GameRecord(info.title, Lookup(lk.authors, info.author), Lookup(lk.repos, url), indexerId)
  }

  /** The loop of `_load_video_games`: one record per row that has a source
      URL, in row order. */
  function GameData(rows: seq<CsvRow>, lk: Lookups): (d: seq<VideoGame>)
    ensures forall g :: g in d <==>
      exists r :: r in rows && r.sourceUrl.Some? && g == GameFor(r.sourceUrl.value, r.datasetUrl, lk)
    decreases |rows|
  {
    if |rows| == 0 then []
    else
      var n := |rows| - 1;
      assert rows == rows[..n] + [rows[n]];
      GameData(rows[..n], lk)
        + (match rows[n].sourceUrl case Some(u) => [GameFor(u, rows[n].datasetUrl, lk)] case None => [])
  }

  /** The frame after `drop_duplicates(subset=['title', 'author_id'])`. */
  function GameCandidates(rows: seq<CsvRow>, lk: Lookups): (c: seq<VideoGame>)
    ensures KeysDistinct(c, GameKey)
    ensures KeysOf(c, GameKey) == KeysOf(GameData(rows, lk), GameKey)
    ensures forall g :: g in c ==>
      exists r :: r in rows && r.sourceUrl.Some? && g == GameFor(r.sourceUrl.value, r.datasetUrl, lk)
  {
    DistinctBy(GameData(rows, lk), GameKey)
  }

  /** `GameData` follows the rows: a row added at the end adds its record, when
      it has a source URL, at the end. */
  lemma GameDataSnoc(rows: seq<CsvRow>, r: CsvRow, lk: Lookups)
    ensures GameData(rows + [r], lk)
         == GameData(rows, lk) + (match r.sourceUrl case Some(u) => [GameFor(u, r.datasetUrl, lk)] case None => [])
  {
    assert (rows + [r])[..|rows|] == rows;
  }

  /** The records of a prefix of the rows are a prefix of the records. */
  lemma {:induction false} GameDataPrefix(rows: seq<CsvRow>, lk: Lookups, n: int)
    requires 0 <= n <= |rows|
    ensures GameData(rows[..n], lk) <= GameData(rows, lk)
    decreases |rows|
  {
    if n < |rows| {
      var init := rows[..|rows| - 1];
      assert init[..n] == rows[..n];
      GameDataPrefix(init, lk, n);
      assert GameData(init, lk) <= GameData(rows, lk);
    } else {
      assert rows[..n] == rows;
    }
  }

  /** The m-th record is that of row k, and the records before it are exactly
      those of the rows before k. */
  ghost predicate RecordOfRow(rows: seq<CsvRow>, lk: Lookups, m: int, k: int)
    requires 0 <= m < |GameData(rows, lk)|
  {
    && 0 <= k < |rows| && rows[k].sourceUrl.Some?
    && GameData(rows, lk)[m] == GameFor(rows[k].sourceUrl.value, rows[k].datasetUrl, lk)
    && GameData(rows[..k], lk) == GameData(rows, lk)[..m]
  }

  /** Every record comes from one row, in row order. */
  lemma {:induction false} GameDataIndex(rows: seq<CsvRow>, lk: Lookups, m: int)
    requires 0 <= m < |GameData(rows, lk)|
    ensures exists k :: RecordOfRow(rows, lk, m, k)
    decreases |rows|
  {
    var n := |rows| - 1;
    var init := rows[..n];
    var d0 := GameData(init, lk);
    var d := GameData(rows, lk);
    assert d[..|d0|] == d0;
    if m < |d0| {
      GameDataIndex(init, lk, m);
      var k :| RecordOfRow(init, lk, m, k);
      assert init[k] == rows[k] && init[..k] == rows[..k];
      assert d[m] == d0[m] && d[..m] == d0[..m];
      assert RecordOfRow(rows, lk, m, k);
    } else {
      assert RecordOfRow(rows, lk, m, n);
    }
  }

  /** `g` is the record of the first row that gives its (title, author_id). */
  ghost predicate FirstRecord(rows: seq<CsvRow>, lk: Lookups, g: VideoGame)
  {
    exists k :: FirstWithKey(rows, lk, k, g)
  }

  /** Row k has a source URL, `g` is its record, and no earlier row with a
      source URL gives the same (title, author_id). */
  ghost predicate FirstWithKey(rows: seq<CsvRow>, lk: Lookups, k: int, g: VideoGame)
  {
    && 0 <= k < |rows| && rows[k].sourceUrl.Some?
    && g == GameFor(rows[k].sourceUrl.value, rows[k].datasetUrl, lk)
    && forall j :: 0 <= j < k && rows[j].sourceUrl.Some? ==>
         GameKey(GameFor(rows[j].sourceUrl.value, rows[j].datasetUrl, lk)) != GameKey(g)
  }

  /** The first row with a key gives a key no record of the rows before it has. */
  lemma FirstKeyIsNew(rows: seq<CsvRow>, lk: Lookups, k: int, g: VideoGame)
    requires FirstWithKey(rows, lk, k, g)
    ensures GameKey(g) !in KeysOf(GameData(rows[..k], lk), GameKey)
  {
    forall y | y in GameData(rows[..k], lk) ensures GameKey(y) != GameKey(g) {
      var r :| r in rows[..k] && r.sourceUrl.Some? && y == GameFor(r.sourceUrl.value, r.datasetUrl, lk);
      var j :| 0 <= j < k && rows[..k][j] == r;
      assert rows[j] == r;
    }
  }

  /** `drop_duplicates` keeps the first row per key: the record of the first
      row that gives its (title, author_id) is a candidate. */
  lemma GameCandidatesKeepsFirst(rows: seq<CsvRow>, lk: Lookups, k: int, g: VideoGame)
    requires FirstWithKey(rows, lk, k, g)
    ensures g in GameCandidates(rows, lk)
  {
    var d := GameData(rows, lk);
    var pre := GameData(rows[..k], lk);
    GameDataPrefix(rows, lk, k + 1);
    assert rows[..k] + [rows[k]] == rows[..k + 1];
    GameDataSnoc(rows[..k], rows[k], lk);
    var m := |pre|;
    assert d[m] == g && d[..m] == pre;
    FirstKeyIsNew(rows, lk, k, g);
    DistinctByKeepsFirst(d, GameKey, m);
  }

  /** The key of an earlier row with a source URL is a key of the records of
      the rows before k. */
  lemma EarlierRowKey(rows: seq<CsvRow>, lk: Lookups, k: int, j: int)
    requires 0 <= j < k <= |rows| && rows[j].sourceUrl.Some?
    ensures GameKey(GameFor(rows[j].sourceUrl.value, rows[j].datasetUrl, lk)) in KeysOf(GameData(rows[..k], lk), GameKey)
  {
    assert rows[..k][j] == rows[j];
    assert rows[j] in rows[..k];
    assert GameFor(rows[j].sourceUrl.value, rows[j].datasetUrl, lk) in GameData(rows[..k], lk);
  }

  /** Conversely, each candidate is the record of the first row with its key. */
  lemma GameCandidatesOnlyFirst(rows: seq<CsvRow>, lk: Lookups, g: VideoGame)
    requires g in GameCandidates(rows, lk)
    ensures exists k :: FirstWithKey(rows, lk, k, g)
  {
    var d := GameData(rows, lk);
    DistinctByOnlyFirst(d, GameKey, g);
    var i :| 0 <= i < |d| && d[i] == g && GameKey(g) !in KeysOf(d[..i], GameKey);
    GameDataIndex(rows, lk, i);
    var k :| RecordOfRow(rows, lk, i, k);
    forall j | 0 <= j < k && rows[j].sourceUrl.Some?
      ensures GameKey(GameFor(rows[j].sourceUrl.value, rows[j].datasetUrl, lk)) != GameKey(g)
    {
      EarlierRowKey(rows, lk, k, j);
    }
    assert FirstWithKey(rows, lk, k, g);
  }

  /** `_load_video_games`. */
  function LoadVideoGames(s: Store, rows: seq<CsvRow>, faults: set<ReadSite>): (r: Store)
    ensures r == s.(games := r.games) && s.games <= r.games
    ensures Valid(s) ==> Valid(r)
  {
    var c := GameCandidates(rows, LookupsOf(s));
    var t := AppendMissing(s.games, c, GameKey, GameKeys in faults);
    s.(games := t)
  }

  /** The keys `_load_video_games` leaves stored: see `AppendMissingSpec`. */
  lemma LoadVideoGamesKeys(s: Store, rows: seq<CsvRow>, faults: set<ReadSite>)
    ensures var r := LoadVideoGames(s, rows, faults);
      var data := GameData(rows, LookupsOf(s));
      && KeysOf(Recs(r.games), GameKey) == KeysOf(Recs(s.games), GameKey) + KeysOf(data, GameKey)
      && (GameKeys !in faults && KeysOf(data, GameKey) <= KeysOf(Recs(s.games), GameKey) ==> r == s)
  {
    AppendMissingSpec(s.games, GameCandidates(rows, LookupsOf(s)), GameKey, GameKeys in faults);
  }

  /** The rows `_load_video_games` appends: one record built for a CSV row,
      and without a failed read only under a key not already stored. */
  lemma LoadVideoGamesRows(s: Store, rows: seq<CsvRow>, faults: set<ReadSite>)
    ensures var r := LoadVideoGames(s, rows, faults);
      var lk := LookupsOf(s);
      && (forall i :: |s.games| <= i < |r.games| ==>
            exists x :: x in rows && x.sourceUrl.Some? && r.games[i].rec == GameFor(x.sourceUrl.value, x.datasetUrl, lk))
      && (GameKeys !in faults ==>
            forall i :: |s.games| <= i < |r.games| ==> GameKey(r.games[i].rec) !in KeysOf(Recs(s.games), GameKey))
      && (GameKeys !in faults && NaturalKeysUnique(s) ==> NaturalKeysUnique(r))
  {
    var c := GameCandidates(rows, LookupsOf(s));
    var fail := GameKeys in faults;
    var t := AppendMissing(s.games, c, GameKey, fail);
    assert LoadVideoGames(s, rows, faults).games == t;
    assert !fail && NaturalKeysUnique(s) ==> NaturalKeysUnique(LoadVideoGames(s, rows, faults)) by {
      AppendMissingSpec(s.games, c, GameKey, fail);
    }
    AppendMissingRows(s.games, c, GameKey, fail);
    forall i | |s.games| <= i < |t|
      ensures exists x :: x in rows && x.sourceUrl.Some? && t[i].rec == GameFor(x.sourceUrl.value, x.datasetUrl, LookupsOf(s))
    {
      assert t[i].rec in c;
    }
  }

  /** Each game `_load_video_games` appends, whatever reads fail, is the record
      of the first row that gives its (title, author_id). */
  lemma LoadVideoGamesKeepsFirst(s: Store, rows: seq<CsvRow>, faults: set<ReadSite>)
    ensures var r := LoadVideoGames(s, rows, faults);
      forall i :: |s.games| <= i < |r.games| ==> FirstRecord(rows, LookupsOf(s), r.games[i].rec)
  {
    var t := LoadVideoGames(s, rows, faults).games;
    forall i | |s.games| <= i < |t| ensures FirstRecord(rows, LookupsOf(s), t[i].rec) {
      var k := LoadVideoGamesAppendedFirst(s, rows, faults, i);
      assert FirstWithKey(rows, LookupsOf(s), k, t[i].rec);
    }
  }

  /** One appended game of `LoadVideoGamesKeepsFirst`, with the row it comes from. */
  lemma LoadVideoGamesAppendedFirst(s: Store, rows: seq<CsvRow>, faults: set<ReadSite>, i: int) returns (k: int)
    requires |s.games| <= i < |LoadVideoGames(s, rows, faults).games|
    ensures FirstWithKey(rows, LookupsOf(s), k, LoadVideoGames(s, rows, faults).games[i].rec)
  {
    var lk := LookupsOf(s);
    var c := GameCandidates(rows, lk);
    var t := AppendMissing(s.games, c, GameKey, GameKeys in faults);
    assert LoadVideoGames(s, rows, faults).games == t;
    assert t[i].rec in c by {
      AppendMissingRows(s.games, c, GameKey, GameKeys in faults);
    }
    GameCandidatesOnlyFirst(rows, lk, t[i].rec);
    k :| FirstWithKey(rows, lk, k, t[i].rec);
  }

  /** Without a failed read, the record of the first row with a key that is not
      stored yet is appended. */
  lemma LoadVideoGamesAppendsFirst(s: Store, rows: seq<CsvRow>, faults: set<ReadSite>, k: int, g: VideoGame)
    requires GameKeys !in faults
    requires FirstWithKey(rows, LookupsOf(s), k, g)
    requires GameKey(g) !in KeysOf(Recs(s.games), GameKey)
    ensures g in Recs(LoadVideoGames(s, rows, faults).games)[|s.games|..]
  {
    var c := GameCandidates(rows, LookupsOf(s));
    GameCandidatesKeepsFirst(rows, LookupsOf(s), k, g);
    AppendMissingSpec(s.games, c, GameKey, false);
  }

  /** Every table of `r` starts with the rows of the same table of `s`. */
  predicate Extends(s: Store, r: Store)
  {
    && s.authors <= r.authors && s.repos <= r.repos && s.indexers <= r.indexers
    && s.games <= r.games && s.datasets <= r.datasets
    && s.gameAuthors <= r.gameAuthors && s.gameRepos <= r.gameRepos
    && s.authorRepos <= r.authorRepos && s.datasetGames <= r.datasetGames
  }

  /** The join tables of `s` and `r` are the same. */
  predicate SameLinks(s: Store, r: Store)
  {
    && s.gameAuthors == r.gameAuthors && s.gameRepos == r.gameRepos
    && s.authorRepos == r.authorRepos && s.datasetGames == r.datasetGames
  }

  /** The entity tables of `s` and `r` are the same. */
  predicate SameEntities(s: Store, r: Store)
  {
    && s.authors == r.authors && s.repos == r.repos && s.indexers == r.indexers
    && s.games == r.games && s.datasets == r.datasets
  }

  /** The authors, repositories and indexers steps: the state whose tables
      `_load_video_games` reads its lookups from. */
  function BeforeGames(s: Store, rows: seq<CsvRow>, faults: set<ReadSite>): (r: Store)
    ensures Extends(s, r) && SameLinks(s, r) && r.games == s.games && r.datasets == s.datasets
    ensures Valid(s) ==> Valid(r)
  {
    var s1 := LoadAuthors(s, rows, faults);
    var s2 := LoadRepositories(s1, rows, faults);
    LoadIndexers(s2, rows, faults)
  }

  /** The keys the first three steps leave stored, whatever reads fail. */
  lemma BeforeGamesKeys(s: Store, rows: seq<CsvRow>, faults: set<ReadSite>)
    ensures var r := BeforeGames(s, rows, faults);
      && KeysOf(Recs(r.authors), AuthorName) == KeysOf(Recs(s.authors), AuthorName) + ExtractedAuthors(rows)
      && KeysOf(Recs(r.repos), RepoUrl) == KeysOf(Recs(s.repos), RepoUrl) + SourceUrlSet(rows)
      && KeysOf(Recs(r.indexers), IndexerUrl) == KeysOf(Recs(s.indexers), IndexerUrl) + DatasetUrlSet(rows)
  {
    var s1 := LoadAuthors(s, rows, faults);
    var s2 := LoadRepositories(s1, rows, faults);
    LoadAuthorsKeys(s, rows, faults);
    LoadRepositoriesKeys(s1, rows, faults);
    LoadIndexersKeys(s2, rows, faults);
  }

  /** Without failed reads on their tables, the first three steps keep at
      most one row per natural key. */
  lemma BeforeGamesNaturalKeys(s: Store, rows: seq<CsvRow>, faults: set<ReadSite>)
    requires NaturalKeysUnique(s)
    requires AuthorNames !in faults && RepoUrls !in faults && IndexerUrls !in faults
    ensures NaturalKeysUnique(BeforeGames(s, rows, faults))
  {
    var s1 := LoadAuthors(s, rows, faults);
    var s2 := LoadRepositories(s1, rows, faults);
    LoadAuthorsRows(s, rows, faults);
    LoadRepositoriesRows(s1, rows, faults);
    LoadIndexersRows(s2, rows, faults);
  }

  /** A game record built against a store that holds the row's author name,
      source URL and dataset URL references the rows with those keys. */
  lemma GameForResolves(s: Store, url: string, datasetUrl: Option<string>)
    requires ExtractRepoInfo(Some(url)).author in KeysOf(Recs(s.authors), AuthorName)
    requires url in KeysOf(Recs(s.repos), RepoUrl)
    requires datasetUrl.Some? ==> datasetUrl.value in KeysOf(Recs(s.indexers), IndexerUrl)
    ensures var g := GameFor(url, datasetUrl, LookupsOf(s));
      && g.authorId.Some? && g.repoId.Some?
      && (g.indexerId.Some? <==> datasetUrl.Some?)
      && (exists a :: a in s.authors && a.id == g.authorId.value && a.rec.name == ExtractRepoInfo(Some(url)).author)
      && (exists r :: r in s.repos && r.id == g.repoId.value && r.rec.url == url)
      && (g.indexerId.Some? ==> exists i :: i in s.indexers && i.id == g.indexerId.value && Some(i.rec.url) == datasetUrl)
  {
    IdIndexFinds(s.authors, AuthorName, ExtractRepoInfo(Some(url)).author);
    IdIndexFinds(s.repos, RepoUrl, url);
    if datasetUrl.Some? {
      IdIndexFinds(s.indexers, IndexerUrl, datasetUrl.value);
    }
  }

  /** The games built for the CSV rows reference stored rows: the author with
      the extracted name, the repository with the row's URL, and an indexer
      exactly when the row names a dataset, whatever reads fail. */
  lemma GameReferencesResolve(s: Store, rows: seq<CsvRow>, faults: set<ReadSite>, k: int)
    requires 0 <= k < |rows| && rows[k].sourceUrl.Some?
    ensures var s3 := BeforeGames(s, rows, faults);
      var url := rows[k].sourceUrl.value;
      var g := GameFor(url, rows[k].datasetUrl, LookupsOf(s3));
      && g.authorId.Some? && g.repoId.Some?
      && (g.indexerId.Some? <==> rows[k].datasetUrl.Some?)
      && (exists a :: a in s3.authors && a.id == g.authorId.value && a.rec.name == ExtractRepoInfo(Some(url)).author)
      && (exists r :: r in s3.repos && r.id == g.repoId.value && r.rec.url == url)
      && (g.indexerId.Some? ==> exists i :: i in s3.indexers && i.id == g.indexerId.value && Some(i.rec.url) == rows[k].datasetUrl)
  {
    BeforeGamesKeys(s, rows, faults);
    assert rows[k] in rows;
    GameForResolves(BeforeGames(s, rows, faults), rows[k].sourceUrl.value, rows[k].datasetUrl);
  }

  /** The five entity steps in the order `load_csv_data` runs them. */
  function LoadEntities(s: Store, rows: seq<CsvRow>, faults: set<ReadSite>): (r: Store)
    ensures Extends(s, r) && SameLinks(s, r)
    ensures Valid(s) ==> Valid(r)
  {
    var s3 := BeforeGames(s, rows, faults);
    var s4 := LoadVideoGames(s3, rows, faults);
    LoadDatasets(s4, rows, faults)
  }

  /** The entity steps store every key the rows give, whatever reads fail. */
  lemma LoadEntitiesKeys(s: Store, rows: seq<CsvRow>, faults: set<ReadSite>)
    ensures var r := LoadEntities(s, rows, faults);
      && KeysOf(Recs(r.authors), AuthorName) == KeysOf(Recs(s.authors), AuthorName) + ExtractedAuthors(rows)
      && KeysOf(Recs(r.repos), RepoUrl) == KeysOf(Recs(s.repos), RepoUrl) + SourceUrlSet(rows)
      && KeysOf(Recs(r.indexers), IndexerUrl) == KeysOf(Recs(s.indexers), IndexerUrl) + DatasetUrlSet(rows)
      && KeysOf(Recs(r.games), GameKey)
         == KeysOf(Recs(s.games), GameKey) + KeysOf(GameData(rows, LookupsOf(BeforeGames(s, rows, faults))), GameKey)
      && KeysOf(Recs(r.datasets), DatasetUrl) == KeysOf(Recs(s.datasets), DatasetUrl) + DatasetUrlSet(rows)
  {
    var s3 := BeforeGames(s, rows, faults);
    var s4 := LoadVideoGames(s3, rows, faults);
    BeforeGamesKeys(s, rows, faults);
    LoadVideoGamesKeys(s3, rows, faults);
    LoadDatasetsKeys(s4, rows, faults);
  }

  /** Without failed reads on the entity tables, at most one row per natural
      key stays so. */
  lemma LoadEntitiesNaturalKeys(s: Store, rows: seq<CsvRow>, faults: set<ReadSite>)
    requires NaturalKeysUnique(s)
    requires AuthorNames !in faults && RepoUrls !in faults && IndexerUrls !in faults
    requires GameKeys !in faults && DatasetUrls !in faults
    ensures NaturalKeysUnique(LoadEntities(s, rows, faults))
  {
    var s3 := BeforeGames(s, rows, faults);
    var s4 := LoadVideoGames(s3, rows, faults);
    BeforeGamesNaturalKeys(s, rows, faults);
    LoadVideoGamesRows(s3, rows, faults);
    LoadDatasetsRows(s4, rows, faults);
  }

  /** A second run of the entity steps over the same rows, without failed
      reads, finds every key stored and changes nothing. */
  lemma LoadEntitiesSettled(s: Store, rows: seq<CsvRow>, faults: set<ReadSite>, t: Store)
    requires SameEntities(t, LoadEntities(s, rows, faults))
    ensures LoadEntities(t, rows, {}) == t
  {
    var s3 := BeforeGames(s, rows, faults);
    LoadEntitiesKeys(s, rows, faults);
    LoadAuthorsKeys(t, rows, {});
    LoadRepositoriesKeys(t, rows, {});
    LoadIndexersKeys(t, rows, {});
    assert BeforeGames(t, rows, {}) == t;
    assert LookupsOf(t) == LookupsOf(s3);
    LoadVideoGamesKeys(t, rows, {});
    LoadDatasetsKeys(t, rows, {});
  }
}
