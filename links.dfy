/** `_create_many_to_many_relationships`: the four join tables derived from
    the entity tables, and the step that appends the derived pairs that are
    not stored yet. */
module Links {
  import opened Tables
  import opened Records
  import opened Loaders

  /** The result of a step that can raise: the state it leaves and whether it
      completed. */
  datatype Outcome = Outcome(store: Store, ok: bool)

  /** `SELECT vg._id, vg.<ref>, '<kind>' FROM video_games vg WHERE vg.<ref> IS
      NOT NULL`, in table order. */
  function RefLinks(games: seq<Row<VideoGame>>, ref: VideoGame -> Option<int>, kind: string): (l: seq<Link>)
    ensures forall x :: x in l <==>
      exists g :: g in games && ref(g.rec).Some? && x == Link(g.id, ref(g.rec).value, kind)
    ensures UniqueIds(games) ==> KeysDistinct(l, LinkPair)
    decreases |games|
  {
    if |games| == 0 then []
    else
      var n := |games| - 1;
      var g := games[n];
      var init := RefLinks(games[..n], ref, kind);
      assert games == games[..n] + [g];
      var last := if ref(g.rec).Some? then [Link(g.id, ref(g.rec).value, kind)] else [];
      RefLinksDistinct(games, init, last);
      init + last
  }

  lemma RefLinksDistinct(games: seq<Row<VideoGame>>, init: seq<Link>, last: seq<Link>)
    requires |games| > 0
    requires forall x :: x in init ==> exists g :: g in games[..|games| - 1] && x.left == g.id
    requires forall x :: x in last ==> x.left == games[|games| - 1].id
    requires |last| <= 1
    requires UniqueIds(games[..|games| - 1]) ==> KeysDistinct(init, LinkPair)
    ensures UniqueIds(games) ==> KeysDistinct(init + last, LinkPair)
  {
    var n := |games| - 1;
    if UniqueIds(games) {
      assert UniqueIds(games[..n]) by {
        forall i, j | 0 <= i < j < n ensures games[..n][i].id != games[..n][j].id {
          assert games[..n][i] == games[i] && games[..n][j] == games[j];
        }
      }
      forall x, y | x in init && y in last ensures LinkPair(x) != LinkPair(y) {
        var g :| g in games[..n] && x.left == g.id;
        var i :| 0 <= i < n && games[..n][i] == g;
        assert games[i] == g;
      }
      KeysDistinctConcat(init, last, LinkPair);
    }
  }

  /** The `owner` pairs of one author: `JOIN repos r ON a.name = r.author`. */
  function OwnedRepos(a: Row<Author>, repos: seq<Row<Repo>>): (l: seq<Link>)
    ensures forall x :: x in l ==> x.kind == "owner"
    ensures forall x :: x in l <==>
      exists r :: r in repos && r.rec.author == a.rec.name && x == Link(a.id, r.id, "owner")
    decreases |repos|
  {
    if |repos| == 0 then []
    else
      var n := |repos| - 1;
      assert repos == repos[..n] + [repos[n]];
      OwnedRepos(a, repos[..n])
        + (if repos[n].rec.author == a.rec.name then [Link(a.id, repos[n].id, "owner")] else [])
  }

  /** The author–repository join, author by author. */
  function AuthorRepoJoin(authors: seq<Row<Author>>, repos: seq<Row<Repo>>): (l: seq<Link>)
    ensures forall x :: x in l ==> x.kind == "owner"
    ensures forall x :: x in l <==>
      exists a, r :: a in authors && r in repos && r.rec.author == a.rec.name && x == Link(a.id, r.id, "owner")
    decreases |authors|
  {
    if |authors| == 0 then []
    else
      var n := |authors| - 1;
      assert authors == authors[..n] + [authors[n]];
      AuthorRepoJoin(authors[..n], repos) + OwnedRepos(authors[n], repos)
  }

  /** `SELECT DISTINCT a._id, r._id, 'owner' FROM authors a JOIN repos r ON
      a.name = r.author`: one link per matching (author, repository) id pair. */
  function AuthorRepoLinks(authors: seq<Row<Author>>, repos: seq<Row<Repo>>): (l: seq<Link>)
    ensures KeysDistinct(l, LinkPair)
    ensures forall x :: x in l <==>
      exists a, r :: a in authors && r in repos && r.rec.author == a.rec.name && x == Link(a.id, r.id, "owner")
  {
    var j := AuthorRepoJoin(authors, repos);
    DistinctByKeepsAll(j, LinkPair);
    DistinctBy(j, LinkPair)
  }

  /** The datasets whose URL equals an indexer's URL, linked to game `gid`. */
  function DatasetsAt(gid: int, url: string, datasets: seq<Row<Dataset>>): (l: seq<Link>)
    ensures forall x :: x in l ==> x.kind == "referenced"
    ensures forall x :: x in l <==>
      exists d :: d in datasets && d.rec.url == url && x == Link(d.id, gid, "referenced")
    decreases |datasets|
  {
    if |datasets| == 0 then []
    else
      var n := |datasets| - 1;
      assert datasets == datasets[..n] + [datasets[n]];
      DatasetsAt(gid, url, datasets[..n])
        + (if datasets[n].rec.url == url then [Link(datasets[n].id, gid, "referenced")] else [])
  }

  /** One game's rows of the merge: its indexer (`LEFT JOIN indexers ON
      vg.indexer_id = i._id`) and the datasets with that indexer's URL. */
  function GameMatches(g: Row<VideoGame>, indexers: seq<Row<Indexer>>, datasets: seq<Row<Dataset>>): (l: seq<Link>)
    ensures forall x :: x in l ==> x.kind == "referenced"
    ensures forall x :: x in l <==>
      exists i, d :: i in indexers && d in datasets && g.rec.indexerId == Some(i.id) && d.rec.url == i.rec.url
        && x == Link(d.id, g.id, "referenced")
    decreases |indexers|
  {
    if |indexers| == 0 then []
    else
      var n := |indexers| - 1;
      assert indexers == indexers[..n] + [indexers[n]];
      GameMatches(g, indexers[..n], datasets)
        + (if g.rec.indexerId == Some(indexers[n].id) then DatasetsAt(g.id, indexers[n].rec.url, datasets) else [])
  }

  /** The inner merge of games (with their indexer URLs) and datasets on URL
      equality, game by game. */
  function DatasetGameJoin(games: seq<Row<VideoGame>>, indexers: seq<Row<Indexer>>, datasets: seq<Row<Dataset>>): (l: seq<Link>)
    ensures forall x :: x in l ==> x.kind == "referenced"
    ensures forall x :: x in l <==>
      exists g, i, d :: g in games && i in indexers && d in datasets
        && g.rec.indexerId == Some(i.id) && d.rec.url == i.rec.url && x == Link(d.id, g.id, "referenced")
    decreases |games|
  {
    if |games| == 0 then []
    else
      var n := |games| - 1;
      assert games == games[..n] + [games[n]];
      DatasetGameJoin(games[..n], indexers, datasets) + GameMatches(games[n], indexers, datasets)
  }

  /** The merge's `[['dataset_id', 'video_game_id']].drop_duplicates()`, each
      pair tagged `referenced`. */
  function DatasetGameLinks(games: seq<Row<VideoGame>>, indexers: seq<Row<Indexer>>, datasets: seq<Row<Dataset>>): (l: seq<Link>)
    ensures KeysDistinct(l, LinkPair)
  {
    DistinctBy(DatasetGameJoin(games, indexers, datasets), LinkPair)
  }

  /** The merge links exactly the (dataset, game) pairs joined through the
      game's indexer URL. */
  lemma DatasetGameLinksMembers(games: seq<Row<VideoGame>>, indexers: seq<Row<Indexer>>, datasets: seq<Row<Dataset>>)
    ensures forall x :: x in DatasetGameLinks(games, indexers, datasets) <==>
      exists g, i, d :: g in games && i in indexers && d in datasets
        && g.rec.indexerId == Some(i.id) && d.rec.url == i.rec.url && x == Link(d.id, g.id, "referenced")
  {
    DistinctByKeepsAll(DatasetGameJoin(games, indexers, datasets), LinkPair);
  }

  /** The pairs one join-table block inserts: the candidates whose pair is
      not stored, or all of them when the read of the stored pairs fails. */
  function LinksToAdd(t: seq<Link>, cands: seq<Link>, readFails: bool): (r: seq<Link>)
    ensures readFails ==> r == cands
    ensures !readFails ==> forall l :: l in r <==> l in cands && LinkPair(l) !in KeysOf(t, LinkPair)
    ensures !readFails ==> KeysOf(r, LinkPair) !! KeysOf(t, LinkPair)
  {
    if readFails then cands else ExcludeKeys(cands, LinkPair, KeysOf(t, LinkPair))
  }

  /** One join-table block. Nothing to insert leaves the table as it is;
      otherwise the insert succeeds only when no primary-key pair repeats,
      and raises (`None`) leaving the table as it was when one does. */
  function AppendMissingLinks(t: seq<Link>, cands: seq<Link>, readFails: bool): (r: Option<seq<Link>>)
    ensures r.Some? ==> t <= r.value
    ensures r.Some? ==> KeysOf(r.value, LinkPair) == KeysOf(t, LinkPair) + KeysOf(cands, LinkPair)
    ensures r.Some? && KeysDistinct(t, LinkPair) ==> KeysDistinct(r.value, LinkPair)
    ensures !readFails && KeysDistinct(t, LinkPair) && KeysDistinct(cands, LinkPair) ==>
      r == Some(t + ExcludeKeys(cands, LinkPair, KeysOf(t, LinkPair)))
    ensures readFails && KeysDistinct(t, LinkPair) && KeysDistinct(cands, LinkPair) ==>
      (r.None? <==> !(KeysOf(t, LinkPair) !! KeysOf(cands, LinkPair)))
    ensures !readFails && KeysOf(cands, LinkPair) <= KeysOf(t, LinkPair) ==> r == Some(t)
  {
    var added := LinksToAdd(t, cands, readFails);
    AppendLinksFacts(t, cands, readFails);
    if added == [] then Some(t)
    else if KeysDistinct(t + added, LinkPair) then Some(t + added)
    else None
  }

  lemma AppendLinksFacts(t: seq<Link>, cands: seq<Link>, readFails: bool)
    ensures var added := LinksToAdd(t, cands, readFails);
      && KeysOf(t + added, LinkPair) == KeysOf(t, LinkPair) + KeysOf(cands, LinkPair)
      && (added == [] ==> t + added == t)
      && (KeysDistinct(t + added, LinkPair) <==>
          KeysDistinct(t, LinkPair) && KeysDistinct(added, LinkPair) && KeysOf(t, LinkPair) !! KeysOf(added, LinkPair))
      && (!readFails && KeysDistinct(cands, LinkPair) ==>
          KeysDistinct(added, LinkPair) && KeysOf(t, LinkPair) !! KeysOf(added, LinkPair))
  {
    var ks := KeysOf(t, LinkPair);
    var added := LinksToAdd(t, cands, readFails);
    KeysOfConcat(t, added, LinkPair);
    KeysDistinctConcat(t, added, LinkPair);
    if added == [] {
      assert t + added == t;
    }
    if !readFails {
      ExcludeKeysCovers(cands, LinkPair, ks);
      forall k | k in KeysOf(added, LinkPair) ensures k in KeysOf(cands, LinkPair) && k !in ks {
        var x :| x in added && LinkPair(x) == k;
      }
      if KeysDistinct(cands, LinkPair) {
        ExcludeKeysKeepsDistinct(cands, LinkPair, ks, LinkPair);
      }
    }
  }

  /** The candidates of the four blocks, read from the entity tables. */
  function GameAuthorLinks(s: Store): seq<Link>
  {
    RefLinks(s.games, GameAuthorRef, "primary_developer")
  }

  function GameRepoLinks(s: Store): seq<Link>
  {
    RefLinks(s.games, GameRepoRef, "main")
  }

  /** The "Game-Author relationships" block. */
  function LinkGameAuthors(s: Store, faults: set<ReadSite>): (o: Outcome)
    ensures o.store == s.(gameAuthors := o.store.gameAuthors) && s.gameAuthors <= o.store.gameAuthors
    ensures !o.ok ==> o.store == s
    ensures o.ok ==> KeysOf(o.store.gameAuthors, LinkPair) == KeysOf(s.gameAuthors, LinkPair) + KeysOf(GameAuthorLinks(s), LinkPair)
    ensures Valid(s) ==> Valid(o.store)
    ensures Valid(s) && GameAuthorPairs !in faults ==> o.ok
    ensures GameAuthorPairs !in faults && KeysOf(GameAuthorLinks(s), LinkPair) <= KeysOf(s.gameAuthors, LinkPair) ==> o == Outcome(s, true)
  {
    var r := AppendMissingLinks(s.gameAuthors, GameAuthorLinks(s), GameAuthorPairs in faults);
    if r.None? then Outcome(s, false) else Outcome(s.(gameAuthors := r.value), true)
  }

  /** The "Game-Repository relationships" block. */
  function LinkGameRepos(s: Store, faults: set<ReadSite>): (o: Outcome)
    ensures o.store == s.(gameRepos := o.store.gameRepos) && s.gameRepos <= o.store.gameRepos
    ensures !o.ok ==> o.store == s
    ensures o.ok ==> KeysOf(o.store.gameRepos, LinkPair) == KeysOf(s.gameRepos, LinkPair) + KeysOf(GameRepoLinks(s), LinkPair)
    ensures Valid(s) ==> Valid(o.store)
    ensures Valid(s) && GameRepoPairs !in faults ==> o.ok
    ensures GameRepoPairs !in faults && KeysOf(GameRepoLinks(s), LinkPair) <= KeysOf(s.gameRepos, LinkPair) ==> o == Outcome(s, true)
  {
    var r := AppendMissingLinks(s.gameRepos, GameRepoLinks(s), GameRepoPairs in faults);
    if r.None? then Outcome(s, false) else Outcome(s.(gameRepos := r.value), true)
  }

  /** The "Author-Repository relationships" block. */
  function LinkAuthorRepos(s: Store, faults: set<ReadSite>): (o: Outcome)
    ensures o.store == s.(authorRepos := o.store.authorRepos) && s.authorRepos <= o.store.authorRepos
    ensures !o.ok ==> o.store == s
    ensures o.ok ==>
      KeysOf(o.store.authorRepos, LinkPair) == KeysOf(s.authorRepos, LinkPair) + KeysOf(AuthorRepoLinks(s.authors, s.repos), LinkPair)
    ensures Valid(s) ==> Valid(o.store)
    ensures Valid(s) && AuthorRepoPairs !in faults ==> o.ok
    ensures AuthorRepoPairs !in faults && KeysOf(AuthorRepoLinks(s.authors, s.repos), LinkPair) <= KeysOf(s.authorRepos, LinkPair) ==> o == Outcome(s, true)
  {
    var r := AppendMissingLinks(s.authorRepos, AuthorRepoLinks(s.authors, s.repos), AuthorRepoPairs in faults);
    if r.None? then Outcome(s, false) else Outcome(s.(authorRepos := r.value), true)
  }

  /** The "Dataset ↔ VideoGame relationships" block. */
  function LinkDatasetGames(s: Store, faults: set<ReadSite>): (o: Outcome)
    ensures o.store == s.(datasetGames := o.store.datasetGames) && s.datasetGames <= o.store.datasetGames
    ensures !o.ok ==> o.store == s
    ensures o.ok ==>
      KeysOf(o.store.datasetGames, LinkPair) == KeysOf(s.datasetGames, LinkPair) + KeysOf(DatasetGameLinks(s.games, s.indexers, s.datasets), LinkPair)
    ensures Valid(s) ==> Valid(o.store)
    ensures Valid(s) && DatasetGamePairs !in faults ==> o.ok
    ensures DatasetGamePairs !in faults && KeysOf(DatasetGameLinks(s.games, s.indexers, s.datasets), LinkPair) <= KeysOf(s.datasetGames, LinkPair) ==> o == Outcome(s, true)
  {
    var r := AppendMissingLinks(s.datasetGames, DatasetGameLinks(s.games, s.indexers, s.datasets), DatasetGamePairs in faults);
    if r.None? then Outcome(s, false) else Outcome(s.(datasetGames := r.value), true)
  }

  /** Every candidate pair of the four blocks is stored already. */
  predicate Covered(s: Store)
  {
    && KeysOf(GameAuthorLinks(s), LinkPair) <= KeysOf(s.gameAuthors, LinkPair)
    && KeysOf(GameRepoLinks(s), LinkPair) <= KeysOf(s.gameRepos, LinkPair)
    && KeysOf(AuthorRepoLinks(s.authors, s.repos), LinkPair) <= KeysOf(s.authorRepos, LinkPair)
    && KeysOf(DatasetGameLinks(s.games, s.indexers, s.datasets), LinkPair) <= KeysOf(s.datasetGames, LinkPair)
  }

  /** `_create_many_to_many_relationships`: the four blocks in order; the first
      that raises ends the step, and the blocks before it stay applied. */
  function CreateLinks(s: Store, faults: set<ReadSite>): (o: Outcome)
    ensures o.store.authors == s.authors && o.store.repos == s.repos && o.store.indexers == s.indexers
    ensures o.store.games == s.games && o.store.datasets == s.datasets
    ensures s.gameAuthors <= o.store.gameAuthors && s.gameRepos <= o.store.gameRepos
    ensures s.authorRepos <= o.store.authorRepos && s.datasetGames <= o.store.datasetGames
    ensures Valid(s) ==> Valid(o.store)
    ensures (Valid(s) && GameAuthorPairs !in faults && GameRepoPairs !in faults
      && AuthorRepoPairs !in faults && DatasetGamePairs !in faults) ==> o.ok
    ensures o.ok ==>
      && KeysOf(o.store.gameAuthors, LinkPair) == KeysOf(s.gameAuthors, LinkPair) + KeysOf(GameAuthorLinks(s), LinkPair)
      && KeysOf(o.store.gameRepos, LinkPair) == KeysOf(s.gameRepos, LinkPair) + KeysOf(GameRepoLinks(s), LinkPair)
      && KeysOf(o.store.authorRepos, LinkPair)
        == KeysOf(s.authorRepos, LinkPair) + KeysOf(AuthorRepoLinks(s.authors, s.repos), LinkPair)
      && KeysOf(o.store.datasetGames, LinkPair)
        == KeysOf(s.datasetGames, LinkPair) + KeysOf(DatasetGameLinks(s.games, s.indexers, s.datasets), LinkPair)
    ensures faults == {} && Covered(s) ==> o == Outcome(s, true)
  {
    var o1 := LinkGameAuthors(s, faults);
    if !o1.ok then o1
    else
      var o2 := LinkGameRepos(o1.store, faults);
      if !o2.ok then o2
      else
        var o3 := LinkAuthorRepos(o2.store, faults);
        if !o3.ok then o3
        else LinkDatasetGames(o3.store, faults)
  }

  /** A block that completes stays applied whatever the blocks after it do:
      the game–author pairs are stored once that block's read succeeds. */
  lemma CreateLinksKeepsGameAuthors(s: Store, faults: set<ReadSite>)
    requires Valid(s) && GameAuthorPairs !in faults
    ensures KeysOf(CreateLinks(s, faults).store.gameAuthors, LinkPair)
         == KeysOf(s.gameAuthors, LinkPair) + KeysOf(GameAuthorLinks(s), LinkPair)
  {
    var o1 := LinkGameAuthors(s, faults);
    var o2 := LinkGameRepos(o1.store, faults);
    var o3 := LinkAuthorRepos(o2.store, faults);
    assert o1.ok;
    assert CreateLinks(s, faults).store.gameAuthors == o1.store.gameAuthors by {
      assert o2.store.gameAuthors == o1.store.gameAuthors;
      assert o3.store.gameAuthors == o1.store.gameAuthors;
      assert LinkDatasetGames(o3.store, faults).store.gameAuthors == o1.store.gameAuthors;
    }
  }

  /** The same for the game–repository block, once the two first reads succeed. */
  lemma CreateLinksKeepsGameRepos(s: Store, faults: set<ReadSite>)
    requires Valid(s) && GameAuthorPairs !in faults && GameRepoPairs !in faults
    ensures KeysOf(CreateLinks(s, faults).store.gameRepos, LinkPair)
         == KeysOf(s.gameRepos, LinkPair) + KeysOf(GameRepoLinks(s), LinkPair)
  {
    var o1 := LinkGameAuthors(s, faults);
    var o2 := LinkGameRepos(o1.store, faults);
    var o3 := LinkAuthorRepos(o2.store, faults);
    assert o1.ok && o2.ok;
    assert o1.store.games == s.games && o1.store.gameRepos == s.gameRepos;
    assert GameRepoLinks(o1.store) == GameRepoLinks(s);
    assert CreateLinks(s, faults).store.gameRepos == o2.store.gameRepos by {
      assert o3.store.gameRepos == o2.store.gameRepos;
      assert LinkDatasetGames(o3.store, faults).store.gameRepos == o2.store.gameRepos;
    }
  }

  /** The same for the author–repository block, once the three first reads
      succeed, whatever the dataset–game block does. */
  lemma CreateLinksKeepsAuthorRepos(s: Store, faults: set<ReadSite>)
    requires Valid(s) && GameAuthorPairs !in faults && GameRepoPairs !in faults && AuthorRepoPairs !in faults
    ensures KeysOf(CreateLinks(s, faults).store.authorRepos, LinkPair)
         == KeysOf(s.authorRepos, LinkPair) + KeysOf(AuthorRepoLinks(s.authors, s.repos), LinkPair)
  {
    var o1 := LinkGameAuthors(s, faults);
    var o2 := LinkGameRepos(o1.store, faults);
    var o3 := LinkAuthorRepos(o2.store, faults);
    assert o1.ok && o2.ok && o3.ok;
    assert o2.store.authors == s.authors && o2.store.repos == s.repos && o2.store.authorRepos == s.authorRepos;
    assert CreateLinks(s, faults).store.authorRepos == o3.store.authorRepos by {
      assert LinkDatasetGames(o3.store, faults).store.authorRepos == o3.store.authorRepos;
    }
  }

  /** A table holding the game–author candidates holds each game's author. */
  lemma GameAuthorLinksStored(s: Store, t: seq<Link>)
    requires KeysOf(GameAuthorLinks(s), LinkPair) <= KeysOf(t, LinkPair)
    ensures forall g :: g in s.games && g.rec.authorId.Some? ==> (g.id, g.rec.authorId.value) in KeysOf(t, LinkPair)
  {
    forall g | g in s.games && g.rec.authorId.Some? ensures (g.id, g.rec.authorId.value) in KeysOf(t, LinkPair) {
      var x := Link(g.id, g.rec.authorId.value, "primary_developer");
      assert GameAuthorRef(g.rec).Some?;
      assert x in GameAuthorLinks(s);
      assert LinkPair(x) in KeysOf(GameAuthorLinks(s), LinkPair);
    }
  }

  /** A table holding the game–repository candidates holds each game's
      repository. */
  lemma GameRepoLinksStored(s: Store, t: seq<Link>)
    requires KeysOf(GameRepoLinks(s), LinkPair) <= KeysOf(t, LinkPair)
    ensures forall g :: g in s.games && g.rec.repoId.Some? ==> (g.id, g.rec.repoId.value) in KeysOf(t, LinkPair)
  {
    forall g | g in s.games && g.rec.repoId.Some? ensures (g.id, g.rec.repoId.value) in KeysOf(t, LinkPair) {
      var x := Link(g.id, g.rec.repoId.value, "main");
      assert GameRepoRef(g.rec).Some?;
      assert x in GameRepoLinks(s);
      assert LinkPair(x) in KeysOf(GameRepoLinks(s), LinkPair);
    }
  }

  /** A table holding the owner pairs holds every (author, repository) pair
      with matching names. */
  lemma AuthorRepoLinksStored(authors: seq<Row<Author>>, repos: seq<Row<Repo>>, t: seq<Link>)
    requires KeysOf(AuthorRepoLinks(authors, repos), LinkPair) <= KeysOf(t, LinkPair)
    ensures forall a, r :: (a in authors && r in repos && r.rec.author == a.rec.name) ==> (a.id, r.id) in KeysOf(t, LinkPair)
  {
    forall a, r | a in authors && r in repos && r.rec.author == a.rec.name ensures (a.id, r.id) in KeysOf(t, LinkPair) {
      var x := Link(a.id, r.id, "owner");
      assert x in AuthorRepoLinks(authors, repos);
      assert LinkPair(x) in KeysOf(AuthorRepoLinks(authors, repos), LinkPair);
    }
  }

  /** A table holding the referenced pairs holds every (dataset, game) pair
      joined through the game's indexer URL. */
  lemma DatasetGameLinksStored(games: seq<Row<VideoGame>>, indexers: seq<Row<Indexer>>, datasets: seq<Row<Dataset>>, t: seq<Link>)
    requires KeysOf(DatasetGameLinks(games, indexers, datasets), LinkPair) <= KeysOf(t, LinkPair)
    ensures forall g, i, d :: (g in games && i in indexers && d in datasets && g.rec.indexerId == Some(i.id) && d.rec.url == i.rec.url) ==>
      (d.id, g.id) in KeysOf(t, LinkPair)
  {
    forall g, i, d | g in games && i in indexers && d in datasets && g.rec.indexerId == Some(i.id) && d.rec.url == i.rec.url
      ensures (d.id, g.id) in KeysOf(t, LinkPair)
    {
      DatasetGamePairStored(games, indexers, datasets, t, g, i, d);
    }
  }

  lemma DatasetGamePairStored(games: seq<Row<VideoGame>>, indexers: seq<Row<Indexer>>, datasets: seq<Row<Dataset>>, t: seq<Link>,
                              g: Row<VideoGame>, i: Row<Indexer>, d: Row<Dataset>)
    requires KeysOf(DatasetGameLinks(games, indexers, datasets), LinkPair) <= KeysOf(t, LinkPair)
    requires g in games && i in indexers && d in datasets && g.rec.indexerId == Some(i.id) && d.rec.url == i.rec.url
    ensures (d.id, g.id) in KeysOf(t, LinkPair)
  {
    var x := Link(d.id, g.id, "referenced");
    assert LinkPair(x) in KeysOf(DatasetGameLinks(games, indexers, datasets), LinkPair) by {
      DatasetGameLinksMembers(games, indexers, datasets);
      assert x in DatasetGameLinks(games, indexers, datasets);
    }
  }

  /** A completed step leaves every candidate pair stored. */
  lemma CreateLinksCovers(s: Store, faults: set<ReadSite>)
    requires CreateLinks(s, faults).ok
    ensures Covered(CreateLinks(s, faults).store)
  {
    var t := CreateLinks(s, faults).store;
    // The candidates depend only on the entity tables, which the step keeps.
    assert KeysOf(GameAuthorLinks(t), LinkPair) <= KeysOf(t.gameAuthors, LinkPair) by {
      assert GameAuthorLinks(t) == GameAuthorLinks(s);
    }
    assert KeysOf(GameRepoLinks(t), LinkPair) <= KeysOf(t.gameRepos, LinkPair) by {
      assert GameRepoLinks(t) == GameRepoLinks(s);
    }
  }

  /** After a completed step every derived pair is stored: each game's author
      and repository, each author owning a repository under its name, and each
      dataset whose URL is the URL of a game's indexer. */
  lemma CreateLinksComplete(s: Store, faults: set<ReadSite>)
    requires CreateLinks(s, faults).ok
    ensures var t := CreateLinks(s, faults).store;
      && (forall g :: g in t.games && g.rec.authorId.Some? ==> (g.id, g.rec.authorId.value) in KeysOf(t.gameAuthors, LinkPair))
      && (forall g :: g in t.games && g.rec.repoId.Some? ==> (g.id, g.rec.repoId.value) in KeysOf(t.gameRepos, LinkPair))
      && (forall a, r :: (a in t.authors && r in t.repos && r.rec.author == a.rec.name) ==>
            (a.id, r.id) in KeysOf(t.authorRepos, LinkPair))
      && (forall g, i, d :: (g in t.games && i in t.indexers && d in t.datasets && g.rec.indexerId == Some(i.id) && d.rec.url == i.rec.url) ==>
            (d.id, g.id) in KeysOf(t.datasetGames, LinkPair))
  {
    var t := CreateLinks(s, faults).store;
    CreateLinksCovers(s, faults);
    GameAuthorLinksStored(t, t.gameAuthors);
    GameRepoLinksStored(t, t.gameRepos);
    AuthorRepoLinksStored(t.authors, t.repos, t.authorRepos);
    DatasetGameLinksStored(t.games, t.indexers, t.datasets, t.datasetGames);
  }

  /** Running the step again, without failed reads, on the state a completed
      step leaves changes nothing and completes. */
  lemma CreateLinksSettled(s: Store, faults: set<ReadSite>)
    requires CreateLinks(s, faults).ok
    ensures var t := CreateLinks(s, faults).store;
      CreateLinks(t, {}) == Outcome(t, true)
  {
    CreateLinksCovers(s, faults);
  }
}
