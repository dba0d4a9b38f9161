/** `DB`: the row-level API over the `authors` and `video_games` tables.
    Every statement runs in its own connection and is committed at the end of
    the `with` block; a statement that raises inside a `try` is rolled back
    and the method returns `False`. Such a failure is the `fault` argument. */
module DbClass {
  import opened Tables
  import opened Records

  /** The tables `DB` itself asks for the last row id of. */
  datatype TableName = AuthorsTable | VideoGamesTable

  /** The keyword arguments of `insert_video_game`; an absent keyword is
      `None`. */
  datatype GameOptions = GameOptions(
    repoId: Option<int>,
    marketplaceId: Option<int>,
    indexerId: Option<int>,
    description: Option<string>,
    genre: Option<string>,
    version: Option<string>,
    rating: Option<string>,
    price: Option<string>,
    isPublished: Option<bool>)

  /** A call without keyword arguments. */
  const NoOptions := GameOptions(None, None, None, None, None, None, None, None, None)

  /** The record `insert_video_game` writes: each keyword's value, or NULL
      when the keyword is absent, except `is_published`, which defaults to
      false. */
  function NewGame(title: string, authorId: int, kw: GameOptions): (g: VideoGame)
    ensures g.title == title && g.authorId == Some(authorId)
    ensures g.isPublished <==> kw.isPublished == Some(true)
    ensures g.repoId == kw.repoId && g.marketplaceId == kw.marketplaceId && g.indexerId == kw.indexerId
    ensures g.description == kw.description && g.genre == kw.genre && g.version == kw.version
    ensures g.rating == kw.rating && g.price == kw.price
    ensures kw == NoOptions ==>
      && g.repoId.None? && g.marketplaceId.None? && g.indexerId.None?
      && g.description.None? && g.genre.None? && g.version.None? && g.rating.None? && g.price.None?
      && !g.isPublished
  {
    VideoGame(title, Some(authorId), kw.repoId, kw.marketplaceId, kw.indexerId,
      kw.description, kw.genre, kw.version, kw.rating, kw.price,
      match kw.isPublished case Some(b) => b case None => false)
  }

  /** `id` is what `get_last_row_id` promises: the first `_id` of `SELECT _id
      FROM t ORDER BY _id DESC`, that is the largest id, or 0 for an empty
      table. This is the query's meaning, stated apart from `LastRowId`, which
      computes it; `IsLastIdUnique` shows that it fixes the id. */
  ghost predicate IsLastId<T>(t: seq<Row<T>>, id: int)
  {
    && (|t| == 0 ==> id == 0)
    && (forall r :: r in t ==> r.id <= id)
    && (|t| > 0 ==> exists r :: r in t && r.id == id)
  }

  /** At most one id is the last one. */
  lemma IsLastIdUnique<T>(t: seq<Row<T>>, a: int, b: int)
    requires IsLastId(t, a) && IsLastId(t, b)
    ensures a == b
  {
    if |t| > 0 {
      var ra :| ra in t && ra.id == a;
      var rb :| rb in t && rb.id == b;
    }
  }

  /** `DELETE FROM t WHERE _id = :id`. */
  function DeleteById<T(!new)>(t: seq<Row<T>>, id: int): (r: seq<Row<T>>)
    ensures forall x :: x in r <==> x in t && x.id != id
    ensures |r| < |t| <==> exists x :: x in t && x.id == id
  {
    ExcludeKeys(t, RowId, {id})
  }

  /** `DELETE FROM video_games WHERE author_id = :id`. */
  function DeleteByAuthor(t: seq<Row<VideoGame>>, authorId: int): (r: seq<Row<VideoGame>>)
    ensures forall x :: x in r <==> x in t && x.rec.authorId != Some(authorId)
    ensures |r| < |t| <==> exists x :: x in t && x.rec.authorId == Some(authorId)
  {
    ExcludeKeys(t, StoredGameAuthor, {Some(authorId)})
  }

  /** Deleting the row an insert just added gives back the table as it was. */
  lemma DeleteInserted<T(!new)>(t: seq<Row<T>>, rec: T)
    ensures DeleteById(Insert(t, rec), LastRowId(t) + 1) == t
  {
    var id := LastRowId(t) + 1;
    var r := Insert(t, rec);
    assert r == t + [r[|t|]] by {
      assert r[..|t|] == t;
    }
    assert RowId(r[|t|]) in {id};
    assert r[..|r| - 1] == t;
    forall x | x in t ensures RowId(x) !in {id} {
      assert x.id <= LastRowId(t);
    }
    ExcludeKeysNone(t, RowId, {id});
  }

  /** A second delete of the same id changes nothing. */
  lemma DeleteByIdTwice<T(!new)>(t: seq<Row<T>>, id: int)
    ensures DeleteById(DeleteById(t, id), id) == DeleteById(t, id)
  {
    ExcludeKeysNone(DeleteById(t, id), RowId, {id});
  }

  /** `_id` is the primary key, so a delete by id removes at most one row
      (`rowcount` is 0 or 1). */
  lemma {:induction false} DeleteByIdAtMostOne<T(!new)>(t: seq<Row<T>>, id: int)
    requires UniqueIds(t)
    ensures |t| - 1 <= |DeleteById(t, id)| <= |t|
    decreases |t|
  {
    if |t| > 0 {
      var n := |t| - 1;
      var init := t[..n];
      assert t == init + [t[n]];
      assert UniqueIds(init) by {
        forall i, j | 0 <= i < j < n ensures RowId(init[i]) != RowId(init[j]) {
          assert init[i] == t[i] && init[j] == t[j];
        }
      }
      if t[n].id == id {
        forall x | x in init ensures RowId(x) !in {id} {
          var i :| 0 <= i < n && init[i] == x;
          assert t[i] == x;
        }
        ExcludeKeysNone(init, RowId, {id});
      } else {
        DeleteByIdAtMostOne(init, id);
      }
    }
  }

  /** Deleting an author's games keeps exactly the games of other authors
      (and those without one), and a second delete changes nothing. */
  lemma DeleteByAuthorLeavesNone(t: seq<Row<VideoGame>>, authorId: int)
    ensures forall g :: g in DeleteByAuthor(t, authorId) <==> g in t && g.rec.authorId != Some(authorId)
    ensures DeleteByAuthor(DeleteByAuthor(t, authorId), authorId) == DeleteByAuthor(t, authorId)
  {
    var d := DeleteByAuthor(t, authorId);
    forall g | g in d ensures StoredGameAuthor(g) !in {Some(authorId)} {
    }
    ExcludeKeysNone(d, StoredGameAuthor, {Some(authorId)});
  }

  class DB {
    var authors: seq<Row<Author>>
    var videoGames: seq<Row<VideoGame>>

    /** Opening the database file; the tables hold what the file holds. */
    constructor (authors0: seq<Row<Author>>, videoGames0: seq<Row<VideoGame>>)
      ensures authors == authors0 && videoGames == videoGames0
    {
      authors := authors0;
      videoGames := videoGames0;
    }

    /** `get_last_row_id`. */
    method GetLastRowId(table: TableName) returns (id: int)
      ensures table == AuthorsTable ==> IsLastId(authors, id)
      ensures table == VideoGamesTable ==> IsLastId(videoGames, id)
    {
      if table == AuthorsTable {
        id := LastRowId(authors);
      } else {
        id := LastRowId(videoGames);
      }
    }

    /** `insert_author`: the new row gets the next rowid, and the id read back
        afterwards is that row's. */
    method InsertAuthor(name: string, email: string) returns (id: int)
      modifies this
      ensures authors == old(authors) + [Row(id, Author(name, email, true))]
      ensures forall r :: r in old(authors) ==> r.id < id
      ensures IsLastId(authors, id)
      ensures videoGames == old(videoGames)
      ensures UniqueIds(old(authors)) ==> UniqueIds(authors)
    {
      ghost var before := authors;
      authors := Insert(authors, Author(name, email, true));
      id := GetLastRowId(AuthorsTable);
      assert id == LastRowId(authors) by {
        assert authors[|before|] in authors;
      }
      assert authors == before + [authors[|before|]] by {
        assert authors[..|before|] == before;
      }
    }

    /** `insert_video_game`. */
    method InsertVideoGame(title: string, authorId: int, kw: GameOptions) returns (id: int)
      modifies this
      ensures videoGames == old(videoGames) + [Row(id, NewGame(title, authorId, kw))]
      ensures forall r :: r in old(videoGames) ==> r.id < id
      ensures IsLastId(videoGames, id)
      ensures authors == old(authors)
      ensures UniqueIds(old(videoGames)) ==> UniqueIds(videoGames)
    {
      ghost var before := videoGames;
      videoGames := Insert(videoGames, NewGame(title, authorId, kw));
      id := GetLastRowId(VideoGamesTable);
      assert id == LastRowId(videoGames) by {
        assert videoGames[|before|] in videoGames;
      }
      assert videoGames == before + [videoGames[|before|]] by {
        assert videoGames[..|before|] == before;
      }
    }

    /** `delete_game`: true exactly when a row with the id was deleted. */
    method DeleteGame(gameId: int, fault: bool) returns (deleted: bool)
      modifies this
      ensures fault ==> !deleted && videoGames == old(videoGames)
      ensures !fault ==> videoGames == DeleteById(old(videoGames), gameId)
      ensures !fault ==> (deleted <==> exists r :: r in old(videoGames) && r.id == gameId)
      ensures forall r :: r in videoGames <==> r in old(videoGames) && (fault || r.id != gameId)
      ensures authors == old(authors)
    {
      if fault {
        return false;
      }
      var before := |videoGames|;
      videoGames := DeleteById(videoGames, gameId);
      deleted := |videoGames| < before;
    }

    /** `delete_author`. Foreign keys are not enforced, so an author's games
        do not stop the delete; they keep the dangling id. */
    method DeleteAuthor(authorId: int, fault: bool) returns (deleted: bool)
      modifies this
      ensures fault ==> !deleted && authors == old(authors)
      ensures !fault ==> authors == DeleteById(old(authors), authorId)
      ensures !fault ==> (deleted <==> exists r :: r in old(authors) && r.id == authorId)
      ensures forall r :: r in authors <==> r in old(authors) && (fault || r.id != authorId)
      ensures videoGames == old(videoGames)
    {
      if fault {
        return false;
      }
      var before := |authors|;
      authors := DeleteById(authors, authorId);
      deleted := |authors| < before;
    }

    /** `delete_author_and_games`: the author's games go first, then the
        author; the result reports only the author delete, so the games go
        even when no author row has the id. A failure rolls both back. */
    method DeleteAuthorAndGames(authorId: int, fault: bool) returns (deleted: bool)
      modifies this
      ensures fault ==> !deleted && authors == old(authors) && videoGames == old(videoGames)
      ensures !fault ==> videoGames == DeleteByAuthor(old(videoGames), authorId)
      ensures !fault ==> authors == DeleteById(old(authors), authorId)
      ensures !fault ==> (deleted <==> exists r :: r in old(authors) && r.id == authorId)
      ensures !fault ==> forall g :: g in videoGames ==> g.rec.authorId != Some(authorId)
    {
      if fault {
        return false;
      }
      videoGames := DeleteByAuthor(videoGames, authorId);
      var before := |authors|;
      authors := DeleteById(authors, authorId);
      deleted := |authors| < before;
    }
  }
}
