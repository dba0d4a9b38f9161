/** The records held by the entity and join tables, with the natural key of
    each. Only the columns the loaders and the row-level API write are kept;
    timestamps are left out. */
module Records {
  import opened Tables

  datatype Author = Author(name: string, email: string, isActive: bool)

  /** `author` is the owner name taken from the repository URL. */
  datatype Repo = Repo(title: string, author: string, url: string, isActive: bool)

  datatype Indexer = Indexer(title: string, url: string, isActive: bool)

  /** The foreign keys and the optional columns are nullable (`None`). */
  datatype VideoGame = VideoGame(
    title: string,
    authorId: Option<int>,
    repoId: Option<int>,
    marketplaceId: Option<int>,
    indexerId: Option<int>,
    description: Option<string>,
    genre: Option<string>,
    version: Option<string>,
    rating: Option<string>,
    price: Option<string>,
    isPublished: bool)

  datatype Dataset = Dataset(title: string, author: string, url: string, datasetType: string, isActive: bool)

  /** A row of a join table: the two referenced ids, which together are the
      table's primary key, and the role/type column. */
  datatype Link = Link(left: int, right: int, kind: string)

  // Natural keys.
  function AuthorName(a: Author): string { a.name }
  function RepoUrl(r: Repo): string { r.url }
  function IndexerUrl(i: Indexer): string { i.url }
  function DatasetUrl(d: Dataset): string { d.url }
  function GameKey(g: VideoGame): (string, Option<int>) { (g.title, g.authorId) }
  function LinkPair(l: Link): (int, int) { (l.left, l.right) }

  // Foreign-key columns of a game.
  function GameAuthorRef(g: VideoGame): Option<int> { g.authorId }
  function GameRepoRef(g: VideoGame): Option<int> { g.repoId }
  function StoredGameAuthor(r: Row<VideoGame>): Option<int> { r.rec.authorId }
}
