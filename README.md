# Video game database: CSV ingest and row API, modelled in Dafny

This project models two parts of the open-source video game database.

1. The CSV load of `VideoGameDatabase`. It reads rows that each hold a source-code URL and a
   referencing dataset URL. From them it fills five entity tables (authors, repositories,
   indexers, video games, datasets), then four join tables (game–author, game–repository,
   author–repository, dataset–game). Every step derives candidate records, drops those whose
   natural key is already stored, and appends the rest.
2. The row-level API of `DB`: last row id, inserting an author or a game, and the three deletes.

The SQLite store is modelled as in-memory tables. Each table is a sequence of rows `Row(id, rec)`
in table order. A new row gets the rowid SQLite assigns: one more than the largest stored id,
or 1 in an empty table.

Layout:

- `tables.dfy` (`Tables`): rows and rowids. It also holds the table and pandas operations the
  steps are built from:
  - `LastRowId` and `Insert`/`InsertAll`;
  - `drop_duplicates`/`unique` as `DistinctBy` (the first occurrence is kept);
  - `~isin` filtering as `ExcludeKeys`;
  - the "subtract existing keys, then append" step as `AppendMissing`;
  - `dict(zip(...))` as `IdIndex` (the last row wins).
- `records.dfy` (`Records`): the entity records and their natural keys. These are the author
  name, the repository URL, the indexer URL, the game `(title, author_id)` and the dataset URL.
- `source_url.dfy` (`SourceUrl`): `_extract_repo_info`. It includes a model of the leftmost
  `re.search` for `github\.com/([^/]+)/([^/]+)`, `rstrip('/')`, `re.sub(r'\.git$', '')` and
  `str.split('/')`.
- `loaders.dfy` (`Loaders`): the five `_load_*` steps as functions on a `Store` of the nine
  tables, with lemmas about the keys and rows each step leaves.
- `links.dfy` (`Links`):
  - the four blocks of `_create_many_to_many_relationships`;
  - the join each block derives its candidates from;
  - the composite-primary-key failure of an insert;
  - completeness and idempotence lemmas.
- `pipeline.dfy` (`Pipeline`): `load_csv_data` after the CSV has been read, and what the whole
  load guarantees.
- `video_game_database.dfy` (`VideoGameDb`): the class `VideoGameDatabase`.
  - Its nine tables are fields that its methods update.
  - The loops of `_load_repositories`, `_load_video_games` and `_load_datasets` are `while`
    loops with invariants.
  - Each method is proved to leave exactly the state that the matching function of `Loaders`,
    `Links` or `Pipeline` describes.
- `db_class.dfy` (`DbClass`): the class `DB` over the `authors` and `video_games` tables.

Inputs the model takes as parameters:

- The CSV rows are a `seq<CsvRow>`. `read_csv` and its NA detection are not modelled; a
  missing cell is `None`.
- Whether a try-wrapped read of the stored keys raised is a `faults: set<ReadSite>` argument of
  the loader. Such a read is the `existing = pd.read_sql(...)` inside `try`; when it raises,
  the step keeps all candidates.
- Whether a `DB` delete raised is a `fault: bool` argument. A fault rolls the delete back and
  the method returns false.

Where a docstring and the code disagree, the model follows the code. The docstring of
`delete_author` says it fails for an author with games; the code deletes anyway (see
"Left out"). A value without '/', such as `not-a-url`, gives `("not-a-url", "unknown")` as the
last return of `_extract_repo_info` says.

## Model

Source paths are relative to the repository root.

| member | source | states |
|---|---|---|
| SourceUrl.Split | complete_database_implementation.py:205 | `split('/')` yields at least one piece and no piece contains the separator |
| SourceUrl.SplitJoin | complete_database_implementation.py:205 | joining the pieces with the separator gives the string back, so nothing is lost |
| SourceUrl.SplitHasTwo | complete_database_implementation.py:205-206 | there are at least two pieces exactly when the string contains a '/' |
| SourceUrl.SplitLastTwo | complete_database_implementation.py:205-207 | with a '/', the string is some prefix, then the second-to-last piece, '/', and the last piece |
| SourceUrl.RunEnd | complete_database_implementation.py:198 | a greedy `[^/]+` run stops at the first '/' or at the end, and contains no '/' |
| SourceUrl.MatchAt | complete_database_implementation.py:198 | both groups of a match start contain no '/' |
| SourceUrl.SearchFrom | complete_database_implementation.py:198 | both groups found by a search contain no '/' |
| SourceUrl.MatchAtSound | complete_database_implementation.py:198 | a match at index i satisfies the pattern read declaratively: the host, a non-empty owner, '/', then a non-empty name up to the next '/' or the end |
| SourceUrl.MatchAtComplete | complete_database_implementation.py:198 | every declarative occurrence of the pattern at i is the match found at i, with the same groups |
| SourceUrl.SearchFromNone | complete_database_implementation.py:198 | a search from i fails exactly when no index from i on starts a match |
| SourceUrl.SearchFindsLeftmost | complete_database_implementation.py:198 | `re.search` returns the groups of the leftmost occurrence |
| SourceUrl.SearchNoneIff | complete_database_implementation.py:198-199 | the search fails exactly when the pattern occurs nowhere in the string |
| SourceUrl.TrimTrailingSlashes | complete_database_implementation.py:201 | `rstrip('/')` leaves a string without '/' unchanged, so it cannot affect group 2 |
| SourceUrl.StripGitSuffix | complete_database_implementation.py:202 | removing `.git$` never introduces a '/' |
| SourceUrl.StripGitSuffixOnce | complete_database_implementation.py:202 | exactly one trailing ".git" is removed (`x.git.git` gives `x.git`) |
| SourceUrl.StripGitSuffixKeeps | complete_database_implementation.py:202 | a name that does not end in ".git" (or ".git" plus a newline) is kept unchanged |
| SourceUrl.ExtractRepoInfo | complete_database_implementation.py:192-210 | total: every input, a missing one included, gives a (title, author) pair without '/'; a missing value gives ("unknown", "unknown") |
| SourceUrl.ExtractFromGitHub | complete_database_implementation.py:198-203 | for a value whose leftmost occurrence of the pattern is `github.com/<owner>/<name>`, the result is (name less one trailing ".git", owner) |
| SourceUrl.ExtractHttpsGitHub | complete_database_implementation.py:198-203 | `https://github.com/<owner>/<name>` followed by nothing or by a '/'-led tail gives (name less ".git", owner) |
| SourceUrl.ExtractFallback | complete_database_implementation.py:205-207 | without a GitHub match, a value with a '/' gives (last segment, second-to-last segment), and the value ends in author + "/" + title |
| SourceUrl.ExtractNoSlash | complete_database_implementation.py:205-208 | a value without '/' gives (the whole value, "unknown") |
| SourceUrl.ExtractNotAUrl | complete_database_implementation.py:205-208 | `not-a-url` gives ("not-a-url", "unknown") |
| Tables.LastRowId | db_class.py:145-153 | 0 for an empty table; otherwise an id that some row has and that is at least every row's id |
| Tables.Insert | db_class.py:157-168 | an insert appends exactly one row with the record; its id is above every stored id and is the new largest id; unique ids stay unique |
| Tables.InsertAll | complete_database_implementation.py:234 | `to_sql(if_exists='append')` appends the records in order after the stored rows; the records column becomes the old one plus the new records; ids stay unique |
| Tables.InsertAllNumbers | complete_database_implementation.py:234 | the k-th appended record gets rowid LastRowId + 1 + k |
| Tables.ExcludeKeys | complete_database_implementation.py:229 | `~isin`: keeps exactly the elements whose key is not in the set, and all of them exactly when no key is excluded; no excluded key means no change; all keys excluded means nothing is left |
| Tables.ExcludeKeysConcat | complete_database_implementation.py:229 | filtering a concatenation gives the two filtered parts concatenated, so the kept elements stay in input order |
| Tables.ExcludeKeysSnoc | complete_database_implementation.py:229 | an element added at the end is kept, at the end, exactly when its key is not excluded |
| Tables.ExcludeKeysSingleton | complete_database_implementation.py:229 | one element is kept exactly when its key is not excluded |
| Tables.ExcludeKeysNone | complete_database_implementation.py:229 | a filter that matches no element changes nothing |
| Tables.DistinctBy | complete_database_implementation.py:253 | `drop_duplicates(subset=…)`: no key is repeated, the same keys remain, and only input elements remain |
| Tables.DistinctByKeepsFirst | complete_database_implementation.py:253 | the first element with each key is the one kept |
| Tables.DistinctByOnlyFirst | complete_database_implementation.py:253 | every element kept is the first one with its key |
| Tables.DistinctByPrefix | complete_database_implementation.py:253 | deduplicating a prefix gives a prefix of the deduplicated whole, so the input order is kept |
| Tables.DistinctByKeepsAll | complete_database_implementation.py:462 | where equal keys mean equal elements (a whole-row `drop_duplicates()`), exactly the input's elements remain |
| Tables.AppendMissing | complete_database_implementation.py:225-234 | the stored rows stay as a prefix and unique ids stay unique |
| Tables.AppendMissingSpec | complete_database_implementation.py:225-234 | with a failed read, all candidates are appended; otherwise exactly the candidates whose key is not stored, in candidate order. Afterwards the stored keys are the old ones plus the candidates', every natural key still occurs once, and a step whose candidates are all stored changes nothing |
| Tables.AppendMissingRows | complete_database_implementation.py:225-234 | each appended row holds a candidate, and without a failed read it holds one whose key was not stored |
| Tables.IdIndexSpec | complete_database_implementation.py:300-302 | `dict(zip(keys, ids))` has exactly the stored keys, each mapped to the id of the last row with that key |
| Tables.IdIndexFinds | complete_database_implementation.py:300-302 | `.get` of a stored key finds a row with that key |
| Tables.IdIndexUnique | complete_database_implementation.py:300-302 | when the natural key is unique, `.get` gives the one row holding the key |
| Loaders.RowAuthors | complete_database_implementation.py:216-217 | one name per row, a missing URL included, defined as the extracted author of that row; what follows from it: the names are exactly those the extraction gives, none contains '/', and a row without a URL gives `unknown` |
| Loaders.AuthorCandidates | complete_database_implementation.py:216-223 | one record per distinct extracted author, with email `<name>@github.com` and active; the names are exactly the extracted ones, in order of first appearance (the k-th record is that of the k-th name `unique()` gives) |
| Loaders.LoadAuthors | complete_database_implementation.py:212-234 | only the authors table changes; the old rows stay as a prefix; ids stay unique |
| Loaders.LoadAuthorsKeys | complete_database_implementation.py:225-234 | afterwards the stored names are the old ones plus every extracted author; without a failed read, a load whose authors are all stored changes nothing |
| Loaders.LoadAuthorsRows | complete_database_implementation.py:219-234 | each appended row is the record for its name; without a failed read, no appended name was stored before and names stay unique |
| Loaders.RepoData | complete_database_implementation.py:241-251 | one record for each row with a source URL: the extracted title and author, the URL, active; the URLs are exactly the present source URLs |
| Loaders.RepoCandidates | complete_database_implementation.py:253 | after `drop_duplicates(subset=['url'])`, each present source URL occurs once |
| Loaders.LoadRepositories | complete_database_implementation.py:237-265 | only the repos table changes; the old rows stay as a prefix; ids stay unique |
| Loaders.LoadRepositoriesKeys | complete_database_implementation.py:255-264 | afterwards the stored URLs are the old ones plus every present source URL; a load whose URLs are all stored, without a failed read, changes nothing |
| Loaders.LoadRepositoriesRows | complete_database_implementation.py:246-264 | each appended row is the record for its URL; without a failed read it has a URL not stored before, and URLs stay unique |
| Loaders.PresentDatasetUrls | complete_database_implementation.py:271 | `dropna()` keeps exactly the present dataset URLs |
| Loaders.DatasetUrlList | complete_database_implementation.py:271 | `dropna().unique()` lists each present dataset URL exactly once |
| Loaders.LastSegment | complete_database_implementation.py:274 | `url.split('/')[-1]` has no '/', and is the whole URL when the URL has none |
| Loaders.LastSegmentAfterSlash | complete_database_implementation.py:274 | a URL ending in `/<seg>` gives `seg` |
| Loaders.IndexerCandidates | complete_database_implementation.py:271-277 | one active indexer per distinct dataset URL, titled by its last segment |
| Loaders.LoadIndexers | complete_database_implementation.py:267-289 | only the indexers table changes; the old rows stay as a prefix; ids stay unique |
| Loaders.LoadIndexersKeys | complete_database_implementation.py:279-288 | afterwards the stored URLs are the old ones plus every present dataset URL; without a failed read, nothing changes when all are stored |
| Loaders.LoadIndexersRows | complete_database_implementation.py:273-288 | each appended row is the record for its URL; without a failed read its URL was not stored before, and URLs stay unique |
| Loaders.DatasetCandidates | complete_database_implementation.py:344-356 | one dataset per distinct dataset URL: its last segment, author `community`, type `game_collection`, active |
| Loaders.LoadDatasets | complete_database_implementation.py:340-368 | only the datasets table changes; the old rows stay as a prefix; ids stay unique |
| Loaders.LoadDatasetsKeys | complete_database_implementation.py:358-367 | afterwards the stored URLs are the old ones plus every present dataset URL; without a failed read, nothing changes when all are stored |
| Loaders.LoadDatasetsRows | complete_database_implementation.py:348-367 | each appended row is the record for its URL; without a failed read its URL was not stored before, and URLs stay unique |
| Loaders.GameFor | complete_database_implementation.py:310-321 | the game's title is the extracted one; `author_id`, `repo_id` and `indexer_id` are set exactly when the author name, the source URL and the dataset URL are in the lookups, and then hold the looked-up ids; the description is `Open source video game: <title>`, the genre `Open Source`, `is_published` true and the other columns NULL |
| Loaders.GameData | complete_database_implementation.py:305-321 | the games built are exactly one record for each row with a source URL, with ids from the lookups |
| Loaders.GameCandidates | complete_database_implementation.py:323 | after `drop_duplicates(subset=['title', 'author_id'])`, each game key occurs once, and each record is one built for a row |
| Loaders.GameDataSnoc | complete_database_implementation.py:306-321 | a row added at the end adds its record at the end when it has a source URL, and nothing otherwise, so the records follow row order |
| Loaders.GameDataPrefix | complete_database_implementation.py:306-321 | the records of the first n rows are a prefix of the records of all rows |
| Loaders.GameDataIndex | complete_database_implementation.py:306-321 | the m-th record is that of some row k with a source URL, and the records before it are exactly those of the rows before k |
| Loaders.FirstKeyIsNew | complete_database_implementation.py:306-323 | the first row with a (title, author_id) gives a key that no record of the earlier rows has |
| Loaders.EarlierRowKey | complete_database_implementation.py:306-321 | the key of an earlier row with a source URL is among the keys of the records of the rows before k |
| Loaders.GameCandidatesKeepsFirst | complete_database_implementation.py:323 | the record of the first row that gives a (title, author_id) is a candidate |
| Loaders.GameCandidatesOnlyFirst | complete_database_implementation.py:323 | every candidate is the record of the first row that gives its (title, author_id) |
| Loaders.LoadVideoGames | complete_database_implementation.py:291-338 | only the games table changes; the old rows stay as a prefix; ids stay unique |
| Loaders.LoadVideoGamesKeys | complete_database_implementation.py:325-337 | afterwards the stored (title, author_id) keys are the old ones plus those of the built games; without a failed read, nothing changes when all are stored |
| Loaders.LoadVideoGamesRows | complete_database_implementation.py:305-337 | each appended game is the record built for some row with a source URL; without a failed read, its key was not stored before and keys stay unique |
| Loaders.LoadVideoGamesKeepsFirst | complete_database_implementation.py:305-337 | whatever reads fail, each appended game is the record of the first row that gives its (title, author_id) |
| Loaders.LoadVideoGamesAppendedFirst | complete_database_implementation.py:305-337 | one appended game of the lemma above, with the row it comes from |
| Loaders.LoadVideoGamesAppendsFirst | complete_database_implementation.py:323-337 | without a failed read, the record of the first row with a (title, author_id) that is not stored yet is appended |
| Loaders.BeforeGames | complete_database_implementation.py:180-182 | the authors, repositories and indexers steps only append and leave games, datasets and links alone |
| Loaders.BeforeGamesKeys | complete_database_implementation.py:180-182 | after the first three steps, every extracted author, source URL and dataset URL is stored |
| Loaders.BeforeGamesNaturalKeys | complete_database_implementation.py:180-182 | without failed reads, the first three steps keep one row per natural key |
| Loaders.GameForResolves | complete_database_implementation.py:300-317 | when the author name, the source URL and the dataset URL are stored, the game's `author_id` and `repo_id` are set and name such rows; `indexer_id` is set exactly when the row has a dataset URL, and names the indexer with it |
| Loaders.GameReferencesResolve | complete_database_implementation.py:180-183 | in a load, every game built for a row references the author, repository and (when there is a dataset URL) indexer written by the steps before it, whatever reads fail |
| Loaders.LoadEntities | complete_database_implementation.py:180-184 | the five entity steps only append and leave the join tables alone |
| Loaders.LoadEntitiesKeys | complete_database_implementation.py:180-184 | the entity steps store every key the rows give, whatever reads fail |
| Loaders.LoadEntitiesNaturalKeys | complete_database_implementation.py:180-184 | without failed reads on the entity tables, one row per natural key stays so |
| Loaders.LoadEntitiesSettled | complete_database_implementation.py:180-184 | a second run of the entity steps over the same rows, without failed reads, appends nothing |
| Links.RefLinks | complete_database_implementation.py:375-379 | the pairs are exactly (game id, referenced id) for the games whose reference is not null; with unique game ids, no pair repeats |
| Links.OwnedRepos | complete_database_implementation.py:419-423 | one author's `owner` pairs are exactly the repositories whose `author` equals the author's name |
| Links.AuthorRepoJoin | complete_database_implementation.py:419-423 | `JOIN repos r ON a.name = r.author`: exactly the name-matching (author id, repo id) pairs |
| Links.AuthorRepoLinks | complete_database_implementation.py:419-423 | with `DISTINCT`, the same pairs, none repeated |
| Links.DatasetsAt | complete_database_implementation.py:454-460 | the `referenced` pairs of one game with the datasets whose URL is the given indexer URL |
| Links.GameMatches | complete_database_implementation.py:444-460 | a game's pairs are the datasets whose URL is the URL of the game's indexer |
| Links.DatasetGameJoin | complete_database_implementation.py:442-460 | the two merges give exactly the (dataset, game) pairs where the game's indexer URL equals the dataset URL |
| Links.DatasetGameLinks | complete_database_implementation.py:461-463 | after `drop_duplicates()`, no pair repeats |
| Links.DatasetGameLinksMembers | complete_database_implementation.py:442-463 | the deduplicated pairs are exactly the joined pairs |
| Links.LinksToAdd | complete_database_implementation.py:382-390 | with a failed read, all candidates; otherwise exactly the candidates whose pair is not stored, and none of their pairs is stored |
| Links.AppendMissingLinks | complete_database_implementation.py:381-393 | the stored links stay as a prefix, and a completed block stores the old pairs plus the candidates'. Without a failed read it appends exactly the unstored candidates, and it changes nothing when all are stored. With a failed read, the insert raises exactly when a candidate pair is already stored |
| Links.AppendLinksFacts | complete_database_implementation.py:381-393 | the appended pairs keep the table's composite key unique exactly when they are distinct and new; without a failed read they are |
| Links.LinkGameAuthors | complete_database_implementation.py:375-394 | only `game_authors` changes, by appending; a raise leaves the state as it was; a completed block stores every game's (id, author_id); on a valid store it completes unless the read of stored pairs fails; with every candidate stored it changes nothing |
| Links.LinkGameRepos | complete_database_implementation.py:397-416 | the same for `game_repos` and (id, repo_id) |
| Links.LinkAuthorRepos | complete_database_implementation.py:419-438 | the same for `author_repos` and the name-matching pairs |
| Links.LinkDatasetGames | complete_database_implementation.py:440-479 | the same for `dataset_to_video_game` and the URL-matching pairs |
| Links.CreateLinks | complete_database_implementation.py:370-479 | the entity tables are untouched and the join tables only grow; on a valid store it completes unless a read of stored pairs fails; completed, each table holds the old pairs plus its candidates; with every candidate stored and no failed reads, nothing changes |
| Links.CreateLinksKeepsGameAuthors | complete_database_implementation.py:375-394 | once the game–author read succeeds, that block's pairs stay stored whatever the later blocks do, even when one of them raises |
| Links.CreateLinksKeepsGameRepos | complete_database_implementation.py:397-416 | the same for the game–repository pairs, once the first two reads succeed |
| Links.CreateLinksKeepsAuthorRepos | complete_database_implementation.py:419-438 | the same for the author–repository pairs, once the first three reads succeed, whatever the dataset–game block does |
| Links.GameAuthorLinksStored | complete_database_implementation.py:375-393 | a table holding the game–author candidates holds (game id, author id) for every game with an author |
| Links.GameRepoLinksStored | complete_database_implementation.py:397-415 | the same for repositories |
| Links.AuthorRepoLinksStored | complete_database_implementation.py:419-437 | a table holding the author–repository candidates holds every name-matching pair |
| Links.DatasetGameLinksStored | complete_database_implementation.py:440-478 | a table holding the dataset–game candidates holds every URL-matching (dataset, game) pair |
| Links.DatasetGamePairStored | complete_database_implementation.py:440-478 | the same for one (game, indexer, dataset) triple |
| Links.CreateLinksCovers | complete_database_implementation.py:370-479 | after a completed step, every candidate of all four blocks is stored |
| Links.CreateLinksComplete | complete_database_implementation.py:370-479 | after a completed step, each game's author and repository pair, each author–owned-repository pair and each dataset–game pair through the indexer URL is stored |
| Links.CreateLinksSettled | complete_database_implementation.py:370-479 | running the step again on its own completed result, without failed reads, completes and changes nothing |
| Pipeline.LoadCsvData | complete_database_implementation.py:171-187 | the five entity steps in order, then the links; a valid store stays valid |
| Pipeline.LoadCsvDataExtends | complete_database_implementation.py:171-187 | a load only appends: every table of the old state is a prefix of the same table afterwards, completed or not |
| Pipeline.LoadCsvDataKeys | complete_database_implementation.py:179-184 | whatever reads fail, the entity tables hold every key the rows give |
| Pipeline.LoadCsvDataSucceeds | complete_database_implementation.py:186-187 | on a valid store, only a failed read of stored pairs can make the load raise |
| Pipeline.LoadCsvDataKeepsNaturalKeys | complete_database_implementation.py:212-368 | without failed reads on the entity tables, one row per natural key stays so |
| Pipeline.LoadCsvDataIdempotent | complete_database_implementation.py:171-187 | reloading the same rows after a completed load, without failed reads, completes and appends nothing to any table |
| Pipeline.LoadCsvDataLinksComplete | complete_database_implementation.py:370-479 | after a completed load, every pair the join tables are derived from is stored |
| VideoGameDb.VideoGameDatabase.LoadAuthors | complete_database_implementation.py:212-234 | the object's tables become exactly `Loaders.LoadAuthors` of the old ones |
| VideoGameDb.VideoGameDatabase.LoadRepositories | complete_database_implementation.py:237-265 | the `iterrows` loop builds `RepoData`; the tables become `Loaders.LoadRepositories` of the old ones |
| VideoGameDb.VideoGameDatabase.LoadIndexers | complete_database_implementation.py:267-289 | the tables become `Loaders.LoadIndexers` of the old ones |
| VideoGameDb.VideoGameDatabase.LoadVideoGames | complete_database_implementation.py:291-338 | the lookups are read before the loop, and the loop builds `GameData`; the tables become `Loaders.LoadVideoGames` of the old ones |
| VideoGameDb.VideoGameDatabase.LoadDatasets | complete_database_implementation.py:340-368 | the loop over the distinct URLs builds the candidates; the tables become `Loaders.LoadDatasets` of the old ones |
| VideoGameDb.VideoGameDatabase.LinkGameAuthors | complete_database_implementation.py:375-394 | the tables and the returned flag are `Links.LinkGameAuthors` of the old tables |
| VideoGameDb.VideoGameDatabase.LinkGameRepos | complete_database_implementation.py:397-416 | the same for `Links.LinkGameRepos` |
| VideoGameDb.VideoGameDatabase.LinkAuthorRepos | complete_database_implementation.py:419-438 | the same for `Links.LinkAuthorRepos` |
| VideoGameDb.VideoGameDatabase.LinkDatasetGames | complete_database_implementation.py:440-479 | the same for `Links.LinkDatasetGames` |
| VideoGameDb.VideoGameDatabase.CreateManyToManyRelationships | complete_database_implementation.py:370-479 | the four blocks in order give the state and completion of `Links.CreateLinks` |
| VideoGameDb.VideoGameDatabase.LoadCsvData | complete_database_implementation.py:171-187 | the steps in order give the state and completion of `Pipeline.LoadCsvData`, so every `Pipeline` lemma holds of the object |
| DbClass.NewGame | db_class.py:182-195 | the game row has the title and author; each optional column holds its keyword's value, so an absent keyword gives NULL in its column and a passed one is stored there; `is_published` is true only when passed true; without keywords, every optional column is NULL and `is_published` is false |
| DbClass.IsLastIdUnique | db_class.py:145-153 | the query's answer is unique: two ids that both meet the description are equal |
| DbClass.DeleteById | db_class.py:218-251 | `DELETE ... WHERE _id = :id` keeps exactly the rows with another id, and removes a row exactly when some row has the id |
| DbClass.DeleteByAuthor | db_class.py:245 | `DELETE ... WHERE author_id = :id` keeps exactly the games with another or no author, and removes a row exactly when some game has the author |
| DbClass.DeleteInserted | db_class.py:155-227 | deleting the id an insert returned gives the table back as it was |
| DbClass.DeleteByIdTwice | db_class.py:218-225 | a second delete of the same id changes nothing |
| DbClass.DeleteByIdAtMostOne | db_class.py:218-225 | on unique ids a delete by id removes at most one row, so `rowcount` is 0 or 1 |
| DbClass.DeleteByAuthorLeavesNone | db_class.py:245 | deleting by author keeps exactly the games of other authors and those without one; a repeat changes nothing |
| DbClass.DB.GetLastRowId | db_class.py:145-153 | 0 for an empty table; otherwise the largest `_id` of the table, and some row has it |
| DbClass.DB.InsertAuthor | db_class.py:155-169 | exactly one active author row with the name and email is appended; the id returned is that row's, is above every old id and is the table's largest; the games table is unchanged |
| DbClass.DB.InsertVideoGame | db_class.py:171-197 | exactly one row with `NewGame`'s record is appended; the id returned is that row's and is the table's largest; the authors table is unchanged |
| DbClass.DB.DeleteGame | db_class.py:218-227 | it removes exactly the rows with the id, keeps every other row, and returns true exactly when one was removed; a failure returns false and changes nothing |
| DbClass.DB.DeleteAuthor | db_class.py:229-238 | the same for the authors table; the games are untouched, so their author ids may dangle |
| DbClass.DB.DeleteAuthorAndGames | db_class.py:240-251 | it removes every game with the author, then the author row, and returns true exactly when an author row was removed; a failure rolls both back and returns false |

## Left out

- `read_csv`, its NA detection and any column besides `Source Code URL` and `Referencing Dataset`: the rows are a parameter.
- `astype(str)` coercion in the composite keys is not modelled. Keys are compared as tuples. When a column holds nulls, pandas turns integer ids into floats (`1.0`), and that can make an equal pair look new. The model does not capture this.
- `Loaders.LoadVideoGamesKeys`: the `(title, author_id)` key is compared as a pair with an optional author id. It does not follow the `nan`/`None` spelling of a missing id in the composite string.
- The lookups read at complete_database_implementation.py:296-298 are outside a `try`, and a raise there is not modelled. The same holds for the link candidate queries at 375, 397, 419, 442 and 444. Only the guarded `existing` reads are failure sites.
- Timestamps (`created_at`, `func.now()`, `datetime.now()`) and every column the steps do not write are left out.
- Rowids are always max + 1. SQLite's fallback to a random unused rowid after the largest 64-bit id, and rowid reuse, are not modelled.
- SQL variable limits and the chunking of `to_sql(method='multi')` are left out. A block's insert is treated as one transaction: a repeated primary-key pair makes the whole block raise.
- The entity tables are modelled without UNIQUE constraints, because the schema declares none on the natural keys. Only `_id` and the join tables' composite primary keys are enforced.
- Foreign keys are not enforced. SQLite leaves them off unless a connection enables them, and the code never does. So `delete_author` deletes even when games reference the author, although the docstring at db_class.py:230 says it will fail.
- Row order of `SELECT` results is modelled as table (rowid) order.
- `_show_statistics`, every `print`, and the emoji progress output are left out: they only report.
- The schema DDL (`_create_schema`, `DB._create_tables`) and the code generator (`generate_sqlalchemy_code`, generated_models.py) are not part of this model. They are declarations and a constant text.
- `DB.get_all_games` and `DB.get_all_authors` are reads outside the modelled core.
- `get_last_row_id` for table names other than `authors` and `video_games`: `DB` itself only asks for those two.
- The `(TypeError, AttributeError)` path of `get_last_row_id` is not modelled.
- osvg/interface.py, osvg/cli.py, osvg/rawg.py, osvg/types.py and the entry points are not part of this model. They are user interface, argument parsing, an HTTP client and foreign-library validation.
- The `except Exception` path of `_extract_repo_info` cannot be reached for string or missing input, and is not modelled.
- `is_published` passed explicitly as `None` would store NULL. `GameOptions` cannot express it: a missing keyword and `None` are the same there.
- `insert_author` and `insert_video_game` are modelled as always completing. A failing INSERT propagates out of them and is not modelled.
- Concurrency between connections is left out.
