# GitHub Repo Catalog: the catalog engine in Dafny

A model of the catalog engine of GitHub Repo Catalog & Archiver (`app.py`) and
proofs about it. The engine's parts are:

- **Repository discovery.** It finds every directory at or below a chosen folder that has a `.git` subdirectory. Nested repositories are included. It then drops repeated paths.
- **Metadata.** For each repository it computes the size of the tree without `.git`, the modification time, and the `origin` remote URL (first from `.git/config`, then by asking git).
- **Catalog.** The metadata goes into a SQLite table keyed by path: `upsert_repo`, `all_repos`, `search`.
- **Archive.** `zip_directory` chooses which files go into a zip archive of a repository.
- **Preview image.** It lists the images under `assets`/`media` and picks the one closest to GitHub's 1280x640 social preview size.

The filesystem is a value:
- A `Dir` has a name, subdirectories and file names, each in listing order.
- Paths are sequences of components relative to the folder a walk starts from.

`os.walk` is written out as the explicit stack loop CPython runs. Its caller may edit `dirs` before the walk descends. `Walk` is the resulting pre-order sequence of visited directories. Every method that walks is proved equal to a function of that sequence.

Everything the engine asks the operating system or a library is an input:
- file sizes: a partial map (a missing entry raised `OSError`);
- `stat` times: a partial map (a missing entry made `stat` raise);
- `.git/config`: a `GitConfig`;
- the outcome of `git remote get-url origin`: a `GitRun`;
- image sizes: a partial map (a missing entry is an image PIL cannot open);
- failing archive writes: a set.

The SQLite table is a sequence of rows in rowid order, plus the next AUTOINCREMENT id. SQLite allocates the rowid of an `INSERT`, and raises the AUTOINCREMENT counter to it, before it checks the `ON CONFLICT(path)` clause, and it never reuses that id. So every `upsert_repo` call uses up one id, including a call that ends in an update.

`RepoDB`'s constructor models a first run, which creates an empty `repos.db`. On later runs `CREATE TABLE IF NOT EXISTS` keeps the stored rows. Every operation, `ScanFolder` included, accepts any well-formed table (`Valid()`), so it covers a catalog that already has rows.

Modules:
- `Wrappers`: `Option`.
- `Text`: ASCII lower-casing, substring search, `str.strip`.
- `FileSystem`: `Dir`, `is_git_repo`, `list.remove`, `os.walk`.
- `DirSize`: `compute_dir_size_bytes`.
- `RemoteUrl`: `get_git_remote_url`.
- `Catalog`: the `repos` table and `RepoDB`.
- `Archive`: `zip_directory`.
- `Images`: `list_candidate_images`, `score_image`, `pick_best_image`.
- `Discovery`: the discovery, dedup and cataloguing loops of `scan_folder`.

## Model

| member | source | states |
|---|---|---|
| Text.Strip | app.py:220-221 | the result of `str.strip()` neither starts nor ends with whitespace |
| Text.StripRemovesOnlySpace | app.py:220-221 | `str.strip()` returns a contiguous run of the text, and everything it removed before and after that run is whitespace |
| Text.StripIdempotent | app.py:221 | stripping an already stripped URL changes nothing |
| RemoteUrl.ToolUrl | app.py:214-223 | git yields a URL exactly when it exits with code 0, and the URL is its stripped standard output; a launch failure or timeout yields none |
| RemoteUrl.FirstFound | app.py:208-224 | a fallback chain yields nothing iff every strategy found nothing; otherwise it yields the first strategy that found something |
| RemoteUrl.GetGitRemoteUrl | app.py:203-224 | a missing config file gives no URL; a config with an origin URL gives that URL; otherwise the answer is git's stripped output exactly when git exits with 0 |
| RemoteUrl.RemoteIsFallbackChain | app.py:203-224 | once the config file exists, the lookup is the chain "config, then git" (first found wins); a missing config file ends it with no URL |
| Catalog.IndexOfPath | app.py:136 | the conflict lookup finds a row stored under the path, or reports that no row has it |
| Catalog.CountPathUnique | app.py:136 | in a table with unique paths, a path is stored once or not at all |
| Catalog.UpsertKeepsWellFormed | app.py:132-141 | `upsert_repo` keeps paths unique and ids increasing from 1 |
| Catalog.UpsertStoresArguments | app.py:152-166 | after an upsert exactly one row has the path; it holds the call's name, size, mtime and remote; its id is the existing row's id, or the next id for a new path |
| Catalog.UpsertRow | app.py:152-166 | the `INSERT ... ON CONFLICT(path) DO UPDATE` as a function of the table: a new path gets a fresh row with the next id; an existing path keeps its row's id and path, and the other columns are replaced; the id counter advances either way |
| Catalog.UpsertKeepsOtherRows | app.py:152-166 | an upsert adds one row only for a new path, advances the id counter on every call, and leaves every row stored under another path unchanged |
| Catalog.ConflictUsesUpId | app.py:152-166 | in a new table, upserting `/a` twice and then `/b` gives `/b` the id 3, because the update used up id 2 |
| Catalog.UpsertTwice | app.py:152-166 | upserting a path twice leaves one row with the second call's columns and the id settled by the first call |
| Catalog.InsertByMtime | app.py:170 | inserting one row into a newest-first list keeps it newest-first and adds exactly that row |
| Catalog.SortByMtimeDesc | app.py:170 | `ORDER BY mtime DESC` returns a permutation of the rows in non-increasing mtime order |
| Catalog.SelectCounts | app.py:173-185 | the search keeps each row whose lower-cased name or path contains the lower-cased query, as often as it is stored, and no other row |
| Catalog.EmptyQueryMatches | app.py:174 | the empty query matches every row |
| Catalog.EmptyQuerySelectsAll | app.py:173-185 | filtering with the empty query keeps every row, in order |
| Text.Lower | app.py:174-180 | `lower()` keeps the length and lower-cases each ASCII capital; `LowerIsLower`: the result is lower-case |
| Catalog.LikeMatch | app.py:180 | SQLite's `LIKE` (without ESCAPE): `%` matches any run of characters, `_` any one character, and any other character matches itself, ignoring ASCII case |
| Catalog.SearchPattern | app.py:174 | the pattern `search` builds: `%`, the lower-cased query, `%` |
| Catalog.MatchesAsWritten | app.py:174-180 | the row filter as written: the lower-cased name or the lower-cased path matches the pattern under `LIKE` |
| Catalog.PercentMatchesAll | app.py:174 | the LIKE pattern `%` matches every string |
| Catalog.LikePrefix | app.py:174 | a wildcard-free LIKE pattern followed by `%` matches exactly the strings that start with it |
| Catalog.LikeLeadingPercent | app.py:174 | a leading `%` lets the rest of the pattern match at any position |
| Catalog.LikeIsContains | app.py:174-181 | on lower-case text, `%q%` with a wildcard-free `q` matches exactly when `q` is a substring |
| Catalog.AsWrittenAgreesWithoutWildcards | app.py:173-185 | for a query without `%` or `_`, the LIKE filter as written selects exactly the substring matches |
| Catalog.WildcardQueryMatchesOtherNames | app.py:173-185 | the query `a_c` makes the LIKE filter select a repository named `abc`, whose name and path do not contain `a_c` |
| Catalog.RepoDB.constructor | app.py:144-150 | a fresh `repos` table is empty, well-formed, and hands out id 1 next |
| Catalog.RepoDB.Upsert | app.py:152-166 | `upsert_repo` keeps the table well-formed, and the new table is the insert-or-update of the call's columns |
| Catalog.RepoDB.AllRepos | app.py:168-171 | `all_repos` returns every stored row exactly once, newest modification first |
| Catalog.RepoDB.Search | app.py:173-185 | `search` returns, newest first, exactly the stored rows whose lower-cased name or path contains the lower-cased query |
| Catalog.RepoDB.EmptySearchListsAll | app.py:497-501 | `search("")` returns what `all_repos` returns, so `on_search` may use either for an empty query |
| FileSystem.FindChild | app.py:187-188 | resolving a child name finds nothing iff no subdirectory has that name, and otherwise finds the first one that has it |
| FileSystem.IsGitRepo | app.py:187-188 | a directory is a repository iff one of its subdirectories is called `.git` |
| FileSystem.RemoveFirst | app.py:193-194 | `dirs.remove(".git")` keeps every other subdirectory and adds none; it removes one entry when `.git` is present, and none otherwise |
| FileSystem.RemoveFirstDistinct | app.py:193-194 | when the subdirectory names are distinct, no `.git` is left after the removal and the names stay distinct |
| FileSystem.Walk | app.py:192-194 | `os.walk` top-down: the top, then the walk of each subdirectory the caller kept in `dirs`, in listing order (`.git` removed when pruning) |
| FileSystem.WalkMembers | app.py:192 | the walk visits its top, and besides it exactly the children that are not pruned of the directories it visits |
| FileSystem.WalkPathsBelow | app.py:192 | every visited path extends the path of the walk's top |
| FileSystem.PrunedWalkAvoidsGit | app.py:192-194 | with `.git` removed from every `dirs`, no visited directory lies inside a `.git` directory below the top |
| FileSystem.WalkPathsDetermine | app.py:528-532 | in a tree that names each child once, two visited directories with the same path are the same directory |
| FileSystem.WalkComponentsSlashFree | app.py:528-532 | when no directory name contains `/`, no component of a visited path does |
| DirSize.ComputeDirSize | app.py:190-201 | the total equals the sum, over the directories the walk visits (without `.git` when excluded), of each file's readable size |
| DirSize.FilesTotal | app.py:195-200 | the inner loop adds the size of every file of one directory, and 0 for a file whose size cannot be read |
| DirSize.UnreadableCountsAsZero | app.py:197-200 | a file whose size cannot be read counts as a file of size 0 |
| DirSize.ExcludedGitNotCounted | app.py:192-194 | with `exclude_git`, changing the sizes of files inside `.git` directories does not change the total |
| Archive.ZipDirectory | app.py:243-257 | the entries written are those of `ArchiveEntries`: every file of every visited directory, in walk order, except the failed writes |
| Archive.WrittenMembers | app.py:249-257 | one directory contributes exactly the relative paths of its files whose write does not fail |
| Archive.ArchiveEntryMembers | app.py:243-257 | an entry is exactly the path, relative to the source, of a file in a visited directory whose write did not fail |
| Archive.ExcludedGitNotArchived | app.py:246-247 | without `include_git`, no entry lies inside a `.git` directory |
| Text.LastIndexOf | app.py:266 | the position of the last occurrence of a character, or -1 when it does not occur |
| Text.LastIndexOfIs | app.py:266 | an occurrence with no occurrence after it is the one found |
| Images.Extension | app.py:266 | `splitext` gives a non-empty extension iff some dot has a non-dot before it; the extension then runs from the last dot to the end |
| Images.IsImageFile | app.py:266 | a file is an image when its `splitext` extension, lower-cased, is one of `.png`, `.jpg`, `.jpeg`, `.webp`, `.gif` |
| Images.ImageNameHasStem | app.py:266 | an accepted image name is a non-empty stem followed by one of the five extensions, in any letter case |
| Images.DotFileIsNotImage | app.py:266 | a name with only dots before its last dot, such as `.png`, is never an image |
| Images.ImageFilesMembers | app.py:264-266 | a directory contributes exactly its files whose lower-cased extension is accepted |
| Images.WalkImages | app.py:263-266 | the walk of one candidate directory collects the image files of every directory it visits, in walk order |
| Images.ListCandidateImages | app.py:259-268 | the result is, for `assets`, `Assets`, `media`, `Media` in this order, the image files of that directory's whole tree when the root has it |
| Images.CandidatesAreImages | app.py:259-268 | every candidate is an image file inside a candidate directory that the root has |
| Images.FoundImagesBelow | app.py:263-266 | every image found by walking a candidate directory lies below it |
| Images.ImagesAreCandidates | app.py:259-268 | every image file in the tree of a candidate directory that the root has is a candidate |
| Images.Score | app.py:279-287 | a degenerate size scores 1e9; 1280x640 scores -5000; every other positive size scores at least 1 |
| Images.TargetScoresBest | app.py:279-287 | 1280x640 scores strictly better than any other size |
| Images.PickBestImage | app.py:289-302 | without PIL nothing is picked; otherwise nothing is picked iff no openable image scores below 1e18; a pick is the first openable image with the lowest score |
| Images.FirstBestUnique | app.py:297-300 | the strict comparison determines the pick: at most one position is the first best |
| Images.ExactTargetIsPicked | app.py:285-300 | when some candidate is exactly 1280x640, the first such candidate is picked |
| Images.ScoreBelowInitialBest | app.py:293 | every size up to a million pixels a side, degenerate ones included, scores below the initial 1e18 |
| Discovery.DiscoverCandidates | app.py:524-532 | the candidates are the folder when it is a repository, then, in walk order, every subdirectory of every visited directory that is a repository |
| Discovery.GitChildrenMembers | app.py:529-532 | a directory contributes exactly those of its children that are repositories |
| Discovery.CandidateMembers | app.py:524-532 | a candidate is exactly a directory the unpruned walk visits, the folder included, that is a repository |
| Discovery.DedupByPath | app.py:534-540 | the dedup result has no repeated path, has exactly the paths the candidates have, and holds only candidates |
| Discovery.Dedup | app.py:534-540 | the `seen`/`uniq` loop computes `DedupByPath`; `seen` holds relative paths where the code holds `str(c)`, and the two agree by `PathStringInjective` when no name contains `/` |
| Discovery.DedupIsFirstOccurrences | app.py:534-540 | the dedup keeps exactly the first candidate at each path, in the candidates' order |
| Discovery.DedupDistinctIsIdentity | app.py:534-540 | candidates with distinct paths pass through the dedup unchanged |
| Discovery.PathStringInjective | app.py:530-537 | distinct relative paths whose components contain no `/` have distinct path strings |
| Discovery.ScanFolder | app.py:524-548 | the catalog after a scan is the catalog before it, with each deduplicated candidate scanned in order |
| Discovery.ScanNeverDeletes | app.py:542-548 | a scan deletes no row: each row keeps its position, id and path, and a row at a path no scanned repository has is unchanged |
| Discovery.PathString | app.py:530-548 | `str(Path(root) / d)` on POSIX: the chosen folder's string, then `/` and each component in turn |
| Discovery.ScanOne | app.py:542-550 | one pass of the per-repository `try`: no change when `stat` fails, otherwise the upsert of the name, path string, size without `.git`, mtime and remote |
| Discovery.ScanOneCatalogues | app.py:543-548 | scanning one repository whose `stat` succeeds stores its row, and the table stays well-formed |
| Discovery.ScanOneKeepsCatalogued | app.py:543-548 | scanning one repository keeps the row of every repository with a different path string |
| Discovery.ScanStoresEveryRepo | app.py:542-548 | with distinct path strings, every scanned repository whose `stat` succeeds ends with a row holding its name, size without `.git`, mtime and remote |
| Discovery.DedupedPathStringsDistinct | app.py:534-540 | on a tree whose names contain no `/`, the deduplicated candidates have pairwise different path strings |
| Discovery.DedupedKeepsRepo | app.py:524-540 | on a tree whose names are unique in each directory, every repository the walk reaches survives the dedup |
| Discovery.ScanCataloguesEveryRepo | app.py:524-548 | after `scan_folder`, every repository at or below the folder whose `stat` succeeds has a row with its name, its path string, its size without `.git`, its mtime and its remote |

## Left out

- The tkinter interface is not modelled. This covers layout, menus, the I18N tables, the search placeholder, the preview canvas, the status line and the folder dialog. The dialog's answer is `ScanFolder`'s input.
- `export_csv`, `format_size_mb`, `open_in_explorer`, `img_size`, the date formatting in `_populate_table`, and `main` are not modelled. They are I/O or library formatting.
- The SQLite engine is not modelled: connection, WAL and PRAGMA setup, commits, atomicity, and errors raised by `upsert_repo`. The table is an in-memory sequence.
- `configparser` parsing is not modelled; its outcome is a `GitConfig`. The process started for `git remote get-url` is not modelled either; its outcome is a `GitRun`.
- PIL decoding and zip compression are not modelled. The archive model keeps only which entries are written and in what order.
- The walk has no unreadable directories, no symbolic links and no changes while it runs. `os.walk`'s error handler, which skips unreadable directories, is therefore not modelled.
- An archive written inside the directory being archived is not modelled, because the tree is a fixed value.
- Path strings use `/` only. Windows separators are not modelled. The special case of the filesystem root `/`, where `Path` joining does not double the separator, is not modelled either.
- `Discovery.ScanFolder`: an exception other than a failing `stat` inside the per-repository `try` is not modelled; the model never raises one. For example, `Path.exists` can raise a permission error on the config file.
- `Discovery.ScanFolder`: the chosen folder's own row is named `base.name`, where the code uses `Path(folder).name`, the last component of the folder string. The model does not tie `base.name` to `baseStr`; the caller passes a `base` whose name is that component.
- `Discovery.ScanFolder`: the modification time arrives already truncated with `int(...)`. The float `st_mtime` is not modelled.
- `Catalog.RepoDB.AllRepos` does not fix the order of rows with equal mtimes, because `ORDER BY mtime DESC` promises none. The model keeps such rows in rowid order. `Catalog.RepoDB.Search` is the same.
- `Catalog.RepoDB.Search` lower-cases the query with ASCII rules. Python's `str.lower` also lower-cases non-ASCII letters, but SQLite's `lower()` and `LIKE` fold only ASCII. So a query with a non-ASCII capital matches in the model where the code may not.
- `Images.Score` is computed on exact rationals instead of IEEE doubles. Rounding of `w / h` is not modelled.
- `Images.IsImageFile` lower-cases with ASCII rules. The only non-ASCII character whose lower case is a single ASCII letter is the Kelvin sign (`k`), and `k` occurs in none of the five extensions. So the answer is the same as with Python's `str.lower`.
- `Images.ListCandidateImages`: directory names are compared exactly. On a case-insensitive filesystem, `assets` and `Assets` can name one directory, which the code then lists twice; that is not modelled.
- `Images.PickBestImage` returns no image when PIL is missing, as the code does. It does not report "unavailable" separately from "no image".

## Findings

| source | as written | input that shows it | evidently intended | confidence | as-written member | corrected member |
|---|---|---|---|---|---|---|
| app.py:173-185 | the query is put into a `LIKE` pattern unescaped, so `_` matches any one character and `%` any run | `search("a_c")` on a repository named `abc` at `/abc` lists it | a case-insensitive substring match of the query, with `%` and `_` taken literally | high; not executed | Catalog.MatchesAsWritten, Catalog.WildcardQueryMatchesOtherNames | Catalog.RepoDB.Search, Catalog.AsWrittenAgreesWithoutWildcards |
