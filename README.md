# GameList persistence core in Dafny

GameList is a personal video-game collection tracker. Its persistence layer
is made of two classes over single-table SQLite stores. This project models
those two classes:

- **`GameLibrary`** owns the `library` table. A row has an integer id and eight
  text columns: platform, platform id, title, title id, cover, cover id,
  release date and genres.
  - `add`, `remove` and `update` change the table and clear the `saved` flag.
    `save` commits and sets the flag again.
  - `getGames`, `getGamesByPlatform`, `getGamesByQuery` and `getGamesBySearch`
    filter the rows and list them by platform, then title.
  - `getGamesById` is a point lookup.
  - `getPlatforms` lists the distinct platforms.
  - `import_` and `export` move rows to and from a comma-separated file.
- **`Platforms`** owns the `platforms` catalog. It maps a caller-supplied
  integer id (the primary key) to a display name.

Layout:

| module | file | contents |
|---|---|---|
| `Wrappers` | wrappers.dfy | `Option` (SQLite's `None` row) and `Result` |
| `Text` | text.dfy | SQLite's BINARY text order; `LIKE '%q%'` as an ASCII case-insensitive substring test |
| `Query` | query.dfy | `WHERE` (`Where`), `ORDER BY` (`OrderBy`, an insertion sort), `fetchone` (`First`), primary keys (`UniqueBy`) |
| `GameRecords` | records.dfy | the row datatypes, the `(platform, title)` display order, fresh ids |
| `Csv` | csv.dfy | `rstrip`, `split(',')`, `','.join`, the line `export` writes, the line `import_` reads, the `.csv` suffix rule |
| `Library` | library.dfy | class `GameLibrary` |
| `PlatformCatalog` | platforms.dfy | class `Platforms` |
| `Scenarios` | scenarios.dfy | two uses that combine several operations |

Each table is a `seq` field of its class. The ghost predicate `Valid()` states
that ids are unique, as a primary key enforces. Mutators are methods with
`modifies this`. Queries are functions that read `this`. A query's contract
says which rows it returns: the multiplicity of every row in the result,
compared with the table. It also says that the result is sorted by the
display order. For `getPlatforms` and `Platforms.getPlatforms` the order is
strict.

In two places the code behaves differently from what a reader may expect,
and the model follows the code:

- `update` on an id that does not exist fails only when some field is omitted.
  In that case the code reads a field of the missing row. When every field is
  supplied, the `UPDATE` matches no row and the call still clears `saved`.
- `import_` does not require exactly eight fields. It reads fields 0 to 7 and
  ignores the rest. Every line `export` writes has nine fields, the last one
  empty, because of the trailing comma.

## Model

| member | source | states |
|---|---|---|
| Text.LessEq | gamelist/gamelibrary.py:59-60 | BINARY collation: code-point order, with a proper prefix before any longer text |
| Text.LessEqReflexive | gamelist/gamelibrary.py:59-60 | Every text is ordered before or equal to itself |
| Text.LessEqTotal | gamelist/gamelibrary.py:59-60 | Any two texts are comparable in BINARY order |
| Text.LessEqAntisymmetric | gamelist/gamelibrary.py:155-156 | Two texts each ordered before the other are equal, so `DISTINCT` after `ORDER BY` only drops neighbours |
| Text.LessEqTransitive | gamelist/gamelibrary.py:59-60 | BINARY order is transitive |
| Text.Occurs | gamelist/gamelibrary.py:80-86 | The recursive search is true exactly when the pattern is a contiguous slice of the text |
| Text.LikeContains | gamelist/gamelibrary.py:74 | For a `q` without `%` or `_`, `s LIKE '%q%'` holds exactly when the ASCII case-folded `q` is a slice of the case-folded `s` |
| Text.LikeEmpty | gamelist/gamelibrary.py:74 | `LIKE '%%'` matches every text |
| Query.Bindable | gamelist/platforms.py:17-19 | The integers `sqlite3` can bind as a parameter: the signed 64-bit range |
| Query.Where | gamelist/gamelibrary.py:147-148 | A `WHERE` keeps every copy of each row the condition accepts and no other row |
| Query.WhereSame | gamelist/gamelibrary.py:77-100 | Two conditions that agree on every row of the table select the same rows |
| Query.WhereAll | gamelist/gamelibrary.py:91-100 | A condition every row meets selects the whole table |
| Query.OrderBy | gamelist/gamelibrary.py:59-60 | `ORDER BY` on a total preorder returns a sorted permutation of its input |
| Query.UniqueRowsOnce | gamelist/gamelibrary.py:11 | With a unique key, a row occurs at most once in the table |
| Query.SubMultisetKeepsUnique | gamelist/gamelibrary.py:31-33 | Deleting rows keeps a primary key unique |
| GameRecords.KeyLessEq | gamelist/gamelibrary.py:59-60 | `ORDER BY platform ASC, title ASC`: a row may precede another with a smaller platform, or the same platform and no larger title |
| GameRecords.KeyIsTotalPreorder | gamelist/gamelibrary.py:59-60 | `ORDER BY platform ASC, title ASC` ranks any two rows and is transitive |
| GameRecords.NextId | gamelist/gamelibrary.py:11 | The id given to an inserted row (one past the largest stored id, or 1 if that is larger) is positive and larger than every stored id, hence fresh |
| Csv.WithCsv | gamelist/gamelibrary.py:171-172 | The file name ends in `.csv`; it is the path itself exactly when the path already ends in `.csv`, and otherwise the path with `.csv` appended |
| Csv.WithCsvIdempotent | gamelist/gamelibrary.py:184-185 | Applying the suffix rule twice names the same file as applying it once |
| Csv.RStrip | gamelist/gamelibrary.py:177 | `rstrip()` returns a prefix that ends in a non-space, and everything it removed is whitespace |
| Csv.Split | gamelist/gamelibrary.py:177 | `split(',')` returns one more piece than there are commas, and no piece holds a comma |
| Csv.JoinSplit | gamelist/gamelibrary.py:177 | Joining the pieces of `split(',')` with commas gives back the text |
| Csv.SplitJoin | gamelist/gamelibrary.py:177 | Splitting comma-free pieces that were joined with commas gives back the pieces |
| Csv.FormatLine | gamelist/gamelibrary.py:190 | The line written for a row: its eight columns joined with commas, a trailing comma, then a newline |
| Csv.FormatLineFields | gamelist/gamelibrary.py:190 | An exported line is platform, platform id, title, title id, cover, cover id, release date and genres, each followed by a comma, then a newline |
| Csv.ExportLines | gamelist/gamelibrary.py:189-190 | `export` writes one line per row, in the order given |
| Csv.ParseLine | gamelist/gamelibrary.py:177-178 | The values one line gives: fields 0 to 7 of `line.rstrip().split(',')`, or an error when there are fewer than eight |
| Csv.ParseLineFails | gamelist/gamelibrary.py:177-178 | A line fails to import exactly when it has fewer than seven commas after `rstrip()`, i.e. `ln[7]` does not exist |
| Csv.ParseFormat | gamelist/gamelibrary.py:177-178 | Reading a line that `export` wrote for a comma-free row gives back all eight of its values |
| Csv.ParsePrefix | gamelist/gamelibrary.py:176-178 | `import_` adds at most one row per line |
| Csv.ParsePrefixLines | gamelist/gamelibrary.py:176-178 | Each added row comes from its own line, and the import stops only at a line that fails |
| Csv.ParsePrefixAll | gamelist/gamelibrary.py:176-178 | When every line parses, `import_` adds one row per line, each with its line's values |
| Csv.Concat | gamelist/gamelibrary.py:187-190 | The text of a file written by successive `write` calls |
| Csv.ConcatAppend | gamelist/gamelibrary.py:189-190 | One more `write` extends the file's text by exactly that string |
| Csv.ExportTextAppend | gamelist/gamelibrary.py:189-190 | Writing one more row extends the exported text by exactly that row's line |
| Csv.Translate | gamelist/gamelibrary.py:174 | Reading in text mode turns every `\r\n` and lone `\r` into `\n`, so no carriage return remains |
| Csv.TranslateKeeps | gamelist/gamelibrary.py:174 | Text without a carriage return reads as itself |
| Csv.LineEnd | gamelist/gamelibrary.py:176 | The first line of a text ends at its first newline, inclusive, or at the end of the text |
| Csv.SplitLines | gamelist/gamelibrary.py:176 | Iterating a file yields lines whose concatenation is the whole text |
| Csv.ReadLines | gamelist/gamelibrary.py:174-176 | The lines `import_` iterates over: newline translation, then splitting after each newline |
| Csv.LineFirst | gamelist/gamelibrary.py:176 | A text that starts with a line-break-free body and a newline yields that line first |
| Csv.ReadWrittenLines | gamelist/gamelibrary.py:174-176 | A file written as whole lines without carriage returns is read back as exactly those lines |
| Csv.JoinAvoids | gamelist/gamelibrary.py:190 | Joining with commas adds no character but the comma |
| Csv.FormatIsLine | gamelist/gamelibrary.py:190 | The line exported for a row without line breaks in its values is a single line |
| Csv.ExportedFileReadsBack | gamelist/gamelibrary.py:174-190 | Reading the file `export` wrote gives back exactly its lines, when no value holds a line break |
| Csv.ImportReadsExport | gamelist/gamelibrary.py:176-190 | Importing the lines `export` wrote gives back every row's eight values, in the exported order, when no value holds a comma |
| Library.Patch.ApplyTo | gamelist/gamelibrary.py:42-49 | The values `update` writes: each supplied field, and the stored value for each omitted one |
| Library.Patch.Values | gamelist/gamelibrary.py:42-49 | When every field is supplied, `update` writes the same values whatever the stored row holds |
| Library.UnchangedKeepsRow | gamelist/gamelibrary.py:42-49 | `update(uid)` with every field omitted writes the row's own values back |
| Library.MatchesQuery | gamelist/gamelibrary.py:77-100 | The rows `getGamesByQuery` selects: on the platform unless it is empty, with the query `LIKE`-contained in one of the seven columns after platform |
| Library.MatchesSearch | gamelist/gamelibrary.py:117-140 | The rows `getGamesBySearch` selects: on the platform unless it is empty, with every term `LIKE`-contained in its own column |
| Library.Distinct | gamelist/gamelibrary.py:155-156 | `DISTINCT` over sorted values keeps each value once, in strictly ascending order |
| Library.GameLibrary.constructor | gamelist/gamelibrary.py:5-7 | A freshly opened library holds the stored rows and is saved |
| Library.GameLibrary.Add | gamelist/gamelibrary.py:22-27 | Appends exactly one row with the given values and a fresh id; omitted columns are empty text; earlier rows are unchanged; `saved` is false; the new id now finds the row |
| Library.GameLibrary.Remove | gamelist/gamelibrary.py:29-34 | Deletes every row with that platform and title and no other row; `saved` is false |
| Library.GameLibrary.Update | gamelist/gamelibrary.py:36-55 | Fails, changing nothing, exactly when the id is outside the signed 64-bit range that `sqlite3` can bind, or is absent while a field is omitted. Otherwise only row `uid` changes: supplied fields are overwritten and omitted ones kept. `saved` is false even when no row matched |
| Library.GameLibrary.Save | gamelist/gamelibrary.py:160-163 | After a commit the library is saved |
| Library.GameLibrary.GetGames | gamelist/gamelibrary.py:57-62 | Returns exactly the table's rows, sorted by platform then title |
| Library.GameLibrary.GetGamesById | gamelist/gamelibrary.py:64-69 | None exactly when no row has the id; otherwise a stored row with that id |
| Library.GameLibrary.GetGamesByPlatform | gamelist/gamelibrary.py:144-151 | Returns exactly the rows on that platform, sorted |
| Library.GameLibrary.GetGamesByQuery | gamelist/gamelibrary.py:71-102 | Returns exactly the rows on the platform (any platform when it is empty) with the query in one of the seven columns after platform, sorted |
| Library.GameLibrary.GetGamesBySearch | gamelist/gamelibrary.py:104-142 | Returns exactly the rows on the platform (any platform when it is empty) having each term in its own column, sorted; `query` plays no part |
| Library.GameLibrary.GetPlatforms | gamelist/gamelibrary.py:153-158 | Lists a platform exactly when some row is on it, each once, in strictly ascending order |
| Library.GameLibrary.Import | gamelist/gamelibrary.py:169-180 | Opens the `.csv` file and appends one row per line of its text as iterated in text mode, up to the first line with fewer than eight fields, which ends the import with an error. Earlier rows are kept. `saved` is cleared exactly when a row was added |
| Library.GameLibrary.ImportLines | gamelist/gamelibrary.py:176-178 | Appends one row per line up to the first line with fewer than eight fields, keeping earlier rows; succeeds exactly when every line parses; `saved` is cleared exactly when a row was added |
| Library.GameLibrary.ImportLine | gamelist/gamelibrary.py:177-178 | One line either adds the row its fields give, with the positional remap of `add`'s arguments, or fails and changes nothing |
| Library.GameLibrary.Export | gamelist/gamelibrary.py:182-192 | Writes to the `.csv` file the concatenation of one formatted line per row, in `getGames` order |
| Library.ImportStep | gamelist/gamelibrary.py:176-178 | At each line `import_` either stops for good or extends the added rows by exactly that line's row |
| Library.QueryFilter | gamelist/gamelibrary.py:77-100 | The executable `WHERE` of `getGamesByQuery` accepts exactly the rows its specification describes |
| Library.SearchFilter | gamelist/gamelibrary.py:117-140 | The executable `WHERE` of `getGamesBySearch` accepts exactly the rows its specification describes |
| Library.EmptyQueryListsAll | gamelist/gamelibrary.py:71-102 | `getGamesByQuery('', '')` returns the same list as `getGames` |
| Library.EmptyQueryOnPlatform | gamelist/gamelibrary.py:77-88 | `getGamesByQuery('', p)` returns the same list as `getGamesByPlatform(p)` |
| Library.EmptySearchListsAll | gamelist/gamelibrary.py:104-142 | `getGamesBySearch()` with every term empty returns the same list as `getGames` |
| Library.PlatformSearchIsByPlatform | gamelist/gamelibrary.py:117-128 | `getGamesBySearch(platform=p)` returns the same list as `getGamesByPlatform(p)` |
| Library.QueryIgnoresPlatformColumn | gamelist/gamelibrary.py:91-98 | Without a platform filter, a row's platform does not decide whether a query finds it |
| Library.PlatformOrder | gamelist/gamelibrary.py:155-156 | `ORDER BY platform ASC` ranks any two platforms and is transitive |
| PlatformCatalog.AscendingIds | gamelist/platforms.py:11 | Entries sorted by a unique id have strictly ascending ids |
| PlatformCatalog.Platforms.constructor | gamelist/platforms.py:6-13 | A freshly opened catalog holds the stored entries |
| PlatformCatalog.Platforms.Add | gamelist/platforms.py:15-21 | Succeeds exactly when the id is new and within the signed 64-bit range `sqlite3` can bind, appending exactly `(uid, name)`, after which `getPlatformName(uid)` is `name`; otherwise nothing changes |
| PlatformCatalog.Platforms.Remove | gamelist/platforms.py:23-27 | Deletes every entry with that name and no other entry |
| PlatformCatalog.Platforms.RemoveAll | gamelist/platforms.py:29-32 | The catalog is empty and `getPlatforms` returns an empty list |
| PlatformCatalog.Platforms.GetPlatforms | gamelist/platforms.py:34-39 | Returns every entry exactly once, by strictly ascending id |
| PlatformCatalog.Platforms.GetPlatformName | gamelist/platforms.py:41-50 | None exactly when no entry has the id; otherwise the name stored under it |
| PlatformCatalog.Platforms.GetPlatformId | gamelist/platforms.py:52-61 | None exactly when no entry has the name; otherwise the id of some entry with that name |
| Scenarios.ListsAlphabetically | gamelist/gamelibrary.py:57-62 | "Earthbound" then "Chrono Trigger" added on one platform are listed as "Chrono Trigger", "Earthbound" |
| Scenarios.TwoInOrder | gamelist/gamelibrary.py:59-60 | A sorted listing of two rows where one strictly precedes the other puts that one first |
| Scenarios.CopyThroughCsv | gamelist/gamelibrary.py:169-192 | Exporting a library without commas or line breaks in its values and importing the file's text into an empty library succeeds and gives the source's rows' values in display order |

## Left out

- The SQLite connection, `commit`, `close` and `__del__`, in both classes
  (gamelist/gamelibrary.py:8-9, 162, 165-167, 194-195; gamelist/platforms.py:8-9, 21, 27, 32, 63-68).
  Each class owns its table directly. `Platforms` commits after every change,
  and the model does not separate committed from uncommitted state.
- Opening, reading and writing files in `import_` and `export`. `Import` takes
  the file's text as a parameter. `Export` returns the text it would write, with
  `"\n"` line ends. Text mode writes each one as the platform's line separator,
  and reading translates it back.
  Both return the name of the file they would open. The text's encoding is
  not modelled.
- Library.GameLibrary.Add: states that the new id is fresh, and not which id
  SQLite picks. Its body takes one past the largest stored id, or 1 if that
  is larger (`NextId`). SQLite would give a negative id when every stored id
  is below -1. The id ceiling of 2^63-1 and the random-id fallback beyond it
  are not modelled either.
- INTEGER column affinity of `platformid`, `titleid` and `coverid`. All eight
  game columns are text here. SQLite stores a numeric-looking text in those
  three columns as a number, so `"007"` comes back from `getGamesById` and
  `export` as `"7"`, while the model keeps `"007"` as `Add` states. A
  numeric value also compares as a number rather than as text.
- A `uid` of `None` in `Platforms.add`, which lets SQLite pick the id. Ids are
  always supplied as integers.
- Library.GameLibrary.GetGames, Library.GameLibrary.GetGamesByPlatform,
  Library.GameLibrary.GetGamesByQuery and Library.GameLibrary.GetGamesBySearch:
  the order of rows with equal platform and title is not stated. SQLite does
  not fix it; the model's insertion sort keeps storage order.
- Library.GameLibrary.GetGamesByQuery: requires that the query holds no `%`
  or `_`. The source does not escape them, and they would act as `LIKE`
  wildcards.
- Library.GameLibrary.GetGamesBySearch: requires that no per-column term
  holds `%` or `_`, for the same reason.
- `LIKE` case folding covers ASCII letters only, as SQLite's default `LIKE`
  does. No Unicode case folding is modelled.
- Library.GameLibrary.GetGamesById: an id outside the signed 64-bit range
  makes `sqlite3` raise an overflow error when binding it. The model returns
  `None` for such an id instead. `Library.GameLibrary.Update` does model
  this error, as a failure that changes nothing.
- PlatformCatalog.Platforms.GetPlatformName: the same overflow error for an
  id outside the signed 64-bit range is not modelled; the model returns
  `None`. `PlatformCatalog.Platforms.Add` does model it, as a failure that
  changes nothing.
- Library.GameLibrary.GetGamesById: returns the matching row and does not
  model the tuple layout `(id, platform, platformid, ...)` of the cursor
  result.
- Library.GameLibrary.Update: the exception raised when an omitted field is
  read from a missing row is modelled as the result `false` with no change.
  The exception's type is not modelled.
- PlatformCatalog.Platforms.Add: the `IntegrityError` for a duplicate id is
  modelled as the result `false` with no change.
- Csv.ImportReadsExport: the round trip is per line and needs no condition on
  line breaks. The file-level round trip (`Csv.ExportedFileReadsBack`,
  `Scenarios.CopyThroughCsv`) also requires that no value holds `\n` or `\r`.
  Such a value splits its row's line in two when the file is read back.
- `gamelist/igdb.py` (the HTTP/JSON metadata client) is not part of this
  model. It is network I/O with response-driven loops.
- `gamelist/mainwindow.py` (the PyQt5 user interface) is not part of this
  model.
