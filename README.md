# BPS-DIMSum CRUD core, modelled in Dafny

BPS-DIMSum serves its admin pages from a small Express server over SQLite.
It also ships two Python helper scripts and a browser-side SQLite client.
This project models the parts of that code that compute something:

- **The five routers' statement builders.** `infografis`, `tbstatistik`,
  `tbinfografiskategori`, `kategori_tbstatistik` and `tbuser` each turn an
  ordered request body into a parameterised INSERT, UPDATE, SELECT or DELETE.
  A statement is a record: table, columns, placeholder count and parameters.
  Each router also decides its reply: the row read back, `{deleted: true}`,
  `null` or a 400 error. The upload routers also decide which stored file
  they ask to remove.
- **Schema resolution.** This covers the candidate-table probe loop, the
  catalog scan for a category table, and the id, name and file column
  choices. The catalog, the table's columns and the probes that throw are
  inputs.
- **File names.** This covers the multer `filename` callback
  (`${Date.now()}_${base}${ext}`, with Node's POSIX `path.extname` and
  `path.basename` modelled exactly) and the old-name extraction
  `split('?')[0].split('/').pop()`. It also covers the two browser path
  mappers and the two Python sanitisers.
- **The prefetch loop.** `main` of `prefetch_infografis.py` is modelled with
  oracles for "the download succeeds". The image folder's contents are
  tracked as a set of names.

JavaScript values are modelled as `Undefined | Null | Str | Num`.
`||` uses truthiness and `??` uses nullishness. A request body is a
sequence of distinct `(key, value)` pairs in `Object.keys` order.
Assigning a property keeps an existing key in place and appends a new key
at the end. `split(c)[0]` and `split(c).pop()` are each shown equal to a
direct "before the first" or "after the last" function.

The model keeps the source's quirks:
- With an upload, both upload routers list the file column twice when the
  body also carries it.
- `infografis` binds the file column to the upload URL, or to `null`, even
  when the body gave it a value.
- Both PUT handlers ask for the old file's removal before they check for a
  400.
- `resolveIdCol` answers `rowid` even for a table that has no such column.
- `_safe_filename` accepts `.` and `..`.

Modules:
- `Wrappers` holds `Option`.
- `Text` holds the string operations.
- `Js` holds values and objects.
- `Crud` holds statements, replies and the steps the routers share.
- `Upload` models the filename callback.
- `Schema` models the probe loop.
- `PlainCrud` holds the unfiltered builders shared by `kategori_tbstatistik`
  and `tbuser`.
- `Infografis`, `Tbstatistik`, `Tbinfografiskategori` and
  `KategoriTbstatistik` model one router each.
- `SqliteClient`, `DevServer` and `Prefetch` model the browser client and
  the two Python scripts.

## Model

| member | source | states |
|---|---|---|
| Crud.KnownKeys | android/server/routes/infografis.js:102 | The result holds exactly the body keys that name a table column. They appear in body order (a subsequence of the keys) and each appears once. |
| Crud.FileColAppended | android/server/routes/tbstatistik.js:82-84 | After the file column is appended, every listed column is still a table column. When the body already carries the file column, that column appears last and also earlier: it is listed twice. |
| Crud.StoredFileName | android/server/routes/infografis.js:137-139 | A falsy URL gives no name. For a truthy URL the name is `String(url).split('?')[0].split('/').pop()`, or no name when that piece is empty. Any name produced is non-empty and holds no `/` and no `?`. |
| Crud.ValuesOf | android/server/routes/tbstatistik.js:87 | There is one value per column, in column order. Each is the value paired with that column's key in the body, or `undefined` when the body lacks the key. |
| Crud.StoredFileNameRoundTrip | android/server/routes/infografis.js:134-138 | Take a directory URL ending in `/` with no `?`, plus a non-empty name with no `/` and no `?`. Extracting the name from the combined URL gives back exactly that name. |
| Crud.DeleteById | android/server/routes/tbuser.js:70-72 | DELETE matches on the id column with the id as its only parameter. The reply is `{deleted: true}` whether or not a row matched. |
| Crud.GetReply | android/server/routes/tbuser.js:26 | The reply is `null` exactly when no row was found. Otherwise it is that row. |
| Js.Get | android/server/routes/tbstatistik.js:87 | Reading a key the object lacks gives `undefined`. Reading a key it has gives that key's value. |
| Js.Put | android/server/routes/tbstatistik.js:85 | Assigning a property sets its value and leaves every other key's value alone. An existing key keeps its position; a new key is added last. |
| Text.NatTextRoundTrip | android/server/routes/infografis.js:35 | The decimal text of the clock reading reads back as that clock reading. |
| Upload.DotExt | android/server/routes/infografis.js:33 | The extension is a suffix of the path component. It is empty or starts with its only `.`. It is never the whole component. |
| Upload.DotExtShape | android/server/routes/infografis.js:33 | The extension is empty exactly when no `.` follows the component's first character or the component is `..`. Otherwise it is `.` followed by the text after the component's last `.`. So `.env` has none, `a.` has `.` and `a.b.c` has `.c`. |
| Upload.ExtName | android/server/routes/infografis.js:33 | `path.extname` is a suffix of the last path component. It is shorter than the component whenever it is non-empty. |
| Upload.ExtNameShape | android/server/routes/infografis.js:33 | `path.extname` is empty exactly when the last component has no `.` after its first character or is `..`. Otherwise it is `.` followed by the text after that component's last `.`. |
| Upload.BaseName | android/server/routes/infografis.js:34 | The base followed by the extension is the last path component. The base is non-empty whenever there is an extension. |
| Upload.SanitizeBase | android/server/routes/infografis.js:34 | The result has the base's length and only `[A-Za-z0-9_-]` characters. A character is unchanged exactly when it was already in that set. |
| Upload.SanitizeBaseIdempotent | android/server/routes/infografis.js:34 | Sanitising a sanitised base changes nothing. |
| Upload.StoredName | android/server/routes/infografis.js:32-36 | The stored name starts with the clock reading in decimal followed by `_`. The rest is the sanitised base of the original name followed by its extension. It holds no `/`, and it holds a `?` only if the original extension does. |
| Infografis.FileCol | android/server/routes/infografis.js:44-49 | The result is `file_url` or `image_url`. It is `image_url` exactly when `file_url` is absent and `image_url` is present. It is a column exactly when either one is. |
| Infografis.FileUrl | android/server/routes/infografis.js:106 | The URL is exactly `/sqlite/infografis/` followed by the stored name: it starts with that directory, its length is the directory's plus the name's, and its last `/` segment is the stored name. It holds a `?` only if the original extension does. |
| Infografis.FileValue | android/server/routes/infografis.js:104-109 | The value bound to the file column is `null` exactly when no file came. Otherwise it is the text `/sqlite/infografis/` followed by the stored name: that prefix, the two lengths added, and the stored name as last segment. |
| Infografis.FileUrlRoundTrip | android/server/routes/infografis.js:106-138 | Extracting the old name from an uploaded image's URL gives back the name it was stored under, unless the original extension holds a `?`. |
| Infografis.PreviousFile | android/server/routes/infografis.js:137-138 | There is nothing to remove without a row. Otherwise the name is taken from the first truthy of `row[fileCol]`, `image_url`, `file_url`. |
| Infografis.Post | android/server/routes/infografis.js:96-121 | The INSERT columns are the known body keys in order, then the file column when a file came and the table has it. Every column is a table column. The column, placeholder and parameter counts are equal. The file column is bound to the upload URL or `null` whatever the body says; every other column takes its body value. The duplicate-column case is stated too. |
| Infografis.Put | android/server/routes/infografis.js:123-156 | Removal is asked for only with an upload, and names the row's previous image. The reply is 400 "No valid fields to update" exactly when no column is left to set. Otherwise the UPDATE sets those columns with values in order, then the id, and reads the row back. |
| Infografis.Delete | android/server/routes/infografis.js:158-175 | DELETE by `id`. The reply is always `{deleted: true}`. The file removed is the one the row named before the delete. |
| Tbstatistik.FileUrl | android/server/routes/tbstatistik.js:85 | The URL is exactly `/sqlite/TBSexcel/` followed by the stored name: it starts with that directory, its length is the directory's plus the name's, and its last `/` segment is the stored name. It holds a `?` only if the original extension does. |
| Tbstatistik.FileUrlRoundTrip | android/server/routes/tbstatistik.js:110-114 | Extracting the old name from an uploaded spreadsheet's URL gives back the name it was stored under, unless the original extension holds a `?`. |
| Tbstatistik.Rewritten | android/server/routes/tbstatistik.js:85 | With an upload, `file_url` reads as the upload URL and every other key reads as before. Without an upload, every key reads as before. |
| Tbstatistik.RewrittenValues | android/server/routes/tbstatistik.js:85-87 | Values read from the rewritten body are the upload URL for `file_url` when a file came, and the body's own values otherwise. |
| Tbstatistik.UpdateParams | android/server/routes/tbstatistik.js:119-121 | The UPDATE parameters are the set columns' values in order, followed by the id. There is one more parameter than there are columns. |
| Tbstatistik.PreviousFile | android/server/routes/tbstatistik.js:113-114 | The old name comes only from the row's `file_url`. There is none without a row. |
| Tbstatistik.Post | android/server/routes/tbstatistik.js:77-99 | The INSERT columns are the known body keys in order, then `file_url` when a file came and the table has it. The counts are equal. With an upload, every `file_url` position is bound to the new URL, even one the body supplied. |
| Tbstatistik.Put | android/server/routes/tbstatistik.js:101-131 | Removal is asked for only with an upload, and names the row's `file_url`. The reply is 400 exactly when no column is left to set. Otherwise the UPDATE has values in order, then the id. |
| Tbstatistik.Delete | android/server/routes/tbstatistik.js:133-149 | DELETE by `id`. The reply is always `{deleted: true}`. The file removed is the one the row's `file_url` named. |
| Schema.FirstFound | android/server/routes/kategori_tbstatistik.js:12-18 | The result is the first candidate whose probe finds its table: every earlier candidate is not found. The result is none exactly when no candidate is found. |
| Schema.ProbeCandidates | android/server/routes/kategori_tbstatistik.js:13-18 | The early-exit probe loop returns the first candidate found, or nothing. |
| KategoriTbstatistik.ResolveTable | android/server/routes/kategori_tbstatistik.js:11-20 | The result is `kategori_tbstatistik` if found, else `kategori_statistik` if found, else `kategori_tbstatistik`. A probe that throws counts as not found. |
| PlainCrud.InsertAll | android/server/routes/kategori_tbstatistik.js:49-53 | The INSERT columns are exactly the body keys in order, with no filtering. There is one placeholder and one parameter per key, and the values are in key order. An empty body gives an empty INSERT. The same builder serves `tbuser.js:35-39`. |
| PlainCrud.UpdateAll | android/server/routes/kategori_tbstatistik.js:66-73 | The reply is 400 exactly when the body has no keys. Otherwise there is one `k=?` per key in order, and the parameters are the body values then the id. The same builder serves `tbuser.js:51-58`. |
| Tbinfografiskategori.InfoCategoryNameWithin | android/server/routes/tbinfografiskategori.js:20 | The catalog filter's `LIKE '%…%'` patterns match anywhere in the lower-cased name: a name that passes still passes with any text before or after it. |
| Tbinfografiskategori.FirstInfoCategory | android/server/routes/tbinfografiskategori.js:20-22 | The result is the first catalog table whose lower-cased name contains `kategori` and also `info` or `graf`. It is none exactly when no table matches. |
| Tbinfografiskategori.ResolveTable | android/server/routes/tbinfografiskategori.js:11-25 | The result is the first of the two candidates found. Failing that, it is the scan's first match when the scan succeeds and the name is non-empty. Otherwise it is `tbinfografiskategori`. |
| Tbinfografiskategori.ResolveIdCol | android/server/routes/tbinfografiskategori.js:31-35 | The result is `id` exactly when the table has `id`, and `rowid` otherwise. |
| Tbinfografiskategori.FirstOther | android/server/routes/tbinfografiskategori.js:41 | The result is the first column that is neither `id` nor `rowid`. It is none exactly when every column is one of those two. |
| Tbinfografiskategori.ResolveNameCol | android/server/routes/tbinfografiskategori.js:36-42 | The priority is `nama_kategori`, then `nama`, then `kategori`, then `name`. Next comes the first column other than `id` and `rowid`, when its name is non-empty; otherwise `nama_kategori`, without looking at later columns. The result is never `id` or `rowid`, and it is a column unless it is the default. |
| Tbinfografiskategori.ChosenValue | android/server/routes/tbinfografiskategori.js:83 | The result is the first non-nullish of `nama_kategori`, `body[nameCol]`, `nama` and `kategori`; else `body.name` as it is. It is `undefined` exactly when all four are nullish and `name` is absent. |
| Tbinfografiskategori.Projection | android/server/routes/tbinfografiskategori.js:50 | A read aliases the id column as `id` and the name column as `nama_kategori`, so the reply's keys are fixed. The two columns differ. |
| Tbinfografiskategori.List | android/server/routes/tbinfografiskategori.js:44-57 | GET `/` selects every row with the fixed projection. |
| Tbinfografiskategori.ById | android/server/routes/tbinfografiskategori.js:65 | GET `/:id` and each read-back select by the id column with the fixed projection. |
| Tbinfografiskategori.Post | android/server/routes/tbinfografiskategori.js:74-94 | The reply is 400 "nama_kategori is required" exactly when the chosen value is `undefined`. Otherwise the INSERT names the name column alone, with the one chosen value, and the reply is 201. |
| Tbinfografiskategori.Put | android/server/routes/tbinfografiskategori.js:96-114 | The reply is 400 exactly when the chosen value is `undefined`. Otherwise the UPDATE sets the name column alone, matching on the id column, with parameters `[value, id]`. |
| Tbinfografiskategori.Delete | android/server/routes/tbinfografiskategori.js:116-128 | DELETE matches on the resolved id column. The reply is always `{deleted: true}`. |
| SqliteClient.ToLocalInfografisPath | android/android/app/src/main/assets/public/page/admin/js/sqliteClient.js:46-57 | A falsy URL is returned unchanged. Otherwise the result is `/sqlite/infografis/` plus the last `/` segment of the path, or the URL itself when that segment is empty. A changed result has that prefix and a `/`-free name. |
| SqliteClient.InfografisPathIdempotent | android/android/app/src/main/assets/public/page/admin/js/sqliteClient.js:50-52 | Mapping an already mapped path again returns it unchanged, provided the URL parser either throws or gives that path back as its pathname. A parser that re-encodes the path, for instance turning a space into `%20`, breaks idempotence. |
| SqliteClient.ToLocalExcelPath | android/android/app/src/main/assets/public/page/admin/js/sqliteClient.js:60-75 | A falsy URL is returned unchanged. The result is `/assets/excel/` plus the last segment in its original case exactly when that segment is non-empty and its extension is `xlsx` or `xls` in any case. Otherwise it is the URL. |
| SqliteClient.ExcelNameEnds | android/android/app/src/main/assets/public/page/admin/js/sqliteClient.js:66-67 | The text after the last `.`, lower-cased, is `xlsx` or `xls` exactly when the name ends in `.xlsx` or `.xls` in any case, or is `xlsx` or `xls` alone in any case. |
| SqliteClient.ExcelPathIdempotent | android/android/app/src/main/assets/public/page/admin/js/sqliteClient.js:63-67 | Mapping an already mapped spreadsheet path again returns it unchanged, provided the URL parser either throws or gives that path back as its pathname. A parser that re-encodes the path breaks idempotence. |
| Text.Filter | android/android/app/src/main/assets/public/dev_server.py:34 | The result holds only kept characters, and each kept character as often as the input does. A text of kept characters is unchanged. |
| Text.FilterAppend | android/android/app/src/main/assets/public/dev_server.py:34 | Filtering a concatenation is filtering each part and concatenating, so the kept characters stay in their order. |
| DevServer.SafeFilename | android/android/app/src/main/assets/public/dev_server.py:30-37 | The result is the allowed characters of the text after the last `/` or `\`, cut to 120, or `file.bin` when none are allowed. So it is never empty, has at most 120 characters, each alphanumeric or one of `-`, `_`, `.`, and has no `/` or `\`. |
| DevServer.SafeFilenameSegment | android/android/app/src/main/assets/public/dev_server.py:32 | Only the text after the last `/` or `\` matters. |
| DevServer.SafeFilenameIgnoresDropped | android/android/app/src/main/assets/public/dev_server.py:34 | Characters the sanitiser drops, other than separators, change nothing when appended to a name. |
| DevServer.SafeFilenameKeeps | android/android/app/src/main/assets/public/dev_server.py:34-37 | A name of 1 to 120 allowed characters is returned unchanged. |
| DevServer.SafeFilenameIdempotent | android/android/app/src/main/assets/public/dev_server.py:30-37 | Applying the sanitiser twice gives the same result as applying it once. |
| DevServer.DotSegmentsAccepted | android/android/app/src/main/assets/public/dev_server.py:34 | `.` and `..` pass through unchanged. |
| Prefetch.SafeFilename | android/android/app/src/main/assets/public/scripts/prefetch_infografis.py:9-11 | The result is the kept characters of the name cut to 160, or `file.png` when none are kept; `None` gives `file.png`. So it is never empty and has at most 160 characters from the keep set. The cut comes before the fallback here, unlike in the dev server. |
| Prefetch.SafeFilenameIgnoresDropped | android/android/app/src/main/assets/public/scripts/prefetch_infografis.py:10 | Characters outside the keep set make no difference wherever they stand in the name. |
| Prefetch.SafeFilenameKeeps | android/android/app/src/main/assets/public/scripts/prefetch_infografis.py:10-11 | A name of 1 to 160 kept characters is returned unchanged. |
| Prefetch.SafeFilenameIdempotent | android/android/app/src/main/assets/public/scripts/prefetch_infografis.py:9-11 | Applying `safe_filename` twice gives the same result as applying it once. |
| Prefetch.ReplaceDouble | android/android/app/src/main/assets/public/scripts/prefetch_infografis.py:16 | Text with no separator is unchanged by the backslash-pair replacement. |
| Prefetch.ReplaceDoubleSegment | android/android/app/src/main/assets/public/scripts/prefetch_infografis.py:16 | Collapsing backslash pairs keeps both the last segment and the presence of a separator. |
| Prefetch.FilenameFromUrl | android/android/app/src/main/assets/public/scripts/prefetch_infografis.py:14-19 | The result meets `safe_filename`'s bounds: never empty, at most 160 characters, all from the keep set. |
| Prefetch.FilenameFromUrlSegment | android/android/app/src/main/assets/public/scripts/prefetch_infografis.py:16-17 | The name is `safe_filename` of the text before the first `?`, cut after its last `/` or `\`. |
| Prefetch.Step | android/android/app/src/main/assets/public/scripts/prefetch_infografis.py:32-50 | A blank row, or one whose file is already present, is skipped without a fetch. Otherwise the row is downloaded exactly when the fetch succeeds, and failed exactly when it does not. |
| Prefetch.StepFiles | android/android/app/src/main/assets/public/scripts/prefetch_infografis.py:41-46 | A download adds its file to the folder. Any other outcome leaves the folder as it was. |
| Prefetch.Outcomes | android/android/app/src/main/assets/public/scripts/prefetch_infografis.py:32 | There is one outcome per row. |
| Prefetch.CountsAddUp | android/android/app/src/main/assets/public/scripts/prefetch_infografis.py:31-50 | The downloaded, skipped and failed counts add up to the number of outcomes. |
| Prefetch.NoDoubleDownload | android/android/app/src/main/assets/public/scripts/prefetch_infografis.py:36-46 | A later row naming a file that an earlier row downloaded is skipped. |
| Prefetch.Run | android/android/app/src/main/assets/public/scripts/prefetch_infografis.py:31-50 | The loop's three counters equal the counts of each outcome over the rows, and they add up to the number of rows. |

## Left out

- Database execution is not modelled: `allAsync`, `runAsync`, `getAsync`, `PRAGMA table_info`, `sqlite_master`, and every 500 reply for a query that throws. The table's columns, the catalog (in the order the LIKE scan returns it), the probes that throw and the row read before a write are inputs. `ORDER BY` and `lastID` are not modelled. A read-back is the reply `ReadBack(status)` without its row.
- The GET list queries of `infografis`, `tbstatistik`, `kategori_tbstatistik` and `tbuser` are left out: they are fixed SELECTs with an `ORDER BY` and no logic. GET by id is modelled through `Crud.GetReply`.
- The `tbuser` router has no module of its own. Its builders are `PlainCrud.InsertAll` and `PlainCrud.UpdateAll` with the table `tbuser`, and its GET by id and DELETE are `Crud.GetReply` and `Crud.DeleteById` with `id`.
- Multer's disk storage, `mkdirSync` and the `fs.unlinkSync` bodies of the deletion helpers are not modelled. The model states which file name removal is asked for (`removeFile`), not what happens on disk.
- `Date.now()` is the `now` field of an upload. Console logging is left out, and so is any interleaving of concurrent requests.
- The WHATWG `URL` parser is not modelled: the parsed pathname is an input, and `None` stands for the parser throwing.
- SqliteClient.InfografisPathIdempotent and SqliteClient.ExcelPathIdempotent hold only when the parser throws or returns the mapped path as it is. The source is not idempotent when the parser percent-encodes the path: `http://[x/a b.png` first maps through the `catch` branch to `/sqlite/infografis/a b.png`, which a second call parses to `/sqlite/infografis/a%20b.png`.
- Python's `str.isalnum()` is read as ASCII letters and digits. Non-ASCII letters and digits, which Python also accepts, are not modelled. Lengths count characters; JavaScript's UTF-16 code units are not modelled.
- `Object.keys` lists integer-like keys first, in numeric order. The model keeps insertion order for every key.
- Numbers are integers only; floating point is not modelled.
- `Js.Value` has no booleans, arrays or objects, although `express.json` can deliver them in a body. `false` is falsy but not nullish, so `??` and `||` treat it differently. For example, the `tbinfografiskategori` POST inserts `{"nama_kategori": false}` as the value `false`; the model cannot express that body.
- Windows path rules are left out. The model assumes `path` is Node's POSIX variant; on Windows, `path.extname` and `path.basename` also split at `\`.
- In the prefetch script, the database read is the `rows` input. The fetch and the file write together are one oracle answer per row. The state of the folder is a set of names: a failed write that leaves a partial file is not modelled, and neither is a name (`.`, `..`) that resolves to a directory. `filename_from_url`'s `except` branch cannot be reached for a text input and is left out. So are `str()` of a non-text value and the `print` output.
- The dev server's HTTP handler, its argument parsing and `run_server` are left out. Only `_safe_filename` is modelled.
