# Photo diary: stored names, listings and the publish sync

This project models the two pieces of logic in the photo diary that are more
than I/O glue, and proves what they promise.

- **The backend server** (`photo-diary/backend/server.js`). Multer's
  `filename` callback stores an upload as `<timestamp>-<sanitized original
  name>`. Sanitizing replaces every code unit outside `[A-Za-z0-9._-]` with
  `_`. `POST /upload` answers 400 `"No file uploaded"` when multer attached no
  file. Otherwise it answers with the stored name and its `/uploads/` URL.
  `GET /list` drops empty names from the directory listing and sorts the rest
  in descending order, or answers 500 when the directory cannot be read.
- **The sync script** (`photo-diary/sync-photos.js`). It loads the backend
  metadata file; a missing or broken file counts as `{}`. It keeps the regular
  files of the uploads directory whose lower-cased name ends with an image
  extension, and sorts them ascending. In that order it copies each one into
  the publish directory when the name is absent there. It builds the
  `{filename, title}` list that it writes to `photos.json`.

Strings are sequences of UTF-16 code units (`Text.CodeUnit`), as in
JavaScript. The regular expression without the `u` flag, `endsWith` and the
default `sort` all work on code units. Modules:

- `Text`: code units, ASCII lower-casing, `endsWith`, and code-unit
  lexicographic order with its total-order lemmas.
- `Sorting`: insertion sort in either direction. It is proved to return a
  sorted permutation, and to be the only sorted permutation. So any correct
  sort in code-unit order returns the same list, including the sync script's
  `.sort()`. The server's `/list` sorts with `localeCompare`; there the
  descending code-unit order stands in for it (see "Left out").
- `Server`: sanitizing, decimal timestamps, stored names, and the `/upload` and
  `/list` handlers.
- `Sync`: the sync script. The filesystem is replaced by maps. The uploads
  directory is `Uploads`: its entries, what `statSync` says of each, and the
  order `readdirSync` listed them in. The publish directory is a
  `map<Str, Bytes>`. `Sync.SyncPhotos` is the imperative `main` loop. It is
  proved equal to the function `Sync.Run`, and the properties are lemmas
  about `Run`.

The model follows the code. `server.js` stores no title and no upload time,
and it has no metadata endpoint, so the metadata file the sync script reads is
never written by this backend; the model takes that file as an input. Its
`/list` drops empty names. The code also has two crash paths, and both are
modelled:
- A directory entry that `statSync` throws on aborts the sync before any copy.
- A metadata file holding the JSON value `null` makes `metadata[name]` throw.
  This happens after the first file has been copied and before `photos.json`
  is written.

## Model

| member | source | states |
|---|---|---|
| `Text.LeTransitive` | photo-diary/sync-photos.js:25 | the code-unit order used by `.sort()` is transitive |
| `Text.LeTotal` | photo-diary/sync-photos.js:25 | any two strings are comparable in code-unit order |
| `Text.LeAntisymmetric` | photo-diary/sync-photos.js:25 | two strings each at most the other are equal, so the order is a total order |
| `Sorting.Sort` | photo-diary/backend/server.js:69 | insertion sort in the given direction; its contract gives only the length, and `SortPermutes`, `SortSorted` and `SortIsTheSortedPermutation` state that it is the one sorted permutation. The sync script's `.sort()` (photo-diary/sync-photos.js:25) is the ascending case |
| `Sorting.SortPermutes` | photo-diary/backend/server.js:69 | sorting keeps exactly the input's elements, each as often (a permutation) |
| `Sorting.SortSorted` | photo-diary/backend/server.js:69 | the sorted list is ordered pairwise in the requested direction |
| `Sorting.SortedUnique` | photo-diary/sync-photos.js:25 | two sorted lists with equal multisets are equal, so the result does not depend on the sort algorithm |
| `Sorting.SortIsTheSortedPermutation` | photo-diary/backend/server.js:69 | any sorted permutation of the input is exactly Sort's result |
| `Sorting.SortDistinct` | photo-diary/sync-photos.js:25 | sorting a list without repeats gives a list without repeats |
| `Server.Sanitize` | photo-diary/backend/server.js:22 | same length as the original; safe code units keep position and value; every other code unit becomes `_` |
| `Server.SanitizeIsSafe` | photo-diary/backend/server.js:22 | every code unit of a sanitized name is in `[A-Za-z0-9._-]` |
| `Server.SanitizeFixesSafeNames` | photo-diary/backend/server.js:22 | sanitizing leaves a name unchanged if and only if it is all safe code units |
| `Server.SanitizeIdempotent` | photo-diary/backend/server.js:22 | sanitizing twice equals sanitizing once |
| `Server.SanitizeAppend` | photo-diary/backend/server.js:22 | the global replace works per code unit: sanitizing a concatenation concatenates the sanitized parts |
| `Server.SanitizeExample` | photo-diary/backend/server.js:22 | "My Photo!.JPG" sanitizes to "My_Photo_.JPG" |
| `Server.Decimal` | photo-diary/backend/server.js:23 | the timestamp is written as a non-empty string of digits without leading zeros |
| `Server.DecimalRoundTrip` | photo-diary/backend/server.js:23 | reading the decimal digits back gives the timestamp |
| `Server.CanonicalRoundTrip` | photo-diary/backend/server.js:23 | every digit string without leading zeros is the decimal form of its value (the other direction of the bijection) |
| `Server.StoredName` | photo-diary/backend/server.js:20-24 | the `filename` callback: the name has one more code unit than the timestamp's digits and the original name together, and every code unit is in `[A-Za-z0-9._-]`; `StoredNameShape` and `StoredNameRoundTrip` state its layout |
| `Server.StoredNameShape` | photo-diary/backend/server.js:21-23 | the stored name is the timestamp's digits, then the first `-`, then exactly the sanitized name |
| `Server.StoredNameRoundTrip` | photo-diary/backend/server.js:21-23 | parsing a stored name at its first `-` gives back the timestamp and the sanitized name |
| `Server.StoredNameInjective` | photo-diary/backend/server.js:21-23 | two uploads get the same stored name if and only if their timestamps and sanitized names agree |
| `Server.StoredNameExample` | photo-diary/backend/server.js:21-23 | "My Photo!.JPG" is stored as digits, `-`, "My_Photo_.JPG" |
| `Server.Upload` | photo-diary/backend/server.js:51-58 | status 400 with error "No file uploaded" exactly when there is no file; otherwise 200 with the stored filename and url `/uploads/` + filename |
| `Server.UploadUrlRoundTrip` | photo-diary/backend/server.js:51-58 | the URL of a stored upload names, under `/uploads/`, the stored file, whose name parses back to timestamp and sanitized name |
| `Server.NonEmpty` | photo-diary/backend/server.js:68 | `filter(Boolean)` keeps every non-empty name as often as it occurs and no empty one |
| `Server.ListFiles` | photo-diary/backend/server.js:67-69 | the listing is a permutation of the non-empty entries, sorted non-increasing, and holds a name exactly when it is a non-empty entry |
| `Server.ListFilesDetermined` | photo-diary/backend/server.js:67-69 | any non-increasing permutation of the non-empty entries is the listing |
| `Server.ListFilesCount` | photo-diary/backend/server.js:67-69 | a directory of N non-empty entries lists N names |
| `Server.List` | photo-diary/backend/server.js:63-70 | a failed directory read gives 500 "Failed to read uploads directory"; otherwise 200 with the sorted listing |
| `Sync.LoadMetadata` | photo-diary/sync-photos.js:15-18 | a missing file, or one that cannot be read or parsed, gives the empty object `{}`; a parsed file gives its value, which is `null` only when the file holds `null` |
| `Sync.Member` | photo-diary/sync-photos.js:33 | `metadata[name]` is defined exactly when the metadata is an object with a member `name`, and is then that member |
| `Sync.TitleOf` | photo-diary/sync-photos.js:33-34 | the title is either a truthy value or `''`; it is the member's `title` exactly when the member is an object with a truthy `title`, and `''` otherwise (for a falsy `title` such as `0`, `false` or `null` too) |
| `Sync.IsImageName` | photo-diary/sync-photos.js:20-24 | the lower-cased name ends with one of `.jpg`, `.jpeg`, `.png`, `.gif`, `.webp`, `.heic`; no contract of its own, `ImageNameIgnoresCase` and `NotesAreNotImages` state its properties |
| `Sync.ImageNameIgnoresCase` | photo-diary/sync-photos.js:24 | a name passes the extension test exactly when its lower-cased form does |
| `Sync.Retain` | photo-diary/sync-photos.js:21-25 | the filter throws exactly when `statSync` fails on some entry; otherwise it keeps exactly the regular files with an image extension, without repeats |
| `Sync.Files` | photo-diary/sync-photos.js:20-26 | a missing directory gives `[]`; otherwise the list holds exactly the retained names, in strictly ascending order, or the run throws if some entry cannot be stat'ed |
| `Sync.FilesAreRetained` | photo-diary/sync-photos.js:20-26 | the published names form the retained set, one per retained file |
| `Sync.FilesDetermined` | photo-diary/sync-photos.js:25 | the published list is the one strictly ascending list of the retained names |
| `Sync.FilesIgnoreListingOrder` | photo-diary/sync-photos.js:22-25 | the published list does not depend on the order `readdirSync` returns |
| `Sync.ThreeImagesAscending` | photo-diary/sync-photos.js:20-26 | three image files in increasing code-unit order are published in that order, whatever the listing order |
| `Sync.AscendingExample` | photo-diary/sync-photos.js:20-26 | `b.png`, `a.jpg`, `c.gif` are published as `a.jpg`, `b.png`, `c.gif` |
| `Sync.NotesAreNotImages` | photo-diary/sync-photos.js:20-24 | `notes.txt` has no image extension, so it is never published |
| `Sync.Run` | photo-diary/sync-photos.js:12-40 | `main` as a function: a missing uploads directory writes `[]` and copies nothing; the run throws from `statSync` exactly when the filter does; a written list has one entry per published name |
| `Sync.Publish` | photo-diary/sync-photos.js:28-38 | the loop: it throws from the filter exactly when the filter did, throws on `null` metadata exactly when there is a name to look up, writes one entry per name, and never changes a file the destination already had |
| `Sync.CopyAll` | photo-diary/sync-photos.js:32 | copy-if-absent over a list of names: every existing file is kept with its contents, and every file afterwards was there before or is one of the names |
| `Sync.EntryFor` | photo-diary/sync-photos.js:33-35 | the pushed entry is named after the file and titled by the `HasTitle` rule: the member's `title` when the member is an object with a truthy `title`, else `''` |
| `Sync.Entries` | photo-diary/sync-photos.js:33-35 | one entry per name, entry i named after name i |
| `Sync.SyncPhotos` | photo-diary/sync-photos.js:12-40 | the loop's outcome and destination files equal `Run`: copy-if-absent in sorted order, one entry per name, with the crash paths |
| `Sync.CopyAllSpec` | photo-diary/sync-photos.js:32 | copy-if-absent keeps every existing file, adds exactly the listed names, and fills each new one with the source's bytes |
| `Sync.CopyAllPresent` | photo-diary/sync-photos.js:32 | copying names that all exist already changes nothing |
| `Sync.EntriesTitled` | photo-diary/sync-photos.js:33-35 | entry i is named after file i and titled `metadata[name].title` when that is an object with a truthy title, else `''` |
| `Sync.RunEntries` | photo-diary/sync-photos.js:29-36 | the written list names exactly the retained files, in strictly ascending order, one entry per file, each titled from the metadata |
| `Sync.NoMetadataNoTitles` | photo-diary/sync-photos.js:15-18 | missing or unparseable metadata never makes the title lookup throw, and gives every entry the title `''` |
| `Sync.MissingUploadsNothingSynced` | photo-diary/sync-photos.js:21-26 | a missing uploads directory writes an empty list and copies nothing |
| `Sync.RunCrashes` | photo-diary/sync-photos.js:24-33 | the run throws exactly when `statSync` fails on an entry, or when the metadata is `null` and some file is retained |
| `Sync.RunNeverOverwrites` | photo-diary/sync-photos.js:32 | in every outcome, existing destination files keep their contents and are never removed; every added file is a retained image with the source's bytes |
| `Sync.RunPublishesEveryImage` | photo-diary/sync-photos.js:29-32 | after a completed run the destination holds its old files plus every retained file and nothing else |
| `Sync.PublishIdempotent` | photo-diary/sync-photos.js:29-38 | running the loop again on its own result gives the same outcome and the same files |
| `Sync.RunIdempotent` | photo-diary/sync-photos.js:29-38 | a second run on the same inputs writes the same entries and copies nothing |
| `Sync.RunIgnoresListingOrder` | photo-diary/sync-photos.js:20-36 | the whole run does not depend on the `readdirSync` order |

## Left out

- Express routing, static serving, `sendFile`, the redirect, `GET /health` and `app.listen`: framework glue with no logic of its own.
- Console output, including the synced-entry count: I/O. The count equals the entry count that `Sync.RunEntries` states.
- Multer's multipart parsing and its disk write: a foreign library. The model starts from the `req.file.filename` it leaves behind, or from its absence.
- `Date.now()` is a parameter, a whole number of milliseconds. `Server.Decimal` writes plain digits, which is what JavaScript does for values below 10^21.
- The filesystem calls become values. `readdir`/`readdirSync` are listings given as input. `statSync` is the `Node` of each entry. `existsSync`/`copyFileSync` are membership in and update of the destination map. The `mkdirSync` calls, and failures of copying, reading the directory itself or writing `photos.json`, are not modelled.
- `JSON.parse` and `JSON.stringify`: the metadata file is given already parsed, or as unreadable. The written list is the `entries` value, not its pretty-printed text.
- `Server.ListFiles`: orders by UTF-16 code units instead of the locale-dependent `localeCompare`. The two orders differ for non-ASCII names, for case, and for ASCII punctuation: collation puts punctuation before digits and letters and orders `_` before `-` and `.`, whereas `_` (0x5F) comes after `-`, `.`, the digits and the upper-case letters in code-unit order. So `1-a_b` and `1-a.b` are listed in opposite orders, and `_` is the code unit the sanitizer writes. The sync script's `.sort()` really does use code-unit order.
- `Sync.IsImageName`: lower-cases ASCII letters only, instead of Unicode-wide `toLowerCase`. No non-ASCII code unit lower-cases to a string that ends in a letter of the six extensions (U+0130 becomes `i` followed by U+0307; U+212A becomes `k`, which is in none of them). So the suffix test should agree, but that argument is not proved.
- `Sync.Member` and `Sync.TitleOf` read only the members a parsed JSON object holds. JavaScript's `metadata[name]` and `m.title` also look up the prototype chain (`Object.prototype`, `Array.prototype`, `String.prototype` and the others), and they find properties on arrays, strings, numbers and booleans too. The model gives `undefined` there. That is right because no property, own or inherited, of any of these values is named like an image file, and no inherited property is named `title`. The argument is not proved.
- Concurrency: racing uploads and a sync running beside the server.
- Title storage and a metadata endpoint: `server.js` has neither, so neither is modelled.
