# notes-export-server, modelled in Dafny

The notes export server stores encrypted note bundles as JSON files in an
`exports` directory. This project models the logic in `src/index.js` that
decides which bytes land where:

- **Payload validation** (`Payload`): the POST handler's guard chain on
  `version`, `salt`, `iv`, `ciphertext` and `nodeName`, over a JSON value
  datatype with JavaScript's `typeof`.
- **Timestamp and file name** (`Naming`): `toISOString()` of a clock
  reading, with `:` and `.` replaced by `-`, and the file name
  `notes-export-<nodeName>-<stamp>.json`.
- **Node-name listing** (`Listing`): the greedy regular expression that
  extracts the node name from every file in the directory, de-duplication
  through a set, and the default string sort.
- **Retention pruning** (`Pruner`): `cleanupExports` as it is written. Files
  are grouped by the date captured right after `notes-export-`. Today's files
  are skipped, and so are future-dated ones. For each past day, every file
  except the greatest in string order is deleted.
- **The export handler end to end** (`Exports`): validate, write, prune,
  answer 201 with the file name or 400 on a bad payload.

Shared pieces: `Text` holds JavaScript's string `<`, the `\d` digit class and
the characters a regular-expression `.` refuses. `Sorting` holds the
array sort as a functional insertion sort. `Outcome` holds `Option` and
`Result`.

The exports directory is a `seq<string>` of distinct file names, or `None`
when it does not exist. A prune is modelled as the list of names it
unlinks, together with the directory that remains. The two clock reads
become explicit `Naming.Instant` parameters: one at line 57 for the file
name and one at line 75 for "today".

### Where the code and its description differ

The model follows the code in each case.

- **Which files the pruner matches.** The pruner's pattern (line 80) wants
  the date *immediately* after `notes-export-`. The writer puts the node
  name there (line 58). So an export is pruned only when its node name
  itself begins with `DDDD-DD-DDT`. Ordinary exports are never deleted.
  The description instead speaks of per-day buckets of the writer's files.
  `Pruner.WriterFileDay`, `Pruner.WriterFileNeverPruned` and
  `Exports.PastDayWritesKept` state this behaviour.
- **Timestamp shape in the listing.** The listing's pattern (line 21)
  accepts any `DDDD-DD-DDT` followed by arbitrary non-line-terminator text.
  It does not insist on the full stamp shape.
- **Failed deletions.** A failing `unlinkSync` (line 101) is not caught
  inside the pruner; it ends the request with a 500. The description calls
  deletions best-effort.

## Model

| member | source | states |
|---|---|---|
| Text.LessIsFirstDifference | src/index.js:90 | JavaScript's `<` on strings holds exactly when `a` is a proper prefix of `b`, or the first differing character of `a` is below that of `b` |
| Text.Less | src/index.js:90 | JavaScript's `<` on strings, used for `day < today` and as the default sort order at line 98: compared character by character, a proper prefix first; `Text.LessIsFirstDifference` relates it to the first-difference reading |
| Text.LessTotal | src/index.js:98 | any two different strings are ordered one way or the other, so the sort's output is fixed by the set of names |
| Sorting.Sort | src/index.js:98 | the default array sort returns an ascending arrangement of the same multiset of strings, and keeps distinct input distinct |
| Sorting.AscendingUnique | src/index.js:30 | two strictly ascending lists with the same members are identical, so the sorted name list depends only on the set |
| Payload.ParseBundle | src/index.js:40-49 | the payload is rejected exactly when it is null/falsy, is not an object, or one of `version` (number) and `salt`, `iv`, `ciphertext`, `nodeName` (strings) has the wrong type or is missing; an accepted payload yields exactly those field values |
| Payload.ParseBundleJson | src/index.js:40-49 | any object carrying the five bundle fields with the right types, plus any other fields, is accepted and yields that bundle |
| Naming.DigitsValue | src/index.js:57 | a zero-padded field of an ISO timestamp reads back as the number it encodes |
| Naming.DigitsOrder | src/index.js:57 | for fixed width, string order of zero-padded fields equals numeric order |
| Naming.IsoString | src/index.js:57 | `toISOString` of a valid instant has the shape `DDDD-DD-DDTDD:DD:DD.DDDZ` |
| Naming.Sanitize | src/index.js:57 | replacing `:` and `.` by `-` keeps the length, rewrites exactly those characters, and leaves none of them behind |
| Naming.SanitizeKeepsOrder | src/index.js:57 | on strings whose separators sit in the same positions, the replacement preserves string order in both directions |
| Naming.Stamp | src/index.js:57 | the file timestamp has the shape `DDDD-DD-DDTDD-DD-DD-DDDZ` |
| Naming.StampFields | src/index.js:57 | the file timestamp is the seven zero-padded clock fields joined by `-` and `T` and ended by `Z` |
| Naming.IsoChronological | src/index.js:57 | one ISO string sorts below another exactly when its instant is earlier |
| Naming.StampChronological | src/index.js:57 | one file timestamp sorts below another exactly when its instant is earlier |
| Naming.Today | src/index.js:75 | "today" is the `DDDD-DD-DD` date prefix of the same instant's timestamp |
| Naming.FileName | src/index.js:58 | the file name is `notes-export-`, the node name, `-`, the timestamp and `.json`, each at its stated position |
| Listing.LongestSplit | src/index.js:21-24 | the search returns the longest group length at which the whole listing pattern matches, or reports that no length up to the bound matches |
| Listing.SplitsAt | src/index.js:21 | the listing pattern `^notes-export-(.+)-(\d{4}-\d{2}-\d{2}T.*)\.json$` matching a file with a first group of a given length: the prefix, a non-empty group without line terminators, `-`, a date and `T`, any text without line terminators, `.json`; `Listing.ListingRoundTrip` relates it to the file names the writer builds |
| Listing.NameGroup | src/index.js:21-26 | a file yields a name exactly when the listing pattern matches it, and the name is the greedy (longest) capture of `(.+)` |
| Listing.CollectNames | src/index.js:20-28 | the collected names are distinct and are exactly the captures of the matching files |
| Listing.ListNames | src/index.js:15-30 | a missing directory lists no names; otherwise the answer is strictly ascending and contains exactly the names captured from the directory's files |
| Listing.ListNamesIgnoresOrder | src/index.js:19-30 | the listing depends only on which files exist, not on the order `readdirSync` returns them in |
| Listing.NonMatchingIgnored | src/index.js:23-28 | adding a file the pattern does not match leaves the listing unchanged |
| Listing.NoSplitPastName | src/index.js:21 | on a written export file, no match of the listing pattern captures more than the node name |
| Listing.SplitNeedsName | src/index.js:21 | a written export file matches the listing pattern only if its node name is non-empty and free of line terminators |
| Listing.ListingRoundTrip | src/index.js:21 | the listing pattern, applied to the file name built at line 58, captures exactly the node name when that name is non-empty and free of line terminators, and nothing otherwise |
| Pruner.DayOf | src/index.js:80-85 | the pruner's captured day always has the shape `DDDD-DD-DD` |
| Pruner.HasDay | src/index.js:80 | the pruning pattern `^notes-export-(\d{4}-\d{2}-\d{2})T` matches: the prefix followed at once by a date and `T`; `Pruner.WriterFileDay` states when a writer's file matches it |
| Pruner.AddFileKeepsBuckets | src/index.js:86-94 | handling one more file keeps the map's invariant: one entry per past day that some handled file carries, each holding exactly the handled files of that day, and no duplicates when the new file is new |
| Pruner.AddFile | src/index.js:85-94 | one pass of the first loop: a file without a day, of today or of a later day is skipped; a past-day file is appended to its day's bucket, which is opened when the day is new; `Pruner.AddFileKeepsBuckets` states the invariant it keeps |
| Pruner.GroupByDay | src/index.js:79-95 | the map holds exactly the days before today that some listed file carries, each bucket holds exactly the listed files of its day, and buckets of a duplicate-free listing are duplicate-free |
| Pruner.AllButGreatest | src/index.js:98-99 | sorting and dropping the last element keeps exactly the bucket members that some other member exceeds |
| Pruner.Unlinked | src/index.js:97-103 | the files unlinked are exactly the all-but-greatest files of the buckets visited |
| Pruner.Prune | src/index.js:74-104 | every file deleted was listed and carries a day strictly before today |
| Pruner.PruneDeletesDoomed | src/index.js:86-103 | for a listing of distinct names, a file is deleted exactly when it carries a past day and a greater file carries the same day |
| Pruner.KeptExactly | src/index.js:97-103 | for a duplicate-free listing, the files left after the prune are exactly the listed files that are not doomed |
| Pruner.Remaining | src/index.js:100-102 | after unlinking, the directory holds exactly the listed files not deleted, and stays duplicate-free |
| Pruner.PruneIdempotent | src/index.js:97-103 | running the pruner again on what it leaves deletes nothing |
| Pruner.GreatestOfDay | src/index.js:98-99 | the greatest listed file of a day, when there is one, carries that day and no file of that day is above it |
| Pruner.OneSurvivorPerPastDay | src/index.js:97-103 | after pruning, each past day keeps exactly one file, its greatest |
| Pruner.PruneSpares | src/index.js:80-94 | unlisted files, files without a pruner day, and files dated today or later are never deleted |
| Pruner.WriterFileDay | src/index.js:80 | a written export file carries a pruner day exactly when its node name begins with `DDDD-DD-DDT` |
| Pruner.WriterFileNeverPruned | src/index.js:80-83 | a written export file whose node name does not begin with a date is never deleted |
| Exports.Write | src/index.js:61 | writing adds the new name to the directory and keeps every existing one, without duplicates |
| Exports.PostExport | src/index.js:37-72 | a 400 answer happens exactly for an invalid payload and leaves the directory untouched; a 201 answer names the file built from the node name and the clock; for a duplicate-free directory, the directory afterwards holds exactly the old files and the new one minus those the prune dooms, without duplicates |
| Exports.WrittenFileKept | src/index.js:57-62 | an export whose node name does not begin with a date is answered 201 and its file survives the prune that follows the write |
| Exports.UndatedFilesSurvive | src/index.js:62 | any file already in the directory that carries no pruner day is still there after an export |
| Exports.WrittenBundleListed | src/index.js:57-62 | after such an export, its node name appears in the node-name listing when the name is non-empty and free of line terminators |
| Exports.WriteLeavesNothingToPrune | src/index.js:62 | after an export, a further prune on the same day deletes nothing |
| Exports.NoDayNoPrune | src/index.js:80-83 | a directory in which no file carries a pruner day loses nothing to pruning |
| Exports.PastDayWritesKept | src/index.js:80-94 | two exports of one node on a past day and one export of another node all survive pruning, whatever "today" is |

## Left out

- Express setup, CORS, the 500 MB body limit and `listen` (lines 1-10, 106-108) are HTTP plumbing with no logic to state.
- The 500 answers (lines 31-34, 68-71) are left out. Any exception, including a failing `unlinkSync` at line 101, becomes one of them. The model has no failing filesystem calls.
- `existsSync`, `mkdirSync`, `readdirSync`, `writeFileSync` and `unlinkSync` are left out as calls. The directory is a list of distinct names: `mkdirSync` turns `None` into an empty list, a write adds a name, and an unlink removes one.
- `path.join` is left out. A node name containing `/` or `..` would place the file elsewhere; the model treats the file name as a directory entry.
- File contents are left out: `JSON.stringify` at line 61 only fills the file, and the listing and pruning read names only.
- The real clock is left out. Both clock reads are parameters of `Exports.PostExport`. `Naming.Instant.Valid` bounds each field but does not check days per month.
- Years outside 0000-9999 are left out. `toISOString` writes those with a sign and six digits; the model requires four-digit years.
- JSON numbers are `real`. `JSON.parse` turns an overflowing literal such as `1e400` into `Infinity`, which a `real` cannot hold. `typeof` of `Infinity` is still "number", so the validator's verdict is the same. The value differs only in the stored file contents, which are left out.
- Property lookup is limited to an object's own fields. Inherited `Object.prototype` members are ignored; none of the five bundle field names is one.
- Text.Less: compares by code point. JavaScript compares UTF-16 code units, so strings that differ at a character above U+FFFF versus one in U+E000..U+FFFF order differently.
- Pruner.Prune: its own contract states only that deletions are of past-day listed files. The exact set is `Pruner.PruneDeletesDoomed`, which assumes `readdirSync` returns no name twice.
- Exports.PostExport: states the created file name by construction from the payload's node name and the clock. Which files survive is stated exactly only for a duplicate-free directory, because `readdirSync` never lists a name twice. `Exports.WrittenFileKept` and `Exports.WrittenBundleListed` state what happens to the new file and its node name.
- The `GET` handler's response body is modelled as the name list only. Latest-bundle retrieval and authentication are not part of `src/index.js` and so are not part of this model.
