# squirrel: watch log and project record

squirrel tracks the progress of a writing project. It keeps two small XML
files per project:

- the **project file**, a `squirrel` element whose `name` attribute and
  children `path` (attribute `src`), `description`, `due-date`, `goal` and
  `project-type` describe the project;
- the **watch file**, a `squirrel` element holding a descriptive comment and
  then one `watches` bucket per calendar day (attributes `date`, as
  `dd/mm/yyyy`, and `prev_count`), each holding `watch` snapshots (attribute
  `datetime`, text = the word count).

This project models the in-memory trees of both files and the operations of
`squirrel/xml.py` on them, and proves what they guarantee.

- `formatting.dfy` (module `Formatting`): Python's `str(n)` on integers and
  `strftime('%d/%m/%Y')` on dates, written out digit by digit, with their
  read-back and injectivity lemmas. The snapshot deduplication compares
  counts as strings, and the bucket lookup compares dates as strings. Both
  rules are only sound because these conversions are injective.
- `watch_log.dfy` (module `WatchLog`): the watch file as the sequence of the
  root's children (`Comment` or `Watches` bucket). Building the file and
  adding an entry are methods of the class `WatchFile`, which holds that
  sequence. The scan of `get_watches_entry` and the dictionary loop of
  `get_watches_data` are methods with loops. `AddWatch` is the functional
  specification of `add_watch_entry`. The lemmas about it cover each
  branch, the invariants it keeps (comment first, one bucket per date, no
  empty bucket), idempotence, the carried-over `prev_count`, the latest
  (`-1`) view and a worked two-day example.
- `project.dfy` (module `Project`): the project file as a record whose child
  elements may be missing. It has the build, read and in-place update
  operations, with the round trip from build to read and the per-field
  update and skip rules.
- `wrappers.dfy` (module `Wrappers`): `Option`.

The snapshot timestamp `str(dt)` is an opaque string parameter. `dt.date()`
is a `Date`. The word count is an integer parameter: the counting plugin
runs `wc -w` and is not part of this model.

Three behaviours of the watch log are easy to misread, and the model keeps
them exactly as the code has them:
- the latest (`-1`) view is the entry of the last bucket in document order,
  which is not necessarily the bucket touched most recently;
- the latest view is `("0", "0")` whenever the root has at most one child
  (the `len(squirrel) > 1` test), even if that one child is a bucket;
- a new bucket's `prev_count` comes from the root's last child, which is the
  comment in a fresh file.

## Model

| member | source | states |
|---|---|---|
| `Formatting.NatToString` | squirrel/xml.py:164-166 | `str(n)` of a natural number is a non-empty digit string that starts with '0' exactly when n is 0 (no leading zeros) |
| `Formatting.IntToString` | squirrel/xml.py:164-166 | `str(i)` starts with '-' exactly for negative i, and is all digits otherwise |
| `Formatting.NatToStringValue` | squirrel/xml.py:164-166 | reading the digits of `str(n)` back gives n |
| `Formatting.NatToStringInjective` | squirrel/xml.py:164-166 | distinct natural numbers have distinct `str` forms |
| `Formatting.IntToStringInjective` | squirrel/xml.py:164-166 | distinct integers have distinct `str` forms, so the text comparison of counts is a numeric comparison |
| `Formatting.PaddedValue` | squirrel/xml.py:180 | a zero-filled field of a `%d/%m/%Y` date reads back as its number when the number fits the width |
| `Formatting.FormatDate` | squirrel/xml.py:180 | `strftime('%d/%m/%Y')` is 10 characters: two digits, '/', two digits, '/', four digits |
| `Formatting.FormatDateFields` | squirrel/xml.py:180 | the day, month and year fields of the formatted date read back as the date's own day, month and year |
| `Formatting.FormatDateInjective` | squirrel/xml.py:148 | distinct dates give distinct `dd/mm/yyyy` strings, so comparing date strings compares dates |
| `WatchLog.LatestView` | squirrel/xml.py:119-126 | the `-1` entry is ("0", "0") when the root has at most one child |
| `WatchLog.LatestViewIsLastBucket` | squirrel/xml.py:119-126 | with more than one child, the `-1` entry is the entry of the bucket that no other bucket follows |
| `WatchLog.PrevCount` | squirrel/xml.py:172-175 | the carried-over count is the last count of the root's last child when that child is a bucket, and "0" when it is the comment or the root is empty |
| `WatchLog.FirstBucketFrom` | squirrel/xml.py:146-154 | the scan finds the first bucket dated `key` at or after a position, and finds none only when no such bucket exists |
| `WatchLog.LastBucketBefore` | squirrel/xml.py:122-126 | the bucket the dictionary loop visits last: a bucket with no bucket after it, or none when there is no bucket |
| `WatchLog.FindBucket` | squirrel/xml.py:140-154 | `get_watches_entry` returns the first bucket whose date string equals the formatted date, or none when no bucket has it |
| `WatchLog.BucketUnique` | squirrel/xml.py:140-154 | in a file with distinct dates, the bucket the scan returns is the unique bucket with that date |
| `WatchLog.DateMapContents` | squirrel/xml.py:122-125 | the dictionary built from the buckets holds exactly their dates, each mapped to the entry of the last bucket with that date |
| `WatchLog.WatchesData` | squirrel/xml.py:113-137 | `get_watches_data` maps "-1" to the latest view and each bucket date to (`prev_count`, last count); a date seen twice keeps the later bucket; with at most one child only "-1" is present |
| `WatchLog.AddWatch` | squirrel/xml.py:157-189 | `add_watch_entry` never leaves a bucket empty and adds at most one child to the root |
| `WatchLog.WatchFile.Build` | squirrel/xml.py:48-55 | a fresh watch file holds only the comment; it is valid, and its latest view is ("0", "0") |
| `WatchLog.WatchFile.AddWatchEntry` | squirrel/xml.py:157-189 | the in-place update produces exactly the children and return value of `AddWatch`, and keeps a valid file valid |
| `WatchLog.AddUnchangedCount` | squirrel/xml.py:162-168 | if today's bucket exists and its last snapshot is `str(total)`, the call returns False and the tree is unchanged |
| `WatchLog.AddToExistingBucket` | squirrel/xml.py:162-166 | if today's bucket exists and its last count differs, exactly one snapshot (`stamp`, `str(total)`) is appended to that bucket; the bucket's date and `prev_count`, every other child and the child count are unchanged; the result is True |
| `WatchLog.AddNewBucket` | squirrel/xml.py:171-182 | if no bucket has today's date, exactly one bucket is appended after all existing children, with the formatted date, `prev_count` from the last child and one snapshot of `str(total)`, whatever the count (deduplication is per day only); the result is True |
| `WatchLog.ReadAfterAdd` | squirrel/xml.py:130-189 | after any addition to a valid file, the scan finds a bucket for that date, and `get_watches_last_count` of it is `str(total)`: the count just appended, the count of a bucket just opened, or the equal count that made the call return False |
| `WatchLog.PrevCountIsLatest` | squirrel/xml.py:172-175 | in a valid file the carried-over `prev_count` is the last count of the latest bucket, and "0" for a fresh file |
| `WatchLog.AddWatchKeepsValid` | squirrel/xml.py:157-189 | adding an entry keeps the comment first, the bucket dates pairwise distinct and every bucket non-empty |
| `WatchLog.LatestAfterAdd` | squirrel/xml.py:113-137 | after an addition for the newest day, the latest view reports `str(total)`, with the previous day's last count as `prev_count` when a bucket was opened |
| `WatchLog.AddIdempotent` | squirrel/xml.py:162-168 | repeating an addition with the same count on the same day returns False and changes nothing |
| `WatchLog.TwoDayScenario` | squirrel/xml.py:157-189 | counts 100, 100, 250 on one day and 400 on the next give buckets (100, 250) and (400 with `prev_count` 250); the duplicate returns False; the latest view is ("250", "400") |
| `Project.BuildProjectTree` | squirrel/xml.py:25-41 | a built project file holds every child element and records the directory of the file as `path` |
| `Project.ReadProject` | squirrel/xml.py:97-110 | reading succeeds exactly when every child element is present |
| `Project.ReadAfterBuild` | squirrel/xml.py:25-41 | reading a built file gives the name verbatim (or ""), the directory, the description (or ""), `str(goal)` (or "0"), the `dd/mm/yyyy` due date and the type ("text" when absent or None); a non-negative goal and the date fields read back as numbers |
| `Project.BuildReadInjective` | squirrel/xml.py:25-41 | two built files that read back alike were built from the same name, directory, description, goal, due date and type |
| `Project.SetElementText` | squirrel/xml.py:66-92 | one guarded assignment: a given value replaces the text of an existing element; a given value for a missing element is reported as missing and changes nothing; no value given leaves the element as it was; the element never appears or disappears |
| `Project.UpdatedTree` | squirrel/xml.py:63-92 | an update keeps `path` and never adds or removes a child element, so a complete file stays complete and an incomplete one stays incomplete |
| `Project.Skipped` | squirrel/xml.py:63-92 | an update of a complete file skips nothing, and an update that gives none of the element fields skips nothing |
| `Project.ProjectFile.Parse` | squirrel/xml.py:59-61 | the loaded file holds the parsed tree |
| `Project.ProjectFile.Update` | squirrel/xml.py:58-94 | the in-place update produces `UpdatedTree` of the old tree, and reports as skipped exactly the given fields whose element is missing |
| `Project.UpdateComplete` | squirrel/xml.py:58-94 | on a complete file nothing is skipped; the read-back record has each given field (goal as `str(goal)`, due date raw) and the old value of every other field |
| `Project.UpdateSkipsOnlyMissing` | squirrel/xml.py:66-92 | a missing element skips only its own field; no element appears or disappears; every given field whose element exists is set; every field given as None keeps its old value |
| `Project.EmptyUpdateChangesNothing` | squirrel/xml.py:63-92 | an update with no field given changes nothing and skips nothing |
| `Project.UpdateIdempotent` | squirrel/xml.py:58-94 | applying the same update twice equals applying it once |

## Left out

- File I/O is not modelled. This covers `os.mkdir`, `open`, `ET.parse` with a comment-keeping parser, `ET.indent`, `tree.write`, the UTF-8 XML declaration and the global file paths. The model works on the in-memory trees only. `build_project` is I/O as well: it creates the directory with `os.mkdir`, which raises `FileExistsError` when the directory exists.
- The counting plugin `squirrel/plugins/text.py` runs `wc -w` in a shell. The count is an integer parameter instead.
- `str(dt)` for the snapshot timestamp is an opaque string, passed next to the `Date` of `dt`.
- `FormatDate` writes `%Y` as four zero-filled digits, as Python documents it. Some C libraries print years before 1000 without padding.
- `Date` bounds the day by 31 and does not tie it to the month's length. Dates are only formatted here, never computed.
- The `root is None` branch of `add_watch_entry` cannot be reached, because parsing raises instead. So is the `except KeyError` around the snapshot comparison, since nothing there can raise it. Neither is modelled.
- `WatchLog.WatchFile.AddWatchEntry` (and `WatchLog.AddWatch`) require every bucket to be non-empty. In Python only an empty bucket for today's date raises `IndexError`. The requires also excludes files with an empty bucket for another day, which Python handles: when that bucket is the last child, the `prev_count` lookup catches the `IndexError` and uses "0". `WatchLog.PrevCount` models that fallback, but `AddWatch` never reaches it.
- `WatchLog.WatchesData` requires a bucket whenever the root has more than one child. In Python `data['-1'] = data[date]` otherwise raises `UnboundLocalError`, because the loop never bound `date`.
- `WatchLog.LatestView` gives ("0", "0") for a root with more than one child and no bucket, where `get_watches_data` raises.
- Buckets without a `date` attribute are not represented. The scan of `get_watches_entry` skips them by catching `KeyError`/`AttributeError`.
- Element text is always a string in the model. ElementTree gives None for the text of an empty element, and that case is not represented.
- `Project.ReadAfterBuild` relates reading to building on the in-memory tree, not through the file. An empty description or project type is written as an empty element such as `<description />`. Parsing that file back gives None for it instead of "". An empty `name` attribute stays "".
- `get_watches_last_count` returns the integer 0 for an empty bucket. `LastCount` returns the text "0".
- `ProjectData` fields that are None stand for absent keys. Keys present with the value None are not modelled: `f"{None}"` would give the name "None", and a None description would give an element without text. The exception is `project_type`, where the source handles None itself.
- `build_project_file` requires the `due` key. Without it Python raises `AttributeError`, so `ProjectData.due` is not optional.
- `update_project_file` logs a diagnostic for a missing element. The model returns the set of skipped elements instead. The rewrite of the file after every update is I/O.
- `ReadProject` returns None where Python raises `AttributeError` on a missing element.
