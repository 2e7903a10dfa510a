# dirwatcher watch-state engine in Dafny

A model of the part of `dirwatcher.py` that keeps track of a watched
directory. That part is the module-level `store` dictionary, which maps a
file name to the line offset its next scan starts from. Five functions
update it in place:

- `initial_fill` seeds every listed name at offset 0.
- `detect_added_files` adds newly listed names at offset 0 and reports
  each one.
- `detect_removed_files` pops keys that are no longer listed and reports
  each one.
- `search_for_magic` scans a file's lines from a start offset. It reports
  every line containing the magic text and moves the file's entry to one
  past the last matching line.
- `watch_directory` is one poll cycle: added-detection, then
  removed-detection, then a scan of every listed file that ends with the
  extension.

Modules:

- `SnapshotStore` (`store.dfy`): the `store` dict as a class `Store`. It
  has a `map<string, nat>` of offsets and the dict's key order. The order
  matters because `detect_removed_files` walks `list(store)`, and so it
  reports removals in insertion order. `Put` stands for `store[k] = v`.
  `Pop` stands for `store.pop(k)`. `Consistent` is the invariant that
  every key appears once in the key order.
- `Text`: the substring test `magic in line`, `str.endswith`, and the base
  name `filename.split("/")[-1]`.
- `Events`: the log lines as values (`Added`, `Removed`, `Found`,
  `DirectoryNotFound`). It also has the `Outcome` of a pass: done, or
  ended by an OSError from `os.listdir` or `open`.
- `ScanSpec`, `DiffSpec`, `CycleSpec`: what each operation does to the
  store, written as functions on values:
  - `Matches` and `Resume` for one scan;
  - `Seeded`, `WithAdded`, `WithoutRemoved`, `NewNames`, `Kept` and
    `Gone` for the detection passes;
  - `ScanPhase` and `PollCycle` for a whole cycle.
  Each module also holds the lemmas about these functions.
- `DirWatcher`: the five functions as methods with loops over a `Store`.
  Each method is proved to leave exactly the state and the events that the
  matching function describes.

Directory listings and file contents are inputs. A listing is
`Option<seq<string>>`, and `None` means `os.listdir` raises OSError. A
file's lines are `Option<seq<string>>`, and `None` means `open` raises.
For a whole cycle, `files` maps each name that can be opened to its
lines.

Three points of the code's behaviour the model keeps:

- Added-detection runs before removed-detection
  (`dirwatcher.py:104-105`).
- A file that cannot be opened ends the whole cycle. Files scanned before
  it keep their new offsets, and later files are not scanned.
- `detect_removed_files` only lists the directory when the store has a
  key. So with an empty store an unreadable directory does not make that
  pass fail.

## Model

| member | source | states |
|---|---|---|
| SnapshotStore.Store.constructor | dirwatcher.py:56 | `store = dict()` starts empty and consistent |
| SnapshotStore.Store.Put | dirwatcher.py:63 | `store[key] = value` overwrites the value of an existing key in place, and appends a new key at the end of the key order |
| SnapshotStore.Store.Pop | dirwatcher.py:74 | `store.pop(key)` drops the key from the map and removes its one place in the key order, keeping the other keys in order |
| SnapshotStore.PutConsistent | dirwatcher.py:63 | setting a key keeps every key once in the key order |
| SnapshotStore.PopConsistent | dirwatcher.py:74 | popping a key keeps every key once in the key order |
| DirWatcher.InitialFill | dirwatcher.py:59-66 | on a listing, every listed name is set to 0 (existing keys too) and new names are appended in listing order; on OSError it logs "not found" and the store is unchanged; the store stays consistent |
| DiffSpec.SeededEffect | dirwatcher.py:62-63 | after the fill, the keys are the old keys plus the listed names, every listed name is at 0, and unlisted keys keep their offsets |
| DirWatcher.DetectAddedFiles | dirwatcher.py:78-83 | exactly the listed names that were not keys are added at 0 and reported, once each, in listing order; existing keys are untouched; an unreadable directory fails the pass with nothing changed |
| DiffSpec.WithAddedEffect | dirwatcher.py:80-83 | after added-detection every listed name is a key, a new name is at 0 and an existing key keeps its offset |
| DiffSpec.NewNamesMember | dirwatcher.py:81-82 | a name is reported added exactly when it is listed and was not a key |
| DiffSpec.NewNamesDistinct | dirwatcher.py:81-82 | no name is reported added twice, even when the listing repeats it |
| DiffSpec.GrowConsistent | dirwatcher.py:62-63 | the fill and added-detection keep every key once in the key order |
| DirWatcher.DetectRemovedFiles | dirwatcher.py:69-75 | walking the keys in insertion order, every unlisted key is popped and reported in that order; listed keys keep their offsets and order; an unreadable directory fails the pass, changing nothing, only when there is a key to check |
| DiffSpec.WithoutRemovedEffect | dirwatcher.py:71-74 | after removed-detection every key is listed and keeps its offset |
| DiffSpec.GoneMember | dirwatcher.py:72-73 | a key is reported removed exactly when it was a key and is not listed |
| DiffSpec.KeptMember | dirwatcher.py:72-74 | a key survives exactly when it was a key and is listed |
| DiffSpec.GoneDistinct | dirwatcher.py:71-73 | no key is reported removed twice |
| DiffSpec.KeptDistinct | dirwatcher.py:71-74 | the surviving key order has no repeats |
| DiffSpec.KeptConsistent | dirwatcher.py:71-74 | removed-detection keeps every key once in the key order |
| DiffSpec.PrunedHasNext | dirwatcher.py:71-74 | the key the removal loop reaches next is still in the store, so `store.pop` cannot raise KeyError |
| DiffSpec.AllListed | dirwatcher.py:71-74 | nothing is removed when every key is listed |
| DiffSpec.NothingNew | dirwatcher.py:80-83 | nothing is added when every listed name is already a key |
| DiffSpec.AddedThenRemoved | dirwatcher.py:104-105 | removed-detection right after added-detection never removes a name just added, and reports only the old unlisted keys |
| DiffSpec.DiffSyncsKeys | dirwatcher.py:104-105 | added- then removed-detection on one listing leaves exactly the listed names as keys; a name known before keeps its offset and a new one is at 0 |
| DiffSpec.ReAddedStartsOver | dirwatcher.py:74 | a file that is removed and later listed again starts over at offset 0 |
| DirWatcher.SearchForMagic | dirwatcher.py:86-98 | when the file cannot be opened it fails with nothing changed; otherwise it reports one `Found` per matching line at or after `start_line`, in line order and with the 1-based number, moves the base-name entry one past the last match (appending the key if new), and changes nothing else |
| DirWatcher.ScanLines | dirwatcher.py:91-97 | the `enumerate` loop over the lines read: the same events and store update as a whole scan from `start_line` |
| ScanSpec.MatchesInMember | dirwatcher.py:91-93 | an index is reported exactly when it is in range, at or after the start, and its line contains the pattern |
| ScanSpec.MatchesInIncreasing | dirwatcher.py:91-96 | reported line numbers strictly increase: in file order, each line once |
| ScanSpec.MatchesInSplit | dirwatcher.py:91-93 | scanning a range in two parts reports what one scan reports |
| ScanSpec.MatchesInAgree | dirwatcher.py:91-93 | only the lines inside the scanned range affect the report |
| ScanSpec.ScanIgnoresEarlierLines | dirwatcher.py:92 | lines before `start_line` are never looked at: files that differ only there give the same report |
| ScanSpec.NoMatchIff | dirwatcher.py:91-93 | a scan reports nothing exactly when no line at or after `start_line` contains the pattern |
| ScanSpec.ResumeAfterLastMatch | dirwatcher.py:91-97 | after a match the offset is one past the last matching line, strictly beyond `start_line`, and no later line matches |
| ScanSpec.ResumeIsQuiet | dirwatcher.py:97 | offsets never go backwards, and scanning the same lines again from the new offset finds nothing |
| ScanSpec.IncrementalScan | dirwatcher.py:91-97 | for a file that only grows, a scan and then a scan from the new offset report each matching line once, in order, as one scan of the grown file does |
| CycleSpec.RescannedEffect | dirwatcher.py:94-97 | a scan writes only the base-name entry: unchanged with no match, otherwise the resume offset, strictly beyond the start |
| CycleSpec.RescannedConsistent | dirwatcher.py:97 | a scan keeps every key once in the key order |
| CycleSpec.ScanPhase | dirwatcher.py:106-109 | the scan loop as a value: it only rewrites entries of names already in the store, and adds or drops no key |
| DirWatcher.ScanFiles | dirwatcher.py:106-109 | scans exactly the listed names that end with the extension, each from its stored offset and in listing order; the first file that cannot be opened ends the loop after the earlier files were scanned |
| CycleSpec.ScanPhaseFrame | dirwatcher.py:106-109 | the scan phase never lowers an offset, leaves every unselected or unlisted entry alone, and fails only on a selected listed file that cannot be opened |
| CycleSpec.ScanPhaseEvents | dirwatcher.py:106-109 | the scan phase reports only `Found` events for the magic text, and only for listed files whose name ends with the extension |
| CycleSpec.ScanPhaseStopsAtFirstFailure | dirwatcher.py:106-109 | the scan loop ends at the first selected file that cannot be opened: it fails on that file, no entry outside the names before it changes, and every event comes from a name before it |
| CycleSpec.ScanPhaseFailureKeepsEarlierScans | dirwatcher.py:106-109 | when the loop fails at the first file that cannot be opened, every selected file before it was scanned and keeps the offset that scan left |
| CycleSpec.ScanPhaseReportsEveryMatch | dirwatcher.py:106-109 | a completed scan loop reports line `j` of a selected file exactly when one scan of that file from its stored offset finds it |
| CycleSpec.ScanPhaseOffsets | dirwatcher.py:106-109 | when the scan phase completes, each selected file ends at the offset one scan from its old offset gives |
| CycleSpec.NoExtensionScansNothing | dirwatcher.py:107 | with no extension the scan phase changes and reports nothing |
| CycleSpec.QuietScanPhase | dirwatcher.py:106-109 | when no selected file has a new matching line, the scan phase changes and reports nothing |
| CycleSpec.ScanPhaseIdempotent | dirwatcher.py:106-109 | a second scan phase over unchanged files finds nothing |
| CycleSpec.Synced | dirwatcher.py:104-105 | after both detection passes the keys are exactly the listed names |
| CycleSpec.SyncedConsistent | dirwatcher.py:104-105 | both detection passes together keep every key once in the key order |
| DirWatcher.WatchDirectory | dirwatcher.py:101-110 | one cycle leaves exactly the store, events and outcome `PollCycle` gives, and keeps the store consistent; an unreadable directory fails before anything changes |
| CycleSpec.CycleEffect | dirwatcher.py:101-110 | after a cycle the keys are exactly the listed names; each offset starts from the old one (0 when new), never goes down, moves only for selected files, and when the cycle completes is where one scan from there leaves it |
| CycleSpec.CycleReportsEveryMatch | dirwatcher.py:101-110 | a completed cycle reports line `j` of a listed file with the extension exactly when a scan from its offset before the cycle (0 for a new file) finds it |
| CycleSpec.NoExtensionNoFound | dirwatcher.py:107 | with no extension a cycle cannot fail on a file and reports no `Found` event |
| CycleSpec.SyncedFixpoint | dirwatcher.py:104-105 | detection changes nothing when the keys are already exactly the listed names |
| CycleSpec.SecondCycleIsQuiet | dirwatcher.py:101-110 | a completed cycle, followed by a cycle over the same listing and file contents, reports nothing and changes nothing |
| Text.ContainsIffOccurs | dirwatcher.py:93 | `magic_string in line` holds exactly when the pattern occurs at some position of the line |
| Text.EndsWithIffSplit | dirwatcher.py:108 | `file.endswith(extension)` holds exactly when the name is some text followed by the extension |
| Text.BaseNameShape | dirwatcher.py:94 | `filename.split("/")[-1]` is a '/'-free suffix of the path that is either the whole path or comes right after a '/' |
| Text.BaseNameOfJoin | dirwatcher.py:109 | the base name of `path + '/' + file` is `file` for a '/'-free entry name, so the scanner writes the key the listing reported |

## Left out

- Signal handling and `exit_flag` (`dirwatcher.py:126-136`, `:143-144`, `:157`) are not modelled. They are about asynchronous signal delivery.
- Logging setup, the start and end banners and the uptime clock (`dirwatcher.py:17-50`) are not modelled. Log lines are the returned `Event` values, without their text formatting.
- Argument parsing (`dirwatcher.py:113-123`) is not modelled. The path, magic text and extension are parameters.
- The poll interval, its `< 0` coercion and `time.sleep` (`dirwatcher.py:151-158`, `:171`) are not modelled. They are floating point and wall-clock time, and `watch_directory` ignores its `interval` argument.
- The main loop and its exception dispatch (`dirwatcher.py:139-173`) are not modelled. Instead, an OSError from `os.listdir` or `open` ends the pass with an `Outcome` value.
- Real `os.listdir` and `open` calls are inputs, not I/O. Lines are opaque strings, so their line terminators are part of the text.
- DirWatcher.DetectRemovedFiles: the source calls `os.listdir` again for every key (`dirwatcher.py:72`). The model takes one listing per pass, so a directory that changes while the pass runs is not modelled.
- DirWatcher.WatchDirectory: the three `os.listdir` calls of a cycle (`dirwatcher.py:80`, `:72`, `:106`) are one listing. Under that one listing every listed name is a key when the scan loop runs, so `store.get(file)` never yields None there.
- DirWatcher.WatchDirectory: a listing is taken to hold each name once and no name with a '/' (`IsListing`), as `os.listdir` returns it.
- DirWatcher.SearchForMagic: it does not state `Valid()` itself, and neither do `SnapshotStore.Store.Put` and `SnapshotStore.Store.Pop`. The methods keep consistency by a different route. `GrowConsistent`, `KeptConsistent` and `SyncedConsistent` prove it once after each whole pass. `PutConsistent`, `PopConsistent` and `RescannedConsistent` are separate facts about a single write. No method calls them.
- Encodings, newline translation and Unicode handling by `open(filename, 'r')` are not modelled. A file is its sequence of line strings.
