# zippng in Dafny

A model of the core of zippng, a local web tool that batch-compresses the
JPEG and PNG images under folders the user picks until each is at most
300 KiB. The model covers these parts:

- **Server (`server.js`).**
  - The `JobManager`: its status machine, claim cursor, completion counter, result list and the SSE clients it broadcasts to.
  - The per-file quality/width search of `compressImageCore`.
  - The backup of each file into `<root>_backup`.
  - The `/compress` route: validation, and collecting the image files into a de-duplicated list.
  - The directory walks `getAllImageFiles` and `getSubfolders`.
- **Browser client (`public/js/main.js`).**
  - The selection list with its row checkboxes and the select-all checkbox.
  - The sort configuration and the comparator.
  - The breadcrumb trail and the back button's parent path.
  - The "Processing N" note of the progress line.

The modules and the files they model:

| module | file | models |
|---|---|---|
| `Common` | `common.dfy` | Shared helpers: `Option` and duplicate-free lists. |
| `Paths` | `paths.dfy` | `path.dirname`, `path.basename`, `path.join` and `path.relative` on paths held as segment lists. |
| `Backup` | `backup.dfy` | Where a file's backup goes, and when it is copied. |
| `ImageFiles` | `image_files.dfy` | The extension filter, the file system as a tree, `getAllImageFiles` and `getSubfolders`. |
| `Compression` | `compression.dfy` | `compressImageCore`, with the image codec as a function parameter. |
| `Jobs` | `jobs.dfy` | The `JobManager` class and the SSE events. |
| `CompressRoute` | `compress_route.dfy` | `POST /compress`. |
| `ClientPaths` | `client_paths.dfy` | Splitting on `\` and `/`, trimming, the back button and the breadcrumbs. |
| `Sorting` | `sorting.dfy` | Sort keys, the direction toggle and the comparator. |
| `ClientState` | `client_state.dfy` | `AppState`'s selection and sort configuration, as a class. |
| `ProgressNote` | `progress_note.dfy` | The "Processing N" note. |

JavaScript runs one thread, so each stretch of a `worker` between two
`await`s is atomic. `JobManager` therefore has one method per stretch:

- `Claim`: the loop test, the cursor increment and the backup.
- `Announce`: the log lines.
- `Complete`: the push, the counter, the progress event and the completion event.

Every method keeps `Valid()`, so any interleaving of any number of workers
keeps it too. A ghost `Ledger` records the bookkeeping:

- which claimed indices are still in flight;
- which index each result came from;
- claims left over from a run that was reset.

From the ledger:

- `Complete` ensures the claim cursor minus the counter is the number of files in flight.
- `CompletedRunHasEveryResult` proves that a completed run reported every file.

`Worker` is the loop of a single worker running alone. It is proved to
finish the job with the results of the remaining files appended in order.

## Model

| member | source | states |
|---|---|---|
| Paths.Dirname | server.js:94 | The parent drops exactly the last segment; the root is its own parent. |
| Paths.CommonPrefixLength | server.js:102 | The common prefix of two paths is as long as possible: the next segments differ. |
| Paths.RelativeRoundTrip | server.js:102-103 | Joining a base with `path.relative(base, to)` gives back `to` for a normalised `to`. |
| Paths.RelativeUnder | server.js:102 | For a file inside `root`, the relative path is the file's part below `root`. |
| Paths.JoinNormal | server.js:103 | `path.join` with a relative path that has no `..`, `.` or empty segment appends it. |
| Paths.JoinUps | server.js:103 | Each leading `..` in the relative path removes one segment of the base. |
| Backup.BackupRoot | server.js:101 | For a root given as a normalised segment list, `<root>_backup` is a sibling of the root: the last segment differs and everything before it is the same. |
| Backup.BackupFile | server.js:98-118 | Nothing happens unless backup is on and a root is given. Otherwise the destination is `join(<root>_backup, relative(root, file))`. An existing destination is never copied over. The file is copied only when the destination is absent and the I/O does not fail. |
| Backup.BackupIsIdempotent | server.js:111-114 | Backing up a file a second time copies nothing and leaves the files on disk unchanged. |
| Backup.DestinationUnderRoot | server.js:101-103 | For a file under the root, the backup path is the backup root followed by the file's path below the root. |
| Backup.DestinationInjective | server.js:101-103 | Two different files under the root have different backup paths. |
| Backup.DestinationOutsideTree | server.js:101-103 | For a non-empty normalised root, a backup never lands inside the tree being compressed. |
| Backup.DestinationOutsideRoot | server.js:101-103 | For a file outside the root, `..` segments resolve the backup path back to the file itself. |
| Backup.OutsideFileNeverCopied | server.js:107-114 | Such a file counts as already present, so it is never copied. |
| ImageFiles.LastDot | server.js:349 | The position of the last `.` in a name, or none when the name has no dot. |
| ImageFiles.IsImageBySuffix | server.js:349 | The extension filter holds exactly when the name ends in `.jpg`, `.jpeg` or `.png` (any letter case) after a non-empty stem. |
| ImageFiles.FindEntry | server.js:350-355 | The entry found has the name looked up; when none is found, no entry has that name. |
| ImageFiles.AllImageFilesSound | server.js:345-357 | Every path returned lies under the target, is a file reachable through readable folders, and has an image name. |
| ImageFiles.WalkSound | server.js:351-355 | The same as `AllImageFilesSound`, for the loop over one folder's entries. |
| ImageFiles.AllImageFilesComplete | server.js:345-357 | Every image file reachable through readable folders is returned. |
| ImageFiles.WalkComplete | server.js:351-355 | The same as `AllImageFilesComplete`, for the loop over one folder's entries. |
| ImageFiles.SubfoldersBounded | server.js:329-343 | Each folder listed lies between `depth` and `maxDepth`, its depth field matches how far it is below the start, its name is its last segment, and no dot-folder or `node_modules` is on its path. |
| ImageFiles.SubWalkBounded | server.js:334-340 | The same as `SubfoldersBounded`, for the loop over one folder's entries. |
| Compression.InitialWidth | server.js:203 | The starting width is the smaller of the image width and 2560: it exceeds neither and equals one of them. |
| Compression.ShrunkBounds | server.js:221 | Repeated 0.8 shrinking stays non-negative and never grows the width. |
| Compression.ScheduleStep | server.js:221 | Above quality 60 the next attempt lowers the quality by 10 at the same width; otherwise quality goes back to 75 and the width shrinks once more. |
| Compression.SearchFollowsSchedule | server.js:207-223 | From any attempt, the search makes at most the attempts left, each with the scheduled quality and width. |
| Compression.PlanSchedule | server.js:202-223 | The whole search makes 1 to 8 attempts: quality 85, 75, 65, 55, then 75, 65, 55 at 80% width, then 75 at 64%. |
| Compression.PlanBounds | server.js:202-223 | Qualities stay within 55 to 85, the rounded width never exceeds the capped image width, and the width never grows. |
| Compression.SearchContinuesOnlyWhenTooLarge | server.js:220 | Every attempt before the last produced more than 300 KiB. |
| Compression.SearchStopsAtFirstFit | server.js:207-223 | When the search stops before the eighth attempt, the last output failed or is at most 300 KiB. |
| Compression.SearchEndsWithResult | server.js:207-223 | The loop's final encoding is the output of the last attempt. |
| Compression.EncodeOnceEncoding | server.js:208-218 | Each attempt's output is the codec's output at the attempt's quality and rounded width. A JPEG source is always encoded as JPEG. A PNG source is re-encoded as JPEG exactly when its PNG output is over 500 KiB after more than two attempts, and never within the first three. Otherwise it stays PNG. |
| Compression.Encode | server.js:208-218 | The method computes the attempt's encoding. It is JPEG for a JPEG source or a PNG that falls back, and the PNG output otherwise. |
| Compression.SearchEncoding | server.js:202-223 | The `while (attempts < 8)` loop returns the final encoding of the search. |
| Compression.LowerSettings | server.js:221 | The quality and width after an attempt that was too large. |
| Compression.Compressed | server.js:188-236 | The outcome for one file: success exactly when a width was read, the last attempt encoded, the file was written and a selection exists. On success it records the path relative to the first selection's parent, the original size and the written length. Otherwise it is an error that names the file, with its reason: `Unreadable` exactly when no width was read, `CodecFailed` with the codec's message when the last attempt failed, `WriteFailed` exactly when the encoding succeeded but the write failed, and `NoSelection` exactly when the file was written but no selection exists. |
| Compression.CompressImageCore | server.js:188-236 | The method computes `Compressed`. |
| Jobs.Percent | server.js:128 | The percentage is null exactly when the total is 0. |
| Jobs.PercentBounds | server.js:128 | The percentage lies in 0 to 100, grows with the count, and is 100 at the end. |
| Jobs.DeliveredTwice | server.js:38-47 | Two broadcasts in a row deliver both events, in order, to every client that stays live. |
| Jobs.CompressFile | server.js:122 | Running `compressImageCore` on a file gives the result that names that file. |
| Jobs.JobManager.constructor | server.js:16-20 | The manager starts idle and empty, with no clients and concurrency 4. |
| Jobs.JobManager.Reset | server.js:22-35 | Every job field returns to idle and empty. Claims still in flight become stale. |
| Jobs.JobManager.Broadcast | server.js:38-47 | The event is written to every client whose stream has not ended; the ended ones are dropped. |
| Jobs.JobManager.AddClient | server.js:49-59 | The client is added and sent an `init` event with the current status, counter and total. |
| Jobs.JobManager.RemoveClient | server.js:61-63 | The client is dropped. |
| Jobs.JobManager.Start | server.js:65-81 | The job is reset, loaded with the files and options, set running, and a `running` event is broadcast. |
| Jobs.JobManager.Claim | server.js:88-118 | A claim happens exactly while the job runs and the cursor is below the total. A claim takes the cursor's index, moves the cursor one on, and decides the backup of that file. |
| Jobs.JobManager.Announce | server.js:116-121 | A failed backup broadcasts a warning; then the "processing i/total" line is broadcast. |
| Jobs.JobManager.Record | server.js:124-125 | The result is appended and the counter rises by one. |
| Jobs.JobManager.Complete | server.js:124-146 | The result is appended and the progress event is broadcast as server.js writes it, without `processed`. The job becomes completed, with a completion event, exactly when the counter reaches the total. The cursor minus the counter is the number of files in flight. |
| Jobs.JobManager.Pause | server.js:151-158 | Succeeds exactly when running; it then pauses and broadcasts. Otherwise nothing changes. |
| Jobs.JobManager.Resume | server.js:160-174 | Succeeds exactly when paused; it then runs again and broadcasts the counter. Otherwise nothing changes. |
| Jobs.JobManager.Cancel | server.js:176-180 | Broadcasts `cancelled`, then resets the job, so it ends idle. |
| Jobs.JobManager.CompletedRunHasEveryResult | server.js:137-146 | A completed run holds one result per file, and every file has a result. |
| Jobs.JobManager.Step | server.js:88-147 | One iteration of a lone worker moves the cursor by one and appends that file's result. |
| Jobs.JobManager.Begin | server.js:88-121 | The synchronous part of an iteration: claim, back up and announce. |
| Jobs.JobManager.Finish | server.js:124-146 | The rest of an iteration: complete the claimed file. |
| Jobs.JobManager.Worker | server.js:87-149 | A lone worker on a running job with files left ends with the job completed, and the results of the unclaimed files are appended in file order. On any other job it changes neither the status, the cursor nor the results. |
| Jobs.OutcomesSnoc | server.js:124 | Completing the next index extends the results by that file's result. |
| Jobs.EveryIndexCompleted | server.js:137 | When the counter reaches the total, every index of the run has been completed once. |
| Jobs.ProgressAsWritten | server.js:129-135 | The progress event that `Jobs.JobManager.Complete` sends carries the counter, the total and the result, but no `processed` field. Its percentage is null only for an empty job, and otherwise lies within 0 to 100. |
| Jobs.ProgressWithClaims | server.js:129-135 | The intended event is the event as written plus the claim cursor as `processed`. |
| CompressRoute.Add | server.js:311 | `Set.add` keeps the Set's members and adds the value. |
| CompressRoute.AddAllKeeps | server.js:311 | Adding a list keeps the earlier members in order, adds no duplicate and loses no value. |
| CompressRoute.FoundSnoc | server.js:309-312 | The files found under a list of paths are those found under all but the last path, together with those found under the last one. |
| CompressRoute.CollectIsUnion | server.js:308-313 | The collected list has no duplicate and holds exactly the files found under the selected paths. |
| CompressRoute.CollectOnlyImages | server.js:308-313 | Every collected file is an image lying under one of the selected paths. |
| CompressRoute.BuildFileList | server.js:308-313 | The loops build the de-duplicated union in first-seen order. |
| CompressRoute.HandleCompress | server.js:302-321 | A missing or empty selection is refused. A running job is refused. No images gives count 0 and changes nothing. Otherwise the job starts on the collected files and the reply carries their count. |
| ClientPaths.SegmentsAreSegments | public/js/main.js:395 | Splitting on `\` and `/` and dropping empty parts leaves only non-empty parts without separators. |
| ClientPaths.SplitAtSep | public/js/main.js:395 | Splitting at a separator splits the two sides independently. |
| ClientPaths.SegmentsOfJoin | public/js/main.js:731-734 | Splitting a join of segments gives the segments back. |
| ClientPaths.JoinShape | public/js/main.js:731-732 | A join of segments neither starts nor ends with a separator, never doubles one, and contains the separator exactly when it joins two or more segments. |
| ClientPaths.TrimStart | public/js/main.js:721 | Only leading whitespace is removed, and all of it. |
| ClientPaths.TrimEnd | public/js/main.js:721 | Only trailing whitespace is removed, and all of it. |
| ClientPaths.ParentPathShape | public/js/main.js:720-739 | The back button acts exactly when the trimmed input has two segments or more. A Windows parent is the other segments joined with `\`, plus a trailing `\` when only the drive is left; a Unix parent is `/` followed by them joined with `/`. |
| ClientPaths.ParentDropsLastSegment | public/js/main.js:725-735 | The parent path's segments are the input's segments without the last one. |
| ClientPaths.BreadcrumbTargets | public/js/main.js:393-438 | One target per segment of the root path, and none when the root path is empty. The k-th target is the path through segment k. |
| ClientPaths.CrumbStep | public/js/main.js:418-423 | Each target is the previous one, plus a separator when the previous one does not end in one, plus the next segment. |
| ClientPaths.CrumbOpensPrefix | public/js/main.js:418-436 | Every crumb but the last opens the folder made of its first k+1 segments. The last crumb gets no click handler. The lemma states the target for every k. |
| ClientPaths.CrumbHasNoDoubledSep | public/js/main.js:418-423 | No crumb target contains two separators in a row. |
| Sorting.GetSortKeyById | public/js/main.js:458-463 | Each header id maps to its key, and every other id maps to none. |
| Sorting.NextSortConfigSelects | public/js/main.js:776-784 | After a click the key is selected. The direction flips when the key was already selected, and is ascending otherwise. |
| Sorting.ClickTwiceRestores | public/js/main.js:776-784 | Two clicks on the selected key restore the configuration. |
| Sorting.NewKeyThenAgainIsDesc | public/js/main.js:776-784 | A new key clicked twice sorts descending by it. |
| Sorting.FoldersFirst | public/js/main.js:310-312 | A folder sorts before a file in either direction. |
| Sorting.DescendingReversesAscending | public/js/main.js:314-322 | Descending order is ascending order with the two items exchanged, and for numbers it is the negation. |
| Sorting.CompareAntisymmetric | public/js/main.js:305-323 | Given an antisymmetric collation, exchanging the items flips the comparator's sign. |
| ClientState.IndexOf | public/js/main.js:477 | The position of the first occurrence, or -1 exactly when the value is absent. |
| ClientState.Without | public/js/main.js:476-482 | The reference for "the other entries": every occurrence of `x` is gone and every other value keeps its membership. |
| ClientState.RemoveFirstKeepsOthers | public/js/main.js:477-479 | Removing the first occurrence keeps the other entries in order. |
| ClientState.RemoveFirstNoDup | public/js/main.js:477-479 | On a list without duplicates, the removal takes the value out, keeps every other value and leaves no duplicate. |
| ClientState.ToggleEffect | public/js/main.js:476-482 | A toggle leaves the other entries as they were. On a list without duplicates it flips the path's membership and keeps the list free of duplicates. |
| ClientState.ToggleTwice | public/js/main.js:476-482 | Toggling an unselected path twice restores the list. On a list without duplicates, toggling any path twice restores every value's membership. |
| ClientState.SelectAllEffect | public/js/main.js:755-773 | Checking keeps the list as a prefix and adds every visible path. Unchecking removes every visible path. Paths that are not visible keep their membership, and no duplicate appears. |
| ClientState.SelectAllThenAllSelected | public/js/main.js:755-773 | After checking select-all on a non-empty list, the select-all box shows checked. |
| ClientState.AppState.constructor | public/js/main.js:89-99 | The selection starts empty, sorted by name ascending. |
| ClientState.AppState.ClearSelection | public/js/main.js:669 | A new scan clears the selection. |
| ClientState.AppState.ToggleSelection | public/js/main.js:476-482 | The selection becomes the toggled list, the path's membership flips, and no duplicate appears. |
| ClientState.AppState.SelectAll | public/js/main.js:755-773 | The loop over the checkboxes computes the select-all result and keeps the list free of duplicates. |
| ClientState.AppState.HandleSort | public/js/main.js:776-784 | The configuration becomes the next one for the clicked key. |
| ProgressNote.ProcessingNote | public/js/main.js:568-571 | The note, when shown, counts at least one file. |
| ProgressNote.NoteNeverShownAsWritten | public/js/main.js:568-571 | Against the event the server actually sends, the note is never shown. |
| ProgressNote.NoteCountsInFlight | public/js/main.js:568-571 | With `processed` in the event, the note is shown exactly while files are in flight, and it shows how many. |

## Left out

- **The sharp codec.** `Codec` is a function from (encoding, quality, width) to an output length or an error. `rotate`, `resize` and the actual encoders are not modelled.
- **File system I/O.**
  - `fs.stat`, `readdir`, `readFile`, `writeFile`, `mkdir`, `copyFile` and `existsSync` become values:
    - a `Node` tree;
    - a `SourceImage` record;
    - the set of existing files;
    - an `ioFails` flag per file.
  - `fs.stat` in `compressImageCore` runs outside its `try`, so a failing stat rejects the promise; the model does not capture that.
  - Walks hit a `LockedFolder` where `readdir` throws.
- Backup.BackupRoot: together with `Backup.DestinationOutsideTree`, it takes the root as a normalised absolute POSIX segment list. server.js:101 concatenates the raw `rootPath` string. With a trailing separator (`"/photos/"` gives `"/photos/_backup"`) or a drive root (`"D:\\"`), the backup root lies inside the tree, and these two promises do not hold. Trailing separators, drive roots and the case-insensitive win32 `path.relative` are not modelled.
- Backup.DestinationOutsideTree: it holds only for a normalised segment-list root, for the reason on the line above.
- CompressRoute.HandleCompress: the route is one atomic step here. In the source, the `await getAllImageFiles` calls (server.js:309-312) separate the `running` check (server.js:305) from `jobManager.start` (server.js:316). Two overlapping requests can therefore both pass the check and both start. `Jobs.JobManager.Start` accepts any status, so the second start resets the first run and turns its in-flight claims stale. The model does not show this interleaving of two requests.
- **Human-readable sizes.** The `"x.xxKB"` and `"x.xxMB"` strings are not modelled. Sizes stay byte counts. The `/ 1024` float formatting is not modelled.
- Jobs.Percent: it is `Math.round` on exact rationals. JavaScript's floating-point rounding of `c / t * 100` is not modelled.
- **Delivery and wall-clock time.** HTTP routing, SSE framing and heartbeats, `startTime`, `folderMap` and `folderCompletedMap` are left out. The last three are only written.
- **Client presentation.** The DOM, CSS classes, the i18n strings, theme and language settings, the reconnect logic, `addLog` and the root crumb's label and click handler are left out.
- **`/scan`, `/image` and the client's scan call.** These are not part of this model. The client reads `data.rootPath` and `data.items`, while `/scan` returns `root`, `folders` and `files`; the model does not relate the two.
- **Concurrency.**
  - The four concurrent workers are covered by the step methods `Claim`, `Announce` and `Complete`, which keep `Valid()` under any interleaving.
  - The end-to-end result (`Jobs.JobManager.Worker`) is proved for one worker running alone.
  - The second pool of workers that `resume` starts beside the ones still waiting is covered only by the step invariants.
- Jobs.JobManager.Worker: with `Jobs.JobManager.Step`, it does not model the `index >= total` break. That break cannot fire in a lone worker, because the claim directly follows the loop test.
- Jobs.JobManager.Complete: with `Jobs.JobManager.Step`, the result of `compressImageCore` enters as a parameter, or through the ghost function `compress` that `Compresses` ties to `Compression.Compressed`. The `await` between claim and completion is not modelled.
- Sorting.CompareAntisymmetric: `localeCompare` is an abstract collation. The sort algorithm of `Array.prototype.sort` is not modelled. Items whose `size` or `mtime` is undefined (`NaN` differences) are not modelled.
- **Header click handlers.** The two other bindings of the header clicks (public/js/main.js:291-299 and 743-752) do what `handleSort` does. All three are modelled by `ClientState.AppState.HandleSort`.
- **Second select-all handler.** The handler at public/js/main.js:267-276 calls `toggleSelection` under the same conditions as the one at 755-773, so the same function models both.
- **Trimming.** The whitespace set is that of `String.prototype.trim`. There is no Unicode normalisation.

## Findings

| source | as written | input that shows it | evidently intended | confidence | as-written member | corrected member |
|---|---|---|---|---|---|---|
| public/js/main.js:568-571 | The client shows "Processing N" when `data.processed > data.current`, but the progress event of server.js:129-135 has no `processed` field. The comparison with `undefined` is false, so the note never appears. | Any progress event of a running job, e.g. the first completion while three other workers still hold files. | The event carries the claim cursor (`processed: processedCount`), so the note shows how many files are in flight. | not executed | ProgressNote.NoteNeverShownAsWritten | ProgressNote.NoteCountsInFlight |

`Jobs.JobManager.Complete` sends the event as written (`Jobs.ProgressAsWritten`). The corrected event is `Jobs.ProgressWithClaims`.
