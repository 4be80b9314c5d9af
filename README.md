# Zipper core, modelled in Dafny

Zipper is a browser tool that zips a dropped folder. The user drops a
folder or picks files. The tool walks the folder and filters out names
that match the exclusion patterns. It shows the files as a tree with
check boxes, then writes the selected files into a zip archive. With a
password, it writes a nested container instead: an inner archive that is
stored, AES-encrypted, inside an outer one. This project models the logic
behind those steps and proves what it promises.

- `types.dfy` (module `Types`): the records and settings the application
  passes around (`ProcessedFile`, `ZipSettings` with level 0 to 9,
  `ZipStats`, `ZipStatus`, `FileTreeNode`), plus the selection filter and
  the size sum.
- `strings.dfy` (module `Strings`): the JavaScript string operations the
  code relies on, written out over `seq<char>`:
  - `split('/')` and joining;
  - `includes`;
  - `trim`, with the white-space set of ECMA-262;
  - `startsWith` and `endsWith`;
  - ASCII `toLowerCase`;
  - the `/\.zip$/i` replacement.
- `file_utils.dfy` (module `FileUtils`): the parts of `utils/fileUtils.ts`
  that filter and walk the drop.
  - The exclusion filter `isExcluded` and the developer tokens.
  - The directory reader's page loop, as a method proved against the
    function `Listing`.
  - `traverseFileTree`, as recursion over an `Entry` datatype. A file
    entry carries the `File` its callback would deliver. A directory
    entry carries the pages its reader would deliver.
  - The loop over the dropped items.
  - The zero case of `formatBytes`.
- `file_tree.dfy` (module `FileTree`): `buildFileTree`.
  - The dictionary loop is imperative: a `map` from path to node, with
    child-id sequences and a root list. It is proved against a
    specification by steps, one step per path segment of each record.
  - `calcStats` is a recursive recomputation of every directory's size
    and check-box state. It is proved to give a consistent forest that
    mirrors the dictionary.
- `use_zip.dfy` (module `UseZip`): the `useZip` hook, as the class
  `ZipSession` whose methods assign the hook's state.
  - The archive name is derived once, together with the password and
    README decisions, into a `Plan`.
  - The zip codec is an append-only log of `add` calls (`ZipEntry`).
  - A run's outside world is a `RunEnv`:
    - the date string;
    - the clock readings;
    - the final blob size;
    - the checkpoint at which an abort is first seen;
    - the write that throws, if any.
  - `compressFiles` is proved to leave exactly the state `RunState`
    computes, and to report exactly the progress values
    `ProgressReports` lists. Lemmas then characterise these two for each
    way a run can stop: abort, failure, or success.
- `folder_uploader.dfy` (module `FolderUploader`): the component state of
  `components/FolderUploader.tsx`, as the class `Uploader`. It holds
  `activeFiles`, `settings`, `treeRoot` and the hook it drives. Beside
  the class are the pure transforms its handlers and effects apply:
  - the selection toggle;
  - the developer-mode sync of the exclusion patterns (`[...new Set(...)]`
    and a filter);
  - the picker's record mapping;
  - the selection summary.

## Model

| member | source | states |
|---|---|---|
| Types.Selected | hooks/useZip.ts:61 | the filter keeps exactly the selected records, and never more than there were |
| Types.SelectedEmptyIffNoneSelected | hooks/useZip.ts:61-66 | the selection is empty exactly when no record is selected (the guard of `compressFiles`) |
| Types.SelectedAppend | components/FolderUploader.tsx:331 | filtering splits over concatenation |
| Types.TotalSizeAppend | hooks/useZip.ts:69 | the size sum splits over concatenation |
| Strings.Split | utils/fileUtils.ts:10 | `split('/')` gives at least one segment and no segment holds a slash |
| Strings.SplitAtSlash | utils/fileUtils.ts:10 | splitting at a joining slash splits each half separately |
| Strings.SplitNoSlash | utils/fileUtils.ts:10 | a string without a slash is a single segment |
| Strings.SplitJoin | utils/fileUtils.ts:76-82 | splitting a slash-join of slash-free segments gives the segments back |
| Strings.JoinSplit | utils/fileUtils.ts:76-82 | joining the segments of a string gives the string back |
| Strings.TrimStart | hooks/useZip.ts:90 | the result is a suffix of the input |
| Strings.TrimEnd | hooks/useZip.ts:90 | the result is a prefix of the input |
| Strings.TrimStartSpec | hooks/useZip.ts:90 | exactly the leading white space is removed |
| Strings.TrimEndSpec | hooks/useZip.ts:90 | exactly the trailing white space is removed |
| Strings.TrimEmptyIffBlank | hooks/useZip.ts:90-92 | `trim()` is empty exactly when every character is white space |
| Strings.TrimIsInfix | hooks/useZip.ts:90 | the trimmed string is an infix whose cut-off ends are all white space |
| Strings.TrimHasNoWhiteEnds | hooks/useZip.ts:115 | the trimmed string neither starts nor ends with white space |
| Strings.Lower | hooks/useZip.ts:104 | `toLowerCase` keeps the length and maps each character |
| Strings.StripZip | hooks/useZip.ts:158 | a trailing `.zip` in any case is cut off, and nothing else changes |
| Strings.EndsWithLiteralZip | hooks/useZip.ts:104-105 | a name ending in `.zip` passes the case-insensitive test and strips back to its stem |
| FileUtils.IsExcluded | utils/fileUtils.ts:6-13 | models `isExcluded`: some pattern equals or occurs inside some `/`-separated segment of the path |
| FileUtils.ExcludedIffSegmentContains | utils/fileUtils.ts:6-13 | a path is excluded iff some segment contains some pattern; the equality test is subsumed |
| FileUtils.NoPatternsExcludeNothing | utils/fileUtils.ts:6-13 | an empty pattern list excludes nothing |
| FileUtils.EmptyPatternExcludesAll | utils/fileUtils.ts:6-13 | an empty pattern excludes every path |
| FileUtils.ExcludedJoin | utils/fileUtils.ts:6-13 | `a/b` is excluded iff `a` or `b` is |
| FileUtils.Listing | utils/fileUtils.ts:45-59 | models what the reader loop resolves with: the pages appended until the first empty one, `None` on an error callback |
| FileUtils.ListingUpToEmptyPage | utils/fileUtils.ts:47-58 | the listing is the concatenation of the pages before the first empty one |
| FileUtils.ListingFailsOnError | utils/fileUtils.ts:49-56 | an error before the first empty page rejects the listing |
| FileUtils.ListingFromPages | utils/fileUtils.ts:47-58 | every listed entry comes from one of the pages |
| FileUtils.ReadEntries | utils/fileUtils.ts:45-59 | the reader loop resolves with `Listing` of the pages (or rejects) |
| FileUtils.FlattenAll | utils/fileUtils.ts:65-66 | `Promise.all(...).flat()` succeeds iff every branch does, and every record comes from a branch |
| FileUtils.FlattenAllHolds | utils/fileUtils.ts:65-66 | a resolved `Promise.all(...).flat()` holds every record of every branch |
| FileUtils.TraverseFileTree | utils/fileUtils.ts:18-69 | models `traverseFileTree`: excluded names give `[]`, a kept file its one record, a kept directory the flattened walks of its listed children under `path + name + '/'` |
| FileUtils.ExcludedEntryNotRead | utils/fileUtils.ts:24 | an excluded entry yields `[]` whatever its contents, failing ones included |
| FileUtils.KeptFileYieldsOneRecord | utils/fileUtils.ts:26-36 | a kept file yields exactly one selected record `prefix + name` with its size |
| FileUtils.LiftRecord | utils/fileUtils.ts:61-63 | a record of a listed child of a kept directory is a record of the directory under the extended prefix |
| FileUtils.TraverseSound | utils/fileUtils.ts:18-69 | every record extends the prefix, its relative path passes the filter, it is selected, and it is a file reached through listed children (never a directory) |
| FileUtils.KeptFileAt | utils/fileUtils.ts:24-63 | models which files a walk reaches: through kept directories and their listed children to a kept file entry whose file name passes, with the accumulated prefix plus the name as path |
| FileUtils.TraverseComplete | utils/fileUtils.ts:18-69 | completeness: a walk that resolves yields the selected record, with path and size, of every kept file it reaches |
| FileUtils.TraverseKeptOnly | utils/fileUtils.ts:18-69 | every record of a walk is the record of a kept file it reaches |
| FileUtils.TraverseExact | utils/fileUtils.ts:18-69 | a record is in a resolved walk iff it is the record of a kept file the walk reaches |
| FileUtils.GetFilesFromDataTransferItems | utils/fileUtils.ts:147-169 | the item loop pushes one promise per usable item in item order, then flattens |
| FileUtils.DroppedRecordsPassFilter | utils/fileUtils.ts:147-169 | every record of a drop is selected and its whole path passes the filter |
| FileUtils.ItemPromise | utils/fileUtils.ts:150-165 | models one item of the loop: a `file` item pushes the walk of its entry, or, without an entry, the record of a kept `getAsFile` file; anything else pushes nothing |
| FileUtils.PushedPromises | utils/fileUtils.ts:148-166 | models the `filePromises` array: the pushed promises in item order |
| FileUtils.ItemPushed | utils/fileUtils.ts:148-166 | the promise of every usable item is pushed |
| FileUtils.DroppedRecordsComplete | utils/fileUtils.ts:147-169 | a resolved drop holds the record of every kept file reached from any item's entry |
| FileUtils.PromiseFromItem | utils/fileUtils.ts:150-165 | each pushed promise belongs to one item |
| FileUtils.FormatBytes | utils/fileUtils.ts:139 | zero bytes render as `0 B` |
| FileTree.NextKey | utils/fileUtils.ts:82 | models the accumulated key: the part alone after an empty (falsy) key, otherwise key, `/`, part |
| FileTree.StepsFrom | utils/fileUtils.ts:79-82 | one step per path segment |
| FileTree.Creation | utils/fileUtils.ts:84-96 | the creating step of a key is one of the steps, with that key |
| FileTree.LastWrite | utils/fileUtils.ts:106-109 | the last overwrite of a key is a last-segment step with that key |
| FileTree.NoChildrenBeforeCreation | utils/fileUtils.ts:100-104 | nothing is pushed under a key before it exists |
| FileTree.StepNewNode | utils/fileUtils.ts:84-96 | a new key creates a leaf with the record's size and selection, or an empty selected directory |
| FileTree.StepExistingNode | utils/fileUtils.ts:106-109 | an existing key met as the last segment has size and selection overwritten; otherwise it is unchanged |
| FileTree.StepOtherNode | utils/fileUtils.ts:100-104 | any other node changes only by a push into its children |
| FileTree.NewKeyKeepsInvariant | utils/fileUtils.ts:84-105 | inserting a new node and pushing it keeps the loop invariant |
| FileTree.OldKeyKeepsInvariant | utils/fileUtils.ts:106-109 | overwriting an existing leaf keeps the loop invariant |
| FileTree.NodeOf | utils/fileUtils.ts:84-109 | models one dictionary entry: name, kind and children from its creating step, size and selection from its last overwrite |
| FileTree.SpecMap | utils/fileUtils.ts:73-111 | models the whole dictionary: one entry per key created by the steps |
| FileTree.InvariantMap | utils/fileUtils.ts:73 | the loop's dictionary is the specified one |
| FileTree.BuildMap | utils/fileUtils.ts:75-111 | the nested loops build exactly `SpecMap` and `RootIds` of the steps, and the dictionary is a forest |
| FileTree.InsertRecord | utils/fileUtils.ts:76-110 | one record's segments keep the invariant |
| FileTree.InsertSegment | utils/fileUtils.ts:80-109 | one segment keeps the invariant and leaves its key in the dictionary |
| FileTree.CalcNode | utils/fileUtils.ts:114-132 | the recomputed node mirrors the dictionary entry and is consistent |
| FileTree.DirNode | utils/fileUtils.ts:116-129 | a directory over finished children: sum of sizes, all selected, not all but some active |
| FileTree.BuildFileTree | utils/fileUtils.ts:71-136 | one root per key whose creating step is a first segment, in creation order, each mirroring the dictionary and consistent (a key created at a deeper index is never a root) |
| FileTree.SizeIsLeafSum | utils/fileUtils.ts:118 | a directory's size is the total size of the leaves below it |
| FileTree.SelectionFollowsTerminals | utils/fileUtils.ts:120-129 | selected iff all terminal nodes below are; selected or indeterminate iff some is; never both |
| FileTree.NewKeysSpec | utils/fileUtils.ts:98-104 | a collected key list holds each accepted key once, in creation order |
| FileTree.RootsAreFirstSegmentKeys | utils/fileUtils.ts:98-99 | the roots are exactly the keys whose creating step is a first segment, in creation order |
| FileTree.ChildrenAreKeysCreatedUnder | utils/fileUtils.ts:100-104 | a node's children are exactly the keys created under it, in first-seen order |
| FileTree.NodePlacement | utils/fileUtils.ts:98-105 | a node sits in at most one place; a node whose parent is a leaf sits nowhere |
| FileTree.FileStepShape | utils/fileUtils.ts:79-82 | each step joins a slash-free segment to the key before it |
| FileTree.NodeNames | utils/fileUtils.ts:85-88 | a node's id equals its path and ends with its name |
| FileTree.NodesArePathPrefixes | utils/fileUtils.ts:76-82 | every node is the accumulated path of some segment of some record |
| FileTree.PathPrefixesAreNodes | utils/fileUtils.ts:76-84 | every accumulated path of every record is a node |
| FileTree.PrefixKeyIsJoin | utils/fileUtils.ts:82 | with a non-empty first segment, the accumulated path is the slash-join of the segments |
| FileTree.LeafKeyIsPath | utils/fileUtils.ts:80-82 | a path not starting with a slash is its own leaf key |
| FileTree.ExistingStepsOverwrite | utils/fileUtils.ts:106-109 | steps over existing keys add no node and no root, and only overwrite leaves |
| FileTree.RepeatedPathOverwritesLeaf | utils/fileUtils.ts:106-109 | a repeated path adds no node and no root; it overwrites the leaf's size and selection |
| FileTree.TwoFilesDictionary | utils/fileUtils.ts:75-111 | two files `x/y1` and `x/y2` give one folder root with both leaves as children |
| FileTree.TwoLeavesStats | utils/fileUtils.ts:118-128 | a folder over two leaves sums their sizes; it is selected iff both are and indeterminate iff they differ |
| FileTree.TwoFilesExample | utils/fileUtils.ts:71-136 | one selected and one unselected file under a folder: the folder is unselected and indeterminate |
| UseZip.GeneratedName | hooks/useZip.ts:93-98 | models the made-up name: the first folder of the first path plus `.zip`, or `archive.zip` |
| UseZip.BaseName | hooks/useZip.ts:90-99 | models `userFileName?.trim()` with the generated name as fallback |
| UseZip.WithDate | hooks/useZip.ts:101-109 | models the timestamp suffix: `/\.zip$/i` becomes `_<date>.zip`, otherwise `_<date>.zip` is appended |
| UseZip.FinalName | hooks/useZip.ts:90-111 | models the name a run sets: the base name, stamped when `addTimestamp` is on |
| UseZip.InnerName | hooks/useZip.ts:158 | models the inner archive name: the final name without `.zip`, plus `_content.zip` |
| UseZip.DownloadName | hooks/useZip.ts:228 | models the saved name: `.zip` appended when missing in any case |
| UseZip.BaseNameCases | hooks/useZip.ts:90-99 | trimmed user name if non-empty, else the first folder + `.zip`, else `archive.zip` |
| UseZip.WithDateShape | hooks/useZip.ts:101-109 | the stamped name is the name without `.zip`, `_date`, and one `.zip` |
| UseZip.FinalNameEndsWithZip | hooks/useZip.ts:90-109 | with a timestamp or a generated name, the name ends in `.zip`, so the download keeps it |
| UseZip.DownloadNameFix | hooks/useZip.ts:228 | `.zip` is appended exactly when it is missing; the fix is idempotent |
| UseZip.InnerNameShape | hooks/useZip.ts:158 | the inner archive is the outer name without `.zip` plus `_content.zip` |
| UseZip.ProjExample | hooks/useZip.ts:93-98 | a folder `proj` gives `proj.zip` |
| UseZip.ProjInnerExample | hooks/useZip.ts:158 | its container holds `proj_content.zip` |
| UseZip.ProjStampedExample | hooks/useZip.ts:101-108 | with the timestamp it is `proj_<date>.zip` |
| UseZip.PlanOf | hooks/useZip.ts:115-131 | models the decisions a run takes once: the names, README or not, the trimmed password, the level |
| UseZip.PlanOfCases | hooks/useZip.ts:115-131 | README iff its text is not blank; nested iff the password is not blank; level as set |
| UseZip.FileEntries | hooks/useZip.ts:136-142 | one entry per file, in order, at the level |
| UseZip.ContentOrder | hooks/useZip.ts:131-195 | `README.txt` first iff the README is not blank, then every selected path in order |
| UseZip.ContentFiles | hooks/useZip.ts:140-142 | each file is added from its own data at the chosen level, after the README |
| UseZip.FirstTrigger | hooks/useZip.ts:137-201 | the stopping step is within the timeline and does stop the run |
| UseZip.FirstTriggerSpec | hooks/useZip.ts:137-201 | no earlier step stops the run |
| UseZip.FirstTriggerIs | hooks/useZip.ts:137-201 | the first stopping step is unique |
| UseZip.CompletedIffNothingStops | hooks/useZip.ts:201-208 | a run completes iff nothing stops it; a late abort with no failure completes |
| UseZip.CheckpointsInOrder | hooks/useZip.ts:136-201 | the abort flag is read before each file and after the inner close; README first; the last check after close |
| UseZip.FilesDone | hooks/useZip.ts:144 | no more files are done than there are |
| UseZip.Reports | hooks/useZip.ts:146 | after file `j` the report is `(j+1)/n` of the scale |
| UseZip.ProgressGrows | hooks/useZip.ts:146 | progress after k files lies between 0 and the scale and grows with k |
| UseZip.ReportAt | hooks/useZip.ts:78-194 | report i is 0, a file fraction, or 100 once the container entry is added |
| UseZip.ProgressMonotone | hooks/useZip.ts:146-194 | reported progress never decreases, stays within 0 to 100, and ends at 100 on completion |
| UseZip.ContentDoneAll | hooks/useZip.ts:131-147 | after the loop the content writer holds the README and every file |
| UseZip.ReadmeStopState | hooks/useZip.ts:131-133 | a failing README `add`: state after the catch, no progress beyond 0 |
| UseZip.FilesStopState | hooks/useZip.ts:136-147 | a run stopped at file d: status/error by outcome, progress d/n, d files written |
| UseZip.FilesStopRun | hooks/useZip.ts:136-147 | where a run stopped in the file loop stopped, and why |
| UseZip.FilesStopParts | hooks/useZip.ts:136-147 | progress, current file and writer of a run stopped in the loop |
| UseZip.TailStopState | hooks/useZip.ts:149-198 | a run stopped after the loop: 100 only once the container entry is added |
| UseZip.TailStopRun | hooks/useZip.ts:149-198 | where a run stopped in the tail stopped, and why |
| UseZip.TailStopParts | hooks/useZip.ts:149-198 | progress, current file and writer of a run stopped in the tail |
| UseZip.EndState | hooks/useZip.ts:201-208 | success: ready, blob kept, stats with compressed size and end time; abort at the end leaves idle without a blob |
| UseZip.EndStateAt | hooks/useZip.ts:201-208 | the state of a run that passed every write |
| UseZip.EndRun | hooks/useZip.ts:201 | a run that passed every write is stopped only by the last check |
| UseZip.ZipSession.constructor | hooks/useZip.ts:26-36 | every field at its initial value |
| UseZip.ZipSession.Reset | hooks/useZip.ts:38-49 | every field back to its initial value |
| UseZip.ZipSession.SetProgress | hooks/useZip.ts:27 | the progress is set and reported |
| UseZip.ZipSession.SetFileName | hooks/useZip.ts:30 | the file name is set |
| UseZip.ZipSession.AbortCompression | hooks/useZip.ts:51-57 | with a controller: aborted and idle; without one: nothing changes |
| UseZip.ZipSession.DownloadZip | hooks/useZip.ts:226-231 | saves iff there is a blob and a non-empty name, under a name that ends in `.zip` |
| UseZip.ZipSession.Catch | hooks/useZip.ts:217-222 | `Aborted` is swallowed; otherwise error message or default text, status error |
| UseZip.ZipSession.AddFiles | hooks/useZip.ts:135-147 | the file loop: files added, progress reported, current file, abort/failure point |
| UseZip.ZipSession.FileStep | hooks/useZip.ts:137-146 | one turn: abort check, show, add, progress |
| UseZip.ZipSession.FinishNested | hooks/useZip.ts:149-167 | close inner, check abort, add the container entry, 100, close |
| UseZip.ZipSession.FinishDirect | hooks/useZip.ts:197-198 | show `Finalizing...` and close |
| UseZip.RunState | hooks/useZip.ts:59-224 | models the hook state a run leaves: status, progress, current file, blob, name, count, error, stats, writer and controller by where and how the run stopped |
| UseZip.ZipSession.CompressFiles | hooks/useZip.ts:59-224 | nothing selected: no change; otherwise the state `RunState` and the reports `ProgressReports` |
| UseZip.ZipSession.Compress | hooks/useZip.ts:74-224 | the `try` block ends in `RunState` with the reports `ProgressReports` |
| UseZip.ZipSession.WriteFiles | hooks/useZip.ts:135-199 | the loop and the tail end in `RunState` |
| UseZip.ZipSession.WriteTail | hooks/useZip.ts:149-208 | the tail ends in `RunState` |
| FolderUploader.Toggled | components/FolderUploader.tsx:266-280 | length, order and other fields kept; matching records get `!currentSelected`; others unchanged |
| FolderUploader.ToggleStopsAtBoundary | components/FolderUploader.tsx:275 | a toggle of `a` never touches `ab/x` |
| FolderUploader.FileToggleIsExact | components/FolderUploader.tsx:275 | a file toggle changes only records with exactly that path |
| FolderUploader.ToggleIdempotent | components/FolderUploader.tsx:266-280 | toggling twice with the same state equals toggling once |
| FolderUploader.ToggleRoundTrip | components/FolderUploader.tsx:266-280 | toggling back with the state the tree then shows restores the records |
| FolderUploader.SelectedCountGrows | components/FolderUploader.tsx:331 | pointwise more selection never lowers the selected count |
| FolderUploader.IndeterminateToggleSelects | components/FolderUploader.tsx:267-280 | an indeterminate node is passed unselected, so its toggle selects all under it and deselects none |
| FolderUploader.DeselectShrinks | components/FolderUploader.tsx:266-280 | deselecting never adds to the selection |
| FolderUploader.AddNew | components/FolderUploader.tsx:252 | insertion into an ordered set keeps the set in front, adds exactly the new elements, keeps no duplicates |
| FolderUploader.Dedup | components/FolderUploader.tsx:252 | `[...new Set(xs)]` has no duplicates and the same elements |
| FolderUploader.AddNewTail | components/FolderUploader.tsx:252 | what the set adds comes from the input and was not there |
| FolderUploader.AddNewAppend | components/FolderUploader.tsx:252 | inserting in two batches equals inserting the concatenation |
| FolderUploader.AddNewDistinct | components/FolderUploader.tsx:252 | distinct elements are kept as they are, in order |
| FolderUploader.DedupAppendShape | components/FolderUploader.tsx:252 | the deduplicated prefix stays in front; what follows is new and from the second list |
| FolderUploader.WithDev | components/FolderUploader.tsx:252 | models `[...new Set([...s.exclusionPatterns, ...DEV_EXCLUSIONS])]` |
| FolderUploader.WithDevShape | components/FolderUploader.tsx:250-252 | dev on: every dev token once, no repetition, user patterns first, then only missing dev tokens |
| FolderUploader.WithoutDev | components/FolderUploader.tsx:253-255 | dev off: exactly the patterns that are not dev tokens remain |
| FolderUploader.WithoutDevAppend | components/FolderUploader.tsx:254 | the filter splits over concatenation, so kept patterns keep their order |
| FolderUploader.WithoutDevKeeps | components/FolderUploader.tsx:254 | patterns without dev tokens pass unchanged |
| FolderUploader.WithoutDevDrops | components/FolderUploader.tsx:254 | a list of dev tokens is removed entirely |
| FolderUploader.DedupDistinctPrefix | components/FolderUploader.tsx:252 | distinct patterns stay in front, as they are |
| FolderUploader.DevModeRoundTrip | components/FolderUploader.tsx:250-256 | dev on then off restores distinct user patterns that hold no dev token |
| FolderUploader.UserDevTokenIsLost | components/FolderUploader.tsx:253-255 | a user's own `dist` does not survive dev on then off |
| FolderUploader.DevModeExcludesDevSegments | components/FolderUploader.tsx:250-252 | in dev mode any path with a dev-token segment is excluded from a drop |
| FolderUploader.PickedRecord | components/FolderUploader.tsx:309-311 | `webkitRelativePath` or else `name`, selected, same file and size |
| FolderUploader.PickedRecords | components/FolderUploader.tsx:308-311 | one record per picked file, in order, no filter |
| FolderUploader.PickedAllSelected | components/FolderUploader.tsx:308-311 | every picked record is selected; the selection weighs all picked sizes |
| FolderUploader.SelectedCount | components/FolderUploader.tsx:331 | at most the record count; zero iff nothing is selected (the compress button's disabled test) |
| FolderUploader.SelectedSize | components/FolderUploader.tsx:332 | models `selectedSize`: the summed size of the selected records |
| FolderUploader.SelectedSizeBounded | components/FolderUploader.tsx:332 | the selected size is at most the total, and equals it when all are selected |
| FolderUploader.Uploader.constructor | components/FolderUploader.tsx:232-245 | no records, no tree, default settings |
| FolderUploader.Uploader.RebuildTree | components/FolderUploader.tsx:258-263 | a non-empty list is shown as its consistent forest; an empty one leaves the tree |
| FolderUploader.Uploader.HandleToggle | components/FolderUploader.tsx:266-280 | records become `Toggled`, then the tree is rebuilt |
| FolderUploader.Uploader.SyncDevMode | components/FolderUploader.tsx:250-256 | patterns become `WithDev` or `WithoutDev`; nothing else changes |
| FolderUploader.Uploader.ToggleDevMode | components/FolderUploader.tsx:379 | the switch flips, then the patterns are synced; other settings kept |
| FolderUploader.Uploader.HandleFilesSelected | components/FolderUploader.tsx:297-304 | an empty list changes nothing; otherwise it replaces the records and the tree follows |
| FolderUploader.Uploader.HandleFileInput | components/FolderUploader.tsx:306-314 | no files: nothing; otherwise the picked records, all selected |
| FolderUploader.Uploader.HandleDrop | components/FolderUploader.tsx:283-295 | walked with the current patterns; a failed or empty walk changes nothing |
| FolderUploader.Uploader.HandleReset | components/FolderUploader.tsx:323-328 | the whole hook state back to its initial values except the name, which is empty; records and tree cleared |
| FolderUploader.Uploader.HandleCompress | components/FolderUploader.tsx:489-491 | runs `compressFiles` with the name only when non-empty; nothing selected changes nothing |

## Left out

- The zip.js codec and AES encryption are not modelled. An archive is the
  log of its `add` calls, and the size of the final blob is an input.
- The browser's file-system callbacks, `DataTransferItemList`, `File`
  objects, `URL.createObjectURL`, `saveAs` and the `DownloadURL` drag-out
  are not modelled. They become the `Entry`, `DropItem` and `PickedFile`
  datatypes and method results.
- `Promise.all` is not modelled as concurrent. Its branches are evaluated
  in order, and the first rejected branch rejects the whole.
- The race between `abortCompression` and a running `compressFiles` is not
  modelled as a race. It becomes the checkpoint at which a run first sees
  the aborted flag, and the abort's own effects apply at that point.
- `Date.now` and `toISOString` are not modelled. The clock readings and
  the date string are inputs of a run. A `$` in the date string is taken
  literally, although `String.replace` would treat it as a pattern.
- FileUtils.FormatBytes: only the `0 B` case. Other sizes need floating-point
  logarithms and `toFixed`, and give `None`.
- Toasts, sounds, confetti and the 1 GiB warning are not modelled. They
  change no state.
- `utils/soundUtils.ts`, `hooks/useSecurity.ts` and `App.tsx` are not part
  of this model, and neither is the rendering in
  `components/FolderUploader.tsx`. The drag highlighting (`isDragging`) is
  view state.
- Progress is an exact `real`, not a floating-point number.
- Object keys are not modelled. The tree dictionary is a Dafny `map` from
  path to node, so a path such as `__proto__` is an ordinary key.
- `toLowerCase` is ASCII only. Non-ASCII case mapping does not affect the
  `.zip` test, which is all it is used for.
- `calcStats` mutates shared node objects in place. The model recomputes
  them as values (`CalcNode`) instead. `NodePlacement` shows that each
  node sits in one place of the forest only, so no update is seen
  through a second reference.
- FolderUploader.Uploader.RebuildTree: the tree effect is modelled as
  running right after the change that triggers it, not as React schedules
  it.
- FolderUploader.Uploader.ToggleDevMode: the developer-mode effect is
  folded into the click in the same way; the patterns are synced right
  after the switch flips.
- FolderUploader.Uploader.HandleDrop: the drop is modelled with the item
  list present. The browser always provides one.
