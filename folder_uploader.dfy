/** The state of the uploader component (`components/FolderUploader.tsx`):
    the records of the current folder, the settings, and the preview tree,
    together with the pure expressions its handlers and effects compute
    from them: the selection toggle, the developer-mode sync of the
    exclusion patterns, the records of the file picker and the counts of
    the selection. */
module FolderUploader {
  import opened Types
  import opened Strings
  import opened FileUtils
  import opened FileTree
  import opened UseZip

  // ---------------------------------------------------------------------
  // Selection toggle

  /** The records a toggle of `path` rewrites: the record at `path` itself
      and, for a directory, every record below `path + '/'`. */
  predicate Matches(f: ProcessedFile, path: string, isDir: bool)
  {
    f.path == path || (isDir && StartsWith(f.path, path + "/"))
  }

  /** `handleToggle`'s map: every matching record gets `!currentSelected`,
      every other record is kept. */
  function Toggled(files: seq<ProcessedFile>, path: string, isDir: bool, currentSelected: bool): (r: seq<ProcessedFile>)
    ensures |r| == |files|
    ensures forall i :: 0 <= i < |files| ==>
      && r[i].file == files[i].file && r[i].path == files[i].path && r[i].size == files[i].size
      && (Matches(files[i], path, isDir) ==> r[i].selected == !currentSelected)
      && (!Matches(files[i], path, isDir) ==> r[i] == files[i])
  {
    seq(|files|, i requires 0 <= i < |files| =>
      if Matches(files[i], path, isDir) then files[i].(selected := !currentSelected) else files[i])
  }

  /** A directory toggle stops at the segment boundary: `a` does not reach
      `ab/x`, nor `a` itself when toggled as a file reach `a/x`. */
  lemma ToggleStopsAtBoundary(files: seq<ProcessedFile>, path: string, isDir: bool, currentSelected: bool, i: nat)
    requires i < |files|
    requires StartsWith(files[i].path, path) && |files[i].path| > |path| && files[i].path[|path|] != '/'
    ensures Toggled(files, path, isDir, currentSelected)[i] == files[i]
  {
    assert (path + "/")[|path|] == '/';
  }

  /** A file toggle changes at most the records with exactly that path. */
  lemma FileToggleIsExact(files: seq<ProcessedFile>, path: string, currentSelected: bool)
    ensures forall i :: 0 <= i < |files| ==>
      (Toggled(files, path, false, currentSelected)[i] != files[i] ==> files[i].path == path)
  {
  }

  /** Toggling twice with the same current state is the same as toggling once. */
  lemma ToggleIdempotent(files: seq<ProcessedFile>, path: string, isDir: bool, currentSelected: bool)
    ensures Toggled(Toggled(files, path, isDir, currentSelected), path, isDir, currentSelected)
         == Toggled(files, path, isDir, currentSelected)
  {
    var once := Toggled(files, path, isDir, currentSelected);
    var twice := Toggled(once, path, isDir, currentSelected);
    forall i | 0 <= i < |files| ensures twice[i] == once[i] {
      assert Matches(once[i], path, isDir) == Matches(files[i], path, isDir);
    }
  }

  /** Round trip: when every record under `path` had the state the tree
      showed, toggling and then toggling back with the state the tree then
      shows restores the records. */
  lemma ToggleRoundTrip(files: seq<ProcessedFile>, path: string, isDir: bool, currentSelected: bool)
    requires forall i :: 0 <= i < |files| && Matches(files[i], path, isDir) ==> files[i].selected == currentSelected
    ensures Toggled(Toggled(files, path, isDir, currentSelected), path, isDir, !currentSelected) == files
  {
    var once := Toggled(files, path, isDir, currentSelected);
    var back := Toggled(once, path, isDir, !currentSelected);
    forall i | 0 <= i < |files| ensures back[i] == files[i] {
      assert Matches(once[i], path, isDir) == Matches(files[i], path, isDir);
    }
  }

  /** Pointwise: no record of `after` is less selected than in `before`. */
  predicate NoneDeselected(before: seq<ProcessedFile>, after: seq<ProcessedFile>)
  {
    |before| == |after| && forall i :: 0 <= i < |before| ==> before[i].selected ==> after[i].selected
  }

  /** Selecting more records pointwise never lowers the selected count. */
  lemma {:induction false} SelectedCountGrows(before: seq<ProcessedFile>, after: seq<ProcessedFile>)
    requires NoneDeselected(before, after)
    ensures |Selected(before)| <= |Selected(after)|
    decreases |before|
  {
    if before != [] {
      assert NoneDeselected(before[1..], after[1..]) by {
        forall i | 0 <= i < |before[1..]| ensures before[1..][i].selected ==> after[1..][i].selected {
          assert before[1..][i] == before[i + 1];
        }
      }
      SelectedCountGrows(before[1..], after[1..]);
    }
  }

  /** A node of a consistent tree that shows as indeterminate is passed with
      `selected` false, so toggling it selects every record under it and
      deselects none: the selected count does not drop. */
  lemma IndeterminateToggleSelects(files: seq<ProcessedFile>, t: FileTreeNode)
    requires Consistent(t) && t.indeterminate
    ensures var r := Toggled(files, t.path, t.isDir, t.selected);
      && (forall i :: 0 <= i < |files| && Matches(files[i], t.path, t.isDir) ==> r[i].selected)
      && NoneDeselected(files, r)
      && |Selected(files)| <= |Selected(r)|
  {
    assert !t.selected by {
      match t.children
      case Undefined =>
      case List(kids) =>
    }
    SelectedCountGrows(files, Toggled(files, t.path, t.isDir, t.selected));
  }

  /** Deselecting never adds to the selection. */
  lemma DeselectShrinks(files: seq<ProcessedFile>, path: string, isDir: bool)
    ensures |Selected(Toggled(files, path, isDir, true))| <= |Selected(files)|
  {
    SelectedCountGrows(Toggled(files, path, isDir, true), files);
  }

  // ---------------------------------------------------------------------
  // Developer-mode sync of the exclusion patterns

  /** No string occurs twice. */
  predicate NoDup(s: seq<string>)
  {
    forall i, j :: 0 <= i < j < |s| ==> s[i] != s[j]
  }

  /** Inserting `xs` in order into the insertion-ordered set `acc`, as the
      `Set` constructor does: an element already present is skipped. */
  function AddNew(acc: seq<string>, xs: seq<string>): (r: seq<string>)
    ensures |acc| <= |r| && r[..|acc|] == acc
    ensures forall x :: x in r <==> x in acc || x in xs
    ensures NoDup(acc) ==> NoDup(r)
    decreases |xs|
  {
    if xs == [] then acc
    else AddNew(if xs[0] in acc then acc else acc + [xs[0]], xs[1..])
  }

  /** `[...new Set(xs)]`: the distinct elements in order of first occurrence. */
  function Dedup(xs: seq<string>): (r: seq<string>)
    ensures NoDup(r)
    ensures forall x :: x in r <==> x in xs
  {
    AddNew([], xs)
  }

  /** What `AddNew` appends comes from `xs` and was not in `acc`. */
  lemma {:induction false} AddNewTail(acc: seq<string>, xs: seq<string>)
    ensures forall i :: |acc| <= i < |AddNew(acc, xs)| ==> AddNew(acc, xs)[i] in xs && AddNew(acc, xs)[i] !in acc
    decreases |xs|
  {
    if xs != [] {
      var next := if xs[0] in acc then acc else acc + [xs[0]];
      AddNewTail(next, xs[1..]);
      forall i | |acc| <= i < |AddNew(acc, xs)| ensures AddNew(acc, xs)[i] in xs && AddNew(acc, xs)[i] !in acc {
        if i >= |next| {
          assert AddNew(acc, xs)[i] in xs[1..];
        } else {
          assert AddNew(acc, xs)[..|next|] == next;
          assert AddNew(acc, xs)[i] == next[i] == xs[0];
        }
      }
    }
  }

  /** Inserting into the set in two batches is inserting the concatenation. */
  lemma {:induction false} AddNewAppend(acc: seq<string>, a: seq<string>, b: seq<string>)
    ensures AddNew(acc, a + b) == AddNew(AddNew(acc, a), b)
    decreases |a|
  {
    if a == [] {
      assert a + b == b;
    } else {
      assert (a + b)[0] == a[0];
      assert (a + b)[1..] == a[1..] + b;
      AddNewAppend(if a[0] in acc then acc else acc + [a[0]], a[1..], b);
    }
  }

  /** Elements that are already distinct are kept as they are, in order. */
  lemma {:induction false} AddNewDistinct(acc: seq<string>, xs: seq<string>)
    requires NoDup(acc + xs)
    ensures AddNew(acc, xs) == acc + xs
    decreases |xs|
  {
    if xs != [] {
      forall k | 0 <= k < |acc| ensures acc[k] != xs[0] {
        assert (acc + xs)[k] == acc[k];
        assert (acc + xs)[|acc|] == xs[0];
      }
      assert acc + xs == (acc + [xs[0]]) + xs[1..];
      AddNewDistinct(acc + [xs[0]], xs[1..]);
    }
  }

  /** The patterns while developer mode is on: the user's patterns followed
      by the developer tokens, without repetitions. */
  function WithDev(patterns: seq<string>): seq<string>
  {
    Dedup(patterns + DEV_EXCLUSIONS)
  }

  /** The patterns once developer mode is off: every developer token removed,
      whoever added it. */
  function WithoutDev(patterns: seq<string>): (r: seq<string>)
    ensures forall x :: x in r <==> x in patterns && x !in DEV_EXCLUSIONS
    decreases |patterns|
  {
    if patterns == [] then []
    else (if patterns[0] in DEV_EXCLUSIONS then [] else [patterns[0]]) + WithoutDev(patterns[1..])
  }

  /** Deduplicating `p + xs` keeps the deduplicated `p` in front and then
      adds, without repetitions, the elements of `xs` that are not in `p`. */
  lemma DedupAppendShape(p: seq<string>, xs: seq<string>)
    ensures |Dedup(p)| <= |Dedup(p + xs)| && Dedup(p + xs)[..|Dedup(p)|] == Dedup(p)
    ensures forall i :: |Dedup(p)| <= i < |Dedup(p + xs)| ==> Dedup(p + xs)[i] in xs && Dedup(p + xs)[i] !in p
  {
    AddNewAppend([], p, xs);
    AddNewTail(Dedup(p), xs);
  }

  /** Switching developer mode on yields every developer token exactly once,
      loses no pattern, and keeps the user's own patterns first, in their
      order of first occurrence, followed by the developer tokens they lacked. */
  lemma WithDevShape(patterns: seq<string>)
    ensures NoDup(WithDev(patterns))
    ensures forall x :: x in WithDev(patterns) <==> x in patterns || x in DEV_EXCLUSIONS
    ensures forall d :: d in DEV_EXCLUSIONS ==> d in WithDev(patterns)
    ensures |Dedup(patterns)| <= |WithDev(patterns)| && WithDev(patterns)[..|Dedup(patterns)|] == Dedup(patterns)
    ensures forall i :: |Dedup(patterns)| <= i < |WithDev(patterns)| ==>
      WithDev(patterns)[i] in DEV_EXCLUSIONS && WithDev(patterns)[i] !in patterns
  {
    DedupAppendShape(patterns, DEV_EXCLUSIONS);
  }

  /** Filtering splits over concatenation, so the kept patterns keep their order. */
  lemma {:induction false} WithoutDevAppend(a: seq<string>, b: seq<string>)
    ensures WithoutDev(a + b) == WithoutDev(a) + WithoutDev(b)
    decreases |a|
  {
    if a == [] {
      assert a + b == b;
    } else {
      assert (a + b)[1..] == a[1..] + b;
      WithoutDevAppend(a[1..], b);
    }
  }

  /** Patterns without developer tokens pass the filter unchanged. */
  lemma {:induction false} WithoutDevKeeps(patterns: seq<string>)
    requires forall i :: 0 <= i < |patterns| ==> patterns[i] !in DEV_EXCLUSIONS
    ensures WithoutDev(patterns) == patterns
    decreases |patterns|
  {
    if patterns != [] {
      WithoutDevKeeps(patterns[1..]);
    }
  }

  /** A sequence of developer tokens is filtered away entirely. */
  lemma {:induction false} WithoutDevDrops(s: seq<string>)
    requires forall i :: 0 <= i < |s| ==> s[i] in DEV_EXCLUSIONS
    ensures WithoutDev(s) == []
    decreases |s|
  {
    if s != [] {
      WithoutDevDrops(s[1..]);
    }
  }

  /** Deduplicating distinct elements followed by more keeps the distinct
      ones in front, and what follows them comes from the rest. */
  lemma DedupDistinctPrefix(p: seq<string>, xs: seq<string>)
    requires NoDup(p)
    ensures |p| <= |Dedup(p + xs)| && Dedup(p + xs)[..|p|] == p
    ensures forall i :: |p| <= i < |Dedup(p + xs)| ==> Dedup(p + xs)[i] in xs
  {
    assert [] + p == p;
    AddNewDistinct([], p);
    AddNewAppend([], p, xs);
    AddNewTail(p, xs);
  }

  /** Round trip: switching developer mode on and then off gives back the
      user's patterns, provided they were distinct and held no developer token. */
  lemma DevModeRoundTrip(patterns: seq<string>)
    requires NoDup(patterns)
    requires forall i :: 0 <= i < |patterns| ==> patterns[i] !in DEV_EXCLUSIONS
    ensures WithoutDev(WithDev(patterns)) == patterns
  {
    var r := WithDev(patterns);
    DedupDistinctPrefix(patterns, DEV_EXCLUSIONS);
    var tail := r[|patterns|..];
    assert r == patterns + tail;
    forall i | 0 <= i < |tail| ensures tail[i] in DEV_EXCLUSIONS {
      assert tail[i] == r[|patterns| + i];
    }
    WithoutDevAppend(patterns, tail);
    WithoutDevKeeps(patterns);
    WithoutDevDrops(tail);
  }

  /** A token the user typed that is also a developer token does not survive
      switching developer mode on and off. */
  lemma UserDevTokenIsLost()
    ensures WithoutDev(WithDev(["dist"])) == []
  {
    var p := ["dist"];
    assert p + DEV_EXCLUSIONS == ["dist", "node_modules", ".git", ".DS_Store", ".env", "dist", "build", ".vscode"];
    WithDevShape(p);
    var r := WithDev(p);
    assert forall i :: 0 <= i < |r| ==> r[i] in DEV_EXCLUSIONS;
    WithoutDevDrops(r);
  }

  // ---------------------------------------------------------------------
  // File picker records

  /** A `File` of the picker's list: the relative path is empty when the
      file was not picked as part of a directory. */
  datatype PickedFile = PickedFile(handle: FileRef, name: string, webkitRelativePath: string, size: nat)

  /** `{ file, path: file.webkitRelativePath || file.name, selected: true, size: file.size }`. */
  function PickedRecord(p: PickedFile): (r: ProcessedFile)
    ensures r.file == p.handle && r.size == p.size && r.selected
    ensures r.path == (if p.webkitRelativePath != "" then p.webkitRelativePath else p.name)
  {
    ProcessedFile(p.handle, if p.webkitRelativePath != "" then p.webkitRelativePath else p.name, true, p.size)
  }

  /** The picker's list mapped to records, one per file, in order. */
  function PickedRecords(picked: seq<PickedFile>): (r: seq<ProcessedFile>)
    ensures |r| == |picked|
    ensures forall i :: 0 <= i < |picked| ==> r[i] == PickedRecord(picked[i])
  {
    seq(|picked|, i requires 0 <= i < |picked| => PickedRecord(picked[i]))
  }

  /** Every picked record is selected, so the selection is the whole list
      and weighs the sizes of all the picked files. */
  lemma {:induction false} PickedAllSelected(picked: seq<PickedFile>)
    ensures Selected(PickedRecords(picked)) == PickedRecords(picked)
    ensures TotalSize(PickedRecords(picked)) == SumPicked(picked)
    decreases |picked|
  {
    if picked != [] {
      PickedAllSelected(picked[1..]);
      assert PickedRecords(picked)[1..] == PickedRecords(picked[1..]);
    }
  }

  function SumPicked(picked: seq<PickedFile>): nat
    decreases |picked|
  {
    if picked == [] then 0 else picked[0].size + SumPicked(picked[1..])
  }

  /** In developer mode a path with a developer token as one of its
      segments (`node_modules`, `.git`, ...) is excluded at any depth,
      whatever the user's own patterns. */
  lemma DevModeExcludesDevSegments(patterns: seq<string>, path: string, j: nat)
    requires j < |Split(path)| && Split(path)[j] in DEV_EXCLUSIONS
    ensures IsExcluded(path, WithDev(patterns))
  {
    var pats := WithDev(patterns);
    var parts := Split(path);
    WithDevShape(patterns);
    var k :| 0 <= k < |pats| && pats[k] == parts[j];
    assert 0 <= j < |parts| && parts[j] == pats[k];
  }

  // ---------------------------------------------------------------------
  // Selection summary

  /** `selectedCount`. */
  function SelectedCount(files: seq<ProcessedFile>): (n: nat)
    ensures n <= |files|
    ensures n == 0 <==> forall i :: 0 <= i < |files| ==> !files[i].selected
  {
    SelectedEmptyIffNoneSelected(files);
    |Selected(files)|
  }

  /** `selectedSize`. */
  function SelectedSize(files: seq<ProcessedFile>): nat
  {
    TotalSize(Selected(files))
  }

  /** The selection never weighs more than the whole folder, and weighs all
      of it when every record is selected. */
  lemma {:induction false} SelectedSizeBounded(files: seq<ProcessedFile>)
    ensures SelectedSize(files) <= TotalSize(files)
    ensures (forall i :: 0 <= i < |files| ==> files[i].selected) ==> SelectedSize(files) == TotalSize(files)
    decreases |files|
  {
    if files != [] {
      SelectedSizeBounded(files[1..]);
      TotalSizeAppend(if files[0].selected then [files[0]] else [], Selected(files[1..]));
      assert (forall i :: 0 <= i < |files| ==> files[i].selected) ==>
             (forall i :: 0 <= i < |files[1..]| ==> files[1..][i].selected) by {
        if forall i :: 0 <= i < |files| ==> files[i].selected {
          forall i | 0 <= i < |files[1..]| ensures files[1..][i].selected {
            assert files[1..][i] == files[i + 1];
          }
        }
      }
    }
  }

  // ---------------------------------------------------------------------
  // The component

  /** The component's state: the records of the current folder, the
      settings panel and the preview tree, beside the archive hook it drives. */
  class Uploader {
    var activeFiles: seq<ProcessedFile>
    var settings: ZipSettings
    var treeRoot: seq<FileTreeNode>
    const zip: ZipSession

    /** The state the component mounts with. */
    constructor (zip: ZipSession)
      ensures activeFiles == [] && treeRoot == [] && this.zip == zip
      ensures settings == ZipSettings(Some(""), 5, false, [], false, "")
    {
      activeFiles := [];
      treeRoot := [];
      settings := ZipSettings(Some(""), 5, false, [], false, "");
      this.zip := zip;
    }

    /** The tree shows `files`: one root per first-level key of the
        dictionary, each the dictionary entry with its descendants in place
        and sizes and selection states consistent with its leaves. */
    ghost predicate ShowsTreeOf(files: seq<ProcessedFile>)
      reads this
    {
      var steps := AllSteps(files);
      && |treeRoot| == |RootIds(steps)|
      && forall i :: 0 <= i < |treeRoot| ==>
        && treeRoot[i].id == RootIds(steps)[i]
        && Mirrors(treeRoot[i], SpecMap(steps))
        && Consistent(treeRoot[i])
    }

    /** The effect on `activeFiles`: a non-empty list is rebuilt into the
        tree, every root consistent with the records; an empty list leaves
        the tree as it was. */
    method RebuildTree()
      modifies this`treeRoot
      ensures |activeFiles| > 0 ==> ShowsTreeOf(activeFiles)
      ensures |activeFiles| == 0 ==> treeRoot == old(treeRoot)
    {
      if |activeFiles| > 0 {
        treeRoot := BuildFileTree(activeFiles);
      }
    }

    /** `handleToggle`, followed by the tree effect it triggers. */
    method HandleToggle(path: string, isDir: bool, currentSelected: bool)
      modifies this`activeFiles, this`treeRoot
      ensures activeFiles == Toggled(old(activeFiles), path, isDir, currentSelected)
      ensures |activeFiles| > 0 ==> ShowsTreeOf(activeFiles)
      ensures |activeFiles| == 0 ==> treeRoot == old(treeRoot)
    {
      activeFiles := Toggled(activeFiles, path, isDir, currentSelected);
      RebuildTree();
    }

    /** The developer-mode effect, run after the switch changes. */
    method SyncDevMode()
      modifies this`settings
      ensures settings == old(settings).(exclusionPatterns :=
        if old(settings).devMode then WithDev(old(settings).exclusionPatterns)
        else WithoutDev(old(settings).exclusionPatterns))
    {
      if settings.devMode {
        settings := settings.(exclusionPatterns := WithDev(settings.exclusionPatterns));
      } else {
        settings := settings.(exclusionPatterns := WithoutDev(settings.exclusionPatterns));
      }
    }

    /** The developer-mode button, then the effect it triggers. */
    method ToggleDevMode()
      modifies this`settings
      ensures settings.devMode == !old(settings).devMode
      ensures settings.devMode ==> settings.exclusionPatterns == WithDev(old(settings).exclusionPatterns)
      ensures !settings.devMode ==> settings.exclusionPatterns == WithoutDev(old(settings).exclusionPatterns)
      ensures settings.password == old(settings).password && settings.compressionLevel == old(settings).compressionLevel
      ensures settings.addTimestamp == old(settings).addTimestamp && settings.readmeContent == old(settings).readmeContent
    {
      settings := settings.(devMode := !settings.devMode);
      SyncDevMode();
    }

    /** `handleFilesSelected`: an empty list is refused (a toast), any other
        list replaces the records; the tree effect follows. */
    method HandleFilesSelected(files: seq<ProcessedFile>)
      modifies this`activeFiles, this`treeRoot
      ensures |files| == 0 ==> activeFiles == old(activeFiles) && treeRoot == old(treeRoot)
      ensures |files| > 0 ==> activeFiles == files && ShowsTreeOf(files)
    {
      if |files| == 0 {
        return;
      }
      activeFiles := files;
      RebuildTree();
    }

    /** `handleFileInput`: a missing or empty file list does nothing; any
        other becomes records, all selected and unfiltered. */
    method HandleFileInput(picked: Option<seq<PickedFile>>)
      modifies this`activeFiles, this`treeRoot
      ensures (picked == None || picked == Some([])) ==> activeFiles == old(activeFiles) && treeRoot == old(treeRoot)
      ensures picked.Some? && |picked.value| > 0 ==> activeFiles == PickedRecords(picked.value) && ShowsTreeOf(activeFiles)
    {
      if picked.Some? && |picked.value| > 0 {
        HandleFilesSelected(PickedRecords(picked.value));
      }
    }

    /** `handleDrop`: the items are walked with the current exclusion
        patterns; a failed read is only reported (a toast), and a walk that
        found nothing is refused like an empty selection. */
    method HandleDrop(items: seq<DropItem>)
      modifies this`activeFiles, this`treeRoot
      ensures var out := FlattenAll(PushedPromises(items, settings.exclusionPatterns));
        if out.Files? && |out.records| > 0 then activeFiles == out.records && ShowsTreeOf(activeFiles)
        else activeFiles == old(activeFiles) && treeRoot == old(treeRoot)
    {
      var out := GetFilesFromDataTransferItems(items, settings.exclusionPatterns);
      if out.Files? {
        HandleFilesSelected(out.records);
      }
    }

    /** `handleReset`: the hook is reset, its file name set to empty, and the
        records and the tree cleared. */
    method HandleReset()
      modifies this`activeFiles, this`treeRoot, zip
      ensures activeFiles == [] && treeRoot == []
      ensures zip.State() == HookState(Idle, 0.0, "", None, Some(""), 0, None, None, None, None)
      ensures zip.progressLog == old(zip.progressLog) + [0.0]
    {
      zip.Reset();
      activeFiles := [];
      treeRoot := [];
      zip.SetFileName("");
    }

    /** The compress button: the hook's file name is passed only when it is
        non-empty (`fileName || undefined`). */
    method HandleCompress(env: RunEnv)
      modifies zip
      ensures var userFileName := if old(zip.fileName).Some? && old(zip.fileName).value != "" then old(zip.fileName) else None;
        var active := Selected(activeFiles);
        if SelectedCount(activeFiles) == 0 then unchanged(zip)
        else
          var plan := PlanOf(settings, FinalName(userFileName, active[0].path, settings.addTimestamp, env.date));
          && zip.State() == RunState(old(zip.State()), active, plan, env)
          && zip.progressLog == old(zip.progressLog) + ProgressReports(RunOf(active, plan, env))
    {
      var userFileName := if zip.fileName.Some? && zip.fileName.value != "" then zip.fileName else None;
      zip.CompressFiles(activeFiles, settings, userFileName, env);
    }
  }
}
