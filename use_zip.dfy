/** The compression hook: the name the archive gets, the entries written
    into it, the order of the steps a run takes, and the hook state that a
    run, an abort, a reset and a download read and write. The zip codec is an
    append-only log of the entries added to a writer; the size of the final
    blob, the clock readings, the date string, where the user aborts and
    which write fails are inputs of a run. */
module UseZip {
  import opened Types
  import opened Strings

  const UNKNOWN_ERROR := "An unknown error occurred."
  /** The message of the error a run throws when it sees the abort flag. */
  const ABORTED := "Aborted"
  const README_NAME := "README.txt"
  const ENCRYPTING := "Encrypting Container..."
  const FINALIZING := "Finalizing..."

  // ---------------------------------------------------------------------
  // The archive name

  /** The name made up when the user gives none: the first folder of the
      first selected path, or `archive.zip` for a path without a slash. */
  function GeneratedName(firstPath: string): string
  {
    if Contains(firstPath, "/") then Split(firstPath)[0] + ".zip" else "archive.zip"
  }

  /** `userFileName?.trim()`, falling back to the generated name when that is
      missing or empty. */
  function BaseName(userFileName: Option<string>, firstPath: string): string
  {
    if userFileName.Some? && Trim(userFileName.value) != "" then Trim(userFileName.value)
    else GeneratedName(firstPath)
  }

  /** The date suffix: a trailing `.zip` in any case becomes `_<date>.zip`,
      any other name gets `_<date>.zip` appended. */
  function WithDate(name: string, date: string): string
  {
    if EndsWithZip(name) then StripZip(name) + "_" + date + ".zip" else name + "_" + date + ".zip"
  }

  /** The name a run gives its archive. */
  function FinalName(userFileName: Option<string>, firstPath: string, addTimestamp: bool, date: string): string
  {
    var base := BaseName(userFileName, firstPath);
    if addTimestamp then WithDate(base, date) else base
  }

  /** The name of the inner archive inside the encrypted container. */
  function InnerName(finalName: string): string
  {
    StripZip(finalName) + "_content.zip"
  }

  /** The name `downloadZip` saves under: `.zip` is appended only when missing. */
  function DownloadName(fileName: string): string
  {
    if EndsWithZip(fileName) then fileName else fileName + ".zip"
  }

  /** A name given by the user is used trimmed; otherwise the archive is
      named after the first folder of the first selected path, or
      `archive.zip`. */
  lemma BaseNameCases(userFileName: Option<string>, x: string, rest: string, p: string)
    requires '/' !in x && '/' !in p
    ensures userFileName.Some? && Trim(userFileName.value) != "" ==>
              BaseName(userFileName, x + "/" + rest) == Trim(userFileName.value)
    ensures (userFileName.None? || Trim(userFileName.value) == "") ==>
              BaseName(userFileName, x + "/" + rest) == x + ".zip" && BaseName(userFileName, p) == "archive.zip"
  {
    assert OccursAt(x + "/" + rest, "/", |x|);
    SplitAtSlash(x, rest);
    SplitNoSlash(x);
    forall i | 0 <= i <= |p| - 1 ensures !OccursAt(p, "/", i) {
      assert p[i..i + 1][0] == p[i];
    }
  }

  /** The date suffix never doubles the extension: the stamped name is the
      name without its `.zip`, the date, and one `.zip`. */
  lemma WithDateShape(name: string, date: string)
    ensures WithDate(name, date) == StripZip(name) + "_" + date + ".zip"
    ensures EndsWithZip(WithDate(name, date)) && EndsWith(WithDate(name, date), ".zip")
    ensures StripZip(WithDate(name, date)) == StripZip(name) + "_" + date
  {
    EndsWithLiteralZip(StripZip(name) + "_" + date);
    assert StripZip(name) + "_" + date + ".zip" == (StripZip(name) + "_" + date) + ".zip";
  }

  /** With the timestamp, or without a name from the user, the archive name
      ends in `.zip`, so `downloadZip` keeps it as it is. */
  lemma FinalNameEndsWithZip(userFileName: Option<string>, firstPath: string, addTimestamp: bool, date: string)
    requires addTimestamp || userFileName.None? || Trim(userFileName.value) == ""
    ensures EndsWithZip(FinalName(userFileName, firstPath, addTimestamp, date))
    ensures DownloadName(FinalName(userFileName, firstPath, addTimestamp, date)) ==
            FinalName(userFileName, firstPath, addTimestamp, date)
  {
    var base := BaseName(userFileName, firstPath);
    if addTimestamp {
      WithDateShape(base, date);
    } else if Contains(firstPath, "/") {
      EndsWithLiteralZip(Split(firstPath)[0]);
    } else {
      EndsWithLiteralZip("archive");
      assert "archive" + ".zip" == "archive.zip";
    }
  }

  /** `downloadZip` appends `.zip` exactly when it is missing; the saved name
      always passes the `.zip` test and fixing it again changes nothing. */
  lemma DownloadNameFix(fileName: string)
    ensures DownloadName(fileName) == fileName <==> EndsWithZip(fileName)
    ensures EndsWithZip(DownloadName(fileName))
    ensures DownloadName(DownloadName(fileName)) == DownloadName(fileName)
  {
    if !EndsWithZip(fileName) {
      EndsWithLiteralZip(fileName);
      assert |DownloadName(fileName)| == |fileName| + 4;
    }
  }

  /** The inner archive is named after the outer one, without its `.zip`. */
  lemma InnerNameShape(finalName: string, stem: string, date: string)
    ensures EndsWithZip(InnerName(finalName))
    ensures InnerName(stem + ".zip") == stem + "_content.zip"
    ensures InnerName(WithDate(stem + ".zip", date)) == stem + "_" + date + "_content.zip"
  {
    EndsWithLiteralZip(StripZip(finalName) + "_content");
    assert StripZip(finalName) + "_content.zip" == (StripZip(finalName) + "_content") + ".zip";
    EndsWithLiteralZip(stem);
    WithDateShape(stem + ".zip", date);
  }

  /** The example of a folder `proj` holding `readme.md`: without a user
      name the archive is `proj.zip`. */
  lemma ProjExample()
    ensures BaseName(None, "proj/readme.md") == "proj.zip"
  {
    assert "proj/readme.md" == "proj" + "/" + "readme.md";
    BaseNameCases(None, "proj", "readme.md", "");
    assert "proj" + ".zip" == "proj.zip";
  }

  /** Its encrypted container holds `proj_content.zip`. */
  lemma ProjInnerExample()
    ensures InnerName("proj.zip") == "proj_content.zip"
  {
    EndsWithLiteralZip("proj");
    assert "proj" + ".zip" == "proj.zip";
    assert StripZip("proj.zip") == "proj";
    assert "proj" + "_content.zip" == "proj_content.zip";
  }

  /** The same folder with the timestamp: `proj_<date>.zip`. */
  lemma ProjStampedExample(date: string)
    ensures FinalName(None, "proj/readme.md", false, date) == "proj.zip"
    ensures FinalName(None, "proj/readme.md", true, date) == "proj_" + date + ".zip"
  {
    ProjExample();
    EndsWithLiteralZip("proj");
    assert "proj" + ".zip" == "proj.zip";
    assert WithDate("proj.zip", date) == "proj" + "_" + date + ".zip";
    assert "proj" + "_" + date + ".zip" == "proj_" + date + ".zip";
  }

  // ---------------------------------------------------------------------
  // The entry log that stands for the zip writer

  /** Where the bytes of an entry come from: the README text, a picked
      file, or an inner archive with its own entries. */
  datatype Source = Text(content: string) | FileData(file: FileRef) | ArchiveData(entries: seq<ZipEntry>)

  /** One `add` call on a writer, with the options it passes (`None` for an
      option left out). */
  datatype ZipEntry = ZipEntry(name: string, source: Source, level: Option<Level>, password: Option<string>,
                               zipCrypto: Option<bool>)

  /** A closed archive: its entries and the size of its blob. */
  datatype Archive = Archive(entries: seq<ZipEntry>, size: nat)

  /** `settings.readmeContent.trim()` is not empty. */
  predicate HasReadme(settings: ZipSettings)
  {
    Trim(settings.readmeContent) != ""
  }

  /** `settings.password?.trim()`, with a missing password as `""`; the
      encrypted container is used exactly when this is not empty. */
  function Password(settings: ZipSettings): string
  {
    if settings.password.Some? then Trim(settings.password.value) else ""
  }

  /** What a run fixes before its first write: the archive name and the
      name of the inner archive, whether there is a README and its text as
      typed, the trimmed password (`""` for none) and the level. */
  datatype Plan = Plan(name: string, innerName: string, readme: bool, readmeText: string, password: string,
                       level: Level)

  function PlanOf(settings: ZipSettings, name: string): Plan
  {
    Plan(name, InnerName(name), HasReadme(settings), settings.readmeContent, Password(settings), settings.compressionLevel)
  }

  /** The encrypted container is used. */
  predicate Nested(plan: Plan)
  {
    plan.password != ""
  }

  /** The README is added exactly when its text holds a character that is
      not white space, and the encrypted container is used exactly when a
      password is given that holds such a character. */
  lemma PlanOfCases(settings: ZipSettings, name: string)
    ensures PlanOf(settings, name).readme <==>
              exists i :: 0 <= i < |settings.readmeContent| && !IsWhiteSpace(settings.readmeContent[i])
    ensures Nested(PlanOf(settings, name)) <==>
              settings.password.Some? &&
              exists i :: 0 <= i < |settings.password.value| && !IsWhiteSpace(settings.password.value[i])
    ensures PlanOf(settings, name).readmeText == settings.readmeContent
    ensures PlanOf(settings, name).level == settings.compressionLevel
    ensures EndsWithZip(PlanOf(settings, name).innerName)
  {
    TrimEmptyIffBlank(settings.readmeContent);
    InnerNameShape(name, "", "");
    if settings.password.Some? {
      TrimEmptyIffBlank(settings.password.value);
    }
  }

  function ReadmeEntry(plan: Plan): ZipEntry
  {
    ZipEntry(README_NAME, Text(plan.readmeText), None, None, None)
  }

  function FileEntry(f: ProcessedFile, level: Level): ZipEntry
  {
    ZipEntry(f.path, FileData(f.file), Some(level), None, None)
  }

  function FileEntries(files: seq<ProcessedFile>, level: Level): (r: seq<ZipEntry>)
    ensures |r| == |files|
    ensures forall i :: 0 <= i < |files| ==> r[i] == FileEntry(files[i], level)
  {
    seq(|files|, i requires 0 <= i < |files| => FileEntry(files[i], level))
  }

  lemma FileEntriesSnoc(files: seq<ProcessedFile>, f: ProcessedFile, level: Level)
    ensures FileEntries(files + [f], level) == FileEntries(files, level) + [FileEntry(f, level)]
  {
    assert forall i :: 0 <= i < |files| ==> (files + [f])[i] == files[i];
  }

  /** The entries of the content archive: the README first when there is one,
      then the files in list order. */
  function ContentEntries(active: seq<ProcessedFile>, plan: Plan): seq<ZipEntry>
  {
    (if plan.readme then [ReadmeEntry(plan)] else []) + FileEntries(active, plan.level)
  }

  /** The one entry of the encrypted container: the inner archive, stored
      without compression under AES with the password. */
  function OuterEntry(plan: Plan, inner: seq<ZipEntry>): ZipEntry
  {
    ZipEntry(plan.innerName, ArchiveData(inner), Some(0), Some(plan.password), Some(false))
  }

  function Names(es: seq<ZipEntry>): (r: seq<string>)
    ensures |r| == |es| && forall i :: 0 <= i < |es| ==> r[i] == es[i].name
  {
    seq(|es|, i requires 0 <= i < |es| => es[i].name)
  }

  function Paths(files: seq<ProcessedFile>): (r: seq<string>)
    ensures |r| == |files| && forall i :: 0 <= i < |files| ==> r[i] == files[i].path
  {
    seq(|files|, i requires 0 <= i < |files| => files[i].path)
  }

  /** The content archive lists `README.txt` first exactly when the README
      text is not blank, then every selected file under its path, in list
      order. */
  lemma ContentOrder(active: seq<ProcessedFile>, plan: Plan)
    ensures Names(ContentEntries(active, plan)) ==
            (if plan.readme then [README_NAME] else []) + Paths(active)
  {
    var fs := FileEntries(active, plan.level);
    var es := ContentEntries(active, plan);
    var k := if plan.readme then 1 else 0;
    var ns := (if plan.readme then [README_NAME] else []) + Paths(active);
    assert |Names(es)| == |ns|;
    forall i | 0 <= i < |ns| ensures Names(es)[i] == ns[i] {
      if i >= k {
        assert es[i] == fs[i - k];
        assert ns[i] == Paths(active)[i - k];
      }
    }
  }

  /** Each selected file is added from its own data at the chosen level,
      right after the README entry when there is one. */
  lemma ContentFiles(active: seq<ProcessedFile>, plan: Plan)
    ensures forall i :: 0 <= i < |active| ==>
              ContentEntries(active, plan)[i + (if plan.readme then 1 else 0)] == FileEntry(active[i], plan.level)
  {
    var fs := FileEntries(active, plan.level);
    if plan.readme {
      assert ContentEntries(active, plan) == [ReadmeEntry(plan)] + fs;
    } else {
      assert ContentEntries(active, plan) == fs;
    }
  }

  // ---------------------------------------------------------------------
  // The order of the steps of a run

  /** The places where a run reads the abort flag: before each file, after
      the inner archive is closed, and after the final archive is closed. */
  datatype Checkpoint = BeforeFile(index: nat) | AfterInnerClose | AfterClose

  /** The calls to the codec that can throw. */
  datatype WriteStep = AddReadme | AddFile(index: nat) | CloseInner | AddOuter | CloseArchive

  datatype Event = Check(at: Checkpoint) | Write(step: WriteStep)

  /** A write that throws, with the message of its error (`""` for an error
      without one). */
  datatype Failure = Failure(step: WriteStep, message: string)

  /** What a run takes from outside: the date string, the two clock
      readings, the size of the final blob, the checkpoint at which the flag
      set by an abort is first seen, and the write that throws. */
  datatype RunEnv = RunEnv(date: string, startTime: int, endTime: int, blobSize: nat,
                           abortAt: Option<Checkpoint>, failure: Option<Failure>)

  predicate Triggers(env: RunEnv, e: Event)
  {
    match e
    case Check(c) => env.abortAt == Some(c)
    case Write(w) => env.failure.Some? && env.failure.value.step == w
  }

  /** The message of the error a stopping step throws. */
  function StopMessage(env: RunEnv, e: Event): string
    requires Triggers(env, e)
  {
    match e
    case Check(_) => ABORTED
    case Write(_) => env.failure.value.message
  }

  function ReadmeEvents(readme: bool): seq<Event>
  {
    if readme then [Write(AddReadme)] else []
  }

  /** Step `j` of the file loop: the abort check before file `j / 2`, then
      its `add`. */
  function FileEvent(j: nat): Event
  {
    if j % 2 == 0 then Check(BeforeFile(j / 2)) else Write(AddFile(j / 2))
  }

  lemma FileEventAt(i: nat)
    ensures FileEvent(2 * i) == Check(BeforeFile(i)) && FileEvent(2 * i + 1) == Write(AddFile(i))
    ensures (2 * i) / 2 == i && (2 * i + 1) / 2 == i
  {
  }

  /** Each file: the abort check, then the `add`. */
  function FileEvents(n: nat): (r: seq<Event>)
    ensures |r| == 2 * n
    ensures forall j :: 0 <= j < 2 * n ==> r[j] == FileEvent(j)
  {
    seq(2 * n, j requires 0 <= j < 2 * n => FileEvent(j))
  }

  function TailEvents(nested: bool): seq<Event>
  {
    if nested then [Write(CloseInner), Check(AfterInnerClose), Write(AddOuter), Write(CloseArchive)]
    else [Write(CloseArchive)]
  }

  /** Every step a run over `n` files takes when nothing stops it. */
  function Timeline(n: nat, readme: bool, nested: bool): seq<Event>
  {
    ReadmeEvents(readme) + (FileEvents(n) + (TailEvents(nested) + [Check(AfterClose)]))
  }

  /** The index of the first step that stops the run, or the length of the
      timeline when none does. */
  function FirstTrigger(tl: seq<Event>, env: RunEnv): (r: nat)
    ensures r <= |tl|
    ensures r < |tl| ==> Triggers(env, tl[r])
    decreases |tl|
  {
    if tl == [] then 0 else if Triggers(env, tl[0]) then 0 else 1 + FirstTrigger(tl[1..], env)
  }

  /** No step before the first stopping one stops the run. */
  lemma {:induction false} FirstTriggerSpec(tl: seq<Event>, env: RunEnv)
    ensures forall j :: 0 <= j < FirstTrigger(tl, env) ==> !Triggers(env, tl[j])
    decreases |tl|
  {
    if tl != [] && !Triggers(env, tl[0]) {
      FirstTriggerSpec(tl[1..], env);
      forall j | 0 < j < FirstTrigger(tl, env) ensures !Triggers(env, tl[j]) {
        assert tl[j] == tl[1..][j - 1];
      }
    }
  }

  /** The first step that stops the run is the only index with nothing
      stopping it before and itself stopping it (or the end). */
  lemma {:induction false} FirstTriggerIs(tl: seq<Event>, env: RunEnv, k: nat)
    requires k <= |tl|
    requires forall j :: 0 <= j < k ==> !Triggers(env, tl[j])
    requires k < |tl| ==> Triggers(env, tl[k])
    ensures FirstTrigger(tl, env) == k
    decreases |tl|
  {
    if k > 0 {
      assert !Triggers(env, tl[0]);
      forall j | 0 <= j < k - 1 ensures !Triggers(env, tl[1..][j]) {
        assert tl[1..][j] == tl[j + 1];
      }
      if k < |tl| {
        assert tl[1..][k - 1] == tl[k];
      }
      FirstTriggerIs(tl[1..], env, k - 1);
    }
  }

  datatype Outcome = Completed | AbortedAt(at: Checkpoint) | FailedAt(step: WriteStep, message: string)

  /** The outcome of a run stopped by `e`. */
  function OutcomeAt(env: RunEnv, e: Event): Outcome
    requires Triggers(env, e)
  {
    match e
    case Check(c) => AbortedAt(c)
    case Write(w) => FailedAt(w, env.failure.value.message)
  }

  function OutcomeOf(tl: seq<Event>, env: RunEnv): Outcome
  {
    var r := FirstTrigger(tl, env);
    if r == |tl| then Completed else OutcomeAt(env, tl[r])
  }

  /** A run completes exactly when no step of its timeline is stopped; an
      abort is seen only at a checkpoint the timeline passes, so a run whose
      flag comes too late and whose writes all succeed completes. */
  lemma CompletedIffNothingStops(tl: seq<Event>, env: RunEnv)
    ensures OutcomeOf(tl, env) == Completed <==> forall j :: 0 <= j < |tl| ==> !Triggers(env, tl[j])
    ensures env.failure.None? && (env.abortAt.None? || Check(env.abortAt.value) !in tl) ==>
              OutcomeOf(tl, env) == Completed
  {
    FirstTriggerSpec(tl, env);
    var r := FirstTrigger(tl, env);
    if r < |tl| {
      if env.failure.None? && env.abortAt.Some? && tl[r].Check? {
        assert tl[r] == Check(env.abortAt.value);
      }
    }
  }

  /** The flag is read before each file and right after the inner archive
      is closed; the inner archive is closed after the last file. */
  lemma CheckpointsInOrder(n: nat, readme: bool, nested: bool)
    ensures var tl := Timeline(n, readme, nested);
            var off := if readme then 1 else 0;
            && (forall i :: 0 <= i < n ==> tl[off + 2 * i] == Check(BeforeFile(i)) && tl[off + 2 * i + 1] == Write(AddFile(i)))
            && (nested ==> tl[off + 2 * n] == Write(CloseInner) && tl[off + 2 * n + 1] == Check(AfterInnerClose))
            && tl[|tl| - 1] == Check(AfterClose)
            && (readme ==> tl[0] == Write(AddReadme))
  {
    TimelineEnds(n, readme, nested);
    var off := if readme then 1 else 0;
    forall i | 0 <= i < n
      ensures Timeline(n, readme, nested)[off + 2 * i] == Check(BeforeFile(i))
      ensures Timeline(n, readme, nested)[off + 2 * i + 1] == Write(AddFile(i))
    {
      FileEventAt(i);
      TimelineFiles(n, readme, nested, 2 * i);
      TimelineFiles(n, readme, nested, 2 * i + 1);
    }
    if nested {
      TimelineTail(n, readme, nested, 0);
      TimelineTail(n, readme, nested, 1);
    }
  }

  // ---------------------------------------------------------------------
  // The state a run leaves

  /** How far a run got: the number of files, whether the README and the
      encrypted container are used, and the index of the step that stopped
      it in its timeline. */
  datatype Run = Run(n: nat, readme: bool, nested: bool, stop: nat)

  function RunOf(active: seq<ProcessedFile>, plan: Plan, env: RunEnv): Run
  {
    var readme := plan.readme;
    var nested := Nested(plan);
    Run(|active|, readme, nested, FirstTrigger(Timeline(|active|, readme, nested), env))
  }

  function Offset(run: Run): nat
  {
    if run.readme then 1 else 0
  }

  /** The number of files whose `add` returned. */
  function FilesDone(run: Run): (k: nat)
    ensures k <= run.n
  {
    if run.stop <= Offset(run) then 0
    else if (run.stop - Offset(run)) / 2 < run.n then (run.stop - Offset(run)) / 2
    else run.n
  }

  /** The container entry has been added. */
  predicate OuterAdded(run: Run)
  {
    run.nested && run.stop > Offset(run) + 2 * run.n + 2
  }

  /** The progress after `k` of `n` files, on a scale that ends at `scale`. */
  function Progress(k: nat, n: nat, scale: real): real
  {
    if n == 0 then 0.0 else (k as real / n as real) * scale
  }

  function Scale(nested: bool): real
  {
    if nested then 85.0 else 100.0
  }

  /** The progress reported after each of the first `d` files. */
  function Reports(d: nat, n: nat, scale: real): (r: seq<real>)
    ensures |r| == d && forall j :: 0 <= j < d ==> r[j] == Progress(j + 1, n, scale)
  {
    seq(d, j requires 0 <= j < d => Progress(j + 1, n, scale))
  }

  /** The progress values one run reports, in order. */
  function ProgressReports(run: Run): seq<real>
  {
    [0.0] + Reports(FilesDone(run), run.n, Scale(run.nested))
    + (if OuterAdded(run) then [100.0] else [])
  }

  function Last(s: seq<real>): real
    requires s != []
  {
    s[|s| - 1]
  }

  lemma ProgressGrows(k1: nat, k2: nat, n: nat, scale: real)
    requires k1 <= k2 <= n && 0.0 <= scale
    ensures 0.0 <= Progress(k1, n, scale) <= Progress(k2, n, scale) <= scale
  {
    if n > 0 {
      var a, b := k1 as real / n as real, k2 as real / n as real;
      assert a * n as real == k1 as real && b * n as real == k2 as real;
      assert 0.0 <= a <= b <= 1.0;
      assert a * scale <= b * scale <= 1.0 * scale;
    }
  }

  /** The `i`-th report: 0 first, then the fraction after each file, then
      100 once the container entry is added. */
  lemma ReportAt(run: Run, i: nat)
    requires i < |ProgressReports(run)|
    ensures var ps := ProgressReports(run);
            (i <= FilesDone(run) && ps[i] == Progress(i, run.n, Scale(run.nested)))
            || (i == FilesDone(run) + 1 && OuterAdded(run) && ps[i] == 100.0)
  {
    if i == 0 {
      assert Progress(0, run.n, Scale(run.nested)) == 0.0;
    }
  }

  /** Progress never goes down during a run, stays within 0 to 100, and a
      completed run over at least one file ends at 100 in both strategies. */
  lemma ProgressMonotone(run: Run)
    ensures forall i, j :: 0 <= i <= j < |ProgressReports(run)| ==>
              0.0 <= ProgressReports(run)[i] <= ProgressReports(run)[j] <= 100.0
    ensures run.n > 0 && run.stop >= Offset(run) + 2 * run.n + |TailEvents(run.nested)| ==>
              Last(ProgressReports(run)) == 100.0
  {
    var ps := ProgressReports(run);
    var n, s, d := run.n, Scale(run.nested), FilesDone(run);
    forall i, j | 0 <= i <= j < |ps| ensures 0.0 <= ps[i] <= ps[j] <= 100.0 {
      ReportAt(run, i);
      ReportAt(run, j);
      if j <= d {
        ProgressGrows(i, j, n, s);
      } else {
        ProgressGrows(if i <= d then i else d, d, n, s);
      }
    }
    if n > 0 && run.stop >= Offset(run) + 2 * run.n + |TailEvents(run.nested)| {
      assert d == n;
      ReportAt(run, |ps| - 1);
      if !run.nested {
        assert Progress(n, n, s) == 100.0 by {
          var x := n as real;
          assert x > 0.0;
          assert x / x == 1.0;
        }
      }
    }
  }

  /** The status a run ends in: ready, idle after an abort, and error after
      a failure, except that an error whose message is `Aborted` is
      swallowed and leaves the status as it was during the run. */
  function StatusAfter(o: Outcome): ZipStatus
  {
    match o
    case Completed => Ready
    case AbortedAt(_) => Idle
    case FailedAt(_, m) => if m == ABORTED then Processing else Error
  }

  /** The error a run leaves: the message of a failure, or the default text
      for a failure without one; an abort and a success leave it as it was. */
  function ErrorAfter(o: Outcome, before: Option<string>): Option<string>
  {
    match o
    case FailedAt(_, m) => if m == ABORTED then before else Some(if m == "" then UNKNOWN_ERROR else m)
    case _ => before
  }

  /** The file shown as in progress when the run stopped. */
  function CurrentFileAfter(before: string, active: seq<ProcessedFile>, run: Run): string
    requires run.n == |active|
  {
    var off := Offset(run);
    if run.stop <= off then before
    else if run.stop < off + 2 * run.n then active[(run.stop - off - 1) / 2].path
    else if run.nested then ENCRYPTING
    else FINALIZING
  }

  /** The entries the content writer holds when the run stopped. */
  function ContentDone(active: seq<ProcessedFile>, plan: Plan, run: Run): seq<ZipEntry>
    requires run.n == |active|
  {
    (if run.readme && run.stop >= 1 then [ReadmeEntry(plan)] else [])
    + FileEntries(active[..FilesDone(run)], plan.level)
  }

  /** The entry log of the writer the hook holds when the run stopped: the
      content writer, or the container writer once it has been opened. */
  function WriterAfter(active: seq<ProcessedFile>, plan: Plan, run: Run): seq<ZipEntry>
    requires run.n == |active|
  {
    if run.nested && run.stop > Offset(run) + 2 * run.n + 1 then
      if OuterAdded(run) then [OuterEntry(plan, ContentEntries(active, plan))] else []
    else ContentDone(active, plan, run)
  }

  /** The archive a completed run produces: the content entries, or the
      single container entry that holds them. */
  function FinalArchive(active: seq<ProcessedFile>, plan: Plan, size: nat): Archive
  {
    if Nested(plan) then Archive([OuterEntry(plan, ContentEntries(active, plan))], size)
    else Archive(ContentEntries(active, plan), size)
  }

  /** No step before index `k` stops the run. */
  predicate NoStopBefore(tl: seq<Event>, env: RunEnv, k: nat)
    requires k <= |tl|
  {
    forall j :: 0 <= j < k ==> !Triggers(env, tl[j])
  }

  /** Where each part of the timeline sits: its length, the README step,
      and the last check. */
  lemma TimelineEnds(n: nat, readme: bool, nested: bool)
    ensures var tl := Timeline(n, readme, nested);
            && |tl| == (if readme then 1 else 0) + 2 * n + |TailEvents(nested)| + 1
            && (readme ==> tl[0] == Write(AddReadme))
            && tl[|tl| - 1] == Check(AfterClose)
  {
    var c := TailEvents(nested) + [Check(AfterClose)];
    var tl := Timeline(n, readme, nested);
    assert tl == ReadmeEvents(readme) + (FileEvents(n) + c);
    assert tl[|tl| - 1] == c[|c| - 1];
  }

  /** The file steps sit right after the README step. */
  lemma TimelineFiles(n: nat, readme: bool, nested: bool, j: nat)
    requires j < 2 * n
    ensures Timeline(n, readme, nested)[(if readme then 1 else 0) + j] == FileEvent(j)
  {
    var a, b, c := ReadmeEvents(readme), FileEvents(n), TailEvents(nested) + [Check(AfterClose)];
    assert Timeline(n, readme, nested) == a + (b + c);
    assert (b + c)[j] == b[j];
  }

  /** The tail steps sit right after the file steps. */
  lemma TimelineTail(n: nat, readme: bool, nested: bool, j: nat)
    requires j < |TailEvents(nested)|
    ensures Timeline(n, readme, nested)[(if readme then 1 else 0) + 2 * n + j] == TailEvents(nested)[j]
  {
    var a, b, c := ReadmeEvents(readme), FileEvents(n), TailEvents(nested) + [Check(AfterClose)];
    assert Timeline(n, readme, nested) == a + (b + c);
    assert (b + c)[|b| + j] == c[j];
  }

  /** Passing the README and the first `k` file steps. */
  lemma PassedFiles(n: nat, readme: bool, nested: bool, env: RunEnv, k: nat)
    requires k <= 2 * n
    requires readme ==> !Triggers(env, Write(AddReadme))
    requires forall j :: 0 <= j < k ==> !Triggers(env, FileEvent(j))
    ensures NoStopBefore(Timeline(n, readme, nested), env, (if readme then 1 else 0) + k)
  {
    TimelineEnds(n, readme, nested);
    var tl := Timeline(n, readme, nested);
    var off := if readme then 1 else 0;
    forall j | 0 <= j < off + k ensures !Triggers(env, tl[j]) {
      if j >= off {
        TimelineFiles(n, readme, nested, j - off);
      }
    }
  }

  /** Passing every file step and the first `t` steps of the tail. */
  lemma PassedTail(n: nat, readme: bool, nested: bool, env: RunEnv, t: nat)
    requires t <= |TailEvents(nested)|
    requires NoStopBefore(Timeline(n, readme, nested), env, (if readme then 1 else 0) + 2 * n)
    requires forall j :: 0 <= j < t ==> !Triggers(env, TailEvents(nested)[j])
    ensures NoStopBefore(Timeline(n, readme, nested), env, (if readme then 1 else 0) + 2 * n + t)
  {
    TimelineEnds(n, readme, nested);
    var tl := Timeline(n, readme, nested);
    var off := if readme then 1 else 0;
    forall j | 0 <= j < off + 2 * n + t ensures !Triggers(env, tl[j]) {
      if j >= off + 2 * n {
        TimelineTail(n, readme, nested, j - off - 2 * n);
      }
    }
  }

  /** The fields of the hook, as one value. */
  datatype HookState = HookState(status: ZipStatus, progress: real, currentFile: string, zipBlob: Option<Archive>,
                                 fileName: Option<string>, fileCount: nat, error: Option<string>,
                                 stats: Option<ZipStats>, writer: Option<seq<ZipEntry>>, controller: Option<bool>)

  /** What a run over the selected files `active` (at least one) leaves in
      the hook, given the state `before` it: the status and error its
      outcome calls for, the last progress it reported, the file it showed
      last, the archive and the statistics when it completed, and the entry
      log of the writer it held last. */
  function RunState(before: HookState, active: seq<ProcessedFile>, plan: Plan, env: RunEnv): HookState
  {
    var run := RunOf(active, plan, env);
    StateAt(before, active, plan, env, run, OutcomeOf(Timeline(run.n, run.readme, run.nested), env))
  }

  /** `RunState` for a run that got as far as `run` says, with outcome `o`. */
  function StateAt(before: HookState, active: seq<ProcessedFile>, plan: Plan, env: RunEnv, run: Run, o: Outcome): HookState
    requires run.n == |active|
  {
    HookState(
      StatusAfter(o),
      Last(ProgressReports(run)),
      CurrentFileAfter(before.currentFile, active, run),
      if o.Completed? then Some(FinalArchive(active, plan, env.blobSize)) else None,
      Some(plan.name),
      |active|,
      ErrorAfter(o, before.error),
      if o.Completed? then Some(ZipStats(TotalSize(active), env.blobSize, env.startTime, Some(env.endTime)))
      else before.stats,
      Some(WriterAfter(active, plan, run)),
      Some(o.AbortedAt?))
  }

  /** Once every file step is passed, the content writer holds the README
      entry when there is one and every file. */
  lemma ContentDoneAll(active: seq<ProcessedFile>, plan: Plan, run: Run)
    requires run.n == |active| && run.readme == plan.readme
    requires run.stop >= Offset(run) + 2 * run.n
    ensures FilesDone(run) == run.n
    ensures ContentDone(active, plan, run) == ContentEntries(active, plan)
  {
    assert active[..|active|] == active;
  }

  /** `RunState` once the point where the run stopped and its outcome are
      known. */
  lemma RunStateIs(before: HookState, active: seq<ProcessedFile>, plan: Plan, env: RunEnv, run: Run, o: Outcome)
    requires RunOf(active, plan, env) == run
    requires OutcomeOf(Timeline(|active|, plan.readme, Nested(plan)), env) == o
    ensures run.n == |active|
    ensures RunState(before, active, plan, env) == StateAt(before, active, plan, env, run, o)
  {
  }

  /** A run whose README `add` throws. */
  lemma ReadmeStopState(before: HookState, active: seq<ProcessedFile>, plan: Plan, env: RunEnv)
    requires |active| > 0 && plan.readme && Triggers(env, Write(AddReadme))
    ensures var o := OutcomeAt(env, Write(AddReadme));
            && ProgressReports(RunOf(active, plan, env)) == [0.0]
            && RunState(before, active, plan, env) ==
               HookState(StatusAfter(o), 0.0, before.currentFile, None, Some(plan.name), |active|,
                         ErrorAfter(o, before.error), before.stats, Some([]), Some(false))
  {
    var n, nested := |active|, Nested(plan);
    TimelineEnds(n, true, nested);
    FirstTriggerIs(Timeline(n, true, nested), env, 0);
    assert FileEntries(active[..0], plan.level) == [];
    var run := Run(n, true, nested, 0);
    assert RunOf(active, plan, env) == run;
    assert FilesDone(run) == 0 && !OuterAdded(run);
    assert ProgressReports(run) == [0.0];
    assert WriterAfter(active, plan, run) == [];
  }

  /** A run stopped in the file loop: by the abort check before file `d`,
      or (`atAdd`) by the `add` of file `d`. */
  lemma FilesStopState(before: HookState, active: seq<ProcessedFile>, plan: Plan, env: RunEnv,
                       d: nat, atAdd: bool)
    requires d < |active|
    requires plan.readme ==> !Triggers(env, Write(AddReadme))
    requires forall j :: 0 <= j < 2 * d + (if atAdd then 1 else 0) ==> !Triggers(env, FileEvent(j))
    requires Triggers(env, FileEvent(2 * d + (if atAdd then 1 else 0)))
    ensures var o := OutcomeAt(env, FileEvent(2 * d + (if atAdd then 1 else 0)));
            var scale := Scale(Nested(plan));
            && ProgressReports(RunOf(active, plan, env)) == [0.0] + Reports(d, |active|, scale)
            && RunState(before, active, plan, env) ==
               HookState(StatusAfter(o), if d == 0 then 0.0 else Progress(d, |active|, scale),
                         if atAdd then active[d].path else if d == 0 then before.currentFile else active[d - 1].path,
                         None, Some(plan.name), |active|, ErrorAfter(o, before.error), before.stats,
                         Some((if plan.readme then [ReadmeEntry(plan)] else [])
                              + FileEntries(active[..d], plan.level)),
                         Some(o.AbortedAt?))
  {
    var n, readme, nested := |active|, plan.readme, Nested(plan);
    var b := if atAdd then 1 else 0;
    var run := Run(n, readme, nested, (if readme then 1 else 0) + 2 * d + b);
    FilesStopRun(active, plan, env, d, b);
    RunStateIs(before, active, plan, env, run, OutcomeAt(env, FileEvent(2 * d + b)));
    FilesStopParts(active, plan, run, d, atAdd);
  }

  /** How far a run stopped in the file loop got, and why it stopped. */
  lemma FilesStopRun(active: seq<ProcessedFile>, plan: Plan, env: RunEnv, d: nat, b: nat)
    requires d < |active| && b <= 1
    requires plan.readme ==> !Triggers(env, Write(AddReadme))
    requires forall j :: 0 <= j < 2 * d + b ==> !Triggers(env, FileEvent(j))
    requires Triggers(env, FileEvent(2 * d + b))
    ensures RunOf(active, plan, env) == Run(|active|, plan.readme, Nested(plan), (if plan.readme then 1 else 0) + 2 * d + b)
    ensures OutcomeOf(Timeline(|active|, plan.readme, Nested(plan)), env) == OutcomeAt(env, FileEvent(2 * d + b))
  {
    var n, readme, nested := |active|, plan.readme, Nested(plan);
    FilesStopAt(n, readme, nested, env, d, b);
    FirstTriggerIs(Timeline(n, readme, nested), env, (if readme then 1 else 0) + 2 * d + b);
  }

  /** The step that stops a run in the file loop sits after the README step
      and the `2 * d + b` file steps before it. */
  lemma FilesStopAt(n: nat, readme: bool, nested: bool, env: RunEnv, d: nat, b: nat)
    requires d < n && b <= 1
    requires readme ==> !Triggers(env, Write(AddReadme))
    requires forall j :: 0 <= j < 2 * d + b ==> !Triggers(env, FileEvent(j))
    ensures var k := (if readme then 1 else 0) + 2 * d + b;
            && k < |Timeline(n, readme, nested)|
            && NoStopBefore(Timeline(n, readme, nested), env, k)
            && Timeline(n, readme, nested)[k] == FileEvent(2 * d + b)
  {
    PassedFiles(n, readme, nested, env, 2 * d + b);
    TimelineFiles(n, readme, nested, 2 * d + b);
    TimelineEnds(n, readme, nested);
  }

  /** The parts of the state of a run stopped in the file loop. */
  lemma FilesStopParts(active: seq<ProcessedFile>, plan: Plan, run: Run, d: nat, atAdd: bool)
    requires d < |active| && run.n == |active| && run.readme == plan.readme
    requires run.stop == Offset(run) + 2 * d + (if atAdd then 1 else 0)
    ensures FilesDone(run) == d && !OuterAdded(run)
    ensures ProgressReports(run) == [0.0] + Reports(d, run.n, Scale(run.nested))
    ensures Last(ProgressReports(run)) == if d == 0 then 0.0 else Progress(d, run.n, Scale(run.nested))
    ensures forall c :: CurrentFileAfter(c, active, run) ==
              if atAdd then active[d].path else if d == 0 then c else active[d - 1].path
    ensures WriterAfter(active, plan, run) ==
              (if plan.readme then [ReadmeEntry(plan)] else []) + FileEntries(active[..d], plan.level)
  {
    var b := if atAdd then 1 else 0;
    assert (2 * d + b) / 2 == d;
    assert run.stop > Offset(run) ==> (run.stop - Offset(run) - 1) / 2 == (if atAdd then d else d - 1);
  }

  /** A run stopped after the file loop, by step `t` of the tail. */
  lemma TailStopState(before: HookState, active: seq<ProcessedFile>, plan: Plan, env: RunEnv,
                      t: nat)
    requires |active| > 0
    requires plan.readme ==> !Triggers(env, Write(AddReadme))
    requires forall j :: 0 <= j < 2 * |active| ==> !Triggers(env, FileEvent(j))
    requires t < |TailEvents(Nested(plan))|
    requires forall j :: 0 <= j < t ==> !Triggers(env, TailEvents(Nested(plan))[j])
    requires Triggers(env, TailEvents(Nested(plan))[t])
    ensures var nested := Nested(plan);
            var o := OutcomeAt(env, TailEvents(nested)[t]);
            var outer := nested && t >= 3;
            && ProgressReports(RunOf(active, plan, env)) ==
               [0.0] + Reports(|active|, |active|, Scale(nested)) + (if outer then [100.0] else [])
            && RunState(before, active, plan, env) ==
               HookState(StatusAfter(o), if outer then 100.0 else Progress(|active|, |active|, Scale(nested)),
                         if nested then ENCRYPTING else FINALIZING,
                         None, Some(plan.name), |active|, ErrorAfter(o, before.error), before.stats,
                         Some(if nested && t >= 2 then (if outer then [OuterEntry(plan, ContentEntries(active, plan))] else [])
                              else ContentEntries(active, plan)),
                         Some(o.AbortedAt?))
  {
    var n, readme, nested := |active|, plan.readme, Nested(plan);
    var run := Run(n, readme, nested, (if readme then 1 else 0) + 2 * n + t);
    TailStopRun(active, plan, env, t);
    RunStateIs(before, active, plan, env, run, OutcomeAt(env, TailEvents(nested)[t]));
    TailStopParts(active, plan, run, t);
  }

  /** How far a run stopped by step `t` of the tail got, and why it
      stopped. */
  lemma TailStopRun(active: seq<ProcessedFile>, plan: Plan, env: RunEnv, t: nat)
    requires plan.readme ==> !Triggers(env, Write(AddReadme))
    requires forall j :: 0 <= j < 2 * |active| ==> !Triggers(env, FileEvent(j))
    requires t < |TailEvents(Nested(plan))|
    requires forall j :: 0 <= j < t ==> !Triggers(env, TailEvents(Nested(plan))[j])
    requires Triggers(env, TailEvents(Nested(plan))[t])
    ensures RunOf(active, plan, env) ==
            Run(|active|, plan.readme, Nested(plan), (if plan.readme then 1 else 0) + 2 * |active| + t)
    ensures OutcomeOf(Timeline(|active|, plan.readme, Nested(plan)), env) == OutcomeAt(env, TailEvents(Nested(plan))[t])
  {
    var n, readme, nested := |active|, plan.readme, Nested(plan);
    PassedFiles(n, readme, nested, env, 2 * n);
    PassedTail(n, readme, nested, env, t);
    TimelineTail(n, readme, nested, t);
    TimelineEnds(n, readme, nested);
    FirstTriggerIs(Timeline(n, readme, nested), env, (if readme then 1 else 0) + 2 * n + t);
  }

  /** The parts of the state of a run stopped by step `t` of the tail, or
      of one that passed the whole tail. */
  lemma TailStopParts(active: seq<ProcessedFile>, plan: Plan, run: Run, t: nat)
    requires |active| > 0 && run.n == |active| && run.readme == plan.readme && run.nested == Nested(plan)
    requires t <= |TailEvents(run.nested)| && run.stop >= Offset(run) + 2 * run.n + t
    requires t < |TailEvents(run.nested)| ==> run.stop == Offset(run) + 2 * run.n + t
    ensures var outer := run.nested && t >= 3;
            && ProgressReports(run) == [0.0] + Reports(run.n, run.n, Scale(run.nested)) + (if outer then [100.0] else [])
            && Last(ProgressReports(run)) == (if outer then 100.0 else Progress(run.n, run.n, Scale(run.nested)))
            && (forall c :: CurrentFileAfter(c, active, run) == if run.nested then ENCRYPTING else FINALIZING)
            && WriterAfter(active, plan, run) ==
               (if run.nested && t >= 2 then (if outer then [OuterEntry(plan, ContentEntries(active, plan))] else [])
                else ContentEntries(active, plan))
  {
    ContentDoneAll(active, plan, run);
  }

  /** A run that passed every write: it completes, unless the flag is seen
      after the final archive is closed. */
  lemma EndState(before: HookState, active: seq<ProcessedFile>, plan: Plan, env: RunEnv)
    requires |active| > 0
    requires plan.readme ==> !Triggers(env, Write(AddReadme))
    requires forall j :: 0 <= j < 2 * |active| ==> !Triggers(env, FileEvent(j))
    requires forall j :: 0 <= j < |TailEvents(Nested(plan))| ==> !Triggers(env, TailEvents(Nested(plan))[j])
    ensures var nested := Nested(plan);
            var aborted := env.abortAt == Some(AfterClose);
            && ProgressReports(RunOf(active, plan, env)) ==
               [0.0] + Reports(|active|, |active|, Scale(nested)) + (if nested then [100.0] else [])
            && RunState(before, active, plan, env) ==
               HookState(if aborted then Idle else Ready,
                         if nested then 100.0 else Progress(|active|, |active|, Scale(nested)),
                         if nested then ENCRYPTING else FINALIZING,
                         if aborted then None else Some(FinalArchive(active, plan, env.blobSize)),
                         Some(plan.name), |active|, before.error,
                         if aborted then before.stats
                         else Some(ZipStats(TotalSize(active), env.blobSize, env.startTime, Some(env.endTime))),
                         Some(if nested then [OuterEntry(plan, ContentEntries(active, plan))]
                              else ContentEntries(active, plan)),
                         Some(aborted))
  {
    var n, readme, nested := |active|, plan.readme, Nested(plan);
    var last := (if readme then 1 else 0) + 2 * n + |TailEvents(nested)|;
    var aborted := env.abortAt == Some(AfterClose);
    var run := Run(n, readme, nested, if aborted then last else last + 1);
    var o := if aborted then AbortedAt(AfterClose) else Completed;
    EndRun(active, plan, env);
    RunStateIs(before, active, plan, env, run, o);
    EndStateAt(before, active, plan, env, run, o);
  }

  /** The state a run that passed every write leaves. */
  lemma EndStateAt(before: HookState, active: seq<ProcessedFile>, plan: Plan, env: RunEnv, run: Run, o: Outcome)
    requires |active| > 0
    requires run == Run(|active|, plan.readme, Nested(plan),
                        (if plan.readme then 1 else 0) + 2 * |active| + |TailEvents(Nested(plan))|
                        + (if env.abortAt == Some(AfterClose) then 0 else 1))
    requires o == if env.abortAt == Some(AfterClose) then AbortedAt(AfterClose) else Completed
    ensures var nested := Nested(plan);
            var aborted := env.abortAt == Some(AfterClose);
            && ProgressReports(run) ==
               [0.0] + Reports(|active|, |active|, Scale(nested)) + (if nested then [100.0] else [])
            && StateAt(before, active, plan, env, run, o) ==
               HookState(if aborted then Idle else Ready,
                         if nested then 100.0 else Progress(|active|, |active|, Scale(nested)),
                         if nested then ENCRYPTING else FINALIZING,
                         if aborted then None else Some(FinalArchive(active, plan, env.blobSize)),
                         Some(plan.name), |active|, before.error,
                         if aborted then before.stats
                         else Some(ZipStats(TotalSize(active), env.blobSize, env.startTime, Some(env.endTime))),
                         Some(if nested then [OuterEntry(plan, ContentEntries(active, plan))]
                              else ContentEntries(active, plan)),
                         Some(aborted))
  {
    TailStopParts(active, plan, run, |TailEvents(Nested(plan))|);
  }

  /** A run that passed every write is stopped only by the last check. */
  lemma EndRun(active: seq<ProcessedFile>, plan: Plan, env: RunEnv)
    requires plan.readme ==> !Triggers(env, Write(AddReadme))
    requires forall j :: 0 <= j < 2 * |active| ==> !Triggers(env, FileEvent(j))
    requires forall j :: 0 <= j < |TailEvents(Nested(plan))| ==> !Triggers(env, TailEvents(Nested(plan))[j])
    ensures var last := (if plan.readme then 1 else 0) + 2 * |active| + |TailEvents(Nested(plan))|;
            && RunOf(active, plan, env) ==
               Run(|active|, plan.readme, Nested(plan), if env.abortAt == Some(AfterClose) then last else last + 1)
            && OutcomeOf(Timeline(|active|, plan.readme, Nested(plan)), env) ==
               if env.abortAt == Some(AfterClose) then AbortedAt(AfterClose) else Completed
  {
    var n, readme, nested := |active|, plan.readme, Nested(plan);
    var tl := Timeline(n, readme, nested);
    PassedFiles(n, readme, nested, env, 2 * n);
    PassedTail(n, readme, nested, env, |TailEvents(nested)|);
    TimelineEnds(n, readme, nested);
    var last := (if readme then 1 else 0) + 2 * n + |TailEvents(nested)|;
    if env.abortAt == Some(AfterClose) {
      FirstTriggerIs(tl, env, last);
    } else {
      assert NoStopBefore(tl, env, last + 1);
      FirstTriggerIs(tl, env, last + 1);
    }
  }

  // ---------------------------------------------------------------------
  // The hook state

  /** The state of the compression hook and its two refs: `writer` is the
      entry log of the writer `zipWriterRef` holds, `controller` the abort
      controller `abortControllerRef` holds, as whether it was aborted.
      `progressLog` records every progress value the hook reports. */
  class ZipSession {
    var status: ZipStatus
    var progress: real
    var currentFile: string
    var zipBlob: Option<Archive>
    var fileName: Option<string>
    var fileCount: nat
    var error: Option<string>
    var stats: Option<ZipStats>
    var writer: Option<seq<ZipEntry>>
    var controller: Option<bool>
    ghost var progressLog: seq<real>

    /** Every field at the value the hook starts with. */
    predicate Initial()
      reads this
    {
      && status == Idle && progress == 0.0 && currentFile == "" && zipBlob == None && fileName == None
      && fileCount == 0 && error == None && stats == None && writer == None && controller == None
    }

    constructor ()
      ensures Initial() && progressLog == []
    {
      status, progress, currentFile, zipBlob, fileName := Idle, 0.0, "", None, None;
      fileCount, error, stats, writer, controller := 0, None, None, None, None;
      progressLog := [];
    }

    /** `reset`: every field back to its initial value. */
    method Reset()
      modifies this
      ensures Initial() && progressLog == old(progressLog) + [0.0]
    {
      status := Idle;
      SetProgress(0.0);
      currentFile := "";
      zipBlob := None;
      fileName := None;
      fileCount := 0;
      error := None;
      stats := None;
      writer := None;
      controller := None;
    }

    method SetProgress(p: real)
      modifies this`progress, this`progressLog
      ensures progress == p && progressLog == old(progressLog) + [p]
    {
      progress := p;
      progressLog := progressLog + [p];
    }

    /** `setFileName`, which the page uses to rename the archive. */
    method SetFileName(name: string)
      modifies this`fileName
      ensures fileName == Some(name)
    {
      fileName := Some(name);
    }

    /** `abortCompression`: with a controller, abort it and go idle. */
    method AbortCompression()
      modifies this`controller, this`status
      ensures old(controller).Some? ==> controller == Some(true) && status == Idle
      ensures old(controller).None? ==> controller == None && status == old(status)
    {
      if controller.Some? {
        controller := Some(true);
        status := Idle;
      }
    }

    /** `downloadZip`: with a blob and a non-empty name, the blob is saved
        under the name with `.zip` appended when it is missing. */
    method DownloadZip() returns (saved: Option<(Archive, string)>)
      ensures saved.Some? <==> zipBlob.Some? && fileName.Some? && fileName.value != ""
      ensures saved.Some? ==> saved.value.0 == zipBlob.value && saved.value.1 == DownloadName(fileName.value)
      ensures saved.Some? ==> EndsWithZip(saved.value.1)
    {
      if zipBlob.Some? && fileName.Some? && fileName.value != "" {
        DownloadNameFix(fileName.value);
        saved := Some((zipBlob.value, DownloadName(fileName.value)));
      } else {
        saved := None;
      }
    }

    /** The `catch` of a run: an `Aborted` error is swallowed, any other
        sets the error (or the default text) and the status `error`. */
    method Catch(message: string)
      modifies this`error, this`status
      ensures error == (if message == ABORTED then old(error) else Some(if message == "" then UNKNOWN_ERROR else message))
      ensures status == (if message == ABORTED then old(status) else Error)
    {
      if message == ABORTED {
        return;
      }
      error := Some(if message == "" then UNKNOWN_ERROR else message);
      status := Error;
    }

    function State(): HookState
      reads this
    {
      HookState(status, progress, currentFile, zipBlob, fileName, fileCount, error, stats, writer, controller)
    }

    /** The loop over the selected files: read the abort flag, show the file,
        add it, report the progress. `d` files were added; a run that stops
        stops at the abort check before file `d` or (`atAdd`) at its `add`. */
    method AddFiles(active: seq<ProcessedFile>, level: Level, scale: real, env: RunEnv)
      returns (thrown: Option<string>, ghost d: nat, ghost atAdd: bool)
      requires |active| > 0 && writer.Some? && controller == Some(false)
      modifies this
      ensures d <= |active|
      ensures thrown.None? ==> d == |active| && !atAdd
      ensures forall j :: 0 <= j < 2 * d + (if atAdd then 1 else 0) ==> !Triggers(env, FileEvent(j))
      ensures thrown.Some? ==> d < |active| && Triggers(env, FileEvent(2 * d + (if atAdd then 1 else 0)))
                               && thrown.value == StopMessage(env, FileEvent(2 * d + (if atAdd then 1 else 0)))
      ensures writer == Some(old(writer).value + FileEntries(active[..d], level))
      ensures progressLog == old(progressLog) + Reports(d, |active|, scale)
      ensures progress == (if d == 0 then old(progress) else Progress(d, |active|, scale))
      ensures currentFile == (if atAdd then active[d].path else if d == 0 then old(currentFile) else active[d - 1].path)
      ensures thrown.Some? && !atAdd ==> status == Idle && controller == Some(true)
      ensures !(thrown.Some? && !atAdd) ==> status == old(status) && controller == old(controller)
      ensures zipBlob == old(zipBlob) && fileName == old(fileName) && fileCount == old(fileCount)
      ensures error == old(error) && stats == old(stats)
    {
      var n := |active|;
      var i := 0;
      assert old(writer).value + FileEntries(active[..0], level) == old(writer).value;
      while i < n
        invariant 0 <= i <= n
        invariant forall j :: 0 <= j < 2 * i ==> !Triggers(env, FileEvent(j))
        invariant writer == Some(old(writer).value + FileEntries(active[..i], level))
        invariant progressLog == old(progressLog) + Reports(i, n, scale)
        invariant progress == (if i == 0 then old(progress) else Progress(i, n, scale))
        invariant currentFile == (if i == 0 then old(currentFile) else active[i - 1].path)
        invariant status == old(status) && controller == old(controller)
        invariant zipBlob == old(zipBlob) && fileName == old(fileName) && fileCount == old(fileCount)
        invariant error == old(error) && stats == old(stats)
      {
        ghost var reports := Reports(i, n, scale);
        ghost var entries := writer.value;
        FileEventAt(i);
        var t := FileStep(active, i, level, scale, env);
        if t.Some? {
          return t, i, env.abortAt != Some(BeforeFile(i));
        }
        assert active[..i + 1] == active[..i] + [active[i]];
        FileEntriesSnoc(active[..i], active[i], level);
        assert writer.value == old(writer).value + FileEntries(active[..i + 1], level) by {
          assert entries == old(writer).value + FileEntries(active[..i], level);
          assert writer.value == entries + [FileEntry(active[i], level)];
        }
        i := i + 1;
        assert Reports(i, n, scale) == reports + [Progress(i, n, scale)];
      }
      assert active[..n] == active;
      return None, n, false;
    }

    /** One turn of the file loop: read the abort flag, show the file, add
        it, report the progress. */
    method FileStep(active: seq<ProcessedFile>, i: nat, level: Level, scale: real, env: RunEnv)
      returns (thrown: Option<string>)
      requires i < |active| && writer.Some? && controller == Some(false)
      modifies this
      ensures env.abortAt == Some(BeforeFile(i)) ==>
                && thrown == Some(ABORTED) && status == Idle && controller == Some(true)
                && writer == old(writer) && currentFile == old(currentFile)
                && progress == old(progress) && progressLog == old(progressLog)
      ensures env.abortAt != Some(BeforeFile(i)) ==>
                && status == old(status) && controller == old(controller) && currentFile == active[i].path
                && (if env.failure.Some? && env.failure.value.step == AddFile(i)
                    then thrown == Some(env.failure.value.message) && writer == old(writer)
                         && progress == old(progress) && progressLog == old(progressLog)
                    else thrown == None && writer == Some(old(writer).value + [FileEntry(active[i], level)])
                         && progress == Progress(i + 1, |active|, scale)
                         && progressLog == old(progressLog) + [Progress(i + 1, |active|, scale)])
      ensures zipBlob == old(zipBlob) && fileName == old(fileName) && fileCount == old(fileCount)
      ensures error == old(error) && stats == old(stats)
    {
      if env.abortAt == Some(BeforeFile(i)) {
        AbortCompression();
        return Some(ABORTED);
      }
      currentFile := active[i].path;
      if env.failure.Some? && env.failure.value.step == AddFile(i) {
        return Some(env.failure.value.message);
      }
      writer := Some(writer.value + [FileEntry(active[i], level)]);
      SetProgress(Progress(i + 1, |active|, scale));
      return None;
    }

    /** The encrypted container: close the content writer, read the abort
        flag, add the content archive to a new writer under the password,
        report 100, close. `t` is the index of the stopping step in the
        tail of the timeline, or 4 when none stops it. */
    method FinishNested(plan: Plan, env: RunEnv)
      returns (thrown: Option<string>, entries: seq<ZipEntry>, ghost t: nat)
      requires writer.Some? && controller == Some(false)
      modifies this
      ensures t <= 4
      ensures forall j :: 0 <= j < t ==> !Triggers(env, TailEvents(true)[j])
      ensures t < 4 ==> Triggers(env, TailEvents(true)[t]) && thrown == Some(StopMessage(env, TailEvents(true)[t]))
      ensures t == 4 ==> thrown == None && entries == [OuterEntry(plan, old(writer).value)]
      ensures currentFile == ENCRYPTING
      ensures writer == (if t <= 1 then old(writer) else if t == 2 then Some([])
                         else Some([OuterEntry(plan, old(writer).value)]))
      ensures t >= 3 ==> progress == 100.0 && progressLog == old(progressLog) + [100.0]
      ensures t < 3 ==> progress == old(progress) && progressLog == old(progressLog)
      ensures t == 1 ==> status == Idle && controller == Some(true)
      ensures t != 1 ==> status == old(status) && controller == old(controller)
      ensures zipBlob == old(zipBlob) && fileName == old(fileName) && fileCount == old(fileCount)
      ensures error == old(error) && stats == old(stats)
    {
      currentFile := ENCRYPTING;
      if env.failure.Some? && env.failure.value.step == CloseInner {
        return Some(env.failure.value.message), [], 0;
      }
      var inner := writer.value;
      if env.abortAt == Some(AfterInnerClose) {
        AbortCompression();
        return Some(ABORTED), [], 1;
      }
      writer := Some([]);
      if env.failure.Some? && env.failure.value.step == AddOuter {
        return Some(env.failure.value.message), [], 2;
      }
      writer := Some([OuterEntry(plan, inner)]);
      SetProgress(100.0);
      if env.failure.Some? && env.failure.value.step == CloseArchive {
        return Some(env.failure.value.message), [], 3;
      }
      return None, writer.value, 4;
    }

    /** The direct archive: close the writer. */
    method FinishDirect(env: RunEnv) returns (thrown: Option<string>, entries: seq<ZipEntry>, ghost t: nat)
      requires writer.Some?
      modifies this`currentFile
      ensures t <= 1
      ensures t == 0 ==> Triggers(env, TailEvents(false)[0]) && thrown == Some(StopMessage(env, TailEvents(false)[0]))
      ensures t == 1 ==> !Triggers(env, TailEvents(false)[0]) && thrown == None && entries == writer.value
      ensures currentFile == FINALIZING
    {
      currentFile := FINALIZING;
      if env.failure.Some? && env.failure.value.step == CloseArchive {
        return Some(env.failure.value.message), [], 0;
      }
      return None, writer.value, 1;
    }

    /** `compressFiles`. Without a selected file nothing changes. Otherwise
        the hook ends in the state `RunState` gives, having reported the
        progress values of `ProgressReports` in order. */
    method CompressFiles(files: seq<ProcessedFile>, settings: ZipSettings, userFileName: Option<string>, env: RunEnv)
      modifies this
      ensures Selected(files) == [] ==> unchanged(this)
      ensures Selected(files) != [] ==>
                var plan := PlanOf(settings, FinalName(userFileName, Selected(files)[0].path, settings.addTimestamp, env.date));
                && State() == RunState(old(State()), Selected(files), plan, env)
                && progressLog == old(progressLog) + ProgressReports(RunOf(Selected(files), plan, env))
    {
      var active := Selected(files);
      if |active| == 0 {
        return;
      }
      var finalName := FinalName(userFileName, active[0].path, settings.addTimestamp, env.date);
      Compress(active, PlanOf(settings, finalName), env);
    }

    /** The `try` block of `compressFiles` over the selected files `active`:
        set up the run, add the README, then the files and the tail. */
    method Compress(active: seq<ProcessedFile>, plan: Plan, env: RunEnv)
      requires |active| > 0
      modifies this
      ensures State() == RunState(old(State()), active, plan, env)
      ensures progressLog == old(progressLog) + ProgressReports(RunOf(active, plan, env))
    {
      ghost var before := State();
      ghost var log := progressLog;
      var newStats := ZipStats(TotalSize(active), 0, env.startTime, None);
      status := Processing;
      fileCount := |active|;
      SetProgress(0.0);
      zipBlob := None;
      fileName := Some(plan.name);
      controller := Some(false);
      writer := Some([]);
      if plan.readme {
        if env.failure.Some? && env.failure.value.step == AddReadme {
          Catch(env.failure.value.message);
          ReadmeStopState(before, active, plan, env);
          return;
        }
        writer := Some([ReadmeEntry(plan)]);
      }
      WriteFiles(active, plan, env, newStats, before, log);
    }

    /** The file loop of a run whose README step passed, and what follows. */
    method WriteFiles(active: seq<ProcessedFile>, plan: Plan, env: RunEnv, newStats: ZipStats,
                      ghost before: HookState, ghost log: seq<real>)
      requires |active| > 0 && newStats == ZipStats(TotalSize(active), 0, env.startTime, None)
      requires plan.readme ==> !Triggers(env, Write(AddReadme))
      requires status == Processing && progress == 0.0 && progressLog == log + [0.0] && zipBlob == None
      requires fileName == Some(plan.name) && fileCount == |active| && controller == Some(false)
      requires currentFile == before.currentFile && error == before.error && stats == before.stats
      requires writer == Some(if plan.readme then [ReadmeEntry(plan)] else [])
      modifies this
      ensures State() == RunState(before, active, plan, env)
      ensures progressLog == log + ProgressReports(RunOf(active, plan, env))
    {
      var nested := plan.password != "";
      var thrown, d, atAdd := AddFiles(active, plan.level, Scale(nested), env);
      if thrown.Some? {
        Catch(thrown.value);
        ghost var o := OutcomeAt(env, FileEvent(2 * d + (if atAdd then 1 else 0)));
        assert State() ==
               HookState(StatusAfter(o), if d == 0 then 0.0 else Progress(d, |active|, Scale(nested)),
                         if atAdd then active[d].path else if d == 0 then before.currentFile else active[d - 1].path,
                         None, Some(plan.name), |active|, ErrorAfter(o, before.error), before.stats,
                         Some((if plan.readme then [ReadmeEntry(plan)] else []) + FileEntries(active[..d], plan.level)),
                         Some(o.AbortedAt?));
        assert progressLog == log + ([0.0] + Reports(d, |active|, Scale(nested)));
        FilesStopState(before, active, plan, env, d, atAdd);
        return;
      }
      assert writer == Some(ContentEntries(active, plan)) by {
        assert active[..|active|] == active;
      }
      assert progressLog == log + ([0.0] + Reports(|active|, |active|, Scale(nested)));
      WriteTail(active, plan, env, newStats, before, log);
    }

    /** The tail of a run that passed every file step: close the content
        archive (in a container when there is a password), then keep the
        blob unless the run was aborted meanwhile. */
    method WriteTail(active: seq<ProcessedFile>, plan: Plan, env: RunEnv, newStats: ZipStats,
                     ghost before: HookState, ghost log: seq<real>)
      requires |active| > 0 && newStats == ZipStats(TotalSize(active), 0, env.startTime, None)
      requires plan.readme ==> !Triggers(env, Write(AddReadme))
      requires forall j :: 0 <= j < 2 * |active| ==> !Triggers(env, FileEvent(j))
      requires status == Processing && zipBlob == None && controller == Some(false)
      requires progressLog == log + ([0.0] + Reports(|active|, |active|, Scale(Nested(plan))))
      requires progress == Progress(|active|, |active|, Scale(Nested(plan)))
      requires fileName == Some(plan.name) && fileCount == |active|
      requires error == before.error && stats == before.stats
      requires writer == Some(ContentEntries(active, plan))
      modifies this
      ensures State() == RunState(before, active, plan, env)
      ensures progressLog == log + ProgressReports(RunOf(active, plan, env))
    {
      var thrown: Option<string>;
      var entries: seq<ZipEntry>;
      ghost var t: nat;
      if Nested(plan) {
        thrown, entries, t := FinishNested(plan, env);
      } else {
        thrown, entries, t := FinishDirect(env);
      }
      ghost var nested := Nested(plan);
      ghost var scale := Scale(nested);
      if thrown.Some? {
        Catch(thrown.value);
        ghost var o := OutcomeAt(env, TailEvents(nested)[t]);
        ghost var outer := nested && t >= 3;
        assert State() ==
               HookState(StatusAfter(o), if outer then 100.0 else Progress(|active|, |active|, scale),
                         if nested then ENCRYPTING else FINALIZING,
                         None, Some(plan.name), |active|, ErrorAfter(o, before.error), before.stats,
                         Some(if nested && t >= 2 then (if outer then [OuterEntry(plan, ContentEntries(active, plan))] else [])
                              else ContentEntries(active, plan)),
                         Some(o.AbortedAt?));
        assert progressLog == log + ([0.0] + Reports(|active|, |active|, scale) + (if outer then [100.0] else []));
        TailStopState(before, active, plan, env, t);
        return;
      }
      assert entries == if nested then [OuterEntry(plan, ContentEntries(active, plan))] else ContentEntries(active, plan);
      assert progressLog == log + ([0.0] + Reports(|active|, |active|, scale) + (if nested then [100.0] else []));
      if env.abortAt == Some(AfterClose) {
        AbortCompression();
        EndState(before, active, plan, env);
        return;
      }
      zipBlob := Some(Archive(entries, env.blobSize));
      stats := Some(newStats.(compressedSize := env.blobSize, endTime := Some(env.endTime)));
      status := Ready;
      assert zipBlob == Some(FinalArchive(active, plan, env.blobSize));
      EndState(before, active, plan, env);
    }
  }
}
