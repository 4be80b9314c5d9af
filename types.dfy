/** The records and settings the application passes around, after its type
    declarations; plus the two list summaries every component uses:
    `files.filter(f => f.selected)` and the sum of the sizes. */
module Types {

  datatype Option<T> = None | Some(value: T)

  /** The browser `File` object a record reads its bytes from, as an opaque handle. */
  type FileRef = nat

  /** A flat record of one file found in the dropped folder. */
  datatype ProcessedFile = ProcessedFile(file: FileRef, path: string, selected: bool, size: nat)

  /** Compression level 0 (store) to 9 (best). */
  type Level = x: int | 0 <= x <= 9

  /** `password` is optional in the settings; `None` is `undefined`. */
  datatype ZipSettings = ZipSettings(
    password: Option<string>,
    compressionLevel: Level,
    devMode: bool,
    exclusionPatterns: seq<string>,
    addTimestamp: bool,
    readmeContent: string)

  datatype ZipStats = ZipStats(originalSize: nat, compressedSize: nat, startTime: int, endTime: Option<int>)

  /** `Analyzing` is declared by the application but never entered. */
  datatype ZipStatus = Idle | Analyzing | Processing | Ready | Error

  /** A node of the preview tree. */
  datatype FileTreeNode = FileTreeNode(
    id: string,
    name: string,
    path: string,
    isDir: bool,
    size: nat,
    children: ChildNodes,
    selected: bool,
    indeterminate: bool)

  /** The optional `children` array: `Undefined` for a leaf. */
  datatype ChildNodes = Undefined | List(nodes: seq<FileTreeNode>)

  /** `files.filter(f => f.selected)`. */
  function Selected(files: seq<ProcessedFile>): (r: seq<ProcessedFile>)
    ensures |r| <= |files|
    ensures forall f :: f in r ==> f in files && f.selected
    ensures forall f :: f in files && f.selected ==> f in r
    decreases |files|
  {
    if files == [] then []
    else (if files[0].selected then [files[0]] else []) + Selected(files[1..])
  }

  /** `files.reduce((acc, f) => acc + f.size, 0)`. */
  function TotalSize(files: seq<ProcessedFile>): nat
    decreases |files|
  {
    if files == [] then 0 else files[0].size + TotalSize(files[1..])
  }

  /** Nothing is selected exactly when no record has `selected` set. */
  lemma {:induction false} SelectedEmptyIffNoneSelected(files: seq<ProcessedFile>)
    ensures Selected(files) == [] <==> forall i :: 0 <= i < |files| ==> !files[i].selected
  {
    if Selected(files) == [] {
      forall i | 0 <= i < |files| ensures !files[i].selected {
        assert files[i] in files;
      }
    } else {
      var f := Selected(files)[0];
      assert f in Selected(files);
      var i :| 0 <= i < |files| && files[i] == f;
    }
  }

  /** Filtering splits over concatenation. */
  lemma {:induction false} SelectedAppend(a: seq<ProcessedFile>, b: seq<ProcessedFile>)
    ensures Selected(a + b) == Selected(a) + Selected(b)
    decreases |a|
  {
    if a != [] {
      assert (a + b)[1..] == a[1..] + b;
      SelectedAppend(a[1..], b);
    } else {
      assert a + b == b;
    }
  }

  /** Sizes add up over concatenation. */
  lemma {:induction false} TotalSizeAppend(a: seq<ProcessedFile>, b: seq<ProcessedFile>)
    ensures TotalSize(a + b) == TotalSize(a) + TotalSize(b)
    decreases |a|
  {
    if a != [] {
      assert (a + b)[1..] == a[1..] + b;
      TotalSizeAppend(a[1..], b);
    } else {
      assert a + b == b;
    }
  }
}
