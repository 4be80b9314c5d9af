/** The exclusion filter and the walk over dropped folders
    (`utils/fileUtils.ts`). The browser's file-system entries become the
    `Entry` datatype: a file entry carries the `File` its `file()` callback
    would deliver (or `None` when that callback reports an error), and a
    directory entry carries the successive pages its reader's `readEntries`
    would deliver. The callbacks and `Promise.all` then become recursion
    over the entry, in listing order. */
module FileUtils {
  import opened Types
  import opened Strings

  /** The tokens the developer-mode switch adds to the exclusion patterns. */
  const DEV_EXCLUSIONS: seq<string> := ["node_modules", ".git", ".DS_Store", ".env", "dist", "build", ".vscode"]

  // ---------------------------------------------------------------------
  // Exclusion filter

  /** `isExcluded(path, patterns)`: some pattern equals or occurs inside some
      '/'-separated segment of `path`. */
  predicate IsExcluded(path: string, patterns: seq<string>)
  {
    var parts := Split(path);
    exists i :: 0 <= i < |patterns| &&
      exists j :: 0 <= j < |parts| && (parts[j] == patterns[i] || Contains(parts[j], patterns[i]))
  }

  /** The equality test is subsumed by the substring test: a path is excluded
      exactly when one of its segments contains one of the patterns. */
  lemma ExcludedIffSegmentContains(path: string, patterns: seq<string>)
    ensures IsExcluded(path, patterns) <==>
      exists i, j :: 0 <= i < |patterns| && 0 <= j < |Split(path)| && Contains(Split(path)[j], patterns[i])
  {
    var parts := Split(path);
    if IsExcluded(path, patterns) {
      var i, j :| 0 <= i < |patterns| && 0 <= j < |parts| && (parts[j] == patterns[i] || Contains(parts[j], patterns[i]));
      if parts[j] == patterns[i] {
        assert OccursAt(parts[j], patterns[i], 0);
      }
      assert Contains(parts[j], patterns[i]);
      assert 0 <= i < |patterns| && 0 <= j < |Split(path)| && Contains(Split(path)[j], patterns[i]);
    } else {
      forall i, j | 0 <= i < |patterns| && 0 <= j < |parts|
        ensures !Contains(parts[j], patterns[i])
      {
      }
    }
  }

  /** An empty pattern list excludes nothing. */
  lemma NoPatternsExcludeNothing(path: string)
    ensures !IsExcluded(path, [])
  {
  }

  /** An empty pattern occurs in every segment, so it excludes every path. */
  lemma EmptyPatternExcludesAll(path: string, patterns: seq<string>)
    requires "" in patterns
    ensures IsExcluded(path, patterns)
  {
    var i :| 0 <= i < |patterns| && patterns[i] == "";
    var parts := Split(path);
    assert OccursAt(parts[0], patterns[i], 0);
  }

  /** Joining two names with a slash: the result is excluded exactly when
      one of the two names is. */
  lemma ExcludedJoin(a: string, b: string, patterns: seq<string>)
    ensures IsExcluded(a + "/" + b, patterns) <==> IsExcluded(a, patterns) || IsExcluded(b, patterns)
  {
    SplitAtSlash(a, b);
    var pa, pb := Split(a), Split(b);
    var parts := Split(a + "/" + b);
    assert parts == pa + pb;
    if IsExcluded(a + "/" + b, patterns) {
      var i, j :| 0 <= i < |patterns| && 0 <= j < |parts| && (parts[j] == patterns[i] || Contains(parts[j], patterns[i]));
      if j < |pa| {
        assert pa[j] == parts[j];
      } else {
        assert pb[j - |pa|] == parts[j];
      }
    }
    if IsExcluded(a, patterns) {
      var i, j :| 0 <= i < |patterns| && 0 <= j < |pa| && (pa[j] == patterns[i] || Contains(pa[j], patterns[i]));
      assert parts[j] == pa[j];
    }
    if IsExcluded(b, patterns) {
      var i, j :| 0 <= i < |patterns| && 0 <= j < |pb| && (pb[j] == patterns[i] || Contains(pb[j], patterns[i]));
      assert parts[|pa| + j] == pb[j];
    }
  }

  // ---------------------------------------------------------------------
  // File-system entries

  /** The `File` object behind a file entry. */
  datatype FileObj = FileObj(handle: FileRef, name: string, size: nat)

  /** A dropped file-system entry. */
  datatype Entry =
    | FileEntry(name: string, file: Option<FileObj>)
    | DirEntry(name: string, pages: seq<Page>)
    | OtherEntry(name: string)

  /** One call of `readEntries`: a batch of entries, or its error callback. */
  datatype Page = Page(entries: seq<Entry>) | PageError

  /** The outcome of a walk: the flat records, or a rejected promise. */
  datatype Outcome = Files(records: seq<ProcessedFile>) | ReadFailure

  predicate NonEmptyPage(p: Page)
  {
    p.Page? && p.entries != []
  }

  /** The entries of the given pages, in order. */
  function ConcatPages(pages: seq<Page>): seq<Entry>
    decreases |pages|
  {
    if pages == [] then []
    else (if pages[0].Page? then pages[0].entries else []) + ConcatPages(pages[1..])
  }

  /** What the directory reader's loop resolves with: pages are read and
      appended until the first empty page; an error on the way rejects.
      Pages beyond the given ones read as empty. */
  function Listing(pages: seq<Page>): Option<seq<Entry>>
    decreases |pages|
  {
    if pages == [] then Some([])
    else match pages[0]
      case PageError => None
      case Page(es) =>
        if es == [] then Some([])
        else match Listing(pages[1..])
          case None => None
          case Some(rest) => Some(es + rest)
  }

  /** The listing is the concatenation of all pages before the first empty one. */
  lemma {:induction false} ListingUpToEmptyPage(pages: seq<Page>, k: nat)
    requires k <= |pages|
    requires forall p :: p in pages[..k] ==> NonEmptyPage(p)
    requires k == |pages| || pages[k] == Page([])
    ensures Listing(pages) == Some(ConcatPages(pages[..k]))
    decreases k
  {
    if k > 0 {
      assert pages[1..][..k - 1] == pages[..k][1..];
      assert pages[0] in pages[..k];
      ListingUpToEmptyPage(pages[1..], k - 1);
    }
  }

  /** An error before the first empty page rejects the whole listing. */
  lemma {:induction false} ListingFailsOnError(pages: seq<Page>, k: nat)
    requires k < |pages|
    requires forall p :: p in pages[..k] ==> NonEmptyPage(p)
    requires pages[k] == PageError
    ensures Listing(pages) == None
    decreases k
  {
    if k > 0 {
      assert pages[1..][..k - 1] == pages[..k][1..];
      assert pages[0] in pages[..k];
      ListingFailsOnError(pages[1..], k - 1);
    }
  }

  /** Every listed entry comes from one of the pages. */
  lemma {:induction false} ListingFromPages(pages: seq<Page>)
    ensures Listing(pages).Some? ==>
      forall e :: e in Listing(pages).value ==>
        exists k, j :: 0 <= k < |pages| && pages[k].Page? && 0 <= j < |pages[k].entries| && pages[k].entries[j] == e
    decreases |pages|
  {
    if pages != [] && pages[0].Page? && pages[0].entries != [] {
      ListingFromPages(pages[1..]);
      forall e | Listing(pages).Some? && e in Listing(pages).value
        ensures exists k, j :: 0 <= k < |pages| && pages[k].Page? && 0 <= j < |pages[k].entries| && pages[k].entries[j] == e
      {
        if e in pages[0].entries {
          var j :| 0 <= j < |pages[0].entries| && pages[0].entries[j] == e;
        } else {
          var k, j :| 0 <= k < |pages[1..]| && pages[1..][k].Page? && 0 <= j < |pages[1..][k].entries| && pages[1..][k].entries[j] == e;
          assert pages[k + 1] == pages[1..][k];
        }
      }
    }
  }

  /** The directory reader loop: `readEntries` is called again after every
      non-empty batch, each batch is appended to `allEntries`, and the loop
      resolves on the first empty batch or rejects on an error. */
  method ReadEntries(pages: seq<Page>) returns (r: Option<seq<Entry>>)
    ensures r == Listing(pages)
  {
    var allEntries: seq<Entry> := [];
    var i := 0;
    assert pages[0..] == pages;
    assert forall rest: seq<Entry> :: [] + rest == rest;
    while i < |pages| && NonEmptyPage(pages[i])
      invariant 0 <= i <= |pages|
      invariant Listing(pages) == match Listing(pages[i..])
                                  case None => None
                                  case Some(rest) => Some(allEntries + rest)
    {
      assert pages[i..][0] == pages[i];
      assert pages[i..][1..] == pages[i + 1..];
      assert forall rest :: allEntries + (pages[i].entries + rest) == (allEntries + pages[i].entries) + rest;
      allEntries := allEntries + pages[i].entries;
      i := i + 1;
    }
    if i < |pages| {
      assert pages[i..][0] == pages[i];
    } else {
      assert pages[i..] == [];
    }
    assert allEntries + [] == allEntries;
    if i < |pages| && pages[i].PageError? {
      r := None;
    } else {
      r := Some(allEntries);
    }
  }

  // ---------------------------------------------------------------------
  // Traversal

  /** `Promise.all(promises)` followed by `.flat()`: the records of all
      branches in order, or a rejection as soon as one branch rejects. */
  function FlattenAll(rs: seq<Outcome>): (r: Outcome)
    ensures r.Files? <==> forall i :: 0 <= i < |rs| ==> rs[i].Files?
    ensures r.Files? ==> forall x :: x in r.records ==> exists i :: 0 <= i < |rs| && x in rs[i].records
    decreases |rs|
  {
    if rs == [] then Files([])
    else if rs[0].ReadFailure? then ReadFailure
    else match FlattenAll(rs[1..])
      case ReadFailure => ReadFailure
      case Files(rest) => Files(rs[0].records + rest)
  }

  /** `traverseFileTree(entry, path, exclusionPatterns)`. */
  function TraverseFileTree(entry: Entry, path: string, patterns: seq<string>): Outcome
    decreases entry
  {
    if IsExcluded(entry.name, patterns) then Files([])
    else match entry
      case FileEntry(_, file) =>
        (match file
         case None => ReadFailure
         case Some(f) =>
           if IsExcluded(f.name, patterns) then Files([])
           else Files([ProcessedFile(f.handle, path + f.name, true, f.size)]))
      case DirEntry(name, pages) =>
        (match Listing(pages)
         case None => ReadFailure
         case Some(children) =>
           ListingFromPages(pages);
           FlattenAll(seq(|children|, i requires 0 <= i < |children| =>
             assert children[i] in Listing(pages).value;
             TraverseFileTree(children[i], path + name + "/", patterns))))
      case OtherEntry(_) => Files([])
  }

  /** An excluded entry yields nothing and is not read: its result does not
      depend on its contents, even on contents that would fail. */
  lemma ExcludedEntryNotRead(name: string, pages: seq<Page>, file: Option<FileObj>, path: string, patterns: seq<string>)
    requires IsExcluded(name, patterns)
    ensures TraverseFileTree(DirEntry(name, pages), path, patterns) == Files([])
    ensures TraverseFileTree(FileEntry(name, file), path, patterns) == Files([])
  {
  }

  /** A file that passes the filter yields exactly one selected record under
      the caller's prefix. */
  lemma KeptFileYieldsOneRecord(name: string, f: FileObj, path: string, patterns: seq<string>)
    requires !IsExcluded(name, patterns) && !IsExcluded(f.name, patterns)
    ensures TraverseFileTree(FileEntry(name, Some(f)), path, patterns)
      == Files([ProcessedFile(f.handle, path + f.name, true, f.size)])
  {
  }

  /** A resolved `Promise.all(...).flat()` holds every record of every
      branch. */
  lemma {:induction false} FlattenAllHolds(rs: seq<Outcome>, i: nat)
    requires i < |rs| && FlattenAll(rs).Files?
    ensures forall x :: x in rs[i].records ==> x in FlattenAll(rs).records
    decreases |rs|
  {
    if i > 0 {
      assert rs[1..][i - 1] == rs[i];
      FlattenAllHolds(rs[1..], i - 1);
    }
  }

  /** `f` is the `File` of some file entry reached from `entry` through the
      children the directory readers list. */
  ghost predicate HasFile(entry: Entry, f: FileObj)
    decreases entry
  {
    match entry
    case FileEntry(_, file) => file == Some(f)
    case DirEntry(_, pages) =>
      (match Listing(pages)
       case None => false
       case Some(children) =>
         ListingFromPages(pages);
         exists c :: c in children && HasFile(c, f))
    case OtherEntry(_) => false
  }

  /** What every record of a walk from `entry` under prefix `path` is: its
      path extends the prefix, the relative part passes the exclusion filter
      as a whole, it is selected, and it stands for a file of the tree (a
      directory never yields a record of its own) whose name ends the path. */
  ghost predicate RecordOf(entry: Entry, path: string, patterns: seq<string>, r: ProcessedFile)
  {
    && StartsWith(r.path, path)
    && !IsExcluded(r.path[|path|..], patterns)
    && r.selected
    && exists f :: HasFile(entry, f) && r.file == f.handle && r.size == f.size && EndsWith(r.path, f.name)
  }

  /** A record of a listed child of a kept directory is a record of the
      directory. */
  lemma LiftRecord(name: string, pages: seq<Page>, path: string, patterns: seq<string>, c: Entry, r: ProcessedFile)
    requires !IsExcluded(name, patterns)
    requires Listing(pages).Some? && c in Listing(pages).value
    requires RecordOf(c, path + name + "/", patterns, r)
    ensures RecordOf(DirEntry(name, pages), path, patterns, r)
  {
    var prefix := path + name + "/";
    assert r.path[..|prefix|] == prefix;
    assert r.path[..|path|] == path;
    var rest := r.path[|prefix|..];
    assert r.path[|path|..] == name + "/" + rest;
    ExcludedJoin(name, rest, patterns);
    var f :| HasFile(c, f) && r.file == f.handle && r.size == f.size && EndsWith(r.path, f.name);
    assert HasFile(DirEntry(name, pages), f);
  }

  /** Every record of a walk is a `RecordOf` the walked entry. */
  lemma {:induction false} TraverseSound(entry: Entry, path: string, patterns: seq<string>)
    ensures TraverseFileTree(entry, path, patterns).Files? ==>
      forall r :: r in TraverseFileTree(entry, path, patterns).records ==> RecordOf(entry, path, patterns, r)
    decreases entry
  {
    var out := TraverseFileTree(entry, path, patterns);
    if !IsExcluded(entry.name, patterns) && out.Files? {
      match entry
      case FileEntry(_, file) =>
        if out.records != [] {
          var f := file.value;
          var r := out.records[0];
          assert r.path[|path|..] == f.name;
          assert HasFile(entry, f);
        }
      case DirEntry(name, pages) =>
        var children := Listing(pages).value;
        ListingFromPages(pages);
        var prefix := path + name + "/";
        var rs := seq(|children|, i requires 0 <= i < |children| => TraverseFileTree(children[i], prefix, patterns));
        assert out == FlattenAll(rs);
        forall r | r in out.records
          ensures RecordOf(entry, path, patterns, r)
        {
          var i :| 0 <= i < |rs| && r in rs[i].records;
          assert children[i] in Listing(pages).value;
          TraverseSound(children[i], prefix, patterns);
          LiftRecord(name, pages, path, patterns, children[i], r);
        }
      case OtherEntry(_) =>
    }
  }

  /** `f` is a kept file reached from `entry` under prefix `path`, with
      record path `p`: every directory on the way passes the filter and
      lists the next entry, the file entry and the file's own name pass the
      filter, and `p` is the prefix accumulated on the way plus the name. */
  ghost predicate KeptFileAt(entry: Entry, path: string, patterns: seq<string>, f: FileObj, p: string)
    decreases entry
  {
    && !IsExcluded(entry.name, patterns)
    && match entry
       case FileEntry(_, file) => file == Some(f) && !IsExcluded(f.name, patterns) && p == path + f.name
       case DirEntry(name, pages) =>
         (match Listing(pages)
          case None => false
          case Some(children) =>
            ListingFromPages(pages);
            exists c :: c in children && KeptFileAt(c, path + name + "/", patterns, f, p))
       case OtherEntry(_) => false
  }

  /** Completeness: a walk that resolves yields the record of every kept
      file it reaches. */
  lemma {:induction false} TraverseComplete(entry: Entry, path: string, patterns: seq<string>, f: FileObj, p: string)
    requires TraverseFileTree(entry, path, patterns).Files?
    requires KeptFileAt(entry, path, patterns, f, p)
    ensures ProcessedFile(f.handle, p, true, f.size) in TraverseFileTree(entry, path, patterns).records
    decreases entry
  {
    match entry
    case FileEntry(_, _) =>
    case DirEntry(name, pages) =>
      var children := Listing(pages).value;
      ListingFromPages(pages);
      var prefix := path + name + "/";
      var c :| c in children && KeptFileAt(c, prefix, patterns, f, p);
      var i :| 0 <= i < |children| && children[i] == c;
      var rs := seq(|children|, k requires 0 <= k < |children| => TraverseFileTree(children[k], prefix, patterns));
      assert TraverseFileTree(entry, path, patterns) == FlattenAll(rs);
      assert rs[i] == TraverseFileTree(c, prefix, patterns);
      TraverseComplete(c, prefix, patterns, f, p);
      FlattenAllHolds(rs, i);
  }

  /** Soundness in the same terms: every record of a walk is the record of
      a kept file it reaches. */
  lemma {:induction false} TraverseKeptOnly(entry: Entry, path: string, patterns: seq<string>)
    ensures TraverseFileTree(entry, path, patterns).Files? ==>
      forall r :: r in TraverseFileTree(entry, path, patterns).records ==>
        exists f :: KeptFileAt(entry, path, patterns, f, r.path) && r == ProcessedFile(f.handle, r.path, true, f.size)
    decreases entry
  {
    var out := TraverseFileTree(entry, path, patterns);
    if !IsExcluded(entry.name, patterns) && out.Files? {
      match entry
      case FileEntry(_, file) =>
        if out.records != [] {
          assert KeptFileAt(entry, path, patterns, file.value, out.records[0].path);
        }
      case DirEntry(name, pages) =>
        var children := Listing(pages).value;
        ListingFromPages(pages);
        var prefix := path + name + "/";
        var rs := seq(|children|, i requires 0 <= i < |children| => TraverseFileTree(children[i], prefix, patterns));
        assert out == FlattenAll(rs);
        forall r | r in out.records
          ensures exists f :: KeptFileAt(entry, path, patterns, f, r.path) && r == ProcessedFile(f.handle, r.path, true, f.size)
        {
          var i :| 0 <= i < |rs| && r in rs[i].records;
          assert children[i] in Listing(pages).value;
          TraverseKeptOnly(children[i], prefix, patterns);
          var f :| KeptFileAt(children[i], prefix, patterns, f, r.path) && r == ProcessedFile(f.handle, r.path, true, f.size);
          assert KeptFileAt(entry, path, patterns, f, r.path);
        }
      case OtherEntry(_) =>
    }
  }

  /** The records of a resolved walk are exactly the records of the kept
      files it reaches. */
  lemma TraverseExact(entry: Entry, path: string, patterns: seq<string>, r: ProcessedFile)
    requires TraverseFileTree(entry, path, patterns).Files?
    ensures r in TraverseFileTree(entry, path, patterns).records <==>
      exists f :: KeptFileAt(entry, path, patterns, f, r.path) && r == ProcessedFile(f.handle, r.path, true, f.size)
  {
    TraverseKeptOnly(entry, path, patterns);
    if f :| KeptFileAt(entry, path, patterns, f, r.path) && r == ProcessedFile(f.handle, r.path, true, f.size) {
      TraverseComplete(entry, path, patterns, f, r.path);
    }
  }

  // ---------------------------------------------------------------------
  // Dropped items

  /** One item of the drop's `DataTransferItemList`: its `kind`, the entry
      `webkitGetAsEntry`/`getAsEntry` gives (if any), and the `File` that
      `getAsFile` gives (if any). */
  datatype DropItem = DropItem(kind: string, entry: Option<Entry>, file: Option<FileObj>)

  /** What the drop loop pushes for one item, if anything. */
  function ItemPromise(item: DropItem, exclusions: seq<string>): Option<Outcome>
  {
    if item.kind != "file" then None
    else match item.entry
      case Some(e) => Some(TraverseFileTree(e, "", exclusions))
      case None =>
        match item.file
        case None => None
        case Some(f) =>
          if IsExcluded(f.name, exclusions) then None
          else Some(Files([ProcessedFile(f.handle, f.name, true, f.size)]))
  }

  /** The promises pushed for the items, in item order. */
  function PushedPromises(items: seq<DropItem>, exclusions: seq<string>): seq<Outcome>
    decreases |items|
  {
    if items == [] then []
    else
      var init := PushedPromises(items[..|items| - 1], exclusions);
      match ItemPromise(items[|items| - 1], exclusions)
      case None => init
      case Some(p) => init + [p]
  }

  /** `getFilesFromDataTransferItems(items, exclusions)`: the loop over the
      items collecting one promise per usable item, then `Promise.all` and
      `.flat()`. */
  method GetFilesFromDataTransferItems(items: seq<DropItem>, exclusions: seq<string>) returns (r: Outcome)
    ensures r == FlattenAll(PushedPromises(items, exclusions))
  {
    var filePromises: seq<Outcome> := [];
    for i := 0 to |items|
      invariant filePromises == PushedPromises(items[..i], exclusions)
    {
      assert items[..i + 1][..i] == items[..i];
      var item := items[i];
      if item.kind == "file" {
        if item.entry.Some? {
          filePromises := filePromises + [TraverseFileTree(item.entry.value, "", exclusions)];
        } else {
          if item.file.Some? {
            var file := item.file.value;
            if !IsExcluded(file.name, exclusions) {
              filePromises := filePromises + [Files([ProcessedFile(file.handle, file.name, true, file.size)])];
            }
          }
        }
      }
    }
    assert items[..|items|] == items;
    r := FlattenAll(filePromises);
  }

  /** Every record of a drop is selected and its whole path passes the filter. */
  lemma {:induction false} DroppedRecordsPassFilter(items: seq<DropItem>, exclusions: seq<string>)
    ensures FlattenAll(PushedPromises(items, exclusions)).Files? ==>
      forall r :: r in FlattenAll(PushedPromises(items, exclusions)).records ==>
        r.selected && !IsExcluded(r.path, exclusions)
    decreases |items|
  {
    var ps := PushedPromises(items, exclusions);
    forall r | FlattenAll(ps).Files? && r in FlattenAll(ps).records
      ensures r.selected && !IsExcluded(r.path, exclusions)
    {
      var i :| 0 <= i < |ps| && r in ps[i].records;
      PromiseFromItem(items, exclusions, i);
      var k :| 0 <= k < |items| && ItemPromise(items[k], exclusions) == Some(ps[i]);
      var item := items[k];
      if item.entry.Some? {
        TraverseSound(item.entry.value, "", exclusions);
        assert RecordOf(item.entry.value, "", exclusions, r);
        assert r.path[|""|..] == r.path;
      }
    }
  }

  /** Each pushed promise is the promise of one of the items. */
  lemma {:induction false} PromiseFromItem(items: seq<DropItem>, exclusions: seq<string>, i: nat)
    requires i < |PushedPromises(items, exclusions)|
    ensures exists k :: 0 <= k < |items| && ItemPromise(items[k], exclusions) == Some(PushedPromises(items, exclusions)[i])
    decreases |items|
  {
    var init := items[..|items| - 1];
    var ps := PushedPromises(init, exclusions);
    if i < |ps| {
      PromiseFromItem(init, exclusions, i);
      var k :| 0 <= k < |init| && ItemPromise(init[k], exclusions) == Some(ps[i]);
      assert items[k] == init[k];
    } else {
      assert ItemPromise(items[|items| - 1], exclusions).Some?;
    }
  }

  /** Each usable item's promise is among the pushed ones. */
  lemma {:induction false} ItemPushed(items: seq<DropItem>, exclusions: seq<string>, k: nat)
    requires k < |items| && ItemPromise(items[k], exclusions).Some?
    ensures ItemPromise(items[k], exclusions).value in PushedPromises(items, exclusions)
    decreases |items|
  {
    var init := items[..|items| - 1];
    if k < |init| {
      assert items[k] == init[k];
      ItemPushed(init, exclusions, k);
    }
  }

  /** A drop that resolves holds the record of every kept file reached from
      the entry of any of its file items. */
  lemma DroppedRecordsComplete(items: seq<DropItem>, exclusions: seq<string>, k: nat, f: FileObj, p: string)
    requires FlattenAll(PushedPromises(items, exclusions)).Files?
    requires k < |items| && items[k].kind == "file" && items[k].entry.Some?
    requires KeptFileAt(items[k].entry.value, "", exclusions, f, p)
    ensures ProcessedFile(f.handle, p, true, f.size) in FlattenAll(PushedPromises(items, exclusions)).records
  {
    var ps := PushedPromises(items, exclusions);
    ItemPushed(items, exclusions, k);
    var i :| 0 <= i < |ps| && ps[i] == TraverseFileTree(items[k].entry.value, "", exclusions);
    TraverseComplete(items[k].entry.value, "", exclusions, f, p);
    FlattenAllHolds(ps, i);
  }

  // ---------------------------------------------------------------------
  // Byte formatting

  /** `formatBytes(bytes)` for the one case that does not go through
      floating-point logarithms: zero renders as "0 B". Other sizes give
      `None` here. */
  function FormatBytes(bytes: nat): (r: Option<string>)
    ensures r.Some? <==> bytes == 0
    ensures r.Some? ==> r.value == "0 B"
  {
    if bytes == 0 then Some("0 B") else None
  }
}
