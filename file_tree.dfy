/** `buildFileTree` of `utils/fileUtils.ts`: the flat records become a forest.

    The first phase fills a dictionary from node id to node and a list of
    root ids, walking every record's path segment by segment; a node's
    children are kept as the ids of the child nodes, so that overwriting a
    node in the dictionary is seen through every list that holds its id,
    as it is through object references in the source. The second phase
    (`calcStats`) recomputes, bottom-up, the size and the selected /
    indeterminate state of every directory reachable from the roots.

    The dictionary phase is specified by the sequence of "steps" the nested
    loops visit (one per path segment of each record, in order): a node
    exists for every step key, takes its kind and name from the step that
    created it (the first with that key), its size and selection from the
    last step that wrote it as a file, and its children are the keys created
    under it, in the order they were first seen. */
module FileTree {
  import opened Types
  import opened Strings

  // ---------------------------------------------------------------------
  // Steps of the dictionary loop

  /** `currentPath ? `${currentPath}/${part}` : part`: an empty accumulated
      path is falsy and is not followed by a slash. */
  function NextKey(cur: string, part: string): string
  {
    if cur == "" then part else cur + "/" + part
  }

  /** The key built from a path segment, with the key before it (`parent`),
      whether it is the first segment (`index === 0`) and the last one
      (`isFile`), and the record's size and selection. */
  datatype Step = Step(key: string, parent: string, part: string, first: bool, last: bool, size: nat, selected: bool)

  function StepsFrom(parts: seq<string>, j: nat, cur: string, f: ProcessedFile): (r: seq<Step>)
    requires j <= |parts|
    ensures |r| == |parts| - j
    decreases |parts| - j
  {
    if j == |parts| then []
    else
      var key := NextKey(cur, parts[j]);
      [Step(key, cur, parts[j], j == 0, j == |parts| - 1, f.size, f.selected)] + StepsFrom(parts, j + 1, key, f)
  }

  /** The steps of one record. */
  function FileSteps(f: ProcessedFile): seq<Step>
  {
    StepsFrom(Split(f.path), 0, "", f)
  }

  /** The steps of all records, in order. */
  function AllSteps(files: seq<ProcessedFile>): seq<Step>
    decreases |files|
  {
    if files == [] then [] else AllSteps(files[..|files| - 1]) + FileSteps(files[|files| - 1])
  }

  // ---------------------------------------------------------------------
  // What the dictionary holds after a sequence of steps

  /** The keys of the steps. */
  function Keys(ss: seq<Step>): set<string>
    decreases |ss|
  {
    if ss == [] then {} else Keys(ss[..|ss| - 1]) + {ss[|ss| - 1].key}
  }

  /** The step that first met key `k`: it created the node. */
  function Creation(ss: seq<Step>, k: string): (s: Step)
    requires k in Keys(ss)
    ensures s in ss && s.key == k
    decreases |ss|
  {
    if k in Keys(ss[..|ss| - 1]) then Creation(ss[..|ss| - 1], k) else ss[|ss| - 1]
  }

  /** The last step that met key `k` as the last segment of a record. */
  function LastWrite(ss: seq<Step>, k: string): (w: Option<Step>)
    ensures w.Some? ==> w.value in ss && w.value.key == k && w.value.last
    decreases |ss|
  {
    if ss == [] then None
    else if ss[|ss| - 1].key == k && ss[|ss| - 1].last then Some(ss[|ss| - 1])
    else LastWrite(ss[..|ss| - 1], k)
  }

  /** Which newly created keys a list collects: the roots, or the children
      of one node. */
  datatype Filter = RootsOnly | ChildrenOf(parent: string)

  predicate Accepts(sel: Filter, s: Step)
  {
    match sel
    case RootsOnly => s.first
    case ChildrenOf(p) => !s.first && s.parent == p
  }

  /** Keys in the order they were first met, keeping those whose creating
      step `sel` accepts. */
  function NewKeys(ss: seq<Step>, sel: Filter): seq<string>
    decreases |ss|
  {
    if ss == [] then []
    else
      var init, s := ss[..|ss| - 1], ss[|ss| - 1];
      if s.key !in Keys(init) && Accepts(sel, s) then NewKeys(init, sel) + [s.key] else NewKeys(init, sel)
  }

  /** `root`: keys created by the first segment of a record. */
  function RootIds(ss: seq<Step>): seq<string>
  {
    NewKeys(ss, RootsOnly)
  }

  /** The ids pushed into `k`'s children: keys created under `k`. */
  function ChildIds(ss: seq<Step>, k: string): seq<string>
  {
    NewKeys(ss, ChildrenOf(k))
  }

  /** A dictionary entry. `children` holds ids and is `None` for a leaf. */
  datatype MapNode = MapNode(id: string, name: string, isDir: bool, size: nat, children: Option<seq<string>>, selected: bool)

  /** The dictionary entry for key `k` after the steps `ss`. */
  function NodeOf(ss: seq<Step>, k: string): MapNode
    requires k in Keys(ss)
  {
    var c := Creation(ss, k);
    var w := LastWrite(ss, k);
    MapNode(k, c.part, !c.last,
            if w.Some? then w.value.size else 0,
            if c.last then None else Some(ChildIds(ss, k)),
            if w.Some? then w.value.selected else true)
  }

  /** The whole dictionary after the steps `ss`. */
  function SpecMap(ss: seq<Step>): map<string, MapNode>
  {
    map k | k in Keys(ss) :: NodeOf(ss, k)
  }

  /** Every step after the first segment of a record names a parent key that
      is already in the dictionary. */
  ghost predicate ParentsKnown(ss: seq<Step>)
    decreases |ss|
  {
    ss == [] ||
    (ParentsKnown(ss[..|ss| - 1]) && (ss[|ss| - 1].first || ss[|ss| - 1].parent in Keys(ss[..|ss| - 1])))
  }

  /** Children ids name nodes of the dictionary with strictly longer ids, so
      the child lists form a forest. */
  ghost predicate TreeShaped(nodes: map<string, MapNode>)
  {
    forall k :: k in nodes && nodes[k].children.Some? ==>
      forall c :: c in nodes[k].children.value ==> c in nodes && |c| > |k|
  }

  // ---------------------------------------------------------------------
  // One step at a time

  lemma KeysMonotone(ss: seq<Step>, s: Step)
    ensures (ss + [s])[..|ss|] == ss && (ss + [s])[|ss|] == s
    ensures Keys(ss + [s]) == Keys(ss) + {s.key}
  {
    assert (ss + [s])[..|ss|] == ss;
  }

  /** A key not in the dictionary yet has no children pushed under it. */
  lemma {:induction false} NoChildrenBeforeCreation(ss: seq<Step>, k: string)
    requires ParentsKnown(ss) && k !in Keys(ss)
    ensures ChildIds(ss, k) == []
    decreases |ss|
  {
    if ss != [] {
      NoChildrenBeforeCreation(ss[..|ss| - 1], k);
    }
  }

  /** One step extends the key list filtered by `sel` only with a new key it accepts. */
  lemma NewKeysStep(ss: seq<Step>, s: Step, sel: Filter)
    ensures NewKeys(ss + [s], sel) == if s.key !in Keys(ss) && Accepts(sel, s) then NewKeys(ss, sel) + [s.key] else NewKeys(ss, sel)
  {
    KeysMonotone(ss, s);
  }

  /** One step keeps the creating step of every key already there and
      records its own last-segment write. */
  lemma CreationLastWriteStep(ss: seq<Step>, s: Step, k: string)
    ensures k in Keys(ss) ==> Creation(ss + [s], k) == Creation(ss, k)
    ensures k !in Keys(ss) && k == s.key ==> Creation(ss + [s], k) == s
    ensures LastWrite(ss + [s], k) == if s.key == k && s.last then Some(s) else LastWrite(ss, k)
  {
    KeysMonotone(ss, s);
  }

  /** A step with a new key creates its node: a leaf holding the record's
      size and selection, or an empty selected directory. */
  lemma StepNewNode(ss: seq<Step>, s: Step)
    requires ParentsKnown(ss) && s.key !in Keys(ss)
    requires s.first || s.parent in Keys(ss)
    ensures s.key in Keys(ss + [s])
    ensures NodeOf(ss + [s], s.key) == MapNode(s.key, s.part, !s.last, if s.last then s.size else 0,
                                               if s.last then None else Some([]), if s.last then s.selected else true)
  {
    KeysMonotone(ss, s);
    CreationLastWriteStep(ss, s, s.key);
    NoChildrenBeforeCreation(ss, s.key);
    NewKeysStep(ss, s, ChildrenOf(s.key));
    assert LastWrite(ss, s.key) == None by {
      if LastWrite(ss, s.key).Some? {
        KeysHaveSteps(ss, LastWrite(ss, s.key).value);
      }
    }
    assert Creation(ss + [s], s.key) == s;
    assert LastWrite(ss + [s], s.key) == if s.last then Some(s) else None;
    assert ChildIds(ss + [s], s.key) == [];
  }

  /** Every step's key is a key. */
  lemma {:induction false} KeysHaveSteps(ss: seq<Step>, t: Step)
    requires t in ss
    ensures t.key in Keys(ss)
    decreases |ss|
  {
    if t != ss[|ss| - 1] {
      assert ss == ss[..|ss| - 1] + [ss[|ss| - 1]];
      KeysHaveSteps(ss[..|ss| - 1], t);
    }
  }

  /** A step that meets an existing key as the last segment overwrites that
      node's size and selection; otherwise the node is unchanged. */
  lemma StepExistingNode(ss: seq<Step>, s: Step)
    requires s.key in Keys(ss)
    ensures s.key in Keys(ss + [s])
    ensures NodeOf(ss + [s], s.key) == if s.last then NodeOf(ss, s.key).(size := s.size, selected := s.selected)
                                       else NodeOf(ss, s.key)
  {
    KeysMonotone(ss, s);
    CreationLastWriteStep(ss, s, s.key);
    NewKeysStep(ss, s, ChildrenOf(s.key));
  }

  /** Any other node changes only when it is the directory a new node is
      pushed under. */
  lemma StepOtherNode(ss: seq<Step>, s: Step, k: string)
    requires k in Keys(ss) && k != s.key
    ensures k in Keys(ss + [s])
    ensures NodeOf(ss + [s], k) ==
        if s.key !in Keys(ss) && !s.first && s.parent == k && NodeOf(ss, k).children.Some?
        then NodeOf(ss, k).(children := Some(NodeOf(ss, k).children.value + [s.key]))
        else NodeOf(ss, k)
  {
    KeysMonotone(ss, s);
    CreationLastWriteStep(ss, s, k);
    NewKeysStep(ss, s, ChildrenOf(k));
  }

  /** The state of the dictionary loop, tied to the steps taken so far. */
  ghost predicate Invariant(nodes: map<string, MapNode>, root: seq<string>, done: seq<Step>)
  {
    && nodes.Keys == Keys(done)
    && (forall k :: k in nodes ==> nodes[k] == NodeOf(done, k))
    && root == RootIds(done)
    && ParentsKnown(done)
    && TreeShaped(nodes)
    && (forall r :: r in root ==> r in nodes)
  }

  /** The node a step with a new key creates: a leaf holding the record's
      size and selection, or an empty, selected directory. */
  function NewNode(s: Step): MapNode
  {
    MapNode(s.key, s.part, !s.last, if s.last then s.size else 0,
            if s.last then None else Some([]), if s.last then s.selected else true)
  }

  /** `parent.children.push(node)` on a directory entry. */
  function Attach(parent: MapNode, child: string): MapNode
    requires parent.children.Some?
  {
    parent.(children := Some(parent.children.value + [child]))
  }

  /** A step whose key is new: the node is created, and pushed to the roots
      or to the children of its parent when that parent is a directory. */
  lemma NewKeyKeepsInvariant(nodes: map<string, MapNode>, root: seq<string>, done: seq<Step>, s: Step,
                             nodes': map<string, MapNode>, root': seq<string>)
    requires Invariant(nodes, root, done)
    requires s.key !in nodes && (s.first || s.parent in nodes) && s.key == NextKey(s.parent, s.part)
    requires nodes' == if !s.first && nodes[s.parent].children.Some?
                       then nodes[s.key := NewNode(s)][s.parent := Attach(nodes[s.parent], s.key)]
                       else nodes[s.key := NewNode(s)]
    requires root' == if s.first then root + [s.key] else root
    ensures Invariant(nodes', root', done + [s])
  {
    var done' := done + [s];
    KeysMonotone(done, s);
    assert ParentsKnown(done');
    assert root' == RootIds(done') by { NewKeysStep(done, s, RootsOnly); }
    assert nodes'.Keys == Keys(done');
    NewKeyEntries(nodes, done, s, nodes');
    NewKeyShape(nodes, s, nodes');
  }

  lemma NewKeyEntries(nodes: map<string, MapNode>, done: seq<Step>, s: Step, nodes': map<string, MapNode>)
    requires nodes.Keys == Keys(done) && (forall k :: k in nodes ==> nodes[k] == NodeOf(done, k)) && ParentsKnown(done)
    requires s.key !in nodes && (s.first || s.parent in nodes)
    requires nodes' == if !s.first && nodes[s.parent].children.Some?
                       then nodes[s.key := NewNode(s)][s.parent := Attach(nodes[s.parent], s.key)]
                       else nodes[s.key := NewNode(s)]
    ensures forall k :: k in nodes' ==> k in Keys(done + [s]) && nodes'[k] == NodeOf(done + [s], k)
  {
    var attach := !s.first && nodes[s.parent].children.Some?;
    KeysMonotone(done, s);
    forall k | k in nodes' ensures k in Keys(done + [s]) && nodes'[k] == NodeOf(done + [s], k) {
      if k == s.key {
        StepNewNode(done, s);
      } else if attach && k == s.parent {
        assert nodes'[k] == Attach(nodes[k], s.key);
        StepOtherNode(done, s, k);
      } else {
        assert nodes'[k] == nodes[k];
        StepOtherNode(done, s, k);
      }
    }
  }

  lemma NewKeyShape(nodes: map<string, MapNode>, s: Step, nodes': map<string, MapNode>)
    requires TreeShaped(nodes)
    requires s.key !in nodes && (s.first || s.parent in nodes) && s.key == NextKey(s.parent, s.part)
    requires nodes' == if !s.first && nodes[s.parent].children.Some?
                       then nodes[s.key := NewNode(s)][s.parent := Attach(nodes[s.parent], s.key)]
                       else nodes[s.key := NewNode(s)]
    ensures TreeShaped(nodes')
  {
    var attach := !s.first && nodes[s.parent].children.Some?;
    assert !s.first ==> |s.key| > |s.parent|;
    forall k, c | k in nodes' && nodes'[k].children.Some? && c in nodes'[k].children.value
      ensures c in nodes' && |c| > |k|
    {
      if k == s.key {
      } else if attach && k == s.parent {
        if c != s.key {
          assert c in nodes[k].children.value;
        }
      } else {
        assert c in nodes[k].children.value;
      }
    }
  }

  /** A step whose key exists: the node is overwritten when the step is the
      last segment of its record, and nothing else changes. */
  lemma OldKeyKeepsInvariant(nodes: map<string, MapNode>, root: seq<string>, done: seq<Step>, s: Step,
                             nodes': map<string, MapNode>)
    requires Invariant(nodes, root, done)
    requires s.key in nodes && (s.first || s.parent in nodes)
    requires nodes' == if s.last then nodes[s.key := nodes[s.key].(size := s.size, selected := s.selected)] else nodes
    ensures Invariant(nodes', root, done + [s])
  {
    var done' := done + [s];
    KeysMonotone(done, s);
    assert ParentsKnown(done');
    assert root == RootIds(done') by { NewKeysStep(done, s, RootsOnly); }
    assert nodes'.Keys == Keys(done');
    forall k | k in nodes' ensures nodes'[k] == NodeOf(done', k) {
      if k != s.key {
        StepOtherNode(done, s, k);
      } else {
        StepExistingNode(done, s);
      }
    }
    assert TreeShaped(nodes') by {
      forall k | k in nodes' && nodes'[k].children.Some?
        ensures nodes'[k].children == nodes[k].children
      {
      }
    }
  }

  /** The loop's dictionary is the specified one. */
  lemma InvariantMap(nodes: map<string, MapNode>, root: seq<string>, done: seq<Step>)
    requires Invariant(nodes, root, done)
    ensures nodes == SpecMap(done)
  {
  }

  lemma SnocThenAppend(a: seq<Step>, s: Step, b: seq<Step>)
    ensures (a + [s]) + b == a + ([s] + b)
  {
  }

  /** The dictionary loop: for every record, walk its segments (see
      `InsertRecord`). */
  method BuildMap(files: seq<ProcessedFile>) returns (nodes: map<string, MapNode>, root: seq<string>)
    ensures nodes == SpecMap(AllSteps(files))
    ensures root == RootIds(AllSteps(files))
    ensures TreeShaped(nodes)
    ensures forall r :: r in root ==> r in nodes
  {
    nodes := map[];
    root := [];
    for i := 0 to |files|
      invariant Invariant(nodes, root, AllSteps(files[..i]))
    {
      assert files[..i + 1][..i] == files[..i];
      nodes, root := InsertRecord(nodes, root, files[i], AllSteps(files[..i]));
    }
    assert files[..|files|] == files;
    InvariantMap(nodes, root, AllSteps(files));
  }

  /** One pass of the outer loop: walk the record's segments, accumulating
      the path, and insert each (see `InsertSegment`). */
  method InsertRecord(nodesIn: map<string, MapNode>, rootIn: seq<string>, f: ProcessedFile, ghost done0: seq<Step>)
    returns (nodes: map<string, MapNode>, root: seq<string>)
    requires Invariant(nodesIn, rootIn, done0)
    ensures Invariant(nodes, root, done0 + FileSteps(f))
  {
    nodes, root := nodesIn, rootIn;
    ghost var done := done0;
    var parts := Split(f.path);
    var currentPath := "";
    for j := 0 to |parts|
      invariant done + StepsFrom(parts, j, currentPath, f) == done0 + FileSteps(f)
      invariant Invariant(nodes, root, done)
      invariant j == 0 ==> currentPath == ""
      invariant j > 0 ==> currentPath in nodes
    {
      var part := parts[j];
      var isFile := j == |parts| - 1;
      var parentPath := currentPath;
      currentPath := if currentPath != "" then currentPath + "/" + part else part;
      ghost var s := Step(currentPath, parentPath, part, j == 0, isFile, f.size, f.selected);
      assert StepsFrom(parts, j, parentPath, f) == [s] + StepsFrom(parts, j + 1, currentPath, f);
      nodes, root := InsertSegment(nodes, root, currentPath, parentPath, part, j == 0, isFile, f, done);
      SnocThenAppend(done, s, StepsFrom(parts, j + 1, currentPath, f));
      done := done + [s];
    }
    assert done + [] == done;
  }

  /** The body of the inner loop, for the accumulated path `currentPath`
      made of `parentPath` and the segment `part`: a new path gets a node (a
      leaf when `isFile`, a directory otherwise) that is pushed to the roots
      when it is the first segment and otherwise to the children of its
      parent, if that parent is a directory; an existing path met as the last
      segment has its size and selection overwritten. */
  method InsertSegment(nodesIn: map<string, MapNode>, rootIn: seq<string>, currentPath: string, parentPath: string,
                       part: string, first: bool, isFile: bool, f: ProcessedFile, ghost done: seq<Step>)
    returns (nodes: map<string, MapNode>, root: seq<string>)
    requires Invariant(nodesIn, rootIn, done)
    requires first || parentPath in nodesIn
    requires currentPath == NextKey(parentPath, part)
    ensures Invariant(nodes, root, done + [Step(currentPath, parentPath, part, first, isFile, f.size, f.selected)])
    ensures currentPath in nodes
  {
    ghost var s := Step(currentPath, parentPath, part, first, isFile, f.size, f.selected);
    nodes, root := nodesIn, rootIn;
    if currentPath !in nodes {
      var node := MapNode(currentPath, part, !isFile, if isFile then f.size else 0,
                          if isFile then None else Some([]), if isFile then f.selected else true);
      nodes := nodes[currentPath := node];
      if first {
        root := root + [currentPath];
      } else if parentPath in nodes && nodes[parentPath].children.Some? {
        var parent := nodes[parentPath];
        nodes := nodes[parentPath := parent.(children := Some(parent.children.value + [currentPath]))];
      }
      NewKeyKeepsInvariant(nodesIn, rootIn, done, s, nodes, root);
    } else {
      if isFile {
        nodes := nodes[currentPath := nodes[currentPath].(size := f.size, selected := f.selected)];
      }
      OldKeyKeepsInvariant(nodesIn, rootIn, done, s, nodes);
    }
  }

  // ---------------------------------------------------------------------
  // calcStats and the forest

  /** Ids in the dictionary longer than `n`: shrinks along child lists. */
  function Longer(nodes: map<string, MapNode>, n: nat): set<string>
  {
    set k | k in nodes && |k| > n
  }

  lemma LongerShrinks(nodes: map<string, MapNode>, id: string, c: string)
    requires c in nodes && |c| > |id|
    ensures |Longer(nodes, |c|)| < |Longer(nodes, |id|)|
  {
    var big, small := Longer(nodes, |id|), Longer(nodes, |c|);
    assert small <= big - {c};
    assert big == small + (big - small);
    assert c in big - small;
  }

  /** `every(c => c.selected)` over the children. */
  predicate AllSelected(kids: seq<FileTreeNode>)
  {
    forall i :: 0 <= i < |kids| ==> kids[i].selected
  }

  /** `some(c => c.selected || c.indeterminate)` over the children. */
  predicate AnyActive(kids: seq<FileTreeNode>)
  {
    exists i :: 0 <= i < |kids| && (kids[i].selected || kids[i].indeterminate)
  }

  /** `reduce((acc, c) => acc + c.size, 0)` over the children. */
  function SumSizes(kids: seq<FileTreeNode>): nat
    decreases |kids|
  {
    if kids == [] then 0 else kids[0].size + SumSizes(kids[1..])
  }

  /** The aggregate invariant of the preview tree: a directory with children
      is as large as their sizes together, is selected exactly when all of
      them are, and is indeterminate exactly when not all of them are
      selected but at least one is selected or indeterminate; a leaf and a
      childless directory are never indeterminate. */
  ghost predicate Consistent(t: FileTreeNode)
    decreases t
  {
    match t.children
    case Undefined => !t.indeterminate
    case List(kids) =>
      && (forall k :: k in kids ==> Consistent(k))
      && t.size == SumSizes(kids)
      && (|kids| > 0 ==> (t.selected <==> forall i :: 0 <= i < |kids| ==> kids[i].selected))
      && (|kids| > 0 ==> (t.indeterminate <==>
            (exists i :: 0 <= i < |kids| && !kids[i].selected)
            && (exists i :: 0 <= i < |kids| && (kids[i].selected || kids[i].indeterminate))))
      && (|kids| == 0 ==> !t.indeterminate)
  }

  /** `t` is the dictionary entry `t.id` with its child ids replaced by the
      nodes themselves, in the same order; the leaves, and the selection of
      a childless directory, are copied unchanged. */
  ghost predicate Mirrors(t: FileTreeNode, nodes: map<string, MapNode>)
    decreases t
  {
    && t.id in nodes && t.path == t.id
    && t.name == nodes[t.id].name && t.isDir == nodes[t.id].isDir
    && match t.children
       case Undefined =>
         nodes[t.id].children.None? && t.size == nodes[t.id].size && t.selected == nodes[t.id].selected
       case List(kids) =>
         && nodes[t.id].children.Some?
         && |kids| == |nodes[t.id].children.value|
         && (forall i :: 0 <= i < |kids| ==> kids[i].id == nodes[t.id].children.value[i])
         && (forall k :: k in kids ==> Mirrors(k, nodes))
         && (kids == [] ==> t.selected == nodes[t.id].selected)
  }

  /** `calcStats` on the node with id `id`: the children first, then the
      directory's own size, selection and indeterminate flag. */
  function CalcNode(nodes: map<string, MapNode>, id: string): (t: FileTreeNode)
    requires TreeShaped(nodes) && id in nodes
    ensures t.id == id && Mirrors(t, nodes) && Consistent(t)
    decreases |Longer(nodes, |id|)|
  {
    var n := nodes[id];
    match n.children
    case None => FileTreeNode(id, n.name, id, n.isDir, n.size, Undefined, n.selected, false)
    case Some(cs) =>
      var kids := seq(|cs|, i requires 0 <= i < |cs| =>
                    LongerShrinks(nodes, id, cs[i]);
                    CalcNode(nodes, cs[i]));
      DirNode(nodes, id, kids)
  }

  /** The directory `id` of the dictionary over its finished children
      `kids`: their sizes added up, selected when all of them are,
      indeterminate when not all are but some are selected or
      indeterminate; a directory without children keeps its own selection. */
  function DirNode(nodes: map<string, MapNode>, id: string, kids: seq<FileTreeNode>): (t: FileTreeNode)
    requires id in nodes && nodes[id].children.Some? && |kids| == |nodes[id].children.value|
    requires forall i :: 0 <= i < |kids| ==>
               kids[i].id == nodes[id].children.value[i] && Mirrors(kids[i], nodes) && Consistent(kids[i])
    ensures t.id == id && Mirrors(t, nodes) && Consistent(t)
  {
    var n := nodes[id];
    if |kids| > 0 then
      var all := AllSelected(kids);
      FileTreeNode(id, n.name, id, n.isDir, SumSizes(kids), List(kids), all, !all && AnyActive(kids))
    else
      FileTreeNode(id, n.name, id, n.isDir, 0, List(kids), n.selected, false)
  }

  /** `buildFileTree`: the dictionary loop, then `calcStats` on every root. */
  method BuildFileTree(files: seq<ProcessedFile>) returns (forest: seq<FileTreeNode>)
    ensures TreeShaped(SpecMap(AllSteps(files)))
    ensures forall r :: r in RootIds(AllSteps(files)) ==> r in SpecMap(AllSteps(files))
    ensures forest == seq(|RootIds(AllSteps(files))|, i requires 0 <= i < |RootIds(AllSteps(files))| =>
                          CalcNode(SpecMap(AllSteps(files)), RootIds(AllSteps(files))[i]))
    ensures |forest| == |RootIds(AllSteps(files))|
    ensures forall i :: 0 <= i < |forest| ==>
      && forest[i].id == RootIds(AllSteps(files))[i]
      && Mirrors(forest[i], SpecMap(AllSteps(files)))
      && Consistent(forest[i])
  {
    var nodes, root := BuildMap(files);
    forest := seq(|root|, i requires 0 <= i < |root| => CalcNode(nodes, root[i]));
  }

  // ---------------------------------------------------------------------
  // What the forest promises

  function SumNats(xs: seq<nat>): nat
    decreases |xs|
  {
    if xs == [] then 0 else xs[0] + SumNats(xs[1..])
  }

  /** The sizes of the leaves below `t`, added up (a leaf counts itself). */
  function LeafSum(t: FileTreeNode): nat
    decreases t
  {
    match t.children
    case Undefined => t.size
    case List(kids) => SumNats(seq(|kids|, i requires 0 <= i < |kids| => LeafSum(kids[i])))
  }

  /** A terminal node is a leaf or a directory without children: every
      terminal node below `t` is selected. */
  ghost predicate AllTerminalsSelected(t: FileTreeNode)
    decreases t
  {
    match t.children
    case Undefined => t.selected
    case List(kids) => if kids == [] then t.selected else forall k :: k in kids ==> AllTerminalsSelected(k)
  }

  /** Some terminal node below `t` is selected. */
  ghost predicate SomeTerminalSelected(t: FileTreeNode)
    decreases t
  {
    match t.children
    case Undefined => t.selected
    case List(kids) => if kids == [] then t.selected else exists k :: k in kids && SomeTerminalSelected(k)
  }

  lemma {:induction false} SumSizesPointwise(kids: seq<FileTreeNode>)
    requires forall i :: 0 <= i < |kids| ==> kids[i].size == LeafSum(kids[i])
    ensures SumSizes(kids) == SumNats(seq(|kids|, i requires 0 <= i < |kids| => LeafSum(kids[i])))
    decreases |kids|
  {
    if kids != [] {
      SumSizesPointwise(kids[1..]);
      var xs := seq(|kids|, i requires 0 <= i < |kids| => LeafSum(kids[i]));
      assert xs[1..] == seq(|kids[1..]|, i requires 0 <= i < |kids[1..]| => LeafSum(kids[1..][i]));
    }
  }

  /** After `calcStats` a node's size is the total size of the leaves below it. */
  lemma {:induction false} SizeIsLeafSum(t: FileTreeNode)
    requires Consistent(t)
    ensures t.size == LeafSum(t)
    decreases t
  {
    match t.children
    case Undefined =>
    case List(kids) =>
      forall i | 0 <= i < |kids| ensures kids[i].size == LeafSum(kids[i]) {
        assert kids[i] in kids;
        SizeIsLeafSum(kids[i]);
      }
      SumSizesPointwise(kids);
  }

  /** After `calcStats` the check box states follow the terminal nodes: a node
      is selected exactly when every terminal node below it is, it is
      selected or indeterminate exactly when some terminal node below it is
      selected, and it is never both selected and indeterminate. */
  lemma {:induction false} SelectionFollowsTerminals(t: FileTreeNode)
    requires Consistent(t)
    ensures t.selected <==> AllTerminalsSelected(t)
    ensures (t.selected || t.indeterminate) <==> SomeTerminalSelected(t)
    ensures !(t.selected && t.indeterminate)
    decreases t
  {
    match t.children
    case Undefined =>
    case List(kids) =>
      forall k | k in kids
        ensures (k.selected <==> AllTerminalsSelected(k)) && ((k.selected || k.indeterminate) <==> SomeTerminalSelected(k))
      {
        SelectionFollowsTerminals(k);
      }
      if kids != [] {
        if t.selected {
          assert kids[0] in kids;
        }
        if SomeTerminalSelected(t) {
          var k :| k in kids && SomeTerminalSelected(k);
          var i :| 0 <= i < |kids| && kids[i] == k;
        }
        if t.selected || t.indeterminate {
          var i :| 0 <= i < |kids| && (kids[i].selected || kids[i].indeterminate);
          assert kids[i] in kids;
        }
      }
  }

  // ---------------------------------------------------------------------
  // What the dictionary promises

  /** The position of the step that created key `k`. */
  function FirstIndex(ss: seq<Step>, k: string): (r: nat)
    requires k in Keys(ss)
    ensures r < |ss| && ss[r] == Creation(ss, k)
    ensures forall i :: 0 <= i < r ==> ss[i].key != k
    decreases |ss|
  {
    var init := ss[..|ss| - 1];
    if k in Keys(init) then FirstIndex(init, k)
    else
      KeysComplete(init);
      |ss| - 1
  }

  /** Every step's key is a key, and every key is some step's. */
  lemma {:induction false} KeysComplete(ss: seq<Step>)
    ensures forall i :: 0 <= i < |ss| ==> ss[i].key in Keys(ss)
    ensures forall k :: k in Keys(ss) ==> exists i :: 0 <= i < |ss| && ss[i].key == k
    decreases |ss|
  {
    if ss != [] {
      var init := ss[..|ss| - 1];
      KeysComplete(init);
      forall k | k in Keys(ss) ensures exists i :: 0 <= i < |ss| && ss[i].key == k {
        if k in Keys(init) {
          var i :| 0 <= i < |init| && init[i].key == k;
          assert ss[i].key == k;
        } else {
          assert ss[|ss| - 1].key == k;
        }
      }
    }
  }

  /** A list of new keys holds exactly the keys whose creating step it
      accepts, each once, in the order they were created. */
  lemma {:induction false} NewKeysSpec(ss: seq<Step>, sel: Filter)
    ensures forall x :: x in NewKeys(ss, sel) <==> x in Keys(ss) && Accepts(sel, Creation(ss, x))
    ensures forall i, j :: 0 <= i < j < |NewKeys(ss, sel)| ==>
      FirstIndex(ss, NewKeys(ss, sel)[i]) < FirstIndex(ss, NewKeys(ss, sel)[j])
    decreases |ss|
  {
    if ss != [] {
      var init, s := ss[..|ss| - 1], ss[|ss| - 1];
      NewKeysSpec(init, sel);
      var nk, nk0 := NewKeys(ss, sel), NewKeys(init, sel);
      forall x | x in nk0 ensures x in Keys(init) && FirstIndex(ss, x) == FirstIndex(init, x) {
      }
      if s.key !in Keys(init) && Accepts(sel, s) {
        assert nk == nk0 + [s.key];
        forall i, j | 0 <= i < j < |nk| ensures FirstIndex(ss, nk[i]) < FirstIndex(ss, nk[j]) {
          assert nk[i] == nk0[i];
          if j < |nk0| {
            assert nk[j] == nk0[j];
          }
        }
      }
    }
  }

  /** The root ids are the keys created by a first path segment, in the order
      they were created, each once. */
  lemma RootsAreFirstSegmentKeys(ss: seq<Step>)
    ensures forall r :: r in RootIds(ss) <==> r in Keys(ss) && Creation(ss, r).first
    ensures forall i, j :: 0 <= i < j < |RootIds(ss)| ==> FirstIndex(ss, RootIds(ss)[i]) < FirstIndex(ss, RootIds(ss)[j])
  {
    NewKeysSpec(ss, RootsOnly);
  }

  /** The children of `p` are the keys created right under `p` by a later
      path segment, in the order they were created, each once. */
  lemma ChildrenAreKeysCreatedUnder(ss: seq<Step>, p: string)
    ensures forall c :: c in ChildIds(ss, p) <==> c in Keys(ss) && !Creation(ss, c).first && Creation(ss, c).parent == p
    ensures forall i, j :: 0 <= i < j < |ChildIds(ss, p)| ==>
      FirstIndex(ss, ChildIds(ss, p)[i]) < FirstIndex(ss, ChildIds(ss, p)[j])
  {
    NewKeysSpec(ss, ChildrenOf(p));
  }

  /** A node sits in at most one place of the forest: never both among the
      roots and in a child list, and in the child list of one node only. A
      node whose parent is a leaf sits nowhere. */
  lemma NodePlacement(ss: seq<Step>, k: string)
    requires k in Keys(ss)
    ensures k in RootIds(ss) ==> forall q :: q in Keys(ss) && NodeOf(ss, q).children.Some? ==> k !in NodeOf(ss, q).children.value
    ensures forall q1, q2 ::
      (q1 in Keys(ss) && q2 in Keys(ss) && NodeOf(ss, q1).children.Some? && NodeOf(ss, q2).children.Some?
       && k in NodeOf(ss, q1).children.value && k in NodeOf(ss, q2).children.value) ==> q1 == q2
    ensures var c := Creation(ss, k);
            !c.first && c.parent in Keys(ss) && NodeOf(ss, c.parent).children.None? ==>
              k !in RootIds(ss) && forall q :: q in Keys(ss) && NodeOf(ss, q).children.Some? ==> k !in NodeOf(ss, q).children.value
  {
    RootsAreFirstSegmentKeys(ss);
    forall q | q in Keys(ss) {
      ChildrenAreKeysCreatedUnder(ss, q);
    }
  }

  // ---------------------------------------------------------------------
  // Keys are path prefixes

  /** The accumulated `currentPath` after the segments `parts`. */
  function PrefixKey(parts: seq<string>): string
    decreases |parts|
  {
    if parts == [] then "" else NextKey(PrefixKey(parts[..|parts| - 1]), parts[|parts| - 1])
  }

  /** The accumulated path after segment `m` of `path`. */
  function SegmentKey(path: string, m: nat): string
    requires m < |Split(path)|
  {
    PrefixKey(Split(path)[..m + 1])
  }

  /** The `m`-th step of a record is the segment `parts[m]` with the
      accumulated paths before and after it. */
  lemma {:induction false} StepsFromShape(parts: seq<string>, j: nat, cur: string, f: ProcessedFile, m: nat)
    requires j <= m < |parts| && cur == PrefixKey(parts[..j])
    ensures StepsFrom(parts, j, cur, f)[m - j] ==
      Step(PrefixKey(parts[..m + 1]), PrefixKey(parts[..m]), parts[m], m == 0, m == |parts| - 1, f.size, f.selected)
    decreases m - j
  {
    assert parts[..j + 1][..j] == parts[..j];
    if m > j {
      StepsFromShape(parts, j + 1, NextKey(cur, parts[j]), f, m);
    }
  }

  /** Every step is made of a slash-free segment and the key before it. */
  lemma FileStepShape(f: ProcessedFile, s: Step)
    requires s in FileSteps(f)
    ensures s.key == NextKey(s.parent, s.part) && '/' !in s.part
    ensures exists m :: 0 <= m < |Split(f.path)| && s.key == SegmentKey(f.path, m)
  {
    var parts := Split(f.path);
    var m :| 0 <= m < |FileSteps(f)| && FileSteps(f)[m] == s;
    StepsFromShape(parts, 0, "", f, m);
    assert parts[..m + 1][..m] == parts[..m];
    assert s.key == SegmentKey(f.path, m);
  }

  /** The steps of all records are the steps of each record. */
  lemma {:induction false} InAllSteps(files: seq<ProcessedFile>, s: Step)
    ensures s in AllSteps(files) <==> exists i :: 0 <= i < |files| && s in FileSteps(files[i])
    decreases |files|
  {
    if files != [] {
      var init := files[..|files| - 1];
      InAllSteps(init, s);
      if s in AllSteps(files) && s !in AllSteps(init) {
        assert s in FileSteps(files[|files| - 1]);
      }
      if exists i :: 0 <= i < |files| && s in FileSteps(files[i]) {
        var i :| 0 <= i < |files| && s in FileSteps(files[i]);
        if i < |files| - 1 {
          assert files[i] == init[i];
        }
      }
    }
  }

  /** Every node's name is a slash-free segment its id ends with, after a
      slash unless the node sits right under the empty accumulated path. */
  lemma NodeNames(files: seq<ProcessedFile>, k: string)
    requires k in Keys(AllSteps(files))
    ensures var n := NodeOf(AllSteps(files), k);
            n.id == k && '/' !in n.name && (k == n.name || EndsWith(k, "/" + n.name))
  {
    var c := Creation(AllSteps(files), k);
    InAllSteps(files, c);
    var i :| 0 <= i < |files| && c in FileSteps(files[i]);
    FileStepShape(files[i], c);
  }

  /** Every node is the accumulated path of some segment of some record. */
  lemma NodesArePathPrefixes(files: seq<ProcessedFile>, k: string)
    requires k in Keys(AllSteps(files))
    ensures exists i, m :: 0 <= i < |files| && 0 <= m < |Split(files[i].path)| && k == SegmentKey(files[i].path, m)
  {
    var ss := AllSteps(files);
    KeysComplete(ss);
    var x :| 0 <= x < |ss| && ss[x].key == k;
    InAllSteps(files, ss[x]);
    var i :| 0 <= i < |files| && ss[x] in FileSteps(files[i]);
    FileStepShape(files[i], ss[x]);
  }

  /** The accumulated path of every segment of every record is a node. */
  lemma PathPrefixesAreNodes(files: seq<ProcessedFile>, i: nat, m: nat)
    requires i < |files| && m < |Split(files[i].path)|
    ensures SegmentKey(files[i].path, m) in Keys(AllSteps(files))
  {
    StepsFromShape(Split(files[i].path), 0, "", files[i], m);
    InAllSteps(files, FileSteps(files[i])[m]);
    KeysHaveSteps(AllSteps(files), FileSteps(files[i])[m]);
  }

  lemma {:induction false} JoinSnoc(ps: seq<string>, x: string)
    requires |ps| >= 1
    ensures Join(ps + [x]) == Join(ps) + "/" + x
    ensures StartsWith(Join(ps), ps[0])
    decreases |ps|
  {
    assert (ps + [x])[1..] == ps[1..] + [x];
    if |ps| > 1 {
      JoinSnoc(ps[1..], x);
    }
  }

  /** When the first segment is not empty, the accumulated path of a prefix
      is the segments joined with slashes. */
  lemma {:induction false} PrefixKeyIsJoin(parts: seq<string>, m: nat)
    requires 1 <= m <= |parts| && parts[0] != ""
    ensures PrefixKey(parts[..m]) == Join(parts[..m])
    decreases m
  {
    if m > 1 {
      PrefixKeyIsJoin(parts, m - 1);
      assert parts[..m][..m - 1] == parts[..m - 1];
      JoinSnoc(parts[..m - 1], parts[m - 1]);
      assert parts[..m - 1] + [parts[m - 1]] == parts[..m];
    } else {
      assert parts[..1][..0] == [];
    }
  }

  /** The key of a record's last segment, where its size and selection go. */
  function LeafKey(f: ProcessedFile): string
  {
    PrefixKey(Split(f.path))
  }

  /** A path that does not start with a slash is its own leaf key. */
  lemma LeafKeyIsPath(f: ProcessedFile)
    requires f.path != "" && f.path[0] != '/'
    ensures LeafKey(f) == f.path
  {
    var parts := Split(f.path);
    assert parts[0] != "" by {
      assert f.path == [f.path[0]] + f.path[1..];
    }
    PrefixKeyIsJoin(parts, |parts|);
    assert parts[..|parts|] == parts;
    JoinSplit(f.path);
  }

  // ---------------------------------------------------------------------
  // Repeated paths

  /** Steps that meet only existing keys add no node and no root, and only
      overwrite the size and selection of the keys they meet as a last
      segment. */
  lemma {:induction false} ExistingStepsOverwrite(ss: seq<Step>, rest: seq<Step>, size: nat, selected: bool)
    requires forall s :: s in rest ==> s.key in Keys(ss) && s.size == size && s.selected == selected
    ensures Keys(ss + rest) == Keys(ss)
    ensures RootIds(ss + rest) == RootIds(ss)
    ensures forall k :: k in Keys(ss) ==>
      NodeOf(ss + rest, k) == if exists s :: s in rest && s.key == k && s.last
                              then NodeOf(ss, k).(size := size, selected := selected)
                              else NodeOf(ss, k)
    decreases |rest|
  {
    if rest == [] {
      assert ss + rest == ss;
    } else {
      var init, s := rest[..|rest| - 1], rest[|rest| - 1];
      assert rest == init + [s];
      ExistingStepsOverwrite(ss, init, size, selected);
      assert ss + rest == (ss + init) + [s];
      KeysMonotone(ss + init, s);
      NewKeysStep(ss + init, s, RootsOnly);
      forall k | k in Keys(ss)
        ensures NodeOf(ss + rest, k) == if exists t :: t in rest && t.key == k && t.last
                                        then NodeOf(ss, k).(size := size, selected := selected)
                                        else NodeOf(ss, k)
      {
        if k == s.key {
          StepExistingNode(ss + init, s);
        } else {
          StepOtherNode(ss + init, s, k);
        }
      }
    }
  }

  /** Two records with the same path take the same steps but for size and
      selection. */
  lemma SamePathSameKeys(f: ProcessedFile, g: ProcessedFile, s: Step)
    requires f.path == g.path && s in FileSteps(g)
    ensures s.(size := f.size, selected := f.selected) in FileSteps(f)
  {
    var parts := Split(f.path);
    var m :| 0 <= m < |FileSteps(g)| && FileSteps(g)[m] == s;
    StepsFromShape(parts, 0, "", f, m);
    StepsFromShape(parts, 0, "", g, m);
  }

  /** The last step of a record is the one step it marks as a last segment,
      and it carries the record's leaf key. */
  lemma LastStepOfRecord(f: ProcessedFile)
    ensures forall s :: s in FileSteps(f) && s.last ==> s.key == LeafKey(f)
    ensures exists s :: s in FileSteps(f) && s.last && s.key == LeafKey(f)
  {
    var parts, rest := Split(f.path), FileSteps(f);
    forall s | s in rest && s.last ensures s.key == LeafKey(f) {
      var m :| 0 <= m < |rest| && rest[m] == s;
      StepsFromShape(parts, 0, "", f, m);
      assert parts[..m + 1] == parts;
    }
    var last := |parts| - 1;
    StepsFromShape(parts, 0, "", f, last);
    assert parts[..last + 1] == parts;
    assert rest[last] in rest;
  }

  /** The keys a record's steps meet are already keys once a record with the
      same path has been inserted, and all its steps carry its size and
      selection. */
  lemma RepeatedStepsExist(files: seq<ProcessedFile>, f: ProcessedFile, i: nat)
    requires i < |files| && files[i].path == f.path
    ensures forall s :: s in FileSteps(f) ==> s.key in Keys(AllSteps(files)) && s.size == f.size && s.selected == f.selected
  {
    var parts, rest := Split(f.path), FileSteps(f);
    forall s | s in rest ensures s.key in Keys(AllSteps(files)) && s.size == f.size && s.selected == f.selected {
      var m :| 0 <= m < |rest| && rest[m] == s;
      StepsFromShape(parts, 0, "", f, m);
      StepsFromShape(parts, 0, "", files[i], m);
      InAllSteps(files, FileSteps(files[i])[m]);
      KeysHaveSteps(AllSteps(files), FileSteps(files[i])[m]);
    }
  }

  /** Two dictionaries over the same keys that agree but on one entry. */
  lemma SpecMapOverwrite(ss: seq<Step>, ss': seq<Step>, leaf: string, n: MapNode)
    requires Keys(ss') == Keys(ss) && leaf in Keys(ss)
    requires forall k :: k in Keys(ss) ==> NodeOf(ss', k) == if k == leaf then n else NodeOf(ss, k)
    ensures SpecMap(ss') == SpecMap(ss)[leaf := n]
  {
  }

  /** A record whose path was seen before adds no node and no root: it only
      overwrites the size and selection of the node of its last segment. */
  lemma {:induction false} RepeatedPathOverwritesLeaf(files: seq<ProcessedFile>, f: ProcessedFile)
    requires exists i :: 0 <= i < |files| && files[i].path == f.path
    ensures LeafKey(f) in Keys(AllSteps(files))
    ensures Keys(AllSteps(files + [f])) == Keys(AllSteps(files))
    ensures RootIds(AllSteps(files + [f])) == RootIds(AllSteps(files))
    ensures SpecMap(AllSteps(files + [f])) ==
      SpecMap(AllSteps(files))[LeafKey(f) := NodeOf(AllSteps(files), LeafKey(f)).(size := f.size, selected := f.selected)]
  {
    var ss, rest := AllSteps(files), FileSteps(f);
    var i :| 0 <= i < |files| && files[i].path == f.path;
    assert (files + [f])[..|files|] == files;
    assert AllSteps(files + [f]) == ss + rest;
    RepeatedStepsExist(files, f, i);
    LastStepOfRecord(f);
    ExistingStepsOverwrite(ss, rest, f.size, f.selected);
    SpecMapOverwrite(ss, ss + rest, LeafKey(f), NodeOf(ss, LeafKey(f)).(size := f.size, selected := f.selected));
  }

  // ---------------------------------------------------------------------
  // A worked example

  /** The two steps of a record `x/y`. */
  lemma TwoSegmentSteps(f: ProcessedFile, x: string, y: string)
    requires '/' !in x && '/' !in y && x != "" && f.path == x + "/" + y
    ensures FileSteps(f) == [Step(x, "", x, true, false, f.size, f.selected), Step(x + "/" + y, x, y, false, true, f.size, f.selected)]
  {
    SplitAtSlash(x, y);
    SplitNoSlash(x);
    SplitNoSlash(y);
    var parts := Split(f.path);
    assert parts == [x, y];
    assert StepsFrom(parts, 2, x + "/" + y, f) == [];
    assert StepsFrom(parts, 1, x, f) == [Step(x + "/" + y, x, y, false, true, f.size, f.selected)];
  }

  /** Two files `x/y1` and `x/y2` under one folder `x`. */
  ghost predicate TwoSiblings(f1: ProcessedFile, f2: ProcessedFile, x: string, y1: string, y2: string)
  {
    && '/' !in x && '/' !in y1 && '/' !in y2 && x != "" && y1 != y2
    && f1.path == x + "/" + y1 && f2.path == x + "/" + y2
  }

  /** The steps the loop takes for two files under one folder. */
  lemma TwoFilesSteps(f1: ProcessedFile, f2: ProcessedFile, x: string, y1: string, y2: string)
    requires TwoSiblings(f1, f2, x, y1, y2)
    ensures AllSteps([f1, f2]) == SiblingSteps(f1, f2, x, y1, y2)
  {
    TwoSegmentSteps(f1, x, y1);
    TwoSegmentSteps(f2, x, y2);
    assert [f1, f2][..1] == [f1];
    assert [f1][..0] == [];
    assert AllSteps([f1]) == [] + FileSteps(f1);
  }

  /** The three keys of two sibling files are distinct. */
  lemma SiblingKeysDistinct(x: string, y1: string, y2: string)
    requires y1 != y2
    ensures x != x + "/" + y1 && x != x + "/" + y2 && x + "/" + y1 != x + "/" + y2
  {
    assert (x + "/" + y1)[|x| + 1..] == y1;
    assert (x + "/" + y2)[|x| + 1..] == y2;
    assert |x + "/" + y1| > |x|;
  }

  /** The four steps of two sibling files, as `TwoFilesSteps` finds them. */
  function SiblingSteps(f1: ProcessedFile, f2: ProcessedFile, x: string, y1: string, y2: string): seq<Step>
  {
    [Step(x, "", x, true, false, f1.size, f1.selected), Step(x + "/" + y1, x, y1, false, true, f1.size, f1.selected),
     Step(x, "", x, true, false, f2.size, f2.selected), Step(x + "/" + y2, x, y2, false, true, f2.size, f2.selected)]
  }

  /** The keys and roots after each of the four steps. */
  lemma SiblingKeys(f1: ProcessedFile, f2: ProcessedFile, x: string, y1: string, y2: string)
    requires y1 != y2
    ensures var ss := SiblingSteps(f1, f2, x, y1, y2);
            && Keys(ss[..1]) == {x} && Keys(ss[..2]) == {x, x + "/" + y1} && Keys(ss[..3]) == {x, x + "/" + y1}
            && Keys(ss) == {x, x + "/" + y1, x + "/" + y2}
            && ParentsKnown(ss[..1]) && ParentsKnown(ss[..2]) && ParentsKnown(ss[..3])
            && RootIds(ss) == [x]
  {
    var ss := SiblingSteps(f1, f2, x, y1, y2);
    SiblingKeysDistinct(x, y1, y2);
    assert ss[..0] == [] && ss[..1] == ss[..0] + [ss[0]] && ss[..2] == ss[..1] + [ss[1]];
    assert ss[..3] == ss[..2] + [ss[2]] && ss == ss[..3] + [ss[3]];
    KeysMonotone(ss[..0], ss[0]);
    KeysMonotone(ss[..1], ss[1]);
    KeysMonotone(ss[..2], ss[2]);
    KeysMonotone(ss[..3], ss[3]);
    assert RootIds(ss) == [x] by {
      NewKeysStep(ss[..0], ss[0], RootsOnly);
      NewKeysStep(ss[..1], ss[1], RootsOnly);
      NewKeysStep(ss[..2], ss[2], RootsOnly);
      NewKeysStep(ss[..3], ss[3], RootsOnly);
    }
  }

  /** The folder entry after the four steps. */
  lemma SiblingFolderNode(f1: ProcessedFile, f2: ProcessedFile, x: string, y1: string, y2: string)
    requires y1 != y2
    ensures x in Keys(SiblingSteps(f1, f2, x, y1, y2))
    ensures NodeOf(SiblingSteps(f1, f2, x, y1, y2), x) == MapNode(x, x, true, 0, Some([x + "/" + y1, x + "/" + y2]), true)
  {
    var ss := SiblingSteps(f1, f2, x, y1, y2);
    var k1, k2 := x + "/" + y1, x + "/" + y2;
    SiblingKeysDistinct(x, y1, y2);
    SiblingKeys(f1, f2, x, y1, y2);
    assert ss[..0] == [] && ss[..1] == ss[..0] + [ss[0]] && ss[..2] == ss[..1] + [ss[1]];
    assert ss[..3] == ss[..2] + [ss[2]] && ss == ss[..3] + [ss[3]];
    assert NodeOf(ss[..1], x) == MapNode(x, x, true, 0, Some([]), true) by {
      StepNewNode(ss[..0], ss[0]);
    }
    assert NodeOf(ss[..2], x) == MapNode(x, x, true, 0, Some([k1]), true) by {
      StepOtherNode(ss[..1], ss[1], x);
      assert [] + [k1] == [k1];
    }
    assert NodeOf(ss[..3], x) == NodeOf(ss[..2], x) by {
      StepExistingNode(ss[..2], ss[2]);
    }
    StepOtherNode(ss[..3], ss[3], x);
    assert [k1] + [k2] == [k1, k2];
  }

  /** The two file entries after the four steps. */
  lemma SiblingFileNodes(f1: ProcessedFile, f2: ProcessedFile, x: string, y1: string, y2: string)
    requires y1 != y2
    ensures x + "/" + y1 in Keys(SiblingSteps(f1, f2, x, y1, y2)) && x + "/" + y2 in Keys(SiblingSteps(f1, f2, x, y1, y2))
    ensures NodeOf(SiblingSteps(f1, f2, x, y1, y2), x + "/" + y1) == MapNode(x + "/" + y1, y1, false, f1.size, None, f1.selected)
    ensures NodeOf(SiblingSteps(f1, f2, x, y1, y2), x + "/" + y2) == MapNode(x + "/" + y2, y2, false, f2.size, None, f2.selected)
  {
    var ss := SiblingSteps(f1, f2, x, y1, y2);
    var k1 := x + "/" + y1;
    SiblingKeysDistinct(x, y1, y2);
    SiblingKeys(f1, f2, x, y1, y2);
    assert ss[..2] == ss[..1] + [ss[1]] && ss[..3] == ss[..2] + [ss[2]] && ss == ss[..3] + [ss[3]];
    StepNewNode(ss[..1], ss[1]);
    StepOtherNode(ss[..2], ss[2], k1);
    StepOtherNode(ss[..3], ss[3], k1);
    StepNewNode(ss[..3], ss[3]);
  }

  /** The dictionary the loop fills for two files under one folder. */
  lemma TwoFilesDictionary(f1: ProcessedFile, f2: ProcessedFile, x: string, y1: string, y2: string)
    requires TwoSiblings(f1, f2, x, y1, y2)
    ensures RootIds(AllSteps([f1, f2])) == [x]
    ensures SpecMap(AllSteps([f1, f2])) ==
      map[x := MapNode(x, x, true, 0, Some([x + "/" + y1, x + "/" + y2]), true),
          x + "/" + y1 := MapNode(x + "/" + y1, y1, false, f1.size, None, f1.selected),
          x + "/" + y2 := MapNode(x + "/" + y2, y2, false, f2.size, None, f2.selected)]
  {
    TwoFilesSteps(f1, f2, x, y1, y2);
    SiblingKeys(f1, f2, x, y1, y2);
    SiblingFolderNode(f1, f2, x, y1, y2);
    SiblingFileNodes(f1, f2, x, y1, y2);
    SpecMapIs(SiblingSteps(f1, f2, x, y1, y2),
      map[x := MapNode(x, x, true, 0, Some([x + "/" + y1, x + "/" + y2]), true),
          x + "/" + y1 := MapNode(x + "/" + y1, y1, false, f1.size, None, f1.selected),
          x + "/" + y2 := MapNode(x + "/" + y2, y2, false, f2.size, None, f2.selected)]);
  }

  lemma SpecMapIs(ss: seq<Step>, m: map<string, MapNode>)
    requires Keys(ss) == m.Keys && forall k :: k in m ==> NodeOf(ss, k) == m[k]
    ensures SpecMap(ss) == m
  {
  }

  /** A consistent mirror of a directory whose two children are leaves, as
      `calcStats` produces it. */
  lemma TwoLeavesStats(nodes: map<string, MapNode>, t: FileTreeNode, k1: string, k2: string)
    requires Mirrors(t, nodes) && Consistent(t) && k1 in nodes && k2 in nodes
    requires nodes[t.id].children == Some([k1, k2])
    requires nodes[k1].children.None? && nodes[k2].children.None?
    ensures t.size == nodes[k1].size + nodes[k2].size
    ensures t.selected == (nodes[k1].selected && nodes[k2].selected)
    ensures t.indeterminate == (nodes[k1].selected != nodes[k2].selected)
  {
    var kids: seq<FileTreeNode>;
    assert t.children.List? && |t.children.nodes| == 2 by {
      assert Mirrors(t, nodes);
    }
    kids := t.children.nodes;
    var b, c := kids[0], kids[1];
    assert b.id == k1 && c.id == k2 && Mirrors(b, nodes) && Mirrors(c, nodes) by {
      assert Mirrors(t, nodes);
      assert b in kids && c in kids;
    }
    assert !b.indeterminate && !c.indeterminate by {
      assert Consistent(t);
      assert b in kids && c in kids;
      assert b.children.Undefined? && c.children.Undefined?;
    }
    assert b.size == nodes[k1].size && b.selected == nodes[k1].selected;
    assert c.size == nodes[k2].size && c.selected == nodes[k2].selected;
    assert SumSizes(kids) == b.size + c.size by {
      assert kids[1..] == [c] && [c][1..] == [];
      assert SumSizes([c]) == c.size + SumSizes([]);
    }
    assert Consistent(t);
  }

  /** The dictionary of two sibling files is tree-shaped. */
  lemma TwoFilesShape(f1: ProcessedFile, f2: ProcessedFile, x: string, y1: string, y2: string)
    requires TwoSiblings(f1, f2, x, y1, y2)
    ensures TreeShaped(SpecMap(AllSteps([f1, f2])))
  {
    TwoFilesDictionary(f1, f2, x, y1, y2);
    SiblingKeysDistinct(x, y1, y2);
  }

  /** Two files under one folder, the first selected and the second not: the
      folder is the only root, as large as both files, not selected and
      indeterminate. */
  lemma TwoFilesExample(f1: ProcessedFile, f2: ProcessedFile, x: string, y1: string, y2: string)
    requires TwoSiblings(f1, f2, x, y1, y2) && f1.selected && !f2.selected
    ensures RootIds(AllSteps([f1, f2])) == [x]
    ensures TreeShaped(SpecMap(AllSteps([f1, f2]))) && x in SpecMap(AllSteps([f1, f2]))
    ensures var t := CalcNode(SpecMap(AllSteps([f1, f2])), x);
            t.size == f1.size + f2.size && !t.selected && t.indeterminate
  {
    TwoFilesDictionary(f1, f2, x, y1, y2);
    TwoFilesShape(f1, f2, x, y1, y2);
    SiblingKeysDistinct(x, y1, y2);
    TwoLeavesStats(SpecMap(AllSteps([f1, f2])), CalcNode(SpecMap(AllSteps([f1, f2])), x), x + "/" + y1, x + "/" + y2);
  }
}

