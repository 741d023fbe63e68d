/** The nodes of a mounted RDSK image as a file system of the forest that the VFS looks paths up in
    (kernel/src/fs/rdsk.c:82-170). */
module RdskForest {
  import opened Options
  import opened RdskTree
  import opened RdskListing
  import opened RdskChains
  import opened RdskDriver
  import opened VfsState
  import opened VfsGrowth
  import opened VfsLookup

  // ----- Names

  function Text(name: Name): (text: string)
    ensures |text| == |name|
  {
    seq(|name|, i requires 0 <= i < |name| => name[i] as char)
  }

  lemma SameText(a: Name, b: Name)
    ensures Text(a) == Text(b) <==> a == b
  {
    if Text(a) == Text(b) {
      forall i | 0 <= i < |a| ensures a[i] == b[i] { assert Text(a)[i] == Text(b)[i]; }
    }
  }

  // ----- Reachable records

  /** Directory d is the root or in the chain of a reachable directory. */
  predicate LiveDir(t: Tables, d: nat)
    decreases d
  {
    1 <= d <= |t.dirs| &&
    var p := t.dirs[d - 1].parent;
    if d == 1 then p == 0 else 1 <= p < d && LiveDir(t, p) && d in DirChain(t, t.dirs[p - 1].dirs)
  }

  predicate LiveFile(t: Tables, i: nat) {
    1 <= i <= |t.files| &&
    var p := t.files[i - 1].parent;
    LiveDir(t, p) && i in FileChain(t, t.dirs[p - 1].files)
  }

  /** No two children of a directory have one name, here or below. */
  predicate AllUnique(children: seq<Tree>)
    decreases children, 0
  {
    UniqueNames(children) && forall i :: 0 <= i < |children| && children[i].Dir? ==> AllUnique(children[i].children)
  }

  /** What a directory record stands for. */
  predicate Stands(t: Tables, d: nat, children: seq<Tree>) {
    IsDir(t, d) && Holds(t, d, |t.dirs|, t.dirs[d - 1].dirs, t.dirs[d - 1].files, children) && Packable(children)
    && AllUnique(children)
  }

  lemma StandsRecord(t: Tables, d: nat, children: seq<Tree>)
    requires Stands(t, d, children)
    ensures 1 <= d <= |t.dirs|
  {
  }

  /** The directories in the chain of one that stands for its children stand for theirs. */
  lemma StandsBelow(t: Tables, d: nat, children: seq<Tree>, k: nat)
    requires Stands(t, d, children) && k < |DirChain(t, t.dirs[d - 1].dirs)|
    ensures var c := DirChain(t, t.dirs[d - 1].dirs)[k];
      && k < |Dirs(children)| && DirHolds(t, c, d, |t.dirs|, Dirs(children)[k])
      && Stands(t, c, Dirs(children)[k].children)
  {
    hide Holds, HasName, Packable, AllUnique, DirHolds;
    DirsOfChain(t, d, |t.dirs|, t.dirs[d - 1].dirs, t.dirs[d - 1].files, children);
    var x := Dirs(children)[k];
    FilesAre(children, x);
    ChildStands(t, d, children, x, DirChain(t, t.dirs[d - 1].dirs)[k]);
  }

  lemma ChildStands(t: Tables, d: nat, children: seq<Tree>, x: Tree, j: nat)
    requires Stands(t, d, children) && x in children && x.Dir? && DirHolds(t, j, d, |t.dirs|, x)
    ensures Stands(t, j, x.children)
  {
    hide Holds, HasName;
    var i :| 0 <= i < |children| && children[i] == x;
  }

  lemma {:induction false} LiveStands(t: Tables, tree: seq<Tree>, d: nat)
    requires Stands(t, 1, tree) && LiveDir(t, d)
    ensures exists children :: Stands(t, d, children)
    decreases d
  {
    hide Stands;
    if d != 1 {
      var p := t.dirs[d - 1].parent;
      LiveStands(t, tree, p);
      var above :| Stands(t, p, above);
      var k :| 0 <= k < |DirChain(t, t.dirs[p - 1].dirs)| && DirChain(t, t.dirs[p - 1].dirs)[k] == d;
      StandsBelow(t, p, above, k);
    }
  }

  // ----- The forest

  /** Nodes: even for directory records, odd for file records. */
  function DirId(d: nat): Id { 2 * d }

  function FileId(i: nat): Id { 2 * i + 1 }

  function FileIds(chain: seq<nat>): seq<Id> { seq(|chain|, k requires 0 <= k < |chain| => FileId(chain[k])) }

  function DirIds(chain: seq<nat>): seq<Id> { seq(|chain|, k requires 0 <= k < |chain| => DirId(chain[k])) }

  predicate IsDirId(id: Id) { id % 2 == 0 }

  function Record(id: Id): nat { id / 2 }

  lemma IdParts(i: nat)
    ensures IsDirId(DirId(i)) && Record(DirId(i)) == i && !IsDirId(FileId(i)) && Record(FileId(i)) == i
    ensures DirId(i) <= 2 * i + 1 && FileId(i) <= 2 * i + 1
  {
  }

  lemma IdBack(id: Id)
    ensures id == if IsDirId(id) then DirId(Record(id)) else FileId(Record(id))
  {
  }

  predicate LiveId(t: Tables, id: Id) {
    if IsDirId(id) then LiveDir(t, Record(id)) else LiveFile(t, Record(id))
  }

  /** The files of a directory, then its directories. */
  function ChildIds(t: Tables, d: nat): seq<Id>
    requires 1 <= d <= |t.dirs|
  {
    FileIds(FileChain(t, t.dirs[d - 1].files)) + DirIds(DirChain(t, t.dirs[d - 1].dirs))
  }

  /** rdsk_node_name and rdsk_node_lookup in the terms of the VFS: the root has neither name nor parent. */
  function DirNode(t: Tables, f: Id, d: nat): Node
    requires 1 <= d <= |t.dirs|
  {
    var r := t.dirs[d - 1];
    Node(f, true, if d == 1 then None else Some(Text(NameAt(t.names, r.name))),
         if d == 1 then None else Some(DirId(r.parent)),
         ChildIds(t, d), None)
  }

  function FileNode(t: Tables, f: Id, i: nat): Node
    requires 1 <= i <= |t.files|
  {
    var r := t.files[i - 1];
    Node(f, false, Some(Text(NameAt(t.names, r.name))), Some(DirId(r.parent)), [], None)
  }

  function Nodes(t: Tables, f: Id): map<Id, Node> {
    map id | 0 <= id <= 2 * (|t.dirs| + |t.files|) + 1 && LiveId(t, id) ::
      if IsDirId(id) then DirNode(t, f, Record(id)) else FileNode(t, f, Record(id))
  }

  /** Directories come after their parents, files after all directories. */
  function Ranks(t: Tables): map<Id, nat> {
    map id | 0 <= id <= 2 * (|t.dirs| + |t.files|) + 1 && LiveId(t, id) ::
      if IsDirId(id) then Record(id) else |t.dirs| + 1
  }

  function Forest(t: Tables, f: Id): State {
    State(Nodes(t, f), map[f := System(DirId(1), None, true)], [f], Ranks(t))
  }

  lemma InForest(t: Tables, f: Id, id: Id)
    ensures id in Nodes(t, f) <==> LiveId(t, id)
    ensures id in Ranks(t) <==> LiveId(t, id)
  {
    IdBack(id);
    IdParts(Record(id));
  }

  lemma DirInForest(t: Tables, f: Id, d: nat)
    requires LiveDir(t, d)
    ensures DirId(d) in Nodes(t, f) && Nodes(t, f)[DirId(d)] == DirNode(t, f, d)
    ensures DirId(d) in Ranks(t) && Ranks(t)[DirId(d)] == d
  {
    hide LiveDir, LiveFile, DirNode, FileNode;
    InForest(t, f, DirId(d));
    IdParts(d);
  }

  lemma FileInForest(t: Tables, f: Id, i: nat)
    requires LiveFile(t, i)
    ensures FileId(i) in Nodes(t, f) && Nodes(t, f)[FileId(i)] == FileNode(t, f, i)
    ensures FileId(i) in Ranks(t) && Ranks(t)[FileId(i)] == |t.dirs| + 1
  {
    hide LiveDir, LiveFile, DirNode, FileNode;
    InForest(t, f, FileId(i));
    IdParts(i);
  }

  lemma ChildIdAt(t: Tables, d: nat, k: nat)
    requires 1 <= d <= |t.dirs| && k < |ChildIds(t, d)|
    ensures var files, dirs := FileChain(t, t.dirs[d - 1].files), DirChain(t, t.dirs[d - 1].dirs);
      && |ChildIds(t, d)| == |files| + |dirs|
      && ChildIds(t, d)[k] == if k < |files| then FileId(files[k]) else DirId(dirs[k - |files|])
  {
    hide FileChain, DirChain;
  }

  /** The name of a stored file or directory is the one the tree gives it. */
  lemma FileChild(t: Tables, f: Id, d: nat, i: nat, x: Tree)
    requires LiveDir(t, d) && i in FileChain(t, t.dirs[d - 1].files) && x.File? && Terminable(x.name)
    requires FileHolds(t, i, d, x.name, x.bytes)
    ensures LiveFile(t, i) && FileId(i) in Nodes(t, f)
    ensures var n := Nodes(t, f)[FileId(i)]; n.parent == Some(DirId(d)) && n.name == Some(Text(x.name)) && !n.isDir
  {
    hide Nodes, Ranks, Text, LiveDir, HasName, FileChain;
    NameFound(t.names, t.files[i - 1].name, x.name);
    FileInForest(t, f, i);
  }

  lemma DirChild(t: Tables, f: Id, d: nat, i: nat, x: Tree)
    requires LiveDir(t, d) && i in DirChain(t, t.dirs[d - 1].dirs) && Terminable(x.name)
    requires DirHolds(t, i, d, |t.dirs|, x)
    ensures LiveDir(t, i) && DirId(i) in Nodes(t, f)
    ensures var n := Nodes(t, f)[DirId(i)]; n.parent == Some(DirId(d)) && n.name == Some(Text(x.name)) && n.isDir
  {
    hide Nodes, Ranks, Text, HasName, DirChain, ChildIds, Holds;
    NameFound(t.names, t.dirs[i - 1].name, x.name);
    DirInForest(t, f, i);
  }

  /** The child at place k: a live node with the directory as its parent and the name that the tree gives it. */
  lemma ChildAt(t: Tables, f: Id, d: nat, children: seq<Tree>, k: nat)
    requires Stands(t, d, children) && LiveDir(t, d) && k < |ChildIds(t, d)|
    ensures var list := Files(children) + Dirs(children);
            var id := ChildIds(t, d)[k];
            && |ChildIds(t, d)| == |list| && id in Nodes(t, f)
            && Nodes(t, f)[id].parent == Some(DirId(d)) && Nodes(t, f)[id].name == Some(Text(list[k].name))
            && Nodes(t, f)[id].isDir == list[k].Dir?
  {
    hide Holds, HasName, Nodes, Text, LiveDir, FileHolds, DirHolds, ChildIds, FileChain, DirChain, LiveFile,
      AllUnique;
    var files, dirs := FileChain(t, t.dirs[d - 1].files), DirChain(t, t.dirs[d - 1].dirs);
    FilesOfChain(t, d, |t.dirs|, t.dirs[d - 1].dirs, t.dirs[d - 1].files, children);
    DirsOfChain(t, d, |t.dirs|, t.dirs[d - 1].dirs, t.dirs[d - 1].files, children);
    ChildIdAt(t, d, k);
    if k < |files| {
      var x := Files(children)[k];
      FilesAre(children, x);
      FileChild(t, f, d, files[k], x);
    } else {
      var x := Dirs(children)[k - |files|];
      FilesAre(children, x);
      DirChild(t, f, d, dirs[k - |files|], x);
    }
  }

  // ----- Different children have different names

  lemma {:induction false} ListDistinct(children: seq<Tree>)
    requires UniqueNames(children)
    ensures UniqueNames(Files(children)) && UniqueNames(Dirs(children))
  {
    if children != [] {
      var last, init := children[|children| - 1], children[..|children| - 1];
      ListDistinct(init);
      forall x | x in init ensures x.name != last.name {
        var i :| 0 <= i < |init| && init[i] == x;
        assert children[i] == x;
      }
      forall x ensures (x in Files(init) ==> x in init) && (x in Dirs(init) ==> x in init) { FilesAre(init, x); }
    }
  }

  lemma ListingDistinct(children: seq<Tree>)
    requires UniqueNames(children)
    ensures UniqueNames(Files(children) + Dirs(children))
  {
    ListDistinct(children);
    forall x, y | x in Files(children) && y in Dirs(children) ensures x.name != y.name {
      FilesAre(children, x);
      FilesAre(children, y);
      var i :| 0 <= i < |children| && children[i] == x;
      var j :| 0 <= j < |children| && children[j] == y;
    }
  }

  // ----- A file system of its own

  lemma DirNodeOk(t: Tables, f: Id, d: nat, children: seq<Tree>)
    requires Stands(t, d, children) && LiveDir(t, d)
    ensures DirId(d) in Nodes(t, f) && NodeOk(Forest(t, f), DirId(d))
  {
    hide Stands, ChildIds, Nodes, Ranks, Text;
    var s, ids := Forest(t, f), ChildIds(t, d);
    DirInForest(t, f, d);
    forall k | 0 <= k < |ids| ensures ids[k] in s.nodes && s.nodes[ids[k]].parent == Some(DirId(d)) {
      ChildAt(t, f, d, children, k);
    }
    forall i, j | 0 <= i < j < |ids| ensures s.nodes[ids[i]].name != s.nodes[ids[j]].name {
      ChildrenDiffer(t, f, d, children, i, j);
    }
    if d != 1 { ParentOk(t, f, d); }
  }

  lemma ChildrenDiffer(t: Tables, f: Id, d: nat, children: seq<Tree>, i: nat, j: nat)
    requires Stands(t, d, children) && LiveDir(t, d) && i < j < |ChildIds(t, d)|
    ensures ChildIds(t, d)[i] in Nodes(t, f) && ChildIds(t, d)[j] in Nodes(t, f)
    ensures Nodes(t, f)[ChildIds(t, d)[i]].name != Nodes(t, f)[ChildIds(t, d)[j]].name
  {
    var list := Files(children) + Dirs(children);
    ListingDistinct(children);
    hide Holds, ChildIds, Nodes, Text, Packable, LiveDir;
    ChildAt(t, f, d, children, i);
    ChildAt(t, f, d, children, j);
    SameText(list[i].name, list[j].name);
  }

  /** The parent of a directory other than the root. */
  lemma ParentOk(t: Tables, f: Id, d: nat)
    requires LiveDir(t, d) && d != 1
    ensures var p := t.dirs[d - 1].parent;
      && p < d && DirId(p) in Nodes(t, f) && Nodes(t, f)[DirId(p)].isDir && DirId(d) in Nodes(t, f)[DirId(p)].children
      && DirId(p) in Ranks(t) && Ranks(t)[DirId(p)] == p && Nodes(t, f)[DirId(p)].system == f
  {
    hide Nodes, Ranks, Text, FileChain, DirChain, ChildIds;
    var p := t.dirs[d - 1].parent;
    DirInForest(t, f, p);
    var dirs := DirChain(t, t.dirs[p - 1].dirs);
    var k :| 0 <= k < |dirs| && dirs[k] == d;
    ChildIdCount(t, p);
    ChildIdAt(t, p, |FileChain(t, t.dirs[p - 1].files)| + k);
  }

  lemma ChildIdCount(t: Tables, d: nat)
    requires 1 <= d <= |t.dirs|
    ensures |ChildIds(t, d)| == |FileChain(t, t.dirs[d - 1].files)| + |DirChain(t, t.dirs[d - 1].dirs)|
  {
  }

  lemma FileNodeOk(t: Tables, f: Id, i: nat)
    requires LiveFile(t, i)
    ensures FileId(i) in Nodes(t, f) && NodeOk(Forest(t, f), FileId(i))
  {
    hide Nodes, Ranks, Text, FileChain, ChildIds;
    var p := t.files[i - 1].parent;
    FileInForest(t, f, i);
    DirInForest(t, f, p);
    IdParts(1);
    IdParts(i);
    var files := FileChain(t, t.dirs[p - 1].files);
    var k :| 0 <= k < |files| && files[k] == i;
    ChildIdCount(t, p);
    ChildIdAt(t, p, k);
  }

  /** A mounted image of a tree without equal names side by side is a well-formed file system that nothing is mounted
      in. */
  lemma ForestSolo(t: Tables, tree: seq<Tree>, f: Id)
    requires Stands(t, 1, tree) && t.dirs[0].parent == 0
    ensures Solo(f, DirId(1), true, Nodes(t, f), Ranks(t)) && WellFormed(Forest(t, f)) && Unstacked(Forest(t, f))
  {
    hide Stands, NodeOk, Nodes, Ranks, ChildIds;
    var s := Forest(t, f);
    StandsRecord(t, 1, tree);
    DirInForest(t, f, 1);
    forall n | n in s.nodes ensures NodeOk(s, n) && s.nodes[n].mounted.None? {
      IdBack(n);
      InForest(t, f, n);
      var i := Record(n);
      if IsDirId(n) {
        LiveStands(t, tree, i);
        var children :| Stands(t, i, children);
        DirNodeOk(t, f, i, children);
        DirInForest(t, f, i);
      } else {
        FileNodeOk(t, f, i);
        FileInForest(t, f, i);
      }
    }
    assert SystemOk(s, f);
  }

  // ----- Lookups

  /** The node of the child that a lookup in directory d finds. */
  function ChildId(t: Tables, d: nat, name: Name): Option<Id>
    requires 1 <= d <= |t.dirs|
  {
    var i, j := FirstFile(t, t.dirs[d - 1].files, name), FirstDir(t, t.dirs[d - 1].dirs, name);
    if i > 0 then Some(FileId(i)) else if j > 0 then Some(DirId(j)) else None
  }

  // The same chains, as the child list of a node.

  lemma {:induction false} FindAmongFiles(t: Tables, f: Id, i: nat, rest: seq<Id>, name: Name)
    requires forall k :: k in FileChain(t, i) ==> LiveFile(t, k)
    requires forall k :: 0 <= k < |rest| ==> rest[k] in Nodes(t, f)
    ensures forall k :: 0 <= k < |FileIds(FileChain(t, i)) + rest| ==>
      (FileIds(FileChain(t, i)) + rest)[k] in Nodes(t, f)
    ensures FindChild(Forest(t, f), FileIds(FileChain(t, i)) + rest, Text(name))
            == if FirstFile(t, i, name) > 0 then Some(FileId(FirstFile(t, i, name)))
               else FindChild(Forest(t, f), rest, Text(name))
    decreases i
  {
    hide Nodes, Ranks, LiveFile, Text, NameAt;
    var ids := FileIds(FileChain(t, i));
    if i == 0 || i > |t.files| {
      assert ids + rest == rest;
    } else {
      var next := t.files[i - 1].next;
      var more := if next < i then FileChain(t, next) else [];
      assert FileChain(t, i) == [i] + more;
      assert i in FileChain(t, i);
      FileInForest(t, f, i);
      SameText(NameAt(t.names, t.files[i - 1].name), name);
      assert ids + rest == [FileId(i)] + (FileIds(more) + rest);
      assert ([FileId(i)] + (FileIds(more) + rest))[1..] == FileIds(more) + rest;
      forall k | k in more ensures LiveFile(t, k) { assert k in FileChain(t, i); }
      if next < i {
        FindAmongFiles(t, f, next, rest, name);
      } else {
        assert FileIds(more) + rest == rest;
      }
    }
  }

  lemma {:induction false} FindAmongDirs(t: Tables, f: Id, i: nat, name: Name)
    requires forall k :: k in DirChain(t, i) ==> LiveDir(t, k) && k != 1
    ensures forall k :: 0 <= k < |DirIds(DirChain(t, i))| ==> DirIds(DirChain(t, i))[k] in Nodes(t, f)
    ensures FindChild(Forest(t, f), DirIds(DirChain(t, i)), Text(name))
            == if FirstDir(t, i, name) > 0 then Some(DirId(FirstDir(t, i, name))) else None
    decreases i
  {
    hide Nodes, Ranks, LiveDir, Text, NameAt, ChildIds;
    var ids := DirIds(DirChain(t, i));
    if i != 0 && i <= |t.dirs| {
      var next := t.dirs[i - 1].next;
      var more := if next < i then DirChain(t, next) else [];
      assert DirChain(t, i) == [i] + more;
      assert i in DirChain(t, i);
      DirInForest(t, f, i);
      SameText(NameAt(t.names, t.dirs[i - 1].name), name);
      assert ids == [DirId(i)] + DirIds(more);
      assert ([DirId(i)] + DirIds(more))[1..] == DirIds(more);
      forall k | k in more ensures LiveDir(t, k) && k != 1 { assert k in DirChain(t, i); }
      if next < i { FindAmongDirs(t, f, next, name); }
    }
  }

  lemma ChildrenLive(t: Tables, d: nat, children: seq<Tree>)
    requires Stands(t, d, children) && LiveDir(t, d)
    ensures 1 <= d <= |t.dirs|
    ensures forall i :: i in FileChain(t, t.dirs[d - 1].files) ==> LiveFile(t, i)
    ensures forall i :: i in DirChain(t, t.dirs[d - 1].dirs) ==> LiveDir(t, i) && i != 1
  {
    hide Holds, HasName, FileChain, DirChain, AllUnique, Packable;
    FilesOfChain(t, d, |t.dirs|, t.dirs[d - 1].dirs, t.dirs[d - 1].files, children);
    DirsOfChain(t, d, |t.dirs|, t.dirs[d - 1].dirs, t.dirs[d - 1].files, children);
  }

  /** A lookup of the VFS in a directory of the image leads to the node whose record the driver finds. */
  lemma StepIsChildId(t: Tables, tree: seq<Tree>, f: Id, d: nat, children: seq<Tree>, name: Name)
    requires Stands(t, 1, tree) && t.dirs[0].parent == 0 && Stands(t, d, children) && LiveDir(t, d)
    requires name != DOT && name != DOT_DOT
    ensures WellFormed(Forest(t, f)) && DirId(d) in Nodes(t, f) && 1 <= d <= |t.dirs|
    ensures Step(Forest(t, f), DirId(d), Text(name))
            == match ChildId(t, d, name) case None => Err(ENOENT) case Some(id) => Ok(id)
  {
    hide Stands, Nodes, Ranks, LiveDir, LiveFile, FileChain, DirChain, FirstFile, FirstDir, Text, FindChild,
      WellFormed, NodeOk, FileIds, DirIds;
    ForestSolo(t, tree, f);
    ChildrenLive(t, d, children);
    DirInForest(t, f, d);
    NoDots(name);
    var files, dirs := t.dirs[d - 1].files, t.dirs[d - 1].dirs;
    forall k | k in DirChain(t, dirs) ensures LiveDir(t, k) && k != 1 {}
    FindAmongDirs(t, f, dirs, name);
    FindAmongFiles(t, f, files, DirIds(DirChain(t, dirs)), name);
  }

  lemma NoDots(name: Name)
    ensures Text(name) == "." <==> name == DOT
    ensures Text(name) == ".." <==> name == DOT_DOT
  {
    assert Text(DOT) == "." && Text(DOT_DOT) == "..";
    SameText(name, DOT);
    SameText(name, DOT_DOT);
  }

  /** A node that has what the tree says. */
  predicate Means(t: Tables, id: Id, x: Tree) {
    match x
    case Dir(_, below) => IsDirId(id) && LiveDir(t, Record(id)) && Stands(t, Record(id), below)
    case File(name, bytes) =>
      && !IsDirId(id) && LiveFile(t, Record(id))
      && FileHolds(t, Record(id), t.files[Record(id) - 1].parent, name, bytes)
  }

  lemma ChildMeans(t: Tables, d: nat, children: seq<Tree>, name: Name)
    requires Stands(t, d, children) && LiveDir(t, d)
    ensures 1 <= d <= |t.dirs|
    ensures match Child(children, name)
            case None => ChildId(t, d, name) == None
            case Some(x) => ChildId(t, d, name).Some? && Means(t, ChildId(t, d, name).value, x)
  {
    hide Holds, HasName, FileChain, DirChain, FirstFile, FirstDir, FindIn, LiveDir, FileHolds, DirHolds, Stands,
      LiveFile, Terminable;
    StandsParts(t, d, children);
    var dir, file := t.dirs[d - 1].dirs, t.dirs[d - 1].files;
    FirstFileIs(t, d, |t.dirs|, dir, file, children, name);
    FirstDirIs(t, d, |t.dirs|, dir, file, children, name);
    ChildrenLive(t, d, children);
    var i, j := FirstFile(t, file, name), FirstDir(t, dir, name);
    IdParts(i);
    IdParts(j);
    if FindIn(Files(children), name).Some? {
      var x := FindIn(Files(children), name).value;
      FoundFile(t, i, d, x);
    } else if FindIn(Dirs(children), name).Some? {
      var x := FindIn(Dirs(children), name).value;
      FindInFirst(Dirs(children), name);
      FilesAre(children, x);
      FoundDir(t, j, d, x);
      ChildStands(t, d, children, x, j);
    }
  }

  lemma StandsParts(t: Tables, d: nat, children: seq<Tree>)
    requires Stands(t, d, children)
    ensures 1 <= d <= |t.dirs| && Holds(t, d, |t.dirs|, t.dirs[d - 1].dirs, t.dirs[d - 1].files, children)
    ensures forall x :: x in Files(children) ==> Terminable(x.name)
    ensures forall x :: x in Dirs(children) ==> Terminable(x.name)
  {
    hide Holds, HasName, AllUnique, Terminable;
    forall x
      ensures x in Files(children) ==> Terminable(x.name)
      ensures x in Dirs(children) ==> Terminable(x.name)
    {
      FilesAre(children, x);
    }
  }

  lemma FoundFile(t: Tables, i: nat, d: nat, x: Tree)
    requires x.File? && FileHolds(t, i, d, x.name, x.bytes)
    ensures i > 0 && IsFile(t, i) && t.files[i - 1].parent == d
  {
  }

  lemma FoundDir(t: Tables, j: nat, d: nat, x: Tree)
    requires DirHolds(t, j, d, |t.dirs|, x)
    ensures j > 0 && x.Dir?
  {
  }

  function Texts(path: seq<Name>): (texts: seq<string>)
    ensures |texts| == |path|
  {
    if path == [] then [] else [Text(path[0])] + Texts(path[1..])
  }

  /** Walks of the VFS in a mounted image lead where the paths lead in the packed tree. */
  lemma {:induction false} WalkIsTarget(t: Tables, tree: seq<Tree>, f: Id, id: Id, x: Tree, path: seq<Name>)
    requires Stands(t, 1, tree) && t.dirs[0].parent == 0 && Means(t, id, x)
    requires forall k :: 0 <= k < |path| ==> path[k] != DOT && path[k] != DOT_DOT
    ensures WellFormed(Forest(t, f)) && id in Nodes(t, f)
    ensures match Target(x, path)
            case None => Walk(Forest(t, f), id, Texts(path)).Err?
            case Some(y) =>
              Walk(Forest(t, f), id, Texts(path)).Ok? && Means(t, Walk(Forest(t, f), id, Texts(path)).node, y)
    decreases |path|
  {
    hide Stands, Nodes, LiveDir, LiveFile, Text, Child, ChildId, FindChild, Unstacked, ChildIds, NodeOk;
    ForestSolo(t, tree, f);
    MeansNode(t, f, id, x);
    var s := Forest(t, f);
    assert Hop(s, id) == id;
    if path != [] {
      assert Texts(path)[0] == Text(path[0]) && Texts(path)[1..] == Texts(path[1..]);
      if x.Dir? {
        StepIsChildId(t, tree, f, Record(id), x.children, path[0]);
        ChildMeans(t, Record(id), x.children, path[0]);
        var y := Child(x.children, path[0]);
        if y.Some? { WalkIsTarget(t, tree, f, ChildId(t, Record(id), path[0]).value, y.value, path[1..]); }
      }
    }
  }

  lemma MeansNode(t: Tables, f: Id, id: Id, x: Tree)
    requires Means(t, id, x)
    ensures id in Nodes(t, f) && Nodes(t, f)[id].isDir == x.Dir? && Nodes(t, f)[id].mounted.None?
    ensures x.Dir? ==> id == DirId(Record(id))
  {
    hide Stands, LiveDir, LiveFile, Text, ChildIds, FileHolds, Nodes;
    IdBack(id);
    if x.Dir? { DirInForest(t, f, Record(id)); } else { FileInForest(t, f, Record(id)); }
  }

  /** A path of names, looked up in a mounted image, leads to what the packed tree has there. */
  lemma ImagePaths(t: Tables, tree: seq<Tree>, f: Id, path: seq<Name>)
    requires Stands(t, 1, tree) && t.dirs[0].parent == 0
    requires forall k :: 0 <= k < |path| ==> Ordinary(Text(path[k]))
    ensures WellFormed(Forest(t, f)) && Top(Forest(t, f)) == DirId(1)
    ensures match Target(Dir(ROOT_NAME, tree), path)
            case None => LookedUp(Forest(t, f), DirId(1), PathText(Texts(path))).Err?
            case Some(y) =>
              var r := LookedUp(Forest(t, f), DirId(1), PathText(Texts(path)));
              r.Ok? && Means(t, r.node, y)
  {
    hide Stands, Nodes, Ranks, Text, PathText, Target, Means, Unstacked, Walk, LookedUp, LiveDir;
    ForestSolo(t, tree, f);
    StandsRecord(t, 1, tree);
    RootLive(t);
    DirInForest(t, f, 1);
    RootMeans(t, tree);
    forall k | 0 <= k < |path| ensures path[k] != DOT && path[k] != DOT_DOT { NoDots(path[k]); }
    TextsAre(path);
    SpelledLookup(Forest(t, f), DirId(1), Texts(path));
    WalkIsTarget(t, tree, f, DirId(1), Dir(ROOT_NAME, tree), path);
  }

  /** The state that mounting the image as the first file system leaves. */
  lemma FirstMount(t: Tables, tree: seq<Tree>, f: Id)
    requires Stands(t, 1, tree) && t.dirs[0].parent == 0
    ensures var none := State(map[], map[], [], map[]);
      && CanAttach(none, None, f, DirId(1), true, Nodes(t, f), Ranks(t))
      && Attached(none, None, f, DirId(1), true, Nodes(t, f), Ranks(t)) == Forest(t, f)
  {
    hide Stands, Nodes, Ranks, Solo;
    ForestSolo(t, tree, f);
    assert Shifted(Ranks(t), 0) == Ranks(t);
    assert map[] + Nodes(t, f) == Nodes(t, f);
    assert map[] + Shifted(Ranks(t), 0) == Ranks(t);
  }

  lemma RootLive(t: Tables)
    requires 1 <= |t.dirs| && t.dirs[0].parent == 0
    ensures LiveDir(t, 1)
  {
  }

  lemma RootMeans(t: Tables, tree: seq<Tree>)
    requires Stands(t, 1, tree) && t.dirs[0].parent == 0
    ensures Means(t, DirId(1), Dir(ROOT_NAME, tree))
  {
    hide Holds, AllUnique, Packable;
    IdParts(1);
  }

  lemma {:induction false} TextsAre(path: seq<Name>)
    ensures forall k :: 0 <= k < |path| ==> Texts(path)[k] == Text(path[k])
  {
    hide Text;
    if path != [] {
      TextsAre(path[1..]);
      forall k | 0 < k < |path|
        ensures Texts(path)[k] == Text(path[k])
      {
        assert Texts(path)[k] == Texts(path[1..])[k - 1];
      }
    }
  }
}
