/** A directory tree packed by the host tool and read back by the kernel's driver. */
module RdskTheorems {
  import opened Machine
  import opened Options
  import opened Bytes
  import opened RdskTree
  import opened RdskImage
  import opened RdskListing
  import opened RdskPacker
  import opened RdskChains
  import opened RdskDriver
  import opened RdskForest
  import V = VfsState

  /** Packing and mounting: unless the image is too large for the format or the driver's integers, the driver serves
      exactly the packed tree. `scratch` is whatever lies in front of the packer's directory table. */
  method PackAndMount(scratch: DirRecord, children: seq<Tree>)
    returns (image: seq<byte>, driver: Option<Driver>, ghost t: Tables)
    requires Packable(children) && scratch.dirs < Limit(8)
    ensures IsImage(image, t, 1)
    ensures driver.None? <==> |image| + ALIGNMENT > Limit(8) || |t.dirs| + |t.files| >= INT_LIMIT
    ensures driver.Some? ==>
      fresh(driver.value) && driver.value.Valid() && driver.value.image == image && driver.value.tree == children
  {
    hide Packer.Valid, IsImage, Fits, Holds, HasName, Mounted, Packable, Limit;
    var packer := new Packer(scratch);
    image, t := packer.Create(children);
    LimitValues();
    if |image| + ALIGNMENT > WORD || |packer.dirs| + |packer.files| >= INT_LIMIT { return image, None, t; }
    PackedMounts(image, t, children);
    var mounted := new Driver(image, t, children);
    return image, Some(mounted), t;
  }

  lemma PackedMounts(image: seq<byte>, t: Tables, children: seq<Tree>)
    requires IsImage(image, t, 1) && Fits(t) && |image| + ALIGNMENT <= Limit(8) && |t.files| + |t.dirs| < INT_LIMIT
    requires IsDir(t, 1) && HasName(t.names, t.dirs[0].name, ROOT_NAME) && t.dirs[0].parent == 0 && Packable(children)
    requires Holds(t, 1, |t.dirs|, t.dirs[0].dirs, t.dirs[0].files, children)
    ensures Mounted(image, t, children)
  {
    hide IsImage, Fits, Holds, HasName;
  }

  /** What is read from a path of a mounted image is what the packed tree has there. */
  method ReadPath(driver: Driver, path: seq<Name>, offset: nat, size: nat) returns (bytes: Option<seq<byte>>)
    requires driver.Valid()
    requires forall k :: 0 <= k < |path| ==> Terminable(path[k]) && path[k] != DOT && path[k] != DOT_DOT
    modifies driver
    ensures driver.Valid()
    ensures bytes == match Target(Dir(ROOT_NAME, driver.tree), path)
                     case Some(File(_, contents)) => Some(Slice(contents, offset, size))
                     case _ => None
  {
    hide Driver.Valid, Packable, Limit, Target, Slice;
    var found;
    ghost var i, parent;
    found, i, parent := driver.Walk(path);
    if !found.Found? || found.node == null { return None; }
    var read := driver.ReadNode(found.node, offset, size, i, parent, Target(Dir(ROOT_NAME, driver.tree), path).value);
    if read.IsDirectory? { return None; }
    return Some(read.bytes);
  }

  /** Looking up a child finds it, and the parent of a child directory is the very node it was looked up from. */
  method DownAndUp(driver: Driver, node: VfsNode, name: Name, ghost i: nat, ghost parent: nat, ghost x: Tree)
    returns (down: LookupResult, up: LookupResult)
    requires driver.Valid() && driver.Represents(node, i, parent, x) && x.Dir?
    requires (parent > 0 ==> IsDir(driver.t, parent))
    requires Terminable(name) && name != DOT && name != DOT_DOT
    modifies driver
    ensures driver.Valid()
    ensures match Child(x.children, name)
            case None => down == Missing
            case Some(y) =>
              down.Found? && down.node != null && down.node.isDir == y.Dir? && (y.Dir? ==> up == Found(node))
  {
    hide Driver.Valid, Holds, Packable, Child, HasName;
    driver.RepresentsRecord(node, i, parent, x);
    ghost var j;
    down, j := driver.Lookup(node, name, i, x.children);
    up := Missing;
    if down == Missing { return; }
    ghost var y := Child(x.children, name).value;
    driver.RepresentsRecord(down.node, j, i, y);
    if down.node.isDir {
      ghost var k;
      up, k := driver.Lookup(down.node, DOT_DOT, j, y.children);
    }
  }

  /** The cached node for a node of the forest. */
  ghost predicate Cached(driver: Driver, id: V.Id, node: VfsNode)
    reads driver
  {
    var i := Record(id);
    if IsDirId(id) then 1 <= i <= |driver.dirCache| && node == driver.dirCache[i - 1]
    else 1 <= i <= |driver.fileCache| && node == driver.fileCache[i - 1]
  }

  /** The driver's lookup operation is the step that the VFS model takes in the forest of the image; a null node stands
      for the parent of the root. */
  method LookupIsStep(driver: Driver, node: VfsNode, name: Name, ghost id: V.Id, ghost x: Tree, ghost f: V.Id)
    returns (res: LookupResult)
    requires driver.Valid() && AllUnique(driver.tree) && Terminable(name)
    requires Means(driver.t, id, x) && Cached(driver, id, node)
    modifies driver
    ensures driver.Valid() && V.WellFormed(Forest(driver.t, f)) && id in Nodes(driver.t, f)
    ensures match V.Step(Forest(driver.t, f), id, Text(name))
            case Err(e) => res == if e == V.ENOTDIR then NotDir else Missing
            case Ok(m) =>
              || (res == Found(null) && m == id == DirId(1) && name == DOT_DOT)
              || (res.Found? && res.node != null && Cached(driver, m, res.node))
  {
    hide Driver.Valid, Stands, Nodes, Text, V.WellFormed, V.NodeOk, Means, V.Step, Driver.ChildNode, ChildId;
    RootStands(driver);
    ForestSolo(driver.t, driver.tree, f);
    MeansNode(driver.t, f, id, x);
    CachedKind(driver, id, x, node);
    ghost var d, children := Record(id), if x.Dir? then x.children else [];
    ghost var i;
    res, i := driver.Lookup(node, name, d, children);
    NoDots(name);
    driver.CacheSizes();
    if !node.isDir {
      FileStepOf(driver.t, f, id, x, Text(name));
    } else if name == DOT || name == DOT_DOT {
      DotStep(driver.t, driver.tree, f, id, x, name);
      CachedParent(driver, d);
    } else {
      MeansDir(driver.t, id, x);
      StepIsChildId(driver.t, driver.tree, f, d, children, name);
      ChildMeans(driver.t, d, children, name);
      ChildCached(driver, d, name);
    }
  }

  lemma RootStands(driver: Driver)
    requires driver.Valid() && AllUnique(driver.tree)
    ensures Stands(driver.t, 1, driver.tree) && driver.t.dirs[0].parent == 0
  {
    hide IsImage, Fits, Holds, HasName, AllUnique, Packable;
  }

  lemma CachedKind(driver: Driver, id: V.Id, x: Tree, node: VfsNode)
    requires driver.Valid() && AllUnique(driver.tree) && Means(driver.t, id, x) && Cached(driver, id, node)
    ensures node.isDir == x.Dir?
    ensures x.Dir? ==>
      var d := Record(id);
      && StoresDir(driver.t, d, x.children) && node.data == driver.DirAddress(d)
      && driver.t.dirs[d - 1].parent <= |driver.t.dirs|
      && (driver.t.dirs[d - 1].parent > 0 ==> IsDir(driver.t, driver.t.dirs[d - 1].parent))
  {
    hide Mounted, HeaderRead, HasName, Holds, AllUnique, Packable;
    if x.Dir? { LiveParent(driver, Record(id)); }
  }

  lemma LiveParent(driver: Driver, d: nat)
    requires driver.Valid() && AllUnique(driver.tree) && LiveDir(driver.t, d)
    ensures 1 <= d <= |driver.t.dirs| && driver.t.dirs[d - 1].parent <= |driver.t.dirs|
    ensures driver.t.dirs[d - 1].parent > 0 ==> IsDir(driver.t, driver.t.dirs[d - 1].parent)
  {
    hide Driver.Valid, AllUnique, Holds, Packable;
    RootStands(driver);
    var p := driver.t.dirs[d - 1].parent;
    if d != 1 {
      LiveStands(driver.t, driver.tree, p);
      var above :| Stands(driver.t, p, above);
    }
  }

  lemma FileStepOf(t: Tables, f: V.Id, id: V.Id, x: Tree, name: string)
    requires V.WellFormed(Forest(t, f)) && Means(t, id, x) && x.File?
    ensures id in Nodes(t, f) && V.Step(Forest(t, f), id, name) == V.Err(V.ENOTDIR)
  {
    hide V.WellFormed, Nodes, Means;
    MeansNode(t, f, id, x);
  }

  /** "." and ".." */
  lemma DotStep(t: Tables, tree: seq<Tree>, f: V.Id, id: V.Id, x: Tree, name: Name)
    requires V.WellFormed(Forest(t, f)) && Means(t, id, x) && x.Dir? && name in {DOT, DOT_DOT}
    ensures id in Nodes(t, f) && 1 <= Record(id) <= |t.dirs|
    ensures var p := t.dirs[Record(id) - 1].parent;
      && V.Step(Forest(t, f), id, Text(name)) == V.Ok(if name == DOT || p == 0 then id else DirId(p))
      && (p == 0 ==> id == DirId(1))
  {
    hide V.WellFormed, Nodes, Ranks, Stands, Text, ChildIds;
    NoDots(name);
    IdBack(id);
    DirInForest(t, f, Record(id));
  }

  lemma CachedParent(driver: Driver, d: nat)
    requires 1 <= d <= |driver.t.dirs| && |driver.dirCache| == |driver.t.dirs|
    ensures var p := driver.t.dirs[d - 1].parent;
      1 <= p <= |driver.dirCache| && driver.dirCache[p - 1] != null ==> Cached(driver, DirId(p), driver.dirCache[p - 1])
  {
    IdParts(driver.t.dirs[d - 1].parent);
  }

  lemma MeansDir(t: Tables, id: V.Id, x: Tree)
    requires Means(t, id, x) && x.Dir?
    ensures id == DirId(Record(id)) && LiveDir(t, Record(id)) && Stands(t, Record(id), x.children)
  {
    hide LiveDir, Stands;
    IdBack(id);
  }

  /** Driver and forest find the same record. */
  lemma ChildCached(driver: Driver, d: nat, name: Name)
    requires 1 <= d <= |driver.t.dirs| && |driver.dirCache| == |driver.t.dirs| && |driver.fileCache| == |driver.t.files|
    ensures match ChildId(driver.t, d, name)
            case None => driver.ChildNode(d, name) == Missing
            case Some(m) =>
              && driver.ChildNode(d, name).Found?
              && (driver.ChildNode(d, name).node != null ==> Cached(driver, m, driver.ChildNode(d, name).node))
  {
    hide FirstFile, FirstDir;
    IdParts(FirstFile(driver.t, driver.t.dirs[d - 1].files, name));
    IdParts(FirstDir(driver.t, driver.t.dirs[d - 1].dirs, name));
    FirstInTables(driver.t, d, name);
  }

  lemma FirstInTables(t: Tables, d: nat, name: Name)
    requires 1 <= d <= |t.dirs|
    ensures FirstFile(t, t.dirs[d - 1].files, name) <= |t.files| && FirstDir(t, t.dirs[d - 1].dirs, name) <= |t.dirs|
  {
  }
}
