/** The kernel's driver for RDSK images (kernel/src/fs/rdsk.c). */
module RdskDriver {
  import opened Machine
  import opened Options
  import opened Bytes
  import opened RdskTree
  import opened RdskImage
  import opened RdskListing
  import opened RdskChains

  const SUPPORTED_REVISION: nat := 0x101

  /** "." and ".." */
  const DOT: Name := [0x2E]
  const DOT_DOT: Name := [0x2E, 0x2E]

  predicate StoresDir(t: Tables, d: nat, children: seq<Tree>) {
    IsDir(t, d) && Holds(t, d, |t.dirs|, t.dirs[d - 1].dirs, t.dirs[d - 1].files, children) && Packable(children)
  }

  /** An image of a tree, small enough for the driver's integers. */
  predicate Mounted(image: seq<byte>, t: Tables, tree: seq<Tree>) {
    && IsImage(image, t, 1) && Fits(t) && |image| + ALIGNMENT <= Limit(8) && |t.files| + |t.dirs| < INT_LIMIT
    && DirHolds(t, 1, 0, |t.dirs|, Dir(ROOT_NAME, tree)) && Packable(tree)
  }

  lemma HeaderFacts(image: seq<byte>, t: Tables, tree: seq<Tree>)
    requires Mounted(image, t, tree)
    ensures HeaderRead(image, Layout(t, 1))
  {
    hide IsImage, Fits, Holds, HeaderRead;
    LimitValues();
    HeaderBack(image, t, 1);
  }

  /** A stored name lies in the image where the driver looks for it. */
  lemma NameInImage(image: seq<byte>, t: Tables, offset: nat, name: Name)
    requires IsImage(image, t, 1) && HasName(t.names, offset, name)
    ensures HasName(image, Layout(t, 1).names + offset, name)
  {
    hide Encode, DirBytes, FileBytes, AlignUp;
    var at := Layout(t, 1).names;
    assert image[at..at + |t.names|] == t.names;
    SliceOfSlice(image, at, |t.names|, offset, |name|);
    assert image[at + (offset + |name|)] == image[at..at + |t.names|][offset + |name|];
  }

  /** The contents of a file lie in the image at the offset of its record. */
  lemma BytesInImage(image: seq<byte>, t: Tables, f: nat, parent: nat, name: Name, bytes: seq<byte>)
    requires IsImage(image, t, 1) && FileHolds(t, f, parent, name, bytes)
    ensures var r := t.files[f - 1];
      r.size == |bytes| && (bytes != [] ==> r.offset + r.size <= |image| && image[r.offset..r.offset + r.size] == bytes)
  {
    hide Encode, DirBytes, FileBytes, AlignUp, HasName;
    var r := t.files[f - 1];
    if bytes != [] {
      var data := t.disk[DATA_START..];
      assert image[DATA_START..DATA_START + |data|] == data;
      SliceOfSlice(image, DATA_START, |data|, r.offset - DATA_START, r.size);
      SliceOfSlice(t.disk, DATA_START, |data|, r.offset - DATA_START, r.size);
      assert t.disk[DATA_START..DATA_START + |data|] == data;
    }
  }

  /** vfs_node_t: `data` is the address of the record, relative to the start of the image. */
  class VfsNode {
    const isDir: bool
    const data: nat

    constructor (isDir: bool, data: nat)
      ensures this.isDir == isDir && this.data == data
    {
      this.isDir, this.data := isDir, data;
    }
  }

  datatype LookupResult = NotDir | Missing | Found(node: VfsNode?)

  datatype ReadResult = IsDirectory | Count(bytes: seq<byte>)

  class Driver {
    const image: seq<byte>
    var dirCache: seq<VfsNode?>
    var fileCache: seq<VfsNode?>
    ghost const t: Tables
    ghost const tree: seq<Tree>

    ghost function DirAddress(i: nat): int { Layout(t, 1).dirs + (i - 1) * RECORD_SIZE }

    ghost function FileAddress(i: nat): int { Layout(t, 1).files + (i - 1) * RECORD_SIZE }

    ghost predicate Valid()
      reads this
    {
      && Mounted(image, t, tree) && HeaderRead(image, Layout(t, 1))
      && |dirCache| == |t.dirs| && |fileCache| == |t.files|
      && (forall i :: 0 <= i < |dirCache| && dirCache[i] != null ==>
        dirCache[i].isDir && dirCache[i].data == DirAddress(i + 1))
      && (forall i :: 0 <= i < |fileCache| && fileCache[i] != null ==>
            !fileCache[i].isDir && fileCache[i].data == FileAddress(i + 1))
    }

    /** A node of the cache that stands for record i, a child of directory `parent`, holding what the tree says. */
    ghost predicate Represents(node: VfsNode, i: nat, parent: nat, x: Tree)
      reads this
    {
      match x
      case File(name, bytes) =>
        1 <= i <= |fileCache| && node == fileCache[i - 1] && FileHolds(t, i, parent, name, bytes)
      case Dir(name, below) =>
        1 <= i <= |dirCache| && node == dirCache[i - 1] && DirHolds(t, i, parent, |t.dirs|, x) && Packable(below)
    }

    /** rdsk_mount, which checks the revision and empties the caches */
    constructor (image: seq<byte>, ghost t: Tables, ghost tree: seq<Tree>)
      requires Mounted(image, t, tree)
      ensures Valid() && this.image == image && this.t == t && this.tree == tree
      ensures Read(image, 4, 2) <= SUPPORTED_REVISION
    {
      HeaderFacts(image, t, tree);
      this.image, this.t, this.tree := image, t, tree;
      dirCache := seq(Read(image, 34, 8), _ => null);
      fileCache := seq(Read(image, 52, 8), _ => null);
    }

    // ----- Addresses and indices

    /** get_dir */
    function GetDir(index: nat): int
      requires |image| >= HEADER_SIZE
    {
      Read(image, 42, 8) + (index - 1) * Read(image, 32, 2)
    }

    /** get_file */
    function GetFile(index: nat): int
      requires |image| >= HEADER_SIZE
    {
      Read(image, 60, 8) + (index - 1) * Read(image, 50, 2)
    }

    /** get_dir_index */
    function GetDirIndex(address: int): int
      requires |image| >= HEADER_SIZE && Read(image, 32, 2) > 0
    {
      (address - Read(image, 42, 8)) / Read(image, 32, 2) + 1
    }

    /** get_file_index */
    function GetFileIndex(address: int): int
      requires |image| >= HEADER_SIZE && Read(image, 50, 2) > 0
    {
      (address - Read(image, 60, 8)) / Read(image, 50, 2) + 1
    }

    /** Records lie where the packer put them, and an index is found again from the address. */
    lemma Addresses(i: nat)
      requires Valid() && i >= 1
      ensures |image| >= HEADER_SIZE && Read(image, 32, 2) > 0 && Read(image, 50, 2) > 0
      ensures GetDir(i) == DirAddress(i) && GetDirIndex(GetDir(i)) == i
      ensures GetFile(i) == FileAddress(i) && GetFileIndex(GetFile(i)) == i
    {
      hide Mounted, Read;
    }

    lemma DirRecordAt(i: nat)
      requires Valid() && IsDir(t, i)
      ensures 0 <= DirAddress(i) && DirAddress(i) + RECORD_SIZE <= |image|
      ensures DirAt(image, DirAddress(i)) == t.dirs[i - 1]
    {
      hide IsImage, Fits, Holds, Read, DirAt;
      DirBack(image, t, 1, i - 1);
    }

    lemma FileRecordAt(i: nat)
      requires Valid() && IsFile(t, i)
      ensures 0 <= FileAddress(i) && FileAddress(i) + RECORD_SIZE <= |image|
      ensures FileAt(image, FileAddress(i)) == t.files[i - 1]
    {
      hide IsImage, Fits, Holds, Read, FileAt;
      FileBack(image, t, 1, i - 1);
    }

    lemma NameStored(offset: nat, name: Name)
      requires Valid() && HasName(t.names, offset, name)
      ensures |image| >= HEADER_SIZE && HasName(image, Read(image, 16, 8) + offset, name)
    {
      hide IsImage, Fits, Holds, Read, HasName;
      NameInImage(image, t, offset, name);
    }

    /** The same record always has the same node: once made, a node stays in the cache. */
    twostate predicate CachesGrow()
      reads this
    {
      && |old(dirCache)| <= |dirCache| && |old(fileCache)| <= |fileCache|
      && (forall i :: 0 <= i < |old(dirCache)| && old(dirCache)[i] != null ==> dirCache[i] == old(dirCache)[i])
      && (forall i :: 0 <= i < |old(fileCache)| && old(fileCache)[i] != null ==> fileCache[i] == old(fileCache)[i])
    }

    /** get_dir_vfs_node */
    method GetDirNode(index: nat) returns (node: VfsNode)
      requires Valid() && IsDir(t, index)
      modifies this
      ensures Valid() && CachesGrow() && index <= |dirCache| && node == dirCache[index - 1]
    {
      hide Mounted, HeaderRead;
      Addresses(index);
      DirRecordAt(index);
      var cached := dirCache[index - 1];
      if cached != null { return cached; }
      node := new VfsNode(true, GetDir(index));
      dirCache := dirCache[index - 1 := node];
    }

    /** get_file_vfs_node */
    method GetFileNode(index: nat) returns (node: VfsNode)
      requires Valid() && IsFile(t, index)
      modifies this
      ensures Valid() && CachesGrow() && index <= |fileCache| && node == fileCache[index - 1]
    {
      hide Mounted, HeaderRead;
      Addresses(index);
      FileRecordAt(index);
      var cached := fileCache[index - 1];
      if cached != null { return cached; }
      node := new VfsNode(false, GetFile(index));
      fileCache := fileCache[index - 1 := node];
    }

    // ----- Names

    /** strcmp(name, ...) == 0, for a name in the image */
    method SameName(name: Name, at: nat, ghost stored: Name) returns (same: bool)
      requires Terminable(name) && Terminable(stored) && HasName(image, at, stored)
      ensures same <==> name == stored
    {
      var i := 0;
      while true
        invariant 0 <= i <= |name| && i <= |stored| && name[..i] == stored[..i]
        decreases |name| - i
      {
        assert image[at + i] == if i < |stored| then stored[i] else 0 by {
          if i < |stored| { assert image[at..at + |stored|][i] == stored[i]; }
        }
        var left := if i < |name| then name[i] else 0;
        if left != image[at + i] { return false; }
        if left == 0 {
          assert i == |name| && i == |stored|;
          return true;
        }
        i := i + 1;
      }
    }

    // ----- Looking up

    /** find_file: the address of the record with this name in the directory at `dir`. */
    method FindFile(dir: int, name: Name, ghost d: nat, ghost children: seq<Tree>)
      returns (res: Option<int>, ghost i: nat)
      requires Valid() && StoresDir(t, d, children) && dir == DirAddress(d) && Terminable(name)
      ensures res.None? ==> FindIn(Files(children), name).None?
      ensures res.Some? ==>
        && FindIn(Files(children), name).Some? && IsFile(t, i) && res.value == FileAddress(i)
        && var x := FindIn(Files(children), name).value; x.File? && FileHolds(t, i, d, x.name, x.bytes)
      ensures i == FirstFile(t, t.dirs[d - 1].files, name) && (res.None? <==> i == 0)
    {
      hide IsImage, Fits, Holds, FileHolds, HeaderRead, Read, HasName, Files, NameAt;
      DirRecordAt(d);
      PlainFiles(children);
      ghost var chain, rest := t.dirs[d - 1].dirs, children;
      var curIndex := DirAt(image, dir).files;
      i := 0;
      while curIndex != 0
        invariant Holds(t, d, |t.dirs|, chain, curIndex, rest)
        invariant FindIn(Files(rest), name) == FindIn(Files(children), name)
        invariant forall x :: x in Files(rest) ==> Terminable(x.name)
        invariant FirstFile(t, curIndex, name) == FirstFile(t, t.dirs[d - 1].files, name)
        decreases |Files(rest)|
      {
        ghost var chain', rest' := FileStep(t, d, |t.dirs|, chain, curIndex, rest);
        ghost var x := Files(rest)[0];
        FileFacts(t, curIndex, d, x.name, x.bytes);
        FileNamed(t, curIndex, d, x);
        i := curIndex;
        Addresses(curIndex);
        FileRecordAt(curIndex);
        var curFile := GetFile(curIndex);
        curIndex := FileAt(image, curFile).next;
        NameStored(FileAt(image, curFile).name, x.name);
        var same := SameName(name, Read(image, 16, 8) + FileAt(image, curFile).name, x.name);
        if same { return Some(curFile), i; }
        chain, rest := chain', rest';
      }
      FilesEnd(t, d, |t.dirs|, chain, rest);
      return None, 0;
    }

    /** find_dir: the address of the record with this name in the directory at `dir`. */
    method FindDir(dir: int, name: Name, ghost d: nat, ghost children: seq<Tree>)
      returns (res: Option<int>, ghost i: nat)
      requires Valid() && StoresDir(t, d, children) && dir == DirAddress(d) && Terminable(name)
      ensures res.None? ==> FindIn(Dirs(children), name).None?
      ensures res.Some? ==>
        && FindIn(Dirs(children), name).Some? && IsDir(t, i) && res.value == DirAddress(i)
        && var x := FindIn(Dirs(children), name).value; DirHolds(t, i, d, |t.dirs|, x) && Packable(x.children)
      ensures i == FirstDir(t, t.dirs[d - 1].dirs, name) && (res.None? <==> i == 0)
    {
      hide IsImage, Fits, Holds, DirHolds, HeaderRead, Read, HasName, Dirs, Packable, NameAt;
      DirRecordAt(d);
      PlainFiles(children);
      ghost var chain, rest := t.dirs[d - 1].files, children;
      var curIndex := DirAt(image, dir).dirs;
      i := 0;
      while curIndex != 0
        invariant Holds(t, d, |t.dirs|, curIndex, chain, rest)
        invariant FindIn(Dirs(rest), name) == FindIn(Dirs(children), name)
        invariant forall x :: x in Dirs(rest) ==> Terminable(x.name) && (x.Dir? ==> Packable(x.children))
        invariant FirstDir(t, curIndex, name) == FirstDir(t, t.dirs[d - 1].dirs, name)
        decreases |Dirs(rest)|
      {
        ghost var chain', rest' := DirStep(t, d, |t.dirs|, curIndex, chain, rest);
        ghost var x := Dirs(rest)[0];
        DirFacts(t, curIndex, d, |t.dirs|, x);
        NameFound(t.names, t.dirs[curIndex - 1].name, x.name);
        i := curIndex;
        Addresses(curIndex);
        DirRecordAt(curIndex);
        var curDir := GetDir(curIndex);
        curIndex := DirAt(image, curDir).next;
        NameStored(DirAt(image, curDir).name, x.name);
        var same := SameName(name, Read(image, 16, 8) + DirAt(image, curDir).name, x.name);
        if same { return Some(curDir), i; }
        chain, rest := chain', rest';
      }
      DirsEnd(t, d, |t.dirs|, chain, rest);
      return None, 0;
    }

    /** The cached node of the first child of that name: files before directories. */
    ghost function ChildNode(d: nat, name: Name): LookupResult
      requires 1 <= d <= |t.dirs|
      reads this
    {
      var i, j := FirstFile(t, t.dirs[d - 1].files, name), FirstDir(t, t.dirs[d - 1].dirs, name);
      if 0 < i <= |fileCache| then Found(fileCache[i - 1]) else if 0 < j <= |dirCache| then Found(dirCache[j - 1])
      else Missing
    }

    lemma CacheSizes()
      requires Valid()
      ensures |fileCache| == |t.files| && |dirCache| == |t.dirs|
    {
    }

    /** The end of rdsk_node_lookup: an ordinary name is looked up among the files, then among the directories. */
    method LookupChild(node: VfsNode, name: Name, ghost d: nat, ghost children: seq<Tree>)
      returns (res: LookupResult, ghost i: nat)
      requires Valid() && Terminable(name) && StoresDir(t, d, children) && node.data == DirAddress(d)
      modifies this
      ensures Valid() && CachesGrow()
      ensures match Child(children, name)
              case None => res == Missing
              case Some(x) => res.Found? && res.node != null && Represents(res.node, i, d, x)
      ensures res == ChildNode(d, name)
    {
      hide Valid, Holds, FileHolds, DirHolds, Read, HasName, Dirs, Files, Packable, FindIn, FirstFile, FirstDir;
      CacheSizes();
      var file;
      file, i := FindFile(node.data, name, d, children);
      if file.Some? {
        Addresses(i);
        var found := GetFileNode(GetFileIndex(file.value));
        return Found(found), i;
      }
      var dir;
      dir, i := FindDir(node.data, name, d, children);
      if dir.Some? {
        Addresses(i);
        DirFacts(t, i, d, |t.dirs|, FindIn(Dirs(children), name).value);
        var found := GetDirNode(GetDirIndex(dir.value));
        return Found(found), i;
      }
      return Missing, 0;
    }

    /** rdsk_node_lookup on a node for record d of the directory with these children; -ENOENT is Missing, and a null
        node stands for the parent of the root. */
    method Lookup(node: VfsNode, name: Name, ghost d: nat, ghost children: seq<Tree>)
      returns (res: LookupResult, ghost i: nat)
      requires Valid() && Terminable(name)
      requires node.isDir ==>
        StoresDir(t, d, children) && node.data == DirAddress(d) && t.dirs[d - 1].parent <= |t.dirs|
      requires node.isDir && t.dirs[d - 1].parent > 0 ==> IsDir(t, t.dirs[d - 1].parent)
      modifies this
      ensures Valid() && CachesGrow()
      ensures !node.isDir ==> res == NotDir
      ensures node.isDir && name == DOT ==> res == Found(node)
      ensures node.isDir && name == DOT_DOT ==>
        res == Found(if t.dirs[d - 1].parent == 0 then null else dirCache[t.dirs[d - 1].parent - 1])
        && (t.dirs[d - 1].parent != 0 ==> res.node != null)
      ensures node.isDir && name != DOT && name != DOT_DOT ==>
        match Child(children, name)
        case None => res == Missing
        case Some(x) => res.Found? && res.node != null && Represents(res.node, i, d, x)
      ensures node.isDir && name != DOT && name != DOT_DOT ==> res == ChildNode(d, name)
    {
      hide Valid, Holds, Read, Packable, Represents, Child, ChildNode;
      i := 0;
      if !node.isDir { return NotDir, 0; }
      if name == DOT { return Found(node), d; }
      DirRecordAt(d);
      var parent := DirAt(image, node.data).parent;
      if name == DOT_DOT {
        if parent != 0 {
          var up := GetDirNode(parent);
          return Found(up), parent;
        }
        return Found(null), 0;
      }
      res, i := LookupChild(node, name, d, children);
    }

    /** rdsk_root */
    method Root() returns (node: VfsNode)
      requires Valid()
      modifies this
      ensures Valid() && CachesGrow() && Represents(node, 1, 0, Dir(ROOT_NAME, tree))
    {
      hide IsImage, Fits, Holds, Read, HasName, Packable;
      node := GetDirNode(Read(image, 8, 8));
    }

    /** rdsk_node_lookup along a path from the root */
    method Walk(path: seq<Name>) returns (res: LookupResult, ghost i: nat, ghost parent: nat)
      requires Valid() && forall k :: 0 <= k < |path| ==> Terminable(path[k]) && path[k] != DOT && path[k] != DOT_DOT
      modifies this
      ensures Valid()
      ensures match Target(Dir(ROOT_NAME, tree), path)
              case None => res == NotDir || res == Missing
              case Some(x) => res.Found? && res.node != null && Represents(res.node, i, parent, x)
    {
      hide Valid, Represents, Child;
      var node: VfsNode := Root();
      i, parent := 1, 0;
      ghost var x := Dir(ROOT_NAME, tree);
      var k := 0;
      while k < |path|
        invariant 0 <= k <= |path| && Valid() && Represents(node, i, parent, x) && (parent > 0 ==> IsDir(t, parent))
        invariant Target(Dir(ROOT_NAME, tree), path) == Target(x, path[k..])
      {
        RepresentsRecord(node, i, parent, x);
        var found;
        ghost var j;
        assert path[k..][0] == path[k] && path[k..][1..] == path[k + 1..];
        found, j := Lookup(node, path[k], i, if x.Dir? then x.children else []);
        if found.NotDir? || found.Missing? { return found, 0, 0; }
        node := found.node;
        i, parent, x := j, i, Child(x.children, path[k]).value;
        k := k + 1;
      }
      return Found(node), i, parent;
    }

    lemma RepresentsRecord(node: VfsNode, i: nat, parent: nat, x: Tree)
      requires Valid() && Represents(node, i, parent, x)
      ensures node.isDir == x.Dir?
      ensures x.Dir? ==>
        StoresDir(t, i, x.children) && node.data == DirAddress(i) && t.dirs[i - 1].parent == parent < i <= |t.dirs|
      ensures x.File? ==> IsFile(t, i) && node.data == FileAddress(i)
    {
      hide Mounted, HeaderRead, HasName, Holds;
    }

    /** rdsk_node_name: the address of the name in the image; the root has none. The name of a directory is read as if
        its record were that of a file. */
    method NodeName(node: VfsNode, ghost i: nat, ghost parent: nat, ghost x: Tree) returns (name: Option<nat>)
      requires Valid() && Represents(node, i, parent, x)
      ensures name.None? <==> x.Dir? && parent == 0
      ensures name.Some? ==> HasName(image, name.value, x.name)
    {
      hide IsImage, Fits, Holds, Read, HasName, HeaderRead, FileAt, DirAt;
      RepresentsRecord(node, i, parent, x);
      if node.isDir {
        DirRecordAt(i);
        if DirAt(image, node.data).parent == 0 { return None; }
        SameNameField(image, node.data);
        NameStored(t.dirs[i - 1].name, x.name);
      } else {
        FileRecordAt(i);
        NameStored(t.files[i - 1].name, x.name);
      }
      return Some(Read(image, 16, 8) + FileAt(image, node.data).name);
    }

    /** rdsk_node_rw for reading */
    method ReadNode(node: VfsNode, offset: nat, size: nat, ghost i: nat, ghost parent: nat, ghost x: Tree)
      returns (res: ReadResult)
      requires Valid() && Represents(node, i, parent, x)
      ensures match x
              case Dir(_, _) => res == IsDirectory
              case File(_, bytes) =>
                res == Count(Slice(bytes, offset, size))
    {
      hide IsImage, Fits, Holds, Read, HasName, HeaderRead, FileAt;
      RepresentsRecord(node, i, parent, x);
      if node.isDir { return IsDirectory; }
      FileRecordAt(i);
      BytesInImage(image, t, i, parent, x.name, x.bytes);
      var file := FileAt(image, node.data);
      if offset >= file.size { return Count([]); }
      var count := file.size - offset;
      if count > size { count := size; }
      SliceOfSlice(image, file.offset, file.size, offset, count);
      return Count(image[file.offset + offset..file.offset + offset + count]);
    }

    // ----- Listing

    /** The first loop of rdsk_node_readdir: the index after `steps` steps along the file chain, or 0 at its end. */
    method SkipFiles(first: nat, steps: nat, ghost d: nat, ghost chain: nat, ghost children: seq<Tree>)
      returns (index: nat)
      requires Valid() && Holds(t, d, |t.dirs|, chain, first, children)
      ensures index == 0 <==> steps >= |Files(children)|
      ensures index > 0 ==> FileHolds(t, index, d, Files(children)[steps].name, Files(children)[steps].bytes)
    {
      hide Mounted, Holds, Read, HeaderRead, HasName, FileHolds;
      index := first;
      ghost var c, rest := chain, children;
      ChainHead(t, d, c, index, rest);
      var i := 0;
      while i < steps && index != 0
        invariant 0 <= i <= |Files(children)| && i <= steps
        invariant Holds(t, d, |t.dirs|, c, index, rest) && Files(rest) == Files(children)[i..]
        invariant index == 0 <==> Files(rest) == []
      {
        ghost var c', rest' := FileStep(t, d, |t.dirs|, c, index, rest);
        FileFacts(t, index, d, Files(rest)[0].name, Files(rest)[0].bytes);
        Addresses(index);
        FileRecordAt(index);
        index := FileAt(image, GetFile(index)).next;
        c, rest := c', rest';
        ChainHead(t, d, c, index, rest);
        i := i + 1;
      }
      ChainHead(t, d, c, index, rest);
    }

    /** The second loop, over the directory chain. */
    method SkipDirs(first: nat, steps: nat, ghost d: nat, ghost chain: nat, ghost children: seq<Tree>)
      returns (index: nat)
      requires Valid() && Holds(t, d, |t.dirs|, first, chain, children)
      ensures index == 0 <==> steps >= |Dirs(children)|
      ensures index > 0 ==> DirHolds(t, index, d, |t.dirs|, Dirs(children)[steps])
    {
      hide Mounted, Holds, Read, HeaderRead, HasName, DirHolds;
      index := first;
      ghost var c, rest := chain, children;
      DirChainHead(t, d, index, c, rest);
      var i := 0;
      while i < steps && index != 0
        invariant 0 <= i <= |Dirs(children)| && i <= steps
        invariant Holds(t, d, |t.dirs|, index, c, rest) && Dirs(rest) == Dirs(children)[i..]
        invariant index == 0 <==> Dirs(rest) == []
      {
        ghost var c', rest' := DirStep(t, d, |t.dirs|, index, c, rest);
        DirFacts(t, index, d, |t.dirs|, Dirs(rest)[0]);
        Addresses(index);
        DirRecordAt(index);
        index := DirAt(image, GetDir(index)).next;
        c, rest := c', rest';
        DirChainHead(t, d, index, c, rest);
        i := i + 1;
      }
      DirChainHead(t, d, index, c, rest);
    }

    /** The place in the listing that an offset stands for: past the last file, offsets go on behind the file table. */
    ghost function Position(children: seq<Tree>, offset: nat): nat {
      var n := |Files(children)|;
      if offset < |t.files| then (if offset < n then offset else n) else n + (offset - |t.files|)
    }

    /** rdsk_node_readdir; the result is the address of the name in the image. Offsets stay
        within the number of records, which for a mounted image is below 2^31. */
    method Readdir(node: VfsNode, offset: nat, ghost d: nat, ghost children: seq<Tree>)
      returns (name: Option<nat>, offset': nat)
      requires Valid() && node.isDir && node.data == DirAddress(d) && StoresDir(t, d, children)
      ensures var list, p := Files(children) + Dirs(children), Position(children, offset);
        if p < |list| then
          name.Some? && HasName(image, name.value, list[p].name) && Position(children, offset') == p + 1
        else name.None? && offset' == offset
      ensures offset <= |t.files| + |t.dirs| ==> offset' <= |t.files| + |t.dirs|
    {
      hide Mounted, Holds, Read, HasName, FileHolds, DirHolds, Files, Dirs, Packable;
      var localOffset := offset;
      DirRecordAt(d);
      Addresses(d);
      var dir := DirAt(image, node.data);
      ListingFits(t, d, |t.dirs|, dir.dirs, dir.files, children);
      if localOffset < Read(image, 52, 8) {
        var index := SkipFiles(dir.files, localOffset, d, dir.dirs, children);
        if index == 0 {
          localOffset := Read(image, 52, 8);
        } else {
          FileFacts(t, index, d, Files(children)[offset].name, Files(children)[offset].bytes);
          Addresses(index);
          FileRecordAt(index);
          NameStored(FileAt(image, GetFile(index)).name, Files(children)[offset].name);
          return Some(Read(image, 16, 8) + FileAt(image, GetFile(index)).name), localOffset + 1;
        }
      }
      var steps := localOffset - Read(image, 52, 8);
      var index := SkipDirs(dir.dirs, steps, d, dir.files, children);
      if index == 0 { return None, offset; }
      DirFacts(t, index, d, |t.dirs|, Dirs(children)[steps]);
      Addresses(index);
      DirRecordAt(index);
      NameStored(DirAt(image, GetDir(index)).name, Dirs(children)[steps].name);
      return Some(Read(image, 16, 8) + DirAt(image, GetDir(index)).name), localOffset + 1;
    }

    /** Repeated rdsk_node_readdir from offset 0: every child once, then the end. */
    method ListAll(node: VfsNode, ghost d: nat, ghost children: seq<Tree>) returns (names: seq<nat>)
      requires Valid() && node.isDir && node.data == DirAddress(d) && StoresDir(t, d, children)
      ensures |names| == |children|
      ensures var list := Files(children) + Dirs(children);
        |list| == |children| && multiset(list) == multiset(children)
        && forall k :: 0 <= k < |names| ==> HasName(image, names[k], list[k].name)
    {
      hide Valid, StoresDir, Files, Dirs, HasName;
      ghost var list := Files(children) + Dirs(children);
      ListedOnce(children);
      assert |multiset(list)| == |list| && |multiset(children)| == |children|;
      names := [];
      var offset: nat := 0;
      StartPosition(d, children);
      while true
        invariant Position(children, offset) == |names| <= |list| && offset <= |t.files| + |t.dirs|
        invariant forall k :: 0 <= k < |names| ==> HasName(image, names[k], list[k].name)
        decreases |list| - |names|
      {
        var name;
        name, offset := Readdir(node, offset, d, children);
        if name.None? { return; }
        names := names + [name.value];
      }
    }

    lemma StartPosition(d: nat, children: seq<Tree>)
      requires StoresDir(t, d, children)
      ensures Position(children, 0) == 0
    {
      ListingFits(t, d, |t.dirs|, t.dirs[d - 1].dirs, t.dirs[d - 1].files, children);
    }
  }

  /** Both kinds of record have the name at the same place. */
  lemma SameNameField(image: seq<byte>, at: nat)
    requires at + RECORD_SIZE <= |image|
    ensures DirAt(image, at).name == FileAt(image, at).name
  {
  }

  lemma DirChainHead(t: Tables, d: nat, dir: nat, chain: nat, children: seq<Tree>)
    requires Holds(t, d, |t.dirs|, dir, chain, children)
    ensures dir == 0 <==> Dirs(children) == []
    ensures dir > 0 ==> DirHolds(t, dir, d, |t.dirs|, Dirs(children)[0])
  {
    hide Holds, HasName;
    var c, rest := DirStep(t, d, |t.dirs|, dir, chain, children);
  }

  /** A chain that goes on holds the first file of the listing. */
  lemma ChainHead(t: Tables, d: nat, chain: nat, file: nat, children: seq<Tree>)
    requires Holds(t, d, |t.dirs|, chain, file, children)
    ensures file == 0 <==> Files(children) == []
    ensures file > 0 ==> FileHolds(t, file, d, Files(children)[0].name, Files(children)[0].bytes)
  {
    hide Holds, HasName;
    var c, rest := FileStep(t, d, |t.dirs|, chain, file, children);
  }

  /** At most `size` bytes from an offset on. */
  function Slice(bytes: seq<byte>, offset: nat, size: nat): seq<byte> {
    if offset >= |bytes| then [] else bytes[offset..if size < |bytes| - offset then offset + size else |bytes|]
  }

  /** As many bytes as asked for, or as there are. */
  lemma SliceExact(bytes: seq<byte>, offset: nat, size: nat)
    ensures var s := Slice(bytes, offset, size);
      && |s| <= size && offset + |s| <= (if offset < |bytes| then |bytes| else offset)
      && (|s| == size || offset + |s| >= |bytes|)
      && forall k :: 0 <= k < |s| ==> s[k] == bytes[offset + k]
  {
  }

  /** Where a path leads in a tree. */
  function Target(x: Tree, path: seq<Name>): Option<Tree>
    decreases |path|
  {
    if path == [] then Some(x)
    else if x.File? then None
    else
      match Child(x.children, path[0])
      case None => None
      case Some(y) => Target(y, path[1..])
  }

  lemma DirFacts(t: Tables, i: nat, cur: nat, hi: nat, x: Tree)
    requires DirHolds(t, i, cur, hi, x)
    ensures IsDir(t, i) && x.Dir? && HasName(t.names, t.dirs[i - 1].name, x.name)
  {
  }

  lemma PlainFiles(children: seq<Tree>)
    requires Packable(children)
    ensures forall x :: x in Files(children) ==> Terminable(x.name)
    ensures forall x :: x in Dirs(children) ==> Terminable(x.name) && (x.Dir? ==> Packable(x.children))
  {
    forall x
      ensures (x in Files(children) ==> x in children) && (x in Dirs(children) ==> x in children)
    {
      FilesAre(children, x);
    }
  }

  lemma FileFacts(t: Tables, f: nat, parent: nat, name: Name, bytes: seq<byte>)
    requires FileHolds(t, f, parent, name, bytes)
    ensures IsFile(t, f) && HasName(t.names, t.files[f - 1].name, name)
  {
  }
}
