/** The chains of records in the tables of an image, as the driver goes along them (kernel/src/fs/rdsk.c:108-128). */
module RdskChains {
  import opened Options
  import opened Bytes
  import opened RdskTree
  import opened RdskListing

  /** The bytes from an offset on up to the terminator. */
  function NameAt(names: seq<byte>, offset: nat): Name
    decreases |names| - offset
  {
    if offset >= |names| || names[offset] == 0 then [] else [names[offset]] + NameAt(names, offset + 1)
  }

  lemma {:induction false} NameFound(names: seq<byte>, offset: nat, name: Name)
    requires HasName(names, offset, name) && Terminable(name)
    ensures NameAt(names, offset) == name
    decreases |name|
  {
    if name != [] {
      assert names[offset..offset + |name|][0] == name[0];
      assert names[offset + 1..offset + |name|] == name[1..];
      NameFound(names, offset + 1, name[1..]);
    }
  }

  // ----- Chains

  function FileChain(t: Tables, i: nat): (chain: seq<nat>) {
    if i == 0 || i > |t.files| then []
    else [i] + (if t.files[i - 1].next < i then FileChain(t, t.files[i - 1].next) else [])
  }

  function DirChain(t: Tables, i: nat): (chain: seq<nat>) {
    if i == 0 || i > |t.dirs| then []
    else [i] + (if t.dirs[i - 1].next < i then DirChain(t, t.dirs[i - 1].next) else [])
  }

  lemma {:induction false} FilesOfChain(t: Tables, cur: nat, hi: nat, dir: nat, file: nat, children: seq<Tree>)
    requires Holds(t, cur, hi, dir, file, children)
    ensures var chain, list := FileChain(t, file), Files(children);
      |chain| == |list| && forall k :: 0 <= k < |chain| ==> FileHolds(t, chain[k], cur, list[k].name, list[k].bytes)
    decreases |Files(children)|
  {
    hide Holds, FileHolds, HasName;
    var dir', rest := FileStep(t, cur, hi, dir, file, children);
    if Files(children) != [] {
      FileHasRecord(t, file, cur, Files(children)[0].name, Files(children)[0].bytes);
      FilesOfChain(t, cur, hi, dir', t.files[file - 1].next, rest);
    }
  }

  lemma {:induction false} DirsOfChain(t: Tables, cur: nat, hi: nat, dir: nat, file: nat, children: seq<Tree>)
    requires Holds(t, cur, hi, dir, file, children)
    ensures var chain, list := DirChain(t, dir), Dirs(children);
      |chain| == |list| && forall k :: 0 <= k < |chain| ==> DirHolds(t, chain[k], cur, hi, list[k])
    decreases |Dirs(children)|
  {
    hide Holds, HasName;
    var file', rest := DirStep(t, cur, hi, dir, file, children);
    if Dirs(children) != [] { DirsOfChain(t, cur, hi, t.dirs[dir - 1].next, file', rest); }
  }

  // ----- Finding a name

  /** The first file of that name in the chain, as find_file goes along it; 0 if there is none. */
  function FirstFile(t: Tables, i: nat, name: Name): (k: nat)
    ensures k <= |t.files|
  {
    if i == 0 || i > |t.files| then 0
    else if NameAt(t.names, t.files[i - 1].name) == name then i
    else if t.files[i - 1].next < i then FirstFile(t, t.files[i - 1].next, name) else 0
  }

  /** The same for directories. */
  function FirstDir(t: Tables, i: nat, name: Name): (k: nat)
    ensures k <= |t.dirs|
  {
    if i == 0 || i > |t.dirs| then 0
    else if NameAt(t.names, t.dirs[i - 1].name) == name then i
    else if t.dirs[i - 1].next < i then FirstDir(t, t.dirs[i - 1].next, name) else 0
  }

  lemma {:induction false} FirstFileIs(t: Tables, cur: nat, hi: nat, dir: nat, file: nat, children: seq<Tree>,
                                       name: Name)
    requires Holds(t, cur, hi, dir, file, children) && forall x :: x in Files(children) ==> Terminable(x.name)
    ensures match FindIn(Files(children), name)
            case None => FirstFile(t, file, name) == 0
            case Some(x) =>
              && x.File? && FirstFile(t, file, name) in FileChain(t, file)
              && FileHolds(t, FirstFile(t, file, name), cur, x.name, x.bytes)
    decreases |Files(children)|
  {
    hide Holds, FileHolds, HasName, NameAt;
    var dir', rest := FileStep(t, cur, hi, dir, file, children);
    if Files(children) != [] {
      var x := Files(children)[0];
      FileNamed(t, file, cur, x);
      FirstFileIs(t, cur, hi, dir', t.files[file - 1].next, rest, name);
    }
  }

  lemma FileNamed(t: Tables, i: nat, parent: nat, x: Tree)
    requires x.File? && FileHolds(t, i, parent, x.name, x.bytes) && Terminable(x.name)
    ensures IsFile(t, i) && NameAt(t.names, t.files[i - 1].name) == x.name
  {
    NameFound(t.names, t.files[i - 1].name, x.name);
  }

  lemma {:induction false} FirstDirIs(t: Tables, cur: nat, hi: nat, dir: nat, file: nat, children: seq<Tree>,
                                      name: Name)
    requires Holds(t, cur, hi, dir, file, children) && forall x :: x in Dirs(children) ==> Terminable(x.name)
    ensures match FindIn(Dirs(children), name)
            case None => FirstDir(t, dir, name) == 0
            case Some(x) =>
              FirstDir(t, dir, name) in DirChain(t, dir) && DirHolds(t, FirstDir(t, dir, name), cur, hi, x)
    decreases |Dirs(children)|
  {
    hide Holds, HasName, NameAt;
    var file', rest := DirStep(t, cur, hi, dir, file, children);
    if Dirs(children) != [] {
      var x := Dirs(children)[0];
      NameFound(t.names, t.dirs[dir - 1].name, x.name);
      FirstDirIs(t, cur, hi, t.dirs[dir - 1].next, file', rest, name);
    }
  }
}
