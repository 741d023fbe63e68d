/** The tables of an RDSK image and the directory tree they stand for (rdsk/src/main.c:16-48). */
module RdskTree {
  import opened Bytes

  /** Where file contents begin: the 68-byte header, aligned to 64. */
  const DATA_START: nat := 128

  type Name = seq<byte>

  datatype Tree = File(name: Name, bytes: seq<byte>) | Dir(name: Name, children: seq<Tree>)

  datatype DirRecord = DirRecord(used: bool, name: nat, files: nat, dirs: nat, next: nat, parent: nat)

  datatype FileRecord = FileRecord(used: bool, name: nat, offset: nat, size: nat, next: nat, parent: nat)

  /** "RDSK" */
  const ROOT_NAME: Name := [0x52, 0x44, 0x53, 0x4B]

  const FREE_DIR: DirRecord := DirRecord(false, 0, 0, 0, 0, 0)
  const FREE_FILE: FileRecord := FileRecord(false, 0, 0, 0, 0, 0)

  /** Both tables (record i is entry i - 1), the names with their terminators, and the file that holds the contents. */
  datatype Tables = Tables(dirs: seq<DirRecord>, files: seq<FileRecord>, names: seq<byte>, disk: seq<byte>)

  predicate HasName(names: seq<byte>, offset: nat, name: Name) {
    offset + |name| < |names| && names[offset..offset + |name|] == name && names[offset + |name|] == 0
  }

  predicate IsDir(t: Tables, i: nat) { 1 <= i <= |t.dirs| && t.dirs[i - 1].used }

  predicate IsFile(t: Tables, i: nat) { 1 <= i <= |t.files| && t.files[i - 1].used }

  /** Record f describes a file of directory `parent`. */
  predicate FileHolds(t: Tables, f: nat, parent: nat, name: Name, bytes: seq<byte>) {
    IsFile(t, f) &&
    var r := t.files[f - 1];
    && HasName(t.names, r.name, name) && r.parent == parent && r.size == |bytes|
    && DATA_START <= r.offset && r.offset + r.size <= |t.disk| && t.disk[r.offset..r.offset + r.size] == bytes
  }

  /** The chains from record `dir` and record `file` on hold exactly these children of directory `cur`, the last one
      first, each directory with all that is below it; their directories are records after `cur` up to `hi`. */
  predicate Holds(t: Tables, cur: nat, hi: nat, dir: nat, file: nat, children: seq<Tree>)
    decreases children, 0
  {
    if children == [] then dir == 0 && file == 0
    else
      var last, init := children[|children| - 1], children[..|children| - 1];
      match last
      case File(name, bytes) =>
        && FileHolds(t, file, cur, name, bytes) && t.files[file - 1].next < file
        && Holds(t, cur, hi, dir, t.files[file - 1].next, init)
      case Dir(name, below) =>
        && IsDir(t, dir) && cur < dir <= hi && HasName(t.names, t.dirs[dir - 1].name, name)
        && t.dirs[dir - 1].parent == cur
        && t.dirs[dir - 1].next < dir && Holds(t, dir, hi, t.dirs[dir - 1].dirs, t.dirs[dir - 1].files, below)
        && Holds(t, cur, hi, t.dirs[dir - 1].next, file, init)
  }

  /** Record d describes directory x of directory `cur`, and everything below it. */
  predicate DirHolds(t: Tables, d: nat, cur: nat, hi: nat, x: Tree) {
    && x.Dir? && IsDir(t, d) && cur < d <= hi
    && HasName(t.names, t.dirs[d - 1].name, x.name) && t.dirs[d - 1].parent == cur
    && Holds(t, d, hi, t.dirs[d - 1].dirs, t.dirs[d - 1].files, x.children)
  }

  /** u has everything t has: the used files, the names, the contents, and the directories in (lo, hi]. */
  predicate Extends(t: Tables, u: Tables, lo: nat, hi: nat) {
    && hi <= |t.dirs| <= |u.dirs| && (forall k :: lo <= k < hi ==> u.dirs[k] == t.dirs[k])
    && |t.files| <= |u.files| && (forall i :: 0 <= i < |t.files| && t.files[i].used ==> u.files[i] == t.files[i])
    && t.names <= u.names
    && |t.disk| <= |u.disk| && (forall i :: DATA_START <= i < |t.disk| ==> u.disk[i] == t.disk[i])
  }

  lemma NameStill(names: seq<byte>, more: seq<byte>, offset: nat, name: Name)
    requires HasName(names, offset, name) && names <= more
    ensures HasName(more, offset, name)
  {
    assert more[offset..offset + |name|] == more[..|names|][offset..offset + |name|];
    assert more[offset + |name|] == more[..|names|][offset + |name|];
  }

  lemma FileStill(t: Tables, u: Tables, lo: nat, hi: nat, f: nat, parent: nat, name: Name, bytes: seq<byte>)
    requires FileHolds(t, f, parent, name, bytes) && Extends(t, u, lo, hi)
    ensures FileHolds(u, f, parent, name, bytes) && u.files[f - 1] == t.files[f - 1]
  {
    NameStill(t.names, u.names, t.files[f - 1].name, name);
    var r := t.files[f - 1];
    assert u.disk[r.offset..r.offset + r.size] == t.disk[r.offset..r.offset + r.size];
  }

  /** What is stored stays stored while the tables grow and other directories get children. */
  lemma {:induction false} HoldsStill(t: Tables, u: Tables, cur: nat, hi: nat, hi': nat, dir: nat, file: nat,
                                      children: seq<Tree>)
    requires Holds(t, cur, hi, dir, file, children) && Extends(t, u, cur, hi) && hi <= hi'
    ensures Holds(u, cur, hi', dir, file, children)
    decreases children
  {
    hide HasName, FileHolds;
    if children != [] {
      var last, init := children[|children| - 1], children[..|children| - 1];
      match last
      case File(name, bytes) =>
        FileStill(t, u, cur, hi, file, cur, name, bytes);
        FileHasRecord(t, file, cur, name, bytes);
        HoldsStill(t, u, cur, hi, hi', dir, t.files[file - 1].next, init);
      case Dir(name, below) =>
        NameStill(t.names, u.names, t.dirs[dir - 1].name, name);
        HoldsStill(t, u, dir, hi, hi', t.dirs[dir - 1].dirs, t.dirs[dir - 1].files, below);
        HoldsStill(t, u, cur, hi, hi', t.dirs[dir - 1].next, file, init);
    }
  }

  lemma FileHasRecord(t: Tables, f: nat, parent: nat, name: Name, bytes: seq<byte>)
    requires FileHolds(t, f, parent, name, bytes)
    ensures IsFile(t, f)
  {
  }

  /** Strings of the file system have no terminator inside. */
  predicate Terminable(name: Name) { 0 !in name }

  predicate Packable(children: seq<Tree>)
    decreases children, 0
  {
    forall i :: 0 <= i < |children| ==>
      Terminable(children[i].name) && (children[i].Dir? ==> Packable(children[i].children))
  }
}
