/** The host tool that packs a directory tree into an RDSK image (rdsk/src/main.c:50-263). */
module RdskPacker {
  import opened Bytes
  import opened RdskTree
  import opened RdskImage

  /** How many records of a table are in use: always the first ones. */
  predicate DirsUsed(dirs: seq<DirRecord>, n: nat) {
    n <= |dirs| && forall i :: 0 <= i < |dirs| ==> if i < n then dirs[i].used else dirs[i] == FREE_DIR
  }

  predicate FilesUsed(files: seq<FileRecord>, n: nat) {
    n <= |files| && forall i :: 0 <= i < |files| ==> if i < n then files[i].used else files[i] == FREE_FILE
  }

  function FreeDirs(n: nat): (s: seq<DirRecord>)
    ensures |s| == n && forall i :: 0 <= i < n ==> s[i] == FREE_DIR
  {
    seq(n, _ => FREE_DIR)
  }

  function FreeFiles(n: nat): (s: seq<FileRecord>)
    ensures |s| == n && forall i :: 0 <= i < n ==> s[i] == FREE_FILE
  {
    seq(n, _ => FREE_FILE)
  }

  /** What the fields of a record refer to exists; only the root's `next`, taken from in front of the table, may be
      anything. */
  predicate DirBounded(r: DirRecord, first: nat, names: nat, dirs: nat, files: nat) {
    r.name <= names && r.files <= files && r.dirs <= dirs && (r.next <= dirs || r.next == first) && r.parent <= dirs
  }

  predicate FileBounded(r: FileRecord, names: nat, disk: nat, dirs: nat, files: nat) {
    r.name <= names && r.offset + r.size <= disk && r.next <= files && r.parent <= dirs
  }

  predicate DirsBounded(dirs: seq<DirRecord>, first: nat, names: nat, n: nat, m: nat)
    requires n <= |dirs|
  {
    forall i :: 0 <= i < n ==> DirBounded(dirs[i], first, names, n, m)
  }

  predicate FilesBounded(files: seq<FileRecord>, names: nat, disk: nat, n: nat, m: nat)
    requires m <= |files|
  {
    forall i :: 0 <= i < m ==> FileBounded(files[i], names, disk, n, m)
  }

  lemma DirAddedBounded(was: seq<DirRecord>, dirs: seq<DirRecord>, first: nat, names: nat, names': nat, n: nat, m: nat,
                        parent: nat)
    requires n <= |was| && n < |dirs| && DirsBounded(was, first, names, n, m) && names <= names' && parent <= n
    requires forall k :: 0 <= k < n && k != parent - 1 ==> dirs[k] == was[k]
    requires parent > 0 ==> dirs[parent - 1] == was[parent - 1].(dirs := n + 1)
    requires DirBounded(dirs[n], first, names', n + 1, m)
    ensures DirsBounded(dirs, first, names', n + 1, m)
  {
  }

  lemma DirsGrown(dirs: seq<DirRecord>, first: nat, names: nat, n: nat, m: nat)
    requires n <= |dirs| && DirsBounded(dirs, first, names, n, m)
    ensures DirsBounded(dirs + FreeDirs(16), first, names, n, m)
  {
  }

  lemma FilesGrown(files: seq<FileRecord>, names: nat, disk: nat, n: nat, m: nat)
    requires m <= |files| && FilesBounded(files, names, disk, n, m)
    ensures FilesBounded(files + FreeFiles(16), names, disk, n, m)
  {
  }

  lemma ParentBounded(dirs: seq<DirRecord>, first: nat, names: nat, n: nat, m: nat, parent: nat)
    requires n <= |dirs| && DirsBounded(dirs, first, names, n, m) && parent <= n
    ensures parent > 0 ==> DirBounded(dirs[parent - 1], first, names, n, m)
  {
  }

  lemma FilesStillBounded(files: seq<FileRecord>, names: nat, disk: nat, n: nat, m: nat, names': nat, disk': nat,
                          n': nat)
    requires m <= |files| && FilesBounded(files, names, disk, n, m) && names <= names' && disk <= disk' && n <= n'
    ensures FilesBounded(files, names', disk', n', m)
  {
  }

  lemma FileAddedBounded(was: seq<FileRecord>, files: seq<FileRecord>, wasDirs: seq<DirRecord>, dirs: seq<DirRecord>,
                         first: nat,
                         names: nat, names': nat, disk: nat, n: nat, m: nat, parent: nat)
    requires m <= |was| && m < |files| && 1 <= parent <= n <= |wasDirs| == |dirs| && names <= names'
    requires DirsBounded(wasDirs, first, names, n, m) && FilesBounded(was, names, disk, n, m)
    requires dirs == wasDirs[parent - 1 := wasDirs[parent - 1].(files := m + 1)]
    requires (forall k :: 0 <= k < m ==> files[k] == was[k]) && FileBounded(files[m], names', disk, n, m + 1)
    ensures DirsBounded(dirs, first, names', n, m + 1) && FilesBounded(files, names', disk, n, m + 1)
  {
  }

  class Packer {
    var disk: seq<byte>
    /** The slot in front of the table, where the record of "directory 0" would be. */
    var scratch: DirRecord
    var dirs: seq<DirRecord>
    var files: seq<FileRecord>
    var nametable: seq<byte>
    var namesUsed: nat
    ghost var dirCount: nat
    ghost var fileCount: nat
    ghost const first: nat

    /** The tables as they are now. */
    ghost function T(): Tables
      requires namesUsed <= |nametable|
      reads this
    {
      Tables(dirs, files, nametable[..namesUsed], disk)
    }

    ghost predicate Valid()
      reads this
    {
      && DirsUsed(dirs, dirCount) && FilesUsed(files, fileCount)
      && namesUsed <= |nametable| && |disk| >= DATA_START
      && DirsBounded(dirs, first, namesUsed, dirCount, fileCount)
      && FilesBounded(files, namesUsed, |disk|, dirCount, fileCount)
      && (scratch.dirs == first || scratch.dirs <= dirCount)
    }

    /** create(), before the root directory is made: the slot in front of the table holds anything. */
    constructor (scratch: DirRecord)
      ensures Valid() && dirCount == 0 && first == scratch.dirs
    {
      first := scratch.dirs;
      disk, this.scratch := Blank(DATA_START), scratch;
      dirs, files, nametable, namesUsed, dirCount, fileCount := [], [], [], 0, 0, 0;
    }

    /** nametable_write */
    method NametableWrite(name: Name) returns (offset: nat)
      requires namesUsed <= |nametable|
      modifies this`nametable, this`namesUsed
      ensures namesUsed <= |nametable| && offset == old(namesUsed)
      ensures nametable[..namesUsed] == old(nametable[..namesUsed]) + name + [0]
      ensures HasName(nametable[..namesUsed], offset, name)
    {
      var length := |name| + 1;
      ghost var was := nametable[..namesUsed];
      if namesUsed + length > |nametable| {
        nametable := nametable + Blank(length + 32);
      }
      assert nametable[..namesUsed] == was;
      offset := namesUsed;
      nametable := nametable[..offset] + name + [0] + nametable[offset + length..];
      namesUsed := namesUsed + length;
      assert nametable[..namesUsed] == was + name + [0];
      NameAfter(was, name);
    }

    /** The search for an unused record; the length of the table if there is none. */
    method UnusedDirs() returns (i: nat)
      requires Valid()
      ensures i == if dirCount < |dirs| then dirCount else |dirs|
    {
      i := 0;
      while i < |dirs|
        invariant 0 <= i <= |dirs| && i <= dirCount
      {
        if !dirs[i].used { break; }
        i := i + 1;
      }
    }

    /** dirtable_create */
    method DirtableCreate(name: Name, parent: nat) returns (index: nat)
      requires Valid() && parent <= dirCount
      modifies this`nametable, this`namesUsed, this`dirs, this`dirCount, this`scratch
      ensures Valid() && index == dirCount == old(dirCount) + 1
      ensures nametable[..namesUsed] == old(nametable[..namesUsed]) + name + [0]
      ensures |dirs| >= |old(dirs)| && forall k :: 0 <= k < old(dirCount) && k != parent - 1 ==> dirs[k] == old(dirs[k])
      ensures parent > 0 ==> dirs[parent - 1] == old(dirs[parent - 1]).(dirs := index)
      ensures dirs[index - 1].files == 0 && dirs[index - 1].dirs == 0 && dirs[index - 1].parent == parent
      ensures parent > 0 ==> dirs[index - 1].next == old(dirs[parent - 1]).dirs
      ensures HasName(nametable[..namesUsed], dirs[index - 1].name, name)
      ensures parent > 0 ==> scratch == old(scratch) && DirAdded(old(T()), T(), parent, old(dirCount), name)
      decreases if dirCount < |dirs| then 0 else 1
    {
      hide HasName, DirsBounded, FilesBounded;
      ghost var was, wasNames := dirs, namesUsed;
      var i := UnusedDirs();
      if i == |dirs| {
        dirs := dirs + FreeDirs(16);
        DirsGrown(was, first, namesUsed, dirCount, fileCount);
        index := DirtableCreate(name, parent);
        return;
      }
      dirs := dirs[i := dirs[i].(used := true)];
      dirs := dirs[i := dirs[i].(next := if parent == 0 then scratch.dirs else dirs[parent - 1].dirs)];
      if parent == 0 {
        scratch := scratch.(dirs := i + 1);
      } else {
        dirs := dirs[parent - 1 := dirs[parent - 1].(dirs := i + 1)];
      }
      dirCount := dirCount + 1;
      ghost var names := nametable[..namesUsed];
      var offset := NametableWrite(name);
      NamesGrew(names, name, nametable[..namesUsed]);
      dirs := dirs[i := dirs[i].(name := offset)];
      dirs := dirs[i := dirs[i].(parent := parent)];
      ParentBounded(was, first, wasNames, i, fileCount, parent);
      DirAddedBounded(was, dirs, first, wasNames, namesUsed, i, fileCount, parent);
      FilesStillBounded(files, wasNames, |disk|, i, fileCount, namesUsed, |disk|, dirCount);
      return i + 1;
    }

    /** The search for an unused record; the length of the table if there is none. */
    method UnusedFiles() returns (i: nat)
      requires Valid()
      ensures i == if fileCount < |files| then fileCount else |files|
    {
      i := 0;
      while i < |files|
        invariant 0 <= i <= |files| && i <= fileCount
      {
        if !files[i].used { break; }
        i := i + 1;
      }
    }

    /** filetable_create */
    method FiletableCreate(name: Name, parent: nat, offset: nat, size: nat) returns (index: nat)
      requires Valid() && 1 <= parent <= dirCount && offset + size <= |disk|
      modifies this`nametable, this`namesUsed, this`dirs, this`files, this`fileCount
      ensures Valid() && index == fileCount == old(fileCount) + 1
      ensures nametable[..namesUsed] == old(nametable[..namesUsed]) + name + [0]
      ensures |dirs| == |old(dirs)| && dirs == old(dirs)[parent - 1 := old(dirs[parent - 1]).(files := index)]
      ensures |files| >= |old(files)| && forall k :: 0 <= k < old(fileCount) ==> files[k] == old(files[k])
      ensures files[index - 1]
              == FileRecord(true, files[index - 1].name, offset, size, old(dirs[parent - 1]).files, parent)
      ensures HasName(nametable[..namesUsed], files[index - 1].name, name)
      decreases if fileCount < |files| then 0 else 1
    {
      hide HasName, DirsBounded, FilesBounded;
      ghost var was, wasDirs, wasNames := files, dirs, namesUsed;
      var i := UnusedFiles();
      if i == |files| {
        files := files + FreeFiles(16);
        FilesGrown(was, namesUsed, |disk|, dirCount, fileCount);
        index := FiletableCreate(name, parent, offset, size);
        return;
      }
      files := files[i := files[i].(used := true)];
      files := files[i := files[i].(next := dirs[parent - 1].files)];
      dirs := dirs[parent - 1 := dirs[parent - 1].(files := i + 1)];
      fileCount := fileCount + 1;
      var nameOffset := NametableWrite(name);
      files := files[i := files[i].(name := nameOffset)];
      files := files[i := files[i].(parent := parent)];
      files := files[i := files[i].(size := size)];
      files := files[i := files[i].(offset := offset)];
      ParentBounded(wasDirs, first, wasNames, dirCount, i, parent);
      FileAddedBounded(was, files, wasDirs, dirs, first, wasNames, namesUsed, |disk|, dirCount, i, parent);
      return i + 1;
    }

    /** One file of create_recurse: its contents go to the end of the file, then its record is made. */
    method PackFile(name: Name, bytes: seq<byte>, cur: nat, ghost children: seq<Tree>)
      requires Valid() && 1 <= cur <= dirCount
      requires Holds(T(), cur, dirCount, dirs[cur - 1].dirs, dirs[cur - 1].files, children)
      modifies this
      ensures Valid() && dirCount == old(dirCount) && scratch == old(scratch) && Grew(old(T()), T(), cur, dirCount)
      ensures Holds(T(), cur, dirCount, dirs[cur - 1].dirs, dirs[cur - 1].files, children + [File(name, bytes)])
    {
      hide HasName, Holds, DirsBounded, FilesBounded;
      ghost var t := T();
      var offset := |disk|;
      disk := disk + bytes;
      ParentBounded(dirs, first, namesUsed, dirCount, fileCount, cur);
      FilesStillBounded(files, namesUsed, offset, dirCount, fileCount, namesUsed, |disk|, dirCount);
      var index := FiletableCreate(name, cur, offset, |bytes|);
      assert disk[offset..offset + |bytes|] == bytes;
      NamesGrew(t.names, name, T().names);
      assert Grew(t, T(), cur, dirCount);
      HoldsStill(t, T(), cur, dirCount, dirCount, t.dirs[cur - 1].dirs, t.dirs[cur - 1].files, children);
      FileAppended(T(), cur, dirCount, dirs[cur - 1].dirs, index, children, name, bytes);
    }

    /** create_recurse */
    method CreateRecurse(children: seq<Tree>, cur: nat)
      requires Valid() && 1 <= cur <= dirCount && dirs[cur - 1].dirs == 0 && dirs[cur - 1].files == 0
      modifies this
      ensures Valid() && dirCount >= old(dirCount) && scratch == old(scratch) && Grew(old(T()), T(), cur, old(dirCount))
      ensures Holds(T(), cur, dirCount, dirs[cur - 1].dirs, dirs[cur - 1].files, children)
      decreases children
    {
      hide HasName, Holds, Grew, DirsBounded, FilesBounded;
      ghost var t := T();
      GrewNothing(t, cur, dirCount, dirs[cur - 1].dirs, dirs[cur - 1].files);
      var i := 0;
      while i < |children|
        invariant 0 <= i <= |children| && Valid() && dirCount >= old(dirCount) && scratch == old(scratch)
        invariant cur <= dirCount && Grew(t, T(), cur, old(dirCount))
        invariant Holds(T(), cur, dirCount, dirs[cur - 1].dirs, dirs[cur - 1].files, children[..i])
      {
        ghost var u, n := T(), dirCount;
        match children[i] {
          case Dir(name, below) =>
            var d := DirtableCreate(name, cur);
            ghost var v := T();
            CreateRecurse(below, d);
            DirAppended(u, v, T(), cur, n, dirCount, children[..i], name, below);
          case File(name, bytes) =>
            PackFile(name, bytes, cur, children[..i]);
        }
        GrewThen(t, u, T(), cur, old(dirCount), n);
        assert children[..i + 1] == children[..i] + [children[i]];
        i := i + 1;
      }
      assert children[..i] == children;
    }

    /** create(): the whole image of a directory; `t` are its tables. */
    method Create(children: seq<Tree>) returns (image: seq<byte>, ghost t: Tables)
      requires Valid() && dirCount == 0
      modifies this
      ensures IsImage(image, t, 1) && |t.dirs| == |dirs| && |t.files| == |files|
      ensures IsDir(t, 1) && HasName(t.names, t.dirs[0].name, ROOT_NAME) && t.dirs[0].parent == 0
      ensures Holds(t, 1, |t.dirs|, t.dirs[0].dirs, t.dirs[0].files, children)
      ensures |image| < Limit(8) && first < Limit(8) ==> Fits(t)
    {
      hide Holds, HasName, IsImage, Section, Encode, DirBytes, FileBytes, Limit, AlignUp, WriteAt, DirsBounded,
        FilesBounded;
      var root := DirtableCreate(ROOT_NAME, 0);
      ghost var names := nametable[..namesUsed];
      CreateRecurse(children, root);
      t := Tables(dirs, files, nametable, disk);
      PrefixIsExtended(T(), t, dirCount, |dirs|);
      HoldsStill(T(), t, 1, dirCount, |dirs|, dirs[0].dirs, dirs[0].files, children);
      NameStill(names, nametable, dirs[0].name, ROOT_NAME);
      var h := Layout(Tables(dirs, files, nametable, disk), root);
      image := WriteAt(disk, 0, Encode(HeaderFields(h)));
      image := WriteAt(image, h.names, nametable);
      image := WriteAt(image, h.dirs, DirBytes(dirs));
      image := WriteAt(image, h.files, FileBytes(files));
      WrittenIsImage(t, root);
      if |image| < Limit(8) && first < Limit(8) { BoundedFits(image, t, root, first, namesUsed, dirCount, fileCount); }
    }
  }

  lemma PrefixIsExtended(t: Tables, u: Tables, n: nat, m: nat)
    requires n <= m == |t.dirs| && t.names <= u.names && u == t.(names := u.names)
    ensures Extends(t, u, 1, n)
  {
  }

  /** All fields are at most the length of the image. */
  lemma BoundedFits(image: seq<byte>, t: Tables, root: nat, first: nat, names: nat, n: nat, m: nat)
    requires IsImage(image, t, root) && |image| < Limit(8) && first < Limit(8) && n > 0
    requires DirsUsed(t.dirs, n) && FilesUsed(t.files, m) && DirsBounded(t.dirs, first, names, n, m)
    requires FilesBounded(t.files, names, |t.disk|, n, m) && names <= |t.names| && t.names != []
    ensures Fits(t)
  {
    hide Limit, Encode, DirBytes, FileBytes;
    TableLengths(t);
    LimitValues();
    assert |t.names| <= |image| && |t.dirs| <= |image| && |t.files| <= |image| && |t.disk| <= |image|;
  }

  /** While a directory `cur` gets children, of the first n records only its own changes, in its two chain heads. */
  predicate Grew(t: Tables, u: Tables, cur: nat, n: nat) {
    && 1 <= cur <= n && Extends(t, u, cur, n)
    && (forall k :: 0 <= k < cur - 1 ==> u.dirs[k] == t.dirs[k])
    && u.dirs[cur - 1] == t.dirs[cur - 1].(dirs := u.dirs[cur - 1].dirs, files := u.dirs[cur - 1].files)
  }

  lemma GrewNothing(t: Tables, cur: nat, n: nat, dir: nat, file: nat)
    requires 1 <= cur <= n <= |t.dirs| && dir == 0 && file == 0
    ensures Grew(t, t, cur, n) && Holds(t, cur, n, dir, file, [])
  {
  }

  lemma GrewThen(t: Tables, u: Tables, v: Tables, cur: nat, n: nat, m: nat)
    requires Grew(t, u, cur, n) && Grew(u, v, cur, m) && n <= m
    ensures Grew(t, v, cur, n)
  {
  }

  lemma NamesGrew(names: seq<byte>, name: Name, more: seq<byte>)
    requires more == names + name + [0]
    ensures names <= more
  {
  }

  lemma FileAppended(t: Tables, cur: nat, hi: nat, dir: nat, f: nat, children: seq<Tree>, name: Name, bytes: seq<byte>)
    requires FileHolds(t, f, cur, name, bytes) && t.files[f - 1].next < f
    requires Holds(t, cur, hi, dir, t.files[f - 1].next, children)
    ensures Holds(t, cur, hi, dir, f, children + [File(name, bytes)])
  {
    hide FileHolds, HasName;
    var all := children + [File(name, bytes)];
    assert all[..|all| - 1] == children;
  }

  lemma DirInFront(t: Tables, cur: nat, hi: nat, d: nat, file: nat, children: seq<Tree>, name: Name, below: seq<Tree>)
    requires IsDir(t, d) && cur < d <= hi && HasName(t.names, t.dirs[d - 1].name, name) && t.dirs[d - 1].parent == cur
    requires t.dirs[d - 1].next < d && Holds(t, d, hi, t.dirs[d - 1].dirs, t.dirs[d - 1].files, below)
    requires Holds(t, cur, hi, t.dirs[d - 1].next, file, children)
    ensures Holds(t, cur, hi, d, file, children + [Dir(name, below)])
  {
    hide FileHolds, HasName;
    var all := children + [Dir(name, below)];
    assert all[..|all| - 1] == children;
  }

  /** A directory record is at the head of cur's chain, in front of what was there. */
  predicate DirAdded(t: Tables, u: Tables, cur: nat, n: nat, name: Name) {
    && Grew(t, u, cur, n) && n < |u.dirs| && u.dirs[cur - 1] == t.dirs[cur - 1].(dirs := n + 1)
    && u.dirs[n].used && u.dirs[n].next == t.dirs[cur - 1].dirs <= n && u.dirs[n].parent == cur
    && HasName(u.names, u.dirs[n].name, name)
  }

  /** A directory is made and then filled: t before, u once its record is there, v at the end. */
  lemma DirAppended(t: Tables, u: Tables, v: Tables, cur: nat, n: nat, m: nat, children: seq<Tree>, name: Name,
                    below: seq<Tree>)
    requires 1 <= cur <= n < m && DirAdded(t, u, cur, n, name) && Grew(u, v, n + 1, n + 1)
    requires Holds(t, cur, n, t.dirs[cur - 1].dirs, t.dirs[cur - 1].files, children)
    requires Holds(v, n + 1, m, v.dirs[n].dirs, v.dirs[n].files, below)
    ensures Grew(t, v, cur, n)
    ensures Holds(v, cur, m, v.dirs[cur - 1].dirs, v.dirs[cur - 1].files, children + [Dir(name, below)])
  {
    hide FileHolds, HasName, Holds;
    NameStill(u.names, v.names, u.dirs[n].name, name);
    HoldsStill(t, v, cur, n, m, t.dirs[cur - 1].dirs, t.dirs[cur - 1].files, children);
    DirInFront(v, cur, m, n + 1, v.dirs[cur - 1].files, children, name, below);
  }

  lemma NameAfter(names: seq<byte>, name: Name)
    ensures HasName(names + name + [0], |names|, name)
  {
  }
}
