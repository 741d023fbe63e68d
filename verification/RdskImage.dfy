/** The bytes of an RDSK image (rdsk/src/main.c:16-48, 199-263; kernel/src/fs/rdsk.c:13-48, 57-80). */
module RdskImage {
  import opened Bytes
  import opened RdskTree

  const HEADER_SIZE: nat := 68
  const RECORD_SIZE: nat := 41
  const ALIGNMENT: nat := 64
  const REVISION: nat := 0x101

  // ----- Packed structures

  datatype Field = Field(value: nat, width: nat)

  function Encode(fields: seq<Field>): seq<byte> {
    if fields == [] then [] else LittleEndian(fields[0].value, fields[0].width) + Encode(fields[1..])
  }

  /** Where field k begins. */
  function Start(fields: seq<Field>, k: nat): nat
    requires k <= |fields|
  {
    if k == 0 then 0 else fields[0].width + Start(fields[1..], k - 1)
  }

  lemma {:induction false} StartNext(fields: seq<Field>, k: nat)
    requires k < |fields|
    ensures Start(fields, k + 1) == Start(fields, k) + fields[k].width
  {
    if k > 0 { StartNext(fields[1..], k - 1); }
  }

  lemma {:induction false} EncodeAt(fields: seq<Field>, k: nat)
    requires k < |fields|
    ensures |Encode(fields)| == Start(fields, |fields|) && Start(fields, k) + fields[k].width <= |Encode(fields)|
    ensures Encode(fields)[Start(fields, k)..Start(fields, k) + fields[k].width]
      == LittleEndian(fields[k].value, fields[k].width)
  {
    hide LittleEndian;
    var first, rest := LittleEndian(fields[0].value, fields[0].width), Encode(fields[1..]);
    if k > 0 {
      EncodeAt(fields[1..], k - 1);
      BehindFirst(first, rest, Start(fields[1..], k - 1), fields[k].width);
    } else {
      if |fields| > 1 { EncodeAt(fields[1..], 0); }
      assert (first + rest)[..|first|] == first;
    }
  }

  /** An unsigned integer in memory. */
  function Read(image: seq<byte>, at: nat, width: nat): nat
    requires at + width <= |image|
  {
    FromLittleEndian(image[at..at + width])
  }

  /** Field k of a structure that lies at `at`. */
  lemma FieldBack(image: seq<byte>, at: nat, fields: seq<Field>, k: nat)
    requires k < |fields| && at + |Encode(fields)| <= |image| && image[at..at + |Encode(fields)|] == Encode(fields)
    requires fields[k].value < Limit(fields[k].width)
    ensures at + Start(fields, k) + fields[k].width <= |image|
    ensures Read(image, at + Start(fields, k), fields[k].width) == fields[k].value
  {
    hide Encode, Start, LittleEndian, FromLittleEndian;
    EncodeAt(fields, k);
    SliceOfSlice(image, at, |Encode(fields)|, Start(fields, k), fields[k].width);
    var w := fields[k].width;
    LittleEndianBack(fields[k].value, w);
  }

  function Flag(b: bool): nat { if b then 1 else 0 }

  function DirFields(r: DirRecord): seq<Field> {
    [Field(Flag(r.used), 1), Field(r.name, 8), Field(r.files, 8), Field(r.dirs, 8), Field(r.next, 8),
     Field(r.parent, 8)]
  }

  function FileFields(r: FileRecord): seq<Field> {
    [Field(Flag(r.used), 1), Field(r.name, 8), Field(r.offset, 8), Field(r.size, 8), Field(r.next, 8),
     Field(r.parent, 8)]
  }

  datatype Header = Header(root: nat, names: nat, namesSize: nat, dirSize: nat, dirCount: nat, dirs: nat,
                           fileSize: nat, fileCount: nat, files: nat)

  function HeaderFields(h: Header): seq<Field> {
    [Field('R' as nat, 1), Field('D' as nat, 1), Field('S' as nat, 1), Field('K' as nat, 1), Field(REVISION, 2),
     Field(HEADER_SIZE, 2), Field(h.root, 8), Field(h.names, 8), Field(h.namesSize, 8), Field(h.dirSize, 2),
     Field(h.dirCount, 8), Field(h.dirs, 8), Field(h.fileSize, 2), Field(h.fileCount, 8), Field(h.files, 8)]
  }

  /** Both kinds of record have their fields at the same places, and the same size. */
  lemma RecordStarts(fields: seq<Field>)
    requires |fields| == 6 && fields[0].width == 1 && forall k :: 1 <= k < 6 ==> fields[k].width == 8
    ensures Start(fields, 0) == 0 && Start(fields, 6) == RECORD_SIZE == |Encode(fields)|
    ensures forall k :: 1 <= k < 6 ==> Start(fields, k) == 8 * k - 7
  {
    hide Encode, Start;
    assert Start(fields, 0) == 0 by { StartZero(fields); }
    StartNext(fields, 0);
    StartNext(fields, 1);
    StartNext(fields, 2);
    StartNext(fields, 3);
    StartNext(fields, 4);
    StartNext(fields, 5);
    EncodeAt(fields, 0);
  }

  lemma StartZero(fields: seq<Field>)
    ensures Start(fields, 0) == 0
  {
  }

  lemma HeaderStarts(h: Header)
    ensures var f := HeaderFields(h);
      && Start(f, 4) == 4 && Start(f, 6) == 8 && Start(f, 7) == 16 && Start(f, 8) == 24
      && Start(f, 9) == 32 && Start(f, 10) == 34
      && Start(f, 11) == 42 && Start(f, 12) == 50 && Start(f, 13) == 52
      && Start(f, 14) == 60 && |Encode(f)| == HEADER_SIZE
  {
    hide Encode, Start;
    var f := HeaderFields(h);
    StartZero(f);
    StartNext(f, 0);
    StartNext(f, 1);
    StartNext(f, 2);
    StartNext(f, 3);
    StartNext(f, 4);
    StartNext(f, 5);
    StartNext(f, 6);
    StartNext(f, 7);
    StartNext(f, 8);
    StartNext(f, 9);
    StartNext(f, 10);
    StartNext(f, 11);
    StartNext(f, 12);
    StartNext(f, 13);
    StartNext(f, 14);
    EncodeAt(f, 0);
  }

  // ----- Tables

  function Concat(chunks: seq<seq<byte>>): seq<byte> {
    if chunks == [] then [] else chunks[0] + Concat(chunks[1..])
  }

  lemma {:induction false} ConcatAt(chunks: seq<seq<byte>>, i: nat)
    requires i < |chunks| && forall k :: 0 <= k < |chunks| ==> |chunks[k]| == RECORD_SIZE
    ensures |Concat(chunks)| == RECORD_SIZE * |chunks|
    ensures Concat(chunks)[RECORD_SIZE * i..RECORD_SIZE * i + RECORD_SIZE] == chunks[i]
  {
    var rest := Concat(chunks[1..]);
    if i > 0 {
      ConcatAt(chunks[1..], i - 1);
      BehindFirst(chunks[0], rest, RECORD_SIZE * (i - 1), RECORD_SIZE);
    } else if |chunks| > 1 {
      ConcatAt(chunks[1..], 0);
    } else {
      assert chunks[1..] == [];
    }
  }

  function DirBytes(dirs: seq<DirRecord>): seq<byte> {
    Concat(seq(|dirs|, i requires 0 <= i < |dirs| => Encode(DirFields(dirs[i]))))
  }

  function FileBytes(files: seq<FileRecord>): seq<byte> {
    Concat(seq(|files|, i requires 0 <= i < |files| => Encode(FileFields(files[i]))))
  }

  lemma DirBytesAt(dirs: seq<DirRecord>, i: nat)
    requires i < |dirs|
    ensures |DirBytes(dirs)| == RECORD_SIZE * |dirs|
    ensures RECORD_SIZE * i + RECORD_SIZE <= |DirBytes(dirs)|
    ensures DirBytes(dirs)[RECORD_SIZE * i..RECORD_SIZE * i + RECORD_SIZE] == Encode(DirFields(dirs[i]))
  {
    hide Encode, Concat;
    forall k | 0 <= k < |dirs| ensures |Encode(DirFields(dirs[k]))| == RECORD_SIZE { RecordStarts(DirFields(dirs[k])); }
    ConcatAt(seq(|dirs|, i requires 0 <= i < |dirs| => Encode(DirFields(dirs[i]))), i);
  }

  lemma FileBytesAt(files: seq<FileRecord>, i: nat)
    requires i < |files|
    ensures |FileBytes(files)| == RECORD_SIZE * |files|
    ensures RECORD_SIZE * i + RECORD_SIZE <= |FileBytes(files)|
    ensures FileBytes(files)[RECORD_SIZE * i..RECORD_SIZE * i + RECORD_SIZE] == Encode(FileFields(files[i]))
  {
    hide Encode, Concat;
    forall k | 0 <= k < |files|
      ensures |Encode(FileFields(files[k]))| == RECORD_SIZE
    {
      RecordStarts(FileFields(files[k]));
    }
    ConcatAt(seq(|files|, i requires 0 <= i < |files| => Encode(FileFields(files[i]))), i);
  }

  // ----- Layout

  function AlignUp(v: nat): (r: nat)
    ensures v <= r < v + ALIGNMENT && r % ALIGNMENT == 0
  {
    if v % ALIGNMENT > 0 then v + (ALIGNMENT - v % ALIGNMENT) else v
  }

  /** Names after the contents, then the directory table, then the file table. */
  function Layout(t: Tables, root: nat): Header {
    var names := AlignUp(|t.disk|);
    var dirs := AlignUp(names + |t.names|);
    Header(root, names, |t.names|, RECORD_SIZE, |t.dirs|, dirs, RECORD_SIZE, |t.files|,
           AlignUp(dirs + |t.dirs| * RECORD_SIZE))
  }

  /** The image has every section where the layout puts it. */
  predicate IsImage(image: seq<byte>, t: Tables, root: nat) {
    var h := Layout(t, root);
    && Section(image, 0, Encode(HeaderFields(h))) && Section(image, h.names, t.names)
    && Section(image, h.dirs, DirBytes(t.dirs)) && Section(image, h.files, FileBytes(t.files))
    && |t.disk| >= DATA_START && Section(image, DATA_START, t.disk[DATA_START..])
  }

  /** The writes at the end of create(). */
  function Written(t: Tables, root: nat): seq<byte> {
    var h := Layout(t, root);
    WriteAt(WriteAt(WriteAt(WriteAt(t.disk, 0, Encode(HeaderFields(h))), h.names, t.names), h.dirs, DirBytes(t.dirs)),
            h.files, FileBytes(t.files))
  }

  lemma TableLengths(t: Tables)
    ensures |DirBytes(t.dirs)| == RECORD_SIZE * |t.dirs| && |FileBytes(t.files)| == RECORD_SIZE * |t.files|
  {
    if t.dirs != [] { DirBytesAt(t.dirs, 0); }
    if t.files != [] { FileBytesAt(t.files, 0); }
  }

  /** No write overwrites another section. */
  lemma WrittenIsImage(t: Tables, root: nat)
    requires |t.disk| >= DATA_START
    ensures IsImage(Written(t, root), t, root)
  {
    hide Encode, DirBytes, FileBytes, WriteAt, Section, AlignUp;
    var h := Layout(t, root);
    HeaderStarts(h);
    TableLengths(t);
    var header, data := Encode(HeaderFields(h)), t.disk[DATA_START..];
    var f1 := WriteAt(t.disk, 0, header);
    var f2 := WriteAt(f1, h.names, t.names);
    var f3 := WriteAt(f2, h.dirs, DirBytes(t.dirs));
    DataSection(t.disk);
    SectionKept(t.disk, 0, header, DATA_START, data);
    SectionKept(f1, h.names, t.names, DATA_START, data);
    SectionKept(f2, h.dirs, DirBytes(t.dirs), DATA_START, data);
    SectionKept(f3, h.files, FileBytes(t.files), DATA_START, data);
    SectionWritten(t.disk, 0, header);
    SectionKept(f1, h.names, t.names, 0, header);
    SectionKept(f2, h.dirs, DirBytes(t.dirs), 0, header);
    SectionKept(f3, h.files, FileBytes(t.files), 0, header);
    SectionWritten(f1, h.names, t.names);
    SectionKept(f2, h.dirs, DirBytes(t.dirs), h.names, t.names);
    SectionKept(f3, h.files, FileBytes(t.files), h.names, t.names);
    SectionWritten(f2, h.dirs, DirBytes(t.dirs));
    SectionKept(f3, h.files, FileBytes(t.files), h.dirs, DirBytes(t.dirs));
    SectionWritten(f3, h.files, FileBytes(t.files));
  }

  lemma DataSection(disk: seq<byte>)
    requires |disk| >= DATA_START
    ensures Section(disk, DATA_START, disk[DATA_START..])
  {
  }

  // ----- Reading

  /** Every field of the tables fits into 64 bits. */
  predicate Fits(t: Tables) {
    && (forall i :: 0 <= i < |t.dirs| ==> DirFits(t.dirs[i]))
    && (forall i :: 0 <= i < |t.files| ==> FileFits(t.files[i]))
  }

  predicate DirFits(r: DirRecord) {
    r.name < Limit(8) && r.files < Limit(8) && r.dirs < Limit(8) && r.next < Limit(8) && r.parent < Limit(8)
  }

  predicate FileFits(r: FileRecord) {
    r.name < Limit(8) && r.offset < Limit(8) && r.size < Limit(8) && r.next < Limit(8) && r.parent < Limit(8)
  }

  /** The fields of the header the driver uses. */
  predicate HeaderRead(image: seq<byte>, h: Header) {
    && |image| >= HEADER_SIZE && Read(image, 4, 2) == REVISION && Read(image, 8, 8) == h.root
    && Read(image, 16, 8) == h.names && Read(image, 32, 2) == h.dirSize && Read(image, 34, 8) == h.dirCount
    && Read(image, 42, 8) == h.dirs && Read(image, 50, 2) == h.fileSize && Read(image, 52, 8) == h.fileCount
    && Read(image, 60, 8) == h.files
  }

  lemma HeaderBack(image: seq<byte>, t: Tables, root: nat)
    requires IsImage(image, t, root) && |t.dirs| > 0 && |image| + ALIGNMENT <= Limit(8) && root < Limit(8)
    ensures HeaderRead(image, Layout(t, root))
  {
    hide Encode, Start, DirBytes, FileBytes, Read, Limit, AlignUp;
    var h := Layout(t, root);
    var f := HeaderFields(h);
    HeaderStarts(h);
    TableLengths(t);
    LimitValues();
    assert h.dirs + RECORD_SIZE * |t.dirs| <= |image| && h.names <= h.dirs;
    assert t.files != [] ==> h.files + RECORD_SIZE * |t.files| <= |image|;
    FieldBack(image, 0, f, 4);
    FieldBack(image, 0, f, 6);
    FieldBack(image, 0, f, 7);
    FieldBack(image, 0, f, 9);
    FieldBack(image, 0, f, 10);
    FieldBack(image, 0, f, 11);
    FieldBack(image, 0, f, 12);
    FieldBack(image, 0, f, 13);
    FieldBack(image, 0, f, 14);
  }

  /** The sections lie behind one another, each at the next multiple of the alignment. */
  lemma LayoutExact(t: Tables, root: nat)
    ensures var h := Layout(t, root);
      && h.root == root && h.namesSize == |t.names| && h.dirCount == |t.dirs| && h.fileCount == |t.files|
      && h.dirSize == 41 && h.fileSize == 41
      && h.names % 64 == 0 && |t.disk| <= h.names < |t.disk| + 64
      && h.dirs % 64 == 0 && h.names + |t.names| <= h.dirs < h.names + |t.names| + 64
      && h.files % 64 == 0 && h.dirs + 41 * |t.dirs| <= h.files < h.dirs + 41 * |t.dirs| + 64
  {
  }

  /** Every field of the header at its offset in the packed structure. */
  lemma HeaderInPlace(image: seq<byte>, t: Tables, root: nat)
    requires IsImage(image, t, root) && |t.dirs| > 0 && |image| + ALIGNMENT <= Limit(8) && root < Limit(8)
    ensures var h := Layout(t, root);
      && |image| >= 68 && image[0] == 'R' as byte && image[1] == 'D' as byte && image[2] == 'S' as byte
      && image[3] == 'K' as byte
      && Read(image, 4, 2) == 0x101 && Read(image, 6, 2) == 68 && Read(image, 8, 8) == root
      && Read(image, 16, 8) == h.names && (h.namesSize < Limit(8) ==> Read(image, 24, 8) == h.namesSize)
      && Read(image, 32, 2) == h.dirSize && Read(image, 34, 8) == h.dirCount && Read(image, 42, 8) == h.dirs
      && Read(image, 50, 2) == h.fileSize && Read(image, 52, 8) == h.fileCount && Read(image, 60, 8) == h.files
  {
    hide Encode, Start, DirBytes, FileBytes, Read, Limit, AlignUp, Layout;
    var h := Layout(t, root);
    var f := HeaderFields(h);
    LayoutExact(t, root);
    HeaderBack(image, t, root);
    HeaderStarts(h);
    StartsFour(f);
    LimitValues();
    assert Limit(1) == 0x100 by { LimitOne(); }
    FieldBack(image, 0, f, 0);
    FieldBack(image, 0, f, 1);
    FieldBack(image, 0, f, 2);
    FieldBack(image, 0, f, 3);
    FieldBack(image, 0, f, 5);
    if h.namesSize < Limit(8) { FieldBack(image, 0, f, 8); }
    OneByte(image, 0);
    OneByte(image, 1);
    OneByte(image, 2);
    OneByte(image, 3);
  }

  lemma LimitOne()
    ensures Limit(1) == 0x100
  {
  }

  lemma OneByte(image: seq<byte>, at: nat)
    requires at < |image|
    ensures Read(image, at, 1) == image[at] as nat
  {
    var s := image[at..at + 1];
    assert s[0] == image[at] && s[1..] == [];
    assert FromLittleEndian(s) == s[0] as nat + 0x100 * FromLittleEndian([]);
  }

  lemma StartsFour(f: seq<Field>)
    requires |f| > 5 && f[0].width == 1 && f[1].width == 1 && f[2].width == 1 && f[3].width == 1 && f[4].width == 2
    ensures Start(f, 0) == 0 && Start(f, 1) == 1 && Start(f, 2) == 2 && Start(f, 3) == 3 && Start(f, 5) == 6
  {
    hide Start;
    StartZero(f);
    StartNext(f, 0);
    StartNext(f, 1);
    StartNext(f, 2);
    StartNext(f, 3);
    StartNext(f, 4);
  }

  /** The record of a table that lies at `at`. */
  function DirAt(image: seq<byte>, at: nat): DirRecord
    requires at + RECORD_SIZE <= |image|
  {
    DirRecord(Read(image, at, 1) != 0, Read(image, at + 1, 8), Read(image, at + 9, 8), Read(image, at + 17, 8),
              Read(image, at + 25, 8), Read(image, at + 33, 8))
  }

  function FileAt(image: seq<byte>, at: nat): FileRecord
    requires at + RECORD_SIZE <= |image|
  {
    FileRecord(Read(image, at, 1) != 0, Read(image, at + 1, 8), Read(image, at + 9, 8), Read(image, at + 17, 8),
               Read(image, at + 25, 8), Read(image, at + 33, 8))
  }

  lemma RecordBack(image: seq<byte>, at: nat, fields: seq<Field>)
    requires |fields| == 6 && fields[0].width == 1 && forall k :: 1 <= k < 6 ==> fields[k].width == 8
    requires fields[0].value <= 1 && forall k :: 1 <= k < 6 ==> fields[k].value < Limit(8)
    requires at + RECORD_SIZE <= |image| && image[at..at + RECORD_SIZE] == Encode(fields)
    ensures Read(image, at, 1) == fields[0].value && Read(image, at + 1, 8) == fields[1].value
    ensures Read(image, at + 9, 8) == fields[2].value && Read(image, at + 17, 8) == fields[3].value
    ensures Read(image, at + 25, 8) == fields[4].value && Read(image, at + 33, 8) == fields[5].value
  {
    hide Encode, Start, Read;
    RecordStarts(fields);
    assert Limit(1) == 0x100;
    FieldBack(image, at, fields, 0);
    FieldBack(image, at, fields, 1);
    FieldBack(image, at, fields, 2);
    FieldBack(image, at, fields, 3);
    FieldBack(image, at, fields, 4);
    FieldBack(image, at, fields, 5);
  }

  lemma DirBack(image: seq<byte>, t: Tables, root: nat, i: nat)
    requires IsImage(image, t, root) && Fits(t) && i < |t.dirs|
    ensures var at := Layout(t, root).dirs + i * RECORD_SIZE;
      at + RECORD_SIZE <= |image| && DirAt(image, at) == t.dirs[i]
  {
    hide Encode, DirBytes, FileBytes, Read, Limit, AlignUp;
    var h := Layout(t, root);
    DirBytesAt(t.dirs, i);
    SliceOfSlice(image, h.dirs, |DirBytes(t.dirs)|, RECORD_SIZE * i, RECORD_SIZE);
    RecordBack(image, h.dirs + RECORD_SIZE * i, DirFields(t.dirs[i]));
  }

  lemma FileBack(image: seq<byte>, t: Tables, root: nat, i: nat)
    requires IsImage(image, t, root) && Fits(t) && i < |t.files|
    ensures var at := Layout(t, root).files + i * RECORD_SIZE;
      at + RECORD_SIZE <= |image| && FileAt(image, at) == t.files[i]
  {
    hide Encode, DirBytes, FileBytes, Read, Limit, AlignUp;
    var h := Layout(t, root);
    FileBytesAt(t.files, i);
    SliceOfSlice(image, h.files, |FileBytes(t.files)|, RECORD_SIZE * i, RECORD_SIZE);
    RecordBack(image, h.files + RECORD_SIZE * i, FileFields(t.files[i]));
  }

  /** Every field of directory record i at its offset in the packed structure. */
  lemma DirInPlace(image: seq<byte>, t: Tables, root: nat, i: nat)
    requires IsImage(image, t, root) && Fits(t) && i < |t.dirs|
    ensures var at, r := Layout(t, root).dirs + i * 41, t.dirs[i];
      && at + 41 <= |image| && (Read(image, at, 1) != 0) == r.used && Read(image, at + 1, 8) == r.name
      && Read(image, at + 9, 8) == r.files && Read(image, at + 17, 8) == r.dirs
      && Read(image, at + 25, 8) == r.next && Read(image, at + 33, 8) == r.parent
  {
    hide Encode, Read, IsImage, Fits, Layout;
    DirBack(image, t, root, i);
  }

  lemma FileInPlace(image: seq<byte>, t: Tables, root: nat, i: nat)
    requires IsImage(image, t, root) && Fits(t) && i < |t.files|
    ensures var at, r := Layout(t, root).files + i * 41, t.files[i];
      && at + 41 <= |image| && (Read(image, at, 1) != 0) == r.used && Read(image, at + 1, 8) == r.name
      && Read(image, at + 9, 8) == r.offset && Read(image, at + 17, 8) == r.size
      && Read(image, at + 25, 8) == r.next && Read(image, at + 33, 8) == r.parent
  {
    hide Encode, Read, IsImage, Fits, Layout;
    FileBack(image, t, root, i);
  }
}
