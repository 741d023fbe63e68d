/** Bytes and little-endian integers. */
module Bytes {
  import opened Arithmetic

  newtype byte = x: int | 0 <= x < 0x100

  function Limit(n: nat): (m: nat)
    ensures m > 0
  {
    if n == 0 then 1 else 0x100 * Limit(n - 1)
  }

  /** The n low bytes of v, least significant first. */
  function LittleEndian(v: nat, n: nat): (s: seq<byte>)
    ensures |s| == n
  {
    if n == 0 then [] else [(v % 0x100) as byte] + LittleEndian(v / 0x100, n - 1)
  }

  function FromLittleEndian(s: seq<byte>): nat {
    if s == [] then 0 else s[0] as nat + 0x100 * FromLittleEndian(s[1..])
  }

  lemma {:induction false} LittleEndianBack(v: nat, n: nat)
    requires v < Limit(n)
    ensures FromLittleEndian(LittleEndian(v, n)) == v
  {
    if n > 0 {
      LittleEndianBack(v / 0x100, n - 1);
      assert LittleEndian(v, n)[1..] == LittleEndian(v / 0x100, n - 1);
    }
  }

  /** Byte k stands for the k-th power of 256. */
  lemma {:induction false} LittleEndianAt(v: nat, n: nat, k: nat)
    requires k < n
    ensures LittleEndian(v, n)[k] as nat == v / Limit(k) % 0x100
  {
    if k > 0 {
      LittleEndianAt(v / 0x100, n - 1, k - 1);
      DivTwice(v, Limit(k - 1));
    }
  }

  lemma DivTwice(v: nat, m: nat)
    requires m > 0
    ensures v / 0x100 / m == v / (0x100 * m)
  {
    var q := v / 0x100 / m;
    var r := (v / 0x100 - m * q) * 0x100 + v % 0x100;
    assert v == 0x100 * (v / 0x100) + v % 0x100;
    assert v / 0x100 == m * q + (v / 0x100 - m * q);
    assert 0 <= v / 0x100 - m * q <= m - 1;
    assert v == (0x100 * m) * q + r && 0 <= r < 0x100 * m;
    DivIs(v, 0x100 * m, q, r);
  }

  lemma LimitValues()
    ensures Limit(2) == 0x1_0000 && Limit(8) == 0x1_0000_0000_0000_0000
  {
    assert Limit(2) == 0x100 * 0x100;
    assert Limit(4) == 0x100 * 0x100 * Limit(2);
    assert Limit(6) == 0x100 * 0x100 * Limit(4);
    assert Limit(8) == 0x100 * 0x100 * Limit(6);
  }

  lemma SliceOfSlice(s: seq<byte>, at: nat, n: nat, a: nat, w: nat)
    requires at + n <= |s| && a + w <= n
    ensures s[at..at + n][a..a + w] == s[at + a..at + a + w]
  {
    var l, r := s[at..at + n][a..a + w], s[at + a..at + a + w];
    forall j | 0 <= j < w ensures l[j] == r[j] { assert l[j] == s[at..at + n][a + j] == s[at + (a + j)]; }
    assert |l| == |r|;
  }

  lemma BehindFirst(first: seq<byte>, rest: seq<byte>, a: nat, w: nat)
    requires a + w <= |rest|
    ensures (first + rest)[|first| + a..|first| + a + w] == rest[a..a + w]
  {
    SliceOfSlice(first + rest, |first|, |rest|, a, w);
    assert (first + rest)[|first|..|first| + |rest|] == rest;
  }

  function Blank(n: nat): (s: seq<byte>)
    ensures |s| == n && forall i :: 0 <= i < n ==> s[i] == 0
  {
    seq(n, _ => 0)
  }

  /** fseek and fwrite: bytes in a gap before the write are 0; writing nothing does nothing. */
  function WriteAt(file: seq<byte>, offset: nat, bytes: seq<byte>): (r: seq<byte>)
    ensures |r| == (if bytes != [] && offset + |bytes| > |file| then offset + |bytes| else |file|)
  {
    if bytes == [] then file
    else
      var padded := if offset + |bytes| > |file| then file + Blank(offset + |bytes| - |file|) else file;
      padded[..offset] + bytes + padded[offset + |bytes|..]
  }

  /** The bytes of a section, if it has any. */
  predicate Section(file: seq<byte>, at: nat, bytes: seq<byte>) {
    bytes == [] || (at + |bytes| <= |file| && file[at..at + |bytes|] == bytes)
  }

  lemma SectionWritten(file: seq<byte>, offset: nat, bytes: seq<byte>)
    ensures Section(WriteAt(file, offset, bytes), offset, bytes)
  {
  }

  /** A write elsewhere leaves a section alone. */
  lemma SectionKept(file: seq<byte>, offset: nat, bytes: seq<byte>, at: nat, section: seq<byte>)
    requires Section(file, at, section) && (at + |section| <= offset || offset + |bytes| <= at)
    ensures Section(WriteAt(file, offset, bytes), at, section)
  {
  }
}
