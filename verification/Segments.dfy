/** Segments of an address space: which addresses are mapped, with what protection and type. */
module Segments {
  import opened Machine
  import opened Options

  datatype Kind = Anon | Direct(physical: nat)

  datatype Segment = Segment(base: nat, length: nat, prot: nat, kind: Kind)

  /** What a segment gives each of its addresses. */
  datatype Attr = Attr(prot: nat, kind: Kind)

  /** A page boundary. */
  predicate Paged(a: nat) { a % PAGE_SIZE == 0 }

  lemma PagedGap(a: nat, b: nat)
    requires Paged(a) && Paged(b) && a < b
    ensures a + PAGE_SIZE <= b
  {
  }

  lemma PagedSum(a: nat, b: nat)
    requires Paged(a)
    ensures Paged(a + b) <==> Paged(b)
  {
  }

  predicate Covers(s: Segment, a: nat) { s.base <= a < s.base + s.length }

  predicate Intersects(base: nat, length: nat, s: Segment) {
    base < s.base + s.length && s.base < base + length
  }

  /** SEGMENT_IN_BOUNDS */
  predicate InBounds(start: nat, end: nat, base: nat, length: nat) {
    start <= base < end && end - base >= length
  }

  predicate SegmentOk(s: Segment, start: nat, end: nat) {
    s.length > 0 && Paged(s.base) && Paged(s.base + s.length) && start <= s.base && s.base + s.length <= end
  }

  predicate Apart(s: Segment, t: Segment) {
    s.base + s.length <= t.base || t.base + t.length <= s.base
  }

  /** Segments are page-aligned, inside the space and pairwise disjoint; the list is in no particular order. */
  ghost predicate ValidSegments(segs: seq<Segment>, start: nat, end: nat) {
    && (forall i :: 0 <= i < |segs| ==> SegmentOk(segs[i], start, end))
    && (forall i, j :: 0 <= i < j < |segs| ==> Apart(segs[i], segs[j]))
  }

  predicate ValidBounds(start: nat, end: nat) {
    0 < start < end < WORD && Paged(start)
  }

  predicate Mapped(segs: seq<Segment>, a: nat) {
    exists i :: 0 <= i < |segs| && Covers(segs[i], a)
  }

  /** The attributes of an address, or None if no segment has it. */
  ghost function At(segs: seq<Segment>, a: nat): Option<Attr> {
    if Mapped(segs, a) then
      var i :| 0 <= i < |segs| && Covers(segs[i], a);
      Some(Attr(segs[i].prot, segs[i].kind))
    else None
  }

  lemma AtSegment(segs: seq<Segment>, start: nat, end: nat, i: nat, a: nat)
    requires ValidSegments(segs, start, end) && i < |segs| && Covers(segs[i], a)
    ensures At(segs, a) == Some(Attr(segs[i].prot, segs[i].kind))
    ensures forall j :: 0 <= j < |segs| && Covers(segs[j], a) ==> j == i
  {
    hide Paged;
    assert forall j :: 0 <= j < i ==> Apart(segs[j], segs[i]);
    assert forall j :: i < j < |segs| ==> Apart(segs[i], segs[j]);
  }

  lemma AtMissing(segs: seq<Segment>, a: nat)
    ensures At(segs, a) == None <==> !Mapped(segs, a)
  {
  }

  /** An address range that could be mapped. */
  predicate Fits(segs: seq<Segment>, start: nat, end: nat, base: nat, length: nat) {
    InBounds(start, end, base, length) && forall i :: 0 <= i < |segs| ==> !Intersects(base, length, segs[i])
  }

  /** Where find_space begins. */
  function Origin(start: nat, end: nat, hint: nat, length: nat): nat {
    if InBounds(start, end, hint, length) then hint else start
  }

  /** `r` is the lowest fitting address from the origin on, or 0 if there is none. */
  ghost predicate LeastFit(segs: seq<Segment>, start: nat, end: nat, hint: nat, length: nat, r: nat) {
    var origin := Origin(start, end, hint, length);
    if r == 0 then forall c :: origin <= c ==> !Fits(segs, start, end, c, length)
    else origin <= r && Fits(segs, start, end, r, length)
         && forall c :: origin <= c < r ==> !Fits(segs, start, end, c, length)
  }

  /** Segment i without [lo, hi): up to two pieces stay. */
  function Pieces(s: Segment, lo: nat, hi: nat): seq<Segment>
    requires s.base <= lo < hi <= s.base + s.length
  {
    (if s.base < lo then [s.(length := lo - s.base)] else [])
    + (if hi < s.base + s.length then [s.(base := hi, length := s.base + s.length - hi)] else [])
  }

  function Cut(segs: seq<Segment>, i: nat, lo: nat, hi: nat): seq<Segment>
    requires i < |segs| && segs[i].base <= lo < hi <= segs[i].base + segs[i].length
  {
    segs[..i] + Pieces(segs[i], lo, hi) + segs[i + 1..]
  }

  function LeftPiece(s: Segment, lo: nat): Segment
    requires s.base <= lo
  {
    s.(length := lo - s.base)
  }

  function RightPiece(s: Segment, hi: nat): Segment
    requires hi <= s.base + s.length
  {
    s.(base := hi, length := s.base + s.length - hi)
  }

  /** Where entry k of the cut list comes from: an untouched segment, or the left or right piece of segment i. */
  lemma CutAt(segs: seq<Segment>, i: nat, lo: nat, hi: nat, k: nat)
    requires i < |segs| && segs[i].base <= lo < hi <= segs[i].base + segs[i].length && k < |Cut(segs, i, lo, hi)|
    ensures var t, n := Cut(segs, i, lo, hi), |Pieces(segs[i], lo, hi)|;
      && |t| == |segs| - 1 + n && n <= 2
      && (k < i ==> t[k] == segs[k])
      && (i <= k < i + n ==> (k == i && segs[i].base < lo && t[k] == LeftPiece(segs[i], lo))
                             || (k == i + n - 1 && hi < segs[i].base + segs[i].length
                               && t[k] == RightPiece(segs[i], hi)))
      && (k >= i + n ==> t[k] == segs[k - n + 1])
  {
  }

  lemma CutValid(segs: seq<Segment>, start: nat, end: nat, i: nat, lo: nat, hi: nat)
    requires ValidSegments(segs, start, end)
    requires i < |segs| && segs[i].base <= lo < hi <= segs[i].base + segs[i].length
    requires Paged(lo) && Paged(hi)
    ensures ValidSegments(Cut(segs, i, lo, hi), start, end)
  {
    hide Cut, Paged, Pieces;
    var t, n := Cut(segs, i, lo, hi), |Pieces(segs[i], lo, hi)|;
    forall k | 0 <= k < |t| ensures SegmentOk(t[k], start, end) {
      CutAt(segs, i, lo, hi, k);
    }
    forall j, k | 0 <= j < k < |t| ensures Apart(t[j], t[k]) {
      CutAt(segs, i, lo, hi, j);
      CutAt(segs, i, lo, hi, k);
      var a := if j < i then j else if j < i + n then i else j - n + 1;
      var b := if k < i then k else if k < i + n then i else k - n + 1;
      if a < b { assert Apart(segs[a], segs[b]); }
    }
  }

  /** An address is in the cut list exactly if it was in the list and outside [lo, hi). */
  lemma CutMapped(segs: seq<Segment>, start: nat, end: nat, i: nat, lo: nat, hi: nat, a: nat)
    requires ValidSegments(segs, start, end)
    requires i < |segs| && segs[i].base <= lo < hi <= segs[i].base + segs[i].length
    ensures Mapped(segs, a) && !(lo <= a < hi) ==> Mapped(Cut(segs, i, lo, hi), a)
  {
    if Mapped(segs, a) && !(lo <= a < hi) {
      var k :| 0 <= k < |segs| && Covers(segs[k], a);
      var t, n := Cut(segs, i, lo, hi), |Pieces(segs[i], lo, hi)|;
      if k < i { assert t[k] == segs[k]; }
      if k > i { assert t[k + n - 1] == segs[k]; }
      if k == i && a < lo { assert t[i] == LeftPiece(segs[i], lo); assert Covers(t[i], a); }
      if k == i && a >= hi { assert t[i + n - 1] == RightPiece(segs[i], hi); assert Covers(t[i + n - 1], a); }
    }
  }

  /** Cutting removes exactly [lo, hi) and leaves every other address as it was. */
  lemma CutExact(segs: seq<Segment>, start: nat, end: nat, i: nat, lo: nat, hi: nat, a: nat)
    requires ValidSegments(segs, start, end)
    requires i < |segs| && segs[i].base <= lo < hi <= segs[i].base + segs[i].length
    requires Paged(lo) && Paged(hi)
    ensures At(Cut(segs, i, lo, hi), a) == if lo <= a < hi then None else At(segs, a)
  {
    hide Cut, Paged, Pieces, At;
    CutValid(segs, start, end, i, lo, hi);
    CutMapped(segs, start, end, i, lo, hi, a);
    var t, n := Cut(segs, i, lo, hi), |Pieces(segs[i], lo, hi)|;
    AtMissing(t, a);
    AtMissing(segs, a);
    if Mapped(t, a) {
      var k :| 0 <= k < |t| && Covers(t[k], a);
      CutAt(segs, i, lo, hi, k);
      var src := if k < i then k else if k < i + n then i else k - n + 1;
      assert Covers(segs[src], a);
      AtSegment(t, start, end, k, a);
      AtSegment(segs, start, end, src, a);
    }
  }

  /** The physical address segment_map computes in a direct segment. */
  function DirectTarget(s: Segment, a: nat): nat
    requires s.kind.Direct? && s.base <= a
  {
    s.kind.physical + (a - s.base)
  }

  /** What is left of a direct segment after [lo, hi) was cut out still sends every address where the segment did. */
  ghost predicate TargetsKept(s: Segment, lo: nat, hi: nat)
    requires s.kind.Direct? && s.base <= lo < hi <= s.base + s.length
  {
    forall a: nat :: s.base <= a < s.base + s.length && !(lo <= a < hi) ==>
      DirectTarget(if a < lo then LeftPiece(s, lo) else RightPiece(s, hi), a) == DirectTarget(s, a)
  }

  /** The right-hand piece of a split copies the physical base without moving it, so it sends all its addresses
      elsewhere, hi - base lower: a cut keeps the targets exactly if it leaves no such piece. */
  lemma DirectCutExact(s: Segment, lo: nat, hi: nat)
    requires s.kind.Direct? && s.base <= lo < hi <= s.base + s.length
    ensures TargetsKept(s, lo, hi) <==> hi == s.base + s.length
    ensures forall a: nat :: hi <= a < s.base + s.length ==>
              DirectTarget(RightPiece(s, hi), a) == DirectTarget(s, a) - (hi - s.base)
  {
    if hi < s.base + s.length { assert DirectTarget(RightPiece(s, hi), hi) != DirectTarget(s, hi); }
  }

  lemma AddValid(segs: seq<Segment>, start: nat, end: nat, s: Segment)
    requires ValidSegments(segs, start, end) && SegmentOk(s, start, end)
    requires forall i :: 0 <= i < |segs| ==> !Intersects(s.base, s.length, segs[i])
    ensures ValidSegments([s] + segs, start, end)
    ensures forall a :: At([s] + segs, a) == if Covers(s, a) then Some(Attr(s.prot, s.kind)) else At(segs, a)
  {
    hide Paged;
    var t := [s] + segs;
    assert forall k :: 0 < k < |t| ==> t[k] == segs[k - 1];
    assert ValidSegments(t, start, end);
    forall a ensures At(t, a) == if Covers(s, a) then Some(Attr(s.prot, s.kind)) else At(segs, a) {
      if Covers(s, a) {
        AtSegment(t, start, end, 0, a);
      } else if Mapped(segs, a) {
        var i :| 0 <= i < |segs| && Covers(segs[i], a);
        AtSegment(segs, start, end, i, a);
        AtSegment(t, start, end, i + 1, a);
      }
    }
  }

  /** A page lies in a segment as a whole or not at all. */
  lemma PageUniform(segs: seq<Segment>, start: nat, end: nat, page: nat, a: nat)
    requires ValidSegments(segs, start, end) && Paged(page) && page <= a < page + PAGE_SIZE
    ensures At(segs, a) == At(segs, page)
  {
    hide Paged, At;
    AtMissing(segs, a);
    AtMissing(segs, page);
    forall i | 0 <= i < |segs| ensures Covers(segs[i], a) <==> Covers(segs[i], page) {
      var s := segs[i];
      if page < s.base { PagedGap(page, s.base); }
      if page < s.base + s.length { PagedGap(page, s.base + s.length); }
    }
    if Mapped(segs, a) {
      var i :| 0 <= i < |segs| && Covers(segs[i], a);
      AtSegment(segs, start, end, i, a);
      AtSegment(segs, start, end, i, page);
    }
  }
}
