/** The segment list of an address space and the calls that search and change it (kernel/src/memory/vmm.c). */
module AddressSpaces {
  import opened Machine
  import opened Options
  import opened Segments

  /** Every address of [a, a + n) is mapped. */
  ghost predicate AllMapped(segs: seq<Segment>, a: nat, n: nat) {
    forall x :: a <= x < a + n ==> Mapped(segs, x)
  }

  lemma SplitRange(segs: seq<Segment>, a: nat, n: nat, m: nat)
    requires m <= n
    ensures AllMapped(segs, a, n) <==> AllMapped(segs, a, m) && AllMapped(segs, a + m, n - m)
  {
  }

  lemma InSegment(segs: seq<Segment>, i: nat, a: nat, n: nat)
    requires i < |segs| && segs[i].base <= a && a + n <= segs[i].base + segs[i].length
    ensures AllMapped(segs, a, n)
  {
    assert forall x :: a <= x < a + n ==> Covers(segs[i], x);
  }

  /** The hint rounded up to a page boundary, on 64-bit addresses. */
  function RoundedHint(hint: nat): nat {
    if Paged(hint) then hint else (hint + (PAGE_SIZE - hint % PAGE_SIZE)) % WORD
  }

  lemma RoundedIsPaged(hint: nat)
    ensures Paged(RoundedHint(hint))
  {
  }

  /** The least page boundary from the hint on; 0 if that is beyond the last address. */
  lemma RoundedExact(hint: nat, b: nat)
    requires hint < WORD && Paged(b) && hint <= b < hint + PAGE_SIZE
    ensures RoundedHint(hint) == if b < WORD then b else 0
  {
  }

  /** `r` is the least fitting page boundary from the hint on, if the first one has room in the space, and the least
      fitting one of the space otherwise. */
  ghost predicate FirstPlace(segs: seq<Segment>, start: nat, end: nat, hint: nat, length: nat, r: nat) {
    Fits(segs, start, end, r, length) && forall b: nat :: Paged(b) && hint <= b < hint + PAGE_SIZE ==>
      if start <= b && b < end && length <= end - b
      then hint <= r && forall c :: hint <= c < r && Paged(c) ==> !Fits(segs, start, end, c, length)
      else start <= r && forall c :: start <= c < r ==> !Fits(segs, start, end, c, length)
  }

  lemma LeastIsFirst(segs: seq<Segment>, start: nat, end: nat, hint: nat, length: nat, r: nat)
    requires ValidBounds(start, end) && hint < WORD && r != 0
    requires LeastFit(segs, start, end, RoundedHint(hint), length, r)
    ensures FirstPlace(segs, start, end, hint, length, r)
  {
    hide RoundedHint, Fits;
    forall b: nat | Paged(b) && hint <= b < hint + PAGE_SIZE
      ensures if start <= b && b < end && length <= end - b
              then hint <= r && forall c :: hint <= c < r && Paged(c) ==> !Fits(segs, start, end, c, length)
              else start <= r && forall c :: start <= c < r ==> !Fits(segs, start, end, c, length)
    {
      RoundedExact(hint, b);
      forall c | hint <= c < b && Paged(c) ensures false { PagedGap(c, b); }
    }
  }

  /** There is no room for a mapping, or it is asked for in a way that is refused. */
  ghost predicate NoPlace(segs: seq<Segment>, start: nat, end: nat, hint: nat, length: nat, fixed: bool) {
    || length == 0 || !Paged(length) || (fixed && !Paged(hint))
    || (!fixed && NowhereFits(segs, start, end, hint, length))
    || (fixed && !Fits(segs, start, end, hint, length))
  }

  /** Nothing fits from the first page boundary at or above the hint on, if that one has room in the space, and nothing
      at all otherwise. */
  ghost predicate NowhereFits(segs: seq<Segment>, start: nat, end: nat, hint: nat, length: nat) {
    forall b: nat :: Paged(b) && hint <= b < hint + PAGE_SIZE ==>
      forall c :: (start <= b && b < end && length <= end - b ==> b <= c) ==> !Fits(segs, start, end, c, length)
  }

  lemma NothingLeast(segs: seq<Segment>, start: nat, end: nat, hint: nat, length: nat)
    requires ValidBounds(start, end) && hint < WORD
    ensures LeastFit(segs, start, end, RoundedHint(hint), length, 0) <==> NowhereFits(segs, start, end, hint, length)
  {
    hide RoundedHint, Paged;
    var b := FirstBoundary(hint);
    RoundedExact(hint, b);
    forall x: nat | Paged(x) && hint <= x < hint + PAGE_SIZE ensures x == b {
      if x < b { PagedGap(x, b); }
      if b < x { PagedGap(b, x); }
    }
  }

  lemma FirstBoundary(hint: nat) returns (b: nat)
    ensures Paged(b) && hint <= b < hint + PAGE_SIZE
  {
    b := if Paged(hint) then hint else hint + (PAGE_SIZE - hint % PAGE_SIZE);
  }

  class AddressSpace {
    const start: nat
    const end: nat
    var segments: seq<Segment>

    ghost predicate Valid()
      reads this
    {
      ValidBounds(start, end) && ValidSegments(segments, start, end)
    }

    constructor (start: nat, end: nat)
      requires ValidBounds(start, end)
      ensures Valid() && segments == [] && this.start == start && this.end == end
    {
      this.start, this.end, segments := start, end, [];
    }

    /** find_space */
    method FindSpace(hint: nat, length: nat) returns (address: nat)
      requires Valid() && length > 0
      ensures LeastFit(segments, start, end, hint, length, address)
      ensures Paged(hint) ==> Paged(address)
    {
      hide Paged;
      ZeroIsPaged();
      address := hint;
      if !InBounds(start, end, address, length) { address := start; }
      ghost var origin := address;
      while true
        invariant origin <= address && (Paged(hint) ==> Paged(address))
        invariant forall c :: origin <= c < address ==> !Fits(segments, start, end, c, length)
        decreases if address < end then end - address else 0
      {
        if !InBounds(start, end, address, length) {
          NoneBeyond(segments, start, end, address, length);
          return 0;
        }
        var valid := true;
        var i := 0;
        while i < |segments|
          invariant 0 <= i <= |segments|
          invariant forall j :: 0 <= j < i ==> !Intersects(address, length, segments[j])
        {
          if Intersects(address, length, segments[i]) {
            valid := false;
            break;
          }
          i := i + 1;
        }
        if valid { return; }
        NoneBefore(segments, start, end, address, length, i);
        address := segments[i].base + segments[i].length;
      }
    }

    /** addr_to_segment */
    method AddrToSegment(address: nat) returns (res: Option<nat>)
      requires Valid()
      ensures res.Some? ==> res.value < |segments| && Covers(segments[res.value], address)
      ensures res.None? ==> !Mapped(segments, address)
    {
      hide Paged;
      if !(start <= address < end) { return None; }
      var i := 0;
      while i < |segments|
        invariant 0 <= i <= |segments| && forall j :: 0 <= j < i ==> !Covers(segments[j], address)
      {
        if Covers(segments[i], address) { return Some(i); }
        i := i + 1;
      }
      return None;
    }

    /** memory_exists; `address + length` is a 64-bit sum. */
    method MemoryExists(address: nat, length: nat) returns (res: bool)
      requires Valid() && address < WORD && length < WORD
      ensures res == MemoryFound(segments, start, end, address, length)
    {
      hide Valid, Scanning, ScanResult;
      if !(start <= address < end) || !(start <= (address + length) % WORD < end) { return false; }
      var a, n := address, length;
      ScanBegins(segments, address, length);
      while n != 0
        invariant 0 <= a && 0 <= n && Scanning(segments, address, length, a, n)
        decreases n
      {
        var sum := (a + n) % WORD;
        var restart := false;
        var i := 0;
        while i < |segments|
          invariant 0 <= i <= |segments| && forall j :: 0 <= j < i ==> !Covers(segments[j], a)
        {
          var s := segments[i];
          if s.base <= a && s.base + s.length > a {
            var newAddr := s.base + s.length;
            if newAddr >= sum {
              ScanFound(segments, address, length, a, n, i);
              return true;
            }
            ScanFront(segments, address, length, a, n, i);
            n, a := sum - newAddr, newAddr;
            restart := true;
            break;
          }
          if s.base > a && s.base < sum && s.base + s.length >= sum {
            ScanBack(segments, address, length, a, n, i);
            n := n - (sum - s.base);
            restart := true;
            break;
          }
          i := i + 1;
        }
        if !restart {
          ScanMissing(segments, address, length, a, n);
          return false;
        }
      }
      ScanEnds(segments, address, length, a);
      return true;
    }

    /** map_common without VMM_FLAG_NO_DEMAND, given a segment descriptor; 0 stands for NULL. */
    method MapCommon(hint: nat, length: nat, prot: nat, kind: Kind, fixed: bool) returns (r: nat)
      requires Valid() && hint < WORD && length < WORD
      modifies this
      ensures Valid()
      ensures r != 0 ==>
        && LeastFit(old(segments), start, end, RoundedHint(hint), length, r)
        && segments == [Segment(r, length, prot, kind)] + old(segments)
        && (forall a: nat ::
              At(segments, a) == if r <= a < r + length then Some(Attr(prot, kind)) else At(old(segments), a))
      ensures r == 0 ==> segments == old(segments)
      ensures r == 0 <==> NoPlace(old(segments), start, end, hint, length, fixed)
      ensures (fixed && r != 0 ==> r == hint) && Paged(r)
      ensures r != 0 ==> FirstPlace(old(segments), start, end, hint, length, r)
    {
      var address := hint;
      ZeroIsPaged();
      if length == 0 || !Paged(length) { return 0; }
      if !Paged(address) {
        if fixed { return 0; }
        address := (address + (PAGE_SIZE - address % PAGE_SIZE)) % WORD;
      }
      RoundedIsPaged(hint);
      hide Paged;
      NothingLeast(segments, start, end, hint, length);
      address := FindSpace(address, length);
      if address == 0 || (hint != address && fixed) { return 0; }
      assert InBounds(start, end, address, length);
      PagedSum(address, length);
      var segment := Segment(address, length, prot, kind);
      AddValid(segments, start, end, segment);
      LeastIsFirst(segments, start, end, hint, length, address);
      segments := [segment] + segments;
      return address;
    }

    /** vmm_unmap on the segment list; `cuts` are the ranges whose pages segment_unmap clears from the tables. */
    method Unmap(address: nat, length: nat) returns (cuts: seq<(nat, nat)>)
      requires Valid() && Paged(address) && Paged(length) && (length == 0 || InBounds(start, end, address, length))
      modifies this
      ensures Valid()
      ensures Removed(segments, old(segments), address, address + length)
      ensures forall c :: c in cuts ==> Paged(c.0) && Paged(c.1) && address <= c.0 && c.0 + c.1 <= address + length
      ensures forall a :: address <= a < address + length ==> (Mapped(old(segments), a) <==> InCuts(cuts, a))
    {
      hide Paged, Cut, Removed;
      RemovedNone(segments, address);
      cuts := [];
      var splitBase := address;
      PagedSum(address, length);
      ghost var was := segments;
      while splitBase < address + length
        invariant address <= splitBase <= address + length && Paged(splitBase) && Valid()
        invariant Removed(segments, was, address, splitBase)
        invariant forall c :: c in cuts ==> Paged(c.0) && Paged(c.1) && address <= c.0 && c.0 + c.1 <= splitBase
        invariant forall a :: address <= a < splitBase ==> (Mapped(was, a) <==> InCuts(cuts, a))
      {
        PagedGap(splitBase, address + length);
        var i := AddrToSegment(splitBase);
        if i.None? {
          SkipPage(was, segments, start, end, address, splitBase, cuts);
          PageIsPaged(splitBase);
          splitBase := splitBase + PAGE_SIZE;
        } else {
          var n := PieceLength(i.value, splitBase, address + length);
          assert InBounds(start, end, splitBase, n);
          PagedSum(splitBase, n);
          CutStep(was, segments, start, end, i.value, address, splitBase, splitBase + n, cuts);
          cuts := cuts + [(splitBase, n)];
          CutSegment(i.value, splitBase, n);
          splitBase := splitBase + n;
        }
      }
    }

    /** The inner loop of vmm_unmap: how much of segment i from splitBase on lies in the range, page by page. */
    method PieceLength(i: nat, splitBase: nat, limit: nat) returns (n: nat)
      requires Valid() && i < |segments| && Covers(segments[i], splitBase) && splitBase < limit && Paged(splitBase)
      requires Paged(limit)
      ensures n > 0 && Paged(n) && splitBase + n <= limit && splitBase + n <= segments[i].base + segments[i].length
      ensures splitBase + n == limit || splitBase + n == segments[i].base + segments[i].length
    {
      hide Paged;
      var segEnd := segments[i].base + segments[i].length;
      assert SegmentOk(segments[i], start, end);
      PagedGap(splitBase, segEnd);
      PagedGap(splitBase, limit);
      ZeroIsPaged();
      PageIsPaged(0);
      n := PAGE_SIZE;
      while Covers(segments[i], splitBase + n) && splitBase + n < limit
        invariant n > 0 && Paged(n) && splitBase + n <= limit && splitBase + n <= segEnd
        decreases limit - n
      {
        PagedSum(splitBase, n);
        PagedGap(splitBase + n, segEnd);
        PagedGap(splitBase + n, limit);
        PageIsPaged(n);
        n := n + PAGE_SIZE;
      }
    }

    /** The end of the loop body of vmm_unmap: the piece after the cut is appended behind segment i, which is then
        shortened or deleted. */
    method CutSegment(i: nat, splitBase: nat, n: nat)
      requires i < |segments| && n > 0
      requires segments[i].base <= splitBase && splitBase + n <= segments[i].base + segments[i].length
      modifies this
      ensures segments == old(Cut(segments, i, splitBase, splitBase + n))
    {
      var split := segments[i];
      if split.base + split.length > splitBase + n {
        var segment := Segment(splitBase + n, (split.base + split.length) - (splitBase + n), split.prot, split.kind);
        segments := segments[..i + 1] + [segment] + segments[i + 1..];
      }
      if split.base < splitBase {
        segments := segments[i := split.(length := splitBase - split.base)];
      } else {
        segments := segments[..i] + segments[i + 1..];
      }
    }
  }

  ghost predicate InCuts(cuts: seq<(nat, nat)>, a: int) {
    exists c :: c in cuts && c.0 <= a < c.0 + c.1
  }

  lemma PageIsPaged(a: nat)
    requires Paged(a)
    ensures Paged(a + PAGE_SIZE)
  {
  }

  /** Exactly the addresses of [lo, hi) have lost their segment; the others keep protection and type. */
  ghost predicate Removed(segs: seq<Segment>, was: seq<Segment>, lo: nat, hi: nat) {
    forall a: nat :: At(segs, a) == if lo <= a < hi then None else At(was, a)
  }

  lemma RemovedNone(segs: seq<Segment>, lo: nat)
    ensures Removed(segs, segs, lo, lo)
  {
  }

  /** A page in no segment is passed over. */
  lemma SkipPage(was: seq<Segment>, segs: seq<Segment>, start: nat, end: nat, lo: nat, page: nat, cuts: seq<(nat, nat)>)
    requires ValidSegments(segs, start, end) && Paged(page) && !Mapped(segs, page)
    requires lo <= page && Removed(segs, was, lo, page)
    requires forall c :: c in cuts ==> c.0 + c.1 <= page
    ensures Removed(segs, was, lo, page + PAGE_SIZE)
    ensures forall a: nat :: page <= a < page + PAGE_SIZE ==> !Mapped(was, a) && !InCuts(cuts, a)
  {
    hide Paged, At;
    forall a: nat | page <= a < page + PAGE_SIZE ensures At(segs, a) == None && !Mapped(was, a) {
      PageUniform(segs, start, end, page, a);
      AtMissing(segs, page);
      AtMissing(was, a);
    }
  }

  /** A piece of segment i is cut out. */
  lemma CutStep(was: seq<Segment>, segs: seq<Segment>, start: nat, end: nat, i: nat, from: nat, lo: nat, hi: nat,
                cuts: seq<(nat, nat)>)
    requires ValidSegments(segs, start, end) && i < |segs| && lo < hi
    requires segs[i].base <= lo && hi <= segs[i].base + segs[i].length && Paged(lo) && Paged(hi)
    requires from <= lo && Removed(segs, was, from, lo)
    ensures ValidSegments(Cut(segs, i, lo, hi), start, end)
    ensures Removed(Cut(segs, i, lo, hi), was, from, hi)
    ensures forall a :: lo <= a < hi ==> Mapped(was, a)
    ensures forall a :: InCuts(cuts + [(lo, hi - lo)], a) <==> InCuts(cuts, a) || lo <= a < hi
  {
    hide Paged, At, Cut;
    CutValid(segs, start, end, i, lo, hi);
    forall a: nat ensures At(Cut(segs, i, lo, hi), a) == if from <= a < hi then None else At(was, a) {
      CutExact(segs, start, end, i, lo, hi, a);
    }
    forall a | lo <= a < hi ensures Mapped(was, a) {
      assert Covers(segs[i], a);
      AtMissing(segs, a);
      AtMissing(was, a);
    }
    forall a ensures InCuts(cuts + [(lo, hi - lo)], a) <==> InCuts(cuts, a) || lo <= a < hi {
      assert (lo, hi - lo) in cuts + [(lo, hi - lo)];
    }
  }

  lemma NoneNeeded(segs: seq<Segment>, a: nat)
    ensures AllMapped(segs, a, 0)
  {
  }

  /** The scan of [address, address + length) has come down to [a, a + n); a range whose end wraps stays as it is. */
  ghost predicate Scanning(segs: seq<Segment>, address: nat, length: nat, a: nat, n: nat) {
    if address + length >= WORD then a == address < WORD && n == length < WORD
    else a + n < WORD && (AllMapped(segs, address, length) <==> AllMapped(segs, a, n))
  }

  lemma ScanBegins(segs: seq<Segment>, address: nat, length: nat)
    requires address < WORD && length < WORD
    ensures Scanning(segs, address, length, address, length)
  {
  }

  /** The sum taken on 64-bit words. */
  lemma ScanSum(segs: seq<Segment>, address: nat, length: nat, a: nat, n: nat)
    requires Scanning(segs, address, length, a, n)
    ensures (a + n) % WORD == if address + length < WORD then a + n else a + n - WORD
    ensures address + length >= WORD ==> a + n - WORD < a
  {
  }

  lemma ScanFound(segs: seq<Segment>, address: nat, length: nat, a: nat, n: nat, i: nat)
    requires Scanning(segs, address, length, a, n) && i < |segs| && Covers(segs[i], a)
    requires segs[i].base + segs[i].length >= (a + n) % WORD
    ensures ScanResult(segs, address, length)
  {
    hide AllMapped;
    ScanSum(segs, address, length, a, n);
    if address + length < WORD { InSegment(segs, i, a, n); }
  }

  /** What the segment covers is taken off the front of the range. */
  lemma ScanFront(segs: seq<Segment>, address: nat, length: nat, a: nat, n: nat, i: nat)
    requires Scanning(segs, address, length, a, n) && i < |segs| && Covers(segs[i], a)
    requires segs[i].base + segs[i].length < (a + n) % WORD
    ensures var newAddr, sum := segs[i].base + segs[i].length, (a + n) % WORD;
      sum - newAddr < n && Scanning(segs, address, length, newAddr, sum - newAddr)
  {
    hide AllMapped;
    ScanSum(segs, address, length, a, n);
    var m := segs[i].base + segs[i].length - a;
    InSegment(segs, i, a, m);
    SplitRange(segs, a, n, m);
  }

  /** The same at its end. */
  lemma ScanBack(segs: seq<Segment>, address: nat, length: nat, a: nat, n: nat, i: nat)
    requires Scanning(segs, address, length, a, n) && i < |segs|
    requires a < segs[i].base < (a + n) % WORD <= segs[i].base + segs[i].length
    ensures var m := (a + n) % WORD - segs[i].base; 0 < m <= n && Scanning(segs, address, length, a, n - m)
  {
    hide AllMapped;
    ScanSum(segs, address, length, a, n);
    var m := a + n - segs[i].base;
    InSegment(segs, i, segs[i].base, m);
    SplitRange(segs, a, n, n - m);
  }

  lemma ScanMissing(segs: seq<Segment>, address: nat, length: nat, a: nat, n: nat)
    requires Scanning(segs, address, length, a, n) && n > 0 && !Mapped(segs, a)
    ensures !ScanResult(segs, address, length)
  {
    hide Mapped;
  }

  lemma ScanEnds(segs: seq<Segment>, address: nat, length: nat, a: nat)
    requires Scanning(segs, address, length, a, 0)
    ensures ScanResult(segs, address, length)
  {
    hide Mapped;
    NoneNeeded(segs, a);
  }

  lemma ZeroIsPaged()
    ensures Paged(0)
  {
  }

  lemma NoneBeyond(segs: seq<Segment>, start: nat, end: nat, address: nat, length: nat)
    requires start <= address && !InBounds(start, end, address, length)
    ensures forall c :: address <= c ==> !Fits(segs, start, end, c, length)
  {
  }

  /** No range beginning before the end of a segment that the least candidate meets can fit. */
  lemma NoneBefore(segs: seq<Segment>, start: nat, end: nat, address: nat, length: nat, i: nat)
    requires i < |segs| && Intersects(address, length, segs[i])
    ensures forall c :: address <= c < segs[i].base + segs[i].length ==> !Fits(segs, start, end, c, length)
  {
    forall c | address <= c < segs[i].base + segs[i].length ensures !Fits(segs, start, end, c, length) {
      assert Intersects(c, length, segs[i]);
    }
  }

  /** The scan tells whether the whole range is mapped exactly if the sum did not wrap or the first address is not
      mapped. From a start in bounds memory_exists accepts the mapped ranges that end below the last byte, and the
      ranges that wrap to an end in bounds and begin with a mapped address. */
  lemma CoverageExact(segs: seq<Segment>, start: nat, end: nat, address: nat, length: nat)
    requires ValidBounds(start, end) && ValidSegments(segs, start, end) && start <= address < end && length < WORD
    ensures (ScanResult(segs, address, length) <==> AllMapped(segs, address, length))
            <==> (address + length < WORD || !Mapped(segs, address))
    ensures address + length < WORD ==>
      (MemoryFound(segs, start, end, address, length) <==>
        AllMapped(segs, address, length) && address + length < end)
    ensures address + length >= WORD ==>
      (MemoryFound(segs, start, end, address, length) <==>
        Mapped(segs, address) && start <= address + length - WORD < end)
  {
    if address + length >= WORD {
      var last := address + length - 1;
      assert !Mapped(segs, last) by {
        forall i | 0 <= i < |segs| ensures !Covers(segs[i], last) { assert SegmentOk(segs[i], start, end); }
      }
      assert address <= last < address + length;
    }
  }

  /** One page is mapped at 0x2000; a range of 2^64 - 0x1000 bytes from there ends, after wrapping, at 0x1000. */
  lemma CoverageWraps()
    ensures var segs := [Segment(0x2000, PAGE_SIZE, 0, Anon)];
            && ValidSegments(segs, 0x1000, 0x8000) && 0x1000 <= (0x2000 + (WORD - 0x1000)) % WORD < 0x8000
            && ScanResult(segs, 0x2000, WORD - 0x1000) && !AllMapped(segs, 0x2000, WORD - 0x1000)
  {
    var segs := [Segment(0x2000, PAGE_SIZE, 0, Anon)];
    assert Covers(segs[0], 0x2000);
    assert Mapped(segs, 0x2000);
    assert !Mapped(segs, 0x3000);
  }

  /** What the scan answers once both bounds checks have passed: the range is mapped, or the sum wrapped and at least
      its first address is. */
  ghost predicate ScanResult(segs: seq<Segment>, address: nat, length: nat) {
    if address + length < WORD then AllMapped(segs, address, length) else Mapped(segs, address)
  }

  /** What memory_exists answers. */
  ghost predicate MemoryFound(segs: seq<Segment>, start: nat, end: nat, address: nat, length: nat) {
    start <= address < end && start <= (address + length) % WORD < end && ScanResult(segs, address, length)
  }
}
