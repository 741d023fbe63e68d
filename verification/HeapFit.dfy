/** Which offset heap_alloc_align tries in an entry, and when its 64-bit arithmetic misleads it
    (kernel/src/memory/heap.c:62-74). */
module HeapFit {
  import opened Machine
  import opened Options
  import opened Arithmetic

  /** sizeof(heap_entry_t) */
  const HEADER: nat := 40
  const MIN_ENTRY_SIZE: nat := 8

  /** A header at `addr` followed by `size` bytes. */
  datatype Entry = Entry(addr: nat, size: nat, free: bool, prot: nat)

  /** Where the caller's bytes start. */
  function Payload(e: Entry): nat { e.addr + HEADER }

  predicate Multiple(x: nat, n: nat)
    requires n > 0
  {
    x % n == 0
  }

  /** The caller's bytes are aligned if the block starts `offset` bytes into the entry at `addr`. */
  predicate Aligned(addr: nat, offset: nat, alignment: nat)
    requires alignment > 0
  {
    Multiple(addr + HEADER + offset, alignment)
  }

  /** A block may start here: no entry is needed in front of it, or there is room for one. */
  predicate Usable(offset: nat) { offset == 0 || offset >= HEADER + MIN_ENTRY_SIZE }

  /** A block may start `offset` bytes into an entry: it is aligned, and a free entry fits in front of it if needed. */
  predicate Admissible(addr: nat, offset: nat, alignment: nat)
    requires alignment > 0
  {
    Aligned(addr, offset, alignment) && Usable(offset)
  }

  predicate Fits(e: Entry, offset: nat, size: nat, alignment: nat)
    requires alignment > 0
  {
    e.free && Admissible(e.addr, offset, alignment) && offset + size <= e.size
  }

  /** The right answer for one entry: the least admissible offset if the request fits there, nothing if it fits
      nowhere. */
  ghost predicate Right(e: Entry, size: nat, alignment: nat, fit: Option<nat>)
    requires alignment > 0
  {
    match fit
    case None => forall o: nat {:trigger Fits(e, o, size, alignment)} :: !Fits(e, o, size, alignment)
    case Some(offset) =>
      && Fits(e, offset, size, alignment)
      && forall o: nat {:trigger Admissible(e.addr, o, alignment)} :: o < offset ==> !Admissible(e.addr, o, alignment)
  }

  // ----- The loop on 64-bit words

  /** Addition of 64-bit words. */
  function Sum(a: nat, b: nat): nat
    requires a < WORD && b < WORD
  {
    if a + b < WORD then a + b else a + b - WORD
  }

  /** The test `entry->size < offset + size`. */
  predicate TooSmall(entrySize: nat, offset: nat, size: nat)
    requires offset < WORD && size < WORD
  {
    entrySize < Sum(offset, size)
  }

  /** The first offset tried. */
  function FirstOffset(e: Entry, alignment: nat): (offset: nat)
    requires alignment > 0
    ensures offset < alignment && (offset == 0 || Payload(e) >= alignment - offset)
  {
    if Payload(e) % alignment == 0 then 0 else alignment - Payload(e) % alignment
  }

  /** The check_fit loop from `offset` on. */
  function CheckFit(entrySize: nat, offset: nat, size: nat, alignment: nat): Option<nat>
    requires offset < WORD && size < WORD && 0 < alignment < WORD
    decreases if Usable(offset) then 0
              else if alignment + HEADER + MIN_ENTRY_SIZE <= WORD then HEADER + MIN_ENTRY_SIZE - offset else offset
  {
    if TooSmall(entrySize, offset, size) then None
    else if Usable(offset) then Some(offset)
    else CheckFit(entrySize, Sum(offset, alignment), size, alignment)
  }

  function FitAnswer(e: Entry, size: nat, alignment: nat): Option<nat>
    requires size < WORD && 0 < alignment < WORD
  {
    CheckFit(e.size, FirstOffset(e, alignment), size, alignment)
  }

  // ----- The offset it looks for

  function LeastFrom(offset: nat, alignment: nat): nat
    requires alignment > 0
    decreases HEADER + MIN_ENTRY_SIZE - offset
  {
    if Usable(offset) then offset else LeastFrom(offset + alignment, alignment)
  }

  function LeastOffset(e: Entry, alignment: nat): nat
    requires alignment > 0
  {
    LeastFrom(FirstOffset(e, alignment), alignment)
  }

  lemma {:induction false} LeastFromFirst(addr: nat, o: nat, alignment: nat)
    requires alignment > 0 && Aligned(addr, o, alignment)
    ensures var least := LeastFrom(o, alignment);
      && o <= least && Admissible(addr, least, alignment) && (least == o || least < HEADER + MIN_ENTRY_SIZE + alignment)
      && forall p: nat {:trigger Admissible(addr, p, alignment)} :: o <= p < least ==> !Admissible(addr, p, alignment)
    decreases HEADER + MIN_ENTRY_SIZE - o
  {
    hide Aligned;
    if !Usable(o) {
      NextAligned(addr, o, alignment);
      LeastFromFirst(addr, o + alignment, alignment);
    }
  }

  lemma LeastOffsetFirst(e: Entry, alignment: nat)
    requires alignment > 0
    ensures var least := LeastOffset(e, alignment);
      && FirstOffset(e, alignment) <= least && Admissible(e.addr, least, alignment)
      && (least == FirstOffset(e, alignment) || least < HEADER + MIN_ENTRY_SIZE + alignment)
      && forall p: nat {:trigger Admissible(e.addr, p, alignment)} :: p < least ==> !Admissible(e.addr, p, alignment)
  {
    hide Aligned;
    FirstAligned(e, alignment);
    LeastFromFirst(e.addr, FirstOffset(e, alignment), alignment);
  }

  // ----- When the loop is right

  lemma RestStep(x: nat, d: nat)
    requires d > 0
    ensures if x < d then Mod(x, d) == x else Mod(x, d) == Mod(x - d, d)
  {
    hide Mul, Div, Mod;
    DivSmall(x, d);
    if x >= d {
      MulZero(d);
      ModShift(x - d, d, 1);
    }
  }

  /** The sum wraps at the offset the loop ends with, to something no larger than the entry, and no aligned offset
      before it has a sum between the size of the entry and 2^64. Should the offset itself wrap, it runs down from the
      first one in steps of 2^64 - alignment. */
  ghost predicate FalseRoom(e: Entry, size: nat, alignment: nat)
    requires 0 < alignment < WORD
  {
    var first, least := FirstOffset(e, alignment), LeastOffset(e, alignment);
    if least < WORD then
      && WORD <= least + size <= WORD + e.size
      && forall o: nat {:trigger Aligned(e.addr, o, alignment)} ::
           o < least && Aligned(e.addr, o, alignment) ==> !(e.size < o + size < WORD)
    else
      && first + size <= e.size
      && (Mod(first, WORD - alignment) == 0 || Mod(first, WORD - alignment) + size >= WORD - alignment)
  }

  ghost predicate AllPass(e: Entry, lo: nat, hi: nat, size: nat, alignment: nat)
    requires alignment > 0 && hi < WORD && size < WORD
  {
    forall o: nat {:trigger Aligned(e.addr, o, alignment)} ::
      lo <= o <= hi && Aligned(e.addr, o, alignment) ==> !TooSmall(e.size, o, size)
  }

  lemma AllPassStep(e: Entry, o: nat, hi: nat, size: nat, alignment: nat)
    requires alignment > 0 && o <= hi < WORD && size < WORD && Aligned(e.addr, o, alignment)
    ensures AllPass(e, o, hi, size, alignment)
            <==> !TooSmall(e.size, o, size) && AllPass(e, o + alignment, hi, size, alignment)
  {
    hide Aligned, TooSmall, Payload;
    NextAligned(e.addr, o, alignment);
    if !TooSmall(e.size, o, size) && AllPass(e, o + alignment, hi, size, alignment) {
      forall p: nat {:trigger Aligned(e.addr, p, alignment)}
        | o <= p <= hi && Aligned(e.addr, p, alignment) ensures !TooSmall(e.size, p, size)
      {
        if p > o { assert p >= o + alignment; }
      }
    }
  }

  lemma NothingLeft(e: Entry, lo: nat, hi: nat, size: nat, alignment: nat)
    requires alignment > 0 && hi < lo && hi < WORD && size < WORD
    ensures AllPass(e, lo, hi, size, alignment)
  {
  }

  /** As long as the offset does not wrap, the loop tests exactly the aligned offsets up to the least admissible one. */
  lemma {:induction false} CheckFitFrom(e: Entry, o: nat, size: nat, alignment: nat)
    requires 0 < alignment < WORD && size < WORD
    requires Aligned(e.addr, o, alignment) && o <= LeastFrom(o, alignment) < WORD
    ensures CheckFit(e.size, o, size, alignment)
            == if AllPass(e, o, LeastFrom(o, alignment), size, alignment) then Some(LeastFrom(o, alignment)) else None
    decreases HEADER + MIN_ENTRY_SIZE - o
  {
    hide Aligned, TooSmall, AllPass;
    LeastFromFirst(e.addr, o, alignment);
    AllPassStep(e, o, LeastFrom(o, alignment), size, alignment);
    if Usable(o) {
      NothingLeft(e, o + alignment, o, size, alignment);
    } else {
      NextAligned(e.addr, o, alignment);
      LeastFromFirst(e.addr, o + alignment, alignment);
      CheckFitFrom(e, o + alignment, size, alignment);
    }
  }

  /** Where the offset wraps it runs down, and may end misaligned. */
  lemma {:induction false} CheckFitDown(entrySize: nat, o: nat, size: nat, alignment: nat)
    requires WORD - HEADER - MIN_ENTRY_SIZE < alignment < WORD && o < HEADER + MIN_ENTRY_SIZE && 0 < size < WORD
    requires entrySize < 100
    ensures var d := WORD - alignment;
      CheckFit(entrySize, o, size, alignment).Some? <==>
        o + size <= entrySize && (Mod(o, d) == 0 || Mod(o, d) + size >= d)
    decreases o
  {
    hide Mod;
    var d := WORD - alignment;
    RestStep(o, d);
    if o >= d {
      CheckFitDown(entrySize, o - d, size, alignment);
    }
  }

  /** The loop answers for an entry as it would on unbounded numbers exactly if there is no false room in it. */
  lemma CheckFitExact(e: Entry, size: nat, alignment: nat)
    requires e.free && Payload(e) + e.size <= WORD && 0 < size < WORD && 0 < alignment < WORD
    ensures Right(e, size, alignment, FitAnswer(e, size, alignment)) <==> !FalseRoom(e, size, alignment)
    ensures FalseRoom(e, size, alignment) ==> FitAnswer(e, size, alignment).Some? && Right(e, size, alignment, None)
  {
    hide Aligned, Mod, CheckFit;
    var first, least := FirstOffset(e, alignment), LeastOffset(e, alignment);
    FirstAligned(e, alignment);
    LeastOffsetFirst(e, alignment);
    if least < WORD {
      CheckFitFrom(e, first, size, alignment);
    } else {
      CheckFitDown(e.size, first, size, alignment);
    }
  }

  // ----- Which requests are safe whatever the entry

  /** How far beyond size + alignment the sums can reach. Up to the size of a header the last offset tried before the
      sum wraps cannot have passed the test, since the entry ends below 2^64 - 40. */
  function Margin(alignment: nat): int {
    if alignment <= HEADER then -1
    else if alignment < 2 * HEADER + MIN_ENTRY_SIZE then alignment - HEADER
    else HEADER + MIN_ENTRY_SIZE - 1
  }

  /** The greatest second offset, if a third one is needed, of an entry whose first offset is not 0. */
  function SecondOffset(alignment: nat): int {
    if 2 * alignment - HEADER < HEADER + MIN_ENTRY_SIZE then 2 * alignment - HEADER else HEADER + MIN_ENTRY_SIZE - 1
  }

  /** For alignments from 41 to 46 a few sizes further below 2^64 mislead, too. */
  predicate InWindow(size: nat, alignment: nat) {
    && HEADER < alignment < HEADER + MIN_ENTRY_SIZE - 1
    && 2 * alignment + size <= WORD <= alignment + SecondOffset(alignment) + size
  }

  /** The requests that cannot be misled, by size and alignment alone. */
  predicate Safe(size: nat, alignment: nat) {
    if alignment + HEADER + MIN_ENTRY_SIZE <= WORD then
      size + alignment + Margin(alignment) < WORD && !InWindow(size, alignment)
    else
      2 * WORD - 2 * alignment < size < WORD - alignment + HEADER
  }

  /** Every free entry in memory is judged rightly. */
  ghost predicate Trusted(size: nat, alignment: nat)
    requires size < WORD && 0 < alignment < WORD
  {
    forall e: Entry {:trigger FitAnswer(e, size, alignment)} ::
      e.free && Payload(e) + e.size <= WORD ==> Right(e, size, alignment, FitAnswer(e, size, alignment))
  }

  /** If the sums begin to wrap on the way, there is a last offset before. */
  lemma {:induction false} LastUnwrapped(addr: nat, o: nat, size: nat, alignment: nat) returns (v: nat)
    requires alignment > 0 && Aligned(addr, o, alignment) && o + size < WORD <= LeastFrom(o, alignment) + size
    ensures o <= v < HEADER + MIN_ENTRY_SIZE && v < LeastFrom(o, alignment) && Aligned(addr, v, alignment)
    ensures v + size < WORD <= v + alignment + size
    decreases HEADER + MIN_ENTRY_SIZE - o
  {
    hide Aligned;
    if o + alignment + size >= WORD {
      LeastFromFirst(addr, o, alignment);
      v := o;
    } else {
      NextAligned(addr, o, alignment);
      v := LastUnwrapped(addr, o + alignment, size, alignment);
    }
  }

  lemma FewMultiples(x: nat, n: nat)
    requires n > 0 && Multiple(x, n) && 0 < x < 3 * n
    ensures x == n || x == 2 * n
  {
    if x < n { ResidueGap(0, x, n); }
    if n < x < 2 * n { ResidueGap(n, x, n); }
    if x > 2 * n {
      MultipleMod(n, 2);
      ResidueGap(2 * n, x, n);
    }
  }

  lemma NoFalseRoom(e: Entry, size: nat, alignment: nat)
    requires Payload(e) + e.size <= WORD && 0 < size && 0 < alignment && alignment + HEADER + MIN_ENTRY_SIZE <= WORD
    requires Safe(size, alignment)
    ensures !FalseRoom(e, size, alignment)
  {
    hide FirstOffset, Mod, Multiple;
    var first := FirstOffset(e, alignment);
    LeastOffsetFirst(e, alignment);
    FirstAligned(e, alignment);
    if FalseRoom(e, size, alignment) {
      var v := LastUnwrapped(e.addr, first, size, alignment);
      assert v + size <= e.size;
      if alignment <= HEADER || Payload(e) == alignment {
        PayloadAligned(e, alignment);
        assert false;
      } else {
        FewMultiples(Payload(e) + v, alignment);
        assert false;
      }
    }
  }

  lemma PayloadAligned(e: Entry, alignment: nat)
    requires alignment > 0 && Payload(e) == alignment
    ensures FirstOffset(e, alignment) == 0
  {
  }

  /** An entry whose first aligned offset is a given one. */
  lemma FirstOffsetIs(e: Entry, k: nat, o: nat, alignment: nat)
    requires 0 < o < alignment && Payload(e) == k * alignment + (alignment - o)
    ensures FirstOffset(e, alignment) == o
  {
    hide Mul, Div, Mod;
    MulIs(alignment, k);
    DivIs(Payload(e), alignment, k, alignment - o);
    ModIs(Payload(e), alignment);
  }

  lemma MulIs(a: nat, b: nat)
    ensures Mul(a, b) == b * a
  {
  }

  lemma ModIs(a: nat, b: nat)
    requires b > 0
    ensures Mod(a, b) == a % b
  {
  }

  /** An entry judged wrongly because every sum wraps. */
  lemma WrongAtOnce(size: nat, alignment: nat) returns (e: Entry)
    requires size < WORD < size + alignment && alignment + HEADER + MIN_ENTRY_SIZE <= WORD
    ensures e.free && Payload(e) + e.size <= WORD && FalseRoom(e, size, alignment)
  {
    hide FirstOffset, Mod, Aligned;
    var s := WORD - size;
    var limit := HEADER + MIN_ENTRY_SIZE;
    if alignment > limit {
      var o := if s < limit then limit else s;
      var k := if alignment - o >= HEADER then 0 else 1;
      e := Entry(k * alignment + (alignment - o) - HEADER, o - s + 1, true, 0);
      FirstOffsetIs(e, k, o, alignment);
    } else {
      e := Entry(39 * alignment + (alignment - s) - HEADER, limit + alignment, true, 0);
      FirstOffsetIs(e, 39, s, alignment);
    }
    LeastOffsetFirst(e, alignment);
    FirstAligned(e, alignment);
  }

  /** An entry judged wrongly because the first offset passes the test and the sum at the second one wraps. */
  lemma WrongAtSecond(size: nat, alignment: nat) returns (e: Entry)
    requires HEADER < alignment && alignment + HEADER + MIN_ENTRY_SIZE <= WORD
    requires 0 < size && size + alignment <= WORD <= size + alignment + Margin(alignment)
    ensures e.free && Payload(e) + e.size <= WORD && FalseRoom(e, size, alignment)
  {
    hide FirstOffset, Mod, Aligned;
    var o := Margin(alignment);
    e := Entry(alignment - o - HEADER, WORD - alignment + o, true, 0);
    FirstOffsetIs(e, 0, o, alignment);
    LeastOffsetFirst(e, alignment);
    FirstAligned(e, alignment);
    NextAligned(e.addr, o, alignment);
    assert LeastFrom(o + alignment, alignment)
           == if Usable(o + alignment) then o + alignment else LeastFrom(o + alignment + alignment, alignment);
  }

  /** An entry judged wrongly because the first two offsets pass the test and the sum at the third one wraps. */
  lemma WrongAtThird(size: nat, alignment: nat) returns (e: Entry)
    requires 0 < size && InWindow(size, alignment)
    ensures e.free && Payload(e) + e.size <= WORD && FalseRoom(e, size, alignment)
  {
    hide FirstOffset, Mod, Aligned;
    var v := SecondOffset(alignment);
    e := Entry(2 * alignment - v - HEADER, WORD - 2 * alignment + v, true, 0);
    FirstOffsetIs(e, 0, v - alignment, alignment);
    LeastOffsetFirst(e, alignment);
    FirstAligned(e, alignment);
    NextAligned(e.addr, v - alignment, alignment);
    NextAligned(e.addr, v, alignment);
    assert LeastFrom(v, alignment) == LeastFrom(v + alignment, alignment) == v + alignment;
  }

  /** Alignments close to 2^64: an entry judged wrongly for every request that is not safe. */
  lemma WrongForHuge(size: nat, alignment: nat) returns (e: Entry)
    requires 0 < size < WORD < alignment + HEADER + MIN_ENTRY_SIZE && alignment < WORD && !Safe(size, alignment)
    ensures e.free && Payload(e) + e.size <= WORD && FalseRoom(e, size, alignment)
  {
    hide FirstOffset, Mod, Aligned;
    var d := WORD - alignment;
    if size <= d {
      e := Entry(alignment - d - HEADER, 2 * d, true, 0);
      FirstOffsetIs(e, 0, d, alignment);
      RestStep(d, d);
      RestStep(0, d);
      assert LeastFrom(d, alignment) == LeastFrom(d + alignment, alignment) == WORD;
    } else if size <= 2 * d {
      e := Entry(alignment + 1 - HEADER, size - d - 1, true, 0);
      FirstOffsetIs(e, 1, alignment - 1, alignment);
      assert LeastOffset(e, alignment) == alignment - 1;
    } else {
      e := Entry(0, size - d - HEADER, true, 0);
      FirstOffsetIs(e, 0, alignment - HEADER, alignment);
      assert LeastOffset(e, alignment) == alignment - HEADER;
    }
    LeastOffsetFirst(e, alignment);
    FirstAligned(e, alignment);
  }

  lemma NoFalseRoomForHuge(e: Entry, size: nat, alignment: nat)
    requires Payload(e) + e.size <= WORD && 0 < size < WORD < alignment + HEADER + MIN_ENTRY_SIZE && alignment < WORD
    requires Safe(size, alignment)
    ensures !FalseRoom(e, size, alignment)
  {
    hide FirstOffset, Mod, Aligned;
    LeastOffsetFirst(e, alignment);
    FirstAligned(e, alignment);
    if Payload(e) < alignment {
      FirstOffsetIs(e, 0, alignment - Payload(e), alignment);
    } else if Payload(e) == alignment {
      PayloadAligned(e, alignment);
    } else {
      FirstOffsetIs(e, 1, 2 * alignment - Payload(e), alignment);
    }
  }

  /** A request is judged rightly in every free entry exactly if it is safe. */
  lemma RequestExact(size: nat, alignment: nat)
    requires 0 < size < WORD && 0 < alignment < WORD
    ensures Trusted(size, alignment) <==> Safe(size, alignment)
  {
    hide FitAnswer, FalseRoom, Right, Margin;
    if Safe(size, alignment) {
      RequestSafe(size, alignment);
    } else {
      var e: Entry;
      if alignment + HEADER + MIN_ENTRY_SIZE > WORD {
        e := WrongForHuge(size, alignment);
      } else if size + alignment > WORD {
        e := WrongAtOnce(size, alignment);
      } else if InWindow(size, alignment) {
        e := WrongAtThird(size, alignment);
      } else {
        MarginSmall(alignment);
        e := WrongAtSecond(size, alignment);
      }
      CheckFitExact(e, size, alignment);
    }
  }

  lemma MarginSmall(alignment: nat)
    ensures alignment <= HEADER ==> Margin(alignment) < 0
  {
  }

  lemma RequestSafe(size: nat, alignment: nat)
    requires 0 < size < WORD && 0 < alignment < WORD && Safe(size, alignment)
    ensures Trusted(size, alignment)
  {
    hide FitAnswer, FalseRoom, Right, Safe;
    forall e: Entry {:trigger FitAnswer(e, size, alignment)} | e.free && Payload(e) + e.size <= WORD
      ensures Right(e, size, alignment, FitAnswer(e, size, alignment))
    {
      CheckFitExact(e, size, alignment);
      if alignment + HEADER + MIN_ENTRY_SIZE <= WORD {
        NoFalseRoom(e, size, alignment);
      } else {
        NoFalseRoomForHuge(e, size, alignment);
      }
    }
  }

  /** heap_alloc asks for alignment 1 and is never misled. */
  lemma HeapAllocTrusted(size: nat)
    requires 0 < size < WORD
    ensures Trusted(size, 1)
  {
    RequestSafe(size, 1);
  }

  /** 2^64 - 24 bytes aligned to 64 pass the test in an entry of 1000 bytes at address 0, at offset 24 and again at 88,
      where the block is then placed. */
  lemma FalseRoomExample(prot: nat)
    ensures var e := Entry(0, 1000, true, prot);
            FitAnswer(e, WORD - 24, 64) == Some(88) && Right(e, WORD - 24, 64, None)
  {
    var e := Entry(0, 1000, true, prot);
    assert FirstOffset(e, 64) == 24;
    assert CheckFit(1000, 88, WORD - 24, 64) == Some(88);
  }

  // ----- Multiples

  lemma ResidueGap(x: nat, y: nat, n: nat)
    requires n > 0 && x % n == 0 && x < y < x + n
    ensures y % n != 0
  {
    var a := x / n;
    assert x == n * a;
    if y % n == 0 {
      MultipleGap(n, a, y / n);
    }
  }

  lemma MultipleGap(n: nat, a: nat, b: nat)
    ensures n * a < n * b ==> n * b >= n * a + n
  {
    assert n * b - n * a == n * (b - a);
    assert b - a >= 1 ==> n * (b - a) >= n;
    assert b - a <= 0 ==> n * (b - a) <= 0;
  }

  lemma RoundUp(x: nat, n: nat)
    requires n > 0
    ensures var mod := x % n; (x + (if mod == 0 then 0 else n - mod)) % n == 0
  {
    var mod := x % n;
    if mod != 0 {
      var q := x / n;
      assert x + (n - mod) == n * (q + 1);
      MultipleMod(n, q + 1);
    }
  }

  lemma MultipleMod(n: nat, q: nat)
    requires n > 0
    ensures (n * q) % n == 0
  {
    var r, d := (n * q) % n, q - (n * q) / n;
    assert n * d == r by { assert n * q == n * ((n * q) / n) + r; }
    assert d >= 1 ==> n * d >= n;
    assert d <= -1 ==> n * d <= 0 - n;
  }

  /** Nothing before the first offset tried is aligned. */
  lemma FirstAligned(e: Entry, alignment: nat)
    requires alignment > 0
    ensures Aligned(e.addr, FirstOffset(e, alignment), alignment)
    ensures forall p: nat {:trigger Aligned(e.addr, p, alignment)} ::
              p < FirstOffset(e, alignment) ==> !Aligned(e.addr, p, alignment)
  {
    RoundUp(Payload(e), alignment);
    var first := FirstOffset(e, alignment);
    forall p: nat {:trigger Aligned(e.addr, p, alignment)} | p < first ensures !Aligned(e.addr, p, alignment) {
      if Aligned(e.addr, p, alignment) { ResidueGap(Payload(e) + p, Payload(e) + first, alignment); }
    }
  }

  lemma NextAligned(addr: nat, o: nat, alignment: nat)
    requires alignment > 0 && Aligned(addr, o, alignment)
    ensures Aligned(addr, o + alignment, alignment)
    ensures forall p: nat {:trigger Aligned(addr, p, alignment)} ::
              o < p < o + alignment ==> !Aligned(addr, p, alignment)
  {
    var x := addr + HEADER + o;
    var q := x / alignment;
    assert x + alignment == alignment * (q + 1);
    MultipleMod(alignment, q + 1);
    forall p: nat {:trigger Aligned(addr, p, alignment)} | o < p < o + alignment
      ensures !Aligned(addr, p, alignment)
    {
      ResidueGap(x, addr + HEADER + p, alignment);
    }
  }
}
