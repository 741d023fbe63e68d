/** The kernel heap: a first-fit allocator over an address-ordered list of entries (kernel/src/memory/heap.c). */
module Heap {
  import opened Machine
  import opened Options
  import opened HeapFit

  /** update_prot: the complement of the 64-bit sum. */
  function Guard(addr: nat, size: nat): nat {
    WORD - 1 - (addr + size) % WORD
  }

  /** get_prot: zero for an intact header. */
  function GetProt(e: Entry): nat {
    (e.addr + e.size + e.prot + 1) % WORD
  }

  function Sealed(addr: nat, size: nat, free: bool): (e: Entry)
    ensures GetProt(e) == 0
  {
    var sum := (addr + size) % WORD;
    assert (addr + size + Guard(addr, size) + 1) % WORD == 0;
    Entry(addr, size, free, Guard(addr, size))
  }

  /** A header in which either the size or the guard word has been overwritten no longer passes for intact. */
  lemma GuardDetects(e: Entry, size: nat, prot: nat)
    requires e.size < WORD && e.prot < WORD && size < WORD && prot < WORD && GetProt(e) == 0
    requires size == e.size || prot == e.prot
    ensures GetProt(e.(size := size, prot := prot)) == 0 <==> size == e.size && prot == e.prot
  {
    var sum, q := e.addr + e.size + e.prot + 1, e.addr + size + prot + 1;
    var a, b := sum / WORD, q / WORD;
    if q % WORD == 0 { assert q - sum == WORD * (b - a); }
  }

  function EntryEnd(e: Entry): nat { e.addr + HEADER + e.size }

  // ----- The invariant

  /** Each entry ends where the next begins, and the last one ends where the heap does. */
  predicate Tiles(es: seq<Entry>, base: nat, end: nat) {
    && |es| > 0 && es[0].addr == base && EntryEnd(es[|es| - 1]) == end
    && forall i :: 0 <= i < |es| - 1 ==> EntryEnd(es[i]) == es[i + 1].addr
  }

  predicate Intact(es: seq<Entry>) {
    forall i :: 0 <= i < |es| ==> es[i].size > 0 && es[i] == Sealed(es[i].addr, es[i].size, es[i].free)
  }

  predicate NoFreeNeighbours(es: seq<Entry>) {
    forall i :: 0 <= i < |es| - 1 ==> !(es[i].free && es[i + 1].free)
  }

  predicate ValidHeap(es: seq<Entry>, base: nat, end: nat) {
    Tiles(es, base, end) && Intact(es) && NoFreeNeighbours(es) && end <= WORD
  }

  lemma {:induction false} Ordered(es: seq<Entry>, base: nat, end: nat, i: nat, j: nat)
    requires Tiles(es, base, end) && i < j < |es|
    ensures EntryEnd(es[i]) <= es[j].addr
  {
    if i + 1 < j { Ordered(es, base, end, i, j - 1); assert EntryEnd(es[j - 1]) == es[j].addr; }
  }

  /** The blocks in use: address handed out and size. */
  function Live(es: seq<Entry>): set<(nat, nat)> {
    set i | 0 <= i < |es| && !es[i].free :: (Payload(es[i]), es[i].size)
  }

  // ----- Fitting a request into a free entry

  /** Entry i is the first with room, and `offset` the least offset at which the request fits there. */
  ghost predicate FirstFit(es: seq<Entry>, size: nat, alignment: nat, i: nat, offset: nat)
    requires alignment > 0
  {
    && i < |es| && Fits(es[i], offset, size, alignment)
    && (forall o {:trigger Admissible(es[i].addr, o, alignment)} :: 0 <= o < offset ==>
      !Admissible(es[i].addr, o, alignment))
    && (forall j, o {:trigger Fits(es[j], o, size, alignment)} :: 0 <= j < i && 0 <= o ==>
      !Fits(es[j], o, size, alignment))
  }

  /** The request fits in none of the first n entries. */
  ghost predicate NoRoom(es: seq<Entry>, n: nat, size: nat, alignment: nat)
    requires n <= |es| && alignment > 0
  {
    forall j, o {:trigger Fits(es[j], o, size, alignment)} :: 0 <= j < n && 0 <= o ==> !Fits(es[j], o, size, alignment)
  }

  /** None of the first n entries seems to have room without having it. */
  ghost predicate NoFalse(es: seq<Entry>, n: nat, size: nat, alignment: nat)
    requires n <= |es| && 0 < alignment < WORD
  {
    forall j :: 0 <= j < n && es[j].free ==> !FalseRoom(es[j], size, alignment)
  }

  /** The search meets false room before it meets room. */
  ghost predicate FirstFalse(es: seq<Entry>, size: nat, alignment: nat)
    requires 0 < alignment < WORD
  {
    exists i :: 0 <= i < |es| && es[i].free && FalseRoom(es[i], size, alignment) && NoRoom(es, i, size, alignment)
  }

  /** What the loop's answer for entry i decides when no earlier entry had room or seemed to. */
  lemma FitDecides(es: seq<Entry>, i: nat, size: nat, alignment: nat, offset: nat)
    requires i < |es| && es[i].free && Payload(es[i]) + es[i].size <= WORD && 0 < size < WORD && 0 < alignment < WORD
    requires FitAnswer(es[i], size, alignment) == Some(offset)
    requires NoRoom(es, i, size, alignment) && NoFalse(es, i, size, alignment)
    ensures Fits(es[i], offset, size, alignment) ==>
              FirstFit(es, size, alignment, i, offset) && !FirstFalse(es, size, alignment)
    ensures Fits(es[i], offset, size, alignment) ==> Multiple(Payload(es[i]) + offset, alignment) && Usable(offset)
    ensures !Fits(es[i], offset, size, alignment) ==> FirstFalse(es, size, alignment)
  {
    hide Admissible, FalseRoom, FitAnswer;
    CheckFitExact(es[i], size, alignment);
    if Fits(es[i], offset, size, alignment) { AdmissibleMultiple(es[i], offset, alignment); }
  }

  lemma AdmissibleMultiple(e: Entry, offset: nat, alignment: nat)
    requires alignment > 0 && Admissible(e.addr, offset, alignment)
    ensures Multiple(Payload(e) + offset, alignment) && Usable(offset)
  {
  }

  lemma NothingYet(es: seq<Entry>, size: nat, alignment: nat)
    requires 0 < alignment < WORD
    ensures NoRoom(es, 0, size, alignment) && NoFalse(es, 0, size, alignment)
  {
  }

  /** An entry that is passed over. */
  lemma PassedOver(es: seq<Entry>, i: nat, size: nat, alignment: nat)
    requires i < |es| && Payload(es[i]) + es[i].size <= WORD && 0 < size < WORD && 0 < alignment < WORD
    requires es[i].free ==> FitAnswer(es[i], size, alignment) == None
    requires NoRoom(es, i, size, alignment) && NoFalse(es, i, size, alignment)
    ensures NoRoom(es, i + 1, size, alignment) && NoFalse(es, i + 1, size, alignment)
  {
    hide FalseRoom, FitAnswer, Admissible;
    if es[i].free { CheckFitExact(es[i], size, alignment); }
  }

  lemma NothingFalse(es: seq<Entry>, size: nat, alignment: nat)
    requires 0 < alignment < WORD && NoFalse(es, |es|, size, alignment)
    ensures !FirstFalse(es, size, alignment)
  {
    hide FalseRoom;
  }

  /** A request that is judged rightly in every entry never misleads the search. */
  lemma TrustedNeverFalse(es: seq<Entry>, base: nat, end: nat, size: nat, alignment: nat)
    requires ValidHeap(es, base, end) && 0 < size < WORD && 0 < alignment < WORD && Trusted(size, alignment)
    ensures !FirstFalse(es, size, alignment)
  {
    hide FalseRoom, Right, FitAnswer;
    forall j | 0 <= j < |es| && es[j].free ensures !FalseRoom(es[j], size, alignment) {
      EntryInHeap(es, base, end, j);
      CheckFitExact(es[j], size, alignment);
    }
  }

  /** The entries that take the place of e when a block of `size` bytes starts `offset` into it. */
  function Carve(e: Entry, offset: nat, size: nat): seq<Entry>
    requires (offset == 0 || offset >= HEADER) && offset + size <= e.size
  {
    var front := if offset == 0 then [] else [Sealed(e.addr, offset - HEADER, true)];
    var addr, room := e.addr + offset, e.size - offset;
    if room - size > HEADER + MIN_ENTRY_SIZE then
      front + [Sealed(addr, size, false), Sealed(addr + HEADER + size, room - size - HEADER, true)]
    else
      front + [Sealed(addr, room, false)]
  }

  /** n entries from i on are replaced by others. */
  function Spliced(es: seq<Entry>, i: nat, n: nat, pieces: seq<Entry>): seq<Entry>
    requires i + n <= |es|
  {
    es[..i] + pieces + es[i + n..]
  }

  /** Entry j is given back and joined with its free neighbours. */
  function Coalesced(es: seq<Entry>, j: nat): seq<Entry>
    requires j < |es|
  {
    var next := if j + 1 < |es| && es[j + 1].free then 1 else 0;
    var prev := if j > 0 && es[j - 1].free then 1 else 0;
    var size := (if prev == 1 then es[j - 1].size + HEADER else 0) + es[j].size
                + (if next == 1 then HEADER + es[j + 1].size else 0);
    Spliced(es, j - prev, 1 + prev + next, [Sealed(es[j - prev].addr, size, true)])
  }

  // ----- What carving and coalescing keep

  predicate Adjacent(es: seq<Entry>) {
    forall k :: 0 <= k < |es| - 1 ==> EntryEnd(es[k]) == es[k + 1].addr
  }

  lemma SplicedAt(es: seq<Entry>, i: nat, n: nat, pieces: seq<Entry>, k: nat)
    requires i + n <= |es| && k < |Spliced(es, i, n, pieces)|
    ensures Spliced(es, i, n, pieces)[k]
            == if k < i then es[k] else if k < i + |pieces| then pieces[k - i] else es[k - |pieces| + n]
  {
  }

  lemma SpliceTiles(es: seq<Entry>, base: nat, end: nat, i: nat, n: nat, pieces: seq<Entry>)
    requires Tiles(es, base, end) && n > 0 && i + n <= |es| && |pieces| > 0 && Adjacent(pieces)
    requires pieces[0].addr == es[i].addr && EntryEnd(pieces[|pieces| - 1]) == EntryEnd(es[i + n - 1])
    ensures Tiles(Spliced(es, i, n, pieces), base, end)
  {
    var t := Spliced(es, i, n, pieces);
    forall k | 0 <= k < |t| - 1 ensures EntryEnd(t[k]) == t[k + 1].addr {
      SplicedAt(es, i, n, pieces, k);
      SplicedAt(es, i, n, pieces, k + 1);
    }
    SplicedAt(es, i, n, pieces, 0);
    SplicedAt(es, i, n, pieces, |t| - 1);
  }

  lemma SpliceFree(es: seq<Entry>, i: nat, n: nat, pieces: seq<Entry>)
    requires NoFreeNeighbours(es) && n > 0 && i + n <= |es| && |pieces| > 0 && NoFreeNeighbours(pieces)
    requires i > 0 && es[i - 1].free ==> !pieces[0].free
    requires i + n < |es| && es[i + n].free ==> !pieces[|pieces| - 1].free
    ensures NoFreeNeighbours(Spliced(es, i, n, pieces))
  {
    var t := Spliced(es, i, n, pieces);
    forall k | 0 <= k < |t| - 1 ensures !(t[k].free && t[k + 1].free) {
      SplicedAt(es, i, n, pieces, k);
      SplicedAt(es, i, n, pieces, k + 1);
    }
  }

  lemma SpliceIntact(es: seq<Entry>, i: nat, n: nat, pieces: seq<Entry>)
    requires Intact(es) && i + n <= |es| && Intact(pieces)
    ensures Intact(Spliced(es, i, n, pieces))
  {
    var t := Spliced(es, i, n, pieces);
    forall k | 0 <= k < |t| ensures t[k].size > 0 && t[k] == Sealed(t[k].addr, t[k].size, t[k].free) {
      SplicedAt(es, i, n, pieces, k);
    }
  }

  /** Nothing but the n replaced entries enters or leaves the blocks in use. */
  lemma SpliceLive(es: seq<Entry>, base: nat, end: nat, i: nat, n: nat, pieces: seq<Entry>)
    requires Tiles(es, base, end) && i + n <= |es|
    ensures Live(Spliced(es, i, n, pieces)) == Live(es) - Live(es[i..i + n]) + Live(pieces)
  {
    hide Tiles;
    var t := Spliced(es, i, n, pieces);
    assert forall k :: i <= k < i + n ==> es[k] == es[i..i + n][k - i];
    forall b ensures b in Live(t) <==> (b in Live(es) && b !in Live(es[i..i + n])) || b in Live(pieces) {
      if b in Live(t) {
        var k :| 0 <= k < |t| && !t[k].free && b == (Payload(t[k]), t[k].size);
        SplicedAt(es, i, n, pieces, k);
        if k < i || k >= i + |pieces| { OtherLive(es, base, end, i, n, if k < i then k else k - |pieces| + n); }
      }
      if b in Live(pieces) {
        var k :| 0 <= k < |pieces| && !pieces[k].free && b == (Payload(pieces[k]), pieces[k].size);
        SplicedAt(es, i, n, pieces, i + k);
      }
      if b in Live(es) && b !in Live(es[i..i + n]) {
        var k :| 0 <= k < |es| && !es[k].free && b == (Payload(es[k]), es[k].size);
        SplicedAt(es, i, n, pieces, if k < i then k else k + |pieces| - n);
      }
    }
  }

  lemma OtherLive(es: seq<Entry>, base: nat, end: nat, i: nat, n: nat, k: nat)
    requires Tiles(es, base, end) && i + n <= |es| && k < |es| && (k < i || k >= i + n)
    ensures (Payload(es[k]), es[k].size) !in Live(es[i..i + n])
  {
    forall m | i <= m < i + n ensures Payload(es[m]) != Payload(es[k]) {
      if k < i { Ordered(es, base, end, k, m); } else { Ordered(es, base, end, m, k); }
    }
    var cut := es[i..i + n];
    assert forall m :: 0 <= m < n ==> cut[m] == es[i + m];
  }

  /** The size the carved block gets. */
  function BlockSize(e: Entry, offset: nat, size: nat): nat
    requires offset + size <= e.size
  {
    if e.size - offset - size > HEADER + MIN_ENTRY_SIZE then size else e.size - offset
  }

  lemma CarvePieces(e: Entry, offset: nat, size: nat)
    requires e.free && size > 0 && offset + size <= e.size && (offset == 0 || offset >= HEADER + MIN_ENTRY_SIZE)
    ensures var pieces := Carve(e, offset, size);
      && |pieces| > 0 && Adjacent(pieces) && NoFreeNeighbours(pieces) && Intact(pieces)
      && pieces[0].addr == e.addr && EntryEnd(pieces[|pieces| - 1]) == EntryEnd(e)
  {
    hide Payload, Guard, Multiple;
  }

  lemma CarveLive(e: Entry, offset: nat, size: nat)
    requires e.free && size > 0 && offset + size <= e.size && (offset == 0 || offset >= HEADER + MIN_ENTRY_SIZE)
    ensures Live(Carve(e, offset, size)) == {(e.addr + offset + HEADER, BlockSize(e, offset, size))}
  {
    var pieces := Carve(e, offset, size);
    var k := if offset == 0 then 0 else 1;
    assert pieces[k] == Sealed(e.addr + offset, BlockSize(e, offset, size), false);
    assert forall m :: 0 <= m < |pieces| && m != k ==> pieces[m].free;
  }

  lemma CarveValid(es: seq<Entry>, base: nat, end: nat, i: nat, offset: nat, size: nat)
    requires ValidHeap(es, base, end) && i < |es| && es[i].free && size > 0
    requires offset == 0 || offset >= HEADER + MIN_ENTRY_SIZE
    requires offset + size <= es[i].size
    ensures ValidHeap(Spliced(es, i, 1, Carve(es[i], offset, size)), base, end)
    ensures Live(Spliced(es, i, 1, Carve(es[i], offset, size)))
            == Live(es) + {(es[i].addr + offset + HEADER, BlockSize(es[i], offset, size))}
  {
    hide Carve, BlockSize, Spliced, Live, Adjacent;
    CarvePieces(es[i], offset, size);
    CarveLive(es[i], offset, size);
    var pieces := Carve(es[i], offset, size);
    SpliceTiles(es, base, end, i, 1, pieces);
    SpliceFree(es, i, 1, pieces);
    SpliceIntact(es, i, 1, pieces);
    SpliceLive(es, base, end, i, 1, pieces);
    FreeEntryNotLive(es, i);
  }

  lemma FreeEntryNotLive(es: seq<Entry>, i: nat)
    requires i < |es| && es[i].free
    ensures Live(es[i..i + 1]) == {}
  {
  }

  lemma CoalesceValid(es: seq<Entry>, base: nat, end: nat, j: nat)
    requires ValidHeap(es, base, end) && j < |es| && !es[j].free
    ensures ValidHeap(Coalesced(es, j), base, end)
    ensures Live(Coalesced(es, j)) == Live(es) - {(Payload(es[j]), es[j].size)}
  {
    hide Spliced, Live;
    var next := if j + 1 < |es| && es[j + 1].free then 1 else 0;
    var prev := if j > 0 && es[j - 1].free then 1 else 0;
    var i, n := j - prev, 1 + prev + next;
    CoalescePiece(es, base, end, j, i, n);
    var joined :| Coalesced(es, j) == Spliced(es, i, n, [joined]) && joined.free && joined.addr == es[i].addr
                  && EntryEnd(joined) == EntryEnd(es[i + n - 1]) && Intact([joined]);
    SpliceTiles(es, base, end, i, n, [joined]);
    SpliceFree(es, i, n, [joined]);
    SpliceIntact(es, i, n, [joined]);
    SpliceLive(es, base, end, i, n, [joined]);
    CutLive(es, j, i, n);
    FreeEntryNotLive([joined], 0);
    assert [joined][0..1] == [joined];
  }

  lemma CoalescePiece(es: seq<Entry>, base: nat, end: nat, j: nat, i: nat, n: nat)
    requires ValidHeap(es, base, end) && j < |es| && !es[j].free
    requires i == j - (if j > 0 && es[j - 1].free then 1 else 0)
    requires n == 1 + j - i + (if j + 1 < |es| && es[j + 1].free then 1 else 0)
    ensures exists joined :: Coalesced(es, j) == Spliced(es, i, n, [joined]) && joined.free && joined.addr == es[i].addr
                  && EntryEnd(joined) == EntryEnd(es[i + n - 1]) && Intact([joined])
  {
    hide Spliced, NoFreeNeighbours;
    var size := (if i < j then es[j - 1].size + HEADER else 0) + es[j].size
                + (if j + 1 < i + n then HEADER + es[j + 1].size else 0);
    var joined := Sealed(es[i].addr, size, true);
    assert Coalesced(es, j) == Spliced(es, i, n, [joined]);
  }

  lemma CutLive(es: seq<Entry>, j: nat, i: nat, n: nat)
    requires i <= j < i + n <= |es| && !es[j].free && forall k :: i <= k < i + n && k != j ==> es[k].free
    ensures Live(es[i..i + n]) == {(Payload(es[j]), es[j].size)}
  {
    var cut := es[i..i + n];
    assert cut[j - i] == es[j];
    assert forall m :: 0 <= m < n ==> cut[m] == es[i + m];
  }

  // ----- Undo and exhaustion

  /** One call of heap_alloc_align that found room: where it looked, and what the list became. */
  ghost predicate Allocated(es: seq<Entry>, size: nat, alignment: nat, address: nat, t: seq<Entry>)
    requires alignment > 0
  {
    exists i: nat, offset: nat :: FirstFit(es, size, alignment, i, offset) && address == Payload(es[i]) + offset
                   && t == Spliced(es, i, 1, Carve(es[i], offset, size))
  }

  lemma CarvedIndex(es: seq<Entry>, i: nat, offset: nat, size: nat)
    requires i < |es| && es[i].free && size > 0 && offset + size <= es[i].size
    requires offset == 0 || offset >= HEADER + MIN_ENTRY_SIZE
    ensures var j := if offset == 0 then i else i + 1;
            var t := Spliced(es, i, 1, Carve(es[i], offset, size));
            j < |t| && t[j] == Sealed(es[i].addr + offset, BlockSize(es[i], offset, size), false)
  {
    SplicedAt(es, i, 1, Carve(es[i], offset, size), if offset == 0 then i else i + 1);
  }

  lemma CarveThenCoalesce(es: seq<Entry>, base: nat, end: nat, i: nat, offset: nat, size: nat)
    requires ValidHeap(es, base, end) && i < |es| && es[i].free && size > 0 && offset + size <= es[i].size
    requires offset == 0 || offset >= HEADER + MIN_ENTRY_SIZE
    ensures var j := if offset == 0 then i else i + 1;
            var t := Spliced(es, i, 1, Carve(es[i], offset, size));
            j < |t| && Coalesced(t, j) == es
  {
    hide Spliced, Coalesced, Carve, BlockSize;
    var pieces := Carve(es[i], offset, size);
    var n := |pieces|;
    var t := Spliced(es, i, 1, pieces);
    var j := if offset == 0 then i else i + 1;
    CarveShape(es[i], offset, size);
    SpliceBack(es, i, pieces);
    if i > 0 { SplicedAt(es, i, 1, pieces, i - 1); }
    SplicedAt(es, i, 1, pieces, i);
    SplicedAt(es, i, 1, pieces, j);
    if j + 1 < |t| { SplicedAt(es, i, 1, pieces, j + 1); }
    CoalescedPieces(t, j, i, n, es[i]);
  }

  lemma CarveShape(e: Entry, offset: nat, size: nat)
    requires e.free && size > 0 && offset + size <= e.size && (offset == 0 || offset >= HEADER + MIN_ENTRY_SIZE)
    ensures var pieces := Carve(e, offset, size); var k := if offset == 0 then 0 else 1;
      && k < |pieces| <= k + 2
      && (k == 1 ==> pieces[0].free && pieces[0].size == offset - HEADER)
      && pieces[0].addr == e.addr && !pieces[k].free
      && (|pieces| == k + 1 ==> pieces[k].size == e.size - offset)
      && (|pieces| == k + 2 ==> pieces[k + 1].free && pieces[k].size + HEADER + pieces[k + 1].size == e.size - offset)
  {
  }

  lemma SpliceBack(es: seq<Entry>, i: nat, pieces: seq<Entry>)
    requires i < |es|
    ensures var t := Spliced(es, i, 1, pieces);
            |t| == |es| - 1 + |pieces| && Spliced(t, i, |pieces|, [es[i]]) == es
  {
    var t := Spliced(es, i, 1, pieces);
    assert t[..i] == es[..i] && t[i + |pieces|..] == es[i + 1..];
    assert es == es[..i] + [es[i]] + es[i + 1..];
  }

  /** What Coalesced does when the neighbours to join are known. */
  lemma CoalescedPieces(t: seq<Entry>, j: nat, i: nat, n: nat, e: Entry)
    requires i <= j < i + n <= |t| && j - i <= 1 && i + n - j <= 2
    requires if i < j then t[j - 1].free else j > 0 ==> !t[j - 1].free
    requires if j + 1 < i + n then t[j + 1].free else j + 1 < |t| ==> !t[j + 1].free
    requires e == Sealed(t[i].addr, (if i < j then t[i].size + HEADER else 0) + t[j].size
                                    + (if j + 1 < i + n then HEADER + t[j + 1].size else 0), true)
    ensures Coalesced(t, j) == Spliced(t, i, n, [e])
  {
  }

  /** Freeing the block just handed out restores the list exactly: addresses, sizes, free flags and guards. */
  lemma AllocThenFree(es: seq<Entry>, base: nat, end: nat, size: nat, alignment: nat, address: nat, t: seq<Entry>,
                      j: nat)
    requires alignment > 0 && size > 0 && ValidHeap(es, base, end)
    requires Allocated(es, size, alignment, address, t) && j < |t| && Payload(t[j]) == address
    ensures Coalesced(t, j) == es
  {
    var i: nat, offset: nat :| FirstFit(es, size, alignment, i, offset) && address == Payload(es[i]) + offset
                   && t == Spliced(es, i, 1, Carve(es[i], offset, size));
    CarvedIndex(es, i, offset, size);
    CarveThenCoalesce(es, base, end, i, offset, size);
    CarveValid(es, base, end, i, offset, size);
    SamePayload(t, base, end, j, if offset == 0 then i else i + 1);
  }

  lemma SamePayload(es: seq<Entry>, base: nat, end: nat, i: nat, j: nat)
    requires Tiles(es, base, end) && i < |es| && j < |es| && Payload(es[i]) == Payload(es[j])
    ensures i == j
  {
    if i < j { Ordered(es, base, end, i, j); }
    if j < i { Ordered(es, base, end, j, i); }
  }

  lemma LiveEntry(es: seq<Entry>, i: nat)
    requires i < |es|
    ensures !es[i].free ==> (Payload(es[i]), es[i].size) in Live(es)
  {
  }

  /** With no block in use the list is the single entry heap_initialize made, whatever was allocated and freed
      before. */
  lemma EmptyHeapIsInitial(es: seq<Entry>, base: nat, end: nat)
    requires ValidHeap(es, base, end) && Live(es) == {}
    ensures base + HEADER < end && es == [Sealed(base, end - base - HEADER, true)]
  {
    var k := 0;
    assert |es| > 1 ==> !(es[k].free && es[k + 1].free);
    forall i | 0 <= i < |es| ensures es[i].free {
      LiveEntry(es, i);
    }
  }

  /** The blocks in use lie inside the heap and apart from one another. */
  lemma LiveApart(es: seq<Entry>, base: nat, end: nat, a: (nat, nat), b: (nat, nat))
    requires ValidHeap(es, base, end) && a in Live(es) && b in Live(es)
    ensures base + HEADER <= a.0 && a.0 + a.1 <= end
    ensures a == b || a.0 + a.1 + HEADER <= b.0 || b.0 + b.1 + HEADER <= a.0
  {
    hide Tiles, Intact, NoFreeNeighbours;
    var i :| 0 <= i < |es| && !es[i].free && a == (Payload(es[i]), es[i].size);
    var j :| 0 <= j < |es| && !es[j].free && b == (Payload(es[j]), es[j].size);
    EntryInHeap(es, base, end, i);
    if i < j { Ordered(es, base, end, i, j); }
    if j < i { Ordered(es, base, end, j, i); }
  }

  // ----- Runs

  datatype Event = Took(size: nat, alignment: nat, address: nat) | Gave(address: nat)

  ghost predicate Step(es: seq<Entry>, e: Event, t: seq<Entry>) {
    match e
    case Took(size, alignment, address) => size > 0 && alignment > 0 && Allocated(es, size, alignment, address, t)
    case Gave(address) => exists j: nat :: j < |es| && !es[j].free && Payload(es[j]) == address && t == Coalesced(es, j)
  }

  ghost predicate Run(states: seq<seq<Entry>>, events: seq<Event>) {
    && |states| == |events| + 1
    && forall i :: 0 <= i < |events| ==> Step(states[i], events[i], states[i + 1])
  }

  /** The addresses in use that the calls alone account for. */
  function Ledger(events: seq<Event>): set<nat> {
    if events == [] then {}
    else
      match events[|events| - 1]
      case Took(_, _, address) => Ledger(events[..|events| - 1]) + {address}
      case Gave(address) => Ledger(events[..|events| - 1]) - {address}
  }

  function Addresses(live: set<(nat, nat)>): set<nat> {
    set b | b in live :: b.0
  }

  lemma AddressOf(live: set<(nat, nat)>, b: (nat, nat))
    ensures b in live ==> b.0 in Addresses(live)
  {
  }

  lemma StepKeeps(es: seq<Entry>, base: nat, end: nat, e: Event, t: seq<Entry>)
    requires ValidHeap(es, base, end) && Step(es, e, t)
    ensures ValidHeap(t, base, end)
    ensures Addresses(Live(t)) == match e
                                  case Took(_, _, address) => Addresses(Live(es)) + {address}
                                  case Gave(address) => Addresses(Live(es)) - {address}
  {
    match e
    case Took(size, alignment, address) => AllocatedKeeps(es, base, end, size, alignment, address, t);
    case Gave(address) =>
      var j: nat :| j < |es| && !es[j].free && Payload(es[j]) == address && t == Coalesced(es, j);
      FreedKeeps(es, base, end, j);
  }

  lemma AllocatedKeeps(es: seq<Entry>, base: nat, end: nat, size: nat, alignment: nat, address: nat, t: seq<Entry>)
    requires ValidHeap(es, base, end) && size > 0 && alignment > 0 && Allocated(es, size, alignment, address, t)
    ensures ValidHeap(t, base, end) && Addresses(Live(t)) == Addresses(Live(es)) + {address}
  {
    hide Spliced, Carve, Live, ValidHeap;
    var i: nat, offset: nat :| FirstFit(es, size, alignment, i, offset) && address == Payload(es[i]) + offset
                   && t == Spliced(es, i, 1, Carve(es[i], offset, size));
    CarveValid(es, base, end, i, offset, size);
    AddressesPlus(Live(es), (address, BlockSize(es[i], offset, size)));
  }

  lemma AddressesPlus(live: set<(nat, nat)>, b: (nat, nat))
    ensures Addresses(live + {b}) == Addresses(live) + {b.0}
  {
    assert forall a :: a in Addresses(live) ==> a in Addresses(live + {b});
    assert b in live + {b};
  }

  lemma FreedKeeps(es: seq<Entry>, base: nat, end: nat, j: nat)
    requires ValidHeap(es, base, end) && j < |es| && !es[j].free
    ensures ValidHeap(Coalesced(es, j), base, end)
    ensures Addresses(Live(Coalesced(es, j))) == Addresses(Live(es)) - {Payload(es[j])}
  {
    hide Coalesced;
    CoalesceValid(es, base, end, j);
    var c := (Payload(es[j]), es[j].size);
    var live := Live(es);
    assert c in live;
    forall b | b in live && b.0 == c.0 ensures b == c { LiveApart(es, base, end, b, c); }
    AddressesMinus(live, c);
  }

  lemma AddressesMinus(live: set<(nat, nat)>, c: (nat, nat))
    requires forall b :: b in live && b.0 == c.0 ==> b == c
    ensures Addresses(live - {c}) == Addresses(live) - {c.0}
  {
    forall a | a in Addresses(live) && a != c.0 ensures a in Addresses(live - {c}) {
      var b :| b in live && b.0 == a;
      assert b in live - {c};
    }
  }

  /** Any run from an initialised heap keeps the tiling, and once every address taken has been given back, in
      whatever order, the list is the initial one. */
  lemma {:induction false} RunKeeps(states: seq<seq<Entry>>, events: seq<Event>, base: nat, end: nat)
    requires Run(states, events) && base + HEADER < end <= WORD
    requires states[0] == [Sealed(base, end - base - HEADER, true)]
    ensures ValidHeap(states[|events|], base, end) && Addresses(Live(states[|events|])) == Ledger(events)
    ensures Ledger(events) == {} ==> states[|events|] == states[0]
    decreases |events|
  {
    var n := |events| - 1;
    if events != [] {
      assert Step(states[n], events[n], states[n + 1]);
      RunKeeps(states[..n + 1], events[..n], base, end);
      StepKeeps(states[n], base, end, events[n], states[n + 1]);
    }
    if Ledger(events) == {} {
      forall b ensures b !in Live(states[|events|]) {
        AddressOf(Live(states[|events|]), b);
      }
      EmptyHeapIsInitial(states[|events|], base, end);
    }
  }

  // ----- Room

  /** A byte that no header and no block in use has. */
  ghost predicate FreeByte(es: seq<Entry>, x: nat) {
    exists i :: 0 <= i < |es| && es[i].free && Payload(es[i]) <= x < EntryEnd(es[i])
  }

  ghost predicate FreeRun(es: seq<Entry>, a: nat, n: nat) {
    forall x: nat :: a <= x < a + n ==> FreeByte(es, x)
  }

  /** The free bytes are those of before without the block at `address` and a header's room on either side of it. */
  ghost predicate Taken(es: seq<Entry>, t: seq<Entry>, address: nat, n: nat) {
    forall x: nat :: FreeByte(t, x) <==> FreeByte(es, x) && !(address <= x + HEADER && x < address + n + HEADER)
  }

  /** The block has the bytes asked for and, if they are too few to be an entry, those left of its entry behind them. */
  ghost predicate WorthSplitting(es: seq<Entry>, address: nat, size: nat, n: nat) {
    exists i :: 0 <= i < |es| && es[i].free && Payload(es[i]) <= address && address + size <= EntryEnd(es[i])
      && n == if EntryEnd(es[i]) - address > size + HEADER + MIN_ENTRY_SIZE then size else EntryEnd(es[i]) - address
  }

  lemma CarveBytes(e: Entry, offset: nat, size: nat, x: nat)
    requires e.free && size > 0 && offset + size <= e.size && (offset == 0 || offset >= HEADER + MIN_ENTRY_SIZE)
    ensures var address, n := Payload(e) + offset, BlockSize(e, offset, size);
      FreeByte(Carve(e, offset, size), x) <==>
        Payload(e) <= x < EntryEnd(e) && !(address <= x + HEADER && x < address + n + HEADER)
  {
    hide Guard, Multiple;
    var pieces, k := Carve(e, offset, size), if offset == 0 then 0 else 1;
    assert k == 1 ==> pieces[0].free && Payload(pieces[0]) == Payload(e) && EntryEnd(pieces[0]) == e.addr + offset;
    assert !pieces[k].free;
    assert |pieces| > k + 1 ==>
      pieces[k + 1].free && Payload(pieces[k + 1]) == Payload(e) + offset + size + HEADER
      && EntryEnd(pieces[k + 1]) == EntryEnd(e);
  }

  lemma SpliceBytes(es: seq<Entry>, i: nat, pieces: seq<Entry>, x: nat)
    requires i < |es|
    ensures FreeByte(Spliced(es, i, 1, pieces), x) <==>
      FreeByte(pieces, x) || exists j :: 0 <= j < |es| && j != i && es[j].free && Payload(es[j]) <= x < EntryEnd(es[j])
  {
    var t := Spliced(es, i, 1, pieces);
    if FreeByte(t, x) {
      var k :| 0 <= k < |t| && t[k].free && Payload(t[k]) <= x < EntryEnd(t[k]);
      SplicedAt(es, i, 1, pieces, k);
    }
    if FreeByte(pieces, x) {
      var k :| 0 <= k < |pieces| && pieces[k].free && Payload(pieces[k]) <= x < EntryEnd(pieces[k]);
      SplicedAt(es, i, 1, pieces, i + k);
    }
    forall j | 0 <= j < |es| && j != i && es[j].free && Payload(es[j]) <= x < EntryEnd(es[j]) ensures FreeByte(t, x) {
      SplicedAt(es, i, 1, pieces, if j < i then j else j + |pieces| - 1);
    }
  }

  /** Nothing but the block and the headers beside it is lost. */
  lemma CarveTakes(es: seq<Entry>, base: nat, end: nat, i: nat, offset: nat, size: nat)
    requires ValidHeap(es, base, end) && i < |es| && es[i].free && size > 0 && offset + size <= es[i].size
    requires offset == 0 || offset >= HEADER + MIN_ENTRY_SIZE
    ensures var address, n := Payload(es[i]) + offset, BlockSize(es[i], offset, size);
      && size <= n <= size + HEADER + MIN_ENTRY_SIZE && WorthSplitting(es, address, size, n)
      && Taken(es, Spliced(es, i, 1, Carve(es[i], offset, size)), address, n)
  {
    var address, n := Payload(es[i]) + offset, BlockSize(es[i], offset, size);
    var t := Spliced(es, i, 1, Carve(es[i], offset, size));
    BlockBounds(es[i], offset, size);
    Splits(es, i, offset, size);
    hide Spliced, Carve, BlockSize, ValidHeap, FreeByte;
    forall x: nat
      ensures FreeByte(t, x) <==> FreeByte(es, x) && !(address <= x + HEADER && x < address + n + HEADER)
    {
      SpliceBytes(es, i, Carve(es[i], offset, size), x);
      CarveBytes(es[i], offset, size, x);
      OneEntry(es, base, end, i, x, address, n);
    }
  }

  lemma BlockBounds(e: Entry, offset: nat, size: nat)
    requires offset + size <= e.size
    ensures var n := BlockSize(e, offset, size);
      size <= n <= size + HEADER + MIN_ENTRY_SIZE && Payload(e) + offset + n <= EntryEnd(e)
  {
  }

  lemma Splits(es: seq<Entry>, i: nat, offset: nat, size: nat)
    requires i < |es| && es[i].free && offset + size <= es[i].size
    ensures WorthSplitting(es, Payload(es[i]) + offset, size, BlockSize(es[i], offset, size))
  {
  }

  /** A free byte lies in the entry or in another one, which is a header away from any block in the entry. */
  lemma OneEntry(es: seq<Entry>, base: nat, end: nat, i: nat, x: nat, address: nat, n: nat)
    requires ValidHeap(es, base, end) && i < |es| && es[i].free
    requires Payload(es[i]) <= address && address + n <= EntryEnd(es[i])
    ensures FreeByte(es, x) <==>
      || Payload(es[i]) <= x < EntryEnd(es[i])
      || exists j :: 0 <= j < |es| && j != i && es[j].free && Payload(es[j]) <= x < EntryEnd(es[j])
    ensures forall j :: 0 <= j < |es| && j != i && es[j].free && Payload(es[j]) <= x < EntryEnd(es[j]) ==>
      !(address <= x + HEADER && x < address + n + HEADER)
  {
    hide ValidHeap;
    forall j | 0 <= j < |es| && j != i && es[j].free && Payload(es[j]) <= x < EntryEnd(es[j])
      ensures !(address <= x + HEADER && x < address + n + HEADER)
    {
      EntryOrder(es, base, end, i, j);
    }
  }

  lemma EntryOrder(es: seq<Entry>, base: nat, end: nat, i: nat, j: nat)
    requires ValidHeap(es, base, end) && i < |es| && j < |es| && i != j
    ensures if i < j then EntryEnd(es[i]) <= es[j].addr else EntryEnd(es[j]) <= es[i].addr
  {
    if i < j { Ordered(es, base, end, i, j); } else { Ordered(es, base, end, j, i); }
  }

  /** Without alignment there is room for a request exactly if so many free bytes lie in a row. */
  lemma RoomIsBytes(es: seq<Entry>, base: nat, end: nat, n: nat)
    requires ValidHeap(es, base, end) && n > 0
    ensures NoRoom(es, |es|, n, 1) <==> forall a: nat :: !FreeRun(es, a, n)
  {
    hide ValidHeap;
    forall j, o: nat {:trigger Fits(es[j], o, n, 1)} | 0 <= j < |es| && Fits(es[j], o, n, 1)
      ensures FreeRun(es, Payload(es[j]) + o, n)
    {
    }
    forall a: nat | FreeRun(es, a, n) ensures exists j :: 0 <= j < |es| && Fits(es[j], 0, n, 1) {
      RunInEntry(es, base, end, a, n);
    }
  }

  lemma RunInEntry(es: seq<Entry>, base: nat, end: nat, a: nat, n: nat)
    requires ValidHeap(es, base, end) && n > 0 && FreeRun(es, a, n)
    ensures exists j :: 0 <= j < |es| && Fits(es[j], 0, n, 1)
  {
    hide ValidHeap;
    assert FreeByte(es, a);
    var j :| 0 <= j < |es| && es[j].free && Payload(es[j]) <= a < EntryEnd(es[j]);
    if a + n > EntryEnd(es[j]) {
      assert FreeByte(es, EntryEnd(es[j]));
      var k :| 0 <= k < |es| && es[k].free && Payload(es[k]) <= EntryEnd(es[j]) < EntryEnd(es[k]);
      if k != j { EntryOrder(es, base, end, j, k); }
      assert false;
    }
    assert Fits(es[j], 0, n, 1);
  }

  /** A later request is served from what an allocation has left: free bytes in a row that the block and the headers
      beside it do not touch are still enough. */
  lemma StillRoom(es: seq<Entry>, t: seq<Entry>, base: nat, end: nat, address: nat, n: nat, a: nat, m: nat)
    requires ValidHeap(t, base, end) && Taken(es, t, address, n) && FreeRun(es, a, m) && m > 0
    requires a + m + HEADER <= address || address + n + HEADER <= a
    ensures !NoRoom(t, |t|, m, 1)
  {
    hide FreeByte, ValidHeap, NoRoom;
    assert FreeRun(t, a, m);
    RoomIsBytes(t, base, end, m);
  }

  /** An allocation makes no free entry smaller than the least worth having. */
  lemma NoNewSlivers(es: seq<Entry>, size: nat, alignment: nat, address: nat, t: seq<Entry>, k: nat)
    requires alignment > 0 && size > 0 && Allocated(es, size, alignment, address, t)
    requires k < |t| && t[k].free && t[k] !in es
    ensures t[k].size >= MIN_ENTRY_SIZE
  {
    var i: nat, offset: nat :| FirstFit(es, size, alignment, i, offset) && address == Payload(es[i]) + offset
                   && t == Spliced(es, i, 1, Carve(es[i], offset, size));
    SplicedAt(es, i, 1, Carve(es[i], offset, size), k);
  }

  /** heap_alloc leaves room for m more bytes if any free entry has room for both blocks and what splitting costs. */
  lemma RoomForTwo(es: seq<Entry>, base: nat, end: nat, size: nat, address: nat, t: seq<Entry>, j: nat, m: nat)
    requires ValidHeap(es, base, end) && size > 0 && m > 0 && Allocated(es, size, 1, address, t)
    requires j < |es| && es[j].free && size + HEADER + MIN_ENTRY_SIZE + HEADER + m <= es[j].size
    ensures ValidHeap(t, base, end) && !NoRoom(t, |t|, m, 1)
  {
    hide Spliced, Carve, BlockSize, ValidHeap, NoRoom;
    var i: nat, offset: nat :| FirstFit(es, size, 1, i, offset) && address == Payload(es[i]) + offset
                   && t == Spliced(es, i, 1, Carve(es[i], offset, size));
    assert offset == 0 by { assert Admissible(es[i].addr, 0, 1); }
    CarveValid(es, base, end, i, 0, size);
    CarveTakes(es, base, end, i, 0, size);
    var a := EntryEnd(es[j]) - m;
    if i != j { EntryOrder(es, base, end, i, j); }
    assert FreeRun(es, a, m);
    BlockBounds(es[i], 0, size);
    StillRoom(es, t, base, end, address, BlockSize(es[i], 0, size), a, m);
  }

  // ----- The allocator

  /** What an allocation comes to: a block, the out-of-memory panic, or an entry that the 64-bit test wrongly found
      large enough (what the source then writes is not modelled). */
  datatype Outcome = Block(address: nat) | OutOfMemory | Misled

  class Heap {
    var entries: seq<Entry>
    ghost var base: nat
    ghost var end: nat

    ghost predicate Valid()
      reads this
    {
      ValidHeap(entries, base, end)
    }

    /** heap_initialize on the range the virtual memory manager returned. */
    constructor (addr: nat, size: nat)
      requires size > HEADER && addr + size <= WORD
      ensures Valid() && base == addr && end == addr + size
      ensures entries == [Sealed(addr, size - HEADER, true)]
    {
      entries := [Sealed(addr, size - HEADER, true)];
      base, end := addr, addr + size;
    }

    /** heap_alloc_align. It is misled exactly if some entry has false room and the request fits in none before it. */
    method AllocAlign(size: nat, alignment: nat) returns (res: Outcome)
      requires Valid() && 0 < size < WORD && 0 < alignment < WORD
      modifies this
      ensures Valid() && base == old(base) && end == old(end)
      ensures res.Block? ==>
        && Allocated(old(entries), size, alignment, res.address, entries)
        && Multiple(res.address, alignment)
        && exists n :: size <= n <= size + HEADER + MIN_ENTRY_SIZE
                       && Live(entries) == Live(old(entries)) + {(res.address, n)}
                       && (res.address, n) !in Live(old(entries))
                       && Taken(old(entries), entries, res.address, n)
                       && WorthSplitting(old(entries), res.address, size, n)
      ensures !res.Block? ==> entries == old(entries)
      ensures res.OutOfMemory? ==> NoRoom(entries, |entries|, size, alignment)
      ensures res.Misled? <==> FirstFalse(old(entries), size, alignment)
    {
      hide Aligned, Live, Carve, Spliced, NoFreeNeighbours, BlockSize, FalseRoom, FitAnswer, Multiple, NoRoom,
        NoFalse, FirstFalse, FirstFit, Admissible, Taken, WorthSplitting;
      NothingYet(entries, size, alignment);
      var i := 0;
      while i < |entries|
        invariant 0 <= i <= |entries| && entries == old(entries) && base == old(base) && end == old(end)
        invariant NoRoom(entries, i, size, alignment) && NoFalse(entries, i, size, alignment)
      {
        var entry := entries[i];
        EntryInHeap(entries, base, end, i);
        if entry.free {
          assert GetProt(entry) == 0;
          var fit := FitOffset(entry, size, alignment);
          if fit.Some? {
            ghost var at := i;
            FitDecides(entries, i, size, alignment, fit.value);
            if !Fits(entry, fit.value, size, alignment) { return Misled; }
            CarveValid(entries, base, end, i, fit.value, size);
            res := Block(Payload(entry) + fit.value);
            TakeEntry(i, fit.value, size);
            NewBlock(old(entries), base, end, at, fit.value, size);
            CarveTakes(old(entries), base, end, at, fit.value, size);
            return;
          }
        }
        PassedOver(entries, i, size, alignment);
        i := i + 1;
      }
      NothingFalse(entries, size, alignment);
      return OutOfMemory;
    }

    /** heap_alloc */
    method Alloc(size: nat) returns (res: Outcome)
      requires Valid() && 0 < size < WORD
      modifies this
      ensures Valid() && base == old(base) && end == old(end)
      ensures res.Block? ==> Allocated(old(entries), size, 1, res.address, entries)
      ensures res.Block? ==> exists n :: size <= n <= size + HEADER + MIN_ENTRY_SIZE
                                         && Live(entries) == Live(old(entries)) + {(res.address, n)}
                                         && Taken(old(entries), entries, res.address, n)
      ensures res.OutOfMemory? ==> entries == old(entries) && forall a: nat :: !FreeRun(entries, a, size)
      ensures !res.Misled?
    {
      hide Allocated, FirstFalse, ValidHeap, Trusted, NoRoom, Taken, Live, WorthSplitting, FreeRun;
      HeapAllocTrusted(size);
      TrustedNeverFalse(entries, base, end, size, 1);
      RoomIsBytes(entries, base, end, size);
      res := AllocAlign(size, 1);
    }

    /** The check_fit loop on 64-bit words. */
    method FitOffset(entry: Entry, size: nat, alignment: nat) returns (fit: Option<nat>)
      requires size < WORD && 0 < alignment < WORD
      ensures fit == FitAnswer(entry, size, alignment)
    {
      hide TooSmall;
      var mod := Payload(entry) % alignment;
      var offset: nat := alignment - mod;
      if mod == 0 { offset := 0; }
      while !TooSmall(entry.size, offset, size)
        invariant offset < WORD && CheckFit(entry.size, offset, size, alignment) == FitAnswer(entry, size, alignment)
        decreases if Usable(offset) then 0
                  else if alignment + HEADER + MIN_ENTRY_SIZE <= WORD then HEADER + MIN_ENTRY_SIZE - offset else offset
      {
        if offset == 0 || offset >= HEADER + MIN_ENTRY_SIZE { return Some(offset); }
        offset := Sum(offset, alignment);
      }
      return None;
    }

    /** Splitting the chosen entry: a free entry in front if the offset asks for it, a free one behind if it is worth
        it. */
    method TakeEntry(at: nat, offset: nat, size: nat)
      requires at < |entries| && entries[at].free && size > 0 && offset + size <= entries[at].size
      requires offset == 0 || offset >= HEADER + MIN_ENTRY_SIZE
      requires entries[at] == Sealed(entries[at].addr, entries[at].size, true)
      modifies this`entries
      ensures entries == old(Spliced(entries, at, 1, Carve(entries[at], offset, size)))
    {
      var i := at;
      if offset != 0 {
        SplitEntry(i, offset - HEADER);
        i := i + 1;
      }
      entries := entries[i := entries[i].(free := false)];
      if entries[i].size - size > HEADER + MIN_ENTRY_SIZE { SplitEntry(i, size); }
    }

    /** Entry i keeps its first `size` bytes; a free entry is made of the rest and appended after it. */
    method SplitEntry(i: nat, size: nat)
      requires i < |entries| && size + HEADER <= entries[i].size
      modifies this`entries
      ensures entries == old(entries[..i] + [Sealed(entries[i].addr, size, entries[i].free),
                Sealed(entries[i].addr + HEADER + size, entries[i].size - size - HEADER, true)] + entries[i + 1..])
    {
      var entry := entries[i];
      var rest := Entry(entry.addr + HEADER + size, entry.size - size - HEADER, true, 0);
      entries := entries[..i + 1] + [rest] + entries[i + 1..];
      entries := entries[i := entry.(size := size)];
      entries := entries[i + 1 := UpdateProt(entries[i + 1])];
      entries := entries[i := UpdateProt(entries[i])];
    }

    /** Entry i swallows the header and the bytes of the next one. */
    method JoinNext(i: nat)
      requires i + 1 < |entries|
      modifies this`entries
      ensures entries == old(entries[..i]
                + [Sealed(entries[i].addr, entries[i].size + HEADER + entries[i + 1].size, entries[i].free)]
                + entries[i + 2..])
    {
      entries := entries[i := entries[i].(size := entries[i].size + HEADER + entries[i + 1].size)];
      entries := entries[..i + 1] + entries[i + 2..];
      entries := entries[i := UpdateProt(entries[i])];
    }

    /** heap_free on an address handed out; freeing NULL (None) does nothing. */
    method Free(address: Option<nat>)
      requires Valid() && (address.Some? ==> address.value in Addresses(Live(entries)))
      modifies this
      ensures Valid() && base == old(base) && end == old(end)
      ensures address.None? ==> entries == old(entries)
      ensures address.Some? ==> Step(old(entries), Gave(address.value), entries)
      ensures address.Some? ==> Addresses(Live(entries)) == Addresses(Live(old(entries))) - {address.value}
    {
      if address.None? { return; }
      hide Live, ValidHeap, Addresses, Coalesced;
      LiveIndex(entries, address.value);
      var i: nat :| i < |entries| && !entries[i].free && Payload(entries[i]) == address.value;
      FreedKeeps(entries, base, end, i);
      IntactAt(entries, base, end, i);
      assert GetProt(entries[i]) == 0;
      Join(i);
    }

    /** Entry i becomes free and is joined with the free entries beside it. */
    method Join(i: nat)
      requires i < |entries| && entries[i] == Sealed(entries[i].addr, entries[i].size, entries[i].free)
      modifies this`entries
      ensures entries == old(Coalesced(entries, i))
    {
      CoalescedShape(entries, i);
      hide Coalesced, Sealed;
      ghost var es := entries;
      ghost var next := if i + 1 < |es| && es[i + 1].free then 1 else 0;
      ghost var size := es[i].size + (if next == 1 then HEADER + es[i + 1].size else 0);
      entries := entries[i := entries[i].(free := true)];
      StillSealed(es[i]);
      if i + 1 < |entries| && entries[i + 1].free { JoinNext(i); }
      assert entries == es[..i] + [Sealed(es[i].addr, size, true)] + es[i + 1 + next..];
      assert |es[..i]| == i && entries[i] == Sealed(es[i].addr, size, true);
      if i > 0 && entries[i - 1].free {
        assert entries[..i - 1] == es[..i - 1] && entries[i - 1] == es[i - 1] && entries[i + 1..] == es[i + 1 + next..];
        JoinNext(i - 1);
      }
    }
  }

  lemma IntactAt(es: seq<Entry>, base: nat, end: nat, i: nat)
    requires ValidHeap(es, base, end) && i < |es|
    ensures es[i] == Sealed(es[i].addr, es[i].size, es[i].free)
  {
  }

  lemma StillSealed(e: Entry)
    requires e == Sealed(e.addr, e.size, e.free)
    ensures e.(free := true) == Sealed(e.addr, e.size, true)
  {
  }

  lemma CoalescedShape(es: seq<Entry>, j: nat)
    requires j < |es|
    ensures var next := if j + 1 < |es| && es[j + 1].free then 1 else 0;
            var prev := if j > 0 && es[j - 1].free then 1 else 0;
            var size := (if prev == 1 then es[j - 1].size + HEADER else 0) + es[j].size
                        + (if next == 1 then HEADER + es[j + 1].size else 0);
            Coalesced(es, j) == es[..j - prev] + [Sealed(es[j - prev].addr, size, true)] + es[j + 1 + next..]
  {
  }

  function UpdateProt(e: Entry): Entry {
    e.(prot := Guard(e.addr, e.size))
  }

  lemma LiveIndex(es: seq<Entry>, address: nat)
    requires address in Addresses(Live(es))
    ensures exists i: nat :: i < |es| && !es[i].free && Payload(es[i]) == address
  {
  }

  lemma NewBlock(es: seq<Entry>, base: nat, end: nat, i: nat, offset: nat, size: nat)
    requires ValidHeap(es, base, end) && i < |es| && es[i].free && size > 0 && offset + size <= es[i].size
    requires offset == 0 || offset >= HEADER + MIN_ENTRY_SIZE
    ensures BlockSize(es[i], offset, size) >= size
    ensures Payload(es[i]) + offset !in Addresses(Live(es))
  {
    forall k | 0 <= k < |es| && !es[k].free ensures Payload(es[k]) != Payload(es[i]) + offset {
      if k < i { Ordered(es, base, end, k, i); } else { Ordered(es, base, end, i, k); }
    }
  }

  lemma EntryInHeap(es: seq<Entry>, base: nat, end: nat, i: nat)
    requires Tiles(es, base, end) && i < |es|
    ensures base <= es[i].addr && EntryEnd(es[i]) <= end
  {
    if 0 < i { Ordered(es, base, end, 0, i); }
    if i < |es| - 1 { Ordered(es, base, end, i, |es| - 1); }
  }
}
