/** What the buddy allocator's page array and free lists mean (kernel/src/memory/pmm.h:21-49). */
module BuddyState {
  import opened Bits
  import opened Seqs

  const MAX_ORDER: nat := 7

  /** &regions[region].pages[index] */
  datatype Ref = Ref(region: nat, index: nat)

  datatype Page = Page(free: bool, order: nat)

  /** The first `used` pages of a region hold its own page array; the rest are data pages. */
  datatype Region = Region(base: nat, pageCount: nat, used: nat)

  /** A snapshot of a zone. `head` is proof-only: it sends each data page to the first page of its block. */
  datatype State = State(regions: seq<Region>, pages: map<Ref, Page>, lists: seq<seq<Ref>>, head: map<Ref, Ref>)

  predicate InRegion(rs: seq<Region>, p: Ref) {
    p.region < |rs| && p.index < rs[p.region].pageCount
  }

  predicate IsData(rs: seq<Region>, p: Ref) {
    InRegion(rs, p) && rs[p.region].used <= p.index
  }

  /** Distance in pages from the data base of the region: what alignment is measured by. */
  function Offset(rs: seq<Region>, p: Ref): nat
    requires IsData(rs, p)
  {
    p.index - rs[p.region].used
  }

  predicate InBlock(p: Ref, h: Ref, k: nat) {
    p.region == h.region && h.index <= p.index < h.index + Pow2(k)
  }

  /** The block's sibling inside the enclosing block of twice its size. */
  function Buddy(rs: seq<Region>, h: Ref, k: nat): Ref
    requires IsData(rs, h) && Aligned(Offset(rs, h), k)
  {
    AlignedBuddy(Offset(rs, h), k);
    if Aligned(Offset(rs, h), k + 1) then h.(index := h.index + Pow2(k)) else h.(index := h.index - Pow2(k))
  }

  // ----- What the tiling invariant says

  predicate IsHead(s: State, h: Ref) {
    h in s.head && s.head[h] == h
  }

  ghost predicate Shaped(s: State) {
    && |s.lists| == MAX_ORDER + 1
    && (forall p :: p in s.head <==> IsData(s.regions, p))
    && (forall p :: p in s.head ==> p in s.pages)
  }

  /** The page lies in the block of its head. */
  ghost predicate CoveredAt(s: State, p: Ref)
    requires Shaped(s) && p in s.head
  {
    IsHead(s, s.head[p]) && InBlock(p, s.head[p], s.pages[s.head[p]].order)
  }

  ghost predicate Covered(s: State)
    requires Shaped(s)
  {
    forall p {:trigger CoveredAt(s, p)} :: p in s.head ==> CoveredAt(s, p)
  }

  /** Blocks have a legal order, are aligned relative to the data base, and own all their pages. */
  ghost predicate BlockOk(s: State, h: Ref)
    requires Shaped(s) && h in s.head
  {
    && s.pages[h].order <= MAX_ORDER
    && Aligned(Offset(s.regions, h), s.pages[h].order)
    && forall p {:trigger InBlock(p, h, s.pages[h].order)} ::
         InBlock(p, h, s.pages[h].order) ==> p in s.head && s.head[p] == h
  }

  ghost predicate BlocksOk(s: State)
    requires Shaped(s)
  {
    forall h {:trigger BlockOk(s, h)} :: IsHead(s, h) ==> BlockOk(s, h)
  }

  /** Among data pages only the heads of live blocks have a clear `free` bit. */
  ghost predicate FreeBits(s: State)
    requires Shaped(s)
  {
    forall p :: p in s.head && s.head[p] != p ==> s.pages[p].free
  }

  predicate IsFreeHead(s: State, h: Ref, k: nat)
    requires Shaped(s)
  {
    IsHead(s, h) && s.pages[h].free && s.pages[h].order == k
  }

  /** List k holds exactly the heads of free blocks of order k, once each. */
  ghost predicate ListsOk(s: State)
    requires Shaped(s)
  {
    forall k :: 0 <= k <= MAX_ORDER ==>
      NoDup(s.lists[k]) && forall h :: h in s.lists[k] <==> IsFreeHead(s, h, k)
  }

  ghost predicate CoalescedAt(s: State, h: Ref)
    requires Shaped(s) && h in s.head
  {
    BlockOk(s, h) && (s.pages[h].free && s.pages[h].order < MAX_ORDER ==>
      !IsFreeHead(s, Buddy(s.regions, h, s.pages[h].order), s.pages[h].order))
  }

  /** No free block below the top order has a free buddy of its own order. */
  ghost predicate Coalesced(s: State)
    requires Shaped(s)
  {
    forall h {:trigger CoalescedAt(s, h)} :: IsHead(s, h) ==> CoalescedAt(s, h)
  }

  /** The data pages are partitioned into aligned blocks. */
  ghost predicate Structured(s: State) {
    Shaped(s) && Covered(s) && BlocksOk(s) && FreeBits(s)
  }

  ghost predicate Tiled(s: State) {
    Structured(s) && ListsOk(s) && Coalesced(s)
  }

  /** The pages no live block holds. */
  ghost function FreePages(s: State): set<Ref>
  {
    set p | p in s.head && s.head[p] in s.pages && s.pages[s.head[p]].free
  }

  function BlockPages(h: Ref, k: nat): set<Ref> {
    set i | h.index <= i < h.index + Pow2(k) :: Ref(h.region, i)
  }

  /** The live blocks with their orders. */
  ghost function Live(s: State): map<Ref, nat>
    requires Shaped(s)
  {
    map h | h in s.head && s.head[h] == h && !s.pages[h].free :: s.pages[h].order
  }

  // ----- The head of the buddy position

  /** The block at the buddy's position starts there and is no larger: its `free` and `order` bits are current. */
  lemma BuddyIsHead(s: State, h: Ref)
    requires Shaped(s) && Covered(s) && BlocksOk(s) && IsHead(s, h) && BlockOk(s, h)
    ensures var b := Buddy(s.regions, h, s.pages[h].order);
            b in s.head ==> IsHead(s, b) && s.pages[b].order <= s.pages[h].order
  {
    var b := Buddy(s.regions, h, s.pages[h].order);
    if b in s.head {
      var g := s.head[b];
      assert CoveredAt(s, b);
      assert IsHead(s, g) && BlockOk(s, g);
      assert g == h ==> InBlock(b, h, s.pages[h].order);
      BuddyOverlap(s.regions, h, s.pages[h].order, g, s.pages[g].order);
      assert InBlock(h, g, s.pages[g].order) ==> s.head[h] == g;
    }
  }

  /** A block holding the buddy of (h, k) either holds h too or starts at the buddy. */
  lemma BuddyOverlap(rs: seq<Region>, h: Ref, k: nat, g: Ref, j: nat)
    requires IsData(rs, h) && Aligned(Offset(rs, h), k)
    requires IsData(rs, Buddy(rs, h, k)) && IsData(rs, g) && Aligned(Offset(rs, g), j)
    requires InBlock(Buddy(rs, h, k), g, j)
    ensures j > k ==> InBlock(h, g, j)
    ensures j <= k ==> g == Buddy(rs, h, k)
  {
    var b := Buddy(rs, h, k);
    AlignedBuddy(Offset(rs, h), k);
    var lo := if Aligned(Offset(rs, h), k + 1) then h else b;
    if j > k {
      NestedOrDisjoint(Offset(rs, lo), k + 1, Offset(rs, g), j);
    } else {
      if lo == b { AlignedCoarser(Offset(rs, b), k, k + 1); }
      NestedOrDisjoint(Offset(rs, g), j, Offset(rs, b), k);
    }
  }

  // ----- Blocks and buddies

  lemma BuddyOfBuddy(rs: seq<Region>, h: Ref, k: nat)
    requires IsData(rs, h) && Aligned(Offset(rs, h), k)
    ensures var b := Buddy(rs, h, k);
            b != h && (IsData(rs, b) ==> Aligned(Offset(rs, b), k) && Buddy(rs, b, k) == h)
  {
    AlignedBuddy(Offset(rs, h), k);
    var b := Buddy(rs, h, k);
    if IsData(rs, b) && !Aligned(Offset(rs, h), k + 1) {
      AlignedCoarser(Offset(rs, b), k, k + 1);
    }
  }

  lemma HalfBlocks(h: Ref, k: nat)
    ensures forall p {:trigger InBlock(p, h, k + 1)} ::
              InBlock(p, h, k + 1) <==> InBlock(p, h, k) || InBlock(p, h.(index := h.index + Pow2(k)), k)
    ensures forall p {:trigger InBlock(p, h.(index := h.index + Pow2(k)), k)} ::
              InBlock(p, h.(index := h.index + Pow2(k)), k) ==> InBlock(p, h, k + 1) && !InBlock(p, h, k)
  {
    assert Pow2(k + 1) == 2 * Pow2(k);
  }

  lemma InBlockPages(h: Ref, k: nat)
    ensures forall p :: p in BlockPages(h, k) <==> InBlock(p, h, k)
  {
    forall p ensures p in BlockPages(h, k) <==> InBlock(p, h, k) { assert p == Ref(p.region, p.index); }
  }

  lemma InBlockOfHead(s: State, h: Ref)
    requires Structured(s) && IsHead(s, h) && BlockOk(s, h)
    ensures forall p :: InBlock(p, h, s.pages[h].order) <==> p in s.head && s.head[p] == h
  {
    forall p ensures InBlock(p, h, s.pages[h].order) <==> p in s.head && s.head[p] == h {
      if p in s.head { assert CoveredAt(s, p); }
    }
  }

  lemma BlockPagesOfHead(s: State, h: Ref)
    requires Structured(s) && IsHead(s, h) && BlockOk(s, h)
    ensures forall p :: p in BlockPages(h, s.pages[h].order) <==> p in s.head && s.head[p] == h
  {
    InBlockPages(h, s.pages[h].order);
    InBlockOfHead(s, h);
  }
}
