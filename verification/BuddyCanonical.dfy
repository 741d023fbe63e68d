/** The free lists are a function of the set of free pages alone. */
module BuddyCanonical {
  import opened Bits
  import opened BuddyState
  import opened BuddyMoves

  /** The aligned run of 2^k pages from h is free. */
  ghost predicate WhollyFree(rs: seq<Region>, free: set<Ref>, h: Ref, k: nat) {
    IsData(rs, h) && Aligned(Offset(rs, h), k) && BlockPages(h, k) <= free
  }

  /** A wholly free aligned run that no larger one up to the top order contains. */
  ghost predicate MaximalFree(rs: seq<Region>, free: set<Ref>, h: Ref, k: nat) {
    && WhollyFree(rs, free, h, k)
    && (k == MAX_ORDER || (k < MAX_ORDER && !WhollyFree(rs, free, Lower(h, Buddy(rs, h, k)), k + 1)))
  }

  lemma HalvesWhollyFree(rs: seq<Region>, free: set<Ref>, h: Ref, k: nat)
    requires WhollyFree(rs, free, h, k + 1)
    requires forall p :: p in free ==> IsData(rs, p)
    ensures WhollyFree(rs, free, h, k) && WhollyFree(rs, free, Buddy(rs, h, k), k)
    ensures Buddy(rs, h, k) == h.(index := h.index + Pow2(k))
  {
    AlignedCoarser(Offset(rs, h), k, k + 1);
    AlignedBuddy(Offset(rs, h), k);
    var b := Buddy(rs, h, k);
    HalfBlocks(h, k);
    InBlockPages(h, k);
    InBlockPages(b, k);
    InBlockPages(h, k + 1);
    assert InBlock(b, b, k);
    assert b in free;
  }

  /** g is a free block of order at least k holding h. */
  ghost predicate FreeBlockAround(s: State, g: Ref, h: Ref, k: nat)
    requires Shaped(s)
  {
    IsHead(s, g) && s.pages[g].free && k <= s.pages[g].order && InBlock(h, g, s.pages[g].order) && BlockOk(s, g)
  }

  /** If both halves of a run lie in free blocks, one of those blocks holds the whole run. */
  lemma JoinHalves(s: State, h: Ref, k: nat, g1: Ref, g2: Ref)
    requires Structured(s) && Coalesced(s) && k < MAX_ORDER
    requires IsData(s.regions, h) && Aligned(Offset(s.regions, h), k) && Buddy(s.regions, h, k) in s.head
    requires Aligned(Offset(s.regions, Buddy(s.regions, h, k)), k)
    requires FreeBlockAround(s, g1, h, k) && FreeBlockAround(s, g2, Buddy(s.regions, h, k), k)
    ensures FreeBlockAround(s, g1, h, k + 1) || FreeBlockAround(s, g2, h, k + 1)
  {
    var rs := s.regions;
    var b := Buddy(rs, h, k);
    BuddyOfBuddy(rs, h, k);
    BuddyOverlap(rs, b, k, g1, s.pages[g1].order);
    BuddyOverlap(rs, h, k, g2, s.pages[g2].order);
    assert IsHead(s, h) ==> CoalescedAt(s, h);
  }

  /** A wholly free aligned run lies inside one free block: coalescing leaves no fragments. */
  lemma {:induction false} FreeRunInOneBlock(s: State, h: Ref, k: nat) returns (g: Ref)
    requires Tiled(s) && k <= MAX_ORDER && WhollyFree(s.regions, FreePages(s), h, k)
    ensures FreeBlockAround(s, g, h, k)
    decreases k
  {
    if k == 0 {
      InBlockPages(h, 0);
      assert InBlock(h, h, 0);
      g := s.head[h];
      assert CoveredAt(s, h) && BlockOk(s, g);
    } else {
      HalvesWhollyFree(s.regions, FreePages(s), h, k - 1);
      var b := Buddy(s.regions, h, k - 1);
      g := FreeRunInOneBlock(s, h, k - 1);
      var g2 := FreeRunInOneBlock(s, b, k - 1);
      JoinHalves(s, h, k - 1, g, g2);
      if !FreeBlockAround(s, g, h, k) { g := g2; }
    }
  }

  /** Whatever lies inside a free block is wholly free. */
  lemma InsideFreeBlock(s: State, g: Ref, h: Ref, k: nat)
    requires Structured(s) && IsHead(s, g) && s.pages[g].free && BlockOk(s, g)
    requires h.region == g.region && g.index <= h.index && h.index + Pow2(k) <= g.index + Pow2(s.pages[g].order)
    ensures BlockPages(h, k) <= FreePages(s)
  {
    BlockPagesOfHead(s, g);
    InBlockPages(g, s.pages[g].order);
    InBlockPages(h, k);
  }

  lemma ListedIsMaximal(s: State, h: Ref, k: nat)
    requires Tiled(s) && k <= MAX_ORDER && h in s.lists[k]
    ensures MaximalFree(s.regions, FreePages(s), h, k)
  {
    var rs := s.regions;
    assert IsFreeHead(s, h, k) && BlockOk(s, h);
    BlockPagesOfHead(s, h);
    AlignedBuddy(Offset(rs, h), k);
    var lo := Lower(h, Buddy(rs, h, k));
    if k < MAX_ORDER && WhollyFree(rs, FreePages(s), lo, k + 1) {
      var g := FreeRunInOneBlock(s, lo, k + 1);
      NestedOrDisjoint(Offset(rs, lo), k + 1, Offset(rs, g), s.pages[g].order);
      assert InBlock(h, g, s.pages[g].order);
      assert false;
    }
  }

  lemma MaximalIsListed(s: State, h: Ref, k: nat)
    requires Tiled(s) && k <= MAX_ORDER && MaximalFree(s.regions, FreePages(s), h, k)
    ensures h in s.lists[k]
  {
    var rs := s.regions;
    var g := FreeRunInOneBlock(s, h, k);
    var j := s.pages[g].order;
    NestedOrDisjoint(Offset(rs, h), k, Offset(rs, g), j);
    if j == k {
      assert g == h;
      assert IsFreeHead(s, h, k);
    } else {
      AlignedBuddy(Offset(rs, h), k);
      var lo := Lower(h, Buddy(rs, h, k));
      AlignedCoarser(Offset(rs, g), k + 1, j);
      NestedOrDisjoint(Offset(rs, lo), k + 1, Offset(rs, g), j);
      InsideFreeBlock(s, g, lo, k + 1);
      assert false;
    }
  }
}
