/** Tiling a new region block by block, as pmm_region_add does. */
module BuddyGrow {
  import opened Bits
  import opened Seqs
  import opened BuddyState

  /** The last region gains a free block of order k right after its present end. */
  ghost function Grow(s: State, r: nat, k: nat): State
    requires r < |s.regions| && |s.lists| == MAX_ORDER + 1 && k <= MAX_ORDER
  {
    var h := Ref(r, s.regions[r].pageCount);
    State(s.regions[r := s.regions[r].(pageCount := h.index + Pow2(k))],
          s.pages[h := Page(true, k)],
          s.lists[k := [h] + s.lists[k]],
          map p | p in s.head.Keys + BlockPages(h, k) :: if InBlock(p, h, k) then h else s.head[p])
  }

  /** A free block of order k may be added: the end is aligned and no block of that order ends there. */
  ghost predicate Growable(s: State, r: nat, k: nat) {
    && Structured(s) && r < |s.regions| && k <= MAX_ORDER && s.regions[r].used <= s.regions[r].pageCount
    && Aligned(s.regions[r].pageCount - s.regions[r].used, k)
    && (forall i {:trigger Ref(r, i)} :: s.regions[r].pageCount <= i < s.regions[r].pageCount + Pow2(k) ==>
          Ref(r, i) in s.pages && s.pages[Ref(r, i)].free)
    && (forall h {:trigger IsHead(s, h)} :: IsHead(s, h) && h.region == r && s.pages[h].order == k ==> k == MAX_ORDER)
  }

  lemma GrowHeads(s: State, r: nat, k: nat)
    requires Growable(s, r, k)
    ensures var t := Grow(s, r, k); var h := Ref(r, s.regions[r].pageCount);
      && h !in s.head && IsHead(t, h)
      && (forall g :: IsHead(t, g) <==> IsHead(s, g) || g == h)
      && (forall p :: InBlock(p, h, k) ==> p !in s.head)
      && (forall p :: p in t.head <==> p in s.head || InBlock(p, h, k))
      && (forall p :: p in s.head ==> t.head[p] == s.head[p])
    ensures Shaped(Grow(s, r, k)) && FreeBits(Grow(s, r, k))
  {
    var h := Ref(r, s.regions[r].pageCount);
    InBlockPages(h, k);
    assert forall p :: InBlock(p, h, k) ==> p == Ref(r, p.index);
  }

  lemma GrowStructured(s: State, r: nat, k: nat)
    requires Growable(s, r, k)
    ensures Structured(Grow(s, r, k))
  {
    var t := Grow(s, r, k);
    GrowHeads(s, r, k);
    forall p | p in t.head ensures CoveredAt(t, p) {
      if p in s.head { assert CoveredAt(s, p); }
    }
    forall g | IsHead(t, g) ensures BlockOk(t, g) {
      if g != Ref(r, s.regions[r].pageCount) {
        assert BlockOk(s, g);
        forall p | InBlock(p, g, t.pages[g].order) ensures p in t.head && t.head[p] == g {
          assert InBlock(p, g, s.pages[g].order);
        }
      }
    }
  }

  lemma GrowTiled(s: State, r: nat, k: nat)
    requires Tiled(s) && Growable(s, r, k)
    ensures Tiled(Grow(s, r, k))
  {
    hide InBlock;
    var t := Grow(s, r, k);
    var h := Ref(r, s.regions[r].pageCount);
    GrowHeads(s, r, k);
    GrowStructured(s, r, k);
    forall j | 0 <= j <= MAX_ORDER
      ensures NoDup(t.lists[j]) && forall g :: g in t.lists[j] <==> IsFreeHead(t, g, j)
    {
      assert !IsFreeHead(s, h, j);
      forall g ensures g in t.lists[j] <==> IsFreeHead(t, g, j) {
        assert g in s.lists[j] <==> IsFreeHead(s, g, j);
      }
    }
    forall g | IsHead(t, g) ensures CoalescedAt(t, g) {
      assert BlockOk(t, g);
      BuddyOfBuddy(t.regions, g, t.pages[g].order);
      if g != h {
        assert IsHead(s, g) && CoalescedAt(s, g);
        assert Buddy(t.regions, g, t.pages[g].order) == Buddy(s.regions, g, s.pages[g].order);
      }
    }
  }

  lemma GrowPages(s: State, r: nat, k: nat)
    requires Growable(s, r, k)
    ensures FreePages(Grow(s, r, k)) == FreePages(s) + BlockPages(Ref(r, s.regions[r].pageCount), k)
    ensures Shaped(Grow(s, r, k)) && Live(Grow(s, r, k)) == Live(s)
  {
    hide BlockOk, BlocksOk, Aligned;
    var t := Grow(s, r, k);
    GrowHeads(s, r, k);
    InBlockPages(Ref(r, s.regions[r].pageCount), k);
    assert forall p :: p in s.head ==> CoveredAt(s, p);
  }

  function RegionData(rs: seq<Region>, r: nat): set<Ref>
    requires r < |rs|
  {
    set i | rs[r].used <= i < rs[r].pageCount :: Ref(r, i)
  }

  lemma GrowRegionData(s: State, r: nat, k: nat)
    requires Growable(s, r, k)
    ensures RegionData(Grow(s, r, k).regions, r)
            == RegionData(s.regions, r) + BlockPages(Ref(r, s.regions[r].pageCount), k)
  {
  }

  /** Part-way through tiling region r of `s` plus one region: `rem` pages remain, the last block had order `last`. */
  ghost predicate Building(s: State, b: State, r: nat, rem: nat, last: nat) {
    && Tiled(b) && Shaped(s) && r == |s.regions| && |b.regions| == r + 1 && b.regions[..r] == s.regions
    && b.regions[r].used <= b.regions[r].pageCount && last <= MAX_ORDER
    && Aligned(b.regions[r].pageCount - b.regions[r].used, last) && (last < MAX_ORDER ==> rem < Pow2(last))
    && (forall h {:trigger IsHead(b, h)} ::
          IsHead(b, h) && h.region == r && h in b.pages && b.pages[h].order < MAX_ORDER ==>
          rem < Pow2(b.pages[h].order))
    && (forall i {:trigger Ref(r, i)} :: b.regions[r].pageCount <= i < b.regions[r].pageCount + rem ==>
          Ref(r, i) in b.pages && b.pages[Ref(r, i)].free)
    && Live(b) == Live(s)
  }

  lemma BuildStart(s: State, b: State, rem: nat)
    requires Tiled(s) && |b.regions| == |s.regions| + 1 && b.regions[..|s.regions|] == s.regions
    requires b.lists == s.lists && b.head == s.head
    requires forall p :: p in s.pages ==> p in b.pages && b.pages[p] == s.pages[p]
    requires b.regions[|s.regions|].used == b.regions[|s.regions|].pageCount
    requires forall i :: b.regions[|s.regions|].pageCount <= i < b.regions[|s.regions|].pageCount + rem ==>
               Ref(|s.regions|, i) in b.pages && b.pages[Ref(|s.regions|, i)].free
    ensures Building(s, b, |s.regions|, rem, MAX_ORDER) && FreePages(b) == FreePages(s)
  {
    var r := |s.regions|;
    AlignedZero(MAX_ORDER);
    SameData(s, b);
    assert forall h :: IsHead(b, h) <==> IsHead(s, h);
    forall p | p in b.head ensures CoveredAt(b, p) { assert CoveredAt(s, p); }
    forall g | IsHead(b, g) ensures BlockOk(b, g) && CoalescedAt(b, g) { assert BlockOk(s, g) && CoalescedAt(s, g); }
  }

  lemma SameData(s: State, b: State)
    requires |b.regions| == |s.regions| + 1 && b.regions[..|s.regions|] == s.regions
    requires b.regions[|s.regions|].used == b.regions[|s.regions|].pageCount
    ensures forall i :: 0 <= i < |s.regions| ==> b.regions[i] == s.regions[i]
    ensures forall p :: IsData(b.regions, p) <==> IsData(s.regions, p)
  {
    assert forall i :: 0 <= i < |s.regions| ==> b.regions[i] == b.regions[..|s.regions|][i];
  }

  lemma BuildGrowable(s: State, b: State, r: nat, rem: nat, last: nat, k: nat)
    requires Building(s, b, r, rem, last) && k <= MAX_ORDER && Pow2(k) <= rem
    ensures Growable(b, r, k) && |b.lists| == MAX_ORDER + 1
    ensures Aligned(b.regions[r].pageCount - b.regions[r].used + Pow2(k), k)
  {
    hide Live, Covered, BlocksOk, ListsOk, Coalesced, FreeBits;
    if k > last { Pow2Monotone(last, k); }
    AlignedCoarser(b.regions[r].pageCount - b.regions[r].used, k, last);
    AlignedPlus(b.regions[r].pageCount - b.regions[r].used, k, k);
  }

  lemma BuildOrders(s: State, b: State, r: nat, rem: nat, last: nat, k: nat, h: Ref)
    requires Building(s, b, r, rem, last) && Growable(b, r, k) && Pow2(k) <= rem
    requires (k < MAX_ORDER ==> rem < Pow2(k + 1))
    requires IsHead(Grow(b, r, k), h) && h.region == r && h in Grow(b, r, k).pages
    requires Grow(b, r, k).pages[h].order < MAX_ORDER
    ensures rem - Pow2(k) < Pow2(Grow(b, r, k).pages[h].order)
  {
    hide Live, Covered, BlocksOk, ListsOk, Coalesced, FreeBits, FreePages, BlockPages, Aligned, InBlock;
    GrowHeads(b, r, k);
    if h != Ref(r, b.regions[r].pageCount) { assert IsHead(b, h); }
  }

  lemma BuildStep(s: State, b: State, r: nat, rem: nat, last: nat, k: nat)
    requires Building(s, b, r, rem, last) && k <= MAX_ORDER && Pow2(k) <= rem && (k < MAX_ORDER ==> rem < Pow2(k + 1))
    ensures Growable(b, r, k) && Building(s, Grow(b, r, k), r, rem - Pow2(k), k)
  {
    hide Live, Structured, ListsOk, Coalesced, FreePages, BlockPages, Aligned, InBlock, Tiled, Shaped, IsHead;
    BuildGrowable(s, b, r, rem, last, k);
    var t := Grow(b, r, k);
    GrowTiled(b, r, k);
    GrowPages(b, r, k);
    forall h | IsHead(t, h) && h.region == r && h in t.pages && t.pages[h].order < MAX_ORDER
      ensures rem - Pow2(k) < Pow2(t.pages[h].order)
    {
      BuildOrders(s, b, r, rem, last, k, h);
    }
  }
}
