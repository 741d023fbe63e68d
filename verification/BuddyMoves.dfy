/** The four moves every allocation and release is made of, each keeping the tiling. */
module BuddyMoves {
  import opened Bits
  import opened Seqs
  import opened BuddyState

  // ----- The four elementary moves

  /** Take a free block off its list: it becomes live. */
  ghost function Take(s: State, h: Ref): State
    requires Shaped(s) && h in s.head && s.pages[h].order <= MAX_ORDER
  {
    var k := s.pages[h].order;
    s.(lists := s.lists[k := Without(s.lists[k], h)], pages := s.pages[h := Page(false, k)])
  }

  /** Give a live block back to its list. */
  ghost function Release(s: State, h: Ref): State
    requires Shaped(s) && h in s.head && s.pages[h].order <= MAX_ORDER
  {
    var k := s.pages[h].order;
    s.(lists := s.lists[k := [h] + s.lists[k]], pages := s.pages[h := Page(true, k)])
  }

  /** Halve a live block: the upper half becomes a free block. */
  ghost function Split(s: State, h: Ref): State
    requires Shaped(s) && h in s.head && 0 < s.pages[h].order <= MAX_ORDER
  {
    var k := s.pages[h].order - 1;
    var b := h.(index := h.index + Pow2(k));
    s.(lists := s.lists[k := [b] + s.lists[k]],
       pages := s.pages[h := Page(false, k)][b := Page(true, k)],
       head := map p | p in s.head :: if InBlock(p, b, k) then b else s.head[p])
  }

  /** Join a live block with its free buddy. */
  ghost function Merge(s: State, h: Ref, b: Ref): State
    requires Shaped(s) && h in s.head && b in s.head && s.pages[h].order < MAX_ORDER
  {
    var k := s.pages[h].order;
    var lo, hi := if b.index < h.index then b else h, if b.index < h.index then h else b;
    s.(lists := s.lists[k := Without(s.lists[k], b)],
       pages := s.pages[hi := Page(true, k + 1)][lo := Page(false, k + 1)],
       head := map p | p in s.head :: if InBlock(p, hi, k) then lo else s.head[p])
  }

  lemma TakeStructured(s: State, h: Ref)
    requires Structured(s) && IsHead(s, h) && BlockOk(s, h)
    ensures Structured(Take(s, h))
  {
    var t := Take(s, h);
    forall p | p in t.head ensures CoveredAt(t, p) { assert CoveredAt(s, p); }
    forall g | IsHead(t, g) ensures BlockOk(t, g) { assert IsHead(s, g) && BlockOk(s, g); }
  }

  lemma TakePages(s: State, h: Ref)
    requires Structured(s) && IsHead(s, h) && s.pages[h].free && BlockOk(s, h) && Structured(Take(s, h))
    ensures var pages := BlockPages(h, s.pages[h].order);
            pages <= FreePages(s) && FreePages(Take(s, h)) == FreePages(s) - pages
    ensures Live(Take(s, h)) == Live(s)[h := s.pages[h].order]
  {
    BlockPagesOfHead(s, h);
  }

  lemma TakeTiled(s: State, h: Ref, k: nat)
    requires Tiled(s) && k <= MAX_ORDER && h in s.lists[k]
    ensures IsFreeHead(s, h, k) && Tiled(Take(s, h))
    ensures IsHead(Take(s, h), h) && Take(s, h).pages[h] == Page(false, k)
  {
    assert IsFreeHead(s, h, k) && BlockOk(s, h);
    var t := Take(s, h);
    TakeStructured(s, h);
    WithoutMembers(s.lists[k], h);
    forall j | 0 <= j <= MAX_ORDER
      ensures NoDup(t.lists[j]) && forall g :: g in t.lists[j] <==> IsFreeHead(t, g, j)
    {
      forall g ensures g in t.lists[j] <==> IsFreeHead(t, g, j) {
        assert g in s.lists[j] <==> IsFreeHead(s, g, j);
      }
    }
    forall g | IsHead(t, g) ensures CoalescedAt(t, g) {
      assert BlockOk(t, g);
      assert IsHead(s, g) && CoalescedAt(s, g);
    }
  }

  /** The conditions under which a live block may return to its list without leaving two free buddies. */
  ghost predicate Releasable(s: State, h: Ref, k: nat) {
    && Tiled(s) && IsHead(s, h) && !s.pages[h].free && s.pages[h].order == k && BlockOk(s, h)
    && (k < MAX_ORDER ==> !IsFreeHead(s, Buddy(s.regions, h, k), k))
  }

  lemma ReleaseStructured(s: State, h: Ref, k: nat)
    requires Releasable(s, h, k)
    ensures Structured(Release(s, h))
  {
    var t := Release(s, h);
    forall p | p in t.head ensures CoveredAt(t, p) { assert CoveredAt(s, p); }
    forall g | IsHead(t, g) ensures BlockOk(t, g) { assert IsHead(s, g) && BlockOk(s, g); }
  }

  lemma ReleaseLists(s: State, h: Ref, k: nat)
    requires Releasable(s, h, k)
    requires Shaped(Release(s, h))
    ensures ListsOk(Release(s, h))
  {
    var t := Release(s, h);
    assert h !in s.lists[k] by { assert !IsFreeHead(s, h, k); }
    forall j | 0 <= j <= MAX_ORDER
      ensures NoDup(t.lists[j]) && forall g :: g in t.lists[j] <==> IsFreeHead(t, g, j)
    {
      forall g ensures g in t.lists[j] <==> IsFreeHead(t, g, j) {
        assert g in s.lists[j] <==> IsFreeHead(s, g, j);
      }
    }
  }

  lemma ReleaseCoalesced(s: State, h: Ref, k: nat)
    requires Releasable(s, h, k)
    requires Shaped(Release(s, h)) && BlocksOk(Release(s, h))
    ensures Coalesced(Release(s, h))
  {
    var t := Release(s, h);
    forall g | IsHead(t, g) ensures CoalescedAt(t, g) {
      assert BlockOk(t, g);
      assert IsHead(s, g) && CoalescedAt(s, g);
      if g != h { BuddyOfBuddy(s.regions, g, s.pages[g].order); }
    }
  }

  lemma ReleasePages(s: State, h: Ref)
    requires Structured(s) && IsHead(s, h) && !s.pages[h].free && BlockOk(s, h) && Structured(Release(s, h))
    ensures var pages := BlockPages(h, s.pages[h].order);
            pages !! FreePages(s) && FreePages(Release(s, h)) == FreePages(s) + pages
    ensures Live(Release(s, h)) == Live(s) - {h}
  {
    BlockPagesOfHead(s, h);
  }

  lemma ReleaseTiled(s: State, h: Ref, k: nat)
    requires Releasable(s, h, k)
    ensures k <= MAX_ORDER && Tiled(Release(s, h))
    ensures FreePages(Release(s, h)) == FreePages(s) + BlockPages(h, k)
    ensures BlockPages(h, k) !! FreePages(s)
    ensures Live(Release(s, h)) == Live(s) - {h}
  {
    ReleaseStructured(s, h, k);
    ReleaseLists(s, h, k);
    ReleaseCoalesced(s, h, k);
    ReleasePages(s, h);
  }

  /** A live block of order k + 1 and the first page of its upper half. */
  ghost predicate Splittable(s: State, h: Ref, k: nat, b: Ref) {
    && Structured(s) && IsHead(s, h) && !s.pages[h].free && s.pages[h].order == k + 1 && BlockOk(s, h)
    && b == h.(index := h.index + Pow2(k)) && b in s.head && s.head[b] == h
    && Aligned(Offset(s.regions, h), k) && b == Buddy(s.regions, h, k)
  }

  lemma SplittableHead(s: State, h: Ref, k: nat)
    requires Structured(s) && IsHead(s, h) && !s.pages[h].free && s.pages[h].order == k + 1
    ensures Splittable(s, h, k, h.(index := h.index + Pow2(k)))
  {
    assert BlockOk(s, h);
    assert InBlock(h.(index := h.index + Pow2(k)), h, k + 1);
    AlignedCoarser(Offset(s.regions, h), k, k + 1);
    AlignedBuddy(Offset(s.regions, h), k);
  }

  lemma SplitHeads(s: State, h: Ref, k: nat, b: Ref)
    requires Splittable(s, h, k, b)
    ensures forall g :: IsHead(Split(s, h), g) <==> IsHead(s, g) || g == b
    ensures forall p :: p in s.head ==> Split(s, h).head[p] == if InBlock(p, b, k) then b else s.head[p]
    ensures Shaped(Split(s, h)) && FreeBits(Split(s, h))
    ensures forall p :: InBlock(p, b, k) ==> p in s.head && s.head[p] == h
  {
    HalfBlocks(h, k);
    assert forall p :: InBlock(p, b, k) ==> p in s.head && s.head[p] == h;
  }

  lemma SplitBlocks(s: State, h: Ref, k: nat, b: Ref, g: Ref)
    requires Splittable(s, h, k, b) && Shaped(Split(s, h)) && IsHead(Split(s, h), g)
    ensures BlockOk(Split(s, h), g)
  {
    var t := Split(s, h);
    SplitHeads(s, h, k, b);
    HalfBlocks(h, k);
    if g == b {
      AlignedBuddy(Offset(s.regions, h), k);
    } else {
      assert BlockOk(s, g);
      forall p | InBlock(p, g, t.pages[g].order) ensures p in t.head && t.head[p] == g {
        if g == h { assert InBlock(p, h, k + 1); } else { assert InBlock(p, g, s.pages[g].order); }
      }
    }
  }

  lemma SplitCovered(s: State, h: Ref, k: nat, b: Ref, p: Ref)
    requires Splittable(s, h, k, b) && Shaped(Split(s, h)) && p in s.head
    ensures CoveredAt(Split(s, h), p)
  {
    SplitHeads(s, h, k, b);
    HalfBlocks(h, k);
    assert CoveredAt(s, p);
  }

  lemma SplitStructured(s: State, h: Ref, k: nat, b: Ref)
    requires Splittable(s, h, k, b)
    ensures Structured(Split(s, h))
  {
    hide Aligned, InBlock;
    var t := Split(s, h);
    SplitHeads(s, h, k, b);
    forall p | p in t.head ensures CoveredAt(t, p) { SplitCovered(s, h, k, b, p); }
    forall g | IsHead(t, g) ensures BlockOk(t, g) { SplitBlocks(s, h, k, b, g); }
  }

  lemma SplitTiled(s: State, h: Ref, k: nat, b: Ref)
    requires Splittable(s, h, k, b) && Tiled(s)
    ensures Tiled(Split(s, h))
    ensures IsHead(Split(s, h), h) && Split(s, h).pages[h] == Page(false, k)
  {
    var t := Split(s, h);
    SplitHeads(s, h, k, b);
    SplitStructured(s, h, k, b);
    forall j | 0 <= j <= MAX_ORDER
      ensures NoDup(t.lists[j]) && forall g :: g in t.lists[j] <==> IsFreeHead(t, g, j)
    {
      assert !IsFreeHead(s, b, j);
      forall g ensures g in t.lists[j] <==> IsFreeHead(t, g, j) {
        assert g in s.lists[j] <==> IsFreeHead(s, g, j);
      }
    }
    BuddyOfBuddy(s.regions, h, k);
    forall g | IsHead(t, g) ensures CoalescedAt(t, g) {
      assert BlockOk(t, g);
      BuddyOfBuddy(s.regions, g, t.pages[g].order);
      if g != b { assert CoalescedAt(s, g); }
    }
  }

  lemma SplitPages(s: State, h: Ref, k: nat, b: Ref)
    requires Splittable(s, h, k, b)
    ensures FreePages(Split(s, h)) == FreePages(s) + BlockPages(b, k) && BlockPages(b, k) !! FreePages(s)
    ensures Live(Split(s, h)) == Live(s)[h := k]
  {
    SplitHeads(s, h, k, b);
    HalfBlocks(h, k);
    InBlockPages(b, k);
    var t := Split(s, h);
    assert forall p :: p in s.head && s.head[p] == b ==> CoveredAt(s, p);
    assert FreePages(t) == FreePages(s) + BlockPages(b, k);
  }

  /** A live block of order k and the free buddy it can be joined with. */
  ghost predicate Mergeable(s: State, h: Ref, k: nat, b: Ref) {
    && Structured(s) && IsHead(s, h) && !s.pages[h].free && s.pages[h].order == k && k < MAX_ORDER && BlockOk(s, h)
    && b == Buddy(s.regions, h, k) && IsFreeHead(s, b, k) && BlockOk(s, b)
  }

  function Lower(h: Ref, b: Ref): Ref { if b.index < h.index then b else h }

  function Upper(h: Ref, b: Ref): Ref { if b.index < h.index then h else b }

  lemma MergeHalves(s: State, h: Ref, k: nat, b: Ref)
    requires Mergeable(s, h, k, b)
    ensures var lo, hi := Lower(h, b), Upper(h, b);
      hi == lo.(index := lo.index + Pow2(k)) && Aligned(Offset(s.regions, lo), k + 1)
    ensures forall p :: InBlock(p, h, k) <==> p in s.head && s.head[p] == h
    ensures forall p :: InBlock(p, b, k) <==> p in s.head && s.head[p] == b
  {
    AlignedBuddy(Offset(s.regions, h), k);
    InBlockOfHead(s, h);
    InBlockOfHead(s, b);
  }

  lemma MergeHeads(s: State, h: Ref, k: nat, b: Ref)
    requires Mergeable(s, h, k, b)
    ensures Shaped(Merge(s, h, b)) && FreeBits(Merge(s, h, b))
    ensures forall g :: IsHead(Merge(s, h, b), g) <==> IsHead(s, g) && g != Upper(h, b)
    ensures forall p :: p in s.head ==>
              Merge(s, h, b).head[p] == if s.head[p] == Upper(h, b) then Lower(h, b) else s.head[p]
  {
    MergeHalves(s, h, k, b);
  }

  lemma MergeBlocks(s: State, h: Ref, k: nat, b: Ref, g: Ref)
    requires Mergeable(s, h, k, b) && Shaped(Merge(s, h, b)) && IsHead(Merge(s, h, b), g)
    ensures BlockOk(Merge(s, h, b), g)
  {
    var t := Merge(s, h, b);
    MergeHeads(s, h, k, b);
    MergeHalves(s, h, k, b);
    if g == Lower(h, b) {
      HalfBlocks(g, k);
    } else {
      assert BlockOk(s, g);
      forall p | InBlock(p, g, t.pages[g].order) ensures p in t.head && t.head[p] == g {
        assert InBlock(p, g, s.pages[g].order);
      }
    }
  }

  lemma MergeCovered(s: State, h: Ref, k: nat, b: Ref, p: Ref)
    requires Mergeable(s, h, k, b) && Shaped(Merge(s, h, b)) && p in s.head
    ensures CoveredAt(Merge(s, h, b), p)
  {
    MergeHeads(s, h, k, b);
    MergeHalves(s, h, k, b);
    HalfBlocks(Lower(h, b), k);
    assert CoveredAt(s, p);
  }

  lemma MergeStructured(s: State, h: Ref, k: nat, b: Ref)
    requires Mergeable(s, h, k, b)
    ensures Structured(Merge(s, h, b))
  {
    hide Aligned, InBlock;
    var t := Merge(s, h, b);
    MergeHeads(s, h, k, b);
    forall p | p in t.head ensures CoveredAt(t, p) { MergeCovered(s, h, k, b, p); }
    forall g | IsHead(t, g) ensures BlockOk(t, g) { MergeBlocks(s, h, k, b, g); }
  }

  lemma MergeTiled(s: State, h: Ref, k: nat, b: Ref)
    requires Mergeable(s, h, k, b) && Tiled(s)
    ensures Tiled(Merge(s, h, b))
    ensures IsHead(Merge(s, h, b), Lower(h, b)) && Merge(s, h, b).pages[Lower(h, b)] == Page(false, k + 1)
  {
    var t := Merge(s, h, b);
    MergeHeads(s, h, k, b);
    MergeStructured(s, h, k, b);
    WithoutMembers(s.lists[k], b);
    forall j | 0 <= j <= MAX_ORDER
      ensures NoDup(t.lists[j]) && forall g :: g in t.lists[j] <==> IsFreeHead(t, g, j)
    {
      forall g ensures g in t.lists[j] <==> IsFreeHead(t, g, j) {
        assert g in s.lists[j] <==> IsFreeHead(s, g, j);
      }
    }
    forall g | IsHead(t, g) ensures CoalescedAt(t, g) {
      assert BlockOk(t, g) && CoalescedAt(s, g);
    }
  }

  lemma MergePages(s: State, h: Ref, k: nat, b: Ref)
    requires Mergeable(s, h, k, b)
    ensures FreePages(Merge(s, h, b)) == FreePages(s) - BlockPages(b, k) && BlockPages(b, k) <= FreePages(s)
  {
    MergeHeads(s, h, k, b);
    BlockPagesOfHead(s, b);
    var t := Merge(s, h, b);
    forall p | p in s.head ensures p in FreePages(t) <==> p in FreePages(s) && s.head[p] != b {
      assert CoveredAt(s, p);
      if s.head[p] != h && s.head[p] != b { assert t.pages[s.head[p]] == s.pages[s.head[p]]; }
    }
  }

  lemma MergeLive(s: State, h: Ref, k: nat, b: Ref)
    requires Mergeable(s, h, k, b)
    ensures Live(Merge(s, h, b)) == (Live(s) - {h})[Lower(h, b) := k + 1]
  {
    hide InBlock, Aligned, BlocksOk, BlockOk, Covered, FreeBits, FreePages;
    MergeHeads(s, h, k, b);
  }

  lemma MergedBlock(s: State, h: Ref, k: nat, b: Ref)
    requires Mergeable(s, h, k, b)
    ensures BlockPages(Lower(h, b), k + 1) == BlockPages(h, k) + BlockPages(b, k)
  {
    MergeHalves(s, h, k, b);
    HalfBlocks(Lower(h, b), k);
    InBlockPages(h, k);
    InBlockPages(b, k);
    InBlockPages(Lower(h, b), k + 1);
  }
}
