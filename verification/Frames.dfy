/** Single page frames as the rest of the kernel sees them. */
module Frames {
  import opened Machine
  import opened Options
  import opened Bits
  import opened BuddyState
  import opened BuddyCanonical
  import opened Pmm

  /** No page the allocator may still hand out is among the frames in use. */
  ghost predicate Reserved(s: State, used: set<nat>) {
    forall p :: p in FreePages(s) && p.region < |s.regions| ==> Paddr(s.regions, p) !in used
  }

  /** Different pages have different addresses. */
  lemma PagesApart(rs: seq<Region>, p: Ref, q: Ref)
    requires RegionsOk(rs) && InRegion(rs, p) && InRegion(rs, q) && p != q
    ensures Paddr(rs, p) != Paddr(rs, q)
  {
    hide RegionOk;
    if p.region < q.region { assert RegionsApart(rs[p.region], rs[q.region]); }
    if q.region < p.region { assert RegionsApart(rs[q.region], rs[p.region]); }
  }

  lemma PageInRange(rs: seq<Region>, p: Ref)
    requires RegionsOk(rs) && InRegion(rs, p)
    ensures Paddr(rs, p) % PAGE_SIZE == 0 && Paddr(rs, p) < PHYSICAL_LIMIT
  {
    hide UsedPages, RegionsApart;
    assert RegionOk(rs[p.region]);
  }

  lemma FreePageInRegion(s: State, p: Ref)
    requires ValidState(s) && p in FreePages(s)
    ensures InRegion(s.regions, p)
  {
    hide Covered, BlocksOk, FreeBits, ListsOk, Coalesced, MetadataOk, RegionsOk;
  }

  /** A page fresh from the allocator is aligned, in range, and not a frame in use. */
  lemma FreshFrame(s: State, h: Ref, t: State, used: set<nat>)
    requires Allocated(s, 0, h, t) && Reserved(s, used)
    ensures h.region < |t.regions|
    ensures var frame := Paddr(t.regions, h);
      frame % PAGE_SIZE == 0 && frame < PHYSICAL_LIMIT && frame !in used && Reserved(t, used + {frame})
  {
    hide Tiled, MetadataOk, RegionsOk, FreePages, Live, Paddr, Aligned;
    assert h in BlockPages(h, 0) by { assert h == Ref(h.region, h.index); }
    assert h in FreePages(s);
    FreePageInRegion(s, h);
    PageInRange(s.regions, h);
    forall p | p in FreePages(t) && p.region < |t.regions|
      ensures Paddr(t.regions, p) !in used + {Paddr(t.regions, h)}
    {
      assert p in FreePages(s) && p != h;
      FreePageInRegion(s, p);
      PagesApart(s.regions, p, h);
    }
  }

  /** The allocator has nothing left to hand out. */
  ghost predicate Exhausted(s: State) { FreePages(s) == {} }

  lemma OnePageRun(s: State, p: Ref)
    requires ValidState(s) && p in FreePages(s)
    ensures WhollyFree(s.regions, FreePages(s), p, 0)
  {
    hide Covered, BlocksOk, FreeBits, ListsOk, Coalesced, MetadataOk, RegionsOk;
    assert BlockPages(p, 0) == {p};
  }

  lemma NoFreePage(s: State)
    requires ValidState(s) && forall h :: !WhollyFree(s.regions, FreePages(s), h, 0)
    ensures Exhausted(s)
  {
    hide ValidState, WhollyFree, FreePages;
    if FreePages(s) != {} {
      var p :| p in FreePages(s);
      OnePageRun(s, p);
    }
  }

  /** pmm_alloc_page: the physical address of one fresh page; None stands for the out-of-memory panic. */
  method AllocPage(zone: Zone, ghost used: set<nat>) returns (frame: Option<nat>)
    requires zone.Valid() && Reserved(zone.Snap(), used)
    modifies zone
    ensures zone.Valid()
    ensures frame.None? ==> Reserved(zone.Snap(), used) && Exhausted(zone.Snap())
    ensures frame.Some? ==>
      && frame.value % PAGE_SIZE == 0 && frame.value < PHYSICAL_LIMIT
      && frame.value !in used && Reserved(zone.Snap(), used + {frame.value})
  {
    hide ValidState, Counted, Reserved, WhollyFree, FreePages, Live, BlockPages;
    var page := zone.Alloc(0);
    if page.None? {
      NoFreePage(zone.Snap());
      return None;
    }
    FreshFrame(old(zone.Snap()), page.value, zone.Snap(), used);
    return Some(Paddr(zone.regions, page.value));
  }
}
