/** The buddy allocator of physical pages (kernel/src/memory/pmm.c). */
module Pmm {
  import opened Machine
  import opened Options
  import opened Bits
  import opened Seqs
  import opened BuddyState
  import opened BuddyMoves
  import opened BuddyCanonical
  import opened BuddyGrow

  const SIZEOF_REGION: nat := 48
  const SIZEOF_PAGE: nat := 40

  lemma Pow2Word()
    ensures Pow2(12) == PAGE_SIZE && Pow2(64) == WORD
  {
    assert Pow2(4) == 0x10;
    Pow2Sum(4, 4, 0x10, 0x10);
    Pow2Sum(4, 8, 0x10, 0x100);
    Pow2Sum(8, 8, 0x100, 0x100);
    Pow2Sum(16, 16, 0x1_0000, 0x1_0000);
    Pow2Sum(32, 32, 0x1_0000_0000, 0x1_0000_0000);
  }

  lemma Pow2Sum(a: nat, b: nat, p: nat, q: nat)
    requires Pow2(a) == p && Pow2(b) == q
    ensures Pow2(a + b) == p * q
  {
    Pow2Add(a, b);
  }

  /** __builtin_clzll for a non-zero argument below 2^64. */
  function Clz64(n: nat): nat
    requires 0 < n < WORD
  {
    Pow2Word();
    BitLengthBound(n, 64);
    64 - BitLength(n)
  }

  lemma {:induction false} BitLengthBound(n: nat, k: nat)
    requires n < Pow2(k)
    ensures BitLength(n) <= k
  {
    var l := BitLength(n);
    if l > k { Pow2Monotone(k, l - 1); }
  }

  /** `pages - 1` wraps for 0 pages. */
  function PagecountToOrder(pages: nat): nat
    requires pages < WORD
  {
    if pages == 1 then 0 else 64 - Clz64((pages + WORD - 1) % WORD)
  }

  lemma OrderOfOne()
    ensures PagecountToOrder(1) == 0
  {
  }

  lemma OrderBits(pages: nat)
    requires 1 < pages < WORD
    ensures PagecountToOrder(pages) == BitLength(pages - 1)
  {
    hide BitLength;
    assert (pages + WORD - 1) % WORD == pages - 1;
  }

  /** The order asked for is the least whose block holds the pages. */
  lemma OrderIsLeast(pages: nat)
    requires 0 < pages < WORD
    ensures pages <= Pow2(PagecountToOrder(pages))
    ensures forall k :: 0 <= k < PagecountToOrder(pages) ==> Pow2(k) < pages
  {
    if pages > 1 {
      OrderBits(pages);
      var l := BitLength(pages - 1);
      forall k | 0 <= k < l ensures Pow2(k) < pages { Pow2Monotone(k, l - 1); }
    }
  }

  /** Pages that the region header and the page array take. */
  function UsedPages(pageCount: nat): nat {
    (SIZEOF_REGION + SIZEOF_PAGE * pageCount + PAGE_SIZE - 1) / PAGE_SIZE
  }

  /** The metadata pages are just enough for the region header and one descriptor for each page. */
  lemma MetadataExact(pageCount: nat)
    ensures var bytes := SIZEOF_REGION + SIZEOF_PAGE * pageCount;
      bytes <= UsedPages(pageCount) * PAGE_SIZE < bytes + PAGE_SIZE
  {
  }

  /** In a valid state the header and the page array of every region end in its last metadata page. */
  lemma MetadataInPlace(s: State, r: nat)
    requires ValidState(s) && r < |s.regions|
    ensures var bytes := SIZEOF_REGION + SIZEOF_PAGE * s.regions[r].pageCount;
      bytes <= s.regions[r].used * PAGE_SIZE < bytes + PAGE_SIZE
  {
    hide UsedPages;
    assert RegionOk(s.regions[r]);
    MetadataExact(s.regions[r].pageCount);
  }

  function Paddr(rs: seq<Region>, p: Ref): nat
    requires p.region < |rs|
  {
    rs[p.region].base + p.index * PAGE_SIZE
  }

  predicate RegionsApart(r: Region, q: Region) {
    r.base + r.pageCount * PAGE_SIZE <= q.base || q.base + q.pageCount * PAGE_SIZE <= r.base
  }

  /** The region's metadata fits, and one top-order block past its end is still a physical address. */
  predicate RegionOk(r: Region) {
    && r.used == UsedPages(r.pageCount) <= r.pageCount
    && r.base % PAGE_SIZE == 0
    && r.base + (r.pageCount + Pow2(MAX_ORDER)) * PAGE_SIZE <= PHYSICAL_LIMIT
  }

  predicate RegionsOk(rs: seq<Region>) {
    && (forall i :: 0 <= i < |rs| ==> RegionOk(rs[i]))
    && (forall i, j :: 0 <= i < j < |rs| ==> RegionsApart(rs[i], rs[j]))
  }

  /** Every page of a region has its descriptor; metadata pages are never marked free. */
  ghost predicate MetadataOk(s: State) {
    && (forall p :: p in s.pages <==> InRegion(s.regions, p))
    && (forall p :: p in s.pages && p !in s.head ==> !s.pages[p].free)
  }

  ghost predicate ValidState(s: State) {
    Tiled(s) && MetadataOk(s) && RegionsOk(s.regions)
  }

  function InRegionPages(pages: set<Ref>, r: nat): set<Ref> {
    set p | p in pages && p.region == r
  }

  /** The counters of the zone and its regions count the free pages. */
  ghost predicate Counted(s: State, freeCounts: seq<int>, freeCount: int) {
    && freeCount == |FreePages(s)|
    && |freeCounts| == |s.regions|
    && forall r :: 0 <= r < |freeCounts| ==> freeCounts[r] == |InRegionPages(FreePages(s), r)|
  }

  /** A block of 2^order pages changed hands; `h` was wholly free before. */
  ghost predicate Allocated(s: State, order: nat, h: Ref, t: State) {
    && ValidState(s) && ValidState(t) && t.regions == s.regions
    && order <= MAX_ORDER && WhollyFree(s.regions, FreePages(s), h, order)
    && h !in Live(s) && Live(t) == Live(s)[h := order]
    && FreePages(t) == FreePages(s) - BlockPages(h, order)
  }

  /** h is the front of the first list from this order on that is not empty. */
  ghost predicate BestFit(lists: seq<seq<Ref>>, order: nat, h: Ref) {
    exists j ::
      order <= j < |lists| && lists[j] != [] && lists[j][0] == h && forall i :: order <= i < j ==> lists[i] == []
  }

  ghost predicate Freed(s: State, h: Ref, t: State) {
    && ValidState(s) && ValidState(t) && t.regions == s.regions
    && h in Live(s) && Live(t) == Live(s) - {h}
    && FreePages(t) == FreePages(s) + BlockPages(h, Live(s)[h]) && BlockPages(h, Live(s)[h]) !! FreePages(s)
  }

  lemma {:induction false} BlockPagesCount(h: Ref, n: nat)
    ensures |set i | h.index <= i < h.index + n :: Ref(h.region, i)| == n
  {
    var all := set i | h.index <= i < h.index + n :: Ref(h.region, i);
    if n > 0 {
      BlockPagesCount(h, n - 1);
      assert all == (set i | h.index <= i < h.index + (n - 1) :: Ref(h.region, i)) + {Ref(h.region, h.index + (n - 1))};
    }
  }

  /** Taking a block out of the free pages takes its size off both counters. */
  lemma CountBlock(free: set<Ref>, h: Ref, k: nat)
    requires BlockPages(h, k) <= free
    ensures |free - BlockPages(h, k)| == |free| - Pow2(k)
    ensures forall r :: |InRegionPages(free - BlockPages(h, k), r)|
                        == |InRegionPages(free, r)| - (if r == h.region then Pow2(k) else 0)
  {
    BlockPagesCount(h, Pow2(k));
    forall r ensures |InRegionPages(free - BlockPages(h, k), r)|
                     == |InRegionPages(free, r)| - (if r == h.region then Pow2(k) else 0)
    {
      var before, after := InRegionPages(free, r), InRegionPages(free - BlockPages(h, k), r);
      if r == h.region {
        assert after == before - BlockPages(h, k);
        assert BlockPages(h, k) <= before;
      } else {
        assert after == before;
      }
    }
  }

  lemma XorPages(off: nat, k: nat)
    requires Aligned(off, k)
    ensures Aligned(off, k + 1) ==> Xor(off * PAGE_SIZE, Pow2(k) * PAGE_SIZE) == (off + Pow2(k)) * PAGE_SIZE
    ensures !Aligned(off, k + 1) ==>
              off >= Pow2(k) && Xor(off * PAGE_SIZE, Pow2(k) * PAGE_SIZE) == (off - Pow2(k)) * PAGE_SIZE
  {
    hide Xor, Pow2, Aligned;
    Pow2Word();
    AlignedScale(off, k, 12);
    AlignedScale(off, k + 1, 12);
    Pow2Add(k, 12);
    XorBuddy(off * PAGE_SIZE, k + 12);
    AlignedBuddy(off, k);
  }

  /** The address the merge loop computes with `^` is that of the buddy. */
  lemma BuddyAddress(rs: seq<Region>, h: Ref, k: nat)
    requires IsData(rs, h) && Aligned(Offset(rs, h), k)
    ensures var dataBase := rs[h.region].base + rs[h.region].used * PAGE_SIZE;
            && Paddr(rs, h) >= dataBase
            && dataBase + Xor(Paddr(rs, h) - dataBase, Pow2(k) * PAGE_SIZE) == Paddr(rs, Buddy(rs, h, k))
  {
    hide Xor, Pow2, Aligned;
    XorPages(Offset(rs, h), k);
    assert Paddr(rs, h) - (rs[h.region].base + rs[h.region].used * PAGE_SIZE) == Offset(rs, h) * PAGE_SIZE;
  }

  /** The region made of the part of [base, base + size) that lies in [start, end). */
  function Clip(base: nat, size: nat, start: nat, end: nat): Region
    requires base + size > start && base < end && start <= end
  {
    var localBase := if base < start then start else base;
    var localEnd := if base + size > end then end else base + size;
    var count := (localEnd - localBase) / PAGE_SIZE;
    Region(localBase, count, UsedPages(count))
  }

  /** The region is every whole page of [base, base + size) from the later start on that ends before either end. */
  lemma ClipExact(base: nat, size: nat, start: nat, end: nat)
    requires base + size > start && base < end && start <= end
    ensures var r := Clip(base, size, start, end);
      && base <= r.base && start <= r.base && (r.base == base || r.base == start)
      && r.base + r.pageCount * PAGE_SIZE <= base + size && r.base + r.pageCount * PAGE_SIZE <= end
      && (r.base + (r.pageCount + 1) * PAGE_SIZE > base + size || r.base + (r.pageCount + 1) * PAGE_SIZE > end)
  {
  }

  predicate Addable(rs: seq<Region>, r: Region) {
    RegionOk(r) && forall i :: 0 <= i < |rs| ==> RegionsApart(rs[i], r)
  }

  /** The order pmm_region_add picks for the next block: the greatest power of two that fits, capped. */
  function GreedyOrder(freePages: nat): nat
    requires 0 < freePages < WORD
  {
    var exact := PagecountToOrder(freePages);
    var order := if And(freePages, freePages - 1) != 0 then exact - 1 else exact;
    if order > MAX_ORDER then MAX_ORDER else order
  }

  class Zone {
    var start: nat
    var end: nat
    var pageCount: nat
    var regions: seq<Region>
    var pages: map<Ref, Page>
    var lists: seq<seq<Ref>>
    var freeCounts: seq<int>
    var freeCount: int
    ghost var head: map<Ref, Ref>

    ghost function Snap(): State
      reads this
    {
      State(regions, pages, lists, head)
    }

    ghost predicate Valid()
      reads this
    {
      ValidState(Snap()) && Counted(Snap(), freeCounts, freeCount) && start <= end
    }

    /** pmm_zone_register */
    constructor (start: nat, end: nat)
      requires start <= end
      ensures Valid() && regions == [] && Live(Snap()) == map[] && pageCount == 0
      ensures this.start == start && this.end == end
    {
      this.start, this.end, pageCount := start, end, 0;
      regions, pages, head := [], map[], map[];
      lists := seq(MAX_ORDER + 1, _ => []);
      freeCounts, freeCount := [], 0;
    }

    /** pmm_region_add, for this zone: the part of [base, base + size) inside the zone becomes a region. */
    method RegionAdd(base: nat, size: nat)
      requires Valid()
      requires base + size > start && base < end ==> Addable(regions, Clip(base, size, start, end))
      modifies this
      ensures Valid() && start == old(start) && end == old(end)
      ensures base + size <= start || base >= end ==> Snap() == old(Snap()) && pageCount == old(pageCount)
      ensures base + size > start && base < end ==>
        && regions == old(regions) + [Clip(base, size, start, end)]
        && pageCount == old(pageCount) + Clip(base, size, start, end).pageCount
        && Live(Snap()) == old(Live(Snap()))
        && FreePages(Snap()) == old(FreePages(Snap())) + RegionData(regions, |old(regions)|)
        && var r, bytes := regions[|old(regions)|], SIZEOF_REGION + SIZEOF_PAGE * regions[|old(regions)|].pageCount;
           bytes <= r.used * PAGE_SIZE < bytes + PAGE_SIZE
    {
      hide ValidState, Counted, FreePages, Live, Building, Addable, UsedPages, Shaped, RegionData;
      if base + size <= start || base >= end { return; }
      var localBase, localSize := base, size;
      if localBase < start { localBase, localSize := start, localSize - (start - localBase); }
      if localBase + localSize > end { localSize := end - localBase; }
      var count := localSize / PAGE_SIZE;
      var usedPages := UsedPages(count);
      ghost var s := Snap();
      ghost var region := Clip(base, size, start, end);
      assert region == Region(localBase, count, usedPages);
      var r := |regions|;
      AddStart(s, region);
      InitPages(r, count, usedPages);
      pageCount := pageCount + count;
      regions, freeCounts := regions + [Region(localBase, count, usedPages)], freeCounts + [count - usedPages];
      freeCount := freeCount + (count - usedPages);
      ghost var part := Snap().(regions := s.regions + [region.(pageCount := usedPages)]);
      AddBuild(s, part, region);
      ghost var last := TileRegion(s, part, r, usedPages, count);
      AddDone(s, Snap(), region, last, old(freeCounts), old(freeCount));
      MetadataExact(count);
    }

    /** The greedy loop of pmm_region_add over the data pages of region r. */
    method TileRegion(ghost s: State, ghost part: State, r: nat, used: nat, count: nat) returns (ghost last: nat)
      requires |regions| == r + 1 && used <= count < WORD && regions[r] == Region(regions[r].base, count, used)
      requires part == Snap().(regions := regions[r := regions[r].(pageCount := used)])
      requires Building(s, part, r, count - used, MAX_ORDER) && RegionData(part.regions, r) == {}
      modifies this`pages, this`lists, this`head
      ensures Building(s, Snap(), r, 0, last)
      ensures FreePages(Snap()) == FreePages(part) + RegionData(regions, r)
      ensures pages.Keys == old(pages).Keys && forall p :: p in pages ==> pages[p].free == old(pages)[p].free
    {
      hide FreePages, Building, And, PagecountToOrder, Pow2, Growable, InBlock, BlockPages, RegionData;
      last := MAX_ORDER;
      ghost var b := part;
      var j, freePages := used, count - used;
      assert part.regions[r].used == used;
      while freePages != 0
        invariant used <= j <= count && j + freePages == count && |regions| == r + 1
        invariant b == Snap().(regions := regions[r := regions[r].(pageCount := j)])
        invariant Building(s, b, r, freePages, last)
        invariant FreePages(b) == FreePages(part) + RegionData(b.regions, r)
        invariant pages.Keys == old(pages).Keys && forall p :: p in pages ==> pages[p].free == old(pages)[p].free
        decreases freePages
      {
        GreedyFits(freePages);
        var order := PagecountToOrder(freePages);
        if And(freePages, freePages - 1) != 0 { order := order - 1; }
        if order > MAX_ORDER { order := MAX_ORDER; }
        BuildStep(s, b, r, freePages, last, order);
        BuildPages(s, b, r, freePages, last, order);
        b := Grow(b, r, order);
        pages := pages[Ref(r, j) := pages[Ref(r, j)].(order := order)];
        lists := lists[order := [Ref(r, j)] + lists[order]];
        head := b.head;
        last := order;
        var orderSize := Pow2(order);
        freePages := freePages - orderSize;
        j := j + orderSize;
      }
      assert regions[r := regions[r].(pageCount := j)] == regions;
    }

    /** The page array of region r: metadata pages are marked taken, data pages free. */
    method InitPages(r: nat, count: nat, used: nat)
      requires used <= count && forall p :: p in pages ==> p.region != r
      modifies this`pages
      ensures pages.Keys == old(pages).Keys + set i | 0 <= i < count :: Ref(r, i)
      ensures forall p :: p in old(pages) ==> pages[p] == old(pages)[p]
      ensures forall i :: 0 <= i < count ==> pages[Ref(r, i)] == Page(i >= used, 0)
    {
      var j := 0;
      while j < count
        invariant 0 <= j <= count
        invariant pages.Keys == old(pages).Keys + set i | 0 <= i < j :: Ref(r, i)
        invariant forall p :: p in old(pages) ==> pages[p] == old(pages)[p]
        invariant forall i :: 0 <= i < j ==> pages[Ref(r, i)] == Page(true, 0)
      {
        pages := pages[Ref(r, j) := Page(true, 0)];
        j := j + 1;
      }
      j := 0;
      while j < used
        invariant 0 <= j <= used
        invariant pages.Keys == old(pages).Keys + set i | 0 <= i < count :: Ref(r, i)
        invariant forall p :: p in old(pages) ==> pages[p] == old(pages)[p]
        invariant forall i :: 0 <= i < count ==> pages[Ref(r, i)] == Page(i >= j, 0)
      {
        pages := pages[Ref(r, j) := pages[Ref(r, j)].(free := false)];
        j := j + 1;
      }
    }

    /** pmm_alloc: None stands for the out-of-memory panic. */
    method Alloc(order: nat) returns (res: Option<Ref>)
      requires Valid() && order <= MAX_ORDER
      modifies this
      ensures Valid() && start == old(start) && end == old(end) && pageCount == old(pageCount)
      ensures res.Some? ==> Allocated(old(Snap()), order, res.value, Snap()) && BestFit(old(lists), order, res.value)
      ensures res.None? ==> Snap() == old(Snap()) &&
                            forall h :: !WhollyFree(regions, FreePages(Snap()), h, order)
    {
      hide Holding, ValidState, Counted, Tiled, WhollyFree, Live, FreePages, BlockPages;
      hide Shaped, IsData, InRegion, Without, Pow2;
      ghost var s := Snap();
      assert Tiled(s) && |lists| == MAX_ORDER + 1 by { ValidParts(s); }
      var avl := order;
      while lists[avl] == []
        invariant order <= avl <= MAX_ORDER
        invariant forall k :: order <= k < avl ==> lists[k] == []
        decreases MAX_ORDER - avl
      {
        if avl == MAX_ORDER {
          NoFreeRun(s, order);
          return None;
        }
        avl := avl + 1;
      }
      var page := lists[avl][0];
      assert BestFit(old(lists), order, page);
      HoldTake(s, page, avl);
      ghost var held := Take(s, page);
      lists := lists[avl := Without(lists[avl], page)];
      while avl > order
        invariant order <= avl <= MAX_ORDER
        invariant regions == s.regions && freeCounts == old(freeCounts) && freeCount == old(freeCount)
        invariant start == old(start) && end == old(end) && pageCount == old(pageCount)
        invariant Holding(s, held, page, avl) && page in pages && |lists| == MAX_ORDER + 1
        invariant held == State(regions, pages[page := Page(false, avl)], lists, head)
        decreases avl
      {
        HoldSplit(s, held, page, avl - 1);
        var buddy := Ref(page.region, (Paddr(regions, page) - regions[page.region].base) / PAGE_SIZE + Pow2(avl - 1));
        pages := pages[buddy := pages[buddy].(order := avl - 1)];
        lists := lists[avl - 1 := [buddy] + lists[avl - 1]];
        held := Split(held, page);
        head := held.head;
        avl := avl - 1;
      }
      HoldDone(s, held, page, order, freeCounts, freeCount);
      pages := pages[page := Page(false, order)];
      freeCounts := freeCounts[page.region := freeCounts[page.region] - Pow2(order)];
      freeCount := freeCount - Pow2(order);
      res := Some(page);
    }

    /** pmm_alloc_pages */
    method AllocPages(count: nat) returns (res: Option<Ref>)
      requires Valid() && 0 < count <= 128
      modifies this
      ensures Valid() && start == old(start) && end == old(end) && pageCount == old(pageCount)
      ensures res.Some? ==>
        && Allocated(old(Snap()), PagecountToOrder(count), res.value, Snap())
        && BestFit(old(lists), PagecountToOrder(count), res.value)
      ensures count <= Pow2(PagecountToOrder(count))
      ensures forall k :: 0 <= k < PagecountToOrder(count) ==> Pow2(k) < count
      ensures res.None? ==>
        Snap() == old(Snap()) && forall h :: !WhollyFree(regions, FreePages(Snap()), h, PagecountToOrder(count))
    {
      hide ValidState, Counted, Allocated, BestFit, Live, FreePages, WhollyFree, PagecountToOrder, Pow2;
      OrderInRange(count);
      OrderIsLeast(count);
      res := Alloc(PagecountToOrder(count));
    }

    /** The address computation of pmm_free: the buddy, unless it would lie behind the region. */
    method BuddyOf(cur: Ref, k: nat) returns (buddy: Option<Ref>)
      requires IsData(regions, cur) && Aligned(Offset(regions, cur), k) && k <= MAX_ORDER
      requires RegionOk(regions[cur.region])
      ensures buddy == if IsData(regions, Buddy(regions, cur, k)) then Some(Buddy(regions, cur, k)) else None
      ensures buddy.Some? ==> buddy.value != cur && buddy.value.region == cur.region
    {
      hide Aligned, Xor, Pow2, UsedPages, Buddy;
      HeldBuddy(regions, cur, k);
      var region := regions[cur.region];
      var dataBase := region.base + UsedPages(region.pageCount) * PAGE_SIZE;
      var buddyAddr := dataBase + Xor(Paddr(regions, cur) - dataBase, Pow2(k) * PAGE_SIZE);
      assert buddyAddr < PHYSICAL_LIMIT;
      if buddyAddr >= region.base + region.pageCount * PAGE_SIZE { return None; }
      return Some(Ref(cur.region, (buddyAddr - region.base) / PAGE_SIZE));
    }

    /** The end of a turn of the loop of pmm_free: the buddy leaves its list, and the lower of the two goes on. */
    method MergeWith(cur: Ref, k: nat, buddy: Ref, ghost s: State, ghost page: Ref, ghost held: State)
      returns (next: Ref, ghost held': State)
      requires Returning(s, page, held, cur, k) && held == State(regions, pages[cur := Page(false, k)], lists, head)
      requires cur in pages && pages[cur].free && |lists| == MAX_ORDER + 1 && k < MAX_ORDER
      requires Shaped(held) && BlockOk(held, cur) && buddy == Buddy(regions, cur, k) && buddy != cur
      requires cur in held.head && buddy in held.head && buddy in pages && pages[buddy] == Page(true, k)
      requires buddy.region == cur.region < |regions|
      modifies this`pages, this`lists, this`head
      ensures next in pages && pages[next] == Page(true, k + 1) && |lists| == MAX_ORDER + 1 && next.region == cur.region
      ensures Returning(s, page, held', next, k + 1)
      ensures held' == State(regions, pages[next := Page(false, k + 1)], lists, head)
    {
      hide Returning, ValidState, Counted, Live, FreePages, BlockPages, Aligned, Xor, Pow2, Buddy, BlockOk;
      hide Shaped, IsData, InRegion, RegionOk, UsedPages, Without, InBlock, Freed;
      ReturnMerge(s, page, held, cur, k, buddy);
      lists := lists[k := Without(lists[k], buddy)];
      pages := pages[buddy := pages[buddy].(order := k + 1)];
      pages := pages[cur := pages[cur].(order := k + 1)];
      held' := Merge(held, cur, buddy);
      head := held'.head;
      next := if Paddr(regions, buddy) < Paddr(regions, cur) then buddy else cur;
    }

    /** pmm_free */
    method Free(page: Ref)
      requires Valid() && page in Live(Snap())
      modifies this
      ensures Valid() && Freed(old(Snap()), page, Snap())
      ensures start == old(start) && end == old(end) && pageCount == old(pageCount)
    {
      hide Returning, ValidState, Counted, Live, FreePages, BlockPages, Aligned, Xor, Pow2, Buddy, BlockOk;
      hide Shaped, IsData, InRegion, RegionOk, UsedPages, Without, InBlock, Freed;
      ghost var s := Snap();
      assert |freeCounts| == |regions| by { CountedLength(s, freeCounts, freeCount); }
      ReturnStart(s, page, freeCounts);
      pages := pages[page := pages[page].(free := true)];
      freeCounts := freeCounts[page.region := freeCounts[page.region] + Pow2(pages[page].order)];
      freeCount := freeCount + Pow2(pages[page].order);
      var cur := page;
      ghost var held := s;
      while true
        invariant regions == s.regions && cur.region == page.region
        invariant cur in pages && pages[cur].free && |lists| == MAX_ORDER + 1
        invariant Returning(s, page, held, cur, pages[cur].order)
        invariant held == State(regions, pages[cur := Page(false, pages[cur].order)], lists, head)
        invariant freeCounts == old(freeCounts[page.region := freeCounts[page.region] + Pow2(pages[page].order)])
        invariant freeCount == old(freeCount + Pow2(pages[page].order))
        invariant start == old(start) && end == old(end) && pageCount == old(pageCount)
        decreases MAX_ORDER - pages[cur].order
      {
        var k := pages[cur].order;
        HeldBlock(s, page, held, cur, k);
        if k >= MAX_ORDER { break; }
        var found := BuddyOf(cur, k);
        if found.None? { break; }
        var buddy := found.value;
        if !pages[buddy].free || pages[buddy].order != k { break; }
        cur, held := MergeWith(cur, k, buddy, s, page, held);
      }
      ReturnDone(s, page, held, cur, pages[cur].order, old(freeCounts), old(freeCount));
      lists := lists[pages[cur].order := [cur] + lists[pages[cur].order]];
      assert Snap() == Release(held, cur);
    }
  }

  /** For n > 0 the exact order is the number of bits below the leading one, plus one unless n is a power of two. */
  lemma ExactOrder(n: nat)
    requires 0 < n < WORD
    ensures var m := BitLength(n) - 1;
            && Pow2(m) <= n < Pow2(m + 1)
            && PagecountToOrder(n) == if n == Pow2(m) then m else m + 1
  {
    hide PagecountToOrder, BitLength;
    var m := BitLength(n) - 1;
    if n == 1 {
      assert BitLength(1) == 1;
      OrderOfOne();
    } else {
      OrderBits(n);
      BitLengthUnique(n - 1, if n == Pow2(m) then m else m + 1);
    }
  }

  lemma GreedyFits(n: nat)
    requires 0 < n < WORD
    ensures Pow2(GreedyOrder(n)) <= n && GreedyOrder(n) <= MAX_ORDER
    ensures GreedyOrder(n) < MAX_ORDER ==> n < Pow2(GreedyOrder(n) + 1)
    ensures PagecountToOrder(n) == 0 ==> And(n, n - 1) == 0
  {
    hide And, BitLength, PagecountToOrder;
    PowerOfTwoTest(n);
    ExactOrder(n);
    var m := BitLength(n) - 1;
    if MAX_ORDER < m { Pow2Monotone(MAX_ORDER, m); }
  }

  lemma BuildPages(s: State, b: State, r: nat, rem: nat, last: nat, k: nat)
    requires Building(s, b, r, rem, last) && Growable(b, r, k) && Pow2(k) <= rem
    ensures |b.lists| == MAX_ORDER + 1 && r < |b.regions| && Ref(r, b.regions[r].pageCount) in b.pages
    ensures b.pages[Ref(r, b.regions[r].pageCount)].free
    ensures FreePages(Grow(b, r, k)) == FreePages(b) + BlockPages(Ref(r, b.regions[r].pageCount), k)
    ensures RegionData(Grow(b, r, k).regions, r)
            == RegionData(b.regions, r) + BlockPages(Ref(r, b.regions[r].pageCount), k)
  {
    hide FreePages, BlockPages, Live, Covered, BlocksOk, ListsOk, Coalesced;
    GrowPages(b, r, k);
    GrowRegionData(b, r, k);
  }

  lemma AddStart(s: State, region: Region)
    requires ValidState(s) && Addable(s.regions, region)
    ensures forall p :: p in s.pages ==> p.region != |s.regions|
    ensures region.used <= region.pageCount < WORD && Shaped(s)
  {
  }

  lemma AddBuild(s: State, part: State, region: Region)
    requires ValidState(s) && Addable(s.regions, region)
    requires part == State(s.regions + [region.(pageCount := region.used)], part.pages, s.lists, s.head)
    requires forall p :: p in s.pages ==> p in part.pages && part.pages[p] == s.pages[p]
    requires forall i :: 0 <= i < region.pageCount ==>
               Ref(|s.regions|, i) in part.pages && part.pages[Ref(|s.regions|, i)] == Page(i >= region.used, 0)
    ensures Building(s, part, |s.regions|, region.pageCount - region.used, MAX_ORDER) && FreePages(part) == FreePages(s)
    ensures RegionData(part.regions, |s.regions|) == {}
  {
    hide FreePages, Live, Structured, ListsOk, Coalesced, Building;
    BuildStart(s, part, region.pageCount - region.used);
  }

  lemma {:induction false} IndexSetCount(r: nat, lo: nat, hi: nat)
    requires lo <= hi
    ensures |set i | lo <= i < hi :: Ref(r, i)| == hi - lo
    decreases hi
  {
    var all := set i | lo <= i < hi :: Ref(r, i);
    if lo < hi {
      IndexSetCount(r, lo, hi - 1);
      assert all == (set i | lo <= i < hi - 1 :: Ref(r, i)) + {Ref(r, hi - 1)};
    }
  }

  lemma AddValid(s: State, t: State, region: Region, last: nat)
    requires ValidState(s) && Addable(s.regions, region)
    requires t.regions == s.regions + [region] && Building(s, t, |s.regions|, 0, last)
    requires t.pages.Keys == s.pages.Keys + set i | 0 <= i < region.pageCount :: Ref(|s.regions|, i)
    requires forall p :: p in s.pages ==> t.pages[p].free == s.pages[p].free
    requires forall i :: 0 <= i < region.pageCount ==> t.pages[Ref(|s.regions|, i)].free == (i >= region.used)
    ensures ValidState(t) && Live(t) == Live(s)
  {
    hide Live, Structured, ListsOk, Coalesced, IsHead, RegionOk, RegionsApart, Aligned, Pow2;
    var r := |s.regions|;
    assert forall p :: InRegion(t.regions, p) <==>
      InRegion(s.regions, p) || (p.region == r && p.index < region.pageCount);
    assert forall p: Ref :: p.region == r ==> p == Ref(r, p.index);
    assert Shaped(t) && Shaped(s) by { TiledShaped(t); TiledShaped(s); }
  }

  lemma TiledShaped(s: State)
    requires Tiled(s)
    ensures Shaped(s)
  {
  }

  /** The region is tiled: both counters have grown by its data pages. */
  lemma AddCounted(s: State, t: State, region: Region, freeCounts: seq<int>, freeCount: int)
    requires Shaped(s) && Counted(s, freeCounts, freeCount) && region.used <= region.pageCount
    requires t.regions == s.regions + [region]
    requires FreePages(t) == FreePages(s) + RegionData(t.regions, |s.regions|)
    ensures Counted(t, freeCounts + [region.pageCount - region.used], freeCount + (region.pageCount - region.used))
  {
    var r := |s.regions|;
    var data := RegionData(t.regions, r);
    IndexSetCount(r, region.used, region.pageCount);
    assert FreePages(s) !! data;
    forall i | 0 <= i <= r
      ensures InRegionPages(FreePages(t), i) == if i == r then data else InRegionPages(FreePages(s), i)
    {
    }
  }

  lemma AddDone(s: State, t: State, region: Region, last: nat, freeCounts: seq<int>, freeCount: int)
    requires ValidState(s) && Counted(s, freeCounts, freeCount) && Addable(s.regions, region)
    requires t.regions == s.regions + [region] && Building(s, t, |s.regions|, 0, last)
    requires FreePages(t) == FreePages(s) + RegionData(t.regions, |s.regions|)
    requires t.pages.Keys == s.pages.Keys + set i | 0 <= i < region.pageCount :: Ref(|s.regions|, i)
    requires forall p :: p in s.pages ==> t.pages[p].free == s.pages[p].free
    requires forall i :: 0 <= i < region.pageCount ==> t.pages[Ref(|s.regions|, i)].free == (i >= region.used)
    ensures ValidState(t) && Live(t) == Live(s)
    ensures Counted(t, freeCounts + [region.pageCount - region.used], freeCount + (region.pageCount - region.used))
  {
    hide ValidState, Building, FreePages, Counted, Live;
    AddStart(s, region);
    AddValid(s, t, region, last);
    AddCounted(s, t, region, freeCounts, freeCount);
  }

  lemma OrderInRange(pageCount: nat)
    requires 0 < pageCount <= 128
    ensures PagecountToOrder(pageCount) <= MAX_ORDER
  {
    OrderIsLeast(pageCount);
    assert Pow2(7) == 128;
    assert PagecountToOrder(pageCount) > MAX_ORDER ==> Pow2(MAX_ORDER) < pageCount;
  }

  /** `held` is s where the live block at `page` has grown, by joining free buddies, to the block (h, k). */
  ghost predicate Returning(s: State, page: Ref, held: State, h: Ref, k: nat) {
    && ValidState(s) && ValidState(held) && IsHead(held, h) && held.pages[h] == Page(false, k)
    && held.regions == s.regions && h.region == page.region
    && page in Live(s) && (h == page || h !in Live(s)) && Live(held) == (Live(s) - {page})[h := k]
    && BlockPages(h, k) !! FreePages(held) && BlockPages(page, Live(s)[page]) !! FreePages(s)
    && FreePages(held) + BlockPages(h, k) == FreePages(s) + BlockPages(page, Live(s)[page])
  }

  lemma CountedLength(s: State, freeCounts: seq<int>, freeCount: int)
    requires Counted(s, freeCounts, freeCount)
    ensures |freeCounts| == |s.regions|
  {
  }

  lemma ReturnStart(s: State, h: Ref, freeCounts: seq<int>)
    requires ValidState(s) && h in Live(s) && |freeCounts| == |s.regions|
    ensures h.region < |s.regions| && h in s.pages && h in s.head
    ensures s.regions[h.region].used == UsedPages(s.regions[h.region].pageCount) && |s.lists| == MAX_ORDER + 1
    ensures s.pages[h] == Page(false, s.pages[h].order) && Live(s)[h] == s.pages[h].order
    ensures Returning(s, h, s, h, s.pages[h].order)
  {
    assert BlockOk(s, h);
    BlockPagesOfHead(s, h);
  }

  lemma HeldBlock(s: State, page: Ref, held: State, h: Ref, k: nat)
    requires Returning(s, page, held, h, k)
    ensures Shaped(held) && h in held.head && k <= MAX_ORDER && BlockOk(held, h) && held.pages[h].order == k
    ensures IsData(held.regions, h) && Aligned(Offset(held.regions, h), k) && RegionOk(held.regions[h.region])
    ensures var b := Buddy(held.regions, h, k); IsData(held.regions, b) ==> b in held.head && b in held.pages
  {
    hide Live, FreePages, BlockPages;
    assert BlockOk(held, h);
  }

  /** The address computed for the buddy is that of the buddy's descriptor, and does not wrap. */
  lemma HeldBuddy(rs: seq<Region>, h: Ref, k: nat)
    requires IsData(rs, h) && Aligned(Offset(rs, h), k) && k <= MAX_ORDER && RegionOk(rs[h.region])
    ensures var r := rs[h.region];
            var dataBase := r.base + r.used * PAGE_SIZE;
            && Paddr(rs, h) >= dataBase
            && dataBase + Xor(Paddr(rs, h) - dataBase, Pow2(k) * PAGE_SIZE)
              == Paddr(rs, Buddy(rs, h, k)) < PHYSICAL_LIMIT
    ensures var b := Buddy(rs, h, k);
            && b != h && b.region == h.region && (Paddr(rs, b) - rs[h.region].base) / PAGE_SIZE == b.index
            && (IsData(rs, b) <==> Paddr(rs, b) < rs[h.region].base + rs[h.region].pageCount * PAGE_SIZE)
  {
    hide Aligned, Xor, Pow2, UsedPages;
    BuddyAddress(rs, h, k);
    Pow2Monotone(k, MAX_ORDER);
    AlignedBuddy(Offset(rs, h), k);
  }

  lemma ReturnMerge(s: State, page: Ref, held: State, h: Ref, k: nat, b: Ref)
    requires Returning(s, page, held, h, k) && k < MAX_ORDER
    requires Shaped(held) && BlockOk(held, h) && b == Buddy(held.regions, h, k)
    requires b in held.head && held.pages[b].free && held.pages[b].order == k
    ensures Returning(s, page, Merge(held, h, b), Lower(h, b), k + 1)
  {
    hide FreePages, Live, BlockPages, Aligned, Tiled, Mergeable, MetadataOk, RegionsOk;
    MergeFacts(held, h, k, b);
    MergeTiled(held, h, k, b);
    MergePages(held, h, k, b);
    MergeLive(held, h, k, b);
    MergedBlock(held, h, k, b);
    MergeMetadata(held, h, b);
  }

  lemma MergeFacts(s: State, h: Ref, k: nat, b: Ref)
    requires Tiled(s) && IsHead(s, h) && s.pages[h] == Page(false, k) && k < MAX_ORDER && BlockOk(s, h)
    requires b == Buddy(s.regions, h, k) && b in s.head && s.pages[b].free && s.pages[b].order == k
    ensures Mergeable(s, h, k, b) && b !in Live(s)
  {
    BuddyIsHead(s, h);
    assert BlockOk(s, b);
  }

  lemma MergeMetadata(s: State, h: Ref, b: Ref)
    requires Shaped(s) && h in s.head && b in s.head && s.pages[h].order < MAX_ORDER && MetadataOk(s)
    ensures MetadataOk(Merge(s, h, b))
  {
  }

  lemma ReturnDone(s: State, page: Ref, held: State, h: Ref, k: nat, freeCounts: seq<int>, freeCount: int)
    requires Returning(s, page, held, h, k) && Counted(s, freeCounts, freeCount)
    requires Shaped(held) && BlockOk(held, h)
    requires k < MAX_ORDER ==> var b := Buddy(held.regions, h, k);
               !IsData(held.regions, b) || (b in held.pages && (!held.pages[b].free || held.pages[b].order != k))
    ensures k <= MAX_ORDER && page.region < |freeCounts| && page in Live(s)
    ensures Freed(s, page, Release(held, h)) && ValidState(Release(held, h))
    ensures var size := Pow2(Live(s)[page]);
            Counted(Release(held, h), freeCounts[page.region := freeCounts[page.region] + size], freeCount + size)
  {
    hide FreePages, Live, BlockPages, Aligned, Structured, ListsOk, Coalesced, MetadataOk, RegionsOk;
    ValidParts(s);
    ReleaseTiled(held, h, k);
    var t := Release(held, h);
    assert BlockPages(page, Live(s)[page]) == FreePages(t) - FreePages(s);
    CountBlock(FreePages(t), page, Live(s)[page]);
    assert FreePages(t) - BlockPages(page, Live(s)[page]) == FreePages(s);
    ReleaseMetadata(held, h);
  }

  lemma ReleaseMetadata(s: State, h: Ref)
    requires Shaped(s) && h in s.head && s.pages[h].order <= MAX_ORDER && MetadataOk(s)
    ensures MetadataOk(Release(s, h))
  {
  }

  lemma ValidParts(s: State)
    requires ValidState(s)
    ensures Tiled(s) && Shaped(s)
  {
  }

  /** `held` is s with the wholly free block (h, k) of s taken off the lists and not yet given to anyone. */
  ghost predicate Holding(s: State, held: State, h: Ref, k: nat) {
    && ValidState(s) && ValidState(held) && IsHead(held, h) && held.pages[h] == Page(false, k)
    && held.regions == s.regions
    && BlockPages(h, k) <= FreePages(s) && FreePages(held) == FreePages(s) - BlockPages(h, k)
    && h !in Live(s) && Live(held) == Live(s)[h := k]
  }

  lemma HoldTake(s: State, h: Ref, k: nat)
    requires ValidState(s) && |s.lists| == MAX_ORDER + 1 && k <= MAX_ORDER && h in s.lists[k]
    ensures Shaped(s) && h in s.head && h in s.pages && s.pages[h].order == k
    ensures Holding(s, Take(s, h), h, k)
  {
    hide Live, FreePages, BlockPages, Covered, FreeBits, Coalesced, MetadataOk, RegionsOk;
    TakeTiled(s, h, k);
    FreeHeadNotLive(s, h, k);
    TakeMetadata(s, h);
    assert BlockOk(s, h);
    TakePages(s, h);
  }

  lemma FreeHeadNotLive(s: State, h: Ref, k: nat)
    requires Shaped(s) && IsFreeHead(s, h, k)
    ensures h !in Live(s)
  {
  }

  lemma SplitFacts(s: State, h: Ref, k: nat, b: Ref)
    requires Tiled(s) && IsHead(s, h) && s.pages[h] == Page(false, k + 1) && b == h.(index := h.index + Pow2(k))
    ensures Shaped(s) && Splittable(s, h, k, b) && k < MAX_ORDER && h.region < |s.regions|
    ensures b in s.head && b in s.pages && s.pages[b].free && b != h
  {
    SplittableHead(s, h, k);
  }

  lemma TakeMetadata(s: State, h: Ref)
    requires Shaped(s) && h in s.head && s.pages[h].order <= MAX_ORDER && MetadataOk(s)
    ensures MetadataOk(Take(s, h))
  {
  }

  lemma SplitMetadata(s: State, h: Ref, k: nat)
    requires Shaped(s) && h in s.head && s.pages[h].order == k + 1 <= MAX_ORDER && MetadataOk(s)
    requires h.(index := h.index + Pow2(k)) in s.head
    ensures MetadataOk(Split(s, h))
  {
  }

  lemma HoldSplit(s: State, held: State, h: Ref, k: nat)
    requires Holding(s, held, h, k + 1)
    ensures k < MAX_ORDER && Shaped(held) && h in held.head && held.pages[h].order == k + 1 && h.region < |s.regions|
    ensures var b := h.(index := h.index + Pow2(k)); b in held.pages && held.pages[b].free && b != h
    ensures Holding(s, Split(held, h), h, k)
  {
    hide FreePages, Live, BlockPages, Aligned, Tiled, Splittable, MetadataOk, RegionsOk;
    var b := h.(index := h.index + Pow2(k));
    SplitFacts(held, h, k, b);
    SplitMetadata(held, h, k);
    SplitTiled(held, h, k, b);
    SplitPages(held, h, k, b);
    HalvePages(h, k);
  }

  lemma HoldDone(s: State, t: State, h: Ref, k: nat, freeCounts: seq<int>, freeCount: int)
    requires Holding(s, t, h, k) && Counted(s, freeCounts, freeCount)
    ensures Allocated(s, k, h, t) && ValidState(t) && h.region < |freeCounts|
    ensures Counted(t, freeCounts[h.region := freeCounts[h.region] - Pow2(k)], freeCount - Pow2(k))
  {
    hide Live, Aligned, Covered, FreeBits, ListsOk, Coalesced, MetadataOk, RegionsOk, FreePages, BlockPages;
    assert BlockOk(t, h);
    CountBlock(FreePages(s), h, k);
  }

  /** A wholly free aligned run of 2^k pages puts a block of at least that order on some list. */
  lemma FreeRunListed(s: State, h: Ref, k: nat)
    requires Tiled(s) && k <= MAX_ORDER && WhollyFree(s.regions, FreePages(s), h, k)
    ensures exists j :: k <= j <= MAX_ORDER && s.lists[j] != []
  {
    var g := FreeRunInOneBlock(s, h, k);
    var j := s.pages[g].order;
    assert IsFreeHead(s, g, j);
    assert g in s.lists[j];
  }

  lemma NoFreeRun(s: State, order: nat)
    requires Tiled(s) && order <= MAX_ORDER && forall k :: order <= k <= MAX_ORDER ==> s.lists[k] == []
    ensures forall h :: !WhollyFree(s.regions, FreePages(s), h, order)
  {
    forall h ensures !WhollyFree(s.regions, FreePages(s), h, order) {
      if WhollyFree(s.regions, FreePages(s), h, order) { FreeRunListed(s, h, order); }
    }
  }

  lemma HalvePages(h: Ref, k: nat)
    ensures var b := h.(index := h.index + Pow2(k));
      BlockPages(h, k + 1) == BlockPages(h, k) + BlockPages(b, k) && BlockPages(h, k) !! BlockPages(b, k)
  {
    HalfBlocks(h, k);
    InBlockPages(h, k);
    InBlockPages(h, k + 1);
    InBlockPages(h.(index := h.index + Pow2(k)), k);
  }
}
