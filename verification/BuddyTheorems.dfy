/** What holds of the buddy allocator over whole runs. */
module BuddyTheorems {
  import opened Machine
  import opened Seqs
  import opened Bits
  import opened BuddyState
  import opened BuddyCanonical
  import opened Pmm

  /** The list of order k holds exactly the maximal wholly free aligned runs of 2^k pages. */
  lemma FreeListsCanonical(s: State)
    requires ValidState(s)
    ensures |s.lists| == MAX_ORDER + 1
    ensures forall k, h :: 0 <= k <= MAX_ORDER ==> (h in s.lists[k] <==> MaximalFree(s.regions, FreePages(s), h, k))
  {
    hide MaximalFree, FreePages, Structured, ListsOk, Coalesced;
    ValidParts(s);
    TiledShape(s);
    forall k, h | 0 <= k <= MAX_ORDER ensures h in s.lists[k] <==> MaximalFree(s.regions, FreePages(s), h, k) {
      if h in s.lists[k] { ListedIsMaximal(s, h, k); }
      if MaximalFree(s.regions, FreePages(s), h, k) { MaximalIsListed(s, h, k); }
    }
  }

  /** An allocation breaks up no larger run than it must: among all maximal free runs that are large enough, the one it
      begins at is of the least order. */
  lemma LeastRunTaken(s: State, order: nat, h: Ref)
    requires ValidState(s) && BestFit(s.lists, order, h)
    ensures exists j :: order <= j <= MAX_ORDER && MaximalFree(s.regions, FreePages(s), h, j)
                        && forall g, i :: order <= i && MaximalFree(s.regions, FreePages(s), g, i) ==> j <= i
  {
    hide ValidState, MaximalFree, FreePages;
    FreeListsCanonical(s);
    var j :| order <= j < |s.lists| && s.lists[j] != [] && s.lists[j][0] == h
             && forall i :: order <= i < j ==> s.lists[i] == [];
    assert h in s.lists[j];
    assert forall g, i :: order <= i && MaximalFree(s.regions, FreePages(s), g, i) ==> j <= i;
  }

  lemma TiledShape(s: State)
    requires Tiled(s)
    ensures Shaped(s) && |s.lists| == MAX_ORDER + 1
  {
  }

  ghost predicate SameFreeBlocks(s: State, t: State) {
    |s.lists| == |t.lists| && forall k, h :: 0 <= k < |s.lists| ==> (h in s.lists[k] <==> h in t.lists[k])
  }

  /** Two states with the same free pages have the same free blocks, however they were reached. */
  lemma FreePagesFixFreeBlocks(s: State, t: State)
    requires ValidState(s) && ValidState(t) && s.regions == t.regions && FreePages(s) == FreePages(t)
    ensures SameFreeBlocks(s, t)
  {
    hide ValidState, MaximalFree, FreePages;
    FreeListsCanonical(s);
    FreeListsCanonical(t);
  }

  /** Every data page is free or in exactly one live block, and live blocks keep to the data pages. */
  lemma LivePartition(s: State, p: Ref)
    requires ValidState(s) && IsData(s.regions, p)
    ensures p !in FreePages(s) <==> exists h :: h in Live(s) && InBlock(p, h, Live(s)[h])
    ensures forall h, g ::
      h in Live(s) && g in Live(s) && InBlock(p, h, Live(s)[h]) && InBlock(p, g, Live(s)[g]) ==> h == g
  {
    assert CoveredAt(s, p);
    forall h | h in Live(s) && InBlock(p, h, Live(s)[h]) ensures s.head[p] == h { assert BlockOk(s, h); }
    if p !in FreePages(s) { assert s.head[p] in Live(s); }
  }

  /** The free pages are those no live block holds: they depend on the live blocks alone. */
  lemma LiveFixesFreePages(s: State, t: State)
    requires ValidState(s) && ValidState(t) && s.regions == t.regions && Live(s) == Live(t)
    ensures FreePages(s) == FreePages(t)
  {
    forall p ensures p in FreePages(s) <==> p in FreePages(t) {
      if IsData(s.regions, p) {
        LivePartition(s, p);
        LivePartition(t, p);
      }
    }
  }

  /** Live blocks never share a byte of physical memory, and start behind the header and the page array of their
      region. */
  lemma LiveBytesApart(s: State, h: Ref, g: Ref)
    requires ValidState(s) && h in Live(s) && g in Live(s) && h != g
    ensures h.region < |s.regions| && g.region < |s.regions|
    ensures var a, b := Paddr(s.regions, h), Paddr(s.regions, g);
            a + Pow2(Live(s)[h]) * PAGE_SIZE <= b || b + Pow2(Live(s)[g]) * PAGE_SIZE <= a
    ensures var r := s.regions[h.region];
            Paddr(s.regions, h) >= r.base + SIZEOF_REGION + SIZEOF_PAGE * r.pageCount
  {
    hide Aligned, Pow2, Coalesced, ListsOk, FreeBits, Covered, UsedPages;
    assert BlockOk(s, h) && BlockOk(s, g);
    MetadataInPlace(s, h.region);
    var j, k := Live(s)[h], Live(s)[g];
    LastPage(s, h);
    LastPage(s, g);
    if h.region == g.region {
      BlocksApart(s, h, g);
    } else {
      var lo, hi := if h.region < g.region then h else g, if h.region < g.region then g else h;
      assert RegionsApart(s.regions[lo.region], s.regions[hi.region]);
    }
  }

  lemma LastPage(s: State, h: Ref)
    requires ValidState(s) && h in Live(s)
    ensures IsData(s.regions, h) && h.index + Pow2(Live(s)[h]) <= s.regions[h.region].pageCount
  {
    hide Aligned, Pow2, Coalesced, ListsOk, FreeBits, Covered;
    assert BlockOk(s, h);
    var last := Ref(h.region, h.index + Pow2(Live(s)[h]) - 1);
    assert InBlock(last, h, Live(s)[h]);
  }

  lemma BlocksApart(s: State, h: Ref, g: Ref)
    requires ValidState(s) && h in Live(s) && g in Live(s) && h != g && h.region == g.region
    ensures h.index + Pow2(Live(s)[h]) <= g.index || g.index + Pow2(Live(s)[g]) <= h.index
  {
    hide Aligned, Pow2, Coalesced, ListsOk, FreeBits, Covered;
    assert BlockOk(s, h) && BlockOk(s, g);
    if InBlock(h, g, Live(s)[g]) { assert false; }
    if InBlock(g, h, Live(s)[h]) { assert false; }
  }

  // ----- Counters and lists

  /** The pages of all blocks in the lists, by their lengths alone. */
  function Listed(lists: seq<seq<Ref>>): nat {
    if lists == [] then 0
    else Listed(lists[..|lists| - 1]) + |lists[|lists| - 1]| * Pow2(|lists| - 1)
  }

  /** The blocks of a list that lie in region r. */
  function OfRegion(l: seq<Ref>, r: nat): seq<Ref> {
    if l == [] then []
    else OfRegion(l[..|l| - 1], r) + if l[|l| - 1].region == r then [l[|l| - 1]] else []
  }

  function ListsOfRegion(lists: seq<seq<Ref>>, r: nat): seq<seq<Ref>> {
    seq(|lists|, k requires 0 <= k < |lists| => OfRegion(lists[k], r))
  }

  function ListPages(l: seq<Ref>, k: nat): set<Ref> {
    if l == [] then {} else ListPages(l[..|l| - 1], k) + BlockPages(l[|l| - 1], k)
  }

  function AllPages(lists: seq<seq<Ref>>): set<Ref> {
    if lists == [] then {} else AllPages(lists[..|lists| - 1]) + ListPages(lists[|lists| - 1], |lists| - 1)
  }

  lemma {:induction false} OfRegionMembers(l: seq<Ref>, r: nat)
    requires NoDup(l)
    ensures NoDup(OfRegion(l, r)) && forall h :: h in OfRegion(l, r) <==> h in l && h.region == r
  {
    if l != [] {
      var m := |l| - 1;
      OfRegionMembers(l[..m], r);
      assert l == l[..m] + [l[m]] && l[m] !in l[..m];
      assert forall i :: 0 <= i < |OfRegion(l[..m], r)| ==> OfRegion(l[..m], r)[i] in OfRegion(l[..m], r);
    }
  }

  /** The pages of a block are those that `head` sends to it. */
  ghost predicate Owns(head: map<Ref, Ref>, h: Ref, k: nat) {
    |BlockPages(h, k)| == Pow2(k) && forall p :: p in BlockPages(h, k) <==> p in head && head[p] == h
  }

  ghost predicate OwnedList(head: map<Ref, Ref>, l: seq<Ref>, k: nat) {
    NoDup(l) && forall h :: h in l ==> Owns(head, h, k)
  }

  ghost predicate OwnedLists(head: map<Ref, Ref>, lists: seq<seq<Ref>>) {
    && (forall k {:trigger OwnedList(head, lists[k], k)} :: 0 <= k < |lists| ==> OwnedList(head, lists[k], k))
    && forall j, k :: 0 <= j < k < |lists| ==> forall h :: h in lists[k] ==> h !in lists[j]
  }

  lemma AddBlock(head: map<Ref, Ref>, l: seq<Ref>, pages: set<Ref>, h: Ref, k: nat)
    requires Owns(head, h, k) && h !in l && forall p :: p in pages <==> p in head && head[p] in l
    ensures |pages + BlockPages(h, k)| == |pages| + Pow2(k)
    ensures forall p :: p in pages + BlockPages(h, k) <==> p in head && head[p] in l + [h]
  {
    hide Pow2, BlockPages;
    assert pages !! BlockPages(h, k);
  }

  lemma {:induction false} ListPagesCount(head: map<Ref, Ref>, l: seq<Ref>, k: nat)
    requires OwnedList(head, l, k)
    ensures |ListPages(l, k)| == |l| * Pow2(k)
    ensures forall p :: p in ListPages(l, k) <==> p in head && head[p] in l
  {
    hide Pow2, BlockPages, Owns;
    if l != [] {
      var m := |l| - 1;
      assert l == l[..m] + [l[m]] && l[m] !in l[..m];
      ListPagesCount(head, l[..m], k);
      AddBlock(head, l[..m], ListPages(l[..m], k), l[m], k);
      OneMore(m, Pow2(k));
    }
  }

  lemma OneMore(m: nat, x: nat)
    ensures (m + 1) * x == m * x + x
  {
  }

  lemma OwnedFront(head: map<Ref, Ref>, lists: seq<seq<Ref>>)
    requires OwnedLists(head, lists) && lists != []
    ensures var n := |lists| - 1;
      && OwnedLists(head, lists[..n]) && OwnedList(head, lists[n], n)
      && forall h :: h in lists[n] ==> !InLists(h, lists[..n])
  {
    hide OwnedList;
    var n := |lists| - 1;
    forall k | 0 <= k < n ensures OwnedList(head, lists[..n][k], k) { assert OwnedList(head, lists[k], k); }
  }

  /** The pages of some lists and of one more. */
  lemma PagesJoin(head: map<Ref, Ref>, lists: seq<seq<Ref>>, l: seq<Ref>, pages: set<Ref>, more: set<Ref>)
    requires forall p :: p in pages <==> p in head && InLists(head[p], lists)
    requires forall p :: p in more <==> p in head && head[p] in l
    requires forall h :: h in l ==> !InLists(h, lists)
    ensures |pages + more| == |pages| + |more|
    ensures forall p :: p in pages + more <==> p in head && (InLists(head[p], lists) || head[p] in l)
  {
    hide InLists;
    assert pages !! more;
  }

  lemma {:induction false} AllPagesCount(head: map<Ref, Ref>, lists: seq<seq<Ref>>)
    requires OwnedLists(head, lists)
    ensures |AllPages(lists)| == Listed(lists)
    ensures forall p :: p in AllPages(lists) <==> p in head && InLists(head[p], lists)
  {
    hide Pow2, ListPages, OwnedList, OwnedLists;
    if lists != [] {
      hide InLists;
      var n := |lists| - 1;
      OwnedFront(head, lists);
      AllPagesCount(head, lists[..n]);
      ListPagesCount(head, lists[n], n);
      AddList(lists);
      PagesJoin(head, lists[..n], lists[n], AllPages(lists[..n]), ListPages(lists[n], n));
    }
  }

  ghost predicate InLists(h: Ref, lists: seq<seq<Ref>>) {
    exists k :: 0 <= k < |lists| && h in lists[k]
  }

  lemma AddList(lists: seq<seq<Ref>>)
    requires lists != []
    ensures var n := |lists| - 1; forall h :: InLists(h, lists) <==> InLists(h, lists[..n]) || h in lists[n]
  {
    var n := |lists| - 1;
    forall h ensures InLists(h, lists) <==> InLists(h, lists[..n]) || h in lists[n] {
      if InLists(h, lists) && h !in lists[n] {
        var k :| 0 <= k < |lists| && h in lists[k];
        assert h in lists[..n][k];
      }
      if InLists(h, lists[..n]) {
        var k :| 0 <= k < n && h in lists[..n][k];
        assert h in lists[k];
      }
    }
  }

  /** The counters of the zone and of its regions are what the free lists add up to, block by block. */
  lemma CountersAreLists(s: State, freeCounts: seq<int>, freeCount: int)
    requires ValidState(s) && Counted(s, freeCounts, freeCount)
    ensures freeCount == Listed(s.lists)
    ensures forall r :: 0 <= r < |freeCounts| ==> freeCounts[r] == Listed(ListsOfRegion(s.lists, r))
  {
    hide ValidState, Listed, FreePages, AllPages, OwnedLists, InLists, ListsOfRegion;
    ListsOwned(s);
    AllPagesCount(s.head, s.lists);
    assert AllPages(s.lists) == FreePages(s);
    forall r | 0 <= r < |freeCounts| ensures freeCounts[r] == Listed(ListsOfRegion(s.lists, r)) {
      OwnedOfRegion(s.head, s.lists, r);
      AllPagesCount(s.head, ListsOfRegion(s.lists, r));
      assert AllPages(ListsOfRegion(s.lists, r)) == InRegionPages(FreePages(s), r);
    }
  }

  lemma OwnedOfRegion(head: map<Ref, Ref>, lists: seq<seq<Ref>>, r: nat)
    requires OwnedLists(head, lists)
    ensures OwnedLists(head, ListsOfRegion(lists, r))
    ensures forall h :: InLists(h, ListsOfRegion(lists, r)) <==> InLists(h, lists) && h.region == r
  {
    hide Owns, NoDup, OfRegion;
    var part := ListsOfRegion(lists, r);
    forall k | 0 <= k < |part|
      ensures OwnedList(head, part[k], k) && forall h :: h in part[k] <==> h in lists[k] && h.region == r
    {
      assert OwnedList(head, lists[k], k);
      OfRegionMembers(lists[k], r);
    }
  }

  /** Each block in the lists owns its pages, and the free pages are those owned by a block in a list. */
  lemma ListsOwned(s: State)
    requires ValidState(s)
    ensures OwnedLists(s.head, s.lists)
    ensures forall p :: p in FreePages(s) <==> p in s.head && InLists(s.head[p], s.lists)
    ensures forall p :: p in s.head ==> s.head[p].region == p.region
  {
    hide Pow2, Coalesced, FreeBits, NoDup, Owns, BlockOk, BlockPages;
    forall p | p in s.head
      ensures s.head[p].region == p.region && (p in FreePages(s) <==> InLists(s.head[p], s.lists))
    {
      assert CoveredAt(s, p);
      var h := s.head[p];
      assert BlockOk(s, h);
      OrderBounded(s, h);
      if p in FreePages(s) { assert h in s.lists[s.pages[h].order]; }
    }
    forall k | 0 <= k < |s.lists| ensures OwnedList(s.head, s.lists[k], k) {
      forall h | h in s.lists[k] ensures Owns(s.head, h, k) { HeadOwns(s, h); }
    }
  }

  lemma OrderBounded(s: State, h: Ref)
    requires ValidState(s) && IsHead(s, h)
    ensures s.pages[h].order <= MAX_ORDER
  {
    assert BlockOk(s, h);
  }

  lemma HeadOwns(s: State, h: Ref)
    requires ValidState(s) && IsHead(s, h)
    ensures Owns(s.head, h, s.pages[h].order)
  {
    hide Pow2, ListsOk, Coalesced, InBlock, BlockPages;
    assert BlockOk(s, h);
    BlockPagesOfHead(s, h);
    BlockSize(h, s.pages[h].order);
  }

  lemma BlockSize(h: Ref, k: nat)
    ensures |BlockPages(h, k)| == Pow2(k)
  {
    BlockPagesCount(h, Pow2(k));
  }

  // ----- Runs

  datatype Event = Took(order: nat, block: Ref) | Gave(block: Ref)

  /** One call of pmm_alloc or pmm_free, as Zone.Alloc and Zone.Free are proved to perform it. */
  ghost predicate Step(s: State, e: Event, t: State) {
    match e
    case Took(order, h) => Allocated(s, order, h, t)
    case Gave(h) => Freed(s, h, t)
  }

  ghost predicate Run(states: seq<State>, events: seq<Event>) {
    && |states| == |events| + 1
    && forall i :: 0 <= i < |events| ==> Step(states[i], events[i], states[i + 1])
  }

  /** The live blocks that the calls alone account for. */
  function Ledger(live: map<Ref, nat>, events: seq<Event>): map<Ref, nat> {
    if events == [] then live
    else
      match events[|events| - 1]
      case Took(order, h) => Ledger(live, events[..|events| - 1])[h := order]
      case Gave(h) => Ledger(live, events[..|events| - 1]) - {h}
  }

  lemma {:induction false} RunLedger(states: seq<State>, events: seq<Event>)
    requires Run(states, events) && ValidState(states[0])
    ensures var last := states[|events|];
            ValidState(last) && last.regions == states[0].regions && Live(last) == Ledger(Live(states[0]), events)
    decreases |events|
  {
    hide ValidState, Live, FreePages, BlockPages, WhollyFree;
    if events != [] {
      var n := |events| - 1;
      assert Step(states[n], events[n], states[n + 1]);
      RunLedger(states[..n + 1], events[..n]);
    }
  }

  /** Whatever was taken and given in between, equal live blocks mean equal free blocks. */
  lemma RunRestores(states: seq<State>, events: seq<Event>)
    requires Run(states, events) && ValidState(states[0])
    requires Ledger(Live(states[0]), events) == Live(states[0])
    ensures SameFreeBlocks(states[0], states[|events|]) && FreePages(states[0]) == FreePages(states[|events|])
  {
    hide ValidState, Live, FreePages;
    RunLedger(states, events);
    LiveFixesFreePages(states[0], states[|events|]);
    FreePagesFixFreeBlocks(states[0], states[|events|]);
  }

  /** Giving back everything, in any order, rebuilds the blocks of the freshly tiled regions. */
  lemma FreeingAllRebuilds(initial: State, states: seq<State>, events: seq<Event>)
    requires ValidState(initial) && Live(initial) == map[]
    requires Run(states, events) && ValidState(states[0]) && states[0].regions == initial.regions
    requires Ledger(Live(states[0]), events) == map[]
    ensures SameFreeBlocks(initial, states[|events|])
  {
    hide ValidState, Live, FreePages;
    RunLedger(states, events);
    LiveFixesFreePages(initial, states[|events|]);
    FreePagesFixFreeBlocks(initial, states[|events|]);
  }

  /** An allocation undone at once leaves the same live blocks and the same free blocks. */
  lemma AllocThenFree(s: State, order: nat, h: Ref, t: State, u: State)
    requires Allocated(s, order, h, t) && Freed(t, h, u)
    ensures Live(u) == Live(s) && SameFreeBlocks(s, u)
  {
    hide ValidState, FreePages, BlockPages, WhollyFree, Live;
    ValidParts(s);
    ValidParts(u);
    assert Live(u) == Live(s);
    LiveFixesFreePages(s, u);
    FreePagesFixFreeBlocks(s, u);
  }
}
