/** Mapping, unmapping and translating pages in 4-level tables (kernel/src/arch/x86_64/vmm.c). */
module PageTables {
  import opened Machine
  import opened Options
  import opened PageTree
  import Pmm
  import Frames

  /** The bytes one entry of a level spans; level 0 stands for the 8 bytes of an entry itself. */
  function Span(level: nat): (s: nat)
    ensures s > 0
  {
    if level == 0 then 8 else ENTRIES * Span(level - 1)
  }

  /** VADDR_TO_INDEX: nine bits from bit 9 * level + 3 on. */
  function Index(vaddr: nat, level: nat): (i: nat)
    ensures i < ENTRIES
  {
    (vaddr / Span(level)) % ENTRIES
  }

  function Path(vaddr: nat): (p: seq<nat>)
    ensures IsPage(p)
  {
    [Index(vaddr, 4), Index(vaddr, 3), Index(vaddr, 2), Index(vaddr, 1)]
  }

  /** Bits 12 to 47 of an address. */
  function PageNumber(vaddr: nat): nat {
    (vaddr / PAGE_SIZE) % 0x10_0000_0000
  }

  lemma SpanValues()
    ensures Span(1) == 0x1000 && Span(2) == 0x20_0000 && Span(3) == 0x4000_0000 && Span(4) == 0x80_0000_0000
  {
  }

  lemma PageDigits(vaddr: nat)
    ensures PageNumber(vaddr)
            == ((Index(vaddr, 4) * ENTRIES + Index(vaddr, 3)) * ENTRIES + Index(vaddr, 2)) * ENTRIES + Index(vaddr, 1)
  {
    hide PageNumber, Index, Span;
    IndexDigits(vaddr);
    PageNumberDigits(vaddr / PAGE_SIZE);
    PageNumberIs(vaddr);
  }

  /** The four indices, in the order the tables are walked, are the digits of bits 12 to 47 in base 512. */
  lemma PathDigits(vaddr: nat)
    ensures var p := Path(vaddr);
      PageNumber(vaddr) == ((p[0] * ENTRIES + p[1]) * ENTRIES + p[2]) * ENTRIES + p[3]
  {
    hide Index, PageNumber;
    PageDigits(vaddr);
    PathIndices(vaddr);
  }

  lemma PathIndices(vaddr: nat)
    ensures var p := Path(vaddr);
      p[0] == Index(vaddr, 4) && p[1] == Index(vaddr, 3) && p[2] == Index(vaddr, 2) && p[3] == Index(vaddr, 1)
  {
    hide Index;
  }

  lemma PageNumberIs(vaddr: nat)
    ensures PageNumber(vaddr) == (vaddr / PAGE_SIZE) % 0x10_0000_0000
  {
  }

  /** The indices are the digits of the page's address in base 512. */
  lemma IndexDigits(vaddr: nat)
    ensures var p := vaddr / PAGE_SIZE;
      && Index(vaddr, 1) == p % 512 && Index(vaddr, 2) == p / 512 % 512
      && Index(vaddr, 3) == p / 512 / 512 % 512 && Index(vaddr, 4) == p / 512 / 512 / 512 % 512
  {
    hide Span;
    SpanValues();
    DivBy512(vaddr, 0x1000);
    DivBy512(vaddr, 0x20_0000);
    DivBy512(vaddr, 0x4000_0000);
  }

  lemma DivBy512(v: nat, n: nat)
    requires n in {0x1000, 0x20_0000, 0x4000_0000}
    ensures v / (512 * n) == v / n / 512
  {
  }

  lemma PageNumberDigits(p: nat)
    ensures p % 0x10_0000_0000
            == ((p / 512 / 512 / 512 % 512 * 512 + p / 512 / 512 % 512) * 512 + p / 512 % 512) * 512 + p % 512
  {
    var q1 := p / 512;
    var q2 := q1 / 512;
    var q3 := q2 / 512;
    assert p == 512 * q1 + p % 512 && q1 == 512 * q2 + q1 % 512 && q2 == 512 * q3 + q2 % 512;
    assert q3 == 512 * (q3 / 512) + q3 % 512;
    Remainder36(p, q3 / 512, ((q3 % 512 * 512 + q2 % 512) * 512 + q1 % 512) * 512 + p % 512);
  }

  lemma Remainder36(p: nat, q: nat, r: nat)
    requires p == 0x10_0000_0000 * q + r && r < 0x10_0000_0000
    ensures p % 0x10_0000_0000 == r
  {
  }

  /** Two addresses use the same indices exactly if bits 12 to 47 agree. */
  lemma SamePage(a: nat, b: nat)
    ensures Path(a) == Path(b) <==> PageNumber(a) == PageNumber(b)
  {
    hide Index, PageNumber;
    PageDigits(a);
    PageDigits(b);
    var a4, a3, a2, a1 := Index(a, 4), Index(a, 3), Index(a, 2), Index(a, 1);
    var b4, b3, b2, b1 := Index(b, 4), Index(b, 3), Index(b, 2), Index(b, 1);
    SameDigit((a4 * ENTRIES + a3) * ENTRIES + a2, a1, (b4 * ENTRIES + b3) * ENTRIES + b2, b1);
    SameDigit(a4 * ENTRIES + a3, a2, b4 * ENTRIES + b3, b2);
    SameDigit(a4, a3, b4, b3);
    SameIndices(a, b);
  }

  lemma SameDigit(x: nat, i: nat, y: nat, j: nat)
    requires i < ENTRIES && j < ENTRIES
    ensures x * ENTRIES + i == y * ENTRIES + j <==> x == y && i == j
  {
  }

  lemma SameIndices(a: nat, b: nat)
    ensures Path(a) == Path(b) <==> forall level :: 1 <= level <= 4 ==> Index(a, level) == Index(b, level)
  {
    hide Index;
    var p, q := Path(a), Path(b);
    assert p[0] == Index(a, 4) && p[1] == Index(a, 3) && p[2] == Index(a, 2) && p[3] == Index(a, 1);
    assert q[0] == Index(b, 4) && q[1] == Index(b, 3) && q[2] == Index(b, 2) && q[3] == Index(b, 1);
  }

  /** pte_set_address keeps bits 12 to 51. */
  function AddressField(address: nat): nat {
    (address % PHYSICAL_LIMIT) / PAGE_SIZE * PAGE_SIZE
  }

  class PageTables {
    var mem: map<nat, seq<Pte>>
    var cr3: map<Space, nat>
    ghost var node: map<Label, nat>

    ghost function T(): Tables
      reads this
    {
      Tables(mem, node)
    }

    ghost predicate Valid()
      reads this
    {
      ValidTables(T()) && forall s :: (s in cr3 <==> Root(s) in node) && (s in cr3 ==> cr3[s] == node[Root(s)])
    }

    /** The tables the boot loader left; no address space uses them yet. */
    constructor (mem: map<nat, seq<Pte>>, ghost node: map<Label, nat>)
      ensures this.mem == mem && this.node == node && cr3 == map[]
    {
      this.mem, this.cr3, this.node := mem, map[], node;
    }

    /** x86_64_vmm_init: the kernel's address space, from the boot loader's root. */
    method Init(zone: Pmm.Zone, ghost used: set<nat>, bootRoot: nat) returns (ok: bool, ghost used': set<nat>)
      requires BootTree(T()) && bootRoot == node[Root(Kernel)]
      requires zone.Valid() && Frames.Reserved(zone.Snap(), used) && mem.Keys <= used
      modifies this, zone
      ensures zone.Valid() && Frames.Reserved(zone.Snap(), used') && used <= used'
      ensures !ok ==> Frames.Exhausted(zone.Snap())
      ensures ok ==> Valid() && cr3.Keys == {Kernel} && mem.Keys == old(mem.Keys) + (used' - used)
      ensures ok ==> forall page: Label :: IsPage(page.path) ==>
                       Leaf(T(), page) == if Upper(page) then old(Leaf(T(), page)) else None
    {
      hide BootTree, TreeUpTo, Leaf, Framed, Filling, Pmm.ValidState, Pmm.Counted, Frames.Reserved, Frames.Exhausted;
      ghost var boot := T();
      BootRow(boot);
      var page := Frames.AllocPage(zone, used);
      if page.None? { return false, used; }
      var root := page.value;
      used' := used + {root};
      mem := mem[root := EmptyTable()];
      FillStart(boot, root);
      ghost var t := Rerooted(boot, root);
      var i := HALF;
      while i < ENTRIES
        invariant HALF <= i <= ENTRIES && Filling(boot, root, mem, t, i)
        invariant root in mem && |mem[root]| == ENTRIES && bootRoot in mem && mem[bootRoot] == boot.mem[bootRoot]
        invariant zone.Valid() && Frames.Reserved(zone.Snap(), used')
        invariant used + {root} <= used' && mem.Keys == old(mem.Keys) + (used' - used)
      {
        var filled: bool;
        filled, used', t := FillSlot(zone, used', boot, bootRoot, root, t, i);
        if !filled { return false, used'; }
        i := i + 1;
      }
      FillDone(boot, root, mem, t);
      node := t.node;
      cr3 := map[Kernel := root];
      return true, used';
    }

    /** One turn of the loop of x86_64_vmm_init: slot i of the kernel's root. */
    method FillSlot(zone: Pmm.Zone, ghost used: set<nat>, ghost boot: Tables, bootRoot: nat, root: nat,
                    ghost t: Tables, i: nat)
      returns (ok: bool, ghost used': set<nat>, ghost t': Tables)
      requires Framed(boot) && Filling(boot, root, mem, t, i) && i < ENTRIES && bootRoot == boot.node[Root(Kernel)]
      requires root in mem && |mem[root]| == ENTRIES && bootRoot in mem && |mem[bootRoot]| == ENTRIES
      requires root != bootRoot
      requires zone.Valid() && Frames.Reserved(zone.Snap(), used) && mem.Keys <= used
      modifies this`mem, zone
      ensures zone.Valid() && Frames.Reserved(zone.Snap(), used') && used <= used'
      ensures !ok ==> Frames.Exhausted(zone.Snap())
      ensures ok ==> Filling(boot, root, mem, t', i + 1) && mem.Keys == old(mem.Keys) + (used' - used)
      ensures ok ==> |mem[root]| == ENTRIES && mem[bootRoot] == old(mem[bootRoot])
    {
      hide Framed, Filling, Pmm.ValidState, Pmm.Counted, Frames.Reserved, Frames.Exhausted;
      used', t' := used, t;
      if mem[bootRoot][i].present {
        FillPresent(boot, root, mem, t, i);
        mem := mem[root := mem[root][i := mem[bootRoot][i]]];
      } else {
        var gap := Frames.AllocPage(zone, used);
        if gap.None? { return false, used, t; }
        used' := used + {gap.value};
        AlignedField(gap.value);
        FillAbsent(boot, root, mem, t, i, gap.value);
        mem := mem[gap.value := EmptyTable()];
        var entry := ZERO.(present := true, rw := true);
        entry := entry.(addr := AddressField(gap.value));
        mem := mem[root := mem[root][i := entry]];
        t' := AddTable(t, Root(Kernel), i, gap.value, OpenEntry(gap.value));
      }
      ok := true;
    }

    /** arch_vmm_address_space_create for a space not used before. */
    method CreateSpace(zone: Pmm.Zone, ghost used: set<nat>, id: nat) returns (ok: bool, ghost used': set<nat>)
      requires Valid() && zone.Valid() && Kernel in cr3 && forall l :: l in node ==> l.space != User(id)
      requires Frames.Reserved(zone.Snap(), used) && mem.Keys <= used
      modifies this, zone
      ensures Valid() && zone.Valid() && Frames.Reserved(zone.Snap(), used')
      ensures used <= used' && mem.Keys == old(mem.Keys) + (used' - used)
      ensures !ok ==> Frames.Exhausted(zone.Snap())
      ensures cr3.Keys == old(cr3.Keys) + if ok then {User(id)} else {}
      ensures Step(old(T()), Grown, T())
    {
      hide TreeUpTo, ValidTables, Leaf, Framed, Pmm.ValidState, Pmm.Counted, Frames.Reserved, Frames.Exhausted;
      var page := Frames.AllocPage(zone, used);
      ValidFramed(T());
      if page.None? { return false, used; }
      var root := page.value;
      CreateFacts(T(), id, root);
      mem := mem[root := EmptyTable()];
      mem := mem[root := mem[root][..HALF] + mem[cr3[Kernel]][HALF..]];
      node := node[Root(User(id)) := root];
      cr3 := cr3[User(id) := root];
      assert T() == AddRoot(old(T()), id, root);
      return true, used + {root};
    }

    /** arch_vmm_ptm_physical */
    method Physical(space: Space, vaddr: nat) returns (res: Option<nat>)
      requires Valid() && space in cr3
      ensures res == match Leaf(T(), Canon(space, Path(vaddr)))
                     case None => None
                     case Some(e) => Some(e.addr)
    {
      var path := Path(vaddr);
      var table := cr3[space];
      WalkIsLeaf(T(), space, path);
      RootTable(T(), space);
      var level := 4;
      while level > 1
        invariant 1 <= level <= 4
        invariant Canon(space, path[..4 - level]) in node && table == node[Canon(space, path[..4 - level])]
        invariant Walk(mem, table, path[4 - level..]) == Leaf(T(), Canon(space, path))
      {
        var index := Index(vaddr, level);
        assert path[4 - level] == index;
        WalkStep(T(), space, path, 4 - level);
        if !mem[table][index].present { return None; }
        table := mem[table][index].addr;
        level := level - 1;
      }
      WalkStep(T(), space, path, 3);
      var entry := mem[table][Index(vaddr, 1)];
      if !entry.present { return None; }
      return Some(entry.addr);
    }

    /** arch_vmm_ptm_unmap */
    method Unmap(space: Space, vaddr: nat)
      requires Valid() && space in cr3
      modifies this`mem
      ensures Valid() && mem.Keys == old(mem.Keys)
      ensures Step(old(T()), UnmappedPage(Canon(space, Path(vaddr))), T())
    {
      hide ValidTables, Leaf, Framed;
      ValidFramed(T());
      var path := Path(vaddr);
      var table := cr3[space];
      ghost var t := T();
      RootTable(t, space);
      var level := 4;
      while level > 1
        invariant 1 <= level <= 4 && T() == t && mem == old(mem)
        invariant Canon(space, path[..4 - level]) in node && table == node[Canon(space, path[..4 - level])]
      {
        var index := Index(vaddr, level);
        assert path[4 - level] == index;
        WalkStep(t, space, path, 4 - level);
        if !mem[table][index].present { return; }
        table := mem[table][index].addr;
        level := level - 1;
      }
      WalkStep(t, space, path, 3);
      var index := Index(vaddr, 1);
      if !mem[table][index].present { return; }
      mem := mem[table := mem[table][index := ZERO]];
      LastLevel(t, space, path, ZERO);
    }

    /** arch_vmm_ptm_map, for an address in the half that the space owns; false stands for the out-of-memory panic. */
    method Map(zone: Pmm.Zone, ghost used: set<nat>, space: Space, vaddr: nat, paddr: nat, flags: Flags)
      returns (ok: bool, ghost used': set<nat>)
      requires Valid() && zone.Valid() && space in cr3 && OwnHalf(space, Path(vaddr))
      requires Frames.Reserved(zone.Snap(), used) && mem.Keys <= used
      modifies this`mem, this`node, zone
      ensures Valid() && zone.Valid() && Frames.Reserved(zone.Snap(), used')
      ensures !ok ==> Frames.Exhausted(zone.Snap())
      ensures used <= used' && mem.Keys == old(mem.Keys) + (used' - used)
      ensures var leaf := LeafEntry(flags, AddressField(paddr));
              Step(old(T()), if ok then MappedPage(Canon(space, Path(vaddr)), leaf) else Grown, T())
    {
      hide ValidTables, Leaf, Framed, Frames.Reserved, Frames.Exhausted, Pmm.ValidState, Pmm.Counted, SameLeaves,
        Step, Granted, IsPage;
      var path := Path(vaddr);
      var table := cr3[space];
      ghost var t0 := T();
      RootTable(t0, space);
      RootGranted(t0, space, flags);
      var level := 4;
      used' := used;
      while level > 1
        invariant 1 <= level <= 4 && zone.Valid() && cr3 == old(cr3)
        invariant ValidTables(T()) && SameRoots(t0, T()) && SameLeaves(t0, T())
        invariant Frames.Reserved(zone.Snap(), used')
        invariant used <= used' && mem.Keys == old(mem.Keys) + (used' - used)
        invariant Canon(space, path[..4 - level]) in node && table == node[Canon(space, path[..4 - level])]
        invariant Granted(T(), Canon(space, path[..4 - level]), flags)
      {
        assert path[4 - level] == Index(vaddr, level);
        ghost var t := T();
        var next: Option<nat>;
        next, used' := MapLevel(zone, used', space, path, 4 - level, table, flags);
        SameThrough(t0, t, T());
        if next.None? { NothingMapped(t0, T()); return false, used'; }
        GrantedTable(T(), Canon(space, path[..5 - level]), flags);
        table := next.value;
        level := level - 1;
      }
      PageMapped(t0, T(), space, path, flags, AddressField(paddr));
      var index := Index(vaddr, 1);
      mem := mem[table := mem[table][index := LeafEntry(flags, AddressField(paddr))]];
      ok := true;
    }

    /** One turn of the loop of arch_vmm_ptm_map: from the table of the first n indices to the next. */
    method MapLevel(zone: Pmm.Zone, ghost used: set<nat>, ghost space: Space, path: seq<nat>, n: nat, table: nat,
                    flags: Flags)
      returns (next: Option<nat>, ghost used': set<nat>)
      requires ValidTables(T()) && zone.Valid() && IsPage(path) && n < 3 && OwnHalf(space, path)
      requires Granted(T(), Canon(space, path[..n]), flags) && table == node[Canon(space, path[..n])]
      requires Frames.Reserved(zone.Snap(), used) && mem.Keys <= used
      modifies this`mem, this`node, zone
      ensures ValidTables(T()) && zone.Valid() && SameRoots(old(T()), T()) && SameLeaves(old(T()), T())
      ensures Frames.Reserved(zone.Snap(), used') && used <= used' && mem.Keys == old(mem.Keys) + (used' - used)
      ensures next.None? ==> Frames.Exhausted(zone.Snap())
      ensures next.Some? ==>
        Granted(T(), Canon(space, path[..n + 1]), flags) && next.value == node[Canon(space, path[..n + 1])]
    {
      hide ValidTables, Leaf, Framed, Frames.Reserved, Frames.Exhausted, Pmm.ValidState, Pmm.Counted, Granted,
        SameRoots, SameLeaves;
      var index := path[n];
      ghost var l := Canon(space, path[..n]);
      ghost var u: Tables;
      used' := used;
      GrantedTable(T(), l, flags);
      WalkStep(T(), space, path, n);
      var entry := mem[table][index];
      if entry.present {
        WidenStep(T(), space, path, n, flags);
        u := SetSlot(T(), l, index, Widened(entry, flags));
        if !flags.nx { entry := entry.(nx := false); }
      } else {
        var page := Frames.AllocPage(zone, used);
        if page.None? { SameStill(T()); return None, used; }
        used' := used + {page.value};
        GrowStep(T(), space, path, n, page.value, flags);
        u := AddTable(T(), l, index, page.value, TableEntry(flags, page.value));
        AlignedField(page.value);
        mem := mem[page.value := EmptyTable()];
        node := node[Child(l, index) := page.value];
        entry := ZERO.(present := true);
        entry := entry.(addr := AddressField(page.value));
        if flags.nx { entry := entry.(nx := true); }
      }
      entry := entry.(rw := entry.rw || flags.rw, user := entry.user || flags.user);
      mem := mem[table := mem[table][index := entry]];
      assert T() == u;
      next := Some(entry.addr);
    }
  }

  ghost predicate SameRoots(t: Tables, u: Tables) {
    forall s :: (Root(s) in t.node <==> Root(s) in u.node) && (Root(s) in t.node ==> t.node[Root(s)] == u.node[Root(s)])
  }

  ghost predicate SameLeaves(t: Tables, u: Tables) {
    Framed(t) && Framed(u) && forall page: Label :: IsPage(page.path) ==> Leaf(u, page) == Leaf(t, page)
  }

  /** Every slot on the way to table l grants what the mapping asks for: it is enough to look at the last one. */
  ghost predicate Granted(t: Tables, l: Label, flags: Flags) {
    Framed(t) && l in t.node && ParentPermits(t, l, LeafEntry(flags, 0))
  }

  lemma LastLevel(t: Tables, space: Space, path: seq<nat>, e: Pte)
    requires ValidTables(t) && IsPage(path) && Canon(space, path[..3]) in t.node
    requires e.present ==> ParentPermits(t, Canon(space, path[..3]), e)
    ensures var l := Canon(space, path[..3]);
            && EntryAt(t, l, path[3])
            && var u := SetSlot(t, l, path[3], e);
               && ValidTables(u) && u.node == t.node
               && forall page: Label :: IsPage(page.path) ==>
                    Leaf(u, page) == if page != Canon(space, path) then Leaf(t, page)
                                     else if e.present then Some(e) else None
  {
    var l := Canon(space, path[..3]);
    assert path[..3] + [path[3]] == path;
    SetLeaf(t, l, path[3], e);
  }

  /** The last step of a mapping, after tables were added or widened without a page changing. */
  lemma PageMapped(t0: Tables, t: Tables, space: Space, path: seq<nat>, flags: Flags, addr: nat)
    requires ValidTables(t) && IsPage(path) && Granted(t, Canon(space, path[..3]), flags)
    requires SameLeaves(t0, t) && SameRoots(t0, t)
    ensures var l, e := Canon(space, path[..3]), LeafEntry(flags, addr);
            && EntryAt(t, l, path[3]) && Framed(t0)
            && var u := SetSlot(t, l, path[3], e);
               ValidTables(u) && u.node == t.node && Step(t0, MappedPage(Canon(space, path), e), u)
  {
    hide ValidTables, Leaf, Framed, SetSlot, IsPage, Canon;
    LastLevel(t, space, path, LeafEntry(flags, addr));
    ValidFramed(t);
    CanonPage(space, path);
  }

  lemma CanonPage(space: Space, path: seq<nat>)
    ensures Canon(space, path).path == path
  {
  }

  lemma SameThrough(t: Tables, u: Tables, v: Tables)
    requires SameLeaves(t, u) && SameLeaves(u, v) && SameRoots(t, u) && SameRoots(u, v)
    ensures SameLeaves(t, v) && SameRoots(t, v)
  {
    hide Leaf, Framed;
  }

  lemma NothingMapped(t0: Tables, t: Tables)
    requires ValidTables(t) && SameLeaves(t0, t) && SameRoots(t0, t)
    ensures Step(t0, Grown, t)
  {
  }

  lemma CreateFacts(t: Tables, id: nat, root: nat)
    requires ValidTables(t) && root !in t.mem && forall l :: l in t.node ==> l.space != User(id)
    ensures Framed(t) && Root(Kernel) in t.node && t.node[Root(Kernel)] in t.mem
    ensures |t.mem[t.node[Root(Kernel)]]| == ENTRIES
    ensures var u := AddRoot(t, id, root);
      && ValidTables(u) && u.node == t.node[Root(User(id)) := root] && Framed(u)
      && forall page: Label :: IsPage(page.path) ==> Leaf(u, page) == Leaf(t, page)
  {
    hide Linked, Open, Granting, Leaf;
    NewRoot(t, id, root);
    NewRootNode(t, id, root);
  }

  /** Part-way through filling the kernel's root: `t` is the tree that `mem` will hold once slots from i on are set. */
  ghost predicate Filling(boot: Tables, root: nat, mem: map<nat, seq<Pte>>, t: Tables, i: nat) {
    && BootTree(boot) && root !in boot.mem && HALF <= i <= ENTRIES && TreeUpTo(t, i)
    && t.node[Root(Kernel)] == root && (forall s :: Root(s) in t.node ==> s == Kernel)
    && mem.Keys == t.mem.Keys && boot.mem.Keys <= mem.Keys
    && boot.mem[boot.node[Root(Kernel)]] == mem[boot.node[Root(Kernel)]]
    && (forall f :: f in mem && f != root ==> mem[f] == t.mem[f])
    && root in mem && |mem[root]| == ENTRIES
    && (forall k :: 0 <= k < ENTRIES ==> mem[root][k] == if k < i then Slot(t, Root(Kernel), k) else ZERO)
    && (forall k :: i <= k < ENTRIES ==> Slot(t, Root(Kernel), k) == Slot(boot, Root(Kernel), k))
    && (forall page: Label :: IsPage(page.path) ==> Leaf(t, page) == if Upper(page) then Leaf(boot, page) else None)
  }

  lemma FillStart(boot: Tables, root: nat)
    requires BootTree(boot) && root !in boot.mem
    ensures Framed(boot) && Filling(boot, root, boot.mem[root := EmptyTable()], Rerooted(boot, root), HALF)
  {
    hide Linked, Granting, Open, Leaf;
    RerootedTree(boot, root);
    RerootedSlots(boot, root);
    forall page: Label | IsPage(page.path)
      ensures Leaf(Rerooted(boot, root), page) == if Upper(page) then Leaf(boot, page) else None
    {
      RerootedLeaf(boot, root, page);
    }
  }

  lemma FillPresent(boot: Tables, root: nat, mem: map<nat, seq<Pte>>, t: Tables, i: nat)
    requires Filling(boot, root, mem, t, i) && i < ENTRIES && Framed(boot)
    requires boot.node[Root(Kernel)] in mem && i < |mem[boot.node[Root(Kernel)]]|
    requires mem[boot.node[Root(Kernel)]][i].present
    ensures Filling(boot, root, mem[root := mem[root][i := mem[boot.node[Root(Kernel)]][i]]], t, i + 1)
  {
    hide Linked, Granting, Leaf;
  }

  lemma FillAbsent(boot: Tables, root: nat, mem: map<nat, seq<Pte>>, t: Tables, i: nat, frame: nat)
    requires Filling(boot, root, mem, t, i) && i < ENTRIES && Framed(boot) && frame !in mem
    requires boot.node[Root(Kernel)] in mem && i < |mem[boot.node[Root(Kernel)]]|
    requires !mem[boot.node[Root(Kernel)]][i].present
    ensures EntryAt(t, Root(Kernel), i)
    ensures Filling(boot, root, mem[frame := EmptyTable()][root := mem[root][i := OpenEntry(frame)]],
                    AddTable(t, Root(Kernel), i, frame, OpenEntry(frame)), i + 1)
  {
    hide Linked, Granting, Leaf, Open;
    FillGap(t, i, frame);
  }

  lemma FillDone(boot: Tables, root: nat, mem: map<nat, seq<Pte>>, t: Tables)
    requires Filling(boot, root, mem, t, ENTRIES)
    ensures ValidTables(t) && mem == t.mem && t.node[Root(Kernel)] == root
    ensures forall s :: Root(s) in t.node <==> s == Kernel
    ensures Framed(t) && Framed(boot)
    ensures forall page: Label :: IsPage(page.path) ==> Leaf(t, page) == if Upper(page) then Leaf(boot, page) else None
  {
    hide Linked, Granting, Leaf, Open;
    assert mem[root] == t.mem[root] by {
      assert forall k :: 0 <= k < ENTRIES ==> t.mem[root][k] == Slot(t, Root(Kernel), k);
    }
  }

  lemma BootRow(t: Tables)
    requires BootTree(t)
    ensures Framed(t) && Root(Kernel) in t.node && t.node[Root(Kernel)] in t.mem
    ensures |t.mem[t.node[Root(Kernel)]]| == ENTRIES
  {
  }

  lemma AlignedField(address: nat)
    requires address % PAGE_SIZE == 0 && address < PHYSICAL_LIMIT
    ensures AddressField(address) == address
  {
  }

  lemma GrantedTable(t: Tables, l: Label, flags: Flags)
    requires Granted(t, l, flags)
    ensures l in t.node
  {
  }

  lemma SameStill(t: Tables)
    requires ValidTables(t)
    ensures SameRoots(t, t) && SameLeaves(t, t)
  {
  }

  lemma RootGranted(t: Tables, space: Space, flags: Flags)
    requires ValidTables(t) && Root(space) in t.node
    ensures Granted(t, Root(space), flags) && SameRoots(t, t) && SameLeaves(t, t)
  {
  }

  /** The slot that leads to a table grants what is present in it. */
  lemma ParentCovers(t: Tables, space: Space, path: seq<nat>, n: nat)
    requires ValidTables(t) && IsPage(path) && n < 4 && OwnHalf(space, path) && Canon(space, path[..n]) in t.node
    requires Slot(t, Canon(space, path[..n]), path[n]).present
    ensures ParentPermits(t, Canon(space, path[..n]), Slot(t, Canon(space, path[..n]), path[n]))
  {
    if n > 0 {
      var l, parent := Canon(space, path[..n]), Canon(space, path[..n - 1]);
      ChildOfPrefix(space, path, n - 1);
      assert l.path[..n - 1] == path[..n - 1];
      assert GrantsAt(t, parent, path[n - 1], path[n]);
    }
  }

  /** What the table of the first n + 1 indices is known to be after its slot was written. */
  lemma NextGranted(u: Tables, space: Space, path: seq<nat>, n: nat, flags: Flags)
    requires Framed(u) && IsPage(path) && n < 3 && OwnHalf(space, path)
    requires Canon(space, path[..n]) in u.node && Canon(space, path[..n + 1]) in u.node
    requires Permits(Slot(u, Canon(space, path[..n]), path[n]), flags.rw, flags.user, flags.nx)
    ensures Granted(u, Canon(space, path[..n + 1]), flags)
  {
    assert path[..n + 1][..n] == path[..n];
  }

  lemma WidenStep(t: Tables, space: Space, path: seq<nat>, n: nat, flags: Flags)
    requires ValidTables(t) && IsPage(path) && n < 3 && OwnHalf(space, path)
    requires Granted(t, Canon(space, path[..n]), flags)
    requires Slot(t, Canon(space, path[..n]), path[n]).present
    ensures var l := Canon(space, path[..n]);
            var u := SetSlot(t, l, path[n], Widened(Slot(t, l, path[n]), flags));
            && ValidTables(u) && SameRoots(t, u) && SameLeaves(t, u)
            && Granted(u, Canon(space, path[..n + 1]), flags)
            && Slot(t, l, path[n]).addr == u.node[Canon(space, path[..n + 1])]
  {
    hide Linked, Open, Granting, SetSlot, Leaf;
    var l := Canon(space, path[..n]);
    var e := Slot(t, l, path[n]);
    WalkStep(t, space, path, n);
    ParentCovers(t, space, path, n);
    WidenSlot(t, l, path[n], Widened(e, flags));
    SetSlotIsOne(t, l, path[n], Widened(e, flags));
    NextGranted(SetSlot(t, l, path[n], Widened(e, flags)), space, path, n, flags);
  }

  lemma GrowStep(t: Tables, space: Space, path: seq<nat>, n: nat, frame: nat, flags: Flags)
    requires ValidTables(t) && IsPage(path) && n < 3 && OwnHalf(space, path)
    requires Granted(t, Canon(space, path[..n]), flags)
    requires !Slot(t, Canon(space, path[..n]), path[n]).present && frame !in t.mem
    ensures var l := Canon(space, path[..n]);
            var u := AddTable(t, l, path[n], frame, TableEntry(flags, frame));
            && Child(l, path[n]) == Canon(space, path[..n + 1])
            && ValidTables(u) && SameRoots(t, u) && SameLeaves(t, u)
            && Granted(u, Canon(space, path[..n + 1]), flags)
  {
    hide Linked, Open, Granting, AddTable, Leaf;
    var l := Canon(space, path[..n]);
    var e := TableEntry(flags, frame);
    WalkStep(t, space, path, n);
    ChildOfPrefix(space, path, n);
    GrowTree(t, ENTRIES, l, path[n], frame, e);
    AddTableFramed(t, ENTRIES, l, path[n], frame, e);
    AddTableSlots(t, ENTRIES, l, path[n], frame, e);
    NextGranted(AddTable(t, l, path[n], frame, e), space, path, n, flags);
  }

  lemma RootTable(t: Tables, space: Space)
    requires ValidTables(t) && Root(space) in t.node
    ensures Canon(space, []) in t.node && Canon(space, []) == Root(space)
  {
  }

  /** One level of the walk, from the table of the first n indices. */
  lemma WalkStep(t: Tables, space: Space, path: seq<nat>, n: nat)
    requires ValidTables(t) && IsPage(path) && n < 4 && Canon(space, path[..n]) in t.node
    ensures var l := Canon(space, path[..n]); EntryAt(t, l, path[n]) && |l.path| == n && |t.mem[t.node[l]]| == ENTRIES
    ensures var l := Canon(space, path[..n]);
            var e := Slot(t, l, path[n]);
            && (!e.present ==> Leaf(t, Canon(space, path)) == None)
            && (e.present && n == 3 ==> Leaf(t, Canon(space, path)) == Some(e))
            && (e.present && n < 3 ==>
                  && Canon(space, path[..n + 1]) in t.node && e.addr == t.node[Canon(space, path[..n + 1])]
                  && Canon(space, path[..n + 1]) == Child(l, path[n]))
            && (n < 3 ==> (e.present <==> Canon(space, path[..n + 1]) in t.node))
  {
    var l := Canon(space, path[..n]);
    ChildOfPrefix(space, path, n);
    if n < 3 {
      assert LinkedAt(t, l, path[n]);
      if !Slot(t, l, path[n]).present { NoTableBelow(t, space, path, n + 1, 3); }
    }
  }
}
