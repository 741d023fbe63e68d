/** What the 4-level tables of all address spaces mean, and the two ways they change. */
module PageTree {
  import opened Options

  const ENTRIES: nat := 512
  const HALF: nat := 256

  /** The bits of a table entry the kernel reads or writes, over the type of its address field. */
  datatype Entry<A> = Entry(present: bool, rw: bool, user: bool, nx: bool, global: bool, pat: bool, addr: A)

  type Pte = Entry<nat>

  const ZERO: Pte := Entry(false, false, false, false, false, false, 0)

  /** x86 flags of a mapping request. */
  datatype Flags = Flags(rw: bool, user: bool, nx: bool, global: bool, pat: bool)

  datatype Space = Kernel | User(id: nat)

  /** A present entry above the last level after a mapping below it: rights are only ever widened. */
  function Widened<A>(e: Entry<A>, f: Flags): Entry<A> {
    e.(nx := e.nx && f.nx, rw := e.rw || f.rw, user := e.user || f.user)
  }

  /** The entry made for a table that a mapping needs. */
  function TableEntry<A>(f: Flags, addr: A): Entry<A> {
    Entry(true, f.rw, f.user, f.nx, false, false, addr)
  }

  /** The last-level entry of a mapping. */
  function LeafEntry<A>(f: Flags, addr: A): Entry<A> {
    Entry(true, f.rw, f.user, f.nx, f.global, f.pat, addr)
  }

  /** A table (up to three indices) or a page (four) named by the indices that lead to it. */
  datatype Label = Label(space: Space, path: seq<nat>)

  /** Physical memory of the tables, and (proof-only) which frame holds which table. */
  datatype Tables = Tables(mem: map<nat, seq<Pte>>, node: map<Label, nat>)

  function Root(space: Space): Label { Label(space, []) }

  /** The upper half belongs to the kernel, whichever root it is reached from. */
  function Canon(space: Space, path: seq<nat>): Label {
    Label(if path != [] && path[0] >= HALF then Kernel else space, path)
  }

  function Child(l: Label, i: nat): Label { Canon(l.space, l.path + [i]) }

  predicate EntryAt(t: Tables, l: Label, i: nat) {
    l in t.node && t.node[l] in t.mem && i < |t.mem[t.node[l]]|
  }

  function Slot(t: Tables, l: Label, i: nat): Pte
    requires EntryAt(t, l, i)
  {
    t.mem[t.node[l]][i]
  }

  predicate ValidLabel(l: Label) {
    |l.path| <= 3 && (forall k :: 0 <= k < |l.path| ==> l.path[k] < ENTRIES) && Canon(l.space, l.path) == l
  }

  /** Each table has a frame of its own with 512 entries, and its parent table exists. */
  ghost predicate Framed(t: Tables) {
    && (forall l :: l in t.node ==> ValidLabel(l) && t.node[l] in t.mem && |t.mem[t.node[l]]| == ENTRIES)
    && (forall l, m :: l in t.node && m in t.node && t.node[l] == t.node[m] ==> l == m)
    && (forall l :: l in t.node && l.path != [] ==> Label(l.space, l.path[..|l.path| - 1]) in t.node)
    && Root(Kernel) in t.node
  }

  /** An entry above the last level is present exactly if the table it leads to exists, and points to its frame. */
  ghost predicate LinkedAt(t: Tables, l: Label, i: nat)
    requires EntryAt(t, l, i)
  {
    && (Slot(t, l, i).present <==> Child(l, i) in t.node)
    && (Slot(t, l, i).present ==> Slot(t, l, i).addr == t.node[Child(l, i)])
  }

  ghost predicate Linked(t: Tables)
    requires Framed(t)
  {
    forall l, i {:trigger LinkedAt(t, l, i)} :: l in t.node && |l.path| < 3 && 0 <= i < ENTRIES ==> LinkedAt(t, l, i)
  }

  /** Every root has its upper slots present, writable and executable, the kernel's only those before `bound`. */
  ghost predicate Open(t: Tables, bound: nat)
    requires Framed(t)
  {
    forall s, i {:trigger Slot(t, Root(s), i)} ::
      Root(s) in t.node && HALF <= i < ENTRIES && (s == Kernel ==> i < bound) ==>
        Slot(t, Root(s), i).present && Slot(t, Root(s), i).rw && !Slot(t, Root(s), i).nx
  }

  predicate Permits(parent: Pte, rw: bool, user: bool, nx: bool) {
    (rw ==> parent.rw) && (user ==> parent.user) && (!nx ==> !parent.nx)
  }

  /** An entry grants at least what each entry of the table it leads to grants. */
  ghost predicate GrantsAt(t: Tables, l: Label, i: nat, j: nat)
    requires Framed(t) && l in t.node && i < ENTRIES && Child(l, i) in t.node && j < ENTRIES
  {
    var e := Slot(t, Child(l, i), j);
    e.present ==> Permits(Slot(t, l, i), e.rw, e.user, e.nx)
  }

  ghost predicate Granting(t: Tables)
    requires Framed(t)
  {
    forall l, i, j {:trigger GrantsAt(t, l, i, j)} ::
      l in t.node && 0 <= i < ENTRIES && 0 <= j < ENTRIES && Child(l, i) in t.node && Child(l, i).space == l.space ==>
        GrantsAt(t, l, i, j)
  }

  ghost predicate TreeUpTo(t: Tables, bound: nat) {
    Framed(t) && Linked(t) && Open(t, bound) && Granting(t)
  }

  ghost predicate ValidTables(t: Tables) {
    TreeUpTo(t, ENTRIES)
  }

  lemma ValidFramed(t: Tables)
    requires ValidTables(t)
    ensures Framed(t)
  {
  }

  // ----- Translation

  /** The hardware's walk from the table in frame f along the remaining indices. */
  function Walk(mem: map<nat, seq<Pte>>, f: nat, path: seq<nat>): Option<Pte>
    requires path != []
    decreases |path|
  {
    if f !in mem || path[0] >= |mem[f]| || !mem[f][path[0]].present then None
    else if |path| == 1 then Some(mem[f][path[0]])
    else Walk(mem, mem[f][path[0]].addr, path[1..])
  }

  predicate IsPage(path: seq<nat>) {
    |path| == 4 && forall k :: 0 <= k < 4 ==> path[k] < ENTRIES
  }

  /** The flat page map: the leaf entry of a page, looked up by the page's name alone. */
  ghost function Leaf(t: Tables, page: Label): Option<Pte>
    requires Framed(t) && IsPage(page.path)
  {
    var l := Label(page.space, page.path[..3]);
    if l in t.node && Slot(t, l, page.path[3]).present then Some(Slot(t, l, page.path[3])) else None
  }

  lemma ChildOfPrefix(space: Space, path: seq<nat>, n: nat)
    requires n < |path|
    ensures Child(Canon(space, path[..n]), path[n]) == Canon(space, path[..n + 1])
  {
    assert path[..n] + [path[n]] == path[..n + 1];
  }

  /** Walking on from the table of a prefix. */
  lemma {:induction false} WalkFrom(t: Tables, space: Space, path: seq<nat>, n: nat)
    requires ValidTables(t) && IsPage(path) && n < 4 && Canon(space, path[..n]) in t.node
    ensures Walk(t.mem, t.node[Canon(space, path[..n])], path[n..]) == Leaf(t, Canon(space, path))
    decreases 4 - n
  {
    var l := Canon(space, path[..n]);
    ChildOfPrefix(space, path, n);
    assert path[n..][0] == path[n] && path[n..][1..] == path[n + 1..];
    if n < 3 {
      assert LinkedAt(t, l, path[n]);
      if Slot(t, l, path[n]).present {
        WalkFrom(t, space, path, n + 1);
      } else {
        NoTableBelow(t, space, path, n + 1, 3);
      }
    }
  }

  /** Below a missing table there is none. */
  lemma {:induction false} NoTableBelow(t: Tables, space: Space, path: seq<nat>, n: nat, m: nat)
    requires Framed(t) && 0 < n <= m <= |path| && Canon(space, path[..n]) !in t.node
    ensures Canon(space, path[..m]) !in t.node
  {
    if n < m {
      NoTableBelow(t, space, path, n, m - 1);
      var l := Canon(space, path[..m]);
      assert l.path[..|l.path| - 1] == path[..m - 1];
    }
  }

  /** The walk from the root of any space computes the flat page map. */
  lemma WalkIsLeaf(t: Tables, space: Space, path: seq<nat>)
    requires ValidTables(t) && IsPage(path) && Root(space) in t.node
    ensures Walk(t.mem, t.node[Root(space)], path) == Leaf(t, Canon(space, path))
  {
    WalkFrom(t, space, path, 0);
    assert path[0..] == path && path[..0] == [];
  }

  // ----- Updates

  ghost function SetSlot(t: Tables, l: Label, i: nat, e: Pte): Tables
    requires EntryAt(t, l, i)
  {
    t.(mem := t.mem[t.node[l] := t.mem[t.node[l]][i := e]])
  }

  /** A frame of zeroes. */
  function EmptyTable(): (table: seq<Pte>)
    ensures |table| == ENTRIES && forall i :: 0 <= i < ENTRIES ==> table[i] == ZERO
  {
    seq(ENTRIES, _ => ZERO)
  }

  /** A fresh zeroed frame becomes the table below slot i of l, which is set to e. */
  ghost function AddTable(t: Tables, l: Label, i: nat, frame: nat, e: Pte): Tables
    requires EntryAt(t, l, i)
  {
    var u := SetSlot(t, l, i, e);
    Tables(u.mem[frame := EmptyTable()], u.node[Child(l, i) := frame])
  }

  /** A fresh frame becomes the root of a new space, its upper half copied from the kernel's root. */
  ghost function AddRoot(t: Tables, id: nat, frame: nat): Tables
    requires Framed(t)
  {
    var kernel := t.mem[t.node[Root(Kernel)]];
    Tables(t.mem[frame := EmptyTable()[..HALF] + kernel[HALF..]], t.node[Root(User(id)) := frame])
  }

  predicate Covers(e: Pte, was: Pte) {
    Permits(e, was.rw, was.user, was.nx)
  }

  /** The slot that leads to table l grants what e grants. */
  ghost predicate ParentPermits(t: Tables, l: Label, e: Pte)
    requires Framed(t) && l in t.node
  {
    l.path != [] ==>
      var n := |l.path| - 1;
      var parent := Label(l.space, l.path[..n]);
      parent in t.node && Permits(Slot(t, parent, l.path[n]), e.rw, e.user, e.nx)
  }

  /** u is t with slot i of table l changed to e. */
  ghost predicate OneSlot(t: Tables, u: Tables, l: Label, i: nat, e: Pte)
    requires Framed(t) && Framed(u)
  {
    && u.node == t.node
    && forall m, j {:trigger Slot(u, m, j)} {:trigger Slot(t, m, j)} :: m in t.node && 0 <= j < ENTRIES ==>
         Slot(u, m, j) == if m == l && j == i then e else Slot(t, m, j)
  }

  lemma SetSlotIsOne(t: Tables, l: Label, i: nat, e: Pte)
    requires Framed(t) && EntryAt(t, l, i)
    ensures Framed(SetSlot(t, l, i, e)) && OneSlot(t, SetSlot(t, l, i, e), l, i, e)
  {
    var u := SetSlot(t, l, i, e);
    assert Framed(u);
    forall m, j | m in t.node && 0 <= j < ENTRIES
      ensures Slot(u, m, j) == if m == l && j == i then e else Slot(t, m, j)
    {
    }
  }

  lemma OneSlotLeaf(t: Tables, u: Tables, l: Label, i: nat, e: Pte, page: Label)
    requires Framed(t) && Framed(u) && OneSlot(t, u, l, i, e) && IsPage(page.path) && l in t.node
    ensures Leaf(u, page) == if page != Label(l.space, l.path + [i]) then Leaf(t, page)
                     else if e.present then Some(e) else None
  {
    assert page.path == page.path[..3] + [page.path[3]];
    if page == Label(l.space, l.path + [i]) { assert page.path[..3] == l.path; }
  }

  lemma OneSlotLinked(t: Tables, u: Tables, l: Label, i: nat, e: Pte)
    requires Framed(t) && Framed(u) && OneSlot(t, u, l, i, e) && Linked(t) && l in t.node && i < ENTRIES
    requires |l.path| < 3 ==> e.present == Slot(t, l, i).present && (e.present ==> e.addr == Slot(t, l, i).addr)
    ensures Linked(u)
  {
    forall m, j {:trigger LinkedAt(u, m, j)} | m in u.node && |m.path| < 3 && 0 <= j < ENTRIES
      ensures LinkedAt(u, m, j)
    {
      assert LinkedAt(t, m, j);
    }
  }

  lemma OneSlotUpper(t: Tables, u: Tables, l: Label, i: nat, e: Pte)
    requires Framed(t) && Framed(u) && OneSlot(t, u, l, i, e) && Open(t, ENTRIES) && l in t.node && i < ENTRIES
    requires |l.path| == 0 ==> e.present && Covers(e, Slot(t, l, i))
    ensures Open(u, ENTRIES)
  {
    forall s, j | Root(s) in u.node && HALF <= j < ENTRIES
      ensures Slot(u, Root(s), j).present && Slot(u, Root(s), j).rw && !Slot(u, Root(s), j).nx
    {
      assert Slot(t, Root(s), j).present;
    }
  }

  lemma OneSlotGrantsAt(t: Tables, u: Tables, l: Label, i: nat, e: Pte, m: Label, j: nat, k: nat)
    requires Framed(t) && Framed(u) && OneSlot(t, u, l, i, e) && Granting(t) && l in t.node && i < ENTRIES
    requires |l.path| < 3 ==> Covers(e, Slot(t, l, i))
    requires e.present ==> ParentPermits(t, l, e)
    requires m in t.node && j < ENTRIES && k < ENTRIES && Child(m, j) in t.node && Child(m, j).space == m.space
    ensures GrantsAt(u, m, j, k)
  {
    assert GrantsAt(t, m, j, k);
    assert (m.path + [j])[..|m.path|] == m.path;
  }

  lemma OneSlotGranting(t: Tables, u: Tables, l: Label, i: nat, e: Pte)
    requires Framed(t) && Framed(u) && OneSlot(t, u, l, i, e) && Granting(t) && l in t.node && i < ENTRIES
    requires |l.path| < 3 ==> Covers(e, Slot(t, l, i))
    requires e.present ==> ParentPermits(t, l, e)
    ensures Granting(u)
  {
    hide GrantsAt, Child, Covers, ParentPermits, Slot;
    forall m, j, k {:trigger GrantsAt(u, m, j, k)} |
      m in u.node && 0 <= j < ENTRIES && 0 <= k < ENTRIES && Child(m, j) in u.node && Child(m, j).space == m.space
      ensures GrantsAt(u, m, j, k)
    {
      OneSlotGrantsAt(t, u, l, i, e, m, j, k);
    }
  }

  /** Changing the rights of a present slot above the last level to ones that its parent grants. */
  lemma WidenSlot(t: Tables, l: Label, i: nat, e: Pte)
    requires ValidTables(t) && l in t.node && i < ENTRIES && |l.path| < 3
    requires Slot(t, l, i).present && e.present && e.addr == Slot(t, l, i).addr && Covers(e, Slot(t, l, i))
    requires ParentPermits(t, l, e)
    ensures var u := SetSlot(t, l, i, e);
      ValidTables(u) && u.node == t.node && forall page: Label :: IsPage(page.path) ==> Leaf(u, page) == Leaf(t, page)
  {
    hide Linked, Open, Granting, OneSlot;
    var u := SetSlot(t, l, i, e);
    SetSlotIsOne(t, l, i, e);
    OneSlotLinked(t, u, l, i, e);
    OneSlotUpper(t, u, l, i, e);
    OneSlotGranting(t, u, l, i, e);
    forall page: Label | IsPage(page.path) ensures Leaf(u, page) == Leaf(t, page) {
      OneSlotLeaf(t, u, l, i, e, page);
    }
  }

  /** Setting a slot of a last-level table changes the flat map at that page only. */
  lemma SetLeaf(t: Tables, l: Label, i: nat, e: Pte)
    requires ValidTables(t) && l in t.node && i < ENTRIES && |l.path| == 3
    requires e.present ==> ParentPermits(t, l, e)
    ensures var u := SetSlot(t, l, i, e);
      && ValidTables(u) && u.node == t.node
      && forall page: Label :: IsPage(page.path) ==>
           Leaf(u, page) == if page != Label(l.space, l.path + [i]) then Leaf(t, page)
                            else if e.present then Some(e) else None
  {
    hide Linked, Open, Granting, OneSlot;
    var u := SetSlot(t, l, i, e);
    SetSlotIsOne(t, l, i, e);
    OneSlotLinked(t, u, l, i, e);
    OneSlotUpper(t, u, l, i, e);
    OneSlotGranting(t, u, l, i, e);
    forall page: Label | IsPage(page.path)
      ensures Leaf(u, page) == if page != Label(l.space, l.path + [i]) then Leaf(t, page)
                               else if e.present then Some(e) else None
    {
      OneSlotLeaf(t, u, l, i, e, page);
    }
  }

  /** u is t with slot i of table l set to e and an empty table c added in a frame of its own. */
  ghost predicate OneTable(t: Tables, u: Tables, l: Label, i: nat, e: Pte, c: Label, frame: nat)
    requires Framed(t) && Framed(u)
  {
    && c !in t.node && u.node == t.node[c := frame]
    && (forall m, j {:trigger Slot(u, m, j)} {:trigger Slot(t, m, j)} :: m in t.node && 0 <= j < ENTRIES ==>
         Slot(u, m, j) == if m == l && j == i then e else Slot(t, m, j))
    && (forall j :: 0 <= j < ENTRIES ==> Slot(u, c, j) == ZERO)
  }

  /** The state before a table is added below an absent slot. */
  ghost predicate CanAdd(t: Tables, bound: nat, l: Label, i: nat, frame: nat, e: Pte) {
    && TreeUpTo(t, bound) && l in t.node && i < ENTRIES && |l.path| < 3 && !Slot(t, l, i).present
    && frame !in t.mem && e.present && e.addr == frame && ParentPermits(t, l, e)
  }

  lemma AbsentChild(t: Tables, bound: nat, l: Label, i: nat)
    requires TreeUpTo(t, bound) && l in t.node && i < ENTRIES && |l.path| < 3 && !Slot(t, l, i).present
    ensures Child(l, i) !in t.node && Child(l, i).space == l.space && ValidLabel(Child(l, i))
    ensures Child(l, i).path == l.path + [i]
  {
    assert LinkedAt(t, l, i);
    assert l.path == [] ==> l == Root(l.space);
  }

  lemma AddTableFramed(t: Tables, bound: nat, l: Label, i: nat, frame: nat, e: Pte)
    requires CanAdd(t, bound, l, i, frame, e)
    ensures Framed(AddTable(t, l, i, frame, e))
  {
    hide Linked, Open, Granting, Child;
    AbsentChild(t, bound, l, i);
    assert Child(l, i).path[..|l.path|] == l.path;
    var u := AddTable(t, l, i, frame, e);
    forall m, n | m in u.node && n in u.node && u.node[m] == u.node[n] ensures m == n {}
  }

  lemma AddTableSlots(t: Tables, bound: nat, l: Label, i: nat, frame: nat, e: Pte)
    requires CanAdd(t, bound, l, i, frame, e) && Framed(AddTable(t, l, i, frame, e))
    ensures OneTable(t, AddTable(t, l, i, frame, e), l, i, e, Child(l, i), frame)
  {
    hide Linked, Open, Granting, Child, Slot;
    AbsentChild(t, bound, l, i);
    var u := AddTable(t, l, i, frame, e);
    forall m, j {:trigger Slot(u, m, j)} | m in t.node && 0 <= j < ENTRIES
      ensures Slot(u, m, j) == if m == l && j == i then e else Slot(t, m, j)
    {
      AddTableOldSlot(t, l, i, frame, e, m, j);
    }
    forall j | 0 <= j < ENTRIES ensures Slot(u, Child(l, i), j) == ZERO { AddTableNewSlot(t, l, i, frame, e, j); }
  }

  lemma AddTableOldSlot(t: Tables, l: Label, i: nat, frame: nat, e: Pte, m: Label, j: nat)
    requires Framed(t) && l in t.node && i < ENTRIES && frame !in t.mem && Child(l, i) !in t.node
    requires m in t.node && j < ENTRIES
    ensures var u := AddTable(t, l, i, frame, e);
            EntryAt(u, m, j) && Slot(u, m, j) == if m == l && j == i then e else Slot(t, m, j)
  {
    hide Child;
  }

  lemma AddTableNewSlot(t: Tables, l: Label, i: nat, frame: nat, e: Pte, j: nat)
    requires Framed(t) && l in t.node && i < ENTRIES && frame !in t.mem && j < ENTRIES
    ensures var u := AddTable(t, l, i, frame, e); EntryAt(u, Child(l, i), j) && Slot(u, Child(l, i), j) == ZERO
  {
    hide Child;
  }

  lemma AddTableLinkedAt(t: Tables, bound: nat, u: Tables, l: Label, i: nat, e: Pte, frame: nat, m: Label, j: nat)
    requires CanAdd(t, bound, l, i, frame, e) && Framed(u) && OneTable(t, u, l, i, e, Child(l, i), frame)
    requires m in t.node && |m.path| < 3 && j < ENTRIES
    ensures LinkedAt(u, m, j)
  {
    hide Granting;
    AbsentChild(t, bound, l, i);
    assert LinkedAt(t, m, j);
    assert m.path == [] ==> m == Root(m.space);
    assert Child(m, j).path[..|m.path|] == m.path && Child(l, i).path[..|l.path|] == l.path;
  }

  lemma AddTableLinked(t: Tables, bound: nat, u: Tables, l: Label, i: nat, e: Pte, frame: nat)
    requires CanAdd(t, bound, l, i, frame, e) && Framed(u) && OneTable(t, u, l, i, e, Child(l, i), frame)
    ensures Linked(u)
  {
    hide Granting, Open, Linked, Child, LinkedAt;
    AbsentChild(t, bound, l, i);
    forall m, j {:trigger LinkedAt(u, m, j)} | m in u.node && |m.path| < 3 && 0 <= j < ENTRIES
      ensures LinkedAt(u, m, j)
    {
      if m == Child(l, i) {
        EmptyLinked(t, bound, u, l, i, e, frame, j);
      } else {
        AddTableLinkedAt(t, bound, u, l, i, e, frame, m, j);
      }
    }
    LinkedEverywhere(u);
  }

  lemma LinkedEverywhere(t: Tables)
    requires Framed(t)
    requires forall l, i {:trigger LinkedAt(t, l, i)} :: l in t.node && |l.path| < 3 && 0 <= i < ENTRIES ==>
      LinkedAt(t, l, i)
    ensures Linked(t)
  {
  }

  lemma EmptyLinked(t: Tables, bound: nat, u: Tables, l: Label, i: nat, e: Pte, frame: nat, j: nat)
    requires CanAdd(t, bound, l, i, frame, e) && Framed(u) && OneTable(t, u, l, i, e, Child(l, i), frame) && j < ENTRIES
    ensures LinkedAt(u, Child(l, i), j)
  {
    hide Granting, Open, Linked;
    AbsentChild(t, bound, l, i);
    var c := Child(l, i);
    assert Child(c, j).path[..|c.path|] == c.path;
  }

  lemma AddTableUpper(t: Tables, bound: nat, u: Tables, l: Label, i: nat, e: Pte, frame: nat)
    requires CanAdd(t, bound, l, i, frame, e) && Framed(u) && OneTable(t, u, l, i, e, Child(l, i), frame)
    ensures Open(u, bound)
  {
    AbsentChild(t, bound, l, i);
    forall s, j | Root(s) in u.node && HALF <= j < ENTRIES && (s == Kernel ==> j < bound)
      ensures Slot(u, Root(s), j).present && Slot(u, Root(s), j).rw && !Slot(u, Root(s), j).nx
    {
      assert Slot(t, Root(s), j).present;
    }
  }

  lemma AddTableGrantsAt(t: Tables, bound: nat, u: Tables, l: Label, i: nat, e: Pte, frame: nat, m: Label, j: nat,
                         k: nat)
    requires CanAdd(t, bound, l, i, frame, e) && Framed(u) && OneTable(t, u, l, i, e, Child(l, i), frame)
    requires m in u.node && j < ENTRIES && k < ENTRIES && Child(m, j) in u.node && Child(m, j).space == m.space
    ensures GrantsAt(u, m, j, k)
  {
    hide Linked, Open;
    AbsentChild(t, bound, l, i);
    assert Child(m, j).path[..|m.path|] == m.path && Child(m, j).path[|m.path|] == j;
    if Child(m, j) != Child(l, i) {
      if m == Child(l, i) { assert false; }
      assert GrantsAt(t, m, j, k);
    }
  }

  lemma AddTableGranting(t: Tables, bound: nat, u: Tables, l: Label, i: nat, e: Pte, frame: nat)
    requires CanAdd(t, bound, l, i, frame, e) && Framed(u) && OneTable(t, u, l, i, e, Child(l, i), frame)
    ensures Granting(u)
  {
    hide Linked, Open, OneTable, CanAdd, GrantsAt;
    forall m, j, k {:trigger GrantsAt(u, m, j, k)} |
      m in u.node && 0 <= j < ENTRIES && 0 <= k < ENTRIES && Child(m, j) in u.node && Child(m, j).space == m.space
      ensures GrantsAt(u, m, j, k)
    {
      AddTableGrantsAt(t, bound, u, l, i, e, frame, m, j, k);
    }
  }

  /** Adding an empty table below an absent slot keeps the flat map. */
  lemma GrowTree(t: Tables, bound: nat, l: Label, i: nat, frame: nat, e: Pte)
    requires CanAdd(t, bound, l, i, frame, e)
    ensures var u := AddTable(t, l, i, frame, e);
      && TreeUpTo(u, bound) && Child(l, i) !in t.node && Child(l, i).space == l.space
      && forall page: Label :: IsPage(page.path) ==> Leaf(u, page) == Leaf(t, page)
  {
    hide Linked, Open, Granting;
    var u := AddTable(t, l, i, frame, e);
    AbsentChild(t, bound, l, i);
    AddTableFramed(t, bound, l, i, frame, e);
    AddTableSlots(t, bound, l, i, frame, e);
    AddTableLinked(t, bound, u, l, i, e, frame);
    AddTableUpper(t, bound, u, l, i, e, frame);
    AddTableGranting(t, bound, u, l, i, e, frame);
    forall page: Label | IsPage(page.path) ensures Leaf(u, page) == Leaf(t, page) {
      assert Label(page.space, page.path[..3]) == Child(l, i) || Label(page.space, page.path[..3]) != Child(l, i);
    }
  }

  /** A space that no table belongs to yet, and a frame for its root. */
  ghost predicate CanRoot(t: Tables, id: nat, frame: nat) {
    ValidTables(t) && frame !in t.mem && forall l :: l in t.node ==> l.space != User(id)
  }

  lemma NewRootFramed(t: Tables, id: nat, frame: nat)
    requires CanRoot(t, id, frame)
    ensures var u := AddRoot(t, id, frame);
      && Framed(u)
      && (forall m, j {:trigger Slot(u, m, j)} {:trigger Slot(t, m, j)} :: m in t.node && 0 <= j < ENTRIES ==>
            Slot(u, m, j) == Slot(t, m, j))
      && (forall j :: 0 <= j < ENTRIES ==>
            Slot(u, Root(User(id)), j) == if j < HALF then ZERO else Slot(t, Root(Kernel), j))
  {
    hide Linked, Open, Granting;
    assert Root(User(id)) !in t.node;
  }

  lemma NewRootLinked(t: Tables, id: nat, frame: nat)
    requires CanRoot(t, id, frame) && Framed(AddRoot(t, id, frame))
    ensures Linked(AddRoot(t, id, frame))
  {
    hide AddRoot, Linked, LinkedAt, Slot, Child, Canon, Open, Granting;
    NewRootNode(t, id, frame);
    var u, r := AddRoot(t, id, frame), Root(User(id));
    forall m, j {:trigger LinkedAt(u, m, j)} | m in u.node && |m.path| < 3 && 0 <= j < ENTRIES
      ensures LinkedAt(u, m, j)
    {
      if m == r { NewRootLinkedAt(t, id, frame, j); } else { OldTableLinkedAt(t, id, frame, m, j); }
    }
    LinkedEverywhere(u);
  }

  lemma NewRootLinkedAt(t: Tables, id: nat, frame: nat, j: nat)
    requires CanRoot(t, id, frame) && Framed(AddRoot(t, id, frame)) && j < ENTRIES
    ensures EntryAt(AddRoot(t, id, frame), Root(User(id)), j) && LinkedAt(AddRoot(t, id, frame), Root(User(id)), j)
  {
    NewRootFramed(t, id, frame);
    NewRootNode(t, id, frame);
    hide AddRoot, Open, Granting;
    var r := Root(User(id));
    assert LinkedAt(t, Root(Kernel), j);
    assert Child(r, j).path == [j] && Child(Root(Kernel), j).path == [j];
  }

  lemma OldTableLinkedAt(t: Tables, id: nat, frame: nat, m: Label, j: nat)
    requires CanRoot(t, id, frame) && Framed(AddRoot(t, id, frame)) && m in t.node && |m.path| < 3 && j < ENTRIES
    ensures EntryAt(AddRoot(t, id, frame), m, j) && LinkedAt(AddRoot(t, id, frame), m, j)
  {
    NewRootFramed(t, id, frame);
    NewRootNode(t, id, frame);
    hide AddRoot, Open, Granting;
    assert LinkedAt(t, m, j);
    assert Child(m, j).path != [];
  }

  lemma NewRootUpper(t: Tables, id: nat, frame: nat)
    requires CanRoot(t, id, frame) && Framed(AddRoot(t, id, frame))
    ensures Open(AddRoot(t, id, frame), ENTRIES)
  {
    NewRootFramed(t, id, frame);
    var u := AddRoot(t, id, frame);
    forall s, j | Root(s) in u.node && HALF <= j < ENTRIES
      ensures Slot(u, Root(s), j).present && Slot(u, Root(s), j).rw && !Slot(u, Root(s), j).nx
    {
      var k := if s == User(id) then Kernel else s;
      assert Slot(t, Root(k), j).present;
    }
  }

  lemma NewRootGranting(t: Tables, id: nat, frame: nat)
    requires CanRoot(t, id, frame) && Framed(AddRoot(t, id, frame))
    ensures Granting(AddRoot(t, id, frame))
  {
    NewRootFramed(t, id, frame);
    var u := AddRoot(t, id, frame);
    forall m, j, k {:trigger GrantsAt(u, m, j, k)} |
      m in u.node && 0 <= j < ENTRIES && 0 <= k < ENTRIES && Child(m, j) in u.node && Child(m, j).space == m.space
      ensures GrantsAt(u, m, j, k)
    {
      assert Child(m, j).path != [];
      assert GrantsAt(t, m, j, k);
    }
  }

  /** A new address space translates its upper half as the kernel does, and nothing that was mapped changes. */
  lemma NewRoot(t: Tables, id: nat, frame: nat)
    requires CanRoot(t, id, frame)
    ensures var u := AddRoot(t, id, frame);
      && ValidTables(u) && forall page: Label :: IsPage(page.path) ==> Leaf(u, page) == Leaf(t, page)
  {
    hide Linked, Open, Granting, AddRoot;
    NewRootFramed(t, id, frame);
    NewRootLinked(t, id, frame);
    NewRootUpper(t, id, frame);
    NewRootGranting(t, id, frame);
    NewRootNode(t, id, frame);
  }

  lemma NewRootNode(t: Tables, id: nat, frame: nat)
    requires Framed(t)
    ensures AddRoot(t, id, frame).node == t.node[Root(User(id)) := frame]
  {
  }

  // ----- Effective rights

  /** Rights of a page: writable, accessible to user code, not executable. */
  datatype Rights = Rights(rw: bool, user: bool, nx: bool)

  /** Section 4.6 of the Intel SDM, Volume 3A: a page is writable (user-accessible) if every entry used to translate
      it says so, and not executable if any does. */
  function WalkRights(mem: map<nat, seq<Pte>>, f: nat, path: seq<nat>): Option<Rights>
    requires path != []
    decreases |path|
  {
    if f !in mem || path[0] >= |mem[f]| || !mem[f][path[0]].present then None
    else
      var e := mem[f][path[0]];
      if |path| == 1 then Some(Rights(e.rw, e.user, e.nx))
      else
        match WalkRights(mem, e.addr, path[1..])
        case None => None
        case Some(r) => Some(Rights(e.rw && r.rw, e.user && r.user, e.nx || r.nx))
  }

  /** The part of the address space whose pages a space maps itself. */
  predicate OwnHalf(space: Space, path: seq<nat>)
    requires path != []
  {
    space == Kernel || path[0] < HALF
  }

  lemma {:induction false} RightsFrom(t: Tables, space: Space, path: seq<nat>, n: nat)
    requires ValidTables(t) && IsPage(path) && n < 4 && Canon(space, path[..n]) in t.node
    requires OwnHalf(space, path) || n > 0
    ensures match Leaf(t, Canon(space, path))
            case None => WalkRights(t.mem, t.node[Canon(space, path[..n])], path[n..]) == None
            case Some(e) =>
              && WalkRights(t.mem, t.node[Canon(space, path[..n])], path[n..]) == Some(Rights(e.rw, e.user, e.nx))
              && Permits(Slot(t, Canon(space, path[..n]), path[n]), e.rw, e.user, e.nx)
    decreases 4 - n
  {
    var l := Canon(space, path[..n]);
    ChildOfPrefix(space, path, n);
    assert path[n..][0] == path[n] && path[n..][1..] == path[n + 1..];
    if n < 3 {
      assert LinkedAt(t, l, path[n]);
      if Slot(t, l, path[n]).present {
        RightsFrom(t, space, path, n + 1);
        assert GrantsAt(t, l, path[n], path[n + 1]);
      } else {
        NoTableBelow(t, space, path, n + 1, 3);
      }
    }
  }

  /** The rights the hardware grants on a page are those in its leaf entry, that is of its last mapping. Through the
      root of another space this holds of the kernel half for writing and execution; user access is never wider. */
  lemma EffectiveRights(t: Tables, space: Space, path: seq<nat>)
    requires ValidTables(t) && IsPage(path) && Root(space) in t.node
    ensures match Leaf(t, Canon(space, path))
            case None => WalkRights(t.mem, t.node[Root(space)], path) == None
            case Some(e) =>
              && WalkRights(t.mem, t.node[Root(space)], path).Some?
              && var r := WalkRights(t.mem, t.node[Root(space)], path).value;
                 r.rw == e.rw && r.nx == e.nx && (r.user ==> e.user) && (OwnHalf(space, path) ==> r.user == e.user)
  {
    hide Linked, Open, Granting, Leaf;
    assert path[0..] == path && path[..0] == [];
    if OwnHalf(space, path) {
      RightsFrom(t, space, path, 0);
    } else {
      SharedSlot(t, space, path);
      RightsFrom(t, space, path, 1);
    }
  }

  /** The upper slots of every root lead to the kernel's tables and take no right away but user access. */
  lemma SharedSlot(t: Tables, space: Space, path: seq<nat>)
    requires ValidTables(t) && IsPage(path) && Root(space) in t.node && path[0] >= HALF
    ensures Canon(space, path[..1]) in t.node
    ensures var e := Slot(t, Root(space), path[0]);
            e.present && e.rw && !e.nx && e.addr == t.node[Canon(space, path[..1])]
  {
    hide Granting;
    ChildOfPrefix(space, path, 0);
    assert path[..0] == [];
    assert Slot(t, Root(space), path[0]).present;
    assert LinkedAt(t, Root(space), path[0]);
  }

  // ----- Tables reached through present entries

  /** The table the hardware comes to from the one in frame f, along present entries. */
  function Reach(mem: map<nat, seq<Pte>>, f: nat, path: seq<nat>): Option<nat>
    decreases |path|
  {
    if path == [] then Some(f)
    else if f !in mem || path[0] >= |mem[f]| || !mem[f][path[0]].present then None
    else Reach(mem, mem[f][path[0]].addr, path[1..])
  }

  lemma {:induction false} ReachFrom(t: Tables, space: Space, path: seq<nat>, n: nat)
    requires ValidTables(t) && n <= |path| <= 3 && Canon(space, path[..n]) in t.node
    ensures var l := Canon(space, path);
      Reach(t.mem, t.node[Canon(space, path[..n])], path[n..]) == if l in t.node then Some(t.node[l]) else None
    decreases |path| - n
  {
    if n == |path| {
      assert path[..n] == path;
    } else {
      var l := Canon(space, path[..n]);
      ChildOfPrefix(space, path, n);
      assert path[n..][0] == path[n] && path[n..][1..] == path[n + 1..];
      assert path[..|path|] == path;
      if path[n] < ENTRIES {
        assert LinkedAt(t, l, path[n]);
        if Slot(t, l, path[n]).present {
          ReachFrom(t, space, path, n + 1);
        } else {
          NoTableBelow(t, space, path, n + 1, |path|);
        }
      }
    }
  }

  /** A table reached from two roots, or along two paths, is reached along one path, and through different roots only in
      the upper half: address spaces share nothing else. */
  lemma NoSharing(t: Tables, space: Space, p: seq<nat>, other: Space, q: seq<nat>, f: nat)
    requires ValidTables(t) && Root(space) in t.node && Root(other) in t.node && |p| <= 3 && |q| <= 3
    requires Reach(t.mem, t.node[Root(space)], p) == Some(f)
    requires Reach(t.mem, t.node[Root(other)], q) == Some(f)
    ensures p == q && (space == other || (p != [] && p[0] >= HALF))
  {
    hide Reach, Linked, Open, Granting;
    assert p[..0] == [] && p[0..] == p && q[..0] == [] && q[0..] == q;
    ReachFrom(t, space, p, 0);
    ReachFrom(t, other, q, 0);
    assert Canon(space, p) == Canon(other, q);
  }

  // ----- The kernel's root, from the boot loader's tree

  /** The boot loader's tree: its upper slots, where present, are unrestricted. */
  ghost predicate BootTree(t: Tables) {
    && Framed(t) && Linked(t) && Granting(t) && (forall l :: l in t.node ==> l.space == Kernel)
    && (forall i :: HALF <= i < ENTRIES && Slot(t, Root(Kernel), i).present ==>
          Slot(t, Root(Kernel), i).rw && !Slot(t, Root(Kernel), i).nx)
  }

  predicate Upper(l: Label) { l.path != [] && l.path[0] >= HALF }

  /** A new root frame that keeps only the upper half of the old root. */
  ghost function Rerooted(t: Tables, root: nat): Tables
    requires Framed(t)
  {
    Tables(t.mem[root := EmptyTable()[..HALF] + t.mem[t.node[Root(Kernel)]][HALF..]],
           (map l | l in t.node && Upper(l) :: t.node[l])[Root(Kernel) := root])
  }

  lemma RerootedSlots(t: Tables, root: nat)
    requires BootTree(t) && root !in t.mem
    ensures var u := Rerooted(t, root);
      && Framed(u) && (forall l :: l in u.node <==> l == Root(Kernel) || (l in t.node && Upper(l)))
      && (forall l, j {:trigger Slot(u, l, j)} :: l in t.node && Upper(l) && 0 <= j < ENTRIES ==>
        Slot(u, l, j) == Slot(t, l, j))
      && (forall j :: 0 <= j < ENTRIES ==>
            Slot(u, Root(Kernel), j) == if j < HALF then ZERO else Slot(t, Root(Kernel), j))
      && (forall l :: l in t.node && Upper(l) ==> u.node[l] == t.node[l])
  {
    hide Linked, Granting;
    var u := Rerooted(t, root);
    forall l | l in u.node && l.path != [] ensures Label(l.space, l.path[..|l.path| - 1]) in u.node {
      assert l in t.node;
    }
  }

  lemma RerootedTree(t: Tables, root: nat)
    requires BootTree(t) && root !in t.mem
    ensures TreeUpTo(Rerooted(t, root), HALF)
  {
    RerootedSlots(t, root);
    var u := Rerooted(t, root);
    hide Rerooted;
    forall l, i {:trigger LinkedAt(u, l, i)} | l in u.node && |l.path| < 3 && 0 <= i < ENTRIES
      ensures LinkedAt(u, l, i)
    {
      assert LinkedAt(t, l, i);
      assert l == Root(Kernel) && i < HALF ==> !Upper(Child(l, i));
    }
    forall l, i, j {:trigger GrantsAt(u, l, i, j)} |
      l in u.node && 0 <= i < ENTRIES && 0 <= j < ENTRIES && Child(l, i) in u.node && Child(l, i).space == l.space
      ensures GrantsAt(u, l, i, j)
    {
      assert GrantsAt(t, l, i, j);
    }
  }

  /** Exactly the upper half of what the boot loader had mapped stays mapped. */
  lemma RerootedLeaf(t: Tables, root: nat, page: Label)
    requires BootTree(t) && root !in t.mem && IsPage(page.path)
    ensures Framed(Rerooted(t, root))
    ensures Leaf(Rerooted(t, root), page) == if Upper(page) then Leaf(t, page) else None
  {
    RerootedSlots(t, root);
  }

  /** The entry made for a table that fills a gap: unrestricted, as it is copied into every address space. */
  function OpenEntry(frame: nat): Pte {
    Entry(true, true, false, false, false, false, frame)
  }

  /** Filling the first gap. */
  lemma FillGap(t: Tables, i: nat, frame: nat)
    requires TreeUpTo(t, i) && HALF <= i < ENTRIES && frame !in t.mem && !Slot(t, Root(Kernel), i).present
    ensures var u := AddTable(t, Root(Kernel), i, frame, OpenEntry(frame));
      && TreeUpTo(u, i + 1)
      && (forall j :: 0 <= j < ENTRIES ==>
            Slot(u, Root(Kernel), j) == if j == i then OpenEntry(frame) else Slot(t, Root(Kernel), j))
      && (forall s :: Root(s) in u.node <==> Root(s) in t.node) && u.node[Root(Kernel)] == t.node[Root(Kernel)]
      && forall page: Label :: IsPage(page.path) ==> Leaf(u, page) == Leaf(t, page)
  {
    hide Linked, Granting, AddTable, Leaf;
    GrowTree(t, i, Root(Kernel), i, frame, OpenEntry(frame));
    AddTableFramed(t, i, Root(Kernel), i, frame, OpenEntry(frame));
    AddTableSlots(t, i, Root(Kernel), i, frame, OpenEntry(frame));
  }

  // ----- What the calls do to the flat map

  /** One page mapped or unmapped, or tables added without a page changing (a new address space, a mapping that ran out
      of memory half-way). */
  datatype Event = MappedPage(page: Label, leaf: Pte) | UnmappedPage(page: Label) | Grown

  ghost predicate Step(t: Tables, e: Event, u: Tables) {
    && Framed(t) && ValidTables(u) && (forall s :: Root(s) in t.node ==> Root(s) in u.node)
    && match e
       case MappedPage(page, leaf) =>
         IsPage(page.path) && leaf.present &&
         forall p: Label :: IsPage(p.path) ==> Leaf(u, p) == if p == page then Some(leaf) else Leaf(t, p)
       case UnmappedPage(page) =>
         forall p: Label :: IsPage(p.path) ==> Leaf(u, p) == if p == page then None else Leaf(t, p)
       case Grown =>
         forall p: Label :: IsPage(p.path) ==> Leaf(u, p) == Leaf(t, p)
  }
}
