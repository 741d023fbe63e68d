/** What user addresses stand for: translations, the frames behind them and the bytes in those frames. */
module UserBytes {
  import opened Machine
  import opened Bytes
  import opened Options
  import opened PageTree
  import opened Segments
  import opened AddressSpaces
  import opened PageTables
  import PteBits

  /** User addresses lie below 2^47. */
  const USER_LIMIT: nat := 0x8000_0000_0000

  /** The page, in one address space, that a frame was handed out for. */
  datatype Owner = Owner(space: Space, page: nat)

  /** Tables, contents of the frames handed out for user pages, and (proof-only) what each was handed out for. */
  datatype Image = Image(t: Tables, data: map<nat, seq<byte>>, owner: map<nat, Owner>)

  // ----- Addresses

  lemma UserHalf(a: nat)
    requires a < USER_LIMIT
    ensures Path(a)[0] < HALF
  {
    SpanValues();
    assert a / 0x80_0000_0000 < HALF;
  }

  /** Two user addresses are translated through the same entry exactly if they lie in one page. */
  lemma UserPages(id: Space, a: nat, b: nat)
    requires a < USER_LIMIT && b < USER_LIMIT
    ensures Canon(id, Path(a)) == Label(id, Path(a)) && OwnHalf(id, Path(a))
    ensures Canon(id, Path(a)) == Canon(id, Path(b)) <==> a / PAGE_SIZE == b / PAGE_SIZE
  {
    hide Path, PageNumber;
    UserHalf(a);
    UserHalf(b);
    SamePage(a, b);
    UserPageNumber(a);
    UserPageNumber(b);
  }

  lemma UserPageNumber(a: nat)
    requires a < USER_LIMIT
    ensures PageNumber(a) == a / PAGE_SIZE
  {
  }

  /** User addresses of different spaces never share an entry. */
  lemma OtherSpace(id: Space, a: nat, other: Space, b: nat)
    requires a < USER_LIMIT && b < USER_LIMIT && id != other
    ensures Canon(id, Path(a)) != Canon(other, Path(b))
  {
    hide Path;
    UserPages(id, a, a);
    UserPages(other, b, b);
  }

  /** The last-level entry for an address, if present. */
  ghost function PageAt(t: Tables, id: Space, a: nat): Option<Pte>
    requires Framed(t)
  {
    Leaf(t, Canon(id, Path(a)))
  }

  ghost function Translate(t: Tables, id: Space, a: nat): Option<nat>
    requires Framed(t)
  {
    match PageAt(t, id, a)
    case None => None
    case Some(e) => Some(e.addr)
  }

  /** Two spaces of tables agree on an address. */
  ghost predicate SamePte(t: Tables, u: Tables, id: Space, a: nat)
    requires Framed(t) && Framed(u)
  {
    PageAt(u, id, a) == PageAt(t, id, a) && Translate(u, id, a) == Translate(t, id, a)
  }

  // ----- Protection

  /** Bits of a vmm_protection_t. */
  const PROT_READ: nat := 2
  const PROT_WRITE: nat := 4
  const PROT_EXEC: nat := 8

  predicate Has(prot: nat, bit: nat)
    requires bit > 0
  {
    prot / bit % 2 == 1
  }

  predicate Readable(prot: nat) { Has(prot, PROT_READ) }

  /** A user page with exactly the rights of a protection. */
  predicate GrantsOnly(e: Pte, prot: nat) {
    e.rw == Has(prot, PROT_WRITE) && e.user && e.nx == !Has(prot, PROT_EXEC) && !e.global && !e.pat
  }

  function PageBase(a: nat): nat { a / PAGE_SIZE * PAGE_SIZE }

  // ----- Bytes

  /** The byte at a virtual address, if its page is present. */
  ghost function ByteAt(s: Image, id: Space, a: nat): Option<byte>
    requires Framed(s.t)
  {
    match Translate(s.t, id, a)
    case None => None
    case Some(f) => if f in s.data && |s.data[f]| == PAGE_SIZE then Some(s.data[f][a % PAGE_SIZE]) else None
  }

  /** Present pages lie in segments and have exactly the rights of these, and each has a frame that was handed out for
      it and for no other page. */
  ghost predicate Backed(s: Image, id: Space, segs: seq<Segment>)
    requires Framed(s.t)
  {
    forall a: nat {:trigger Translate(s.t, id, a)} :: a < USER_LIMIT && Translate(s.t, id, a).Some? ==>
      var f := Translate(s.t, id, a).value;
      && Mapped(segs, a) && f in s.data && f in s.owner && s.owner[f] == Owner(id, a / PAGE_SIZE)
      && At(segs, a).Some? && PageAt(s.t, id, a).Some? && GrantsOnly(PageAt(s.t, id, a).value, At(segs, a).value.prot)
  }

  predicate PageSized(data: map<nat, seq<byte>>) {
    forall f :: f in data ==> |data[f]| == PAGE_SIZE
  }

  /** No byte of the space that could be read has changed, except in [lo, hi). */
  ghost predicate Preserved(s: Image, u: Image, id: Space, lo: nat, hi: nat)
    requires Framed(s.t) && Framed(u.t)
  {
    forall a: nat {:trigger ByteAt(u, id, a)} {:trigger ByteAt(s, id, a)} ::
      a < USER_LIMIT && !(lo <= a < hi) && ByteAt(s, id, a).Some? ==> ByteAt(u, id, a) == ByteAt(s, id, a)
  }

  /** All other spaces translate as before, and the frames handed out to them are as they were. */
  ghost predicate Untouched(s: Image, u: Image, id: Space)
    requires Framed(s.t) && Framed(u.t)
  {
    && (forall other: Space, a: nat {:trigger Translate(u.t, other, a)} {:trigger SamePte(s.t, u.t, other, a)} ::
          other != id && a < USER_LIMIT ==> SamePte(s.t, u.t, other, a))
    && (forall f {:trigger f in s.owner} :: f in s.owner && s.owner[f].space != id ==>
          && f in u.owner && u.owner[f] == s.owner[f]
          && (f in s.data ==> f in u.data && u.data[f] == s.data[f]))
  }

  /** What a call in one space that may write [lo, hi) leaves behind. */
  ghost predicate Confined(s: Image, u: Image, id: Space, lo: nat, hi: nat) {
    Framed(s.t) && Framed(u.t) && Preserved(s, u, id, lo, hi) && Untouched(s, u, id)
  }

  lemma ConfinedNothing(s: Image, id: Space, lo: nat, hi: nat)
    requires Framed(s.t)
    ensures Confined(s, s, id, lo, hi)
  {
  }

  lemma ConfinedThrough(s: Image, u: Image, v: Image, id: Space, lo: nat, hi: nat)
    requires Confined(s, u, id, lo, hi) && Confined(u, v, id, lo, hi)
    ensures Confined(s, v, id, lo, hi)
  {
    hide Framed, ByteAt, Translate, PageAt;
    forall other: Space, a: nat {:trigger SamePte(s.t, v.t, other, a)} | other != id && a < USER_LIMIT
      ensures SamePte(s.t, v.t, other, a)
    {
      assert SamePte(s.t, u.t, other, a) && SamePte(u.t, v.t, other, a);
    }
  }

  lemma ConfinedWider(s: Image, u: Image, id: Space, lo: nat, hi: nat, l: nat, h: nat)
    requires Confined(s, u, id, l, h) && (l < h ==> lo <= l && h <= hi)
    ensures Confined(s, u, id, lo, hi)
  {
    hide Framed, ByteAt, Untouched;
  }

  /** Isolation: whatever was done in one space, any other keeps its pages and every byte readable in it. */
  lemma OthersKeep(s: Image, u: Image, id: Space, lo: nat, hi: nat, other: Space, segs: seq<Segment>)
    requires Confined(s, u, id, lo, hi) && other != id && Backed(s, other, segs)
    ensures Backed(u, other, segs)
    ensures forall a: nat {:trigger ByteAt(u, other, a)} :: a < USER_LIMIT ==>
      ByteAt(u, other, a) == ByteAt(s, other, a)
  {
    hide Framed, Translate, Mapped, Preserved;
    forall a: nat {:trigger ByteAt(u, other, a)} | a < USER_LIMIT ensures ByteAt(u, other, a) == ByteAt(s, other, a) {
      assert SamePte(s.t, u.t, other, a);
    }
  }

  /** The bytes found from address a on. */
  ghost predicate Holds(s: Image, id: Space, a: nat, bytes: seq<byte>)
    requires Framed(s.t)
  {
    forall b: nat {:trigger ByteAt(s, id, b)} :: a <= b < a + |bytes| ==> ByteAt(s, id, b) == Some(bytes[b - a])
  }

  /** What a copy loop has written so far: `bytes` are in place from address a on, and nothing else has changed. */
  ghost predicate Progress(s: Image, u: Image, id: Space, a: nat, bytes: seq<byte>) {
    Confined(s, u, id, a, a + |bytes|) && Holds(u, id, a, bytes)
  }

  /** What a copy loop has read so far: nothing has changed, and `bytes` are what is there. */
  ghost predicate Gathered(s: Image, u: Image, id: Space, a: nat, bytes: seq<byte>) {
    Confined(s, u, id, 0, 0) && Holds(u, id, a, bytes)
  }

  lemma NothingYet(s: Image, id: Space, a: nat)
    requires Framed(s.t)
    ensures Progress(s, s, id, a, []) && Gathered(s, s, id, a, [])
  {
    ConfinedNothing(s, id, a, a);
    ConfinedNothing(s, id, 0, 0);
  }

  /** A page is resolved, then its bytes are read. */
  lemma GatherStep(s: Image, u: Image, v: Image, id: Space, a: nat, m: seq<byte>, n: seq<byte>)
    requires Gathered(s, u, id, a, m) && Confined(u, v, id, 0, 0) && Holds(v, id, a + |m|, n)
    requires a + |m| + |n| <= USER_LIMIT
    ensures Gathered(s, v, id, a, m + n)
  {
    hide Framed, ByteAt, Untouched;
    ConfinedThrough(s, u, v, id, 0, 0);
  }

  /** A page is resolved, then its bytes are written. */
  lemma ProgressStep(s: Image, u: Image, v: Image, w: Image, id: Space, a: nat, m: seq<byte>, n: seq<byte>)
    requires Progress(s, u, id, a, m) && Confined(u, v, id, 0, 0) && Progress(v, w, id, a + |m|, n)
    requires a + |m| + |n| <= USER_LIMIT
    ensures Progress(s, w, id, a, m + n)
  {
    hide Framed, ByteAt, Untouched;
    var hi := a + |m + n|;
    ConfinedWider(s, u, id, a, hi, a, a + |m|);
    ConfinedWider(u, v, id, a, hi, 0, 0);
    ConfinedWider(v, w, id, a, hi, a + |m|, hi);
    ConfinedThrough(s, u, v, id, a, hi);
    ConfinedThrough(s, v, w, id, a, hi);
  }

  /** A page is resolved, and nothing is written or read. */
  lemma ProgressHeld(s: Image, u: Image, v: Image, id: Space, a: nat, m: seq<byte>)
    requires Progress(s, u, id, a, m) && Confined(u, v, id, 0, 0) && a + |m| <= USER_LIMIT
    ensures Progress(s, v, id, a, m)
  {
    hide Framed, ByteAt, Untouched;
    ConfinedWider(u, v, id, a, a + |m|, 0, 0);
    ConfinedThrough(s, u, v, id, a, a + |m|);
  }

  lemma GatheredHeld(s: Image, u: Image, v: Image, id: Space, a: nat, m: seq<byte>)
    requires Gathered(s, u, id, a, m) && Confined(u, v, id, 0, 0) && a + |m| <= USER_LIMIT
    ensures Gathered(s, v, id, a, m)
  {
    hide Framed, ByteAt, Untouched;
    ConfinedThrough(s, u, v, id, 0, 0);
  }

  /** Bytes stay where they are while calls write elsewhere. */
  lemma StillHolds(s: Image, u: Image, id: Space, lo: nat, hi: nat, a: nat, bytes: seq<byte>)
    requires Confined(s, u, id, lo, hi) && Holds(s, id, a, bytes) && a + |bytes| <= USER_LIMIT
    requires lo >= hi || hi <= a || a + |bytes| <= lo
    ensures Holds(u, id, a, bytes)
  {
    hide Framed, ByteAt, Untouched;
  }

  lemma SameBytes(s: Image, id: Space, a: nat, m: seq<byte>, n: seq<byte>)
    requires Framed(s.t) && Holds(s, id, a, m) && Holds(s, id, a, n) && |m| == |n|
    ensures m == n
  {
    hide Framed, ByteAt;
    forall k | 0 <= k < |m| ensures m[k] == n[k] {
      assert ByteAt(s, id, a + k) == Some(n[a + k - a]);
      assert ByteAt(s, id, a + k) == Some(m[a + k - a]);
    }
  }

  /** What was written is what is read. */
  lemma ReadBack(s: Image, u: Image, v: Image, id: Space, a: nat, m: seq<byte>, n: seq<byte>)
    requires Progress(s, u, id, a, m) && Gathered(u, v, id, a, n) && (m == [] || a + |m| <= USER_LIMIT)
    ensures |m| == |n| ==> m == n
    ensures Confined(s, v, id, a, a + |m|)
  {
    hide Framed, ByteAt, Untouched;
    if m != [] { StillHolds(u, v, id, 0, 0, a, m); }
    if |m| == |n| { SameBytes(v, id, a, m, n); }
    ConfinedWider(u, v, id, a, a + |m|, 0, 0);
    ConfinedThrough(s, u, v, id, a, a + |m|);
  }

  // ----- Writing and reading a frame

  function Overwrite(page: seq<byte>, offset: nat, bytes: seq<byte>): seq<byte>
    requires offset + |bytes| <= |page|
  {
    page[..offset] + bytes + page[offset + |bytes|..]
  }

  /** Writing into the frame of one page changes exactly the bytes written. */
  lemma WriteBytes(s: Image, id: Space, segs: seq<Segment>, a: nat, bytes: seq<byte>)
    requires Framed(s.t) && Backed(s, id, segs) && PageSized(s.data) && Translate(s.t, id, a).Some?
    requires |bytes| > 0 && a + |bytes| <= USER_LIMIT && a % PAGE_SIZE + |bytes| <= PAGE_SIZE
    ensures var f := Translate(s.t, id, a).value;
      && f in s.data && |s.data[f]| == PAGE_SIZE
      && var u := s.(data := s.data[f := Overwrite(s.data[f], a % PAGE_SIZE, bytes)]);
         Backed(u, id, segs) && PageSized(u.data) && Progress(s, u, id, a, bytes)
  {
    hide Leaf, Path, Framed, Mapped, Translate;
    var f := Translate(s.t, id, a).value;
    var u := s.(data := s.data[f := Overwrite(s.data[f], a % PAGE_SIZE, bytes)]);
    forall b: nat | a <= b < a + |bytes| ensures ByteAt(u, id, b) == Some(bytes[b - a]) {
      SameFrame(s.t, id, a, b);
    }
    forall b: nat | b < USER_LIMIT && !(a <= b < a + |bytes|) && ByteAt(s, id, b).Some?
      ensures ByteAt(u, id, b) == ByteAt(s, id, b)
    {
      if Translate(s.t, id, b) == Some(f) {
        assert b / PAGE_SIZE == a / PAGE_SIZE;
        assert !(a % PAGE_SIZE <= b % PAGE_SIZE < a % PAGE_SIZE + |bytes|);
      }
    }
  }

  /** Addresses of one page have one frame, and their offsets differ as they do. */
  lemma SameFrame(t: Tables, id: Space, a: nat, b: nat)
    requires Framed(t) && a <= b < USER_LIMIT && a % PAGE_SIZE + (b - a) < PAGE_SIZE
    ensures Translate(t, id, b) == Translate(t, id, a) && b % PAGE_SIZE == a % PAGE_SIZE + (b - a)
  {
    hide Leaf, Path, Framed;
    UserPages(id, a, b);
    assert b / PAGE_SIZE == a / PAGE_SIZE;
  }

  lemma ReadBytes(s: Image, id: Space, segs: seq<Segment>, a: nat, n: nat)
    requires Framed(s.t) && Backed(s, id, segs) && PageSized(s.data) && Translate(s.t, id, a).Some?
    requires n > 0 && a + n <= USER_LIMIT && a % PAGE_SIZE + n <= PAGE_SIZE
    ensures var f := Translate(s.t, id, a).value;
      && f in s.data && |s.data[f]| == PAGE_SIZE
      && Holds(s, id, a, s.data[f][a % PAGE_SIZE..a % PAGE_SIZE + n])
  {
    hide Leaf, Path, Framed, Mapped, Translate;
    forall b: nat | a <= b < a + n
      ensures Translate(s.t, id, b) == Translate(s.t, id, a) && b % PAGE_SIZE == a % PAGE_SIZE + (b - a)
    {
      SameFrame(s.t, id, a, b);
    }
  }

  // ----- Mapping a page

  /** The rights of a user mapping: never global, standard caching. */
  function FlagsOf(prot: nat): Flags {
    Flags(prot / 4 % 2 == 1, true, prot / 8 % 2 == 0, false, false)
  }

  lemma FlagsGrant(prot: nat, f: nat)
    ensures GrantsOnly(LeafEntry(FlagsOf(prot), f), prot)
  {
  }

  /** The flags are those that the bit operations make of the protection, for a user mapping with standard caching. */
  lemma FlagsAsRequested(prot: nat)
    ensures var request := PteBits.Protection(Has(prot, PROT_READ), Has(prot, PROT_WRITE), Has(prot, PROT_EXEC));
      match PteBits.X86Flags(request, PteBits.Standard, true, false)
      case None => !Readable(prot)
      case Some(w) => Readable(prot) && PteBits.DecodeFlags(w) == FlagsOf(prot)
  {
    hide PteBits.DecodeFlags;
    var request := PteBits.Protection(Has(prot, PROT_READ), Has(prot, PROT_WRITE), Has(prot, PROT_EXEC));
    PteBits.FlagsOfRequest(request, PteBits.Standard, true, false);
  }

  /** What the hardware grants on an address, from the root of its space. */
  ghost function RightsAt(t: Tables, id: Space, a: nat): Option<Rights> {
    if Root(id) in t.node then WalkRights(t.mem, t.node[Root(id)], Path(a)) else None
  }

  /** Present pages have exactly the rights of their segments. */
  lemma RightsOnPage(s: Image, id: Space, segs: seq<Segment>, a: nat)
    requires ValidTables(s.t) && Root(id) in s.t.node && Framed(s.t) && Backed(s, id, segs)
    requires a < USER_LIMIT && Translate(s.t, id, a).Some?
    ensures At(segs, a).Some?
    ensures var prot := At(segs, a).value.prot;
      RightsAt(s.t, id, a) == Some(Rights(Has(prot, PROT_WRITE), true, !Has(prot, PROT_EXEC)))
  {
    hide Leaf, Path, ValidTables, WalkRights, Mapped, At, Framed;
    UserPages(id, a, a);
    EffectiveRights(s.t, id, Path(a));
  }

  /** A mapped address whose segment was mapped without read access: backing it panics. */
  ghost predicate Unreadable(segs: seq<Segment>, a: nat) {
    At(segs, a).Some? && !Readable(At(segs, a).value.prot)
  }

  /** The call of arch_vmm_ptm_map that backs the page of user address a with frame f. */
  ghost predicate OnePageMapped(t: Tables, u: Tables, id: Space, a: nat, f: nat, prot: nat) {
    Step(t, MappedPage(Canon(id, Path(a)), LeafEntry(FlagsOf(prot), f)), u)
  }

  lemma TranslateAfterMap(t: Tables, u: Tables, id: Space, a: nat, f: nat, prot: nat, other: Space, b: nat)
    requires OnePageMapped(t, u, id, a, f, prot) && a < USER_LIMIT && b < USER_LIMIT
    ensures Framed(t) && Framed(u)
    ensures Translate(u, other, b)
            == if other == id && b / PAGE_SIZE == a / PAGE_SIZE then Some(f) else Translate(t, other, b)
    ensures PageAt(u, other, b)
            == if other == id && b / PAGE_SIZE == a / PAGE_SIZE then Some(LeafEntry(FlagsOf(prot), f))
               else PageAt(t, other, b)
  {
    hide Leaf, Path, Framed, TreeUpTo, FlagsOf;
    ValidFramed(u);
    if other == id { UserPages(id, a, b); } else { OtherSpace(id, a, other, b); }
    assert IsPage(Canon(other, Path(b)).path);
  }

  /** A page backed with a frame not in use before: other pages and other spaces stay as they are. */
  lemma PageBacked(s: Image, u: Image, id: Space, segs: seq<Segment>, start: nat, end: nat, a: nat, f: nat, prot: nat,
                   contents: seq<byte>)
    requires Framed(s.t) && Backed(s, id, segs) && PageSized(s.data) && ValidSegments(segs, start, end)
    requires OnePageMapped(s.t, u.t, id, a, f, prot) && a < USER_LIMIT && Mapped(segs, a)
    requires At(segs, a).Some? && At(segs, a).value.prot == prot
    requires f !in s.data && f !in s.owner && |contents| == PAGE_SIZE
    requires u.data == s.data[f := contents] && u.owner == s.owner[f := Owner(id, a / PAGE_SIZE)]
    ensures Framed(u.t) && Backed(u, id, segs) && PageSized(u.data) && Translate(u.t, id, a) == Some(f)
    ensures Confined(s, u, id, PageBase(a), PageBase(a) + PAGE_SIZE)
  {
    hide Leaf, Path, Framed, Translate, PageAt, OnePageMapped, ValidSegments, At, Mapped, FlagsOf, GrantsOnly;
    TranslateAfterMap(s.t, u.t, id, a, f, prot, id, a);
    forall other: Space, b: nat {:trigger Translate(u.t, other, b)} {:trigger SamePte(s.t, u.t, other, b)}
      | b < USER_LIMIT
      ensures if other == id && b / PAGE_SIZE == a / PAGE_SIZE then
                Translate(u.t, other, b) == Some(f) && PageAt(u.t, other, b) == Some(LeafEntry(FlagsOf(prot), f))
              else SamePte(s.t, u.t, other, b)
    {
      TranslateAfterMap(s.t, u.t, id, a, f, prot, other, b);
    }
    FlagsGrant(prot, f);
    forall b: nat | b < USER_LIMIT && b / PAGE_SIZE == a / PAGE_SIZE
      ensures Mapped(segs, b) && At(segs, b) == At(segs, a)
    {
      SameSegment(segs, start, end, a, b);
    }
  }

  lemma SameSegment(segs: seq<Segment>, start: nat, end: nat, a: nat, b: nat)
    requires ValidSegments(segs, start, end) && a / PAGE_SIZE == b / PAGE_SIZE
    ensures (Mapped(segs, a) <==> Mapped(segs, b)) && At(segs, a) == At(segs, b)
  {
    hide ValidSegments, At, Mapped;
    PageUniform(segs, start, end, PageBase(a), a);
    PageUniform(segs, start, end, PageBase(a), b);
    AtMissing(segs, a);
    AtMissing(segs, b);
  }

  /** If the page was not present, no byte at all was lost. */
  lemma NothingLost(s: Image, u: Image, id: Space, a: nat)
    requires Confined(s, u, id, PageBase(a), PageBase(a) + PAGE_SIZE) && a < USER_LIMIT && Translate(s.t, id, a).None?
    ensures Confined(s, u, id, 0, 0)
  {
    hide Leaf, Path, Framed, Untouched;
    forall b: nat | b < USER_LIMIT && PageBase(a) <= b < PageBase(a) + PAGE_SIZE ensures ByteAt(s, id, b).None? {
      UserPages(id, a, b);
    }
  }

  /** The page of an address got a frame that was not in use, with the rights of its segment; no other page changed. */
  ghost predicate Backing(t: Tables, u: Tables, id: Space, a: nat, attr: Option<Attr>, used: set<nat>) {
    exists f :: f !in used && attr.Some? && Readable(attr.value.prot) && OnePageMapped(t, u, id, a, f, attr.value.prot)
  }

  lemma BackingPage(t: Tables, u: Tables, id: Space, a: nat, prot: nat, f: nat, used: set<nat>)
    requires a < USER_LIMIT && f !in used && Readable(prot) && OnePageMapped(t, u, id, PageBase(a), f, prot)
    ensures Framed(u) && Backing(t, u, id, a, Some(Attr(prot, Anon)), used) && Translate(u, id, a) == Some(f)
  {
    hide Framed, Leaf, Path, Step, OnePageMapped;
    TranslateAfterMap(t, u, id, PageBase(a), f, prot, id, a);
    SameLabel(t, u, id, a, f, prot);
  }

  lemma SameLabel(t: Tables, u: Tables, id: Space, a: nat, f: nat, prot: nat)
    requires a < USER_LIMIT && OnePageMapped(t, u, id, PageBase(a), f, prot)
    ensures OnePageMapped(t, u, id, a, f, prot)
  {
    hide Step, Path;
    UserPages(id, a, PageBase(a));
  }

  // ----- Mapping a range

  ghost predicate AllPresent(t: Tables, id: Space, lo: nat, hi: nat) {
    Framed(t) && forall a: nat {:trigger Translate(t, id, a)} :: lo <= a < hi ==> Translate(t, id, a).Some?
  }

  ghost predicate NonePresent(t: Tables, id: Space, lo: nat, hi: nat) {
    Framed(t) && forall a: nat {:trigger Translate(t, id, a)} :: lo <= a < hi ==> Translate(t, id, a).None?
  }

  lemma OneMorePresent(s: Image, u: Image, id: Space, lo: nat, page: nat, hi: nat, f: nat, prot: nat)
    requires OnePageMapped(s.t, u.t, id, page, f, prot) && lo <= page && page + PAGE_SIZE <= hi <= USER_LIMIT
    requires Paged(page)
    requires Confined(s, u, id, page, page + PAGE_SIZE)
    requires AllPresent(s.t, id, lo, page) && NonePresent(s.t, id, page, hi)
    ensures Confined(s, u, id, 0, 0)
    ensures AllPresent(u.t, id, lo, page + PAGE_SIZE) && NonePresent(u.t, id, page + PAGE_SIZE, hi)
  {
    hide Framed, Translate, OnePageMapped;
    assert PageBase(page) == page;
    NothingLost(s, u, id, page);
    forall a: nat | a < hi
      ensures Translate(u.t, id, a) == if page <= a < page + PAGE_SIZE then Some(f) else Translate(s.t, id, a)
    {
      TranslateAfterMap(s.t, u.t, id, page, f, prot, id, a);
      assert a / PAGE_SIZE == page / PAGE_SIZE <==> page <= a < page + PAGE_SIZE;
    }
  }

  /** Where a mapping fits, no page is present. */
  lemma FreshRange(s: Image, id: Space, segs: seq<Segment>, start: nat, end: nat, r: nat, n: nat)
    requires Framed(s.t) && Backed(s, id, segs) && Fits(segs, start, end, r, n) && r + n <= USER_LIMIT
    ensures NonePresent(s.t, id, r, r + n)
  {
    hide Framed, Translate;
    forall a: nat | r <= a < r + n ensures Translate(s.t, id, a).None? {
      forall i | 0 <= i < |segs| ensures !Segments.Covers(segs[i], a) { assert !Intersects(r, n, segs[i]); }
    }
  }

  // ----- Clearing pages

  /** The pages of [lo, hi) are no longer present; no other user address of any space is translated differently. */
  ghost predicate Cleared(t: Tables, u: Tables, id: Space, lo: nat, hi: nat)
    requires Framed(t) && Framed(u)
  {
    forall other: Space, a: nat {:trigger Translate(u, other, a)} {:trigger SamePte(t, u, other, a)} ::
      a < USER_LIMIT ==>
        if other == id && lo <= a < hi then Translate(u, other, a).None? else SamePte(t, u, other, a)
  }

  ghost predicate ClearedCuts(t: Tables, u: Tables, id: Space, cuts: seq<(nat, nat)>)
    requires Framed(t) && Framed(u)
  {
    forall other: Space, a: nat {:trigger Translate(u, other, a)} {:trigger SamePte(t, u, other, a)} ::
      a < USER_LIMIT ==>
        if other == id && InCuts(cuts, a) then Translate(u, other, a).None? else SamePte(t, u, other, a)
  }

  lemma NothingCleared(t: Tables, id: Space, lo: nat)
    requires Framed(t)
    ensures Cleared(t, t, id, lo, lo)
  {
  }

  lemma PageCleared(t: Tables, u: Tables, v: Tables, id: Space, lo: nat, page: nat)
    requires Framed(t) && Framed(u) && Cleared(t, u, id, lo, page) && lo <= page < USER_LIMIT && page % PAGE_SIZE == 0
    requires Step(u, UnmappedPage(Canon(id, Path(page))), v)
    ensures Framed(v) && Cleared(t, v, id, lo, page + PAGE_SIZE)
  {
    hide Framed, Leaf, Path, TreeUpTo;
    ValidFramed(v);
    forall other: Space, a: nat | a < USER_LIMIT
      ensures if other == id && lo <= a < page + PAGE_SIZE then Translate(v, other, a).None?
              else SamePte(t, v, other, a)
    {
      if other == id { UserPages(id, a, page); } else { OtherSpace(other, a, id, page); }
      assert IsPage(Canon(other, Path(a)).path);
      assert a / PAGE_SIZE == page / PAGE_SIZE <==> page <= a < page + PAGE_SIZE;
      assert if other == id && lo <= a < page then Translate(u, other, a).None? else SamePte(t, u, other, a);
    }
  }

  lemma NoCuts(t: Tables, id: Space)
    requires Framed(t)
    ensures ClearedCuts(t, t, id, [])
  {
  }

  lemma CutCleared(t: Tables, u: Tables, v: Tables, id: Space, cuts: seq<(nat, nat)>, k: nat)
    requires Framed(t) && Framed(u) && Framed(v) && k < |cuts| && ClearedCuts(t, u, id, cuts[..k])
    requires Cleared(u, v, id, cuts[k].0, cuts[k].0 + cuts[k].1)
    ensures ClearedCuts(t, v, id, cuts[..k + 1])
  {
    hide Framed, Translate;
    assert cuts[..k + 1] == cuts[..k] + [cuts[k]];
    forall other: Space, a: nat | a < USER_LIMIT
      ensures if other == id && InCuts(cuts[..k + 1], a) then Translate(v, other, a).None?
              else SamePte(t, v, other, a)
    {
      assert cuts[k] in cuts[..k + 1];
      assert if other == id && InCuts(cuts[..k], a) then Translate(u, other, a).None? else SamePte(t, u, other, a);
      assert if other == id && cuts[k].0 <= a < cuts[k].0 + cuts[k].1 then Translate(v, other, a).None?
             else SamePte(u, v, other, a);
    }
  }

  /** No address without a segment was translated, so clearing the pages of the cuts clears the whole range. */
  lemma RangeCleared(s: Image, u: Image, id: Space, was: seq<Segment>, segs: seq<Segment>, cuts: seq<(nat, nat)>,
                     lo: nat, hi: nat)
    requires Framed(s.t) && Framed(u.t) && u.data == s.data && u.owner == s.owner
    requires Backed(s, id, was) && Removed(segs, was, lo, hi) && ClearedCuts(s.t, u.t, id, cuts)
    requires forall c :: c in cuts ==> lo <= c.0 && c.0 + c.1 <= hi
    requires forall a :: lo <= a < hi ==> (Mapped(was, a) <==> InCuts(cuts, a))
    ensures Cleared(s.t, u.t, id, lo, hi) && Backed(u, id, segs) && Confined(s, u, id, lo, hi)
  {
    hide Framed, Translate, Mapped, At;
    forall other: Space, a: nat | a < USER_LIMIT
      ensures if other == id && lo <= a < hi then Translate(u.t, other, a).None? else SamePte(s.t, u.t, other, a)
    {
      if other == id && lo <= a < hi && !InCuts(cuts, a) { assert Translate(s.t, id, a).None?; }
    }
    forall a: nat | a < USER_LIMIT && Translate(u.t, id, a).Some? ensures Mapped(segs, a) {
      AtMissing(segs, a);
      AtMissing(was, a);
    }
  }

  /** No user address of the space is translated. */
  ghost predicate NoPages(t: Tables, id: Space) {
    Framed(t) && forall a: nat {:trigger Translate(t, id, a)} :: a < USER_LIMIT ==> Translate(t, id, a).None?
  }

  /** A space that no table belonged to has no pages once it has a root. */
  lemma NewSpaceEmpty(s: Image, u: Image, n: nat)
    requires Step(s.t, Grown, u.t) && u.data == s.data && u.owner == s.owner
    requires forall l :: l in s.t.node ==> l.space != User(n)
    ensures NoPages(u.t, User(n))
  {
    hide Framed, Path, Step;
    GrownConfined(s, u, User(n));
    forall a: nat | a < USER_LIMIT ensures Translate(u.t, User(n), a).None? {
      assert SamePte(s.t, u.t, User(n), a);
      UserPages(User(n), a, a);
    }
  }

  /** Tables were added and no page changed. */
  lemma GrownConfined(s: Image, u: Image, id: Space)
    requires Step(s.t, Grown, u.t) && u.data == s.data && u.owner == s.owner
    ensures Confined(s, u, id, 0, 0)
    ensures forall other: Space, a: nat {:trigger Translate(u.t, other, a)} {:trigger SamePte(s.t, u.t, other, a)} ::
              a < USER_LIMIT ==> SamePte(s.t, u.t, other, a)
  {
    hide Framed, Leaf, Path, TreeUpTo;
    ValidFramed(u.t);
    forall other: Space, a: nat | a < USER_LIMIT ensures SamePte(s.t, u.t, other, a) {
      assert IsPage(Canon(other, Path(a)).path);
    }
  }
}
