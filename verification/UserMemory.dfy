/** Demand mapping and copying in user address spaces of anonymous segments (kernel/src/memory/vmm.c:208-313): segments,
    page tables and the page allocator together, with several spaces on one memory. */
module UserMemory {
  import opened Machine
  import opened Bytes
  import opened Options
  import opened PageTree
  import opened Segments
  import opened AddressSpaces
  import opened PageTables
  import opened UserBytes
  import Pmm
  import Frames

  // ----- math_min on int

  /** The low half of a 64-bit size. */
  function Low(x: nat): nat { x % 0x1_0000_0000 }

  /** Conversion of a 64-bit size to a 32-bit int. */
  function ToInt(x: nat): int {
    if Low(x) < INT_LIMIT then Low(x) else Low(x) - 0x1_0000_0000
  }

  /** math_min(remaining, room): both arguments pass through int. */
  function Chunk(remaining: nat, room: nat): int {
    if ToInt(remaining) < ToInt(room) then ToInt(remaining) else ToInt(room)
  }

  /** The copy loops take the true minimum at every step exactly if the count fits an int. */
  lemma ChunkExact(count: nat)
    requires count < WORD
    ensures count < INT_LIMIT <==>
      forall r, room {:trigger Chunk(r, room)} :: 0 < r <= count && 0 < room <= PAGE_SIZE ==>
        Chunk(r, room) == if r < room then r else room
  {
    if count >= INT_LIMIT { assert Chunk(INT_LIMIT, PAGE_SIZE) < 0; }
  }

  /** One turn of `while(i < count)` in a copy loop; `i += len` on 64-bit words. */
  function Turn(count: nat, i: nat, room: nat): nat {
    if i < count then (i + Chunk(count - i, room)) % WORD else i
  }

  /** Where the loop stands after as many turns as there are rooms, if each memcpy returned. */
  function Position(count: nat, rooms: seq<nat>): nat {
    if rooms == [] then 0 else Turn(count, Position(count, rooms[..|rooms| - 1]), rooms[|rooms| - 1])
  }

  /** The loop counts up to the low half of the count and stays there for good, unless that half is itself no int: then
      the first memcpy is given at least 2^64 - 2^31 bytes, and the loop would be left after that one turn. So it is
      left with the count copied exactly if the count is below 2^31. */
  lemma {:induction false} CopyLoopExact(count: nat, rooms: seq<nat>)
    requires count < WORD && forall k :: 0 <= k < |rooms| ==> 0 < rooms[k] <= PAGE_SIZE
    ensures Low(count) < INT_LIMIT ==>
      (if |rooms| < Low(count) then |rooms| else Low(count)) <= Position(count, rooms) <= Low(count)
    ensures Low(count) >= INT_LIMIT && rooms != [] ==>
      Chunk(count, rooms[0]) % WORD >= WORD - INT_LIMIT && Position(count, rooms) >= count
    ensures Low(count) == count <==> count < 0x1_0000_0000
  {
    hide Turn, Chunk;
    if rooms != [] {
      var n := |rooms| - 1;
      CopyLoopExact(count, rooms[..n]);
      if Low(count) < INT_LIMIT {
        CountsUp(count, Position(count, rooms[..n]), rooms[n]);
      } else {
        Overshoots(count, rooms[0]);
        if n > 0 { Leaves(count, Position(count, rooms[..n]), rooms[n]); }
      }
    }
  }

  lemma LowLess(count: nat, i: nat)
    requires i <= Low(count)
    ensures i <= count && Low(count - i) == Low(count) - i
  {
  }

  lemma Small(x: nat)
    requires x < INT_LIMIT
    ensures Low(x) == x && x % WORD == x
  {
  }

  lemma CountsUp(count: nat, i: nat, room: nat)
    requires count < WORD && 0 < room <= PAGE_SIZE && i <= Low(count) < INT_LIMIT
    ensures Turn(count, i, room) == i + (if Low(count) - i < room then Low(count) - i else room)
  {
    hide Low;
    LowLess(count, i);
    Small(room);
    Small(0);
    Small(i + if Low(count) - i < room then Low(count) - i else room);
  }

  lemma Leaves(count: nat, i: nat, room: nat)
    requires count <= i
    ensures Turn(count, i, room) == i
  {
  }

  lemma Overshoots(count: nat, room: nat)
    requires count < WORD && 0 < room <= PAGE_SIZE && Low(count) >= INT_LIMIT
    ensures Chunk(count, room) % WORD >= WORD - INT_LIMIT && Turn(count, 0, room) >= count
  {
  }

  /** The length of the next piece in a copy loop. */
  lemma NextChunk(count: nat, i: nat, a: nat)
    requires i < count < WORD && (if Low(count) < INT_LIMIT then i <= Low(count) else i == 0)
    ensures var room, len := PAGE_SIZE - a % PAGE_SIZE, Chunk(count - i, PAGE_SIZE - a % PAGE_SIZE);
      && (Low(count) < INT_LIMIT ==> 0 <= len <= room && i + len <= Low(count) && (len == 0 <==> i == Low(count)))
      && (Low(count) >= INT_LIMIT ==> len < 0)
  {
  }

  datatype FaultResult = Unhandled | Handled | Panicked

  /** Aborted: a panic. Endless: the loop goes round for good after `count` bytes. Overrun: the first memcpy is given a
      size of almost 2^64. */
  datatype CopyResult = Copied(count: nat) | Aborted | Endless(count: nat) | Overrun

  /** How many addresses a copy of n bytes looks at: all, unless it goes round for good behind the low half of n. */
  function Looked(n: nat): nat {
    if n < INT_LIMIT then n else Low(n) + 1
  }

  /** What a copy of [a, a + n) comes to without a panic: nothing if memory_exists refuses it; an overrun if the low
      half of n is no int; otherwise it ends at the first address that is not mapped (which a range that wraps can
      have), or else with all bytes moved if n is an int, and never if it is not. */
  ghost predicate CopyDone(segs: seq<Segment>, start: nat, end: nat, a: nat, n: nat, res: CopyResult) {
    if n == 0 || !MemoryFound(segs, start, end, a, n) then res == Copied(0)
    else if Low(n) >= INT_LIMIT then res == Overrun
    else if AllMapped(segs, a, Looked(n)) then res == if n < INT_LIMIT then Copied(n) else Endless(Low(n))
    else res.Copied? && res.count < Looked(n) && AllMapped(segs, a, res.count) && !Mapped(segs, a + res.count)
  }

  /** How many bytes have been moved. */
  function Moved(res: CopyResult): nat {
    if res.Copied? || res.Endless? then res.count else 0
  }

  datatype Resolution = Found(phys: nat) | Missing | Stopped

  /** What all address spaces share: tables, page allocator, and the contents of the frames behind user pages. */
  class Memory {
    const tables: PageTables
    const zone: Pmm.Zone
    var data: map<nat, seq<byte>>
    ghost var owner: map<nat, Owner>
    ghost var used: set<nat>

    ghost function Now(): Image
      reads this, tables
    {
      Image(tables.T(), data, owner)
    }

    ghost predicate Valid()
      reads this, tables, zone
    {
      && tables.Valid() && zone.Valid() && Frames.Reserved(zone.Snap(), used)
      && tables.mem.Keys <= used && data.Keys <= used && tables.mem.Keys !! data.Keys
      && owner.Keys == data.Keys && PageSized(data)
    }

    /** Tables that have nothing but frames in use, and no user page yet. */
    constructor (tables: PageTables, zone: Pmm.Zone, ghost used: set<nat>)
      requires tables.Valid() && zone.Valid() && Frames.Reserved(zone.Snap(), used) && tables.mem.Keys <= used
      ensures Valid() && this.tables == tables && this.zone == zone && data == map[]
    {
      this.tables, this.zone, this.data, this.owner, this.used := tables, zone, map[], map[], used;
    }

    /** arch_vmm_address_space_create: the frames of the new tables are fresh, so no user page is among them. */
    method CreateSpace(n: nat) returns (ok: bool)
      requires Valid() && Kernel in tables.cr3 && forall l :: l in tables.node ==> l.space != User(n)
      modifies `used, tables, zone
      ensures Valid() && Confined(old(Now()), Now(), User(n), 0, 0)
      ensures tables.cr3.Keys == old(tables.cr3.Keys) + if ok then {User(n)} else {}
      ensures ok ==> NoPages(tables.T(), User(n))
      ensures !ok ==> Frames.Exhausted(zone.Snap())
    {
      hide ValidTables, Framed, Frames.Reserved, Frames.Exhausted, PageSized, Step, Confined, NoPages;
      ghost var s, were := Now(), used;
      FramedNow();
      ok, used := tables.CreateSpace(zone, used, n);
      StayDisjoint(s.t.mem.Keys, s.data.Keys, were, used);
      GrownConfined(s, Now(), User(n));
      NewSpaceEmpty(s, Now(), n);
    }

    lemma FramedNow()
      requires Valid()
      ensures Framed(tables.T()) && Framed(Now().t) && PageSized(data)
    {
      hide Framed;
      ValidFramed(tables.T());
    }
  }

  /** A user address space of anonymous segments. */
  class UserMemory {
    const id: Space
    const space: AddressSpace
    const memory: Memory

    ghost predicate Valid()
      reads space, memory, memory.tables, memory.zone
    {
      && memory.Valid() && id in memory.tables.cr3
      && space.Valid() && space.end < USER_LIMIT && AllAnon(space.segments)
      && Backed(memory.Now(), id, space.segments)
    }

    /** An address space without segments or pages. */
    constructor (id: Space, space: AddressSpace, memory: Memory)
      requires space.Valid() && space.end < USER_LIMIT && space.segments == []
      requires memory.Valid() && id in memory.tables.cr3
      requires NoPages(memory.tables.T(), id)
      ensures Valid() && this.id == id && this.space == space && this.memory == memory
    {
      this.id, this.space, this.memory := id, space, memory;
    }

    /** segment_map on one page of an anonymous segment; None stands for the panics on missing memory or read access. */
    method MapPage(address: nat, prot: nat) returns (frame: Option<nat>)
      requires Valid() && address < USER_LIMIT && address % PAGE_SIZE == 0 && Protected(space.segments, address, prot)
      modifies memory, memory.tables`mem, memory.tables`node, memory.zone
      ensures frame.None? ==> Frames.Exhausted(memory.zone.Snap()) || !Readable(prot)
      ensures frame.Some? ==>
        && Valid() && Readable(prot) && frame.value !in old(memory.used)
        && OnePageMapped(old(memory.tables.T()), memory.tables.T(), id, address, frame.value, prot)
        && Confined(old(memory.Now()), memory.Now(), id, address, address + PAGE_SIZE)
        && RightsAt(memory.tables.T(), id, address)
             == Some(Rights(Has(prot, PROT_WRITE), true, !Has(prot, PROT_EXEC)))
    {
      hide Valid, Frames.Reserved, Frames.Exhausted, Mapped, Readable, OnePageMapped, Confined, Protected, RightsAt,
        Has;
      Parts();
      frame := Frames.AllocPage(memory.zone, memory.used);
      if frame.None? { return; }
      memory.used := memory.used + {frame.value};
      var contents := new byte[PAGE_SIZE];
      if !Readable(prot) { return None; }
      Whole();
      var ok := MapFrame(address, prot, frame.value, contents[..]);
      if !ok { return None; }
      NewRights(old(memory.tables.T()), address, frame.value, prot);
    }

    /** arch_vmm_ptm_map of a frame that holds some bytes. */
    method MapFrame(address: nat, prot: nat, frame: nat, contents: seq<byte>) returns (ok: bool)
      requires Valid() && address < USER_LIMIT && address % PAGE_SIZE == 0 && Protected(space.segments, address, prot)
      requires frame in memory.used && frame !in memory.tables.mem && frame !in memory.data && |contents| == PAGE_SIZE
      requires frame % PAGE_SIZE == 0 && frame < PHYSICAL_LIMIT
      modifies memory, memory.tables`mem, memory.tables`node, memory.zone
      ensures !ok ==> Frames.Exhausted(memory.zone.Snap())
      ensures ok ==>
        && Valid() && OnePageMapped(old(memory.tables.T()), memory.tables.T(), id, address, frame, prot)
        && Confined(old(memory.Now()), memory.Now(), id, address, address + PAGE_SIZE)
    {
      hide Valid, ValidTables, Framed, Leaf, Path, Pmm.ValidState, Pmm.Counted, Frames.Reserved, Frames.Exhausted,
        ValidSegments, Mapped, Backed, FlagsOf, OwnHalf, LeafEntry, AddressField, Confined, Step;
      Parts();
      UserPages(id, address, address);
      ok, memory.used := memory.tables.Map(memory.zone, memory.used, id, address, frame, FlagsOf(prot));
      if ok {
        AlignedField(frame);
        memory.data := memory.data[frame := contents];
        memory.owner := memory.owner[frame := Owner(id, address / PAGE_SIZE)];
        StaysApart(old(memory.tables.mem.Keys), old(memory.data.Keys), old(memory.used), memory.used, frame);
        assert memory.data.Keys == old(memory.data.Keys) + {frame};
        assert memory.owner.Keys == old(memory.data.Keys) + {frame};
        PageBacked(old(memory.Now()), memory.Now(), id, space.segments, space.start, space.end, address, frame, prot,
                   contents);
        Whole();
      }
    }

    /** In a valid space the hardware grants on every present page exactly what its segment's protection says. */
    lemma RightsExact(a: nat)
      requires Valid() && a < USER_LIMIT && Framed(memory.tables.T()) && Translate(memory.tables.T(), id, a).Some?
      ensures At(space.segments, a).Some?
      ensures var prot := At(space.segments, a).value.prot;
        RightsAt(memory.tables.T(), id, a) == Some(Rights(Has(prot, PROT_WRITE), true, !Has(prot, PROT_EXEC)))
    {
      hide Framed, Backed, Translate, RightsAt, At, Has, Frames.Reserved, ValidSegments;
      RightsOnPage(memory.Now(), id, space.segments, a);
    }

    lemma NewRights(t: Tables, a: nat, f: nat, prot: nat)
      requires Valid() && a < USER_LIMIT && OnePageMapped(t, memory.tables.T(), id, a, f, prot)
      requires Protected(space.segments, a, prot)
      ensures RightsAt(memory.tables.T(), id, a) == Some(Rights(Has(prot, PROT_WRITE), true, !Has(prot, PROT_EXEC)))
    {
      hide Valid, Framed, Translate, OnePageMapped, RightsAt, At, Has;
      Parts();
      TranslateAfterMap(t, memory.tables.T(), id, a, f, prot, id, a);
      RightsExact(a);
    }

    /** The invariant in pieces. */
    lemma Parts()
      requires Valid()
      ensures memory.Valid() && id in memory.tables.cr3 && space.Valid() && space.end < USER_LIMIT
      ensures AllAnon(space.segments) && Framed(memory.Now().t) && Backed(memory.Now(), id, space.segments)
    {
      hide Framed, Backed;
      memory.FramedNow();
    }

    lemma Whole()
      requires memory.Valid() && id in memory.tables.cr3 && space.Valid() && space.end < USER_LIMIT
      requires AllAnon(space.segments) && Framed(memory.Now().t) && Backed(memory.Now(), id, space.segments)
      ensures Valid()
    {
    }

    /** vmm_fault on a user address: a page that is not present is backed if it lies in a segment. */
    method Fault(address: nat, nonPresent: bool) returns (res: FaultResult)
      requires Valid() && address < USER_LIMIT
      modifies memory, memory.tables`mem, memory.tables`node, memory.zone
      ensures res != Panicked ==> Valid()
      ensures res == Panicked ==> Frames.Exhausted(memory.zone.Snap()) || Unreadable(space.segments, address)
      ensures res == Unhandled <==> !nonPresent || !Mapped(space.segments, address)
      ensures res == Unhandled ==> memory.Now() == old(memory.Now()) && memory.used == old(memory.used)
      ensures res == Handled ==>
        && Framed(memory.tables.T()) && Translate(memory.tables.T(), id, address).Some?
        && Backing(old(memory.tables.T()), memory.tables.T(), id, address, At(space.segments, address),
                   old(memory.used))
        && Confined(old(memory.Now()), memory.Now(), id, PageBase(address), PageBase(address) + PAGE_SIZE)
        && At(space.segments, address).Some?
        && var prot := At(space.segments, address).value.prot;
           RightsAt(memory.tables.T(), id, address)
             == Some(Rights(Has(prot, PROT_WRITE), true, !Has(prot, PROT_EXEC)))
    {
      hide Valid, Framed, Path, Frames.Exhausted, ValidSegments, Translate, OnePageMapped, At, Mapped, Readable,
        Confined, Backing, RightsAt, Has;
      if !nonPresent { return Unhandled; }
      Parts();
      var i := space.AddrToSegment(address);
      if i.None? { return Unhandled; }
      var prot := space.segments[i.value].prot;
      SegmentFound(space.segments, space.start, space.end, i.value, address);
      SameSegment(space.segments, space.start, space.end, address, PageBase(address));
      var frame := MapPage(PageBase(address), prot);
      if frame.None? { return Panicked; }
      BackingPage(old(memory.tables.T()), memory.tables.T(), id, address, prot, frame.value, old(memory.used));
      RightsExact(address);
      return Handled;
    }

    /** A range the copy calls accept: mapped throughout, and ending before the last byte of the space. */
    ghost predicate Accessible(a: nat, n: nat)
      reads space
    {
      Accepted(space.segments, space.end, a, n)
    }

    lemma AccessibleAt(a: nat, n: nat, i: nat)
      requires Accessible(a, n) && i < n && Valid()
      ensures Mapped(space.segments, a + i) && a + n < USER_LIMIT
    {
    }

    lemma IntCopy(a: nat, n: nat, res: CopyResult)
      requires Valid() && a < WORD && n < INT_LIMIT && CopyDone(space.segments, space.start, space.end, a, n, res)
      ensures res == Copied(if Accessible(a, n) then n else 0)
    {
      hide Backed, CopyDone, Accepted;
      AcceptedExact(space.segments, space.start, space.end, a, n, res);
    }

    /** Mapped addresses are user addresses, and so is the one behind them. */
    lemma NextAddress(a: nat, n: nat)
      requires Valid() && a < space.end && AllMapped(space.segments, a, n)
      ensures a + n < USER_LIMIT
    {
      hide Backed, Mapped;
      if n > 0 { MappedInBounds(space.segments, space.start, space.end, a + n - 1); }
    }

    /** The rest of a page is mapped as its first address. */
    lemma PieceMapped(a: nat, n: nat, len: nat)
      requires Valid() && AllMapped(space.segments, a, n) && Mapped(space.segments, a + n)
      requires 0 < len <= PAGE_SIZE - (a + n) % PAGE_SIZE
      ensures AllMapped(space.segments, a, n + len) && a + n + len <= USER_LIMIT
    {
      hide Valid, Framed, Backed, ValidSegments, AllAnon, ValidTables, Frames.Reserved, Mapped, AllMapped;
      Parts();
      RestMapped(space.segments, space.start, space.end, a + n, len);
      SplitRange(space.segments, a, n + len, n);
    }

    /** How both copy loops find the frame of an address: translate, or fault and translate again. */
    method Resolve(address: nat) returns (res: Resolution)
      requires Valid() && address < USER_LIMIT
      modifies memory, memory.tables`mem, memory.tables`node, memory.zone
      ensures res != Stopped ==> Valid() && Confined(old(memory.Now()), memory.Now(), id, 0, 0)
      ensures res == Stopped ==> Frames.Exhausted(memory.zone.Snap()) || Unreadable(space.segments, address)
      ensures res == Missing ==> !Mapped(space.segments, address)
      ensures res.Found? ==>
        && Framed(memory.tables.T()) && Translate(memory.tables.T(), id, address) == Some(res.phys)
        && Mapped(space.segments, address)
    {
      hide Valid, ValidTables, Framed, Leaf, Path, Frames.Exhausted, ValidSegments, At, Mapped, Backing, Confined;
      Parts();
      ghost var before := memory.Now();
      ConfinedNothing(before, id, 0, 0);
      var phys := memory.tables.Physical(id, address);
      MappedIfPresent(address);
      if phys.None? {
        var fault := Fault(address, true);
        if fault == Unhandled { return Missing; }
        if fault == Panicked { return Stopped; }
        NothingLost(before, memory.Now(), id, address);
        Parts();
        phys := memory.tables.Physical(id, address);
        assert phys.Some?;
      }
      return Found(phys.value);
    }

    lemma MappedIfPresent(address: nat)
      requires Valid() && address < USER_LIMIT && Framed(memory.tables.T())
      ensures Translate(memory.tables.T(), id, address).Some? ==> Mapped(space.segments, address)
    {
      hide Framed, Mapped, Translate;
    }

    /** vmm_copy_to */
    method CopyTo(dest: nat, src: seq<byte>) returns (res: CopyResult)
      requires Valid() && dest < WORD && |src| < WORD
      modifies memory, memory.tables`mem, memory.tables`node, memory.zone
      ensures res.Aborted? ==>
        || Frames.Exhausted(memory.zone.Snap())
        || exists a: nat :: dest <= a < dest + |src| && Unreadable(space.segments, a)
      ensures !res.Aborted? ==>
        Valid() && CopyDone(space.segments, space.start, space.end, dest, |src|, res) && Moved(res) <= |src|
      ensures !res.Aborted? ==> Progress(old(memory.Now()), memory.Now(), id, dest, src[..Moved(res)])
    {
      hide Valid, Framed, Frames.Exhausted, Mapped, Translate, Progress, Confined, MemoryFound, AllMapped, Chunk,
        Unreadable;
      Parts();
      ghost var before, segs := memory.Now(), space.segments;
      NothingYet(before, id, dest);
      NoneNeeded(segs, dest);
      var accepted := space.MemoryExists(dest, |src|);
      if !accepted { return Copied(0); }
      if src != [] { FirstFound(segs, space.start, space.end, dest, |src|); }
      var i := 0;
      while i < |src|
        invariant Valid() && i <= |src| && AllMapped(segs, dest, i) && (src != [] ==> dest < space.end)
        invariant if Low(|src|) < INT_LIMIT then i <= Low(|src|) else i == 0 && (src != [] ==> Mapped(segs, dest))
        invariant Progress(before, memory.Now(), id, dest, src[..i])
      {
        ghost var s := memory.Now();
        NextAddress(dest, i);
        var offset := (dest + i) % PAGE_SIZE;
        var phys := Resolve(dest + i);
        if phys.Stopped? { return Aborted; }
        ProgressHeld(before, s, memory.Now(), id, dest, src[..i]);
        MoreMapped(segs, dest, i, Looked(|src|));
        if phys.Missing? { return Copied(i); }
        var len := Chunk(|src| - i, PAGE_SIZE - offset);
        NextChunk(|src|, i, dest + i);
        if len <= 0 { return if len == 0 then Endless(i) else Overrun; }
        PieceMapped(dest, i, len);
        Store(before, s, dest, src[..i], phys.phys, offset, src[i..i + len]);
        assert src[..i] + src[i..i + len] == src[..i + len];
        i := i + len;
      }
      return Copied(i);
    }

    /** memcpy into the frame of the address that follows the bytes copied so far. */
    method Store(ghost before: Image, ghost s: Image, ghost dest: nat, ghost done: seq<byte>, phys: nat, offset: nat,
                 bytes: seq<byte>)
      requires Valid() && dest + |done| + |bytes| <= USER_LIMIT
      requires offset == (dest + |done|) % PAGE_SIZE && 0 < |bytes| <= PAGE_SIZE - offset
      requires Framed(memory.tables.T()) && Translate(memory.tables.T(), id, dest + |done|) == Some(phys)
      requires Progress(before, s, id, dest, done) && Confined(s, memory.Now(), id, 0, 0)
      modifies memory`data
      ensures Valid() && Progress(before, memory.Now(), id, dest, done + bytes)
    {
      hide ValidTables, Framed, Frames.Reserved, ValidSegments, Mapped, Translate, Backed, Confined, Progress, Holds;
      ghost var u := memory.Now();
      memory.FramedNow();
      WriteBytes(u, id, space.segments, dest + |done|, bytes);
      memory.data := memory.data[phys := Overwrite(memory.data[phys], offset, bytes)];
      assert memory.data.Keys == old(memory.data.Keys);
      ProgressStep(before, s, u, memory.Now(), id, dest, done, bytes);
    }

    /** memcpy out of the frame of the address that follows the bytes read so far. */
    method Fetch(ghost before: Image, ghost source: nat, ghost done: seq<byte>, phys: nat, offset: nat, len: nat)
      returns (bytes: seq<byte>)
      requires Valid() && source + |done| + len <= USER_LIMIT
      requires InPage(source + |done|, offset, len)
      requires Framed(memory.tables.T()) && Translate(memory.tables.T(), id, source + |done|) == Some(phys)
      requires Gathered(before, memory.Now(), id, source, done)
      ensures |bytes| == len && Gathered(before, memory.Now(), id, source, done + bytes)
    {
      hide Valid, Framed, ValidSegments, AllAnon, ValidTables, Frames.Reserved, Mapped, Translate, Backed, Confined,
        Gathered, Holds, InPage;
      Parts();
      memory.FramedNow();
      FrameRead(before, memory.Now(), id, space.segments, source, done, phys, offset, len);
      bytes := memory.data[phys][offset..offset + len];
    }

    /** vmm_copy_from */
    method CopyFrom(source: nat, count: nat) returns (res: CopyResult, bytes: seq<byte>)
      requires Valid() && source < WORD && count < WORD
      modifies memory, memory.tables`mem, memory.tables`node, memory.zone
      ensures res.Aborted? ==>
        || Frames.Exhausted(memory.zone.Snap())
        || exists a: nat :: source <= a < source + count && Unreadable(space.segments, a)
      ensures !res.Aborted? ==>
        Valid() && CopyDone(space.segments, space.start, space.end, source, count, res) && |bytes| == Moved(res)
      ensures !res.Aborted? ==> Gathered(old(memory.Now()), memory.Now(), id, source, bytes)
    {
      hide Valid, Framed, Frames.Exhausted, Mapped, Translate, Gathered, Confined, MemoryFound, AllMapped, Chunk,
        Unreadable, Holds;
      bytes := [];
      Parts();
      ghost var before, segs := memory.Now(), space.segments;
      NothingYet(before, id, source);
      NoneNeeded(segs, source);
      var accepted := space.MemoryExists(source, count);
      if !accepted { return Copied(0), bytes; }
      if count > 0 { FirstFound(segs, space.start, space.end, source, count); }
      var i := 0;
      while i < count
        invariant Valid() && i == |bytes| <= count && AllMapped(segs, source, i) && (count > 0 ==> source < space.end)
        invariant if Low(count) < INT_LIMIT then i <= Low(count) else i == 0 && (count > 0 ==> Mapped(segs, source))
        invariant Gathered(before, memory.Now(), id, source, bytes)
      {
        ghost var s := memory.Now();
        NextAddress(source, i);
        var offset := (source + i) % PAGE_SIZE;
        var phys := Resolve(source + i);
        if phys.Stopped? { return Aborted, bytes; }
        GatheredHeld(before, s, memory.Now(), id, source, bytes);
        MoreMapped(segs, source, i, Looked(count));
        if phys.Missing? { return Copied(i), bytes; }
        var len := Chunk(count - i, PAGE_SIZE - offset);
        NextChunk(count, i, source + i);
        if len <= 0 { return if len == 0 then Endless(i) else Overrun, bytes; }
        PieceMapped(source, i, len);
        var piece := Fetch(before, source, bytes, phys.phys, offset, len);
        bytes := bytes + piece;
        i := i + len;
      }
      return Copied(i), bytes;
    }

    /** What was copied in can be copied out again. */
    method WriteThenRead(address: nat, src: seq<byte>) returns (written: CopyResult, read: CopyResult, bytes: seq<byte>)
      requires Valid() && address < WORD && |src| < INT_LIMIT
      modifies memory, memory.tables`mem, memory.tables`node, memory.zone
      ensures written.Copied? && read.Copied? ==>
        && Valid() && bytes == (if Accessible(address, |src|) then src else [])
        && Confined(old(memory.Now()), memory.Now(), id, address, address + |bytes|)
      ensures !(written.Copied? && read.Copied?) ==>
        || Frames.Exhausted(memory.zone.Snap())
        || exists a: nat :: address <= a < address + |src| && Unreadable(space.segments, a)
    {
      hide Valid, Confined, Accessible, Holds, Frames.Exhausted, Unreadable, CopyDone;
      bytes, read := [], Aborted;
      if Accessible(address, |src|) && src != [] { AccessibleAt(address, |src|, 0); }
      written := CopyTo(address, src);
      if written == Aborted { return; }
      IntCopy(address, |src|, written);
      ghost var s := memory.Now();
      read, bytes := CopyFrom(address, |src|);
      if read == Aborted { return; }
      IntCopy(address, |src|, read);
      ReadBack(old(memory.Now()), s, memory.Now(), id, address, src[..Moved(written)], bytes);
    }

    /** vmm_map_anon */
    method MapAnon(hint: nat, length: nat, prot: nat, fixed: bool) returns (r: nat)
      requires Valid() && hint < WORD && length < WORD
      modifies space
      ensures Valid()
      ensures MapDone(old(space.segments), space.segments, space.start, space.end, hint, length, prot, fixed, r)
      ensures forall a: nat :: old(Mapped(space.segments, a)) ==> Mapped(space.segments, a)
    {
      hide Valid, Framed, Backed, ValidSegments, Mapped, At, LeastFit, Fits, Paged, RoundedHint, NoPlace,
        FirstPlace;
      Parts();
      r := space.MapCommon(hint, length, prot, Anon, fixed);
      if r != 0 {
        StillMapped(old(space.segments), space.segments, space.start, space.end, hint, length, prot, fixed, r);
        StillBacked(memory.Now(), id, old(space.segments), space.segments);
      }
      Whole();
    }

    /** vmm_map_anon with VMM_FLAG_NO_DEMAND: every page of the range is backed at once. None stands for a panic. The
        source lists the segment once its pages are there; nothing looks at the list in between. */
    method MapAtOnce(hint: nat, length: nat, prot: nat, fixed: bool) returns (r: Option<nat>)
      requires Valid() && hint < WORD && length < WORD
      modifies space, memory, memory.tables`mem, memory.tables`node, memory.zone
      ensures r.None? ==> Frames.Exhausted(memory.zone.Snap()) || !Readable(prot)
      ensures r.Some? ==>
        && Valid() && Confined(old(memory.Now()), memory.Now(), id, 0, 0)
        && MapDone(old(space.segments), space.segments, space.start, space.end, hint, length, prot, fixed, r.value)
        && (r.value != 0 ==> AllPresent(memory.tables.T(), id, r.value, r.value + length))
        && (r.value != 0 ==> forall a: nat {:trigger RightsAt(memory.tables.T(), id, a)} ::
              r.value <= a < r.value + length ==>
                RightsAt(memory.tables.T(), id, a)
                  == Some(Rights(Has(prot, PROT_WRITE), true, !Has(prot, PROT_EXEC))))
    {
      hide Valid, Framed, ValidSegments, Mapped, At, LeastFit, Fits, Paged, RoundedHint, NoPlace, Frames.Exhausted,
        Confined, Readable, Translate, Backed;
      Parts();
      var at := MapAnon(hint, length, prot, fixed);
      if at == 0 {
        ConfinedNothing(memory.Now(), id, 0, 0);
        return Some(0);
      }
      Parts();
      PlaceFits(old(space.segments), space.segments, space.start, space.end, hint, length, prot, fixed, at);
      FreshRange(memory.Now(), id, old(space.segments), space.start, space.end, at, length);
      RangeProtected(space.segments, old(space.segments), at, length, Attr(prot, Anon));
      var ok := MapPages(at, length, prot);
      if !ok { return None; }
      forall a: nat {:trigger RightsAt(memory.tables.T(), id, a)} | at <= a < at + length
        ensures RightsAt(memory.tables.T(), id, a)
                  == Some(Rights(Has(prot, PROT_WRITE), true, !Has(prot, PROT_EXEC)))
      {
        RightsExact(a);
      }
      return Some(at);
    }

    /** segment_map on a range of pages that are not present yet. */
    method MapPages(lo: nat, n: nat, prot: nat) returns (ok: bool)
      requires Valid() && Paged(lo) && Paged(n) && lo + n <= USER_LIMIT
      requires forall x :: lo <= x < lo + n ==> Protected(space.segments, x, prot)
      requires Framed(memory.tables.T()) && NonePresent(memory.tables.T(), id, lo, lo + n)
      modifies memory, memory.tables`mem, memory.tables`node, memory.zone
      ensures !ok ==> Frames.Exhausted(memory.zone.Snap()) || !Readable(prot)
      ensures ok ==>
        && Valid() && Confined(old(memory.Now()), memory.Now(), id, 0, 0) && Framed(memory.tables.T())
        && AllPresent(memory.tables.T(), id, lo, lo + n)
    {
      hide Valid, Framed, Mapped, Frames.Exhausted, Confined, Readable, Translate, OnePageMapped, Protected, RightsAt;
      ghost var before := memory.Now();
      ConfinedNothing(before, id, 0, 0);
      var i := 0;
      while i < n
        invariant 0 <= i <= n && Paged(i) && Valid() && Confined(before, memory.Now(), id, 0, 0)
        invariant Framed(memory.tables.T()) && AllPresent(memory.tables.T(), id, lo, lo + i)
        invariant NonePresent(memory.tables.T(), id, lo + i, lo + n)
      {
        ghost var s := memory.Now();
        PagedGap(i, n);
        var frame := MapPage(lo + i, prot);
        if frame.None? { return false; }
        OneMorePresent(s, memory.Now(), id, lo, lo + i, lo + n, frame.value, prot);
        ConfinedThrough(before, s, memory.Now(), id, 0, 0);
        i := i + PAGE_SIZE;
      }
      return true;
    }

    /** segment_unmap */
    method ClearRange(lo: nat, n: nat)
      requires memory.tables.Valid() && id in memory.tables.cr3
      requires lo % PAGE_SIZE == 0 && n % PAGE_SIZE == 0 && lo + n <= USER_LIMIT
      modifies memory.tables`mem
      ensures memory.tables.Valid() && memory.tables.mem.Keys == old(memory.tables.mem.Keys)
      ensures Framed(old(memory.tables.T())) && Framed(memory.tables.T())
      ensures Cleared(old(memory.tables.T()), memory.tables.T(), id, lo, lo + n)
    {
      hide ValidTables, Framed, Leaf, Path, Cleared, Step;
      ghost var t := memory.tables.T();
      ValidFramed(t);
      NothingCleared(t, id, lo);
      var i := 0;
      while i < n
        invariant 0 <= i <= n && i % PAGE_SIZE == 0
        invariant memory.tables.Valid() && memory.tables.mem.Keys == old(memory.tables.mem.Keys)
        invariant Framed(t) && Framed(memory.tables.T()) && Cleared(t, memory.tables.T(), id, lo, lo + i)
      {
        ghost var u := memory.tables.T();
        memory.tables.Unmap(id, lo + i);
        PageCleared(t, u, memory.tables.T(), id, lo, lo + i);
        i := i + PAGE_SIZE;
      }
    }

    /** The pages of all ranges that vmm_unmap cuts out of segments. */
    method ClearCuts(cuts: seq<(nat, nat)>)
      requires memory.tables.Valid() && id in memory.tables.cr3
      requires forall c :: c in cuts ==> Paged(c.0) && Paged(c.1) && c.0 + c.1 <= USER_LIMIT
      modifies memory.tables`mem
      ensures memory.tables.Valid() && memory.tables.mem.Keys == old(memory.tables.mem.Keys)
      ensures Framed(old(memory.tables.T())) && Framed(memory.tables.T())
      ensures ClearedCuts(old(memory.tables.T()), memory.tables.T(), id, cuts)
    {
      hide ValidTables, Framed, Leaf, Path, Cleared, ClearedCuts;
      ghost var t := memory.tables.T();
      ValidFramed(t);
      NoCuts(t, id);
      var k := 0;
      while k < |cuts|
        invariant 0 <= k <= |cuts|
        invariant memory.tables.Valid() && memory.tables.mem.Keys == old(memory.tables.mem.Keys)
        invariant Framed(memory.tables.T()) && ClearedCuts(t, memory.tables.T(), id, cuts[..k])
      {
        ghost var u := memory.tables.T();
        assert cuts[k] in cuts;
        ClearRange(cuts[k].0, cuts[k].1);
        CutCleared(t, u, memory.tables.T(), id, cuts, k);
        k := k + 1;
      }
      assert cuts[..k] == cuts;
    }

    /** vmm_unmap: the range loses its segments and its pages; everything else keeps both. */
    method Unmap(address: nat, length: nat)
      requires Valid() && Paged(address) && Paged(length)
      requires length == 0 || InBounds(space.start, space.end, address, length)
      modifies space, memory.tables`mem
      ensures Valid()
      ensures Removed(space.segments, old(space.segments), address, address + length)
      ensures Framed(old(memory.tables.T())) && Framed(memory.tables.T())
      ensures Cleared(old(memory.tables.T()), memory.tables.T(), id, address, address + length)
      ensures Confined(old(memory.Now()), memory.Now(), id, address, address + length)
    {
      hide ValidTables, Framed, Frames.Reserved, ValidSegments, Mapped, Translate, At, Removed, Cleared, ClearedCuts,
        Backed, Paged, Confined;
      memory.FramedNow();
      ghost var before := memory.Now();
      if length == 0 {
        RemovedNone(space.segments, address);
        NothingCleared(before.t, id, address);
        ConfinedNothing(before, id, address, address);
        return;
      }
      var cuts := space.Unmap(address, length);
      KindsKept(old(space.segments), space.segments, space.start, space.end, address, address + length);
      ClearCuts(cuts);
      RangeCleared(before, memory.Now(), id, old(space.segments), space.segments, cuts, address, address + length);
    }
  }

  /** For an int the copies accept exactly the mapped ranges that end before the last byte of the space. */
  lemma AcceptedExact(segs: seq<Segment>, start: nat, end: nat, a: nat, n: nat, res: CopyResult)
    requires ValidBounds(start, end) && ValidSegments(segs, start, end) && end < USER_LIMIT && a < WORD && n < INT_LIMIT
    requires CopyDone(segs, start, end, a, n, res)
    ensures res == Copied(if Accepted(segs, end, a, n) then n else 0)
  {
    hide ValidSegments, Mapped;
    if n > 0 && AllMapped(segs, a, n) {
      assert Mapped(segs, a);
      MappedInBounds(segs, start, end, a);
    }
  }

  /** `len` bytes from address a on lie in one page, at this offset. */
  predicate InPage(a: nat, offset: nat, len: nat) {
    offset == a % PAGE_SIZE && 0 < len <= PAGE_SIZE - offset
  }

  lemma FrameRead(s: Image, u: Image, id: Space, segs: seq<Segment>, a: nat, done: seq<byte>, f: nat, offset: nat,
                  len: nat)
    requires Framed(u.t) && Backed(u, id, segs) && PageSized(u.data) && Gathered(s, u, id, a, done)
    requires Translate(u.t, id, a + |done|) == Some(f)
    requires InPage(a + |done|, offset, len) && a + |done| + len <= USER_LIMIT
    ensures f in u.data && offset + len <= |u.data[f]|
    ensures Gathered(s, u, id, a, done + u.data[f][offset..offset + len])
  {
    hide Framed, Backed, Translate, PageSized, Holds, Gathered, Confined;
    ReadBytes(u, id, segs, a + |done|, len);
    ConfinedNothing(u, id, 0, 0);
    GatherStep(s, u, u, id, a, done, u.data[f][offset..offset + len]);
  }

  lemma RestMapped(segs: seq<Segment>, start: nat, end: nat, a: nat, len: nat)
    requires ValidSegments(segs, start, end) && Mapped(segs, a) && 0 < len <= PAGE_SIZE - a % PAGE_SIZE
    ensures AllMapped(segs, a, len) && a + len <= end
  {
    hide ValidSegments, Mapped;
    forall x: nat | a <= x < a + len ensures Mapped(segs, x) {
      OnePage(a, x);
      SameSegment(segs, start, end, a, x);
    }
    MappedInBounds(segs, start, end, a + len - 1);
  }

  lemma OnePage(a: nat, x: nat)
    requires a <= x < a + PAGE_SIZE - a % PAGE_SIZE
    ensures a / PAGE_SIZE == x / PAGE_SIZE
  {
  }

  /** One more address that is mapped, or the first one that is not. */
  lemma MoreMapped(segs: seq<Segment>, a: nat, i: nat, n: nat)
    requires AllMapped(segs, a, i)
    ensures Mapped(segs, a + i) ==> AllMapped(segs, a, i + 1)
    ensures !Mapped(segs, a + i) && i < n ==> !AllMapped(segs, a, n)
  {
  }

  /** A range that memory_exists accepts begins with a mapped address. */
  lemma FirstFound(segs: seq<Segment>, start: nat, end: nat, a: nat, n: nat)
    requires MemoryFound(segs, start, end, a, n) && n > 0
    ensures a < end && Mapped(segs, a)
  {
  }

  ghost predicate Accepted(segs: seq<Segment>, end: nat, a: nat, n: nat) {
    AllMapped(segs, a, n) && a + n < end
  }

  /** The segments with [a, a + n) put in. */
  ghost predicate Added(segs: seq<Segment>, was: seq<Segment>, a: nat, n: nat, attr: Attr) {
    forall x: nat :: At(segs, x) == if a <= x < a + n then Some(attr) else At(was, x)
  }

  /** What mapping anonymous memory comes to: 0 and nothing new, or the least fitting address and the new range. */
  ghost predicate MapDone(was: seq<Segment>, segs: seq<Segment>, start: nat, end: nat, hint: nat, length: nat,
                          prot: nat, fixed: bool, r: nat) {
    if NoPlace(was, start, end, hint, length, fixed) then r == 0 && segs == was
    else
      && r != 0 && LeastFit(was, start, end, RoundedHint(hint), length, r) && (fixed ==> r == hint) && Paged(r)
      && FirstPlace(was, start, end, hint, length, r)
      && Added(segs, was, r, length, Attr(prot, Anon))
  }

  /** All segments are anonymous. */
  predicate AllAnon(segs: seq<Segment>) {
    forall i :: 0 <= i < |segs| ==> segs[i].kind.Anon?
  }

  lemma StayDisjoint(tables: set<nat>, data: set<nat>, used: set<nat>, used': set<nat>)
    requires tables !! data && tables <= used && data <= used && used <= used'
    ensures tables + (used' - used) <= used' && data <= used' && (tables + (used' - used)) !! data
  {
  }

  lemma StaysApart(tables: set<nat>, data: set<nat>, used: set<nat>, used': set<nat>, f: nat)
    requires tables !! data && tables <= used && data <= used && used <= used' && f in used && f !in tables
    ensures tables + (used' - used) <= used' && data + {f} <= used' && (tables + (used' - used)) !! (data + {f})
  {
  }

  lemma MappedInBounds(segs: seq<Segment>, start: nat, end: nat, a: nat)
    requires ValidSegments(segs, start, end) && Mapped(segs, a)
    ensures start <= a < end
  {
    var i :| 0 <= i < |segs| && Segments.Covers(segs[i], a);
    assert SegmentOk(segs[i], start, end);
  }

  lemma StillBacked(s: Image, id: Space, was: seq<Segment>, segs: seq<Segment>)
    requires Framed(s.t) && Backed(s, id, was)
    requires forall a: nat :: Mapped(was, a) ==> Mapped(segs, a) && At(segs, a) == At(was, a)
    ensures Backed(s, id, segs)
  {
    hide Framed, Translate, PageAt, Mapped, At, GrantsOnly;
  }

  lemma SegmentFound(segs: seq<Segment>, start: nat, end: nat, i: nat, a: nat)
    requires ValidSegments(segs, start, end) && i < |segs| && Segments.Covers(segs[i], a)
    ensures Mapped(segs, a) && At(segs, a) == Some(Attr(segs[i].prot, segs[i].kind))
  {
    AtSegment(segs, start, end, i, a);
  }

  lemma KindsKept(was: seq<Segment>, segs: seq<Segment>, start: nat, end: nat, lo: nat, hi: nat)
    requires ValidSegments(was, start, end) && ValidSegments(segs, start, end) && Removed(segs, was, lo, hi)
    requires AllAnon(was)
    ensures AllAnon(segs)
  {
    hide At, Paged;
    forall i | 0 <= i < |segs| ensures segs[i].kind.Anon? {
      var a := segs[i].base;
      AtSegment(segs, start, end, i, a);
      AtMissing(was, a);
      var k :| 0 <= k < |was| && Segments.Covers(was[k], a);
      AtSegment(was, start, end, k, a);
    }
  }

  lemma PlaceFits(was: seq<Segment>, segs: seq<Segment>, start: nat, end: nat, hint: nat, length: nat, prot: nat,
                  fixed: bool, r: nat)
    requires MapDone(was, segs, start, end, hint, length, prot, fixed, r) && r != 0
    ensures Paged(r) && Paged(length) && Fits(was, start, end, r, length) && r + length <= end
  {
    hide At, Paged, RoundedHint;
  }

  /** The address lies in a segment mapped with this protection. */
  ghost predicate Protected(segs: seq<Segment>, a: nat, prot: nat) {
    Mapped(segs, a) && At(segs, a).Some? && At(segs, a).value.prot == prot
  }

  lemma RangeProtected(segs: seq<Segment>, was: seq<Segment>, a: nat, n: nat, attr: Attr)
    requires Added(segs, was, a, n, attr)
    ensures forall x :: a <= x < a + n ==> Protected(segs, x, attr.prot)
  {
    hide At, Mapped;
    forall x | a <= x < a + n ensures Protected(segs, x, attr.prot) { AtMissing(segs, x); }
  }

  lemma StillMapped(was: seq<Segment>, segs: seq<Segment>, start: nat, end: nat, hint: nat, length: nat, prot: nat,
                    fixed: bool, r: nat)
    requires MapDone(was, segs, start, end, hint, length, prot, fixed, r) && r != 0
    ensures forall a: nat :: Mapped(was, a) ==> Mapped(segs, a) && At(segs, a) == At(was, a)
  {
    PlaceFits(was, segs, start, end, hint, length, prot, fixed, r);
    hide At, RoundedHint, NoPlace, LeastFit, Paged;
    forall a: nat | Mapped(was, a) ensures Mapped(segs, a) && At(segs, a) == At(was, a) {
      var i :| 0 <= i < |was| && Segments.Covers(was[i], a);
      assert !Intersects(r, length, was[i]);
      AtMissing(was, a);
      AtMissing(segs, a);
    }
  }
}
