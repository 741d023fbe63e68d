/** Several user address spaces on one memory: what is done in one leaves the others as they are
    (kernel/src/memory/vmm.c:208-313, kernel/src/arch/x86_64/vmm.c:151-162). */
module UserSystem {
  import opened Machine
  import opened Bytes
  import opened Options
  import opened PageTree
  import opened Segments
  import opened AddressSpaces
  import opened UserBytes
  import opened UserMemory
  import BuddyState
  import Frames

  /** A call on the address space with index `who`; Touch is an access by the program itself, which faults if the page
      is not present. */
  datatype Call =
    | CopyIn(who: nat, dest: nat, src: seq<byte>)
    | CopyOut(who: nat, source: nat, count: nat)
    | Touch(who: nat, address: nat)
    | MapMore(who: nat, hint: nat, length: nat, prot: nat, fixed: bool, atOnce: bool)
    | UnmapRange(who: nat, address: nat, length: nat)

  /** The addresses whose bytes or segments a call may take away or change: [Lo, Hi) of its own space. */
  function Lo(c: Call): nat {
    match c
    case CopyIn(_, dest, _) => dest
    case UnmapRange(_, address, _) => address
    case _ => 0
  }

  function Hi(c: Call): nat {
    match c
    case CopyIn(_, dest, src) => dest + |src|
    case UnmapRange(_, address, length) => address + length
    case _ => 0
  }

  /** What a call answers: the bytes written, the bytes read, whether there is a page, and where the range was
      mapped. */
  datatype Answer = Panic | Wrote(count: nat) | Got(bytes: seq<byte>) | Present(yes: bool) | Placed(at: nat) | Gone

  /** What a call comes to without a panic in a space whose segments were `was`, seen before and after it. */
  ghost predicate Did(c: Call, answer: Answer, id: Space, start: nat, end: nat,
                      s: Image, was: seq<Segment>, u: Image, segs: seq<Segment>)
    requires Framed(s.t) && Framed(u.t)
  {
    match c
    case CopyIn(_, dest, src) =>
      && answer == Wrote(if Accepted(was, end, dest, |src|) then |src| else 0) && segs == was
      && Progress(s, u, id, dest, src[..answer.count])
    case CopyOut(_, source, count) =>
      && answer.Got? && |answer.bytes| == (if Accepted(was, end, source, count) then count else 0) && segs == was
      && Gathered(s, u, id, source, answer.bytes)
    case Touch(_, address) =>
      && answer == Present(Mapped(was, address)) && segs == was && Confined(s, u, id, 0, 0)
      && (answer.yes ==> Translate(u.t, id, address).Some?)
    case MapMore(_, hint, length, prot, fixed, atOnce) =>
      && answer.Placed? && MapDone(was, segs, start, end, hint, length, prot, fixed, answer.at)
      && Confined(s, u, id, 0, 0) && (!atOnce ==> u == s)
      && (atOnce && answer.at != 0 ==> AllPresent(u.t, id, answer.at, answer.at + length))
    case UnmapRange(_, address, length) =>
      && answer == Gone && Removed(segs, was, address, address + length)
      && Cleared(s.t, u.t, id, address, address + length) && Confined(s, u, id, address, address + length)
  }

  /** The only reasons for a panic: no free page, or a segment without read access under the addresses accessed. */
  ghost predicate Excused(c: Call, segs: seq<Segment>, free: BuddyState.State) {
    match c
    case CopyIn(_, dest, src) => Frames.Exhausted(free) || SomeUnreadable(segs, dest, dest + |src|)
    case CopyOut(_, source, count) => Frames.Exhausted(free) || SomeUnreadable(segs, source, source + count)
    case Touch(_, address) => Frames.Exhausted(free) || SomeUnreadable(segs, address, address + 1)
    case MapMore(_, _, _, prot, _, atOnce) => atOnce && (Frames.Exhausted(free) || !Readable(prot))
    case UnmapRange(_, _, _) => false
  }

  ghost predicate SomeUnreadable(segs: seq<Segment>, lo: nat, hi: nat) {
    exists a: nat :: lo <= a < hi && Unreadable(segs, a)
  }

  class System {
    const memory: Memory
    var spaces: seq<UserMemory>

    /** The spaces are apart: no two have one name or one segment list. */
    ghost predicate Valid()
      reads this, memory, memory.tables, memory.zone, spaces, set i | 0 <= i < |spaces| :: spaces[i].space
    {
      && memory.Valid()
      && (forall i :: 0 <= i < |spaces| ==> spaces[i].memory == memory && spaces[i].Valid())
      && (forall i, j :: 0 <= i < j < |spaces| ==> spaces[i].id != spaces[j].id && spaces[i].space != spaces[j].space)
    }

    constructor (memory: Memory)
      requires memory.Valid()
      ensures Valid() && this.memory == memory && spaces == []
    {
      this.memory, this.spaces := memory, [];
    }

    /** What the callers of the memory manager must respect. */
    predicate Legal(c: Call)
      reads this, spaces
    {
      c.who < |spaces|
      && match c
         case CopyIn(_, dest, src) => dest < WORD && |src| < INT_LIMIT
         case CopyOut(_, source, count) => source < WORD && count < INT_LIMIT
         case Touch(_, address) => address < USER_LIMIT
         case MapMore(_, hint, length, _, _, _) => hint < WORD && length < WORD
         case UnmapRange(_, address, length) =>
           && Paged(address) && Paged(length)
           && (length == 0 || InBounds(spaces[c.who].space.start, spaces[c.who].space.end, address, length))
    }

    /** The memory as seen before and after something done in space k. */
    ghost predicate OthersSame(s: Image, u: Image, k: nat)
      requires Framed(s.t) && Framed(u.t)
      reads this, spaces
    {
      forall j, a: nat {:trigger ByteAt(u, spaces[j].id, a)} :: 0 <= j < |spaces| && j != k && a < USER_LIMIT ==>
        ByteAt(u, spaces[j].id, a) == ByteAt(s, spaces[j].id, a)
    }

    /** Space j, when the memory looked like s. */
    ghost predicate StandsIn(s: Image, j: nat)
      requires j < |spaces| && Framed(s.t)
      reads this, spaces[j].space
    {
      var user := spaces[j];
      && user.memory == memory && user.space.Valid() && user.space.end < USER_LIMIT
      && AllAnon(user.space.segments) && Backed(s, user.id, user.space.segments)
    }

    ghost predicate Rooted()
      reads this, memory.tables`cr3
    {
      forall j :: 0 <= j < |spaces| ==> spaces[j].id in memory.tables.cr3
    }

    lemma AllStand()
      requires Valid()
      ensures Framed(memory.Now().t) && Rooted()
      ensures forall j :: 0 <= j < |spaces| ==> StandsIn(memory.Now(), j)
    {
      hide Framed, Backed, ValidSegments, AllAnon, ValidTables, PageSized;
      memory.FramedNow();
    }

    lemma Apart()
      requires Valid()
      ensures DistinctSpaces()
    {
    }

    ghost predicate DistinctSpaces()
      reads this, spaces
    {
      forall i, j :: 0 <= i < j < |spaces| ==> spaces[i].id != spaces[j].id && spaces[i].space != spaces[j].space
    }

    /** What was done in space k since the memory looked like s, and confined to it, leaves every other space valid and
        every byte in it readable. */
    lemma OthersValid(s: Image, k: nat, lo: nat, hi: nat)
      requires k < |spaces| && spaces[k].memory == memory && spaces[k].Valid() && DistinctSpaces() && Rooted()
      requires Confined(s, memory.Now(), spaces[k].id, lo, hi) && Framed(s.t)
      requires forall j :: 0 <= j < |spaces| && j != k ==> StandsIn(s, j)
      ensures Valid() && Framed(memory.Now().t) && OthersSame(s, memory.Now(), k)
    {
      hide Framed, Backed, Confined, ValidSegments, AllAnon, ByteAt, UserMemory.Valid;
      spaces[k].Parts();
      forall j | 0 <= j < |spaces| && j != k
        ensures spaces[j].memory == memory && spaces[j].Valid()
        ensures forall a: nat {:trigger ByteAt(memory.Now(), spaces[j].id, a)} :: a < USER_LIMIT ==>
                  ByteAt(memory.Now(), spaces[j].id, a) == ByteAt(s, spaces[j].id, a)
      {
        var other := spaces[j];
        assert StandsIn(s, j);
        assert other.id != spaces[k].id;
        OthersKeep(s, memory.Now(), spaces[k].id, lo, hi, other.id, other.space.segments);
        other.Whole();
      }
    }

    /** The same when nothing at all was done in the spaces. */
    lemma AllValid(s: Image, id: Space)
      requires memory.Valid() && DistinctSpaces() && Rooted() && Framed(s.t) && Confined(s, memory.Now(), id, 0, 0)
      requires forall j :: 0 <= j < |spaces| ==> StandsIn(s, j) && spaces[j].id != id
      ensures Valid() && Framed(memory.Now().t)
      ensures forall j, a: nat {:trigger ByteAt(memory.Now(), spaces[j].id, a)} ::
                0 <= j < |spaces| && a < USER_LIMIT ==>
                ByteAt(memory.Now(), spaces[j].id, a) == ByteAt(s, spaces[j].id, a)
    {
      hide Framed, Backed, Confined, ValidSegments, AllAnon, ByteAt, UserMemory.Valid;
      memory.FramedNow();
      forall j | 0 <= j < |spaces|
        ensures spaces[j].memory == memory && spaces[j].Valid()
        ensures forall a: nat {:trigger ByteAt(memory.Now(), spaces[j].id, a)} :: a < USER_LIMIT ==>
                  ByteAt(memory.Now(), spaces[j].id, a) == ByteAt(s, spaces[j].id, a)
      {
        var other := spaces[j];
        assert StandsIn(s, j);
        OthersKeep(s, memory.Now(), id, 0, 0, other.id, other.space.segments);
        other.Whole();
      }
    }

    lemma SharedPart()
      requires Valid()
      ensures memory.Valid()
    {
    }

    method Extend(user: UserMemory)
      requires Valid() && user.memory == memory && user.Valid()
      requires forall j :: 0 <= j < |spaces| ==> spaces[j].id != user.id && spaces[j].space != user.space
      modifies this`spaces
      ensures Valid() && spaces == old(spaces) + [user]
    {
      hide UserMemory.Valid, Memory.Valid;
      spaces := spaces + [user];
    }

    lemma OldIds(n: nat)
      requires Valid() && forall l :: l in memory.tables.node ==> l.space != User(n)
      ensures forall j :: 0 <= j < |spaces| ==> spaces[j].id != User(n)
    {
      hide ValidTables, Framed, Backed, ValidSegments, AllAnon;
      forall j | 0 <= j < |spaces| ensures spaces[j].id != User(n) {
        assert Root(spaces[j].id) in memory.tables.node;
      }
    }

    lemma Member(k: nat)
      requires Valid() && k < |spaces|
      ensures spaces[k].Valid() && spaces[k].memory == memory && memory.Valid()
    {
    }

    /** arch_vmm_address_space_create for a user space: it starts without segments and pages, and no byte of another one
        changes; false stands for the out-of-memory panic. */
    method Create(n: nat, start: nat, end: nat) returns (ok: bool)
      requires Valid() && Kernel in memory.tables.cr3 && ValidBounds(start, end) && end < USER_LIMIT
      requires forall l :: l in memory.tables.node ==> l.space != User(n)
      modifies this`spaces, memory`used, memory.tables, memory.zone
      ensures Valid() && Framed(old(memory.Now()).t) && Framed(memory.Now().t)
      ensures !ok ==> spaces == old(spaces) && Frames.Exhausted(memory.zone.Snap())
      ensures ok ==>
        && |spaces| == |old(spaces)| + 1 && spaces[..|old(spaces)|] == old(spaces)
        && var user := spaces[|old(spaces)|];
           user.id == User(n) && user.space.segments == [] && user.space.start == start && user.space.end == end
      ensures forall j, a: nat {:trigger ByteAt(memory.Now(), old(spaces[j]).id, a)} ::
                0 <= j < |old(spaces)| && a < USER_LIMIT ==>
                  ByteAt(memory.Now(), old(spaces[j]).id, a) == old(ByteAt(memory.Now(), spaces[j].id, a))
    {
      hide Valid, UserMemory.Valid, Memory.Valid, Framed, Frames.Exhausted, NoPages, Confined, ByteAt, StandsIn,
        DistinctSpaces, ValidSegments;
      ghost var s, users := memory.Now(), spaces;
      SharedPart();
      AllStand();
      Apart();
      OldIds(n);
      var space := new AddressSpace(start, end);
      ok := memory.CreateSpace(n);
      forall j | 0 <= j < |users| ensures StandsIn(s, j) { assert old(StandsIn(s, j)); }
      AllValid(s, User(n));
      if ok {
        var user := new UserMemory(User(n), space, memory);
        Extend(user);
      }
    }

    /** vmm_copy_to into space k. */
    method Write(k: nat, dest: nat, src: seq<byte>) returns (res: CopyResult)
      requires Valid() && k < |spaces| && dest < WORD && |src| < INT_LIMIT
      modifies memory, memory.tables`mem, memory.tables`node, memory.zone
      ensures res.Aborted? ==>
        Frames.Exhausted(memory.zone.Snap()) || SomeUnreadable(spaces[k].space.segments, dest, dest + |src|)
      ensures !res.Aborted? ==> res == Copied(if spaces[k].Accessible(dest, |src|) then |src| else 0)
      ensures !res.Aborted? ==> Valid() && Framed(old(memory.Now()).t) && Framed(memory.Now().t)
      ensures !res.Aborted? ==> Progress(old(memory.Now()), memory.Now(), spaces[k].id, dest, src[..res.count])
      ensures !res.Aborted? ==> OthersSame(old(memory.Now()), memory.Now(), k)
    {
      hide Valid, UserMemory.Valid, Framed, Confined, Unreadable, OthersSame, Frames.Exhausted,
        UserMemory.Accessible, Holds, CopyDone;
      ghost var s := memory.Now();
      Member(k);
      AllStand();
      Apart();
      res := spaces[k].CopyTo(dest, src);
      if !res.Aborted? {
        spaces[k].IntCopy(dest, |src|, res);
        forall j | 0 <= j < |spaces| && j != k ensures StandsIn(s, j) { assert old(StandsIn(s, j)); }
        OthersValid(s, k, dest, dest + |src[..res.count]|);
      }
    }

    /** vmm_copy_from out of space k. */
    method Read(k: nat, source: nat, count: nat) returns (res: CopyResult, bytes: seq<byte>)
      requires Valid() && k < |spaces| && source < WORD && count < INT_LIMIT
      modifies memory, memory.tables`mem, memory.tables`node, memory.zone
      ensures res.Aborted? ==>
        Frames.Exhausted(memory.zone.Snap()) || SomeUnreadable(spaces[k].space.segments, source, source + count)
      ensures !res.Aborted? ==> res == Copied(if spaces[k].Accessible(source, count) then count else 0)
      ensures !res.Aborted? ==> Valid() && Framed(old(memory.Now()).t) && Framed(memory.Now().t)
      ensures !res.Aborted? ==>
        |bytes| == res.count && Gathered(old(memory.Now()), memory.Now(), spaces[k].id, source, bytes)
      ensures !res.Aborted? ==> OthersSame(old(memory.Now()), memory.Now(), k)
    {
      hide Valid, UserMemory.Valid, Framed, Confined, Unreadable, OthersSame, Frames.Exhausted,
        UserMemory.Accessible, Holds, CopyDone;
      ghost var s := memory.Now();
      Member(k);
      AllStand();
      Apart();
      res, bytes := spaces[k].CopyFrom(source, count);
      if !res.Aborted? {
        spaces[k].IntCopy(source, count, res);
        forall j | 0 <= j < |spaces| && j != k ensures StandsIn(s, j) { assert old(StandsIn(s, j)); }
        OthersValid(s, k, 0, 0);
      }
    }

    /** An access of a program to its own space. */
    method Access(k: nat, address: nat) returns (res: Resolution)
      requires Valid() && k < |spaces| && address < USER_LIMIT
      modifies memory, memory.tables`mem, memory.tables`node, memory.zone
      ensures res.Stopped? ==>
        Frames.Exhausted(memory.zone.Snap()) || SomeUnreadable(spaces[k].space.segments, address, address + 1)
      ensures !res.Stopped? ==> Valid() && Framed(old(memory.Now()).t) && Framed(memory.Now().t)
      ensures !res.Stopped? ==> (res.Found? <==> Mapped(spaces[k].space.segments, address))
      ensures res.Found? ==> Translate(memory.Now().t, spaces[k].id, address) == Some(res.phys)
      ensures !res.Stopped? ==> Confined(old(memory.Now()), memory.Now(), spaces[k].id, 0, 0)
      ensures !res.Stopped? ==> OthersSame(old(memory.Now()), memory.Now(), k)
    {
      hide Valid, UserMemory.Valid, Framed, Confined, Unreadable, OthersSame, Frames.Exhausted, Mapped, Translate;
      ghost var s := memory.Now();
      Member(k);
      AllStand();
      Apart();
      res := spaces[k].Resolve(address);
      if !res.Stopped? {
        forall j | 0 <= j < |spaces| && j != k ensures StandsIn(s, j) { assert old(StandsIn(s, j)); }
        OthersValid(s, k, 0, 0);
      }
    }

    /** vmm_map_anon in space k, page by page at once or on demand; None stands for a panic. */
    method Map(k: nat, hint: nat, length: nat, prot: nat, fixed: bool, atOnce: bool) returns (r: Option<nat>)
      requires Valid() && k < |spaces| && hint < WORD && length < WORD
      modifies spaces[k].space, memory, memory.tables`mem, memory.tables`node, memory.zone
      ensures r.None? ==> atOnce && (Frames.Exhausted(memory.zone.Snap()) || !Readable(prot))
      ensures r.Some? ==>
        && Valid() && Framed(old(memory.Now()).t) && Framed(memory.Now().t)
        && OthersSame(old(memory.Now()), memory.Now(), k)
        && Confined(old(memory.Now()), memory.Now(), spaces[k].id, 0, 0)
        && MapDone(old(spaces[k].space.segments), spaces[k].space.segments, spaces[k].space.start, spaces[k].space.end,
                   hint, length, prot, fixed, r.value)
        && (atOnce && r.value != 0 ==> AllPresent(memory.Now().t, spaces[k].id, r.value, r.value + length))
        && (!atOnce ==> memory.Now() == old(memory.Now()))
    {
      hide Valid, UserMemory.Valid, Framed, Confined, OthersSame, Mapped, At, MapDone, Frames.Exhausted, Readable,
        AllPresent;
      ghost var s := memory.Now();
      Member(k);
      AllStand();
      Apart();
      if atOnce {
        r := spaces[k].MapAtOnce(hint, length, prot, fixed);
        if r.None? { return; }
      } else {
        var at := spaces[k].MapAnon(hint, length, prot, fixed);
        r := Some(at);
        ConfinedNothing(s, spaces[k].id, 0, 0);
      }
      forall j | 0 <= j < |spaces| && j != k ensures StandsIn(s, j) {
        assert old(StandsIn(s, j));
        assert spaces[j].space != spaces[k].space;
      }
      OthersValid(s, k, 0, 0);
    }

    /** vmm_unmap in space k. */
    method Unmap(k: nat, address: nat, length: nat)
      requires Valid() && k < |spaces| && Paged(address) && Paged(length)
      requires length == 0 || InBounds(spaces[k].space.start, spaces[k].space.end, address, length)
      modifies spaces[k].space, memory.tables`mem
      ensures Valid() && Framed(old(memory.Now()).t) && Framed(memory.Now().t)
      ensures Removed(spaces[k].space.segments, old(spaces[k].space.segments), address, address + length)
      ensures Cleared(old(memory.Now()).t, memory.Now().t, spaces[k].id, address, address + length)
      ensures Confined(old(memory.Now()), memory.Now(), spaces[k].id, address, address + length)
      ensures OthersSame(old(memory.Now()), memory.Now(), k)
    {
      hide Valid, UserMemory.Valid, Framed, Confined, OthersSame, Removed, Cleared, Paged, InBounds;
      ghost var s := memory.Now();
      Member(k);
      AllStand();
      Apart();
      spaces[k].Unmap(address, length);
      forall j | 0 <= j < |spaces| && j != k ensures StandsIn(s, j) {
        assert old(StandsIn(s, j));
        assert spaces[j].space != spaces[k].space;
      }
      OthersValid(s, k, address, address + length);
    }

    /** One call. It achieves what Did says, and at most the bytes and segments it names change, in its own space. */
    method Perform(c: Call) returns (answer: Answer)
      requires Valid() && Legal(c)
      modifies memory, memory.tables`mem, memory.tables`node, memory.zone, spaces[c.who].space
      ensures answer.Panic? ==> Excused(c, spaces[c.who].space.segments, memory.zone.Snap())
      ensures !answer.Panic? ==> Valid() && Framed(old(memory.Now()).t) && Framed(memory.Now().t)
      ensures !answer.Panic? ==>
        Did(c, answer, spaces[c.who].id, spaces[c.who].space.start, spaces[c.who].space.end,
            old(memory.Now()), old(spaces[c.who].space.segments), memory.Now(), spaces[c.who].space.segments)
      ensures !answer.Panic? ==> OthersSame(old(memory.Now()), memory.Now(), c.who)
    {
      hide Valid, UserMemory.Valid, Framed, Confined, Mapped, Removed, SomeUnreadable, OthersSame, Paged, Cleared,
        Progress, Gathered, Frames.Exhausted, InBounds, Translate, Accepted, MapDone, AllPresent, Readable;
      match c {
        case CopyIn(k, dest, src) =>
          var res := Write(k, dest, src);
          answer := if res.Aborted? then Panic else Wrote(res.count);
        case CopyOut(k, source, count) =>
          var res, bytes := Read(k, source, count);
          answer := if res.Aborted? then Panic else Got(bytes);
        case Touch(k, address) =>
          var res := Access(k, address);
          answer := if res.Stopped? then Panic else Present(res.Found?);
        case MapMore(k, hint, length, prot, fixed, atOnce) =>
          var r := Map(k, hint, length, prot, fixed, atOnce);
          answer := if r.None? then Panic else Placed(r.value);
        case UnmapRange(k, address, length) =>
          Unmap(k, address, length);
          answer := Gone;
      }
    }

    /** What was copied into one space is copied out of it again, whatever other spaces did in between and whatever the
        space itself did to other addresses, unless a call or one of the copies had a reason to panic. */
    method RoundTrip(k: nat, address: nat, src: seq<byte>, calls: seq<Call>) returns (done: bool, bytes: seq<byte>)
      requires Valid() && k < |spaces| && address < WORD && |src| < INT_LIMIT && spaces[k].Accessible(address, |src|)
      requires forall c :: c in calls ==> Legal(c) && (c.who == k ==> Elsewhere(c, address, |src|))
      modifies memory, memory.tables`mem, memory.tables`node, memory.zone
      modifies set i | 0 <= i < |spaces| :: spaces[i].space
      ensures done ==> Valid() && bytes == src
      ensures !done ==>
        || Frames.Exhausted(memory.zone.Snap())
        || SomeUnreadable(spaces[k].space.segments, address, address + |src|)
        || exists c :: c in calls && c.who < |spaces| && Excused(c, spaces[c.who].space.segments, memory.zone.Snap())
    {
      hide Valid, UserMemory.Valid, Framed, Confined, OthersSame, Holds, Accepted, Elsewhere, Mapped, Did, Excused,
        SomeUnreadable, Frames.Exhausted;
      bytes := [];
      var res := Write(k, address, src);
      if res.Aborted? { return false, bytes; }
      assert src[..res.count] == src;
      var i := 0;
      while i < |calls|
        invariant 0 <= i <= |calls| && Valid() && Framed(memory.Now().t)
        invariant Holds(memory.Now(), spaces[k].id, address, src) && spaces[k].Accessible(address, |src|)
      {
        ghost var s := memory.Now();
        var c := calls[i];
        ghost var segs, own := spaces[k].space.segments, spaces[c.who].space.segments;
        assert c in calls;
        Apart();
        InUserHalf(k, address, |src|);
        var answer := Perform(c);
        if answer.Panic? { return false, bytes; }
        DidConfined(c, answer, spaces[c.who].id, spaces[c.who].space.start, spaces[c.who].space.end,
                    s, own, memory.Now(), spaces[c.who].space.segments);
        StillThere(s, memory.Now(), k, c, address, src);
        StillAccessible(segs, k, c, address, |src|);
        i := i + 1;
      }
      ghost var s := memory.Now();
      InUserHalf(k, address, |src|);
      res, bytes := Read(k, address, |src|);
      if res.Aborted? { return false, bytes; }
      StillHolds(s, memory.Now(), spaces[k].id, 0, 0, address, src);
      SameBytes(memory.Now(), spaces[k].id, address, src, bytes);
      return true, bytes;
    }

    lemma InUserHalf(k: nat, a: nat, n: nat)
      requires Valid() && k < |spaces| && spaces[k].Accessible(a, n)
      ensures a + n <= USER_LIMIT
    {
      Member(k);
      hide Valid;
      spaces[k].Parts();
    }

    /** A call leaves the bytes of space k that it does not name. */
    lemma StillThere(s: Image, u: Image, k: nat, c: Call, a: nat, bytes: seq<byte>)
      requires k < |spaces| && c.who < |spaces| && Framed(s.t) && Framed(u.t) && a + |bytes| <= USER_LIMIT
      requires Confined(s, u, spaces[c.who].id, Lo(c), Hi(c)) && OthersSame(s, u, c.who)
      requires c.who == k ==> Elsewhere(c, a, |bytes|)
      requires Holds(s, spaces[k].id, a, bytes)
      ensures Holds(u, spaces[k].id, a, bytes)
    {
      hide Framed, ByteAt, Confined;
      if c.who == k { StillHolds(s, u, spaces[k].id, Lo(c), Hi(c), a, bytes); }
    }

    lemma StillAccessible(was: seq<Segment>, k: nat, c: Call, a: nat, n: nat)
      requires k < |spaces| && Accepted(was, spaces[k].space.end, a, n)
      requires if c.who == k then Elsewhere(c, a, n) && forall x: nat :: !(Lo(c) <= x < Hi(c)) && Mapped(was, x) ==>
                                    Mapped(spaces[k].space.segments, x)
               else spaces[k].space.segments == was
      ensures spaces[k].Accessible(a, n)
    {
      hide Mapped;
    }
  }

  /** The call changes nothing in [a, a + n) of its own space. */
  predicate Elsewhere(c: Call, a: nat, n: nat) {
    Lo(c) >= Hi(c) || Hi(c) <= a || a + n <= Lo(c)
  }

  /** At most the bytes and segments that a call names change, in its own space. */
  lemma DidConfined(c: Call, answer: Answer, id: Space, start: nat, end: nat,
                    s: Image, was: seq<Segment>, u: Image, segs: seq<Segment>)
    requires Framed(s.t) && Framed(u.t) && Did(c, answer, id, start, end, s, was, u, segs)
    ensures Confined(s, u, id, Lo(c), Hi(c))
    ensures forall a: nat :: !(Lo(c) <= a < Hi(c)) && Mapped(was, a) ==> Mapped(segs, a)
  {
    hide Framed, Confined, Mapped, Removed, Added, Cleared, LeastFit, NoPlace, Accepted, Translate, Holds, AllPresent;
    match c {
      case CopyIn(_, dest, src) => ConfinedWider(s, u, id, dest, Hi(c), dest, dest + answer.count);
      case MapMore(_, hint, length, prot, fixed, _) =>
        if answer.at != 0 { StillMapped(was, segs, start, end, hint, length, prot, fixed, answer.at); }
      case UnmapRange(_, address, length) => RemovedKeeps(segs, was, address, address + length);
      case _ =>
    }
  }

  lemma RemovedKeeps(segs: seq<Segment>, was: seq<Segment>, lo: nat, hi: nat)
    requires Removed(segs, was, lo, hi)
    ensures forall a: nat :: !(lo <= a < hi) && Mapped(was, a) ==> Mapped(segs, a)
  {
    hide At, Mapped;
    forall a: nat | !(lo <= a < hi) && Mapped(was, a) ensures Mapped(segs, a) {
      AtMissing(was, a);
      AtMissing(segs, a);
    }
  }
}
