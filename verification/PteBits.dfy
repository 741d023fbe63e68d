/** The 64-bit words behind page table entries (kernel/src/arch/x86_64/vmm.c:23-24, 42-104): the bit operations of
    the mapping loop act on the fields of an entry as PageTree says. */
module PteBits {
  import opened Options
  import opened PageTree

  const ADDRESS_MASK: bv64 := 0x000F_FFFF_FFFF_F000
  const PRESENT: bv64 := 0x1
  const RW: bv64 := 0x2
  const USER: bv64 := 0x4
  const PAT: bv64 := 0x80
  const GLOBAL: bv64 := 0x100
  const NX: bv64 := 0x8000_0000_0000_0000

  function SetAddress(entry: bv64, address: bv64): bv64 {
    (entry & !ADDRESS_MASK) | (address & ADDRESS_MASK)
  }

  function GetAddress(entry: bv64): bv64 {
    entry & ADDRESS_MASK
  }

  datatype Protection = Protection(read: bool, write: bool, exec: bool)

  datatype Cache = Standard | WriteCombine

  /** flags_cache_prot_to_x86_flags; None stands for the panic on a mapping without read access. */
  function X86Flags(prot: Protection, cache: Cache, user: bool, global: bool): Option<bv64> {
    if !prot.read then None
    else
      Some((if prot.write then RW else 0) | (if !prot.exec then NX else 0) | (if user then USER else 0)
           | (if global then GLOBAL else 0) | (match cache case Standard => 0 case WriteCombine => PAT))
  }

  /** The fields of an entry word. */
  function Decode(w: bv64): Entry<bv64> {
    Entry(w & PRESENT != 0, w & RW != 0, w & USER != 0, w & NX != 0, w & GLOBAL != 0, w & PAT != 0, GetAddress(w))
  }

  function DecodeFlags(w: bv64): Flags {
    Flags(w & RW != 0, w & USER != 0, w & NX != 0, w & GLOBAL != 0, w & PAT != 0)
  }

  /** Where the processor looks for each field of an entry. */
  lemma DecodeBits(w: bv64)
    ensures var e := Decode(w);
      && (e.present <==> w & 1 == 1) && (e.rw <==> (w >> 1) & 1 == 1) && (e.user <==> (w >> 2) & 1 == 1)
      && (e.pat <==> (w >> 7) & 1 == 1) && (e.global <==> (w >> 8) & 1 == 1) && (e.nx <==> w >> 63 == 1)
      && e.addr == ((w >> 12) & 0xFF_FFFF_FFFF) << 12
    ensures DecodeFlags(w) == Flags(Decode(w).rw, Decode(w).user, Decode(w).nx, Decode(w).global, Decode(w).pat)
  {
  }

  /** What a mapping request asks for, in the tables' terms. */
  lemma FlagsOfRequest(prot: Protection, cache: Cache, user: bool, global: bool)
    ensures match X86Flags(prot, cache, user, global)
            case None => !prot.read
            case Some(w) => DecodeFlags(w) == Flags(prot.write, user, !prot.exec, global, cache.WriteCombine?)
                            && w & PRESENT == 0 && GetAddress(w) == 0
  {
  }

  /** An address survives the entry it is stored in exactly if it is page-aligned and below 2^52; flags are kept. */
  lemma AddressRoundTrip(entry: bv64, address: bv64)
    ensures GetAddress(SetAddress(entry, address)) == address <==> address & 0xFFF == 0 && address < 0x10_0000_0000_0000
    ensures Decode(SetAddress(entry, address)) == Decode(entry).(addr := address & ADDRESS_MASK)
  {
  }

  /** `if(!nx) e &= ~NX; e |= flags & (RW | USER)` on a present entry. */
  function WidenedWord(entry: bv64, flags: bv64): bv64 {
    (if flags & NX == 0 then entry & !NX else entry) | (flags & (RW | USER))
  }

  lemma WidenWord(entry: bv64, flags: bv64)
    ensures Decode(WidenedWord(entry, flags)) == Widened(Decode(entry), DecodeFlags(flags))
  {
    hide WidenedWord, Decode, DecodeFlags;
    WidenPresent(entry, flags);
    WidenRw(entry, flags);
    WidenUser(entry, flags);
    WidenNx(entry, flags);
    WidenGlobal(entry, flags);
    WidenPat(entry, flags);
    WidenAddress(entry, flags);
  }

  lemma WidenPresent(entry: bv64, flags: bv64)
    ensures Decode(WidenedWord(entry, flags)).present == Decode(entry).present
  {
  }

  lemma WidenRw(entry: bv64, flags: bv64)
    ensures Decode(WidenedWord(entry, flags)).rw == (Decode(entry).rw || DecodeFlags(flags).rw)
  {
  }

  lemma WidenUser(entry: bv64, flags: bv64)
    ensures Decode(WidenedWord(entry, flags)).user == (Decode(entry).user || DecodeFlags(flags).user)
  {
  }

  lemma WidenNx(entry: bv64, flags: bv64)
    ensures Decode(WidenedWord(entry, flags)).nx == (Decode(entry).nx && DecodeFlags(flags).nx)
  {
  }

  lemma WidenGlobal(entry: bv64, flags: bv64)
    ensures Decode(WidenedWord(entry, flags)).global == Decode(entry).global
  {
  }

  lemma WidenPat(entry: bv64, flags: bv64)
    ensures Decode(WidenedWord(entry, flags)).pat == Decode(entry).pat
  {
  }

  lemma WidenAddress(entry: bv64, flags: bv64)
    ensures Decode(WidenedWord(entry, flags)).addr == Decode(entry).addr
  {
  }

  /** `e = PRESENT; set_address; if(nx) e |= NX; e |= flags & (RW | USER)` */
  function NewTableWord(page: bv64, flags: bv64): bv64 {
    var linked := SetAddress(PRESENT, page);
    (if flags & NX != 0 then linked | NX else linked) | (flags & (RW | USER))
  }

  /** The entry word made for a new table. */
  lemma TableWord(page: bv64, flags: bv64)
    ensures Decode(NewTableWord(page, flags)) == TableEntry(DecodeFlags(flags), page & ADDRESS_MASK)
  {
    hide NewTableWord, Decode, DecodeFlags;
    TableBits(page, flags);
    TableRw(page, flags);
    TableUser(page, flags);
    TableNx(page, flags);
    TableAddress(page, flags);
  }

  lemma TableBits(page: bv64, flags: bv64)
    ensures var e := Decode(NewTableWord(page, flags)); e.present && !e.global && !e.pat
  {
  }

  lemma TableRw(page: bv64, flags: bv64)
    ensures Decode(NewTableWord(page, flags)).rw == DecodeFlags(flags).rw
  {
  }

  lemma TableUser(page: bv64, flags: bv64)
    ensures Decode(NewTableWord(page, flags)).user == DecodeFlags(flags).user
  {
  }

  lemma TableNx(page: bv64, flags: bv64)
    ensures Decode(NewTableWord(page, flags)).nx == DecodeFlags(flags).nx
  {
  }

  lemma TableAddress(page: bv64, flags: bv64)
    ensures Decode(NewTableWord(page, flags)).addr == page & ADDRESS_MASK
  {
  }

  /** The last-level entry word. */
  lemma LeafWord(paddr: bv64, flags: bv64)
    requires flags & PRESENT == 0 && GetAddress(flags) == 0
    ensures Decode(SetAddress(PRESENT | flags, paddr)) == LeafEntry(DecodeFlags(flags), paddr & ADDRESS_MASK)
  {
  }
}
