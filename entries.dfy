/**
 * x86-64 4-level paging entries (Intel SDM Vol. 3A, section 4.5) and the
 * pure translation macros of the shadow page-table mirror: PGT_OFF,
 * GFN_VAL, PGT_VAL, PGT_VAL_NO_HUGE and the __join_*_flags helpers.
 *
 * Kernel virtual addresses are identified with physical addresses (an
 * identity direct map), so pfn_to_kaddr(p) is p << 12 and virt_to_pfn(v)
 * is v >> 12.
 */
module Entries {

  /** One 64-bit page-table entry (pte_t, pmd_t, pud_t, p4d_t). */
  type Entry = bv64

  /** Entries per table page (PTRS_PER_PTE == PTRS_PER_PMD == PTRS_PER_PUD). */
  const PTRS_PER_TABLE: nat := 512

  /** One 4 KiB table page: exactly 512 entries. */
  type Page = s: seq<Entry> | |s| == PTRS_PER_TABLE witness seq(PTRS_PER_TABLE, _ => 0)

  const PAGE_PRESENT: Entry := 0x1      // bit 0
  const PAGE_RW: Entry := 0x2           // bit 1
  const PAGE_ACCESSED: Entry := 0x20    // bit 5
  const PAGE_PSE: Entry := 0x80         // bit 7 (PS)

  /** Physical-frame bits 12..51 of an entry (52-bit physical addresses). */
  const PTE_PFN_MASK: Entry := 0x000F_FFFF_FFFF_F000
  /** Everything that is not the frame: bits 0..11 and 52..63. */
  const PTE_FLAGS_MASK: Entry := 0xFFF0_0000_0000_0FFF

  /** The largest frame number a 52-bit physical address can hold, plus one. */
  const MAX_PFN: nat := 0x100_0000_0000

  /** The page-table levels, top to bottom. */
  datatype Level = P4d | Pud | Pmd | Pte

  predicate Present(e: Entry) { e & PAGE_PRESENT != 0 }
  predicate Huge(e: Entry) { e & PAGE_PSE != 0 }
  predicate Young(e: Entry) { e & PAGE_ACCESSED != 0 }
  predicate Writable(e: Entry) { e & PAGE_RW != 0 }

  /** pte_flags / pmd_flags / pud_flags. */
  function Flags(e: Entry): Entry { e & PTE_FLAGS_MASK }

  /** The frame bits of an entry, shifted down: pte_pfn / pmd_pfn / pud_pfn. */
  function Frame(e: Entry): (r: Entry)
    ensures r < 0x100_0000_0000
  {
    (e & PTE_PFN_MASK) >> 12
  }

  /** The frame an entry refers to, as a frame number. */
  function EntryPfn(e: Entry): nat
  {
    Frame(e) as nat
  }

  /** virt_to_pfn of a raw 64-bit value used as an address. */
  function RawPfn(v: Entry): nat
  {
    (v >> 12) as nat
  }

  /** pfn_to_kaddr: the kernel address of a frame, truncated to 64 bits. */
  function KAddr(pfn: nat): Entry
  {
    ((pfn % MAX_PFN) as bv64) << 12
  }

  /**
   * dv_dev->gfn_to_hfn[pfn]; a frame beyond the end of the table reads as
   * 0, the "unknown/untranslated" value.
   */
  function FttAt(ftt: seq<bv64>, pfn: nat): bv64
  {
    if pfn < |ftt| then ftt[pfn] else 0
  }

  /**
   * The frames check_devirt_present hands to its memory touch when src is
   * copied with target frame pfn: pfn itself when src is present and the
   * translation table knows no host frame for it, nothing otherwise.
   */
  ghost function ProbeOf(ftt: seq<bv64>, src: Entry, pfn: nat): (t: seq<nat>)
    ensures t == [] || t == [pfn]
    ensures t == [pfn] <==> Present(src) && FttAt(ftt, pfn) == 0
  {
    if Present(src) && FttAt(ftt, pfn) == 0 then [pfn] else []
  }

  /**
   * check_devirt_present touches exactly the frames a shadow copy could not
   * translate: with a host frame that fits a 52-bit address, the target is
   * probed when the copy PGT_VAL makes is present but points at host frame 0.
   */
  lemma ProbeUntranslated(ftt: seq<bv64>, src: Entry, pfn: nat)
    requires ValidHfn(FttAt(ftt, pfn))
    ensures ProbeOf(ftt, src, pfn) == [pfn] <==>
              Present(PgtVal(ftt, src, pfn)) && Frame(PgtVal(ftt, src, pfn)) == 0
    ensures ProbeOf(ftt, src, pfn) == [] <==> ProbeOf(ftt, src, pfn) != [pfn]
  {
    if Present(src) {
      PgtValFlags(ftt, src, pfn);
    }
  }

  /** A host frame number that fits a 52-bit physical address. */
  predicate ValidHfn(h: bv64) { h < 0x100_0000_0000 }

  /** The flags of src with host frame h shifted into the frame bits (GFN_VAL). */
  function Translate(src: Entry, h: bv64): Entry
  {
    Flags(src) | (h << 12)
  }

  /** Translate keeps the twelve low flag bits (present, R/W, ..., PS, global). */
  lemma TranslatedLowBits(src: Entry, h: bv64)
    ensures Translate(src, h) & 0xFFF == src & 0xFFF
  {
  }

  /** Translate puts the host frame, truncated to 40 bits, in the frame bits. */
  lemma TranslatedFrame(src: Entry, h: bv64)
    ensures Frame(Translate(src, h)) == h & 0xFF_FFFF_FFFF
  {
  }

  /** With a host frame that fits a 52-bit address, Translate keeps every flag. */
  lemma TranslatedFlags(src: Entry, h: bv64)
    requires ValidHfn(h)
    ensures Flags(Translate(src, h)) == Flags(src)
    ensures Frame(Translate(src, h)) == h
  {
  }

  /**
   * PGT_VAL(src, kaddr(pfn)): the shadow copy of entry src whose target frame
   * pfn is rewritten through the frame translation table. Its flag and frame
   * bits are described by PgtValLowFlags, PgtValFrame and PgtValFlags.
   */
  function PgtVal(ftt: seq<bv64>, src: Entry, pfn: nat): (r: Entry)
    ensures !Present(src) ==> r == 0
    ensures Present(src) <==> Present(r)
  {
    if Present(src) then Translate(src, FttAt(ftt, pfn)) else 0
  }

  /** The low twelve bits of a present entry's copy are the source's. */
  lemma PgtValLowFlags(ftt: seq<bv64>, src: Entry, pfn: nat)
    requires Present(src)
    ensures PgtVal(ftt, src, pfn) & 0xFFF == src & 0xFFF
  {
    TranslatedLowBits(src, FttAt(ftt, pfn));
  }

  /** The frame of a present entry's copy is the FTT's host frame, truncated to 40 bits. */
  lemma PgtValFrame(ftt: seq<bv64>, src: Entry, pfn: nat)
    requires Present(src)
    ensures Frame(PgtVal(ftt, src, pfn)) == FttAt(ftt, pfn) & 0xFF_FFFF_FFFF
  {
    TranslatedFrame(src, FttAt(ftt, pfn));
  }

  /**
   * With a host frame that fits a 52-bit address, the copy of a present entry
   * has exactly the source's flags and exactly the host frame.
   */
  lemma PgtValFlags(ftt: seq<bv64>, src: Entry, pfn: nat)
    requires Present(src) && ValidHfn(FttAt(ftt, pfn))
    ensures Flags(PgtVal(ftt, src, pfn)) == Flags(src)
    ensures Frame(PgtVal(ftt, src, pfn)) == FttAt(ftt, pfn)
  {
    TranslatedFlags(src, FttAt(ftt, pfn));
  }

  /** PGT_VAL_NO_HUGE: PGT_VAL with the PS bit of the source dropped. */
  function PgtValNoHuge(ftt: seq<bv64>, src: Entry, pfn: nat): (r: Entry)
    ensures r == PgtVal(ftt, src, pfn) & !PAGE_PSE
    ensures !Huge(r)
    ensures Present(src) <==> Present(r)
  {
    if Present(src) then
      var h := FttAt(ftt, pfn);
      NoHugeBits(src, h);
      NoHugeFlagBits(src, h);
      (src & (PTE_FLAGS_MASK & !PAGE_PSE)) | (h << 12)
    else 0
  }

  /** Dropping PS from the source is dropping it from the translated entry. */
  lemma NoHugeBits(src: Entry, h: bv64)
    ensures (src & (PTE_FLAGS_MASK & !PAGE_PSE)) | (h << 12) == Translate(src, h) & !PAGE_PSE
  {
  }

  /** The PS-less copy is never huge and is present exactly when the source is. */
  lemma NoHugeFlagBits(src: Entry, h: bv64)
    ensures Present((src & (PTE_FLAGS_MASK & !PAGE_PSE)) | (h << 12)) == Present(src)
    ensures !Huge((src & (PTE_FLAGS_MASK & !PAGE_PSE)) | (h << 12))
  {
  }

  /** The entry with the accessed bit cleared (test_and_clear_bit(_PAGE_BIT_ACCESSED)). */
  function ClearAccessed(e: Entry): (r: Entry)
    ensures !Young(r)
    ensures r | PAGE_ACCESSED == e | PAGE_ACCESSED
  {
    e & !PAGE_ACCESSED
  }

  /** Clearing the accessed bit changes an entry exactly when it is young. */
  lemma ClearAccessedNotYoung(e: Entry)
    ensures ClearAccessed(e) == e <==> !Young(e)
  {
    if !Young(e) {
      assert e & !PAGE_ACCESSED == e;
    }
  }

  /** The entry with the R/W bit cleared (clear_bit(_PAGE_BIT_RW)). */
  function ClearRw(e: Entry): (r: Entry)
    ensures !Writable(r)
    ensures r | PAGE_RW == e | PAGE_RW
  {
    e & !PAGE_RW
  }

  /**
   * __join_pte_flags, __join_pmd_flags and __join_pud_flags: the value a
   * get-and-clear returns from the displaced primary and shadow entries.
   * The pmd variant ignores the shadow entry.
   */
  function JoinFlags(level: Level, e: Entry, d: Entry): (r: Entry)
    ensures level == Pmd ==> r == e
    ensures level != Pmd ==> r & PTE_PFN_MASK == e & PTE_PFN_MASK
    ensures level != Pmd ==> Flags(r) == Flags(e) | Flags(d)
  {
    if level == Pmd then e else e | Flags(d)
  }

  /** PGT_OFF: the slot an entry address falls in (bits 3..11). */
  function PgtOff(addr: bv64): (r: bv64)
    ensures r < 512
    ensures r << 3 == addr & 0xFF8
  {
    (addr >> 3) & 511
  }

  /** virt_to_pfn of an address, kept as a bit-vector. */
  function PageOf(addr: bv64): bv64
  {
    addr >> 12
  }

  /** Every 8-byte-aligned entry address is its page followed by its slot. */
  lemma AddrDecomposes(addr: bv64)
    requires addr & 7 == 0
    ensures (PageOf(addr) << 12) | (PgtOff(addr) << 3) == addr
  {
  }

  /** Page and slot are recovered from an address built out of them. */
  lemma AddrRoundTrip(page: bv64, slot: bv64)
    requires page < 0x10_0000_0000_0000 && slot < 512
    ensures PageOf((page << 12) | (slot << 3)) == page
    ensures PgtOff((page << 12) | (slot << 3)) == slot
  {
  }

  /**
   * The pointer arithmetic of __get_d{pte,pmd,pud}p once the shadow page
   * `dpage` (a page-aligned kernel address) is known: the same slot in the
   * shadow page.
   */
  function ShadowSlotAddr(dpage: bv64, addr: bv64): (r: bv64)
    requires dpage & 0xFFF == 0
    ensures PageOf(r) == PageOf(dpage)
    ensures PgtOff(r) == PgtOff(addr)
    ensures r & 7 == 0
  {
    dpage + PgtOff(addr) * 8
  }

  /** The kernel address of slot `slot` of the table page at frame pfn. */
  function EntryAddr(pfn: nat, slot: nat): bv64
    requires slot < PTRS_PER_TABLE
  {
    KAddr(pfn) | ((slot as bv64) << 3)
  }

  /**
   * An entry address names its page (virt_to_pfn, for a frame a 52-bit
   * address can hold) and its slot (PGT_OFF).
   */
  lemma EntryAddrParts(pfn: nat, slot: nat)
    requires slot < PTRS_PER_TABLE
    ensures PgtOff(EntryAddr(pfn, slot)) == slot as bv64
    ensures pfn < MAX_PFN ==> PageOf(EntryAddr(pfn, slot)) == pfn as bv64
    ensures EntryAddr(pfn, slot) & 7 == 0
  {
    EntryAddrBits(pfn, slot);
    if pfn < MAX_PFN {
      NatBv(pfn);
    }
  }

  lemma EntryAddrBits(pfn: nat, slot: nat)
    requires slot < PTRS_PER_TABLE
    ensures PgtOff(EntryAddr(pfn, slot)) == slot as bv64
    ensures PageOf(EntryAddr(pfn, slot)) == (pfn % MAX_PFN) as bv64
    ensures EntryAddr(pfn, slot) & 7 == 0
  {
    var page := (pfn % MAX_PFN) as bv64;
    var o := slot as bv64;
    SmallBv(pfn % MAX_PFN);
    SmallBv(slot);
    assert EntryAddr(pfn, slot) == (page << 12) | (o << 3);
    SlotAddrParts(page, o);
  }

  lemma NatBv(pfn: nat)
    requires pfn < MAX_PFN
    ensures (pfn % MAX_PFN) as bv64 == pfn as bv64
  {
    assert pfn % MAX_PFN == pfn;
  }

  /** A page and a slot put together into an address come back out of it. */
  lemma SlotAddrParts(page: bv64, o: bv64)
    requires page < 0x100_0000_0000 && o < 512
    ensures PgtOff((page << 12) | (o << 3)) == o
    ensures PageOf((page << 12) | (o << 3)) == page
    ensures ((page << 12) | (o << 3)) & 7 == 0
  {
    AddrRoundTrip(page, o);
  }

  /** A number below 2^40 is below 2^40 as a 64-bit vector. */
  lemma SmallBv(x: nat)
    requires x < MAX_PFN
    ensures x as bv64 < 0x100_0000_0000
  {
  }

  /**
   * The pointer arithmetic of __get_d*p lands on the same slot of the
   * shadow page: the shadow page's address plus PGT_OFF of the primary entry
   * address is the address of that slot in the shadow page.
   */
  lemma ShadowEntryAddr(dpfn: nat, pfn: nat, slot: nat)
    requires slot < PTRS_PER_TABLE
    ensures KAddr(dpfn) & 0xFFF == 0
    ensures ShadowSlotAddr(KAddr(dpfn), EntryAddr(pfn, slot)) == EntryAddr(dpfn, slot)
  {
    var k := KAddr(dpfn);
    var o := slot as bv64;
    PageAligned((dpfn % MAX_PFN) as bv64);
    EntryAddrParts(pfn, slot);
    SmallBv(slot);
    SlotOffset(k, o);
  }

  /** A frame shifted into an address has no offset bits. */
  lemma PageAligned(page: bv64)
    ensures (page << 12) & 0xFFF == 0
  {
  }

  /** Adding a slot's byte offset to a page address sets only the offset bits. */
  lemma SlotOffset(k: bv64, o: bv64)
    requires k & 0xFFF == 0 && o < 512
    ensures k + o * 8 == k | (o << 3)
  {
  }

  /**
   * The logical content of a shadow entry matches its primary entry: both
   * absent, or both present with the same low flag bits (the frames differ
   * by translation).
   */
  predicate Agree(e: Entry, d: Entry)
  {
    if Present(e) then d & 0xFFF == e & 0xFFF else d == 0
  }

  /** A translated copy agrees with its source. */
  lemma PgtValAgrees(ftt: seq<bv64>, src: Entry, pfn: nat)
    ensures Agree(src, PgtVal(ftt, src, pfn))
  {
    if Present(src) {
      PgtValLowFlags(ftt, src, pfn);
    }
  }

  /** Clearing R/W on both copies keeps them in agreement. */
  lemma ClearRwAgrees(e: Entry, d: Entry)
    requires Agree(e, d)
    ensures Agree(ClearRw(e), ClearRw(d))
  {
  }

  /** Clearing the accessed bit on both copies keeps them in agreement. */
  lemma ClearAccessedAgrees(e: Entry, d: Entry)
    requires Agree(e, d)
    ensures Agree(ClearAccessed(e), ClearAccessed(d))
  {
  }
}
