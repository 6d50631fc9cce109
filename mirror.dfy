/**
 * The machine state the shadow mirror works on, and the in-place entry
 * updates of guest_kernel/include/linux/devirt.h: the devirt_copy_*
 * helpers, the back-reference maintenance (_devirt_alloc_pt,
 * devirt_alloc_pt, devirt_release_pt), the shadow lookup __get_d*p, and the
 * mirrored devirt_set_*, *_set_wrprotect, *_get_and_clear and
 * devirt_pmdp_establish.
 *
 * Primary table pages and shadow pages live in two maps from frame number
 * to the page's 512 entries; a shadow frame is never a primary table page.
 */
module Mirror {
  import opened Entries

  datatype Option<T> = None | Some(value: T)

  /** A pointer to one entry: slot `slot` of the table page at frame `pfn`. */
  datatype EntryRef = EntryRef(pfn: nat, slot: nat)

  /**
   * Top-level slots that map user space (pgdp_maps_userspace): the lower
   * half of the page.
   */
  const PTI_USER_SLOTS: nat := 256

  /** The identity of init_mm, the kernel's own address space. */
  const INIT_MM: nat := 0

  /** A zero-filled table page (GFP_PGTABLE_DEVIRT includes __GFP_ZERO). */
  function ZeroPage(): (p: Page)
    ensures forall i :: 0 <= i < |p| ==> p[i] == 0
  {
    seq(PTRS_PER_TABLE, _ => 0)
  }

  /** The pages with the entry at r replaced by v. */
  function Store(pages: map<nat, Page>, r: EntryRef, v: Entry): (res: map<nat, Page>)
    requires r.pfn in pages && r.slot < PTRS_PER_TABLE
    ensures res.Keys == pages.Keys
    ensures res[r.pfn][r.slot] == v
    ensures forall q :: q in pages && q != r.pfn ==> res[q] == pages[q]
    ensures forall i :: 0 <= i < PTRS_PER_TABLE && i != r.slot ==> res[r.pfn][i] == pages[r.pfn][i]
  {
    pages[r.pfn := pages[r.pfn][r.slot := v]]
  }

  /** A store changes the pages exactly when it writes a different value. */
  lemma StoreSame(pages: map<nat, Page>, r: EntryRef, v: Entry)
    requires r.pfn in pages && r.slot < PTRS_PER_TABLE
    ensures Store(pages, r, v) == pages <==> pages[r.pfn][r.slot] == v
  {
    if pages[r.pfn][r.slot] == v {
      assert pages[r.pfn][r.slot := v] == pages[r.pfn];
    }
  }

  /**
   * Physical memory as the mirror sees it, together with the device state
   * (dv_dev) and the name attribute.
   */
  class Machine {
    /** dv_dev->gfn_to_hfn, read-only for the mirror. */
    const ftt: seq<bv64>
    /** Primary page-table pages. */
    var tables: map<nat, Page>
    /** Shadow page-table pages. */
    var shadow: map<nat, Page>
    /** _pt_pad_2 of each primary table page: its shadow page, 0 (or absent) for none. */
    var backref: map<nat, nat>
    /** Frames for which pfn_valid && PageTable holds. */
    var ptPages: set<nat>
    /** pgd_page_get_mm: the address space owning each top-level (pgd) page. */
    var pgdOwner: map<nat, nat>
    /** swapper_pg_dir, init_mm's top-level page. */
    const swapperPgd: nat
    /** The address spaces with MMF_DEVIRT set. */
    var devirtMms: set<nat>
    /** dv_dev->dv_root, 0 for NULL. */
    var dvRoot: nat
    /** dv_dev->dv_root_pages, the shadow node pool. */
    var pool: array<nat>
    /** dv_dev->dv_root_num_pages. */
    var numPages: nat
    /** devirt_task_name. */
    var taskName: string
    /** Frames handed to check_devirt_present's memory touch, in order. */
    ghost var probes: seq<nat>
    /** Frames handed back to the page allocator, in order. */
    ghost var freed: seq<nat>

    /** Every back-reference that is set names a shadow page. */
    ghost predicate LinksValid()
      reads this`backref, this`shadow
    {
      forall p :: p in backref && backref[p] != 0 ==> backref[p] in shadow
    }

    /**
     * Every top-level page is followed by its user copy and, three pages
     * on, by its address space's private shadow top level.
     */
    ghost predicate TopsValid()
      reads this`pgdOwner, this`tables, this`shadow
    {
      forall p :: p in pgdOwner ==> p + 1 in tables && p + 3 in shadow
    }

    ghost predicate Valid()
      reads this`backref, this`shadow, this`pgdOwner, this`tables, this`dvRoot, this`taskName
    {
      LinksValid() && TopsValid() &&
      (dvRoot != 0 ==> dvRoot in shadow) &&
      '\0' !in taskName
    }

    /** The device right after probe: no shadow root, no pool, empty name. */
    constructor (ftt: seq<bv64>, tables: map<nat, Page>, ptPages: set<nat>,
                 pgdOwner: map<nat, nat>, swapperPgd: nat, shadow: map<nat, Page>)
      requires forall p :: p in pgdOwner ==> p + 1 in tables && p + 3 in shadow
      ensures Valid()
      ensures this.ftt == ftt && this.tables == tables && this.shadow == shadow
      ensures this.pgdOwner == pgdOwner && this.swapperPgd == swapperPgd
      ensures backref == map[] && devirtMms == {} && dvRoot == 0 && numPages == 0 && taskName == []
      ensures fresh(pool) && pool.Length == 0
    {
      this.ftt := ftt;
      this.tables := tables;
      this.shadow := shadow;
      this.backref := map[];
      this.ptPages := ptPages;
      this.pgdOwner := pgdOwner;
      this.swapperPgd := swapperPgd;
      this.devirtMms := {};
      this.dvRoot := 0;
      this.pool := new nat[0];
      this.numPages := 0;
      this.taskName := [];
      this.probes := [];
      this.freed := [];
    }

    /** pfn_to_page(pfn)->_pt_pad_2. */
    function BackRef(pfn: nat): nat
      reads this`backref
    {
      if pfn in backref then backref[pfn] else 0
    }

    /** An entry of a primary table page. */
    predicate IsRef(r: EntryRef)
      reads this`tables
    {
      r.pfn in tables && r.slot < PTRS_PER_TABLE
    }

    /** An entry of a shadow page. */
    predicate IsShadowRef(d: EntryRef)
      reads this`shadow
    {
      d.pfn in shadow && d.slot < PTRS_PER_TABLE
    }

    function Read(r: EntryRef): Entry
      reads this`tables
      requires IsRef(r)
    {
      tables[r.pfn][r.slot]
    }

    function ReadShadow(d: EntryRef): Entry
      reads this`shadow
      requires IsShadowRef(d)
    {
      shadow[d.pfn][d.slot]
    }

    /**
     * __get_dptep, __get_dpmdp and __get_dpudp: the entry at the same slot in
     * the shadow page of r's table page, or none when that page has no
     * back-reference (ShadowSlotAddr is the address arithmetic).
     */
    function Dptr(r: EntryRef): (d: Option<EntryRef>)
      reads this`backref
      ensures d.None? <==> BackRef(r.pfn) == 0
      ensures d.Some? ==> d.value.pfn == BackRef(r.pfn) && d.value.slot == r.slot
    {
      if BackRef(r.pfn) == 0 then None else Some(EntryRef(BackRef(r.pfn), r.slot))
    }

    /**
     * Dptr is the pointer arithmetic of __get_devirt_page and __get_d*p:
     * the back-reference read is that of the page holding the entry (for a
     * frame a 52-bit address can hold), and the shadow page's address plus
     * PGT_OFF of the entry's address is the address of Dptr's entry.
     */
    lemma DptrAddress(r: EntryRef)
      requires r.slot < PTRS_PER_TABLE
      ensures r.pfn < MAX_PFN ==> PageOf(EntryAddr(r.pfn, r.slot)) == r.pfn as bv64
      ensures Dptr(r).Some? ==>
                EntryAddr(Dptr(r).value.pfn, Dptr(r).value.slot) ==
                ShadowSlotAddr(KAddr(BackRef(r.pfn)), EntryAddr(r.pfn, r.slot))
    {
      EntryAddrParts(r.pfn, r.slot);
      ShadowEntryAddr(BackRef(r.pfn), r.pfn, r.slot);
    }

    /**
     * The frame a devirt_set_{pte,pmd,pud} of entry e translates: the page
     * itself for a pte, PmdTarget for a pmd, PudTarget for a pud, and the
     * child's shadow page for a top-level entry.
     */
    function MirrorTarget(level: Level, e: Entry): nat
      reads this`backref
    {
      match level
      case Pte => EntryPfn(e)
      case Pmd => PmdTarget(e)
      case Pud => PudTarget(e)
      case P4d => BackRef(EntryPfn(e))
    }

    /**
     * Whether devirt_set_{pte,pmd,pud} mirrors a write to r: r's page has a
     * shadow page and, for a pmd, is a valid PageTable page.
     */
    predicate MirrorsEntry(level: Level, r: EntryRef)
      reads this`backref, this`ptPages
    {
      Dptr(r).Some? && (level == Pmd ==> r.pfn in ptPages)
    }

    /**
     * devirt_copy_{p4d,pud,pmd,pte}_val: probe the target, then write the
     * translated copy of primary entry src into shadow entry dst.
     */
    method CopyVal(dst: EntryRef, src: EntryRef, val: nat)
      requires Valid() && IsShadowRef(dst) && IsRef(src)
      modifies this`shadow, this`probes
      ensures Valid()
      ensures shadow == Store(old(shadow), dst, PgtVal(ftt, Read(src), val))
      ensures Agree(Read(src), ReadShadow(dst))
      ensures probes == old(probes) + ProbeOf(ftt, Read(src), val)
    {
      probes := probes + ProbeOf(ftt, Read(src), val);
      shadow := Store(shadow, dst, PgtVal(ftt, Read(src), val));
      PgtValAgrees(ftt, Read(src), val);
    }

    /** devirt_copy_pud, devirt_copy_pmd, devirt_copy_pte: the target is the entry's own frame. */
    method CopyEntry(dst: EntryRef, src: EntryRef)
      requires Valid() && IsShadowRef(dst) && IsRef(src)
      modifies this`shadow, this`probes
      ensures Valid()
      ensures shadow == Store(old(shadow), dst, PgtVal(ftt, Read(src), EntryPfn(Read(src))))
      ensures Agree(Read(src), ReadShadow(dst))
      ensures probes == old(probes) + ProbeOf(ftt, Read(src), EntryPfn(Read(src)))
    {
      CopyVal(dst, src, EntryPfn(Read(src)));
    }

    /** __get_free_page(GFP_PGTABLE_DEVIRT): 0 on failure, otherwise an unused frame. */
    method GetFreePage() returns (f: nat)
      ensures f == 0 || (f !in shadow && f !in tables)
    {
      f :| f == 0 || (f !in shadow && f !in tables);
    }

    /** __get_free_page(GFP_PGTABLE_DEVIRT) as a shadow page: a zeroed page at an unused frame, or 0. */
    method AllocZeroPage() returns (f: nat)
      requires Valid()
      modifies this`shadow
      ensures Valid()
      ensures f == 0 ==> shadow == old(shadow)
      ensures f != 0 ==> f !in old(shadow) && f !in tables && shadow == old(shadow)[f := ZeroPage()]
    {
      f := GetFreePage();
      if f != 0 {
        shadow := shadow[f := ZeroPage()];
      }
    }

    /**
     * _devirt_alloc_pt: give table page pfn a zeroed shadow page unless it
     * already has one. An allocation failure is fatal (BUG).
     */
    method AllocPtPage(pfn: nat) returns (fatal: bool)
      requires Valid()
      modifies this`backref, this`shadow
      ensures Valid()
      ensures old(BackRef(pfn)) != 0 ==> !fatal && backref == old(backref) && shadow == old(shadow)
      ensures old(BackRef(pfn)) == 0 && fatal ==> backref == old(backref) && shadow == old(shadow)
      ensures old(BackRef(pfn)) == 0 && !fatal ==>
                BackRef(pfn) != 0 && BackRef(pfn) !in old(shadow) &&
                backref == old(backref)[pfn := BackRef(pfn)] &&
                shadow == old(shadow)[BackRef(pfn) := ZeroPage()]
    {
      fatal := false;
      if BackRef(pfn) != 0 {
        return;
      }
      var dpfn := AllocZeroPage();
      if dpfn == 0 {
        fatal := true;
        return;
      }
      backref := backref[pfn := dpfn];
    }

    /**
     * devirt_alloc_pt (and its devirt_alloc_{pte,pmd,pud}_one wrappers):
     * nothing for an address space without MMF_DEVIRT or for init_mm.
     */
    method AllocPt(mm: nat, pfn: nat) returns (fatal: bool)
      requires Valid()
      modifies this`backref, this`shadow
      ensures Valid()
      ensures mm !in devirtMms || mm == INIT_MM ==>
                !fatal && backref == old(backref) && shadow == old(shadow)
      ensures old(BackRef(pfn)) != 0 ==> !fatal && backref == old(backref) && shadow == old(shadow)
      ensures !fatal ==> forall q :: q != pfn ==> BackRef(q) == old(BackRef(q))
      ensures mm in devirtMms && mm != INIT_MM && !fatal ==> BackRef(pfn) != 0
      ensures fatal ==> mm in devirtMms && mm != INIT_MM && old(BackRef(pfn)) == 0
      ensures fatal ==> backref == old(backref) && shadow == old(shadow)
      ensures mm in devirtMms && mm != INIT_MM && old(BackRef(pfn)) == 0 && !fatal ==>
                BackRef(pfn) !in old(shadow) && backref == old(backref)[pfn := BackRef(pfn)] &&
                shadow == old(shadow)[BackRef(pfn) := ZeroPage()]
    {
      fatal := false;
      if mm !in devirtMms {
        return;
      }
      if mm == INIT_MM {
        return;
      }
      fatal := AllocPtPage(pfn);
    }

    /**
     * devirt_release_pt (and its devirt_release_*_one wrappers): free the
     * shadow page of pfn and clear the back-reference; nothing when there is
     * none.
     */
    method ReleasePt(pfn: nat)
      requires Valid()
      modifies this`backref, this`freed
      ensures Valid()
      ensures BackRef(pfn) == 0
      ensures forall q :: q != pfn ==> BackRef(q) == old(BackRef(q))
      ensures old(BackRef(pfn)) == 0 ==> backref == old(backref) && freed == old(freed)
      ensures old(BackRef(pfn)) != 0 ==> freed == old(freed) + [old(BackRef(pfn))]
    {
      if BackRef(pfn) == 0 {
        return;
      }
      freed := freed + [backref[pfn]];
      backref := backref[pfn := 0];
    }

    /** The frame devirt_set_pmd and devirt_pmdp_establish translate for a new pmd. */
    function PmdTarget(pmd: Entry): nat
      reads this`backref
    {
      if Huge(pmd) then EntryPfn(pmd) else BackRef(EntryPfn(pmd))
    }

    /**
     * The frame devirt_set_pud translates for a new pud. For a huge pud the
     * raw entry is passed where an address is expected, so its flag bits
     * (NX, protection key) end up in the frame number.
     */
    function PudTarget(pud: Entry): nat
      reads this`backref
    {
      if Huge(pud) then RawPfn(pud) else BackRef(EntryPfn(pud))
    }

    /**
     * devirt_set_pte: install pte, then its translated copy in the shadow
     * entry when one exists.
     */
    method SetPte(r: EntryRef, pte: Entry)
      requires Valid() && IsRef(r)
      modifies this`tables, this`shadow, this`probes
      ensures Valid()
      ensures tables == Store(old(tables), r, pte)
      ensures Dptr(r).None? ==> shadow == old(shadow) && probes == old(probes)
      ensures Dptr(r).Some? ==>
                shadow == Store(old(shadow), Dptr(r).value, PgtVal(ftt, pte, EntryPfn(pte))) &&
                Agree(pte, ReadShadow(Dptr(r).value)) &&
                probes == old(probes) + ProbeOf(ftt, pte, EntryPfn(pte))
    {
      tables := Store(tables, r, pte);
      var d := Dptr(r);
      if d.None? {
        return;
      }
      CopyVal(d.value, r, EntryPfn(pte));
    }

    /**
     * devirt_set_pmd: install pmd; mirror it only when r's page is a valid
     * PageTable page with a shadow page. A huge pmd is translated by its
     * own frame, a table pmd by its child's shadow page.
     */
    method SetPmd(r: EntryRef, pmd: Entry)
      requires Valid() && IsRef(r)
      modifies this`tables, this`shadow, this`probes
      ensures Valid()
      ensures tables == Store(old(tables), r, pmd)
      ensures r.pfn !in ptPages || Dptr(r).None? ==> shadow == old(shadow) && probes == old(probes)
      ensures r.pfn in ptPages && Dptr(r).Some? ==>
                shadow == Store(old(shadow), Dptr(r).value, PgtVal(ftt, pmd, PmdTarget(pmd))) &&
                Agree(pmd, ReadShadow(Dptr(r).value)) &&
                probes == old(probes) + ProbeOf(ftt, pmd, PmdTarget(pmd))
    {
      tables := Store(tables, r, pmd);
      if r.pfn !in ptPages {
        return;
      }
      var d := Dptr(r);
      if d.None? {
        return;
      }
      CopyVal(d.value, r, PmdTarget(pmd));
    }

    /** devirt_set_pud: install pud and mirror it when r's page has a shadow page. */
    method SetPud(r: EntryRef, pud: Entry)
      requires Valid() && IsRef(r)
      modifies this`tables, this`shadow, this`probes
      ensures Valid()
      ensures tables == Store(old(tables), r, pud)
      ensures Dptr(r).None? ==> shadow == old(shadow) && probes == old(probes)
      ensures Dptr(r).Some? ==>
                shadow == Store(old(shadow), Dptr(r).value, PgtVal(ftt, pud, PudTarget(pud))) &&
                Agree(pud, ReadShadow(Dptr(r).value)) &&
                probes == old(probes) + ProbeOf(ftt, pud, PudTarget(pud))
    {
      tables := Store(tables, r, pud);
      var d := Dptr(r);
      if d.None? {
        return;
      }
      CopyVal(d.value, r, PudTarget(pud));
    }

    /** The address space that devirt_set_p4d mirrors a write to page pfn for, if any. */
    predicate MirrorsTop(pfn: nat)
      reads this`pgdOwner, this`devirtMms
    {
      pfn in pgdOwner && pgdOwner[pfn] != INIT_MM && pgdOwner[pfn] in devirtMms
    }

    /**
     * native_set_p4d with page-table isolation on 4-level paging: install
     * p4d, and for an entry of the user half (a slot below PTI_USER_SLOTS)
     * also install it in the user copy of the top level, the page after the
     * pgd.
     */
    method NativeSetP4d(r: EntryRef, p4d: Entry)
      requires Valid() && IsRef(r) && IsRef(EntryRef(r.pfn + 1, r.slot))
      modifies this`tables
      ensures Valid()
      ensures r.slot < PTI_USER_SLOTS ==>
                tables == Store(Store(old(tables), r, p4d), EntryRef(r.pfn + 1, r.slot), p4d) &&
                Read(EntryRef(r.pfn + 1, r.slot)) == p4d
      ensures r.slot >= PTI_USER_SLOTS ==> tables == Store(old(tables), r, p4d)
    {
      var user := EntryRef(r.pfn + 1, r.slot);
      tables := Store(tables, r, p4d);
      if r.slot < PTI_USER_SLOTS {
        tables := Store(tables, user, p4d);
      }
      assert tables.Keys == old(tables).Keys;
    }

    /**
     * devirt_set_p4d: install p4d with native_set_p4d; for an activated
     * address space other than init_mm, write into the private shadow top
     * level (three pages past the pgd) the translated copy of the entry at
     * the same slot of the user copy, pointing at the new child's shadow
     * page. For a user slot the shadow therefore receives the new entry
     * itself; for a kernel slot it receives the entry the user copy already
     * holds.
     */
    method SetP4d(r: EntryRef, p4d: Entry)
      requires Valid() && IsRef(r) && IsRef(EntryRef(r.pfn + 1, r.slot))
      modifies this`tables, this`shadow, this`probes
      ensures Valid()
      ensures r.slot < PTI_USER_SLOTS ==>
                tables == Store(Store(old(tables), r, p4d), EntryRef(r.pfn + 1, r.slot), p4d)
      ensures r.slot >= PTI_USER_SLOTS ==> tables == Store(old(tables), r, p4d)
      ensures !MirrorsTop(r.pfn) ==> shadow == old(shadow) && probes == old(probes)
      ensures MirrorsTop(r.pfn) ==>
                shadow == Store(old(shadow), EntryRef(r.pfn + 3, r.slot),
                                PgtVal(ftt, Read(EntryRef(r.pfn + 1, r.slot)), BackRef(EntryPfn(p4d)))) &&
                probes == old(probes) + ProbeOf(ftt, Read(EntryRef(r.pfn + 1, r.slot)), BackRef(EntryPfn(p4d)))
      ensures MirrorsTop(r.pfn) && r.slot < PTI_USER_SLOTS ==>
                ReadShadow(EntryRef(r.pfn + 3, r.slot)) == PgtVal(ftt, p4d, BackRef(EntryPfn(p4d))) &&
                Agree(p4d, ReadShadow(EntryRef(r.pfn + 3, r.slot)))
    {
      NativeSetP4d(r, p4d);
      if !MirrorsTop(r.pfn) {
        return;
      }
      CopyVal(EntryRef(r.pfn + 3, r.slot), EntryRef(r.pfn + 1, r.slot), BackRef(EntryPfn(p4d)));
    }

    /**
     * devirt_ptep_set_wrprotect and devirt_pmdp_set_wrprotect: clear R/W in
     * the primary entry and in its shadow entry if there is one.
     */
    method SetWrprotect(r: EntryRef)
      requires Valid() && IsRef(r)
      modifies this`tables, this`shadow
      ensures Valid()
      ensures tables == Store(old(tables), r, ClearRw(old(Read(r))))
      ensures Dptr(r).None? ==> shadow == old(shadow)
      ensures Dptr(r).Some? ==>
                shadow == Store(old(shadow), Dptr(r).value, ClearRw(old(ReadShadow(Dptr(r).value))))
      ensures Dptr(r).Some? && old(Agree(Read(r), ReadShadow(Dptr(r).value))) ==>
                Agree(Read(r), ReadShadow(Dptr(r).value))
    {
      var d := Dptr(r);
      tables := Store(tables, r, ClearRw(Read(r)));
      if d.Some? {
        ghost var e0, d0 := old(Read(r)), ReadShadow(d.value);
        shadow := Store(shadow, d.value, ClearRw(ReadShadow(d.value)));
        if Agree(e0, d0) {
          ClearRwAgrees(e0, d0);
        }
      }
    }

    /**
     * devirt_ptep_get_and_clear, devirt_pmdp_huge_get_and_clear and
     * devirt_pudp_huge_get_and_clear: zero the primary entry and its shadow
     * entry; return the old primary joined with the old shadow's flags
     * (the pmd join drops the shadow entry).
     */
    method GetAndClear(level: Level, r: EntryRef) returns (v: Entry)
      requires Valid() && IsRef(r) && level != P4d
      modifies this`tables, this`shadow
      ensures Valid()
      ensures tables == Store(old(tables), r, 0)
      ensures Dptr(r).None? ==> shadow == old(shadow) && v == old(Read(r))
      ensures Dptr(r).Some? ==>
                shadow == Store(old(shadow), Dptr(r).value, 0) &&
                v == JoinFlags(level, old(Read(r)), old(ReadShadow(Dptr(r).value)))
      ensures Dptr(r).Some? ==> Agree(Read(r), ReadShadow(Dptr(r).value))
    {
      v := Read(r);
      tables := Store(tables, r, 0);
      var d := Dptr(r);
      if d.None? {
        return;
      }
      var dv := ReadShadow(d.value);
      shadow := Store(shadow, d.value, 0);
      v := JoinFlags(level, v, dv);
    }

    /** WRITE_ONCE of a raw value into a shadow entry. */
    method WriteShadow(d: EntryRef, v: Entry)
      requires Valid() && IsShadowRef(d)
      modifies this`shadow
      ensures Valid()
      ensures shadow == Store(old(shadow), d, v)
    {
      shadow := Store(shadow, d, v);
    }

    /**
     * devirt_pmdp_establish with CONFIG_SMP: swap pmd into the primary entry,
     * then swap its translated copy into the shadow entry. The result is the
     * displaced primary entry when there is no shadow entry, but pmd itself
     * when there is one (__join_pmd_flags(pmd, dpmd) is pmd).
     */
    method EstablishSmp(r: EntryRef, pmd: Entry) returns (ret: Entry)
      requires Valid() && IsRef(r)
      modifies this`tables, this`shadow, this`probes
      ensures Valid()
      ensures tables == Store(old(tables), r, pmd)
      ensures Dptr(r).None? ==> shadow == old(shadow) && probes == old(probes) && ret == old(Read(r))
      ensures Dptr(r).Some? ==>
                shadow == Store(old(shadow), Dptr(r).value, PgtVal(ftt, pmd, PmdTarget(pmd))) &&
                Agree(pmd, ReadShadow(Dptr(r).value)) &&
                probes == old(probes) + ProbeOf(ftt, pmd, PmdTarget(pmd)) &&
                ret == pmd
    {
      ret := Read(r);
      tables := Store(tables, r, pmd);
      var d := Dptr(r);
      if d.None? {
        return;
      }
      CopyVal(d.value, r, PmdTarget(pmd));
      ret := JoinFlags(Pmd, pmd, ret);
    }

    /**
     * devirt_pmdp_establish without CONFIG_SMP: write pmd, then write into
     * the shadow entry the untranslated kernel address derived from the
     * displaced entry (not from pmd), and return the displaced entry.
     */
    method EstablishUp(r: EntryRef, pmd: Entry) returns (ret: Entry)
      requires Valid() && IsRef(r)
      modifies this`tables, this`shadow
      ensures Valid()
      ensures tables == Store(old(tables), r, pmd)
      ensures ret == old(Read(r))
      ensures Dptr(r).None? ==> shadow == old(shadow)
      ensures Dptr(r).Some? ==>
                shadow == Store(old(shadow), Dptr(r).value, old(KAddr(PmdTarget(Read(r)))))
    {
      var displaced := Read(r);
      tables := Store(tables, r, pmd);
      var d := Dptr(r);
      if d.None? {
        return displaced;
      }
      var dpmd := KAddr(PmdTarget(displaced));
      WriteShadow(d.value, dpmd);
      ret := JoinFlags(Pmd, displaced, dpmd);
    }
  }
}
