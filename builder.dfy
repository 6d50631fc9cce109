/**
 * Construction of the shadow root (devirt_init_dv_root, count_pts,
 * construct_dv_root, the dvroot_* and count_* walk callbacks and
 * devirt_remove_dv_root in guest_kernel/drivers/devirt/devirt.c).
 *
 * The kernel's page-table walker (walk_page_range_novma) is modelled by
 * Walk and CountWalk: at the top (p4d), pud and pmd levels it calls the
 * level's callback on every non-empty entry, at the pte level on every
 * entry; below a visited entry it descends when the entry is present and,
 * under the top level, not a leaf (PS clear). Two ranges of the top level
 * are walked: slots [0, 256) and [272, 512).
 */
module Builder {
  import opened Entries
  import opened Mirror

  /** Top-level slots below PTRS_PER_PGD * PGD_LEVEL_MULT / 2, the first walked range. */
  const LOWER_HALF_SLOTS: nat := 256
  /** The top-level slot of GUARD_HOLE_END_ADDR, where the second walked range starts. */
  const GUARD_HOLE_END_SLOT: nat := 272

  /** How many levels lie below a level's entries. */
  function Rank(l: Level): nat
  {
    match l
    case P4d => 3
    case Pud => 2
    case Pmd => 1
    case Pte => 0
  }

  /** The level of the tables a level's entries point to. */
  function Next(l: Level): (n: Level)
    requires l != Pte
    ensures Rank(n) + 1 == Rank(l)
  {
    match l
    case P4d => Pud
    case Pud => Pmd
    case Pmd => Pte
  }

  /** The entry at slot s of table page p, 0 where there is no such entry. */
  function EntryOf(t: map<nat, Page>, p: nat, s: nat): Entry
  {
    if p in t && s < PTRS_PER_TABLE then t[p][s] else 0
  }

  /** A back-reference map read like _pt_pad_2: 0 for a page without one. */
  function LinkOf(br: map<nat, nat>, q: nat): nat
  {
    if q in br then br[q] else 0
  }

  /** The walker calls the level's callback on the entry. */
  predicate Visited(l: Level, e: Entry)
  {
    l == Pte || e != 0
  }

  /** The walker descends below the entry. */
  predicate Descends(l: Level, e: Entry)
  {
    l != Pte && e != 0 && Present(e) && (l == P4d || !Huge(e))
  }

  /**
   * count_p4d_entry, count_pud_entry and count_pmd_entry count the entry:
   * every visited top-level entry (there are no huge ones), every visited pud
   * that is not huge and every visited pmd, huge ones included.
   */
  predicate Counted(l: Level, e: Entry)
  {
    l != Pte && e != 0 && (l != Pud || !Huge(e))
  }

  /** What count_pts adds up over slots [lo, hi) of page p at level l and below. */
  ghost function Count(t: map<nat, Page>, l: Level, p: nat, lo: nat, hi: nat): nat
    decreases Rank(l), 1, hi - lo, p
  {
    if hi <= lo then 0 else EntryCount(t, l, p, lo) + Count(t, l, p, lo + 1, hi)
  }

  /** What count_pts adds up for slot s and the subtree below it. */
  ghost function EntryCount(t: map<nat, Page>, l: Level, p: nat, s: nat): nat
    decreases Rank(l), 0, 0
  {
    var e := EntryOf(t, p, s);
    (if Counted(l, e) then 1 else 0) +
    (if Descends(l, e) then Count(t, Next(l), EntryPfn(e), 0, PTRS_PER_TABLE) else 0)
  }

  /** Every table the walker reaches from slots [lo, hi) of page p is a table page. */
  ghost predicate Wf(t: map<nat, Page>, l: Level, p: nat, lo: nat, hi: nat)
    decreases Rank(l), 1, hi - lo, p
  {
    p in t && (hi <= lo || (WfEntry(t, l, p, lo) && Wf(t, l, p, lo + 1, hi)))
  }

  ghost predicate WfEntry(t: map<nat, Page>, l: Level, p: nat, s: nat)
    decreases Rank(l), 0, 0
  {
    var e := EntryOf(t, p, s);
    Descends(l, e) ==> Wf(t, Next(l), EntryPfn(e), 0, PTRS_PER_TABLE)
  }

  /** The walk from slots [lo, hi) of page p meets a huge pud. */
  ghost predicate HasHugePud(t: map<nat, Page>, l: Level, p: nat, lo: nat, hi: nat)
    decreases Rank(l), 1, hi - lo, p
  {
    hi > lo && (EntryHugePud(t, l, p, lo) || HasHugePud(t, l, p, lo + 1, hi))
  }

  ghost predicate EntryHugePud(t: map<nat, Page>, l: Level, p: nat, s: nat)
    decreases Rank(l), 0, 0
  {
    var e := EntryOf(t, p, s);
    (l == Pud && e != 0 && Huge(e)) ||
    (Descends(l, e) && HasHugePud(t, Next(l), EntryPfn(e), 0, PTRS_PER_TABLE))
  }

  /**
   * Every table below slots [lo, hi) of page p that construct_dv_root would
   * link already has a shadow page in br, and there are no huge pmds.
   */
  ghost predicate Linked(t: map<nat, Page>, br: map<nat, nat>, l: Level, p: nat, lo: nat, hi: nat)
    decreases Rank(l), 1, hi - lo, p
  {
    hi <= lo || (EntryLinked(t, br, l, p, lo) && Linked(t, br, l, p, lo + 1, hi))
  }

  ghost predicate EntryLinked(t: map<nat, Page>, br: map<nat, nat>, l: Level, p: nat, s: nat)
    decreases Rank(l), 0, 0
  {
    var e := EntryOf(t, p, s);
    LinkedHere(br, l, e) &&
    (Descends(l, e) ==> Linked(t, br, Next(l), EntryPfn(e), 0, PTRS_PER_TABLE))
  }

  /** The entry is no huge pmd, and a table it points to already has a shadow page in br. */
  predicate LinkedHere(br: map<nat, nat>, l: Level, e: Entry)
  {
    (l == Pmd && e != 0 ==> !Huge(e)) &&
    (Counted(l, e) && (l == P4d || !Huge(e)) ==> LinkOf(br, EntryPfn(e)) != 0)
  }

  /**
   * Every table the walker descends into from slots [lo, hi) of page p has
   * a shadow page in br, all the way down.
   */
  ghost predicate Mirrored(t: map<nat, Page>, br: map<nat, nat>, l: Level, p: nat, lo: nat, hi: nat)
    decreases Rank(l), 1, hi - lo, p
  {
    hi <= lo || (EntryMirrored(t, br, l, p, lo) && Mirrored(t, br, l, p, lo + 1, hi))
  }

  ghost predicate EntryMirrored(t: map<nat, Page>, br: map<nat, nat>, l: Level, p: nat, s: nat)
    decreases Rank(l), 0, 0
  {
    var e := EntryOf(t, p, s);
    Descends(l, e) ==>
      LinkOf(br, EntryPfn(e)) != 0 && Mirrored(t, br, Next(l), EntryPfn(e), 0, PTRS_PER_TABLE)
  }

  /** Slots [lo, hi) of top-level page p are all empty. */
  ghost predicate NoneVisited(t: map<nat, Page>, p: nat, lo: nat, hi: nat)
  {
    forall s :: lo <= s < hi ==> EntryOf(t, p, s) == 0
  }

  /*
   * walk_all_ranges covers the two user ranges of the top page: slots
   * [0, LOWER_HALF_SLOTS) and [GUARD_HOLE_END_SLOT, PTRS_PER_TABLE). The
   * following combine the per-range notions over both.
   */

  /** Both ranges of top are well formed. */
  ghost predicate TopWf(t: map<nat, Page>, top: nat)
  {
    Wf(t, P4d, top, 0, LOWER_HALF_SLOTS) && Wf(t, P4d, top, GUARD_HOLE_END_SLOT, PTRS_PER_TABLE)
  }

  /** Pool frames construct_dv_root needs: the root plus one per counted entry. */
  ghost function Needed(t: map<nat, Page>, top: nat): nat
  {
    1 + Count(t, P4d, top, 0, LOWER_HALF_SLOTS) + Count(t, P4d, top, GUARD_HOLE_END_SLOT, PTRS_PER_TABLE)
  }

  /** Some visited pud entry in either range maps a huge page. */
  ghost predicate TopHuge(t: map<nat, Page>, top: nat)
  {
    HasHugePud(t, P4d, top, 0, LOWER_HALF_SLOTS) || HasHugePud(t, P4d, top, GUARD_HOLE_END_SLOT, PTRS_PER_TABLE)
  }

  /** No slot of either range is visited. */
  ghost predicate TopNone(t: map<nat, Page>, top: nat)
  {
    NoneVisited(t, top, 0, LOWER_HALF_SLOTS) && NoneVisited(t, top, GUARD_HOLE_END_SLOT, PTRS_PER_TABLE)
  }

  /** Both ranges are already mirrored under the back references br. */
  ghost predicate TopLinked(t: map<nat, Page>, br: map<nat, nat>, top: nat)
  {
    Linked(t, br, P4d, top, 0, LOWER_HALF_SLOTS) && Linked(t, br, P4d, top, GUARD_HOLE_END_SLOT, PTRS_PER_TABLE)
  }

  /** Both ranges of top are mirrored under br. */
  ghost predicate TopMirrored(t: map<nat, Page>, br: map<nat, nat>, top: nat)
  {
    Mirrored(t, br, P4d, top, 0, LOWER_HALF_SLOTS) && Mirrored(t, br, P4d, top, GUARD_HOLE_END_SLOT, PTRS_PER_TABLE)
  }

  /** Nothing is counted at the pte level. */
  lemma {:induction false} CountPteZero(t: map<nat, Page>, p: nat, lo: nat, hi: nat)
    ensures Count(t, Pte, p, lo, hi) == 0
    decreases hi - lo
  {
    if hi > lo {
      CountPteZero(t, p, lo + 1, hi);
    }
  }

  /** br1 extends br0: no back-reference is changed once set. */
  ghost predicate Keeps(br0: map<nat, nat>, br1: map<nat, nat>)
  {
    forall q :: LinkOf(br0, q) != 0 ==> LinkOf(br1, q) == LinkOf(br0, q)
  }

  lemma KeepsTrans(br0: map<nat, nat>, br1: map<nat, nat>, br2: map<nat, nat>)
    requires Keeps(br0, br1) && Keeps(br1, br2)
    ensures Keeps(br0, br2)
  {
  }

  /** A mirrored range stays mirrored while no back-reference changes once set. */
  lemma {:induction false} MirroredKeeps(t: map<nat, Page>, br0: map<nat, nat>, br1: map<nat, nat>,
                                         l: Level, p: nat, lo: nat, hi: nat)
    requires Keeps(br0, br1) && Mirrored(t, br0, l, p, lo, hi)
    ensures Mirrored(t, br1, l, p, lo, hi)
    decreases Rank(l), 1, hi - lo
  {
    if lo < hi {
      EntryMirroredKeeps(t, br0, br1, l, p, lo);
      MirroredKeeps(t, br0, br1, l, p, lo + 1, hi);
    }
  }

  lemma {:induction false} EntryMirroredKeeps(t: map<nat, Page>, br0: map<nat, nat>, br1: map<nat, nat>,
                                              l: Level, p: nat, s: nat)
    requires Keeps(br0, br1) && EntryMirrored(t, br0, l, p, s)
    ensures EntryMirrored(t, br1, l, p, s)
    decreases Rank(l), 0
  {
    var e := EntryOf(t, p, s);
    if Descends(l, e) {
      MirroredKeeps(t, br0, br1, Next(l), EntryPfn(e), 0, PTRS_PER_TABLE);
    }
  }

  /** The state of one construct_dv_root walk (struct dvroot_state). */
  class DvrootState {
    /** The level of the last entry copied, -1 before the first top-level entry. */
    var level: int
    var entriesChanged: nat
    /** The next unused frame of the pool. */
    var curPage: nat
    /** The shadow root, taken from the pool at the first top-level entry. */
    var curP4dPage: nat

    constructor ()
      ensures level == -1 && entriesChanged == 0 && curPage == 0 && curP4dPage == 0
    {
      level := -1;
      entriesChanged := 0;
      curPage := 0;
      curP4dPage := 0;
    }
  }

  /** Pool frames taken so far, counting the shadow root before it is taken. */
  function Used(ds: DvrootState): nat
    reads ds
  {
    ds.curPage + (if ds.level == -1 then 1 else 0)
  }

  /** Every pool frame is an allocated shadow page. */
  ghost predicate PoolReady(m: Machine)
    reads m`pool, m`shadow, m.pool
  {
    PoolIn(m.pool, m.shadow.Keys)
  }

  /** Every frame of pool is nonzero and one of the pages in keys. */
  ghost predicate PoolIn(pool: array<nat>, keys: set<nat>)
    reads pool
  {
    forall i :: 0 <= i < pool.Length ==> pool[i] != 0 && pool[i] in keys
  }

  ghost predicate StateOk(m: Machine, ds: DvrootState)
    reads m`shadow, m`pool, ds
  {
    ds.level >= -1 && (ds.level != -1 ==> ds.curP4dPage in m.shadow) && Used(ds) <= m.pool.Length
  }

  /** The frames taken for one entry: one for a child page not linked yet. */
  function Taken(br: map<nat, nat>, child: nat): nat
  {
    if LinkOf(br, child) == 0 then 1 else 0
  }

  /**
   * The `cur_*_page = page->_pt_pad_2; if (!cur_*_page) ...` step of the
   * callbacks: the child page's shadow page, taking the next pool frame and
   * linking it when there is none.
   */
  method LinkChild(m: Machine, ds: DvrootState, child: nat) returns (dchild: nat)
    requires m.Valid() && PoolReady(m) && StateOk(m, ds)
    requires ds.level != -1 && Used(ds) + Taken(m.backref, child) <= m.pool.Length
    modifies m`backref, ds`curPage
    ensures m.Valid() && StateOk(m, ds)
    ensures Keeps(old(m.backref), m.backref)
    ensures dchild != 0 && dchild in m.shadow && m.BackRef(child) == dchild
    ensures ds.curPage == old(ds.curPage) + Taken(old(m.backref), child)
    ensures old(m.BackRef(child)) != 0 ==> dchild == old(m.BackRef(child)) && m.backref == old(m.backref)
    ensures old(m.BackRef(child)) == 0 ==>
              dchild == m.pool[old(ds.curPage)] && m.backref == old(m.backref)[child := dchild]
  {
    dchild := m.BackRef(child);
    if dchild == 0 {
      dchild := m.pool[ds.curPage];
      m.backref := m.backref[child := dchild];
      ds.curPage := ds.curPage + 1;
    }
  }

  /**
   * The common tail of dvroot_{p4d,pud,pmd}_entry for an entry r that points
   * at a table: count it, record the level, link the child table to a shadow
   * page (LinkChild) and write the translated entry, pointing at that shadow
   * page, into shadow entry d.
   */
  method CopyChild(m: Machine, ds: DvrootState, d: EntryRef, r: EntryRef, level: nat)
    requires m.Valid() && PoolReady(m) && StateOk(m, ds) && m.IsRef(r) && m.IsShadowRef(d)
    requires ds.level != -1 && Used(ds) + 1 <= m.pool.Length
    modifies m`shadow, m`backref, m`probes, ds`curPage, ds`level, ds`entriesChanged
    ensures m.Valid() && StateOk(m, ds) && m.shadow.Keys == old(m.shadow.Keys)
    ensures Keeps(old(m.backref), m.backref)
    ensures ds.level == level && ds.entriesChanged == old(ds.entriesChanged) + 1
    ensures ds.curPage == old(ds.curPage) + Taken(old(m.backref), EntryPfn(m.Read(r)))
    ensures m.BackRef(EntryPfn(m.Read(r))) != 0
    ensures old(m.BackRef(EntryPfn(m.Read(r)))) != 0 ==> m.backref == old(m.backref)
    ensures m.shadow == Store(old(m.shadow), d, PgtVal(m.ftt, m.Read(r), m.BackRef(EntryPfn(m.Read(r)))))
    ensures m.probes == old(m.probes) + ProbeOf(m.ftt, m.Read(r), m.BackRef(EntryPfn(m.Read(r))))
  {
    ds.entriesChanged := ds.entriesChanged + 1;
    ds.level := level;
    var dchild := LinkChild(m, ds, EntryPfn(m.Read(r)));
    m.CopyVal(d, r, dchild);
  }

  /**
   * dvroot_p4d_entry: take the shadow root from the pool at the first
   * top-level entry, then copy the entry into the root (CopyChild).
   */
  method P4dEntry(m: Machine, ds: DvrootState, r: EntryRef)
    requires m.Valid() && PoolReady(m) && StateOk(m, ds) && m.IsRef(r)
    requires Used(ds) + 1 <= m.pool.Length
    modifies m`shadow, m`backref, m`probes, ds
    ensures m.Valid() && StateOk(m, ds) && m.shadow.Keys == old(m.shadow.Keys)
    ensures Keeps(old(m.backref), m.backref)
    ensures ds.level == 0 && ds.entriesChanged == old(ds.entriesChanged) + 1
    ensures old(ds.level) == -1 ==> ds.curP4dPage == m.pool[old(ds.curPage)]
    ensures old(ds.level) != -1 ==> ds.curP4dPage == old(ds.curP4dPage)
    ensures Used(ds) == old(Used(ds)) + Taken(old(m.backref), EntryPfn(m.Read(r)))
    ensures m.BackRef(EntryPfn(m.Read(r))) != 0
    ensures old(m.BackRef(EntryPfn(m.Read(r)))) != 0 ==> m.backref == old(m.backref)
    ensures m.shadow == Store(old(m.shadow), EntryRef(ds.curP4dPage, r.slot),
                              PgtVal(m.ftt, m.Read(r), m.BackRef(EntryPfn(m.Read(r)))))
    ensures m.probes == old(m.probes) + ProbeOf(m.ftt, m.Read(r), m.BackRef(EntryPfn(m.Read(r))))
  {
    ghost var br0, c0 := m.backref, ds.curPage;
    if ds.level == -1 {
      ds.level := 0;
      ds.curP4dPage := m.pool[ds.curPage];
      ds.curPage := ds.curPage + 1;
    }
    ghost var c1 := ds.curPage;
    CopyChild(m, ds, EntryRef(ds.curP4dPage, r.slot), r, 0);
  }

  /**
   * dvroot_pud_entry: the pud's shadow page must exist (BUG otherwise); a
   * huge pud is copied and then hits BUG; otherwise the entry is copied into
   * the shadow page (CopyChild).
   */
  method PudEntry(m: Machine, ds: DvrootState, r: EntryRef) returns (fatal: bool)
    requires m.Valid() && PoolReady(m) && StateOk(m, ds) && m.IsRef(r) && ds.level != -1
    requires Used(ds) + (if Huge(m.Read(r)) then 0 else 1) <= m.pool.Length
    modifies m`shadow, m`backref, m`probes, ds
    ensures m.Valid() && StateOk(m, ds) && m.shadow.Keys == old(m.shadow.Keys)
    ensures Keeps(old(m.backref), m.backref)
    ensures ds.curP4dPage == old(ds.curP4dPage) && ds.level != -1
    ensures fatal <==> old(m.BackRef(r.pfn)) == 0 || Huge(m.Read(r))
    ensures old(m.BackRef(r.pfn)) == 0 ==>
              m.shadow == old(m.shadow) && m.backref == old(m.backref) &&
              m.probes == old(m.probes) && ds.curPage == old(ds.curPage)
    ensures old(m.BackRef(r.pfn)) != 0 && Huge(m.Read(r)) ==>
              m.backref == old(m.backref) && ds.curPage == old(ds.curPage) &&
              ds.entriesChanged == old(ds.entriesChanged) + 1 &&
              m.shadow == Store(old(m.shadow), old(m.Dptr(r)).value,
                                PgtVal(m.ftt, m.Read(r), EntryPfn(m.Read(r)))) &&
              m.probes == old(m.probes) + ProbeOf(m.ftt, m.Read(r), EntryPfn(m.Read(r)))
    ensures old(m.BackRef(r.pfn)) != 0 && !Huge(m.Read(r)) ==>
              ds.level == 1 && m.BackRef(EntryPfn(m.Read(r))) != 0 &&
              Used(ds) == old(Used(ds)) + Taken(old(m.backref), EntryPfn(m.Read(r))) &&
              (old(m.BackRef(EntryPfn(m.Read(r)))) != 0 ==> m.backref == old(m.backref)) &&
              m.shadow == Store(old(m.shadow), old(m.Dptr(r)).value,
                                PgtVal(m.ftt, m.Read(r), m.BackRef(EntryPfn(m.Read(r))))) &&
              m.probes == old(m.probes) + ProbeOf(m.ftt, m.Read(r), m.BackRef(EntryPfn(m.Read(r))))
  {
    var d := m.Dptr(r);
    if d.None? {
      return true;
    }
    if Huge(m.Read(r)) {
      ds.entriesChanged := ds.entriesChanged + 1;
      m.CopyEntry(d.value, r);
      return true;
    }
    CopyChild(m, ds, d.value, r, 1);
    fatal := false;
  }

  /** The 512 entries a huge pmd is broken into: the i-th maps the pmd's i-th 4 KiB frame. */
  function LeafPage(ftt: seq<bv64>, pmd: Entry): Page
  {
    seq(PTRS_PER_TABLE, i => LeafEntry(ftt, pmd, i))
  }

  /** Entry i of LeafPage: the pmd's i-th 4 KiB frame, translated, without PS. */
  function LeafEntry(ftt: seq<bv64>, pmd: Entry, i: int): Entry
  {
    if 0 <= i then PgtValNoHuge(ftt, pmd, EntryPfn(pmd) + i) else 0
  }

  /** No entry of a broken-up huge pmd is huge, and each is present exactly when the pmd is. */
  lemma LeafPageShape(ftt: seq<bv64>, pmd: Entry, i: nat)
    requires i < PTRS_PER_TABLE
    ensures !Huge(LeafPage(ftt, pmd)[i])
    ensures Present(LeafPage(ftt, pmd)[i]) <==> Present(pmd)
  {
    assert LeafPage(ftt, pmd)[i] == PgtValNoHuge(ftt, pmd, EntryPfn(pmd) + i);
  }

  /** Clearing PS leaves the frame bits alone. */
  lemma FrameClearPse(x: Entry)
    ensures Frame(x & !PAGE_PSE) == Frame(x)
  {
  }

  /**
   * Each entry of a broken-up present huge pmd points at the host frame the
   * translation table gives for the matching guest frame (truncated to 40
   * bits).
   */
  lemma LeafPageFrame(ftt: seq<bv64>, pmd: Entry, i: nat)
    requires Present(pmd) && i < PTRS_PER_TABLE
    ensures Frame(LeafPage(ftt, pmd)[i]) == FttAt(ftt, EntryPfn(pmd) + i) & 0xFF_FFFF_FFFF
  {
    var v := PgtVal(ftt, pmd, EntryPfn(pmd) + i);
    PgtValFrame(ftt, pmd, EntryPfn(pmd) + i);
    FrameClearPse(v);
  }

  /** The frames the break-up loop probes while overwriting the first n entries of page. */
  ghost function LeafProbes(ftt: seq<bv64>, page: Page, pmd: Entry, n: nat): seq<nat>
    requires n <= PTRS_PER_TABLE
  {
    if n == 0 then [] else LeafProbes(ftt, page, pmd, n - 1) + ProbeOf(ftt, page[n - 1], EntryPfn(pmd) + n - 1)
  }

  /** Breaking a huge pmd up into a zeroed pool page probes nothing. */
  lemma {:induction false} ZeroPageNoProbes(ftt: seq<bv64>, pmd: Entry, n: nat)
    requires n <= PTRS_PER_TABLE
    ensures LeafProbes(ftt, ZeroPage(), pmd, n) == []
  {
    if n > 0 {
      ZeroPageNoProbes(ftt, pmd, n - 1);
    }
  }

  /** page with its first n entries overwritten by the leaf entries of pmd, in order. */
  ghost function LeafPrefix(ftt: seq<bv64>, page: Page, pmd: Entry, n: nat): Page
    requires n <= PTRS_PER_TABLE
    decreases n, page
  {
    if n == 0 then page else LeafPrefix(ftt, page, pmd, n - 1)[n - 1 := LeafEntry(ftt, pmd, n - 1)]
  }

  /** Entry k of LeafPrefix: a leaf entry below n, the old entry from n on. */
  lemma {:induction false} LeafPrefixAt(ftt: seq<bv64>, page: Page, pmd: Entry, n: nat, k: nat)
    requires n <= PTRS_PER_TABLE && k < PTRS_PER_TABLE
    ensures LeafPrefix(ftt, page, pmd, n)[k] == if k < n then LeafEntry(ftt, pmd, k) else page[k]
  {
    if n > 0 {
      LeafPrefixAt(ftt, page, pmd, n - 1, k);
    }
  }

  /** Overwriting all 512 entries gives the broken-up page, whatever page held before. */
  lemma LeafPrefixFull(ftt: seq<bv64>, page: Page, pmd: Entry)
    ensures LeafPrefix(ftt, page, pmd, PTRS_PER_TABLE) == LeafPage(ftt, pmd)
  {
    forall k | 0 <= k < PTRS_PER_TABLE
      ensures LeafPrefix(ftt, page, pmd, PTRS_PER_TABLE)[k] == LeafPage(ftt, pmd)[k]
    {
      LeafPrefixAt(ftt, page, pmd, PTRS_PER_TABLE, k);
    }
  }

  /**
   * The loop of dvroot_pmd_entry over the 512 entries of a pool page,
   * overwriting each old entry with the translated leaf entry of the guest
   * frame it maps. The probes the loop makes on the old entries, in slot
   * order, are LeafProbes; BreakUp records them.
   */
  method FillLeaves(ftt: seq<bv64>, page: Page, pmd: Entry) returns (ptes: Page)
    ensures ptes == LeafPage(ftt, pmd)
  {
    ptes := page;
    var i := 0;
    while i < PTRS_PER_TABLE
      invariant i <= PTRS_PER_TABLE
      invariant ptes == LeafPrefix(ftt, page, pmd, i)
    {
      ptes := ptes[i := LeafEntry(ftt, pmd, i)];
      i := i + 1;
    }
    LeafPrefixFull(ftt, page, pmd);
  }

  /** The break-up of a huge pmd into shadow page f. */
  method BreakUp(m: Machine, f: nat, pmd: Entry)
    requires m.Valid() && f in m.shadow
    modifies m`shadow, m`probes
    ensures m.Valid()
    ensures m.shadow == old(m.shadow)[f := LeafPage(m.ftt, pmd)]
    ensures m.probes == old(m.probes) + LeafProbes(m.ftt, old(m.shadow[f]), pmd, PTRS_PER_TABLE)
    ensures old(m.shadow[f]) == ZeroPage() ==> m.probes == old(m.probes)
  {
    if m.shadow[f] == ZeroPage() {
      ZeroPageNoProbes(m.ftt, pmd, PTRS_PER_TABLE);
    }
    var ptes := FillLeaves(m.ftt, m.shadow[f], pmd);
    m.probes := m.probes + LeafProbes(m.ftt, m.shadow[f], pmd, PTRS_PER_TABLE);
    m.shadow := m.shadow[f := ptes];
  }

  /**
   * The huge-pmd branch of dvroot_pmd_entry: take the next pool frame, point
   * shadow entry d at it without PS, and fill it with the 512 broken-up
   * entries.
   */
  method PmdHuge(m: Machine, ds: DvrootState, d: EntryRef, r: EntryRef)
    requires m.Valid() && PoolReady(m) && StateOk(m, ds) && m.IsRef(r) && m.IsShadowRef(d)
    requires ds.level != -1 && Used(ds) + 1 <= m.pool.Length
    modifies m`shadow, m`probes, ds`curPage, ds`entriesChanged
    ensures m.Valid() && StateOk(m, ds) && m.shadow.Keys == old(m.shadow.Keys)
    ensures ds.curPage == old(ds.curPage) + 1 && ds.entriesChanged == old(ds.entriesChanged) + 1
    ensures var f := m.pool[old(ds.curPage)];
            var mid := Store(old(m.shadow), d, PgtValNoHuge(m.ftt, m.Read(r), f));
            m.shadow == mid[f := LeafPage(m.ftt, m.Read(r))] &&
            m.probes == old(m.probes) + LeafProbes(m.ftt, mid[f], m.Read(r), PTRS_PER_TABLE)
  {
    ds.entriesChanged := ds.entriesChanged + 1;
    var f := m.pool[ds.curPage];
    ds.curPage := ds.curPage + 1;
    var pmd := m.Read(r);
    m.WriteShadow(d, PgtValNoHuge(m.ftt, pmd, f));
    ghost var mid, p0 := m.shadow, m.probes;
    BreakUp(m, f, pmd);
    assert m.shadow == mid[f := LeafPage(m.ftt, pmd)];
    assert m.probes == p0 + LeafProbes(m.ftt, mid[f], pmd, PTRS_PER_TABLE);
  }

  /**
   * dvroot_pmd_entry: the pmd's shadow page must exist (BUG otherwise); a
   * huge pmd is broken up (PmdHuge), any other entry is copied into the
   * shadow page (CopyChild).
   */
  method PmdEntry(m: Machine, ds: DvrootState, r: EntryRef) returns (fatal: bool)
    requires m.Valid() && PoolReady(m) && StateOk(m, ds) && m.IsRef(r) && ds.level != -1
    requires Used(ds) + 1 <= m.pool.Length
    modifies m`shadow, m`backref, m`probes, ds
    ensures m.Valid() && StateOk(m, ds) && m.shadow.Keys == old(m.shadow.Keys)
    ensures Keeps(old(m.backref), m.backref)
    ensures ds.curP4dPage == old(ds.curP4dPage) && ds.level != -1
    ensures fatal <==> old(m.BackRef(r.pfn)) == 0
    ensures fatal ==>
              m.shadow == old(m.shadow) && m.backref == old(m.backref) &&
              m.probes == old(m.probes) && ds.curPage == old(ds.curPage)
    ensures !fatal && Huge(m.Read(r)) ==>
              m.backref == old(m.backref) && ds.curPage == old(ds.curPage) + 1 &&
              var f := m.pool[old(ds.curPage)];
              var mid := Store(old(m.shadow), old(m.Dptr(r)).value, PgtValNoHuge(m.ftt, m.Read(r), f));
              m.shadow == mid[f := LeafPage(m.ftt, m.Read(r))] &&
              m.probes == old(m.probes) + LeafProbes(m.ftt, mid[f], m.Read(r), PTRS_PER_TABLE)
    ensures !fatal && !Huge(m.Read(r)) ==>
              ds.level == 2 && m.BackRef(EntryPfn(m.Read(r))) != 0 &&
              ds.curPage == old(ds.curPage) + Taken(old(m.backref), EntryPfn(m.Read(r))) &&
              (old(m.BackRef(EntryPfn(m.Read(r)))) != 0 ==> m.backref == old(m.backref)) &&
              m.shadow == Store(old(m.shadow), old(m.Dptr(r)).value,
                                PgtVal(m.ftt, m.Read(r), m.BackRef(EntryPfn(m.Read(r))))) &&
              m.probes == old(m.probes) + ProbeOf(m.ftt, m.Read(r), m.BackRef(EntryPfn(m.Read(r))))
  {
    var d := m.Dptr(r);
    if d.None? {
      return true;
    }
    fatal := false;
    if Huge(m.Read(r)) {
      PmdHuge(m, ds, d.value, r);
      return;
    }
    CopyChild(m, ds, d.value, r, 2);
  }

  /** dvroot_pte_entry: the pte's shadow page must exist (BUG otherwise); copy the entry. */
  method PteEntry(m: Machine, ds: DvrootState, r: EntryRef) returns (fatal: bool)
    requires m.Valid() && StateOk(m, ds) && m.IsRef(r) && ds.level != -1
    modifies m`shadow, m`probes, ds`entriesChanged, ds`level
    ensures m.Valid() && StateOk(m, ds) && m.shadow.Keys == old(m.shadow.Keys)
    ensures ds.level != -1
    ensures fatal <==> old(m.BackRef(r.pfn)) == 0
    ensures fatal ==> m.shadow == old(m.shadow) && m.probes == old(m.probes)
    ensures !fatal ==>
              ds.level == 3 &&
              m.shadow == Store(old(m.shadow), m.Dptr(r).value,
                                PgtVal(m.ftt, m.Read(r), EntryPfn(m.Read(r)))) &&
              m.probes == old(m.probes) + ProbeOf(m.ftt, m.Read(r), EntryPfn(m.Read(r)))
  {
    var d := m.Dptr(r);
    if d.None? {
      return true;
    }
    ds.entriesChanged := ds.entriesChanged + 1;
    ds.level := 3;
    m.CopyEntry(d.value, r);
    fatal := false;
  }

  /**
   * What a dvroot_* callback of level l on entry e does to the back-references
   * (br0 to br1) and to the pool frames used (u0 to u1): it keeps every
   * back-reference, takes at most the frame count_pts counts for e, reports a
   * BUG only at a huge pud, links the table below e, and takes and links
   * nothing when that table is linked already.
   */
  ghost predicate CallbackDone(l: Level, e: Entry, fatal: bool, br0: map<nat, nat>, br1: map<nat, nat>, u0: nat, u1: nat)
  {
    Keeps(br0, br1) &&
    u1 <= u0 + (if Counted(l, e) then 1 else 0) &&
    (fatal ==> l == Pud && Huge(e)) &&
    (!fatal && Descends(l, e) ==> LinkOf(br1, EntryPfn(e)) != 0) &&
    (LinkedHere(br0, l, e) ==> br1 == br0 && u1 == u0)
  }

  /** dvroot_pud_entry on the visited entry r, as the walk sees it (CallbackDone). */
  method PudCallback(m: Machine, ds: DvrootState, r: EntryRef) returns (fatal: bool)
    requires m.Valid() && PoolReady(m) && StateOk(m, ds) && m.IsRef(r) && m.Read(r) != 0
    requires m.BackRef(r.pfn) != 0 && ds.level != -1
    requires Used(ds) + (if Counted(Pud, m.Read(r)) then 1 else 0) <= m.pool.Length
    modifies m`shadow, m`backref, m`probes, ds
    ensures m.Valid() && PoolReady(m) && StateOk(m, ds) && m.shadow.Keys == old(m.shadow.Keys)
    ensures ds.level != -1 && ds.curP4dPage == old(ds.curP4dPage)
    ensures CallbackDone(Pud, m.Read(r), fatal, old(m.backref), m.backref, old(Used(ds)), Used(ds))
  {
    ghost var t, e, br0 := m.tables, m.Read(r), m.backref;
    assert LinkedHere(br0, Pud, e) && !Huge(e) ==> LinkOf(br0, EntryPfn(e)) != 0;
    fatal := PudEntry(m, ds, r);
    assert m.tables == t;
  }

  /** dvroot_pmd_entry on the visited entry r, as the walk sees it (CallbackDone). */
  method PmdCallback(m: Machine, ds: DvrootState, r: EntryRef) returns (fatal: bool)
    requires m.Valid() && PoolReady(m) && StateOk(m, ds) && m.IsRef(r) && m.Read(r) != 0
    requires m.BackRef(r.pfn) != 0 && ds.level != -1
    requires Used(ds) + (if Counted(Pmd, m.Read(r)) then 1 else 0) <= m.pool.Length
    modifies m`shadow, m`backref, m`probes, ds
    ensures m.Valid() && PoolReady(m) && StateOk(m, ds) && m.shadow.Keys == old(m.shadow.Keys)
    ensures ds.level != -1 && ds.curP4dPage == old(ds.curP4dPage)
    ensures CallbackDone(Pmd, m.Read(r), fatal, old(m.backref), m.backref, old(Used(ds)), Used(ds))
  {
    ghost var t, e, br0 := m.tables, m.Read(r), m.backref;
    assert LinkedHere(br0, Pmd, e) ==> !Huge(e) && LinkOf(br0, EntryPfn(e)) != 0;
    fatal := PmdEntry(m, ds, r);
    assert m.tables == t;
  }

  /**
   * The dvroot_pud_entry, dvroot_pmd_entry or dvroot_pte_entry callback on
   * the visited entry r of a linked page below the top level. fatal reports
   * a BUG, which happens only at a huge pud.
   */
  method Callback(m: Machine, ds: DvrootState, l: Level, r: EntryRef) returns (fatal: bool)
    requires m.Valid() && PoolReady(m) && StateOk(m, ds) && m.IsRef(r) && Visited(l, m.Read(r))
    requires l != P4d && m.BackRef(r.pfn) != 0 && ds.level != -1
    requires Used(ds) + (if Counted(l, m.Read(r)) then 1 else 0) <= m.pool.Length
    modifies m`shadow, m`backref, m`probes, ds
    ensures m.Valid() && PoolReady(m) && StateOk(m, ds) && m.shadow.Keys == old(m.shadow.Keys)
    ensures ds.level != -1 && ds.curP4dPage == old(ds.curP4dPage)
    ensures CallbackDone(l, m.Read(r), fatal, old(m.backref), m.backref, old(Used(ds)), Used(ds))
  {
    if l == Pud {
      fatal := PudCallback(m, ds, r);
    } else if l == Pmd {
      fatal := PmdCallback(m, ds, r);
    } else {
      ghost var t := m.tables;
      fatal := PteEntry(m, ds, r);
      assert m.tables == t;
    }
  }

  /**
   * The dvroot_p4d_entry callback on the nonempty top-level entry r, as the
   * walk sees it: the first one takes the shadow root, and each one links the
   * pud table below it, taking a pool frame only when that table has no
   * shadow page yet.
   */
  method TopCallback(m: Machine, ds: DvrootState, r: EntryRef)
    requires m.Valid() && PoolReady(m) && StateOk(m, ds) && m.IsRef(r) && m.Read(r) != 0
    requires Used(ds) + 1 <= m.pool.Length
    modifies m`shadow, m`backref, m`probes, ds
    ensures m.Valid() && PoolReady(m) && StateOk(m, ds) && m.shadow.Keys == old(m.shadow.Keys)
    ensures ds.level != -1
    ensures old(ds.level) != -1 ==> ds.curP4dPage == old(ds.curP4dPage)
    ensures old(ds.level) == -1 ==> ds.curP4dPage == m.pool[old(ds.curPage)]
    ensures CallbackDone(P4d, m.Read(r), false, old(m.backref), m.backref, old(Used(ds)), Used(ds))
  {
    ghost var e, br0 := m.Read(r), m.backref;
    assert LinkedHere(br0, P4d, e) ==> LinkOf(br0, EntryPfn(e)) != 0;
    P4dEntry(m, ds, r);
    assert m.Read(r) == e;
  }

  /**
   * One top-level slot of walk_page_range_novma with the dvroot_* callbacks:
   * call dvroot_p4d_entry on entry i of page p if it is not empty, then walk
   * the pud table below it. The first visited entry takes the shadow root
   * from the pool. fatal reports a BUG.
   */
  method VisitTop(m: Machine, ds: DvrootState, p: nat, i: nat) returns (fatal: bool)
    requires m.Valid() && PoolReady(m) && StateOk(m, ds)
    requires p in m.tables && i < PTRS_PER_TABLE && WfEntry(m.tables, P4d, p, i)
    requires Used(ds) + EntryCount(m.tables, P4d, p, i) <= m.pool.Length
    modifies m`shadow, m`backref, m`probes, ds
    ensures m.Valid() && PoolReady(m) && StateOk(m, ds) && m.shadow.Keys == old(m.shadow.Keys)
    ensures Keeps(old(m.backref), m.backref)
    ensures old(ds.level) != -1 ==> ds.level != -1 && ds.curP4dPage == old(ds.curP4dPage)
    ensures ds.level == -1 <==> old(ds.level) == -1 && EntryOf(m.tables, p, i) == 0
    ensures ds.level == -1 ==>
              ds.curPage == old(ds.curPage) && ds.curP4dPage == old(ds.curP4dPage) &&
              m.backref == old(m.backref)
    ensures old(ds.level) == -1 && ds.level != -1 ==> ds.curP4dPage == m.pool[old(ds.curPage)]
    ensures Used(ds) <= old(Used(ds)) + EntryCount(m.tables, P4d, p, i)
    ensures fatal ==> EntryHugePud(m.tables, P4d, p, i) && ds.level != -1
    ensures EntryLinked(m.tables, old(m.backref), P4d, p, i) ==>
              m.backref == old(m.backref) && Used(ds) == old(Used(ds))
    ensures !fatal ==> EntryMirrored(m.tables, m.backref, P4d, p, i)
  {
    ghost var t := m.tables;
    var r := EntryRef(p, i);
    var e := m.Read(r);
    assert e == EntryOf(t, p, i);
    fatal := false;
    if e == 0 {
      return;
    }
    var child := EntryPfn(e);
    ghost var below := if Descends(P4d, e) then Count(t, Pud, child, 0, PTRS_PER_TABLE) else 0;
    assert EntryCount(t, P4d, p, i) == 1 + below;
    assert Descends(P4d, e) ==> Wf(t, Pud, child, 0, PTRS_PER_TABLE);
    TopCallback(m, ds, r);
    assert m.tables == t;
    if !Descends(P4d, e) {
      return;
    }
    assert Used(ds) + below <= m.pool.Length;
    ghost var br1 := m.backref;
    fatal := Walk(m, ds, Pud, child, 0, PTRS_PER_TABLE);
    assert m.tables == t;
    assert LinkOf(m.backref, child) == LinkOf(br1, child);
  }

  /**
   * One slot below the top level of walk_page_range_novma with the dvroot_*
   * callbacks: call the level's callback on entry i of page p if the walker
   * visits it, then walk the child table if the walker descends below it.
   * fatal reports a BUG.
   */
  method VisitSlot(m: Machine, ds: DvrootState, l: Level, p: nat, i: nat) returns (fatal: bool)
    requires m.Valid() && PoolReady(m) && StateOk(m, ds)
    requires p in m.tables && i < PTRS_PER_TABLE && WfEntry(m.tables, l, p, i)
    requires l != P4d && m.BackRef(p) != 0 && ds.level != -1
    requires Used(ds) + EntryCount(m.tables, l, p, i) <= m.pool.Length
    modifies m`shadow, m`backref, m`probes, ds
    decreases Rank(l), 0, 0
    ensures m.Valid() && PoolReady(m) && StateOk(m, ds) && m.shadow.Keys == old(m.shadow.Keys)
    ensures Keeps(old(m.backref), m.backref)
    ensures ds.level != -1 && ds.curP4dPage == old(ds.curP4dPage)
    ensures Used(ds) <= old(Used(ds)) + EntryCount(m.tables, l, p, i)
    ensures fatal ==> EntryHugePud(m.tables, l, p, i)
    ensures EntryLinked(m.tables, old(m.backref), l, p, i) ==>
              m.backref == old(m.backref) && Used(ds) == old(Used(ds))
    ensures !fatal ==> EntryMirrored(m.tables, m.backref, l, p, i)
  {
    ghost var t, br0 := m.tables, m.backref;
    var r := EntryRef(p, i);
    var e := m.Read(r);
    assert e == EntryOf(t, p, i);
    fatal := false;
    if !Visited(l, e) {
      return;
    }
    ghost var count := if Counted(l, e) then 1 else 0;
    assert EntryCount(t, l, p, i) ==
           count + (if Descends(l, e) then Count(t, Next(l), EntryPfn(e), 0, PTRS_PER_TABLE) else 0);
    fatal := Callback(m, ds, l, r);
    assert m.tables == t;
    if fatal || !Descends(l, e) {
      return;
    }
    ghost var br1 := m.backref;
    fatal := Walk(m, ds, Next(l), EntryPfn(e), 0, PTRS_PER_TABLE);
    assert m.tables == t;
    KeepsTrans(br0, br1, m.backref);
    assert LinkOf(m.backref, EntryPfn(e)) == LinkOf(br1, EntryPfn(e));
    assert !fatal ==> EntryMirrored(t, m.backref, l, p, i);
  }

  /**
   * walk_page_range_novma over slots [lo, hi) of the top-level page p with
   * the dvroot_* callbacks, in ascending slot order. It takes no more pool
   * frames than count_pts counts for those slots, never changes a
   * back-reference once set, takes the shadow root exactly when it meets a
   * nonempty entry, and takes nothing when every table it meets is already
   * linked.
   */
  method WalkTop(m: Machine, ds: DvrootState, p: nat, lo: nat, hi: nat) returns (fatal: bool)
    requires m.Valid() && PoolReady(m) && StateOk(m, ds)
    requires lo <= hi <= PTRS_PER_TABLE && Wf(m.tables, P4d, p, lo, hi)
    requires Used(ds) + Count(m.tables, P4d, p, lo, hi) <= m.pool.Length
    modifies m`shadow, m`backref, m`probes, ds
    decreases hi - lo
    ensures m.Valid() && PoolReady(m) && StateOk(m, ds) && m.shadow.Keys == old(m.shadow.Keys)
    ensures Keeps(old(m.backref), m.backref)
    ensures old(ds.level) != -1 ==> ds.level != -1 && ds.curP4dPage == old(ds.curP4dPage)
    ensures ds.level == -1 <==> old(ds.level) == -1 && NoneVisited(m.tables, p, lo, hi)
    ensures ds.level == -1 ==>
              ds.curPage == old(ds.curPage) && ds.curP4dPage == old(ds.curP4dPage) &&
              m.backref == old(m.backref)
    ensures old(ds.level) == -1 && ds.level != -1 ==> ds.curP4dPage == m.pool[old(ds.curPage)]
    ensures Used(ds) <= old(Used(ds)) + Count(m.tables, P4d, p, lo, hi)
    ensures fatal ==> HasHugePud(m.tables, P4d, p, lo, hi) && ds.level != -1
    ensures Linked(m.tables, old(m.backref), P4d, p, lo, hi) ==>
              m.backref == old(m.backref) && Used(ds) == old(Used(ds))
    ensures !fatal ==> Mirrored(m.tables, m.backref, P4d, p, lo, hi)
  {
    if lo == hi {
      return false;
    }
    ghost var t := m.tables;
    fatal := VisitTop(m, ds, p, lo);
    if fatal {
      return;
    }
    ghost var br1 := m.backref;
    fatal := WalkTop(m, ds, p, lo + 1, hi);
    assert m.tables == t;
    if !fatal {
      EntryMirroredKeeps(t, br1, m.backref, P4d, p, lo);
    }
  }

  /**
   * walk_page_range_novma over slots [lo, hi) of a linked table page p below
   * the top level, with the dvroot_* callbacks, in ascending slot order. It
   * takes no more pool frames than count_pts counts for those slots, never
   * changes a back-reference once set, and takes nothing when every table it
   * meets is already linked.
   */
  method Walk(m: Machine, ds: DvrootState, l: Level, p: nat, lo: nat, hi: nat) returns (fatal: bool)
    requires m.Valid() && PoolReady(m) && StateOk(m, ds)
    requires lo <= hi <= PTRS_PER_TABLE && Wf(m.tables, l, p, lo, hi)
    requires l != P4d && m.BackRef(p) != 0 && ds.level != -1
    requires Used(ds) + Count(m.tables, l, p, lo, hi) <= m.pool.Length
    modifies m`shadow, m`backref, m`probes, ds
    decreases Rank(l), 1, hi - lo
    ensures m.Valid() && PoolReady(m) && StateOk(m, ds) && m.shadow.Keys == old(m.shadow.Keys)
    ensures Keeps(old(m.backref), m.backref)
    ensures ds.level != -1 && ds.curP4dPage == old(ds.curP4dPage)
    ensures Used(ds) <= old(Used(ds)) + Count(m.tables, l, p, lo, hi)
    ensures fatal ==> HasHugePud(m.tables, l, p, lo, hi)
    ensures Linked(m.tables, old(m.backref), l, p, lo, hi) ==>
              m.backref == old(m.backref) && Used(ds) == old(Used(ds))
    ensures !fatal ==> Mirrored(m.tables, m.backref, l, p, lo, hi)
  {
    if lo == hi {
      return false;
    }
    ghost var t, br0 := m.tables, m.backref;
    fatal := VisitSlot(m, ds, l, p, lo);
    if fatal {
      return;
    }
    assert LinkOf(m.backref, p) == LinkOf(br0, p);
    ghost var br1 := m.backref;
    fatal := Walk(m, ds, l, p, lo + 1, hi);
    assert m.tables == t;
    if !fatal {
      EntryMirroredKeeps(t, br1, m.backref, l, p, lo);
    }
  }

  /**
   * walk_page_range_novma over slots [lo, hi) of page p at level l with the
   * count_* callbacks (ptcount_state.pt_count is ps), in ascending slot
   * order. The walker does not descend to the pte level, as there is no pte
   * callback.
   */
  method CountWalk(t: map<nat, Page>, ps: array<nat>, l: Level, p: nat, lo: nat, hi: nat)
    requires ps.Length == 3 && l != Pte && lo <= hi <= PTRS_PER_TABLE && Wf(t, l, p, lo, hi)
    modifies ps
    decreases Rank(l), hi - lo
    ensures ps[0] + ps[1] + ps[2] == old(ps[0] + ps[1] + ps[2]) + Count(t, l, p, lo, hi)
  {
    if lo == hi {
      return;
    }
    var e := t[p][lo];
    assert e == EntryOf(t, p, lo);
    if e != 0 {
      match l {
        case P4d => ps[0] := ps[0] + 1;
        case Pud => if !Huge(e) { ps[1] := ps[1] + 1; }
        case Pmd => ps[2] := ps[2] + 1;
      }
      if Descends(l, e) {
        if l == Pmd {
          CountPteZero(t, EntryPfn(e), 0, PTRS_PER_TABLE);
        } else {
          CountWalk(t, ps, Next(l), EntryPfn(e), 0, PTRS_PER_TABLE);
        }
      }
    }
    CountWalk(t, ps, l, p, lo + 1, hi);
  }

  /**
   * count_pts: one frame for the root plus one for every table and broken-up
   * huge pmd construct_dv_root will fill, over both walked ranges of top.
   */
  method CountPts(t: map<nat, Page>, top: nat) returns (n: nat)
    requires TopWf(t, top)
    ensures n == Needed(t, top)
  {
    var ps := new nat[3](_ => 0);
    CountWalk(t, ps, P4d, top, 0, LOWER_HALF_SLOTS);
    CountWalk(t, ps, P4d, top, GUARD_HOLE_END_SLOT, PTRS_PER_TABLE);
    n := ps[0] + ps[1] + ps[2] + 1;
  }

  /**
   * construct_dv_root on the user copy top of init_mm's top level: walk both
   * ranges with a fresh dvroot_state and return its root, 0 when no
   * top-level entry was visited. A pool as large as count_pts says is
   * enough.
   */
  method ConstructDvRoot(m: Machine, top: nat) returns (root: nat, fatal: bool)
    requires m.Valid() && PoolReady(m)
    requires TopWf(m.tables, top) && Needed(m.tables, top) <= m.pool.Length
    modifies m`shadow, m`backref, m`probes
    ensures m.Valid() && PoolReady(m) && m.shadow.Keys == old(m.shadow.Keys)
    ensures Keeps(old(m.backref), m.backref)
    ensures fatal ==> TopHuge(m.tables, top)
    ensures root == 0 || root == m.pool[0]
    ensures !fatal ==> (root == 0 <==> TopNone(m.tables, top))
    ensures TopLinked(m.tables, old(m.backref), top) ==> m.backref == old(m.backref)
    ensures !fatal ==> TopMirrored(m.tables, m.backref, top)
  {
    var ds := new DvrootState();
    ghost var t, br0 := m.tables, m.backref;
    ghost var linked0 := Linked(t, br0, P4d, top, 0, LOWER_HALF_SLOTS);
    ghost var linked1 := Linked(t, br0, P4d, top, GUARD_HOLE_END_SLOT, PTRS_PER_TABLE);
    fatal := WalkTop(m, ds, top, 0, LOWER_HALF_SLOTS);
    ghost var br1, none1 := m.backref, ds.level == -1;
    assert m.tables == t;
    assert linked0 ==> br1 == br0;
    if !fatal {
      fatal := WalkTop(m, ds, top, GUARD_HOLE_END_SLOT, PTRS_PER_TABLE);
      assert m.tables == t;
      if !fatal {
        MirroredKeeps(t, br1, m.backref, P4d, top, 0, LOWER_HALF_SLOTS);
      }
      assert ds.level == -1 <==> none1 && NoneVisited(t, top, GUARD_HOLE_END_SLOT, PTRS_PER_TABLE);
      assert linked0 && linked1 ==> m.backref == br0;
    }
    root := ds.curP4dPage;
    assert ds.level != -1 ==> root == m.pool[0] && root != 0;
  }

  /**
   * frames are distinct nonzero frame numbers, none of them a shadow page in
   * before or a guest table page in t, and each a shadow page in after.
   */
  ghost predicate FreshFrames(frames: seq<nat>, before: map<nat, Page>, t: map<nat, Page>, after: map<nat, Page>)
  {
    (forall j :: 0 <= j < |frames| ==>
       frames[j] != 0 && frames[j] !in before && frames[j] !in t && frames[j] in after) &&
    (forall j, k :: 0 <= j < k < |frames| ==> frames[j] != frames[k])
  }

  /** free_page on the first count frames of the pool, in order. */
  method FreePool(m: Machine, count: nat)
    requires m.Valid() && count <= m.pool.Length
    modifies m`freed
    ensures m.Valid() && m.freed == old(m.freed) + m.pool[..count]
  {
    var j := 0;
    while j < count
      invariant j <= count && m.Valid()
      invariant m.freed == old(m.freed) + m.pool[..j]
    {
      assert m.pool[..j + 1] == m.pool[..j] + [m.pool[j]];
      m.freed := m.freed + [m.pool[j]];
      j := j + 1;
    }
  }

  /**
   * The allocation loop of devirt_init_dv_root: fill the pool with zeroed
   * shadow pages in index order. When an allocation fails, the frames
   * obtained so far are freed and ok is false; obtained is the number of
   * frames obtained.
   */
  method AllocFrames(m: Machine) returns (ok: bool, ghost obtained: nat)
    requires m.Valid()
    modifies m.pool, m`shadow, m`freed
    ensures m.Valid() && obtained <= m.pool.Length
    ensures FreshFrames(m.pool[..obtained], old(m.shadow), m.tables, m.shadow)
    ensures ok ==> obtained == m.pool.Length && m.freed == old(m.freed) && PoolReady(m)
    ensures !ok ==> m.freed == old(m.freed) + m.pool[..obtained]
  {
    var i := 0;
    while i < m.pool.Length
      invariant i <= m.pool.Length && m.Valid() && m.freed == old(m.freed)
      invariant old(m.shadow).Keys <= m.shadow.Keys
      invariant forall j :: 0 <= j < i ==>
                  m.pool[j] != 0 && m.pool[j] !in old(m.shadow) && m.pool[j] !in m.tables && m.pool[j] in m.shadow
      invariant forall j, k :: 0 <= j < k < i ==> m.pool[j] != m.pool[k]
    {
      var f := m.AllocZeroPage();
      if f == 0 {
        FreePool(m, i);
        return false, i;
      }
      m.pool[i] := f;
      i := i + 1;
    }
    return true, i;
  }

  /**
   * The part of devirt_init_dv_root after the pool array exists: obtain its
   * frames, then construct the shadow root from them and publish it. The
   * result is 0 or -1; obtained is the number of frames obtained.
   */
  method PopulateDvRoot(m: Machine, top: nat) returns (r: int, fatal: bool, ghost obtained: nat)
    requires m.Valid() && TopWf(m.tables, top) && m.pool.Length == Needed(m.tables, top)
    modifies m.pool, m`shadow, m`backref, m`probes, m`freed, m`dvRoot
    ensures m.Valid() && (r == 0 || r == -1) && (fatal ==> r == 0) && obtained <= m.pool.Length
    ensures FreshFrames(m.pool[..obtained], old(m.shadow), m.tables, m.shadow)
    ensures r == -1 ==>
              m.freed == old(m.freed) + m.pool[..obtained] &&
              m.dvRoot == old(m.dvRoot) && m.backref == old(m.backref)
    ensures r == 0 ==> obtained == m.pool.Length && m.freed == old(m.freed)
    ensures r == 0 ==> Keeps(old(m.backref), m.backref) && (m.dvRoot == 0 || m.dvRoot == m.pool[0])
    ensures fatal ==> TopHuge(m.tables, top)
    ensures r == 0 && !fatal ==> (m.dvRoot == 0 <==> TopNone(m.tables, top))
    ensures r == 0 && !fatal ==> TopMirrored(m.tables, m.backref, top)
  {
    ghost var t := m.tables;
    var ok;
    ok, obtained := AllocFrames(m);
    assert m.tables == t;
    if !ok {
      r, fatal := -1, false;
      return;
    }
    ghost var frames, s1 := m.pool[..], m.shadow;
    assert FreshFrames(frames, old(m.shadow), t, s1);
    var root;
    root, fatal := ConstructDvRoot(m, top);
    assert m.tables == t && m.pool[..] == frames && m.shadow.Keys == s1.Keys;
    assert FreshFrames(frames, old(m.shadow), t, m.shadow);
    m.dvRoot := root;
    r := 0;
  }

  /**
   * devirt_init_dv_root: size the pool with count_pts, allocate the pool
   * array (which may fail) and its frames (each of which may fail, freeing
   * the ones already obtained), then construct the shadow root. The result
   * is 0 or -1; obtained is the number of frames obtained.
   */
  method InitDvRoot(m: Machine) returns (r: int, fatal: bool, ghost obtained: nat)
    requires m.Valid()
    requires TopWf(m.tables, m.swapperPgd + 1)
    modifies m`pool, m`numPages, m`shadow, m`backref, m`probes, m`freed, m`dvRoot
    ensures m.Valid() && (r == 0 || r == -1) && (fatal ==> r == 0)
    ensures m.numPages == Needed(m.tables, m.swapperPgd + 1)
    ensures fresh(m.pool) && obtained <= m.pool.Length
    ensures FreshFrames(m.pool[..obtained], old(m.shadow), m.tables, m.shadow)
    ensures r == -1 ==>
              m.freed == old(m.freed) + m.pool[..obtained] &&
              m.dvRoot == old(m.dvRoot) && m.backref == old(m.backref)
    ensures r == 0 ==> obtained == m.pool.Length == m.numPages && m.freed == old(m.freed)
    ensures r == 0 ==> Keeps(old(m.backref), m.backref)
    ensures r == 0 ==> m.dvRoot == 0 || m.dvRoot == m.pool[0]
    ensures fatal ==> TopHuge(m.tables, m.swapperPgd + 1)
    ensures r == 0 && !fatal ==> (m.dvRoot == 0 <==> TopNone(m.tables, m.swapperPgd + 1))
    ensures r == 0 && !fatal ==> TopMirrored(m.tables, m.backref, m.swapperPgd + 1)
  {
    var top := m.swapperPgd + 1;
    ghost var t := m.tables;
    var n := CountPts(m.tables, top);
    m.numPages := n;
    var arrayAllocated: bool :| true;
    if !arrayAllocated {
      m.pool := new nat[0];
      r, fatal, obtained := -1, false, 0;
      return;
    }
    m.pool := new nat[n];
    r, fatal, obtained := PopulateDvRoot(m, top);
    assert m.tables == t;
  }

  /**
   * devirt_remove_dv_root: free every pool frame and forget the shadow root.
   * The pool holds numPages frames whenever there is a root.
   */
  method RemoveDvRoot(m: Machine)
    requires m.Valid() && m.numPages <= m.pool.Length
    modifies m`freed, m`dvRoot
    ensures m.Valid() && m.dvRoot == 0
    ensures m.freed == old(m.freed) + m.pool[..m.numPages]
  {
    FreePool(m, m.numPages);
    m.dvRoot := 0;
  }
}
