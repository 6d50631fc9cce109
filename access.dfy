/**
 * The access-bit and permission updates of guest_kernel/drivers/devirt/devirt.c
 * that read the shadow entry before deciding: devirt_{ptep,pmdp,pudp}_set_access_flags
 * and devirt_{ptep,pmdp,pudp}_test_and_clear_young. The three levels share
 * one method each, with the level as a parameter.
 */
module Access {
  import opened Entries
  import opened Mirror

  /**
   * The answer of devirt_*_set_access_flags: the new entry differs from
   * the primary entry, or the primary and shadow entries have different
   * flags (which happens whenever their frames are unequal but the flags
   * are not, for instance after a young bit was set by the hardware in only
   * one of them).
   */
  function AccessChanged(e: Entry, entry: Entry, d: Option<Entry>): (changed: bool)
    ensures !changed <==> e == entry && (d.None? || Flags(e) == Flags(d.value))
  {
    e != entry || (d.Some? && Flags(e) != Flags(d.value))
  }

  /**
   * What the answer of devirt_*_set_access_flags means: for a present entry
   * whose target has a host frame a 52-bit address can hold, nothing changed
   * exactly when installing entry would leave the primary pages as they are
   * and the shadow entry, if any, already has the flags a fresh mirror of
   * entry would give it.
   */
  lemma AccessUnchangedNoWrite(ftt: seq<bv64>, pages: map<nat, Page>, r: EntryRef, entry: Entry,
                               d: Option<Entry>, target: nat)
    requires r.pfn in pages && r.slot < PTRS_PER_TABLE
    requires Present(entry) && ValidHfn(FttAt(ftt, target))
    ensures !AccessChanged(pages[r.pfn][r.slot], entry, d) <==>
              Store(pages, r, entry) == pages &&
              (d.None? || Flags(d.value) == Flags(PgtVal(ftt, entry, target)))
  {
    PgtValFlags(ftt, entry, target);
    StoreSame(pages, r, entry);
  }

  /** The shadow entry of r, if r's page has a shadow page. */
  function ShadowOf(m: Machine, r: EntryRef): (d: Option<Entry>)
    reads m`backref, m`shadow
    requires m.LinksValid() && r.slot < PTRS_PER_TABLE
    ensures d.Some? <==> m.Dptr(r).Some?
    ensures d.Some? ==> d.value == m.ReadShadow(m.Dptr(r).value)
  {
    match m.Dptr(r)
    case None => None
    case Some(dr) => Some(m.ReadShadow(dr))
  }

  /**
   * devirt_ptep_set_access_flags, devirt_pmdp_set_access_flags and
   * devirt_pudp_set_access_flags: report whether the entry at r changed or
   * its shadow disagrees in flags, and when that holds and the fault was a
   * write, install entry through devirt_set_{pte,pmd,pud}.
   */
  method SetAccessFlags(m: Machine, level: Level, r: EntryRef, entry: Entry, dirty: bool)
    returns (changed: bool)
    requires m.Valid() && m.IsRef(r) && level != P4d
    modifies m`tables, m`shadow, m`probes
    ensures m.Valid()
    ensures changed == AccessChanged(old(m.Read(r)), entry, old(ShadowOf(m, r)))
    ensures !(changed && dirty) ==>
              m.tables == old(m.tables) && m.shadow == old(m.shadow) && m.probes == old(m.probes)
    ensures changed && dirty ==> m.tables == Store(old(m.tables), r, entry)
    ensures changed && dirty && !m.MirrorsEntry(level, r) ==>
              m.shadow == old(m.shadow) && m.probes == old(m.probes)
    ensures changed && dirty && m.MirrorsEntry(level, r) ==>
              m.shadow == Store(old(m.shadow), m.Dptr(r).value,
                                PgtVal(m.ftt, entry, m.MirrorTarget(level, entry))) &&
              Agree(entry, m.ReadShadow(m.Dptr(r).value)) &&
              m.probes == old(m.probes) + ProbeOf(m.ftt, entry, m.MirrorTarget(level, entry))
  {
    var e := m.Read(r);
    changed := e != entry;
    var d := m.Dptr(r);
    if d.Some? {
      changed := changed || Flags(e) != Flags(m.ReadShadow(d.value));
    }
    if changed && dirty {
      match level
      case Pte => m.SetPte(r, entry);
      case Pmd => m.SetPmd(r, entry);
      case Pud => m.SetPud(r, entry);
    }
  }

  /**
   * The answer of devirt_*_test_and_clear_young: the accessed bit was set
   * in the primary entry or in its shadow entry.
   */
  function WasYoung(e: Entry, d: Option<Entry>): (young: bool)
    ensures !young <==> !Young(e) && (d.None? || !Young(d.value))
  {
    Young(e) || (d.Some? && Young(d.value))
  }

  /**
   * The answer of devirt_*_test_and_clear_young is true exactly when
   * clearing the accessed bit has something to clear in the primary entry
   * or in its shadow entry.
   */
  lemma WasYoungClears(e: Entry, d: Option<Entry>)
    ensures WasYoung(e, d) <==> ClearAccessed(e) != e || (d.Some? && ClearAccessed(d.value) != d.value)
  {
    ClearAccessedNotYoung(e);
    if d.Some? {
      ClearAccessedNotYoung(d.value);
    }
  }

  /** The two test_and_clear_bit answers combine into WasYoung. */
  lemma EitherYoung(e: Entry, d: Option<Entry>, p: bool, q: bool)
    requires p == Young(e) && q == (d.Some? && Young(d.value))
    ensures (p || q) == WasYoung(e, d)
  {
  }

  /** Clearing the accessed bit of entry r in place leaves an old entry that was not young alone. */
  lemma StoreClearedNotYoung(pages: map<nat, Page>, r: EntryRef)
    requires r.pfn in pages && r.slot < PTRS_PER_TABLE && !Young(pages[r.pfn][r.slot])
    ensures Store(pages, r, ClearAccessed(pages[r.pfn][r.slot])) == pages
  {
    ClearAccessedNotYoung(pages[r.pfn][r.slot]);
    assert pages[r.pfn][r.slot := pages[r.pfn][r.slot]] == pages[r.pfn];
  }

  /** `if (young) test_and_clear_bit(_PAGE_BIT_ACCESSED, ...)` on a primary entry. */
  method ClearYoungPrimary(m: Machine, r: EntryRef) returns (was: bool)
    requires m.Valid() && m.IsRef(r)
    modifies m`tables
    ensures m.Valid()
    ensures was == Young(old(m.Read(r)))
    ensures m.tables == Store(old(m.tables), r, ClearAccessed(old(m.Read(r))))
  {
    was := Young(m.Read(r));
    if was {
      m.tables := Store(m.tables, r, ClearAccessed(m.Read(r)));
    } else {
      StoreClearedNotYoung(m.tables, r);
    }
  }

  /** The same on the shadow entry of r, when there is one. */
  method ClearYoungShadow(m: Machine, r: EntryRef) returns (was: bool)
    requires m.Valid() && r.slot < PTRS_PER_TABLE
    modifies m`shadow
    ensures m.Valid()
    ensures was == (old(ShadowOf(m, r)).Some? && Young(old(ShadowOf(m, r)).value))
    ensures m.Dptr(r).None? ==> m.shadow == old(m.shadow)
    ensures m.Dptr(r).Some? ==>
              m.shadow == Store(old(m.shadow), m.Dptr(r).value,
                                ClearAccessed(old(m.ReadShadow(m.Dptr(r).value))))
  {
    var d := m.Dptr(r);
    if d.None? {
      return false;
    }
    was := Young(m.ReadShadow(d.value));
    if was {
      m.shadow := Store(m.shadow, d.value, ClearAccessed(m.ReadShadow(d.value)));
    } else {
      StoreClearedNotYoung(m.shadow, d.value);
    }
  }

  /**
   * devirt_ptep_test_and_clear_young, devirt_pmdp_test_and_clear_young and
   * devirt_pudp_test_and_clear_young: clear the accessed bit in the primary
   * entry and in its shadow entry, and report whether either had it.
   * Both entries become ClearAccessed of what they were: the accessed bit
   * is clear and every other bit is kept (Entries.ClearAccessed). For the
   * new state this contract gives, ClearedStillAgree shows that the two
   * copies still agree when they agreed before.
   */
  method TestAndClearYoung(m: Machine, r: EntryRef) returns (young: bool)
    requires m.Valid() && m.IsRef(r)
    modifies m`tables, m`shadow
    ensures m.Valid()
    ensures young == WasYoung(old(m.Read(r)), old(ShadowOf(m, r)))
    ensures m.tables == Store(old(m.tables), r, ClearAccessed(old(m.Read(r))))
    ensures m.Dptr(r).None? ==> m.shadow == old(m.shadow)
    ensures m.Dptr(r).Some? ==>
              m.shadow == Store(old(m.shadow), m.Dptr(r).value,
                                ClearAccessed(old(m.ReadShadow(m.Dptr(r).value))))
  {
    ghost var e, s0 := m.Read(r), ShadowOf(m, r);
    var pyoung := ClearYoungPrimary(m, r);
    var dyoung := ClearYoungShadow(m, r);
    young := pyoung || dyoung;
    EitherYoung(e, s0, pyoung, dyoung);
  }

  /**
   * The state TestAndClearYoung leaves: clearing the accessed bit of an
   * entry in t0 and of its shadow entry in s0 keeps the two in agreement.
   */
  lemma ClearedStillAgree(t0: map<nat, Page>, s0: map<nat, Page>, r: EntryRef, d: EntryRef,
                          t1: map<nat, Page>, s1: map<nat, Page>)
    requires r.pfn in t0 && r.slot < PTRS_PER_TABLE && d.pfn in s0 && d.slot < PTRS_PER_TABLE
    requires t1 == Store(t0, r, ClearAccessed(t0[r.pfn][r.slot]))
    requires s1 == Store(s0, d, ClearAccessed(s0[d.pfn][d.slot]))
    ensures Agree(t0[r.pfn][r.slot], s0[d.pfn][d.slot]) ==> Agree(t1[r.pfn][r.slot], s1[d.pfn][d.slot])
  {
    if Agree(t0[r.pfn][r.slot], s0[d.pfn][d.slot]) {
      ClearAccessedAgrees(t0[r.pfn][r.slot], s0[d.pfn][d.slot]);
    }
  }
}
