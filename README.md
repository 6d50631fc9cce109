# devirt shadow page-table mirror, modelled in Dafny

The devirt guest driver keeps a second copy of the guest's x86-64 4-level page
tables, called the shadow tree. Every frame number in the shadow tree is
rewritten through the guest-to-host frame table (`dv_dev->gfn_to_hfn`, the
FTT). Entries use the format of section 4.5 of the Intel 64 and IA-32
Architectures Software Developer's Manual, Vol. 3A: present is bit 0, R/W is
bit 1, accessed is bit 5 and PS is bit 7. A primary table page finds its
shadow page through a back-reference stored in its `struct page`
(`_pt_pad_2`).

The model has six modules:

- `Entries` (entries.dfy): the entry bits and the pure macros `PGT_OFF`,
  `GFN_VAL`, `PGT_VAL`, `PGT_VAL_NO_HUGE` and `__join_*_flags`.
- `Mirror` (mirror.dfy): the class `Machine`, which holds the primary pages,
  the shadow pages, the back-references, the device state and the activation
  set. It also holds the in-place entry updates of `devirt.h`, each of which
  changes the primary entry and then the shadow entry at the same slot.
- `Access` (access.dfy): the `*_set_access_flags` and
  `*_test_and_clear_young` functions of `devirt.c`.
- `Builder` (builder.dfy): `count_pts`, the construction walk with its
  `dvroot_*_entry` callbacks and the class `DvrootState`, the frame pool of
  `devirt_init_dv_root` with its rollback, and `devirt_remove_dv_root`.
- `Activation` (activation.dfy): `kbasename`, `sysfs_streq`,
  `devirt_pgd_alloc` and `initialize_devirt_proc`.
- `Attribute` (attribute.dfy): `task_show` and `task_store`.

Modelling choices:

- Kernel virtual addresses are identified with physical addresses, so
  `pfn_to_kaddr(p)` is `p << 12` and `virt_to_pfn(v)` is `v >> 12`.
- Memory is two maps from frame number to a 512-entry page: one for primary
  table pages, one for shadow pages.
- A pointer to an entry is an `EntryRef(pfn, slot)`. The address arithmetic
  behind it (`PGT_OFF`, `__get_d*p`) is modelled on 64-bit addresses, with
  round-trip lemmas.
- The page allocator is a nondeterministic choice: 0 for failure, or a frame
  not yet in use.
- The frames `check_devirt_present` hands to its memory touch
  (`_check_devirt_present`) are a ghost log, `probes`.
- `free_page` is a ghost log, `freed`.
- `BUG()` is a `fatal` result that ends the operation.
- The kernel page walker is modelled as recursion over slots in ascending
  order. It calls a level's callback on every nonzero entry, and on every
  entry at the pte level. It descends below a present entry unless that entry
  is a huge pud or pmd.
- The two walked ranges of the top-level page are slots [0, 256) and
  [272, 512). Slot 272 is where `GUARD_HOLE_END_ADDR` falls.

Construction on a tree it has already mirrored still takes pool frames. The
first visited top-level entry takes the root frame on every run
(guest_kernel/drivers/devirt/devirt.c:227-230), and every huge pmd takes a
fresh frame on every run (guest_kernel/drivers/devirt/devirt.c:301-303).
Below the top level, the model states the zero-frame case only for a range
whose tables all have shadow pages and that holds no huge pmd
(`Builder.Linked`).

## Model

| member | source | states |
|---|---|---|
| Entries.Frame | guest_kernel/include/linux/devirt.h:28 | the frame bits of an entry, shifted down, always fit in 40 bits |
| Entries.ProbeUntranslated | guest_kernel/include/linux/devirt.h:59-68 | for a target the FTT translates, check_devirt_present (ProbeOf) hands the target to its memory touch exactly when the translated copy PGT_VAL is present with host frame 0, and hands over nothing otherwise |
| Entries.TranslatedLowBits | guest_kernel/include/linux/devirt.h:28-35 | GFN_VAL-style translation keeps the twelve low flag bits of the source |
| Entries.TranslatedFrame | guest_kernel/include/linux/devirt.h:28-35 | the translated entry's frame is the host frame truncated to 40 bits |
| Entries.TranslatedFlags | guest_kernel/include/linux/devirt.h:28-35 | with a host frame that fits 52-bit addresses, the translated entry keeps every flag and holds exactly the host frame |
| Entries.PgtVal | guest_kernel/include/linux/devirt.h:34-35 | PGT_VAL is 0 for a source that is not present, and the result is present exactly when the source is |
| Entries.PgtValLowFlags | guest_kernel/include/linux/devirt.h:34-35 | the copy of a present entry keeps its low twelve bits |
| Entries.PgtValFrame | guest_kernel/include/linux/devirt.h:28-35 | the copy of a present entry points at the FTT's host frame for the target, truncated to 40 bits |
| Entries.PgtValFlags | guest_kernel/include/linux/devirt.h:28-35 | with a valid host frame, the copy has exactly the source's flags and the host frame |
| Entries.PgtValNoHuge | guest_kernel/include/linux/devirt.h:30-32 | PGT_VAL_NO_HUGE is PGT_VAL with PS cleared: never huge, present exactly when the source is |
| Entries.NoHugeBits | guest_kernel/include/linux/devirt.h:30-35 | dropping PS from the source before translating equals dropping it from the translated entry |
| Entries.NoHugeFlagBits | guest_kernel/include/linux/devirt.h:30-32 | the PS-less copy is never huge and keeps the present bit |
| Entries.ClearAccessed | guest_kernel/drivers/devirt/devirt.c:92-112 | test_and_clear_bit(_PAGE_BIT_ACCESSED) leaves the entry not young and every other bit unchanged |
| Entries.ClearAccessedNotYoung | guest_kernel/drivers/devirt/devirt.c:98-100 | clearing the accessed bit leaves an entry unchanged exactly when it is not young |
| Entries.ClearRw | guest_kernel/include/linux/devirt.h:356-366 | clear_bit(_PAGE_BIT_RW) leaves the entry not writable and every other bit unchanged |
| Entries.JoinFlags | guest_kernel/include/linux/devirt.h:235-250 | the pud and pte joins keep the primary's frame and OR the shadow's flags into the primary's; the pmd join returns the primary unchanged |
| Entries.PgtOff | guest_kernel/include/linux/devirt.h:25 | PGT_OFF is a slot below 512, and it is bits 3..11 of the address |
| Entries.AddrDecomposes | guest_kernel/include/linux/devirt.h:25 | an 8-byte-aligned entry address is its page followed by its slot |
| Entries.AddrRoundTrip | guest_kernel/include/linux/devirt.h:25 | page and slot are recovered from an address built out of them |
| Entries.ShadowSlotAddr | guest_kernel/include/linux/devirt.h:252-283 | the shadow entry address lies in the shadow page, at the same slot as the primary entry, 8-byte aligned |
| Entries.PgtValAgrees | guest_kernel/include/linux/devirt.h:34-35 | a PGT_VAL copy agrees with its source: both absent, or both present with equal low flags |
| Entries.ClearRwAgrees | guest_kernel/include/linux/devirt.h:356-366 | clearing R/W on both copies keeps them in agreement |
| Entries.ClearAccessedAgrees | guest_kernel/drivers/devirt/devirt.c:92-156 | clearing the accessed bit on both copies keeps them in agreement |
| Mirror.ZeroPage | guest_kernel/include/linux/devirt.h:14 | a GFP_PGTABLE_DEVIRT page is all zero (__GFP_ZERO) |
| Mirror.Store | guest_kernel/include/linux/devirt.h:70-114 | writing one entry changes that entry to the new value and leaves every other entry and page unchanged |
| Mirror.Machine.constructor | guest_kernel/drivers/devirt/devirt.c:506-586 | the device after probe has no shadow root, no pool, no back-references, no activated address space and an empty name |
| Entries.EntryAddrParts | guest_kernel/include/linux/devirt.h:23-25 | the kernel address of slot s of page p is 8-byte aligned, PGT_OFF gives back s, and the page part gives back p |
| Entries.ShadowEntryAddr | guest_kernel/include/linux/devirt.h:224-283 | the __get_d*p arithmetic (shadow page address plus PGT_OFF times 8) applied to slot s of page p is slot s of the shadow page |
| Mirror.Machine.DptrAddress | guest_kernel/include/linux/devirt.h:224-283 | the entry Dptr returns (null exactly when the page's back-reference is 0) sits at the address __get_d*p computes from the primary entry's address |
| Mirror.Machine.CopyVal | guest_kernel/include/linux/devirt.h:70-108 | devirt_copy_*_val probes the target, then writes PGT_VAL of the source into the shadow entry, which then agrees with the source |
| Mirror.Machine.CopyEntry | guest_kernel/include/linux/devirt.h:84-114 | devirt_copy_pud/pmd/pte are CopyVal with the entry's own frame as target |
| Mirror.Machine.GetFreePage | guest_kernel/include/linux/devirt.h:14 | an allocation fails (0) or gives a frame that is neither a shadow page nor a table page |
| Mirror.Machine.AllocZeroPage | guest_kernel/include/linux/devirt.h:14 | a successful allocation adds exactly one zeroed shadow page at a fresh frame |
| Mirror.Machine.AllocPtPage | guest_kernel/include/linux/devirt.h:116-130 | _devirt_alloc_pt is idempotent: an existing back-reference is kept; otherwise a fresh zeroed shadow page is linked, or the failure is fatal |
| Mirror.Machine.AllocPt | guest_kernel/include/linux/devirt.h:183-207 | devirt_alloc_pt does nothing for init_mm or an inactive address space, touches only pfn's back-reference, and leaves it set; a newly linked shadow page is a fresh zeroed page; the fatal case happens only on a new link and changes nothing |
| Mirror.Machine.ReleasePt | guest_kernel/include/linux/devirt.h:173-180 | devirt_release_pt frees a nonzero back-reference's page and resets it to 0, is a no-op otherwise, and touches no other page |
| Mirror.Machine.SetPte | guest_kernel/include/linux/devirt.h:285-296 | the primary entry gets the new pte; a shadow entry, if any, gets PGT_VAL(pte, pfn(pte)) and agrees with it; nothing else changes |
| Mirror.Machine.SetPmd | guest_kernel/include/linux/devirt.h:298-320 | the primary gets pmd; only on a valid PageTable page with a shadow page, the shadow gets PGT_VAL with the huge frame or the child's back-reference |
| Mirror.Machine.SetPud | guest_kernel/include/linux/devirt.h:322-336 | the primary gets pud; a shadow entry gets PGT_VAL with the raw entry's frame for a huge pud or the child's back-reference |
| Mirror.Machine.NativeSetP4d | guest_kernel/include/linux/devirt.h:344 | native_set_p4d with page-table isolation installs the entry and, for a user slot (below 256), the same entry in the user copy one page after the pgd; nothing else changes |
| Mirror.Machine.SetP4d | guest_kernel/include/linux/devirt.h:338-354 | native_set_p4d writes the primary and, for a user slot (below 256), the PTI user copy at pgd+1; for an activated address space other than init_mm, slot s of page pgd+3 gets PGT_VAL of slot s of page pgd+1 with the child's back-reference, which for a user slot is the translated p4d itself |
| Mirror.Machine.SetWrprotect | guest_kernel/include/linux/devirt.h:356-366 | R/W is cleared in the primary and in the shadow entry if present, nothing else changes, and agreement is kept |
| Mirror.Machine.GetAndClear | guest_kernel/include/linux/devirt.h:375-433 | both entries are zeroed and the result is the old primary joined with the old shadow (the pmd join ignores the shadow) |
| Mirror.Machine.WriteShadow | guest_kernel/include/linux/devirt.h:472-486 | WRITE_ONCE into a shadow entry changes only that entry |
| Mirror.Machine.EstablishSmp | guest_kernel/include/linux/devirt.h:447-470 | the primary gets pmd; without a shadow the displaced entry is returned; with one the shadow gets the translated new pmd and pmd itself is returned |
| Mirror.Machine.EstablishUp | guest_kernel/include/linux/devirt.h:471-486 | the primary gets pmd and the displaced entry is returned; a shadow entry gets the untranslated address derived from the displaced entry |
| Access.AccessUnchangedNoWrite | guest_kernel/drivers/devirt/devirt.c:19-90 | the set_access_flags test (AccessChanged) is false exactly when storing the entry leaves the primary pages as they are and the shadow, if any, already has the flags PGT_VAL would give it |
| Access.SetAccessFlags | guest_kernel/drivers/devirt/devirt.c:19-90 | returns AccessChanged on the primary and the shadow entry (ShadowOf, the entry __get_d*p points to); writes through devirt_set_* only when changed and dirty, and otherwise changes neither copy |
| Access.WasYoungClears | guest_kernel/drivers/devirt/devirt.c:92-156 | the test_and_clear_young answer (WasYoung, false exactly when neither the primary nor the shadow entry is young) is true exactly when clearing the accessed bit would change the primary entry or the shadow entry |
| Access.EitherYoung | guest_kernel/drivers/devirt/devirt.c:92-156 | the OR of the two test_and_clear_bit answers is WasYoung |
| Access.StoreClearedNotYoung | guest_kernel/drivers/devirt/devirt.c:98-100 | skipping the clear on an entry that is not young is the same as clearing it |
| Access.ClearYoungPrimary | guest_kernel/drivers/devirt/devirt.c:98-100 | answers whether the primary was young, and leaves it with the accessed bit cleared |
| Access.ClearYoungShadow | guest_kernel/drivers/devirt/devirt.c:102-109 | answers whether the shadow entry was young (false without one), and clears its accessed bit |
| Access.TestAndClearYoung | guest_kernel/drivers/devirt/devirt.c:92-156 | both copies lose only the accessed bit, the result is the OR of their old accessed bits, and without a shadow only the primary changes |
| Access.ClearedStillAgree | guest_kernel/drivers/devirt/devirt.c:92-156 | in the state TestAndClearYoung leaves, a primary entry and its shadow entry that agreed before still agree |
| Builder.CountPteZero | guest_kernel/drivers/devirt/devirt.c:387-391 | nothing is counted at the pte level, which has no count callback |
| Builder.CountWalk | guest_kernel/drivers/devirt/devirt.c:356-391 | the count_* walk adds to pt_count[0..2] exactly Count: non-huge p4d, non-huge pud and all pmd entries, huge ones included |
| Builder.CountPts | guest_kernel/drivers/devirt/devirt.c:408-417 | count_pts is 1 plus Count over both walked ranges |
| Builder.DvrootState.constructor | guest_kernel/drivers/devirt/devirt.c:396-398 | a walk starts at level -1 with nothing counted or taken |
| Builder.LinkChild | guest_kernel/drivers/devirt/devirt.c:236-241 | an existing back-reference is reused; otherwise the next pool frame is linked and the cursor advances by one |
| Builder.CopyChild | guest_kernel/drivers/devirt/devirt.c:233-244 | counts the entry, links the child (LinkChild) and writes PGT_VAL of the entry, pointing at the child's shadow page |
| Builder.P4dEntry | guest_kernel/drivers/devirt/devirt.c:220-247 | the first top-level entry takes the root from the pool; every one is copied into the root at its slot, linking its child |
| Builder.PudEntry | guest_kernel/drivers/devirt/devirt.c:249-283 | a missing shadow page or a huge pud is fatal (the huge pud is copied first, counted and probed); otherwise the entry is copied with its child's back-reference, the child linked, and the probe logged |
| Builder.LeafPageShape | guest_kernel/drivers/devirt/devirt.c:306-311 | no entry of a broken-up huge pmd is huge, and each is present exactly when the pmd is |
| Builder.FrameClearPse | guest_kernel/include/linux/devirt.h:30-32 | clearing PS leaves the frame bits alone |
| Builder.LeafPageFrame | guest_kernel/drivers/devirt/devirt.c:308-311 | leaf i of a present huge pmd points at the FTT's host frame for the pmd's frame plus i |
| Builder.ZeroPageNoProbes | guest_kernel/drivers/devirt/devirt.c:310 | breaking a huge pmd up into a zeroed pool page probes nothing |
| Builder.LeafPrefixAt | guest_kernel/drivers/devirt/devirt.c:309-312 | after n loop steps, slots below n hold leaf entries and the rest the old entries |
| Builder.LeafPrefixFull | guest_kernel/drivers/devirt/devirt.c:309-312 | after 512 steps the page is the broken-up page, whatever it held before |
| Builder.FillLeaves | guest_kernel/drivers/devirt/devirt.c:308-312 | the break-up loop writes exactly the 512 entries PGT_VAL_NO_HUGE(pmd, frame + i) |
| Builder.BreakUp | guest_kernel/drivers/devirt/devirt.c:308-312 | the pool page becomes the broken-up page, with the loop's probes recorded; breaking up into a page that is still zero logs no probe (ZeroPageNoProbes) |
| Builder.PmdHuge | guest_kernel/drivers/devirt/devirt.c:298-314 | takes the next pool frame, points the shadow pmd at it with PS cleared, and fills it with the 512 leaves |
| Builder.PmdEntry | guest_kernel/drivers/devirt/devirt.c:285-329 | a missing shadow page is fatal; a huge pmd takes exactly one frame, keeps every back-reference, points the shadow slot at that frame without PS and fills the frame with the 512 leaf entries, logging their probes; otherwise the entry is copied with its child's back-reference, the child linked, and the probe logged |
| Builder.PteEntry | guest_kernel/drivers/devirt/devirt.c:331-347 | a missing shadow page is fatal; otherwise the pte is copied with its own frame as target |
| Builder.Callback | guest_kernel/drivers/devirt/devirt.c:249-347 | a callback below the top keeps every back-reference, takes at most the frame count_pts counts for the entry, is fatal only at a huge pud, links the child, and takes nothing when already linked |
| Builder.TopCallback | guest_kernel/drivers/devirt/devirt.c:220-247 | the same for a top-level entry, which also takes the root on the first call |
| Builder.VisitTop | guest_kernel/drivers/devirt/devirt.c:204-247 | one top-level slot and its subtree take at most the slot's count, keep back-references, take the root exactly at the first nonempty slot, and leave the subtree mirrored (EntryMirrored) |
| Builder.VisitSlot | guest_kernel/drivers/devirt/devirt.c:249-347 | one slot below the top and its subtree take at most its count, are fatal only at a huge pud, take nothing when linked, and leave the subtree mirrored |
| Builder.WalkTop | guest_kernel/drivers/devirt/devirt.c:204-210 | a walked range takes at most Count frames, in order; the root is taken iff some slot is nonempty; it is fatal only at a huge pud; when not fatal every table it descends into has a shadow page (Mirrored) |
| Builder.Walk | guest_kernel/drivers/devirt/devirt.c:249-347 | a range of a table below the top takes at most Count frames, keeps back-references, takes nothing when already linked, and when not fatal leaves every table below it with a shadow page (Mirrored) |
| Builder.MirroredKeeps | guest_kernel/drivers/devirt/devirt.c:204-347 | a mirrored range stays mirrored while later callbacks only add back-references |
| Builder.ConstructDvRoot | guest_kernel/drivers/devirt/devirt.c:394-405 | with a pool of count_pts frames, the root is pool[0], or null exactly when no top-level entry is visited; a re-run on a linked tree changes no back-reference; when not fatal both walked ranges are mirrored (TopMirrored) |
| Builder.FreePool | guest_kernel/drivers/devirt/devirt.c:473-475 | frees the first count pool frames, in order |
| Builder.AllocFrames | guest_kernel/drivers/devirt/devirt.c:460-466 | fills the pool with distinct fresh zeroed shadow pages in order; on a failure frees the frames obtained so far |
| Builder.PopulateDvRoot | guest_kernel/drivers/devirt/devirt.c:460-471 | frame allocation with rollback, then construction and publication of the root, with both walked ranges mirrored when not fatal |
| Builder.InitDvRoot | guest_kernel/drivers/devirt/devirt.c:445-480 | sizes the pool by count_pts; on failure frees the frames obtained and returns -1; on success all frames were obtained first, the root is built over a mirrored tree and 0 is returned |
| Builder.RemoveDvRoot | guest_kernel/drivers/devirt/devirt.c:482-491 | frees every pool frame and nulls the root |
| Activation.CStr | guest_kernel/drivers/devirt/devirt.c:173 | strcpy copies exactly the characters before the first NUL |
| Activation.KBasename | guest_kernel/include/linux/devirt.h:153 | kbasename is the suffix of the path after its last '/' |
| Activation.StreqStop | guest_kernel/include/linux/devirt.h:160-161 | where sysfs_streq's loop stops on two matching names, one of its accepting tests holds |
| Activation.SysfsStreq | guest_kernel/include/linux/devirt.h:160-161 | sysfs_streq accepts exactly equal names, ignoring one trailing newline on either side |
| Activation.PgdAlloc | guest_kernel/include/linux/devirt.h:132-149 | for an activated address space other than init_mm, the kernel slots of the root are copied into pgd+3 and nothing else changes; with no root that is fatal |
| Activation.InitializeDevirtProc | guest_kernel/include/linux/devirt.h:151-171 | activates exactly when mm is not init_mm, both names are non-empty and sysfs_streq matches; then sets MMF_DEVIRT and copies the kernel half of the root into page pgd+3, changing no other shadow page and no user slot |
| Attribute.CStrWhole | guest_kernel/drivers/devirt/devirt.c:173 | strcpy of a buffer without NUL copies all of it |
| Attribute.ShowThenStore | guest_kernel/drivers/devirt/devirt.c:159-175 | writing back what task_show (TaskShow, the name and one newline) printed stores the old name plus a newline, which sysfs_streq still matches |
| Attribute.ShowThenStoreSelects | guest_kernel/drivers/devirt/devirt.c:159-175 | for names without newlines, the written-back name selects exactly the programs the old name did |
| Attribute.TaskStore | guest_kernel/drivers/devirt/devirt.c:165-175 | without a root, builds one first and on failure returns 0 keeping the name; otherwise stores the buffer up to its NUL and returns count; a root built here mirrors the whole tree |

## Left out

- PCI probe and remove, BAR mapping, the FTT length read and the hypercall: device plumbing. The constructor stands for the state after probe.
- sysfs group registration: it only hands task_show and task_store to the kernel.
- devirt_touch_pages and the memory access in _check_devirt_present: hardware residency effects. The ghost log `probes` records the frames handed to _check_devirt_present, not the access itself; that function skips a frame that is not pfn_valid (guest_kernel/include/linux/devirt.h:51-57), which the model does not track.
- Atomicity of xchg, test_and_clear_bit and WRITE_ONCE, and the mmap read locks: the model is sequential.
- Internals of walk_page_range_novma, the page allocator, kmalloc, pfn_valid, PageTable and pgd_page_get_mm. They are modelled as recursion over slots, a nondeterministic choice, and the fields `ptPages` and `pgdOwner`.
- Huge-aware pmd and pud frame masks: one uniform frame mask (bits 12..51) and flag mask is used at every level. A p4d entry is never huge (4-level paging).
- An FTT lookup past the table's end reads 0 in the model. In C it reads out of bounds.
- Mirror.Machine.SetPmd, Mirror.Machine.SetPud, Mirror.Machine.SetP4d, Mirror.Machine.EstablishSmp, Access.SetAccessFlags: a back-reference is a frame number, so a child table without a shadow page (back-reference 0, as for kernel tables created after construction, since devirt_alloc_pt returns early for init_mm) gives target frame 0, and the copy and its probe read FTT index 0. In C the target is a NULL address, virt_to_pfn of which indexes far past the FTT's end (guest_kernel/include/linux/devirt.h:319, 335, 353, 464): an out-of-bounds read.
- pmd_huge and pud_huge (guest_kernel/include/linux/devirt.h:316, 332; guest_kernel/drivers/devirt/devirt.c:262, 298, 373) on a non-present entry are the PS bit alone.
- Builder.RemoveDvRoot: requires the pool to hold numPages frames. After a failed pool-array allocation the C code would read through a NULL array.
- Builder.InitDvRoot: kfree of the pool array is not modelled; on failure the model keeps the array and lists the frames freed.
- Builder.Walk: does not state that every new back-reference is a pool frame, only that no existing one changes (Keeps).
- Builder.ConstructDvRoot: shadow contents are stated per callback (PudEntry, PmdEntry, PteEntry and the top-level copy); the whole walk states only which tables get a shadow page (TopMirrored), not the contents of every shadow slot.
- Mirror.Machine.NativeSetP4d: the kernel copy of a present user entry gets the entry as is; the NX bit that pti_set_user_pgtbl ORs into it is not modelled.
- Mirror.Machine.SetP4d: page-table isolation is taken to be on, so the caller passes an entry of an 8 KiB pgd whose user copy is the next frame; the NX bit that pti_set_user_pgtbl puts on the kernel copy of a user entry is not modelled.
- Builder.ConstructDvRoot: a second run on an unchanged tree takes a frame again for the root and for every huge pmd. The model states only that a run over a tree whose tables all have shadow pages and that has no huge pmd (Builder.TopLinked) changes no back-reference.
- Mirror.Machine.ReleasePt: freed shadow pages stay in the shadow map, and only the `freed` log records them.
- Counters (`entries_changed`, `pt_count`, `cur_page`) and `dv_root_num_pages` are unbounded; 32-bit wrap-around is not modelled.
- Attribute.TaskStore: the strcpy into the 16-byte devirt_task_name is not bounded; a longer buffer would overflow in C.
- VM_BUG_ON on the address alignment in devirt_pudp_set_access_flags: a debug check.
- The huge-pmd break-up probes the old value of each pool entry, as the code does. Pool frames are zeroed when they are obtained, but the model does not carry that they are still zero when the break-up takes one, so Builder.BreakUp states "no probe" only for a page that is zero when it is broken up.
- A NULL dv_root in devirt_pgd_alloc is a fatal result (Activation.PgdAlloc).
