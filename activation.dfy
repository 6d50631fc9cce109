/**
 * Per-process activation (initialize_devirt_proc and devirt_pgd_alloc in
 * guest_kernel/include/linux/devirt.h), with the C string helpers it and
 * the task_name attribute share.
 *
 * C strings are modelled as the characters before their terminating NUL, so
 * a model string never contains '\0'; reading one past its end yields NUL.
 */
module Activation {
  import opened Entries
  import opened Mirror

  const NUL: char := '\0'

  /** First slot of the kernel half of a top-level table. */
  const KERNEL_PGD_BOUNDARY: nat := 273
  /** Number of kernel slots copied into a process's shadow top level. */
  const KERNEL_PGD_PTRS: nat := 239

  /** A C string's character at index i, where index |s| holds its NUL. */
  function CharAt(s: string, i: nat): char
  {
    if i < |s| then s[i] else NUL
  }

  /** What strcpy copies out of a buffer: everything before the first NUL. */
  function CStr(buf: string): (r: string)
    ensures NUL !in r
    ensures |r| <= |buf| && r == buf[..|r|]
    ensures |r| < |buf| ==> buf[|r|] == NUL
  {
    if buf == [] || buf[0] == NUL then [] else [buf[0]] + CStr(buf[1..])
  }

  /**
   * kbasename: the part of a path after its last '/', or the whole path when
   * it has none.
   */
  function KBasename(path: string): (r: string)
    ensures '/' !in r
    ensures |r| <= |path| && r == path[|path| - |r|..]
    ensures |r| < |path| ==> path[|path| - |r| - 1] == '/'
  {
    if path == [] then []
    else if path[|path| - 1] == '/' then []
    else KBasename(path[..|path| - 1]) + [path[|path| - 1]]
  }

  /** What sysfs_streq accepts: equal strings, ignoring one trailing newline on either side. */
  predicate SameName(a: string, b: string)
  {
    a == b || a + "\n" == b || a == b + "\n"
  }

  /**
   * Where the comparison loop of sysfs_streq stops on two names that match,
   * one of its three accepting tests holds.
   */
  lemma StreqStop(a: string, b: string, i: nat)
    requires NUL !in a && NUL !in b
    requires i <= |a| && i <= |b| && a[..i] == b[..i]
    requires i == |a| || CharAt(a, i) != CharAt(b, i)
    ensures SameName(a, b) ==>
              CharAt(a, i) == CharAt(b, i) ||
              (CharAt(a, i) == NUL && CharAt(b, i) == '\n' && CharAt(b, i + 1) == NUL) ||
              (CharAt(a, i) == '\n' && CharAt(a, i + 1) == NUL && CharAt(b, i) == NUL)
  {
    if a + "\n" == b {
      assert b[i] == (a + "\n")[i];
    }
    if a == b + "\n" {
      assert a[i] == (b + "\n")[i];
    }
  }

  /**
   * sysfs_streq: walk both strings while they agree, then accept when both
   * ended, or when one ended and the other has only a newline left.
   */
  method SysfsStreq(a: string, b: string) returns (eq: bool)
    requires NUL !in a && NUL !in b
    ensures eq <==> SameName(a, b)
  {
    var i := 0;
    while i < |a| && CharAt(a, i) == CharAt(b, i)
      invariant i <= |a| && i <= |b|
      invariant a[..i] == b[..i]
    {
      i := i + 1;
    }
    if CharAt(a, i) == CharAt(b, i) {
      assert i == |a| && i == |b|;
      assert a == a[..i] && b == b[..i];
      return true;
    }
    if CharAt(a, i) == NUL && CharAt(b, i) == '\n' && CharAt(b, i + 1) == NUL {
      assert a == a[..i] && b == b[..i] + "\n";
      return true;
    }
    if CharAt(a, i) == '\n' && CharAt(a, i + 1) == NUL && CharAt(b, i) == NUL {
      assert b == b[..i] && a == a[..i] + "\n";
      return true;
    }
    StreqStop(a, b, i);
    eq := false;
  }

  /**
   * devirt_pgd_alloc: for an activated address space mm other than
   * init_mm, whose top-level page is pgd, copy the kernel slots of the
   * shadow root into the process's private shadow top level, three pages
   * past pgd. With no shadow root the
   * copy reads through a NULL pointer, which is fatal.
   */
  method PgdAlloc(m: Machine, mm: nat, pgd: nat) returns (fatal: bool)
    requires m.Valid() && pgd in m.pgdOwner && m.pgdOwner[pgd] == mm
    modifies m`shadow
    ensures m.Valid()
    ensures !fatal <==> mm == INIT_MM || mm !in m.devirtMms || m.dvRoot != 0
    ensures mm == INIT_MM || mm !in m.devirtMms || fatal ==> m.shadow == old(m.shadow)
    ensures mm != INIT_MM && mm in m.devirtMms && !fatal ==>
              var top := pgd + 3;
              m.shadow.Keys == old(m.shadow.Keys) &&
              |m.shadow[top]| == PTRS_PER_TABLE &&
              m.shadow[top][..KERNEL_PGD_BOUNDARY] == old(m.shadow[top][..KERNEL_PGD_BOUNDARY]) &&
              m.shadow[top][KERNEL_PGD_BOUNDARY..] == old(m.shadow[m.dvRoot][KERNEL_PGD_BOUNDARY..]) &&
              forall q :: q in m.shadow && q != top ==> m.shadow[q] == old(m.shadow[q])
  {
    fatal := false;
    if mm == INIT_MM {
      return;
    }
    if mm !in m.devirtMms {
      return;
    }
    if m.dvRoot == 0 {
      return true;
    }
    var top := pgd + 3;
    m.shadow := m.shadow[top := m.shadow[top][..KERNEL_PGD_BOUNDARY] + m.shadow[m.dvRoot][KERNEL_PGD_BOUNDARY..]];
  }

  /** The activation condition of initialize_devirt_proc. */
  predicate Activates(m: Machine, mm: nat, filename: string)
    reads m
  {
    mm != INIT_MM && |m.taskName| != 0 && |KBasename(filename)| != 0 &&
    SameName(m.taskName, KBasename(filename))
  }

  /**
   * initialize_devirt_proc: when a program is executed by an address space
   * other than init_mm, both the configured name and the program's base
   * name are non-empty, and sysfs_streq matches them, mark the address
   * space activated and run devirt_pgd_alloc for it.
   */
  method InitializeDevirtProc(m: Machine, mm: nat, pgd: nat, filename: string) returns (fatal: bool)
    requires m.Valid() && pgd in m.pgdOwner && m.pgdOwner[pgd] == mm && NUL !in filename
    modifies m`devirtMms, m`shadow
    ensures m.Valid()
    ensures !Activates(m, mm, filename) ==>
              m.devirtMms == old(m.devirtMms) && m.shadow == old(m.shadow) && !fatal
    ensures Activates(m, mm, filename) ==>
              m.devirtMms == old(m.devirtMms) + {mm} && (fatal <==> m.dvRoot == 0)
    ensures fatal ==> m.shadow == old(m.shadow)
    ensures Activates(m, mm, filename) && !fatal ==>
              var top := pgd + 3;
              m.shadow.Keys == old(m.shadow.Keys) && top in m.shadow &&
              m.shadow[top][..KERNEL_PGD_BOUNDARY] == old(m.shadow[top][..KERNEL_PGD_BOUNDARY]) &&
              m.shadow[top][KERNEL_PGD_BOUNDARY..] == old(m.shadow[m.dvRoot][KERNEL_PGD_BOUNDARY..]) &&
              forall q :: q in m.shadow && q != top ==> m.shadow[q] == old(m.shadow[q])
  {
    fatal := false;
    var name := KBasename(filename);
    if mm == INIT_MM {
      return;
    }
    if |m.taskName| == 0 || |name| == 0 {
      return;
    }
    var eq := SysfsStreq(m.taskName, name);
    if !eq {
      return;
    }
    m.devirtMms := m.devirtMms + {mm};
    fatal := PgdAlloc(m, mm, pgd);
  }
}
