/**
 * The devirt/task_name sysfs attribute (task_show and task_store in
 * guest_kernel/drivers/devirt/devirt.c): reading it prints the configured
 * program name, writing it builds the shadow root on first use and then
 * stores the name that initialize_devirt_proc matches programs against.
 */
module Attribute {
  import opened Mirror
  import opened Activation
  import opened Builder

  /** task_show: the configured name followed by a newline. */
  function TaskShow(name: string): (r: string)
    ensures |r| == |name| + 1 && r[..|name|] == name && r[|name|] == '\n'
    ensures NUL !in name ==> NUL !in r
  {
    name + "\n"
  }

  /**
   * Writing back what task_show printed stores the old name with its
   * newline, and the stored name matches the old one under sysfs_streq.
   */
  lemma ShowThenStore(name: string)
    requires NUL !in name
    ensures CStr(TaskShow(name)) == name + "\n"
    ensures SameName(CStr(TaskShow(name)), name)
  {
    CStrWhole(TaskShow(name));
  }

  /** strcpy of a buffer without NUL copies the whole buffer. */
  lemma {:induction false} CStrWhole(buf: string)
    requires NUL !in buf
    ensures CStr(buf) == buf
    decreases |buf|
  {
    if buf != [] {
      CStrWhole(buf[1..]);
      assert buf == [buf[0]] + buf[1..];
    }
  }

  /**
   * For names without a newline, the name written back from task_show
   * selects exactly the programs the old name selected.
   */
  lemma ShowThenStoreSelects(name: string, base: string)
    requires NUL !in name && '\n' !in name && '\n' !in base
    ensures SameName(CStr(TaskShow(name)), base) <==> SameName(name, base)
  {
    ShowThenStore(name);
    var shown := name + "\n";
    assert shown[|name|] == '\n' && (shown + "\n")[|name|] == '\n';
    assert (base + "\n")[|base|] == '\n';
  }

  /**
   * task_store: when there is no shadow root yet, build one with
   * devirt_init_dv_root; if that fails, return 0 and keep the old name.
   * Otherwise copy the buffer up to its NUL into the name and return count.
   * init is what devirt_init_dv_root returned, 0 when it was not called;
   * when the construction hit its fatal case the kernel has stopped and
   * nothing is stored.
   */
  method TaskStore(m: Machine, buf: string, count: nat) returns (ret: int, fatal: bool, init: int, ghost obtained: nat)
    requires m.Valid()
    requires m.dvRoot == 0 ==> TopWf(m.tables, m.swapperPgd + 1)
    modifies m`pool, m`numPages, m`shadow, m`backref, m`probes, m`freed, m`dvRoot, m`taskName
    ensures m.Valid() && (ret == 0 || ret == count) && obtained <= m.pool.Length
    ensures old(m.dvRoot) != 0 ==>
              init == 0 && !fatal && ret == count && m.taskName == CStr(buf) &&
              m.dvRoot == old(m.dvRoot) && m.pool == old(m.pool) && m.shadow == old(m.shadow) &&
              m.backref == old(m.backref) && m.freed == old(m.freed)
    ensures fatal ==> old(m.dvRoot) == 0 && TopHuge(m.tables, m.swapperPgd + 1) && m.taskName == old(m.taskName)
    ensures init == -1 ==>
              ret == 0 && m.taskName == old(m.taskName) && m.dvRoot == 0 &&
              m.freed == old(m.freed) + m.pool[..obtained]
    ensures init == 0 && !fatal ==> ret == count && m.taskName == CStr(buf)
    ensures old(m.dvRoot) == 0 && init == 0 && !fatal ==>
              m.numPages == obtained == m.pool.Length && Keeps(old(m.backref), m.backref) &&
              (m.dvRoot == 0 <==> TopNone(m.tables, m.swapperPgd + 1)) &&
              TopMirrored(m.tables, m.backref, m.swapperPgd + 1)
  {
    init, fatal, obtained := 0, false, 0;
    if m.dvRoot == 0 {
      init, fatal, obtained := InitDvRoot(m);
      if fatal || init != 0 {
        return 0, fatal, init, obtained;
      }
    }
    m.taskName := CStr(buf);
    ret := count;
  }
}
