/** The system-call layer as the kernel runs it: handlers that update the
    current process, the kernel's free-page list and the inode cache in
    place, and the dispatcher that writes the result into the trap frame.
    Each handler is proved to do what the corresponding function of the
    `Dispatcher` model says. */
module Kernel {
  import opened Types
  import opened AddrSpace
  import opened Files
  import opened FileSystem
  import opened Introspect
  import opened Argv
  import opened Dispatcher

  /** The saved user registers of the current process. */
  class TrapFrame {
    var a0: Word
    var a1: Word
    var a2: Word
    var a3: Word
    var a4: Word
    var a5: Word
    var a7: Word

    constructor(regs: Regs)
      ensures Regs(a0, a1, a2, a3, a4, a5, a7) == regs
    {
      a0, a1, a2, a3, a4, a5, a7 := regs.a0, regs.a1, regs.a2, regs.a3, regs.a4, regs.a5, regs.a7;
    }
  }

  /** The fields of `struct proc` the system calls use. */
  class Proc {
    var pid: nat
    var parent: Option<nat>
    var pass: nat
    var programBrk: nat
    var maxPage: nat
    /** The page table: virtual page number to entry, a missing key being a
        zero entry. */
    var pagetable: map<nat, Pte>
    const files: array<Option<File>>
    const trapframe: TrapFrame

    /** A process with no parent, no mappings and no open files. */
    constructor(pid: nat, regs: Regs)
      ensures this.pid == pid && parent == None && pass == 0 && programBrk == 0
      ensures maxPage == 0 && pagetable == map[]
      ensures fresh(files) && files.Length == FD_BUFFER_SIZE
      ensures forall fd :: 0 <= fd < FD_BUFFER_SIZE ==> files[fd] == None
      ensures fresh(trapframe) && Regs(trapframe.a0, trapframe.a1, trapframe.a2, trapframe.a3,
                                       trapframe.a4, trapframe.a5, trapframe.a7) == regs
    {
      this.pid := pid;
      parent := None;
      pass := 0;
      programBrk := 0;
      maxPage := 0;
      pagetable := map[];
      files := new Option<File>[FD_BUFFER_SIZE](_ => None);
      trapframe := new TrapFrame(regs);
    }
  }

  /** The kernel: the free-page list `kalloc` draws from, the inode cache,
      the root directory, and the current process. */
  class Kernel {
    var freeList: seq<nat>
    var inodes: map<nat, InodeRec>
    var root: Option<map<string, nat>>
    const proc: Proc

    /** The abstract state the `Dispatcher` model speaks about. */
    ghost function State(): KState
      reads this, proc, proc.files, proc.trapframe
      requires proc.files.Length == FD_BUFFER_SIZE
    {
      var tf := proc.trapframe;
      KState(proc.pid, proc.parent, proc.pass, proc.programBrk,
             Space(proc.pagetable, freeList, proc.maxPage), proc.files[..], Fs(inodes, root),
             Regs(tf.a0, tf.a1, tf.a2, tf.a3, tf.a4, tf.a5, tf.a7))
    }

    ghost predicate Valid()
      reads this, proc, proc.files, proc.trapframe
    {
      proc.files.Length == FD_BUFFER_SIZE && Wf(State())
    }

    /** A kernel with one process, an empty inode cache and an empty root
        directory. */
    constructor(pid: nat, free: seq<nat>, regs: Regs)
      requires 0 !in free
      requires forall i, j :: 0 <= i < j < |free| ==> free[i] != free[j]
      ensures Valid() && fresh(proc) && fresh(proc.files) && fresh(proc.trapframe)
      ensures State() == KState(pid, None, 0, 0, Space(map[], free, 0),
                                seq(FD_BUFFER_SIZE, _ => None), Fs(map[], Some(map[])), regs)
    {
      freeList := free;
      inodes := map[];
      root := Some(map[]);
      proc := new Proc(pid, regs);
    }

    // -------------------------------------------------------------------
    // Collaborators of the page loops

    /** `kalloc`: the head of the free list, or 0 when the list is empty. A
        page it hands out is neither still free nor mapped anywhere. */
    method Kalloc() returns (pa: nat)
      requires 0 !in freeList && Owned(Space(proc.pagetable, freeList, 0))
      modifies this`freeList
      ensures old(freeList) == [] ==> pa == 0 && freeList == []
      ensures old(freeList) != [] ==> pa == old(freeList)[0] != 0 && freeList == old(freeList)[1..]
      ensures pa != 0 ==> pa !in freeList && forall v :: v in proc.pagetable ==> proc.pagetable[v].pa != pa
      ensures Owned(Space(proc.pagetable, freeList, 0))
    {
      if freeList == [] {
        return 0;
      }
      PopKeepsOwned(proc.pagetable, freeList);
      pa := freeList[0];
      freeList := freeList[1..];
    }

    /** `kfree`: pushes a page back on the free list. */
    method Kfree(pa: nat)
      requires pa != 0
      modifies this`freeList
      ensures freeList == [pa] + old(freeList)
    {
      freeList := [pa] + freeList;
    }

    /** `mappages` for one page: installs a valid entry, refusing a page whose
        entry is already valid. */
    method Mappages(va: Word, pa: nat, perm: bv32) returns (r: int)
      modifies proc`pagetable
      ensures ValidPage(old(proc.pagetable), va / PAGE_SIZE) ==> r == -1 && proc.pagetable == old(proc.pagetable)
      ensures !ValidPage(old(proc.pagetable), va / PAGE_SIZE) ==>
                r == 0 && proc.pagetable == old(proc.pagetable)[va / PAGE_SIZE := Pte(pa, perm | PTE_V)]
    {
      if ValidPage(proc.pagetable, va / PAGE_SIZE) {
        return -1;
      }
      proc.pagetable := proc.pagetable[va / PAGE_SIZE := Pte(pa, perm | PTE_V)];
      return 0;
    }

    /** `walk(pagetable, va, 0)`: the entry of `va`'s page; `None` stands for
        both a missing leaf table and a zero entry. */
    function WalkPte(va: Word): Option<Pte>
      reads proc
    {
      if va / PAGE_SIZE in proc.pagetable then Some(proc.pagetable[va / PAGE_SIZE]) else None
    }

    /** `*pte = 0` */
    method ClearPte(va: Word)
      modifies proc`pagetable
      ensures proc.pagetable == old(proc.pagetable) - {va / PAGE_SIZE}
    {
      proc.pagetable := proc.pagetable - {va / PAGE_SIZE};
    }

    // -------------------------------------------------------------------
    // The address-space handlers

    /** `sys_mmap(start, len, prot, flag, fd)` */
    method SysMmap(start: Word, len: Word, prot: bv32) returns (ret: Word)
      requires Valid()
      modifies this`freeList, proc`pagetable, proc`maxPage
      ensures Valid()
      ensures var m := Mmap(old(State()).space, start, len, prot);
              State() == old(State()).(space := m.0) && ret == m.1
    {
      if len == 0 {
        return 0;
      }
      if !Aligned(start) {
        return NEG1;
      }
      if prot & !7 != 0 {
        return NEG1;
      }
      if prot & 7 == 0 {
        return NEG1;
      }
      var perm := Perm(prot);
      var end := (start + len) % WORD_MOD;
      var va: Word := start;
      ghost var done := 0;
      ghost var run := MapLoop(proc.pagetable, freeList, start, end, perm, 0);
      while va < end
        invariant PhysNonNull(Space(proc.pagetable, freeList, 0))
        invariant Owned(Space(proc.pagetable, freeList, 0))
        invariant MapLoop(proc.pagetable, freeList, va, end, perm, done) == run
        invariant proc.maxPage == old(proc.maxPage)
        decreases |freeList|
      {
        if UserAddr(proc.pagetable, va) != 0 {
          return NEG1;
        }
        var pa := Kalloc();
        if pa == 0 {
          return NEG1;
        }
        ghost var pt := proc.pagetable;
        var r := Mappages(va, pa, perm);
        if r < 0 {
          return NEG1;
        }
        InstallKeepsOwned(pt, freeList, va / PAGE_SIZE, pa, perm | PTE_V);
        va := (va + PAGE_SIZE) % WORD_MOD;
        done := done + 1;
      }
      proc.maxPage := Max(proc.maxPage, PgRoundUp(end) / PAGE_SIZE);
      return 0;
    }

    /** `sys_munmap(start, len)` */
    method SysMunmap(start: Word, len: Word) returns (ret: Word)
      requires Valid()
      modifies this`freeList, proc`pagetable, proc`maxPage
      ensures Valid()
      ensures var m := Munmap(old(State()).space, start, len);
              State() == old(State()).(space := m.0) && ret == m.1
    {
      if len == 0 {
        return 0;
      }
      if !Aligned(start) {
        return NEG1;
      }
      var end := (start + len) % WORD_MOD;
      var va: Word := start;
      ghost var done := 0;
      ghost var run := UnmapLoop(proc.pagetable, freeList, start, end, 0);
      while va < end
        invariant PhysNonNull(Space(proc.pagetable, freeList, 0))
        invariant Owned(Space(proc.pagetable, freeList, 0))
        invariant UnmapLoop(proc.pagetable, freeList, va, end, done) == run
        invariant proc.maxPage == old(proc.maxPage)
        decreases proc.pagetable.Keys
      {
        var pte := WalkPte(va);
        if pte.None? || pte.value.flags & PTE_V == 0 || pte.value.flags & PTE_U == 0 {
          return NEG1;
        }
        ghost var pt, free := proc.pagetable, freeList;
        Kfree(pte.value.pa);
        ClearPte(va);
        ReleaseKeepsOwned(pt, free, va / PAGE_SIZE);
        va := (va + PAGE_SIZE) % WORD_MOD;
        done := done + 1;
      }
      if proc.maxPage == PgRoundUp(end) / PAGE_SIZE {
        proc.maxPage := start / PAGE_SIZE;
      }
      return 0;
    }

    // -------------------------------------------------------------------
    // The descriptor handlers. The range check is `0 <= fd < FD_BUFFER_SIZE`,
    // one tighter than the source's (see `Files.FdGuardOffByOne`).

    /** `sys_write(fd, va, len)` */
    method SysWrite(env: Env, fd: int, va: Word, len: Word) returns (ret: Word)
      requires Valid()
      ensures ret == Write(State(), env, fd, va, len).ret
    {
      if fd < 0 || fd >= FD_BUFFER_SIZE {
        return NEG1;
      }
      var f := proc.files[fd];
      if f.None? {
        return NEG1;
      }
      match f.value
      case Stdio => ret := len;
      case Inode(i) => ret := env.foreign(InodeWrite(i, va, len));
    }

    /** `sys_read(fd, va, len)` */
    method SysRead(env: Env, fd: int, va: Word, len: Word) returns (ret: Word)
      requires Valid()
      ensures ret == Read(State(), env, fd, va, len).ret
    {
      if fd < 0 || fd >= FD_BUFFER_SIZE {
        return NEG1;
      }
      var f := proc.files[fd];
      if f.None? {
        return NEG1;
      }
      match f.value
      case Stdio => ret := len;
      case Inode(i) => ret := env.foreign(InodeRead(i, va, len));
    }

    /** `sys_close(fd)`; releasing the file itself (`fileclose`) is not part
        of this model. */
    method SysClose(fd: int) returns (ret: Word)
      requires Valid()
      modifies proc.files
      ensures Valid()
      ensures var c := Close(old(State()).files, fd);
              State() == old(State()).(files := c.0) && ret == c.1
    {
      if fd < 0 || fd >= FD_BUFFER_SIZE {
        return NEG1;
      }
      var f := proc.files[fd];
      if f.None? {
        return NEG1;
      }
      proc.files[fd] := None;
      return 0;
    }

    /** `sys_fstat(fd, st)`: the result and the record copied out. */
    method SysFstat(fd: int, st: Word) returns (ret: int, copied: CopyOut)
      requires Valid()
      ensures var f := Fstat(State().files, inodes, fd);
              ret == f.0 && copied == (if f.1.Some? then StatOut(st, f.1.value) else NoCopy)
    {
      if fd < 0 || fd >= FD_BUFFER_SIZE {
        return -1, NoCopy;
      }
      var f := proc.files[fd];
      if f.None? {
        return -1, NoCopy;
      }
      match f.value
      case Stdio =>
        return -1, NoCopy;
      case Inode(i) =>
        return 0, StatOut(st, StatOf(i, inodes[i]));
    }

    // -------------------------------------------------------------------
    // The link handlers

    /** `dirlink(root, name, inum)` */
    method Dirlink(name: string, inum: nat) returns (r: int)
      requires root.Some?
      modifies this`root
      ensures root.Some? && (root.value, r) == DirLink(old(root).value, name, inum)
    {
      if name in root.value {
        return -1;
      }
      root := Some(root.value[name := inum]);
      return 0;
    }

    /** `dirunlink(root, name)` */
    method Dirunlink(name: string)
      requires root.Some?
      modifies this`root
      ensures root == Some(old(root).value - {name})
    {
      root := Some(root.value - {name});
    }

    /** `sys_linkat(olddirfd, oldpath, newdirfd, newpath, flags)` with both
        names copied in; `iupdate` is the write of the new count into the
        cache. */
    method SysLinkat(oldname: string, newname: string) returns (ret: int)
      requires Valid()
      modifies this`inodes, this`root
      ensures Valid()
      ensures var l := Linkat(old(State()).fs, oldname, newname);
              State() == old(State()).(fs := l.0) && ret == l.1
    {
      if root.None? {
        return -1;
      }
      if oldname !in root.value {
        return -1;
      }
      var inum := root.value[oldname];
      var ip := inodes[inum];
      inodes := inodes[inum := ip.(nlink := ip.nlink + 1)];
      var _ := Dirlink(newname, inum);
      LinkatUnlinkatKeepEntriesCached(old(State()).fs, oldname, newname);
      return 0;
    }

    /** `sys_unlinkat(dirfd, path, flags)` with the name copied in. */
    method SysUnlinkat(name: string) returns (ret: int)
      requires Valid()
      modifies this`inodes, this`root
      ensures Valid()
      ensures var u := Unlinkat(old(State()).fs, name);
              State() == old(State()).(fs := u.0) && ret == u.1
    {
      if root.None? {
        return -1;
      }
      if name !in root.value {
        return -1;
      }
      var inum := root.value[name];
      var ip := inodes[inum];
      inodes := inodes[inum := ip.(nlink := ip.nlink - 1)];
      Dirunlink(name);
      LinkatUnlinkatKeepEntriesCached(old(State()).fs, name, name);
      return 0;
    }

    // -------------------------------------------------------------------
    // The process handlers

    /** `sys_set_priority(prio)` */
    method SysSetPriority(prio: int) returns (ret: Word)
      requires Valid()
      modifies proc`pass
      ensures Valid()
      ensures var p := SetPriority(old(proc.pass), prio);
              State() == old(State()).(pass := p.0) && ret == p.1
    {
      if prio <= 1 {
        return NEG1;
      }
      proc.pass := BIG_STRIDE / prio;
      return ToWord(prio);
    }

    /** `sys_sbrk(n)`, where `grow` is what `growproc` does to the break. */
    method SysSbrk(grow: (nat, int) -> Option<nat>, n: int) returns (ret: Word)
      requires Valid()
      modifies proc`programBrk
      ensures Valid()
      ensures var b := Sbrk(old(proc.programBrk), grow(old(proc.programBrk), n));
              State() == old(State()).(brk := b.0) && ret == b.1
    {
      var addr := proc.programBrk;
      var grown := grow(proc.programBrk, n);
      if grown.None? {
        return NEG1;
      }
      proc.programBrk := grown.value;
      return ToWord(addr);
    }

    /** `sys_exec(path, uargv)`: collects the arguments into a bounded `argv`
        and hands them to `exec`. */
    method SysExec(env: Env, path: Word, uargv: Word) returns (ret: Word)
      ensures ret == ExecResult(env, path, uargv)
    {
      var name := env.strAt(path);
      var argv, argc, ok := CollectArgv(env.fetch, env.strAt, uargv);
      if !ok {
        return NEG1;
      }
      ghost var expected := ArgvOf(env.fetch, env.strAt, uargv).value;
      var args := seq(argc, k requires 0 <= k < argc && k < argv.Length && argv[k].Some? reads argv => argv[k].value);
      assert args == expected by {
        assert forall k :: 0 <= k < argc ==> args[k] == expected[k];
      }
      ret := env.foreign(Request.Exec(name, args));
    }

    // -------------------------------------------------------------------
    // The dispatcher

    /** The `switch` of `syscall()`: runs the handler for call number `id`
        with the trap frame's arguments, and returns its result and the
        record it copied out. */
    method Switch(env: Env, id: int) returns (ret: int, copied: CopyOut)
      requires Valid() && id != SYS_EXIT
      modifies this, proc, proc.files
      ensures Valid()
      ensures var st := Handle(old(State()), env, id);
              State() == st.s && ret == st.ret && copied == st.out
    {
      var tf := proc.trapframe;
      copied := NoCopy;
      if id == SYS_WRITE {
        ret := SysWrite(env, ToInt32(tf.a0), tf.a1, tf.a2);
      } else if id == SYS_READ {
        ret := SysRead(env, ToInt32(tf.a0), tf.a1, tf.a2);
      } else if id == SYS_OPENAT {
        ret := env.foreign(Open(env.strAt(tf.a0), tf.a1));
      } else if id == SYS_CLOSE {
        ret := SysClose(ToInt32(tf.a0));
      } else if id == SYS_SCHED_YIELD {
        ret := 0;
      } else if id == SYS_GETTIMEOFDAY {
        ret, copied := 0, TimeOut(tf.a0, TimeOfDay(env.cycle));
      } else if id == SYS_GETPID {
        ret := proc.pid;
      } else if id == SYS_GETPPID {
        ret := Ppid(proc.parent);
      } else if id == SYS_CLONE {
        ret := env.foreign(Fork);
      } else if id == SYS_EXECVE {
        ret := SysExec(env, tf.a0, tf.a1);
      } else if id == SYS_WAIT4 {
        ret := env.foreign(Wait(ToInt32(tf.a0), tf.a1));
      } else if id == SYS_FSTAT {
        ret, copied := SysFstat(ToInt32(tf.a0), tf.a1);
      } else if id == SYS_LINKAT {
        ret := SysLinkat(env.strAt(tf.a1), env.strAt(tf.a3));
      } else if id == SYS_UNLINKAT {
        ret := SysUnlinkat(env.strAt(tf.a1));
      } else if id == SYS_SPAWN {
        ret := env.foreign(Spawn(env.strAt(tf.a0)));
      } else if id == SYS_SETPRIORITY {
        ret := SysSetPriority(ToInt64(tf.a0));
      } else if id == SYS_SBRK {
        ret := SysSbrk(env.grow, ToInt32(tf.a0));
      } else if id == SYS_TASK_INFO {
        ret := 0;
      } else if id == SYS_MMAP {
        ret := SysMmap(tf.a0, tf.a1, ProtArg(tf.a2));
      } else if id == SYS_MUNMAP {
        ret := SysMunmap(tf.a0, tf.a1);
      } else {
        ret := -1;
      }
    }

    /** `syscall()`: returns the exit code when the call is `SYS_exit`, which
        does not come back; otherwise stores `ret`, an `int`, into `a0`. */
    method Syscall(env: Env) returns (exitCode: Option<int>, copied: CopyOut)
      requires Valid()
      modifies this, proc, proc.files, proc.trapframe
      ensures Valid()
      ensures Dispatch(old(State()), env) ==
                if exitCode.Some? then Diverged(exitCode.value) else Returned(State(), copied)
      ensures exitCode.Some? ==> State() == old(State())
    {
      var tf := proc.trapframe;
      var id := ToInt32(tf.a7);
      if id == SYS_EXIT {
        return Some(ToInt32(tf.a0)), NoCopy;
      }
      var ret;
      ret, copied := Switch(env, id);
      tf.a0 := ToWord(ToInt32(ret));
      exitCode := None;
      DispatchKeepsWf(old(State()), env);
    }
  }
}
