/** The `syscall()` dispatcher: reads the call number from `a7` and the
    arguments from `a0`..`a5`, runs the handler, and stores the handler's
    result, narrowed to the `int` variable `ret`, back into `a0`.

    Everything the handlers hand to code outside this layer (the scheduler,
    `exec`, the file layer's I/O, `growproc`, the cycle counter, user memory)
    is answered by an `Env`. */
module Dispatcher {
  import opened Types
  import opened AddrSpace
  import opened Files
  import opened FileSystem
  import opened Introspect
  import opened Argv

  // System-call numbers (the RISC-V Linux numbering the kernel follows).
  const SYS_UNLINKAT: int := 35
  const SYS_LINKAT: int := 37
  const SYS_OPENAT: int := 56
  const SYS_CLOSE: int := 57
  const SYS_READ: int := 63
  const SYS_WRITE: int := 64
  const SYS_FSTAT: int := 80
  const SYS_EXIT: int := 93
  const SYS_SCHED_YIELD: int := 124
  const SYS_SETPRIORITY: int := 140
  const SYS_GETTIMEOFDAY: int := 169
  const SYS_GETPID: int := 172
  const SYS_GETPPID: int := 173
  const SYS_MUNMAP: int := 215
  const SYS_SBRK: int := 214
  const SYS_CLONE: int := 220
  const SYS_EXECVE: int := 221
  const SYS_MMAP: int := 222
  const SYS_WAIT4: int := 260
  const SYS_SPAWN: int := 400
  const SYS_TASK_INFO: int := 410

  const KNOWN_IDS: set<int> := {SYS_UNLINKAT, SYS_LINKAT, SYS_OPENAT, SYS_CLOSE, SYS_READ,
    SYS_WRITE, SYS_FSTAT, SYS_EXIT, SYS_SCHED_YIELD, SYS_SETPRIORITY, SYS_GETTIMEOFDAY,
    SYS_GETPID, SYS_GETPPID, SYS_MUNMAP, SYS_SBRK, SYS_CLONE, SYS_EXECVE, SYS_MMAP,
    SYS_WAIT4, SYS_SPAWN, SYS_TASK_INFO}

  /** The trap-frame registers the dispatcher reads and writes. */
  datatype Regs = Regs(a0: Word, a1: Word, a2: Word, a3: Word, a4: Word, a5: Word, a7: Word)

  /** The state of the current process and of the kernel structures the
      handlers change: `pid`, the parent's pid (if any), the stride `pass`,
      the program break, the address space, the descriptor table, the inode
      cache with the root directory, and the trap frame. */
  datatype KState = KState(pid: nat, parent: Option<nat>, pass: nat, brk: nat,
                           space: Space, files: FdTable, fs: Fs, regs: Regs)

  /** Every directory entry and every open inode-backed file names a cached
      inode, physical page 0 is neither mapped nor free, and every other
      physical page has one owner at most. */
  predicate Wf(s: KState)
  {
    && EntriesCached(s.fs) && OpenInodesCached(s.files, s.fs.inodes)
    && PhysNonNull(s.space) && Owned(s.space)
  }

  /** A request to code outside this layer, with the arguments the handler
      passes it. */
  datatype Request =
    | Yield
    | Fork
    | Exec(path: string, args: seq<string>)
    | Wait(pid: int, status: Word)
    | Spawn(path: string)
    | Open(path: string, omode: Word)
    | InodeWrite(inum: nat, va: Word, len: Word)
    | InodeRead(inum: nat, va: Word, len: Word)

  /** The answers of the world outside this layer: the cycle counter, user
      memory (`fetchaddr` and `copyinstr`), the result of each foreign call,
      and what `growproc(n)` does to the break (`None` when it fails). */
  datatype Env = Env(cycle: Word, fetch: Word -> Word, strAt: Word -> string,
                     foreign: Request -> Word, grow: (nat, int) -> Option<nat>)

  /** A record copied out to user memory. */
  datatype CopyOut = NoCopy | TimeOut(va: Word, t: TimeVal) | StatOut(va: Word, st: StatRec)

  /** A handler's new state, its C return value and what it copied out. */
  datatype Step = Step(s: KState, ret: int, out: CopyOut)

  /** What one trap into the kernel comes to: it returns to the process with
      a new state (result in `a0`) and a record copied out, or `sys_exit`
      never comes back. */
  datatype Outcome = Returned(s: KState, out: CopyOut) | Diverged(code: int)

  /** The `prot` argument: the low 32 bits of `a2`, read as `int`. */
  function ProtArg(w: Word): bv32
  {
    (w % INT_MOD) as bv32
  }

  /** `sys_write(fd, va, len)`: the console returns `len`; a file answers for
      itself. */
  function Write(s: KState, env: Env, fd: int, va: Word, len: Word): Step
  {
    match RouteOf(s.files, fd)
    case Rejected => Step(s, NEG1, NoCopy)
    case Console => Step(s, len, NoCopy)
    case ToInode(i) => Step(s, env.foreign(InodeWrite(i, va, len)), NoCopy)
  }

  /** `sys_read(fd, va, len)`, routed like `sys_write`. */
  function Read(s: KState, env: Env, fd: int, va: Word, len: Word): Step
  {
    match RouteOf(s.files, fd)
    case Rejected => Step(s, NEG1, NoCopy)
    case Console => Step(s, len, NoCopy)
    case ToInode(i) => Step(s, env.foreign(InodeRead(i, va, len)), NoCopy)
  }

  /** `sys_exec(path, uargv)`: a vector too long for `argv` is refused with
      -1 before `exec` is called. */
  function ExecResult(env: Env, path: Word, uargv: Word): Word
  {
    match ArgvOf(env.fetch, env.strAt, uargv)
    case None => NEG1
    case Some(args) => env.foreign(Request.Exec(env.strAt(path), args))
  }

  /** The handler for call number `id`, with the arguments converted to the
      handler's parameter types. */
  function Handle(s: KState, env: Env, id: int): Step
    requires Wf(s)
  {
    var r := s.regs;
    if id == SYS_WRITE then Write(s, env, ToInt32(r.a0), r.a1, r.a2)
    else if id == SYS_READ then Read(s, env, ToInt32(r.a0), r.a1, r.a2)
    else if id == SYS_OPENAT then Step(s, env.foreign(Open(env.strAt(r.a0), r.a1)), NoCopy)
    else if id == SYS_CLOSE then
      var (files, ret) := Close(s.files, ToInt32(r.a0));
      Step(s.(files := files), ret, NoCopy)
    else if id == SYS_SCHED_YIELD then Step(s, 0, NoCopy)
    else if id == SYS_GETTIMEOFDAY then Step(s, 0, TimeOut(r.a0, TimeOfDay(env.cycle)))
    else if id == SYS_GETPID then Step(s, s.pid, NoCopy)
    else if id == SYS_GETPPID then Step(s, Ppid(s.parent), NoCopy)
    else if id == SYS_CLONE then Step(s, env.foreign(Fork), NoCopy)
    else if id == SYS_EXECVE then Step(s, ExecResult(env, r.a0, r.a1), NoCopy)
    else if id == SYS_WAIT4 then Step(s, env.foreign(Wait(ToInt32(r.a0), r.a1)), NoCopy)
    else if id == SYS_FSTAT then
      var (ret, st) := Fstat(s.files, s.fs.inodes, ToInt32(r.a0));
      Step(s, ret, if st.Some? then StatOut(r.a1, st.value) else NoCopy)
    else if id == SYS_LINKAT then
      var (fs, ret) := Linkat(s.fs, env.strAt(r.a1), env.strAt(r.a3));
      Step(s.(fs := fs), ret, NoCopy)
    else if id == SYS_UNLINKAT then
      var (fs, ret) := Unlinkat(s.fs, env.strAt(r.a1));
      Step(s.(fs := fs), ret, NoCopy)
    else if id == SYS_SPAWN then Step(s, env.foreign(Spawn(env.strAt(r.a0))), NoCopy)
    else if id == SYS_SETPRIORITY then
      var (pass, ret) := SetPriority(s.pass, ToInt64(r.a0));
      Step(s.(pass := pass), ret, NoCopy)
    else if id == SYS_SBRK then
      var (brk, ret) := Sbrk(s.brk, env.grow(s.brk, ToInt32(r.a0)));
      Step(s.(brk := brk), ret, NoCopy)
    else if id == SYS_TASK_INFO then Step(s, 0, NoCopy)
    else if id == SYS_MMAP then
      var (space, ret) := Mmap(s.space, r.a0, r.a1, ProtArg(r.a2));
      Step(s.(space := space), ret, NoCopy)
    else if id == SYS_MUNMAP then
      var (space, ret) := Munmap(s.space, r.a0, r.a1);
      Step(s.(space := space), ret, NoCopy)
    else Step(s, -1, NoCopy)
  }

  /** `syscall()`: `id` is `a7` narrowed to `int`; `sys_exit` does not
      return; otherwise `ret` (an `int`) receives the handler's result and is
      stored, sign-extended, into `a0`. */
  function Dispatch(s: KState, env: Env): Outcome
    requires Wf(s)
  {
    var id := ToInt32(s.regs.a7);
    if id == SYS_EXIT then Diverged(ToInt32(s.regs.a0))
    else
      var st := Handle(s, env, id);
      Returned(st.s.(regs := st.s.regs.(a0 := ToWord(ToInt32(st.ret)))), st.out)
  }

  // ---------------------------------------------------------------------
  // Properties of the dispatcher

  /** A call number the switch does not know sets `a0` to -1 and changes
      nothing else. */
  lemma UnknownIdFails(s: KState, env: Env)
    requires Wf(s) && ToInt32(s.regs.a7) !in KNOWN_IDS
    ensures Dispatch(s, env) == Returned(s.(regs := s.regs.(a0 := NEG1)), NoCopy)
  {
  }

  /** `SYS_exit` never reaches the store into `a0`: the trap does not return
      to the process, and the exit code is `a0` narrowed to `int`. */
  lemma ExitDiverges(s: KState, env: Env)
    requires Wf(s)
    ensures Dispatch(s, env).Diverged? <==> ToInt32(s.regs.a7) == SYS_EXIT
    ensures Dispatch(s, env).Diverged? ==> Dispatch(s, env).code == ToInt32(s.regs.a0)
  {
  }

  /** The call number is read as an `int`, so a number above 2^32 is
      dispatched by its low 32 bits: `a7 = 2^32 + 172` is `getpid`. */
  lemma IdIsNarrowed(s: KState, env: Env)
    requires Wf(s) && s.regs.a7 == INT_MOD + SYS_GETPID && s.pid < INT_HALF
    ensures Dispatch(s, env).Returned? && Dispatch(s, env).s.regs.a0 == s.pid
  {
  }

  /** On return, `a0` holds a sign-extended 32-bit value and no other
      register changes; the process's identity never changes. */
  lemma {:induction false} ResultIsNarrowed(s: KState, env: Env)
    requires Wf(s)
    ensures Dispatch(s, env).Returned? ==>
              var s' := Dispatch(s, env).s;
              && s'.regs == s.regs.(a0 := s'.regs.a0)
              && (s'.regs.a0 < INT_HALF || WORD_MOD - INT_HALF <= s'.regs.a0)
              && s'.pid == s.pid && s'.parent == s.parent
  {
    if Dispatch(s, env).Returned? {
      var st := Handle(s, env, ToInt32(s.regs.a7));
      var v := ToInt32(st.ret);
      assert Dispatch(s, env).s.regs.a0 == ToWord(v);
      Int32Survives(v);
      Int32RoundTrip(ToWord(v));
    }
  }

  /** A priority that does not fit in an `int` is accepted by
      `sys_set_priority` but reported back narrowed: 2^31 comes back as
      -2^31. */
  lemma SetPriorityResultNarrowed(s: KState, env: Env)
    requires Wf(s) && s.regs.a7 == SYS_SETPRIORITY && s.regs.a0 == INT_HALF
    ensures Dispatch(s, env).Returned?
    ensures Dispatch(s, env).s.pass == BIG_STRIDE / INT_HALF
    ensures Dispatch(s, env).s.regs.a0 == WORD_MOD - INT_HALF
  {
  }

  /** Each call changes only the parts of the state its handler owns. */
  lemma {:induction false} DispatchFrame(s: KState, env: Env)
    requires Wf(s)
    ensures Dispatch(s, env).Returned? ==>
              var id, s' := ToInt32(s.regs.a7), Dispatch(s, env).s;
              && (id != SYS_MMAP && id != SYS_MUNMAP ==> s'.space == s.space)
              && (id != SYS_CLOSE ==> s'.files == s.files)
              && (id != SYS_LINKAT && id != SYS_UNLINKAT ==> s'.fs == s.fs)
              && (id != SYS_SETPRIORITY ==> s'.pass == s.pass)
              && (id != SYS_SBRK ==> s'.brk == s.brk)
              && (id != SYS_GETTIMEOFDAY && id != SYS_FSTAT ==> Dispatch(s, env).out == NoCopy)
  {
  }

  /** Every call keeps page 0 out of the address space and each physical
      page with one owner at most. */
  lemma {:induction false} DispatchKeepsSpace(s: KState, env: Env)
    requires Wf(s)
    ensures Dispatch(s, env).Returned? ==>
              PhysNonNull(Dispatch(s, env).s.space) && Owned(Dispatch(s, env).s.space)
  {
    DispatchFrame(s, env);
    DispatchAddressSpace(s, env);
    KeepNonNull(s.space, s.regs.a0, s.regs.a1, ProtArg(s.regs.a2));
    KeepOwned(s.space, s.regs.a0, s.regs.a1, ProtArg(s.regs.a2));
  }

  /** Every call keeps directory entries and open files pointing at cached
      inodes. */
  lemma {:induction false} DispatchKeepsFiles(s: KState, env: Env)
    requires Wf(s)
    ensures Dispatch(s, env).Returned? ==>
              var s' := Dispatch(s, env).s;
              EntriesCached(s'.fs) && OpenInodesCached(s'.files, s'.fs.inodes)
  {
    LinkatUnlinkatKeepEntriesCached(s.fs, env.strAt(s.regs.a1), env.strAt(s.regs.a3));
    var id := ToInt32(s.regs.a7);
    if id == SYS_CLOSE {
      var fd := ToInt32(s.regs.a0);
      CloseEffect(s.files, fd);
    } else if id == SYS_LINKAT {
      LinkatEffect(s.fs, env.strAt(s.regs.a1), env.strAt(s.regs.a3));
    } else if id == SYS_UNLINKAT {
      UnlinkatEffect(s.fs, env.strAt(s.regs.a1));
    }
  }

  /** Every call keeps directory entries and open files pointing at cached
      inodes, page 0 out of the address space, and each physical page with
      one owner at most. */
  lemma DispatchKeepsWf(s: KState, env: Env)
    requires Wf(s)
    ensures Dispatch(s, env).Returned? ==> Wf(Dispatch(s, env).s)
  {
    DispatchKeepsSpace(s, env);
    DispatchKeepsFiles(s, env);
  }

  /** A descriptor that fails the guard (out of range or a null slot) makes
      `write`, `read`, `close` and `fstat` return -1 and change nothing but
      `a0`. */
  lemma {:induction false} RejectedFdFails(s: KState, env: Env)
    requires Wf(s)
    requires ToInt32(s.regs.a7) in {SYS_WRITE, SYS_READ, SYS_CLOSE, SYS_FSTAT}
    requires FileAt(s.files, ToInt32(s.regs.a0)).None?
    ensures Dispatch(s, env) == Returned(s.(regs := s.regs.(a0 := NEG1)), NoCopy)
  {
    Int32Survives(-1);
  }

  /** A write to the console reports the whole length `len` (narrowed to
      `int`), although at most MAX_STR_LEN bytes are copied in and printed. */
  lemma ConsoleWriteReportsLength(s: KState, env: Env)
    requires Wf(s) && ToInt32(s.regs.a7) == SYS_WRITE
    requires RouteOf(s.files, ToInt32(s.regs.a0)) == Console
    ensures Dispatch(s, env) == Returned(s.(regs := s.regs.(a0 := ToWord(ToInt32(s.regs.a2)))), NoCopy)
  {
  }

  /** `sys_mmap` and `sys_munmap` reach the address-space model with
      `start`, `len` and the low 32 bits of `prot`, and their 0/-1 results
      reach `a0` unchanged. */
  lemma {:induction false} DispatchAddressSpace(s: KState, env: Env)
    requires Wf(s)
    ensures ToInt32(s.regs.a7) == SYS_MMAP ==>
              var m := Mmap(s.space, s.regs.a0, s.regs.a1, ProtArg(s.regs.a2));
              Dispatch(s, env) == Returned(s.(space := m.0, regs := s.regs.(a0 := m.1)), NoCopy)
    ensures ToInt32(s.regs.a7) == SYS_MUNMAP ==>
              var m := Munmap(s.space, s.regs.a0, s.regs.a1);
              Dispatch(s, env) == Returned(s.(space := m.0, regs := s.regs.(a0 := m.1)), NoCopy)
  {
    var id := ToInt32(s.regs.a7);
    if id == SYS_MMAP {
      var m := Mmap(s.space, s.regs.a0, s.regs.a1, ProtArg(s.regs.a2));
      assert m.1 == 0 || m.1 == NEG1;
      Int32RoundTrip(m.1);
    } else if id == SYS_MUNMAP {
      var m := Munmap(s.space, s.regs.a0, s.regs.a1);
      assert m.1 == 0 || m.1 == NEG1;
      Int32RoundTrip(m.1);
    }
  }

  /** `sys_exec` with an argument vector that fills all MAX_ARG_NUM slots of
      `argv` returns -1 whatever `exec` would have done. */
  lemma ExecRefusesLongVector(s: KState, env: Env)
    requires Wf(s) && ToInt32(s.regs.a7) == SYS_EXECVE
    requires forall j :: 0 <= j < MAX_ARG_NUM ==> Continues(env.fetch, s.regs.a1, j)
    ensures Dispatch(s, env) == Returned(s.(regs := s.regs.(a0 := NEG1)), NoCopy)
  {
    ArgvOfCorrect(env.fetch, env.strAt, s.regs.a1);
    Int32RoundTrip(NEG1);
  }

  /** `sys_gettimeofday` returns 0 and copies out the time of day of the
      cycle counter to the address in `a0`. */
  lemma TimeOfDayCopiedOut(s: KState, env: Env)
    requires Wf(s) && ToInt32(s.regs.a7) == SYS_GETTIMEOFDAY
    ensures Dispatch(s, env) == Returned(s.(regs := s.regs.(a0 := 0)), TimeOut(s.regs.a0, TimeOfDay(env.cycle)))
  {
  }
}
