# The uCore system-call layer, in Dafny

This project models `os/syscall.c` of the THU-OS teaching kernel (uCore for
RISC-V). That file is the kernel's system-call layer. `syscall()` reads the
call number from the trap frame's `a7` and the arguments from `a0`..`a5`. It
runs the handler for that number and stores the result, narrowed to the
`int` variable `ret`, back into `a0`. The model covers:

- the address-space mapper `sys_mmap` / `sys_munmap`, which walks a range
  page by page, installs or clears page-table entries, draws pages from and
  returns them to the free list, and keeps the `max_page` high-water mark;
- the descriptor guard shared by `sys_write`, `sys_read`, `sys_close` and
  `sys_fstat`, the slot `sys_close` clears, and the record `sys_fstat`
  copies out;
- the link-count bookkeeping of `sys_linkat` / `sys_unlinkat` on the single
  root directory;
- the small computations: `sys_gettimeofday`'s conversion of the cycle
  counter, `sys_getppid`'s `IDLE_PID` sentinel, the stride that
  `sys_set_priority` stores in `pass`, and `sys_sbrk`'s result;
- the argument-vector walk of `sys_exec`;
- the dispatcher itself, with the `int` narrowing of the call number and of
  the result.

The model is written in two layers:

- `types.dfy`, `addrspace.dfy`, `files.dfy`, `filesystem.dfy`,
  `introspect.dfy`, `argv.dfy` and `dispatch.dfy` are pure: each handler is
  a function of an abstract process state, and the lemmas state what the
  handler does.
- `kernel.dfy` is the kernel as it runs. The classes `TrapFrame`, `Proc` and
  `Kernel` hold the registers, the page table, the descriptor array, `pass`,
  `max_page`, the free list, the inode cache and the root directory. The
  handlers update these in place, with the page loops written as `while`
  loops. Each method is proved to leave exactly the state that the
  corresponding pure function describes.

Code outside this file is represented as follows:

- The scheduler, `exec`, `fork`, `wait`, `spawn`, `fileopen`, the file
  layer's reads and writes, and `growproc` are answered by an `Env` value.
  So are the cycle counter and user memory (`fetchaddr`, `copyinstr`).
- `kalloc`, `kfree`, `mappages`, `walk`, `useraddr`, `dirlink` and
  `dirunlink` get small bodies:
  - `kalloc` pops the head of the free list and returns 0 when the list is
    empty.
  - `kfree` pushes a page onto the free list.
  - `mappages` refuses a page whose entry is already valid.
  - `useraddr` is non-zero only for a valid user page backed by a non-zero
    physical page.
  - `dirlink` refuses a name that is already present.

The model assumes the header constants of the uCore tutorial kernel, because
the headers are not part of this model:

- `PAGE_SIZE` = 4096, `FD_BUFFER_SIZE` = 16, `MAX_STR_LEN` = 200,
  `MAX_ARG_NUM` = 32, `BIGSTRIDE` = 65536, `IDLE_PID` = 0,
  `CPU_FREQ` = 12500000.
- `PTE_V` = 0x01, `PTE_U` = 0x10.
- The RISC-V Linux system-call numbers (write 64, read 63, openat 56,
  close 57, exit 93, sched_yield 124, gettimeofday 169, getpid 172,
  getppid 173, clone 220, execve 221, wait4 260, fstat 80, linkat 37,
  unlinkat 35, setpriority 140, sbrk 214, mmap 222, munmap 215), plus
  spawn 400 and task_info 410.

## Model

| member | source | states |
|---|---|---|
| Types.ToInt32 | os/syscall.c:317 | narrowing to `int` gives a value in [-2^31, 2^31) that is congruent to the input modulo 2^32 |
| Types.ToInt64 | os/syscall.c:156 | reading a register as `long long` gives a value in [-2^63, 2^63) that is congruent to it modulo 2^64 |
| Types.Int32RoundTrip | os/syscall.c:317-390 | a word survives `ret = w; a0 = ret` exactly when it is the sign extension of its low 32 bits |
| Types.Int32Survives | os/syscall.c:390 | every `int` value, -1 included, is read back unchanged after it is stored sign-extended into `a0` |
| AddrSpace.UserAddr | os/syscall.c:190 | a non-zero `useraddr` means the page has a valid, user-accessible entry |
| AddrSpace.MapLoop | os/syscall.c:189-193 | the mmap loop: for each page, stop with -1 if `useraddr` finds it mapped, if `kalloc` returns 0 or if `mappages` refuses, else install the next free page; specified by `MapLoopRun`, `MapLoopTake` and `MapLoopTable` |
| AddrSpace.MapLoopRun | os/syscall.c:189-193 | the mmap loop completes all PageCount pages, or stops early at a page that is already valid or when the free list runs out |
| AddrSpace.MapLoopTake | os/syscall.c:190-192 | the mmap loop takes one free page per page it maps, plus exactly one more, which it leaks, when it stops at a page that `useraddr` reports as 0 while `mappages` refuses it and the free list was not empty |
| AddrSpace.MapLoopTable | os/syscall.c:189-193 | the k-th page the mmap loop maps gets the k-th free page with `perm \| PTE_V` and had no valid entry before; every other entry is unchanged |
| AddrSpace.Mmap | os/syscall.c:179-196 | `sys_mmap`: the argument checks, the loop and the `max_page` update; specified by `MmapArgumentChecks`, `MmapSucceedsIff`, `MmapMapsRange`, `MmapNoRollback` and `MmapOverlapFails` |
| AddrSpace.UnmapLoop | os/syscall.c:205-211 | the munmap loop: for each page, stop with -1 without a valid user entry, else free its page and clear the entry; specified by `UnmapLoopRun`, `UnmapLoopStack`, `UnmapLoopTable` and `UnmapLoopFreed` |
| AddrSpace.UnmapLoopRun | os/syscall.c:205-211 | the munmap loop clears all pages or stops at the first page without a valid user entry |
| AddrSpace.UnmapLoopStack | os/syscall.c:207-209 | the munmap loop pushes one page onto the free list per cleared page and leaves the old list underneath |
| AddrSpace.UnmapLoopTable | os/syscall.c:205-211 | every page the munmap loop passes had a valid user entry and is gone afterwards; every other entry is unchanged |
| AddrSpace.UnmapLoopFreed | os/syscall.c:207-209 | the physical pages of the cleared entries head the new free list in reverse order, the last page cleared first |
| AddrSpace.Munmap | os/syscall.c:198-215 | `sys_munmap`: the argument checks, the loop and the conditional `max_page` reset; specified by `MunmapArgumentChecks`, `MunmapSucceedsIff`, `MunmapClearsRange` and `MunmapNoRollback` |
| AddrSpace.MmapArgumentChecks | os/syscall.c:181-184 | `len == 0` returns 0 and changes nothing; a misaligned `start`, or a `prot` with bits outside 0..2 or with none of them set, returns -1 and changes nothing |
| AddrSpace.ProtOkIsRwxCombination | os/syscall.c:183-184 | the accepted `prot` values are exactly 1..7 |
| AddrSpace.MmapSucceedsIff | os/syscall.c:181-195 | mmap returns 0 or -1; it returns 0 iff `len == 0`, or the arguments pass the checks, no page of the range is valid and enough pages are free |
| AddrSpace.MmapMapsRange | os/syscall.c:185-195 | a successful mmap maps every page of the range, partial last page included, to a fresh page with permission `(prot << 1) \| PTE_U \| PTE_V`; those pages were unmapped before; nothing else changes; `max_page` becomes `max(old, PGROUNDUP(end)/PAGE_SIZE)` |
| AddrSpace.MmapNoRollback | os/syscall.c:189-193 | a failed mmap leaves the pages it mapped before the failure mapped, changes no other entry, and keeps `max_page`; the free list loses the pages it mapped, plus the leaked page when `kalloc` succeeded but `mappages` refused |
| AddrSpace.MmapOverlapFails | os/syscall.c:190 | an mmap whose range reaches an already valid page fails and leaves every valid entry as it was |
| AddrSpace.MmapWrappedLengthMapsNothing | os/syscall.c:186-189 | when `start + len` wraps past 2^64, mmap returns 0 without mapping anything |
| AddrSpace.MunmapArgumentChecks | os/syscall.c:200-201 | `len == 0` returns 0 and changes nothing; a misaligned `start` returns -1 and changes nothing |
| AddrSpace.MunmapSucceedsIff | os/syscall.c:200-214 | munmap returns 0 or -1; it returns 0 iff `len == 0`, or `start` is aligned and every page of the range has a valid user entry |
| AddrSpace.MunmapClearsRange | os/syscall.c:202-214 | a successful munmap clears every page of the range, pushes their physical pages onto the free list in reverse order, changes no other entry, and resets `max_page` to `start/PAGE_SIZE` iff it equalled `PGROUNDUP(end)/PAGE_SIZE` |
| AddrSpace.MunmapNoRollback | os/syscall.c:205-211 | a failed munmap has already cleared the pages before the failing one and pushed their physical pages onto the free list in reverse order, stops at a page without a valid user entry, and keeps `max_page` |
| AddrSpace.MmapThenMunmap | os/syscall.c:179-215 | unmapping a range that was just mapped succeeds, restores the page table outside the range, gives back the pages the map took in reverse order and leaves the rest of the free list as it was, returns `max_page` to the start page when the map raised it, and a second identical munmap fails |
| AddrSpace.MmapKeepsHighWater | os/syscall.c:194 | a successful mmap keeps `max_page` above every user page |
| AddrSpace.MunmapKeepsHighWater | os/syscall.c:212-213 | munmap, successful or not, keeps `max_page` above every user page |
| AddrSpace.MmapFailureBreaksHighWater | os/syscall.c:189-194 | example: with one free page, mapping two pages maps page 0, fails, and leaves `max_page` at 0, below the mapped page |
| AddrSpace.MapLoopKeepsNonNull | os/syscall.c:191-192 | the mmap loop never installs physical page 0, nor puts it on the free list |
| AddrSpace.UnmapLoopKeepsNonNull | os/syscall.c:207-210 | the munmap loop never puts physical page 0 on the free list or in the table |
| AddrSpace.KeepNonNull | os/syscall.c:179-215 | mmap and munmap keep page 0 out of the table and the free list, so a 0 from `kalloc` always means the list is empty |
| AddrSpace.PopKeepsOwned | os/syscall.c:191 | when every physical page has one owner at most, the page `kalloc` pops is not still on the free list and backs no entry, and the rest keeps the invariant |
| AddrSpace.ReleaseKeepsOwned | os/syscall.c:208-210 | handing a cleared entry's page to `kfree` keeps every physical page with one owner at most |
| AddrSpace.MapLoopKeepsOwned | os/syscall.c:189-193 | the mmap loop, leak path included, keeps every physical page with one owner at most: no duplicate on the free list, no free page mapped, no page mapped twice |
| AddrSpace.UnmapLoopKeepsOwned | os/syscall.c:205-211 | the munmap loop keeps every physical page with one owner at most |
| AddrSpace.KeepOwned | os/syscall.c:179-215 | mmap and munmap, successful or not, keep every physical page with one owner at most |
| Files.FileAt | os/syscall.c:35-37 | the descriptor guard and the null-slot check, with the in-range bound; specified by `FileAtIff` |
| Files.Close | os/syscall.c:225-238 | `sys_close`: -1 for a rejected descriptor, else the slot is nulled and 0 returned; specified by `CloseEffect` and `CloseTwiceFails` |
| Files.Fstat | os/syscall.c:240-262 | `sys_fstat`: -1 for a rejected or console descriptor, else 0 and the inode's record; specified by `FstatReports` and `StatRoundTrip` |
| Files.FdGuardOffByOne | os/syscall.c:35 | the guard as written accepts `fd == FD_BUFFER_SIZE`, one past the table |
| Files.FdGuardsDifferOnlyAtCapacity | os/syscall.c:35 | the guard as written and the in-range guard disagree only at `fd == FD_BUFFER_SIZE` |
| Files.FileAtIff | os/syscall.c:35-42 | a descriptor passes the guard and the null check iff it is in range and its slot is open; it then yields that slot's file |
| Files.CloseEffect | os/syscall.c:225-238 | close returns 0 iff the descriptor is in range and open; on failure it returns -1 and leaves the table alone; on success it nulls that slot and no other |
| Files.CloseTwiceFails | os/syscall.c:225-238 | closing the same descriptor a second time returns -1 |
| Files.ModeDistinguishesTypes | os/syscall.c:258 | the mode has the directory bit iff the inode is a directory, and the regular bit iff it is a regular file |
| Files.StatRoundTrip | os/syscall.c:256-259 | the copied-out record decodes back to the inode's device, number, type and link count |
| Files.FstatReports | os/syscall.c:240-262 | fstat returns 0 or -1; it returns 0 iff the descriptor is open on an inode; the record then carries that inode's number, type and link count |
| FileSystem.Linkat | os/syscall.c:264-282 | `sys_linkat`: look up `oldname` in the root, raise its `nlink`, call `dirlink` and ignore its result; specified by `LinkatEffect` |
| FileSystem.Unlinkat | os/syscall.c:284-300 | `sys_unlinkat`: look up `name` in the root, lower its `nlink` and remove the entry; specified by `UnlinkatEffect` |
| FileSystem.LinkatEffect | os/syscall.c:264-282 | linkat succeeds iff the root exists and holds `oldname`; a failure changes nothing; on success only that inode's `nlink` changes, by +1; a new `newname` then resolves to the same inode; an existing `newname` is left as it was |
| FileSystem.UnlinkatEffect | os/syscall.c:284-300 | unlinkat succeeds iff the root exists and holds `name`; a failure changes nothing; on success `name` is removed and that inode's `nlink` drops by one while its `dev` and `type` stay; every other inode is unchanged |
| FileSystem.LinkatUnlinkatKeepEntriesCached | os/syscall.c:264-300 | both calls keep every directory entry pointing at a cached inode |
| FileSystem.LinkatKeepsLinksCounted | os/syscall.c:277-279 | linking to a fresh name keeps each regular file's `nlink` equal to its number of names |
| FileSystem.UnlinkatKeepsLinksCounted | os/syscall.c:295-297 | unlinking keeps each regular file's `nlink` equal to its number of names |
| FileSystem.LinkatOntoExistingNameBreaksCount | os/syscall.c:277-279 | example: linking onto an existing name reports success and raises `nlink` with no new name, because `dirlink`'s refusal is ignored |
| Introspect.TimeOfDay | os/syscall.c:85-97 | the `TimeVal` computed from the cycle count; specified by `TimeOfDayFits`, `TimeOfDayIsMicroseconds` and `TimeOfDayMonotone` |
| Introspect.TimeOfDayFits | os/syscall.c:93-94 | the microsecond product cannot overflow uint64, and `usec < 1000000` |
| Introspect.TimeOfDayIsMicroseconds | os/syscall.c:93-94 | `sec * 1000000 + usec` is the cycle count converted to microseconds, rounded down |
| Introspect.TimeOfDayMonotone | os/syscall.c:93-94 | a later cycle count never gives an earlier (sec, usec) |
| Introspect.Ppid | os/syscall.c:104-108 | `sys_getppid`: the parent's pid or `IDLE_PID`; specified by `PpidSentinel` |
| Introspect.PpidSentinel | os/syscall.c:107 | the result is `IDLE_PID` iff there is no parent or the parent is the idle process; otherwise it is the parent's pid |
| Introspect.SetPriority | os/syscall.c:156-162 | `sys_set_priority`: -1 for `prio <= 1`, else the new stride and `prio` returned; specified by `SetPriorityEffect` and `StrideAntitone` |
| Introspect.SetPriorityEffect | os/syscall.c:159-161 | `prio <= 1` returns -1 and keeps `pass`; otherwise it returns `prio`, and `pass` becomes the largest stride with `stride * prio <= BIGSTRIDE` |
| Introspect.StrideAntitone | os/syscall.c:160 | a higher priority never gets a larger stride, and every accepted priority gets at most BIGSTRIDE/2 |
| Introspect.Sbrk | os/syscall.c:302-310 | `sys_sbrk`: the old break when `growproc` succeeds, else -1; specified by `SbrkResult` |
| Introspect.SbrkResult | os/syscall.c:302-310 | sbrk returns the old `program_brk` iff `growproc` succeeds, and -1 otherwise; on failure the break is unchanged |
| Argv.ArgvOverflowAsWritten | os/syscall.c:131-137 | example: with pointers that never run out, the unbounded loop passes its test at step MAX_ARG_NUM, so it writes past `strpool` and `argv` |
| Argv.WalkSome | os/syscall.c:131-136 | a bounded walk that yields a list yields the strings up to the first null pointer, which comes before MAX_ARG_NUM |
| Argv.WalkNone | os/syscall.c:131-136 | the bounded walk gives up iff every pointer up to MAX_ARG_NUM is non-null |
| Argv.ArgvOf | os/syscall.c:126-137 | the argument vector `sys_exec` collects, with the MAX_ARG_NUM bound the source lacks; specified by `ArgvOfCorrect` and `ArgvOfAgreesAsWritten` |
| Argv.ArgvOfCorrect | os/syscall.c:131-137 | the vector is refused iff its first MAX_ARG_NUM pointers are all non-null; otherwise the arguments are the strings before the first null pointer, in order |
| Argv.ArgvOfAgreesAsWritten | os/syscall.c:131-137 | wherever the loop as written stays inside its arrays, the bounded walk accepts and yields the same arguments; wherever it overflows, the bounded walk refuses |
| Argv.CollectArgv | os/syscall.c:126-137 | the bounded loop fills `argv` with the arguments and a terminating null exactly as `ArgvOf` says, or fails exactly when `ArgvOf` refuses |
| Dispatcher.Write | os/syscall.c:33-51 | `sys_write`: -1 for a rejected descriptor, `console_write` for the console, `inodewrite` for an inode; specified by `RejectedFdFails` and `ConsoleWriteReportsLength` |
| Dispatcher.Read | os/syscall.c:53-71 | `sys_read`: -1 for a rejected descriptor, `console_read` for the console, `inoderead` for an inode; specified by `RejectedFdFails` |
| Dispatcher.ExecResult | os/syscall.c:122-138 | `sys_exec`: -1 when the vector is refused, else `exec`'s result; specified by `ExecRefusesLongVector` |
| Dispatcher.Handle | os/syscall.c:321-388 | the `switch` on the call number, each case calling its handler; specified by `DispatchFrame`, `DispatchAddressSpace`, `UnknownIdFails` and `TimeOfDayCopiedOut` |
| Dispatcher.Dispatch | os/syscall.c:314-392 | one trap: narrow `a7`, run the handler, store the `int` result sign-extended in `a0`; specified by `ExitDiverges`, `IdIsNarrowed`, `ResultIsNarrowed` and `DispatchKeepsWf` |
| Dispatcher.UnknownIdFails | os/syscall.c:386-390 | an unknown call number sets `a0` to -1 and changes nothing else |
| Dispatcher.ExitDiverges | os/syscall.c:335-336 | the trap does not return iff the call is `SYS_exit`; the exit code is `a0` narrowed to `int` |
| Dispatcher.IdIsNarrowed | os/syscall.c:317 | the call number is `a7` narrowed to `int`, so `2^32 + 172` is dispatched as `getpid` |
| Dispatcher.ResultIsNarrowed | os/syscall.c:317-390 | on return, only `a0` among the registers changes, it holds a sign-extended 32-bit value, and the process identity is unchanged |
| Dispatcher.SetPriorityResultNarrowed | os/syscall.c:371-372 | example: priority 2^31 is accepted, but it is reported back as -2^31 |
| Dispatcher.DispatchFrame | os/syscall.c:322-389 | each call changes only the state syscall.c itself writes, the calls forwarded to code outside this file having no modelled effect on state: the address space only for mmap/munmap, descriptors only for close, and so on; in the model, only gettimeofday and fstat copy anything out |
| Dispatcher.DispatchKeepsSpace | os/syscall.c:322-390 | every call keeps page 0 out of the address space and every physical page with one owner at most |
| Dispatcher.DispatchKeepsFiles | os/syscall.c:322-390 | every call keeps directory entries and open files pointing at cached inodes |
| Dispatcher.DispatchKeepsWf | os/syscall.c:322-390 | every call keeps directory entries and open files pointing at cached inodes, page 0 out of the address space, and every physical page with one owner at most |
| Dispatcher.RejectedFdFails | os/syscall.c:35-42 | for a descriptor that fails the guard, write, read, close and fstat return -1 and change nothing but `a0` |
| Dispatcher.ConsoleWriteReportsLength | os/syscall.c:8-18 | a console write reports the full `len`, narrowed to `int`, however many bytes were printed |
| Dispatcher.DispatchAddressSpace | os/syscall.c:380-385 | mmap and munmap receive `start`, `len` and the low 32 bits of `prot`, and their 0/-1 result reaches `a0` unchanged |
| Dispatcher.ExecRefusesLongVector | os/syscall.c:122-138 | an argument vector that fills every `argv` slot makes exec return -1, whatever `exec` would do |
| Dispatcher.TimeOfDayCopiedOut | os/syscall.c:85-97 | gettimeofday returns 0 and copies the time of day of the cycle counter to the address in `a0` |
| Kernel.Kernel.Kalloc | os/syscall.c:191 | `kalloc` returns the head of the free list and removes it, or returns 0 when the list is empty; the page it returns is neither still free nor mapped, and the ownership invariant still holds |
| Kernel.Kernel.Kfree | os/syscall.c:209 | `kfree` pushes the page onto the free list |
| Kernel.Kernel.Mappages | os/syscall.c:192 | `mappages` installs one valid entry, and refuses with -1, changing nothing, a page that is already valid |
| Kernel.Kernel.WalkPte | os/syscall.c:206 | `walk(pagetable, va, 0)` returns the entry of `va`'s page, or none; used by `SysMunmap`, whose contract covers it |
| Kernel.Kernel.ClearPte | os/syscall.c:210 | `*pte = 0` removes exactly that page's entry |
| Kernel.Kernel.SysMmap | os/syscall.c:179-196 | the in-place loop leaves exactly the address space `Mmap` describes and returns its result; nothing else changes |
| Kernel.Kernel.SysMunmap | os/syscall.c:198-215 | the in-place loop leaves exactly the address space `Munmap` describes and returns its result; nothing else changes |
| Kernel.Kernel.SysWrite | os/syscall.c:33-51 | returns the result `Dispatcher.Write` gives: -1 for a rejected descriptor, `len` for the console, the file layer's answer for an inode |
| Kernel.Kernel.SysRead | os/syscall.c:53-71 | returns the result `Dispatcher.Read` gives |
| Kernel.Kernel.SysClose | os/syscall.c:225-238 | leaves exactly the descriptor table `Close` describes and returns its result |
| Kernel.Kernel.SysFstat | os/syscall.c:240-262 | returns the result and copies out the record `Fstat` gives |
| Kernel.Kernel.Dirlink | os/syscall.c:279 | `dirlink` adds the entry as `FileSystem.DirLink` describes, refusing a name already present |
| Kernel.Kernel.Dirunlink | os/syscall.c:297 | `dirunlink` removes exactly that name from the root directory |
| Kernel.Kernel.SysLinkat | os/syscall.c:264-282 | leaves exactly the inode cache and directory `Linkat` describes and returns its result |
| Kernel.Kernel.SysUnlinkat | os/syscall.c:284-300 | leaves exactly the inode cache and directory `Unlinkat` describes and returns its result |
| Kernel.Kernel.SysSetPriority | os/syscall.c:156-162 | leaves exactly the `pass` that `SetPriority` describes and returns its result |
| Kernel.Kernel.SysSbrk | os/syscall.c:302-310 | leaves exactly the break `Sbrk` describes and returns its result |
| Kernel.Kernel.SysExec | os/syscall.c:122-138 | hands `exec` exactly the arguments `ArgvOf` gives, or returns -1 when it refuses |
| Kernel.Kernel.Switch | os/syscall.c:322-389 | runs the handler for the call number, leaving exactly the state, result and copy-out of `Handle` |
| Kernel.Kernel.Syscall | os/syscall.c:314-392 | one trap leaves exactly the outcome `Dispatch` gives: the new state with `a0` set, or no change and the exit code for `SYS_exit` |

## Left out

- Console device I/O is not modelled: `console_putchar`, `consgetc` and the polling loop (os/syscall.c:14-16, 25-28). A console write or read returns `len`; the characters themselves are not modelled.
- `console_read` stores `len` characters into the `MAX_STR_LEN`-byte buffer `str` with no bound (os/syscall.c:23-28), so a read longer than 200 overruns the stack buffer. This device path is flagged here and not modelled.
- The byte-level work of `copyinstr`, `copyout` and `useraddr` is not modelled. User strings and words come from `Env.strAt` and `Env.fetch`, and copied-out records are returned as `CopyOut` values. The string truncation at `MAX_STR_LEN` is left to `strAt`.
- `fetchaddr` (os/syscall.c:116-120) dereferences `useraddr`'s result even when that result is 0. `Env.fetch` is total, so the model does not capture that fault.
- `fork`, `exec`, `wait`, `spawn`, `exit`, `yield`, `fileopen`, `fileclose`, `inodewrite`, `inoderead` and `growproc` are code outside this file. Their results come from `Env`, and the only state effect modelled is `growproc`'s new break.
- `sys_task_info` (os/syscall.c:164-177) is modelled as returning 0. The record it copies out (a constant status, the syscall counters and the elapsed time from `get_time`) is not modelled.
- `get_cycle` is the parameter `Env.cycle`.
- `tracef`, `errorf` and `debugf` logging is not modelled.
- Inode reference counts are not modelled. `dirlookup` and `iput` take and drop a reference to the looked-up inode (os/syscall.c:274, 280, 292, 298). The reference `root_dir()` returns (os/syscall.c:272, 290) is never dropped. The model keeps the inode cache as a map and has no reference counts, so this leak is not captured.
- The static `strpool` of `sys_exec` (os/syscall.c:128) is shared between CPUs. The model has a single process and no concurrency.
- The `panic` on an unknown file type (os/syscall.c:49, 69) cannot happen in the model: `File` is a closed datatype with two kinds.
- `walk`'s panic above MAXVA, `mappages`' failure to allocate a page-table page, and `kfree`'s panic on a bad address are not modelled. `Kernel.Kernel.Kfree` requires a non-zero page instead.
- Intermediate page-table pages are not modelled. The page table is a map from virtual page number to leaf entry. On success, `mappages` (os/syscall.c:192) calls `walk(..., 1)`, which can take page-table pages from the same `kalloc` free list, and `sys_munmap` (os/syscall.c:205-211) never gives them back. The free-list statements of `AddrSpace.MapLoopTable`, `AddrSpace.MapLoopTake`, `AddrSpace.MmapSucceedsIff`, `AddrSpace.MmapMapsRange`, `AddrSpace.MmapNoRollback` and `AddrSpace.MmapThenMunmap` therefore count leaf pages only: in the kernel, "enough pages are free" also has to cover the page-table pages, and the list after a map-then-unmap round trip can be shorter by those pages.
- `Files.Fstat`: the source reads `f->ip` without checking the file type, so `fstat` on a console descriptor reads an inode pointer the console file does not have. The model returns -1 there.
- `Argv.ArgvOf`: the corrected walk refuses an over-long vector with -1. The source has no bound, so what it evidently meant to do at the limit is not known. Refusing is the choice made here.
- `Introspect.SbrkResult` is stated for a break below `2^64 - 1`, where the old break cannot be mistaken for -1.
- `AddrSpace.MmapSucceedsIff`, `AddrSpace.MmapMapsRange`, `AddrSpace.MmapNoRollback`, `AddrSpace.MmapOverlapFails` and `AddrSpace.MmapKeepsHighWater` are stated for ranges that end at least one page below 2^64, where the uint64 page steps do not wrap. A wrapping range is covered by `AddrSpace.MmapWrappedLengthMapsNothing`.
- `AddrSpace.MunmapSucceedsIff`, `AddrSpace.MunmapClearsRange`, `AddrSpace.MunmapNoRollback`, `AddrSpace.MunmapKeepsHighWater` and `AddrSpace.MmapThenMunmap` are stated for the same non-wrapping ranges.
- `Dispatcher.UnknownIdFails`, `Dispatcher.DispatchFrame` and the other dispatcher lemmas assume `Wf`. Under `Wf`, directory entries and open files name cached inodes, page 0 is neither mapped nor free, and every other physical page is on the free list once, or backs one entry, or neither. The kernel keeps this invariant, and `Dispatcher.DispatchKeepsWf` proves that every call preserves it.

## Findings

| source | as written | input that shows it | evidently intended | confidence | as-written member | corrected member |
|---|---|---|---|---|---|---|
| os/syscall.c:35 | the guard `fd < 0 \|\| fd > FD_BUFFER_SIZE` (repeated at lines 55, 227 and 243) lets `fd == FD_BUFFER_SIZE` through to `p->files[fd]`, one slot past the table | `fd = 16` | reject every `fd >= FD_BUFFER_SIZE` | not executed | Files.FdGuardOffByOne | Files.FileAtIff |
| os/syscall.c:131-136 | the `argv` loop never compares `i` with `MAX_ARG_NUM`, so a vector of 32 or more non-null pointers writes `argv[32]`, and with 33 or more also `strpool[32]` | `uargv = 8` where every word is non-zero | stop within `MAX_ARG_NUM` slots, leaving room for the terminating null | not executed | Argv.ArgvOverflowAsWritten | Argv.ArgvOfAgreesAsWritten |

The rest of the model uses the corrected versions. `Files.FileAt` checks
`0 <= fd < FD_BUFFER_SIZE`, and the kernel's handlers use the same bound.
`Argv.ArgvOf` and `Kernel.Kernel.SysExec` use the bounded walk. Several
behaviours of the source are modelled as written, and a lemma shows each one:

- a failed `sys_mmap` is not rolled back (`AddrSpace.MmapFailureBreaksHighWater`);
- a wrapping `len` maps nothing and returns 0 (`AddrSpace.MmapWrappedLengthMapsNothing`);
- `sys_linkat` onto an existing name raises `nlink` (`FileSystem.LinkatOntoExistingNameBreaksCount`);
- `console_write` reports the full `len` (`Dispatcher.ConsoleWriteReportsLength`).
