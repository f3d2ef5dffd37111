/** The address-space mapper: `sys_mmap` and `sys_munmap` as functions of the
    current process's page table, the kernel's free-page list and the
    process's `max_page` high-water mark. */
module AddrSpace {
  import opened Types

  /** RISC-V page-table-entry flag bits (valid, user-accessible). */
  const PTE_V: bv32 := 0x01
  const PTE_U: bv32 := 0x10

  /** A page-table entry: the physical page it points to and its flag bits. */
  datatype Pte = Pte(pa: nat, flags: bv32)

  /** The page table (virtual page number to entry; a missing key is a zero
      entry), the kernel's free-page list in `kalloc` order, and `max_page`. */
  datatype Space = Space(pt: map<nat, Pte>, free: seq<nat>, maxPage: nat)

  /** What the page loop of `sys_mmap` or `sys_munmap` leaves behind: the
      page table, the free list, how many pages it completed, and whether it
      ran to the end of the range. */
  datatype Run = Run(pt: map<nat, Pte>, free: seq<nat>, pages: nat, ok: bool)

  /** PGALIGNED */
  predicate Aligned(a: int) { a % PAGE_SIZE == 0 }

  /** PGROUNDUP in uint64 arithmetic (the sum wraps near 2^64). */
  function PgRoundUp(a: Word): Word
  {
    ((a + PAGE_SIZE - 1) % WORD_MOD) / PAGE_SIZE * PAGE_SIZE
  }

  predicate ValidPage(pt: map<nat, Pte>, vpn: nat)
  {
    vpn in pt && pt[vpn].flags & PTE_V != 0
  }

  predicate UserPage(pt: map<nat, Pte>, vpn: nat)
  {
    ValidPage(pt, vpn) && pt[vpn].flags & PTE_U != 0
  }

  /** `useraddr`: the physical address behind `va` when its page is valid,
      user-accessible and backed by a non-zero page; 0 otherwise. */
  function UserAddr(pt: map<nat, Pte>, va: Word): (r: nat)
    ensures r != 0 ==> UserPage(pt, va / PAGE_SIZE)
  {
    var vpn := va / PAGE_SIZE;
    if UserPage(pt, vpn) && pt[vpn].pa != 0 then pt[vpn].pa + va % PAGE_SIZE else 0
  }

  /** `prot` uses only the read/write/execute bits and at least one of them. */
  predicate ProtOk(prot: bv32)
  {
    prot & !7 == 0 && prot & 7 != 0
  }

  /** The entry permission `sys_mmap` derives from `prot`. */
  function Perm(prot: bv32): bv32
  {
    (prot << 1) | PTE_U
  }

  /** Every entry `sys_mmap` installs is valid and user-accessible. */
  lemma PermIsUserValid(prot: bv32)
    ensures (Perm(prot) | PTE_V) & PTE_V != 0 && (Perm(prot) | PTE_V) & PTE_U != 0
  {
  }

  /** The page loop of `sys_mmap` from address `va` on. `kalloc` pops the head
      of the free list and fails on an empty one; `mappages` refuses a page
      whose entry is already valid. A failure returns at once: pages mapped
      before it stay mapped and the page `kalloc` just handed out is not
      given back. `va` advances in uint64 arithmetic. */
  function MapLoop(pt: map<nat, Pte>, free: seq<nat>, va: Word, end: Word, perm: bv32, done: nat): Run
    decreases |free|
  {
    if va >= end then Run(pt, free, done, true)
    else if UserAddr(pt, va) != 0 then Run(pt, free, done, false)
    else if free == [] then Run(pt, free, done, false)
    else if ValidPage(pt, va / PAGE_SIZE) then Run(pt, free[1..], done, false)
    else MapLoop(pt[va / PAGE_SIZE := Pte(free[0], perm | PTE_V)], free[1..],
                 (va + PAGE_SIZE) % WORD_MOD, end, perm, done + 1)
  }

  /** `sys_mmap(start, len, prot, flag, fd)`; `flag` and `fd` are unused. */
  function Mmap(s: Space, start: Word, len: Word, prot: bv32): (Space, Word)
  {
    if len == 0 then (s, 0)
    else if !Aligned(start) then (s, NEG1)
    else if prot & !7 != 0 then (s, NEG1)
    else if prot & 7 == 0 then (s, NEG1)
    else
      var end := (start + len) % WORD_MOD;
      var run := MapLoop(s.pt, s.free, start, end, Perm(prot), 0);
      if !run.ok then (Space(run.pt, run.free, s.maxPage), NEG1)
      else (Space(run.pt, run.free, Max(s.maxPage, PgRoundUp(end) / PAGE_SIZE)), 0)
  }

  /** The page loop of `sys_munmap` from address `va` on: every page must have
      a valid, user-accessible entry; its physical page is pushed back on the
      free list (`kfree`) and its entry zeroed. A failure returns at once,
      after the pages before it were already freed. */
  function UnmapLoop(pt: map<nat, Pte>, free: seq<nat>, va: Word, end: Word, done: nat): Run
    decreases pt.Keys
  {
    if va >= end then Run(pt, free, done, true)
    else if !UserPage(pt, va / PAGE_SIZE) then Run(pt, free, done, false)
    else
      var vpn := va / PAGE_SIZE;
      assert (pt - {vpn}).Keys < pt.Keys;
      UnmapLoop(pt - {vpn}, [pt[vpn].pa] + free, (va + PAGE_SIZE) % WORD_MOD, end, done + 1)
  }

  /** `sys_munmap(start, len)` */
  function Munmap(s: Space, start: Word, len: Word): (Space, Word)
  {
    if len == 0 then (s, 0)
    else if !Aligned(start) then (s, NEG1)
    else
      var end := (start + len) % WORD_MOD;
      var run := UnmapLoop(s.pt, s.free, start, end, 0);
      if !run.ok then (Space(run.pt, run.free, s.maxPage), NEG1)
      else
        var mark := if s.maxPage == PgRoundUp(end) / PAGE_SIZE then start / PAGE_SIZE else s.maxPage;
        (Space(run.pt, run.free, mark), 0)
  }

  // ---------------------------------------------------------------------
  // Ranges

  /** The range neither wraps past 2^64 nor reaches the last page of the
      64-bit space, so the loops' uint64 steps never wrap. */
  predicate NoWrap(start: Word, len: Word)
  {
    start + len <= WORD_MOD - PAGE_SIZE
  }

  /** How many page steps a loop from `va` while `va < end` takes. */
  function PageCount(va: int, end: int): nat
  {
    if end <= va then 0 else (end - va + PAGE_SIZE - 1) / PAGE_SIZE
  }

  /** Page `q` is one the loops visit for the range `[start, start+len)`. */
  predicate InSpan(q: nat, start: Word, len: Word)
  {
    start / PAGE_SIZE <= q < start / PAGE_SIZE + PageCount(start, start + len)
  }

  lemma PageCountStep(va: int, end: int)
    requires va < end
    ensures PageCount(va, end) == 1 + PageCount(va + PAGE_SIZE, end)
  {
  }

  /** The span ends at the page PGROUNDUP puts after the range. */
  lemma SpanEnd(start: Word, len: Word)
    requires Aligned(start) && NoWrap(start, len)
    ensures PgRoundUp(start + len) / PAGE_SIZE == start / PAGE_SIZE + PageCount(start, start + len)
  {
  }

  // ---------------------------------------------------------------------
  // The page loops, in closed form. `vp` is the page the loop stands on,
  // `k` the number of pages it completes.

  /** One step of the `sys_mmap` loop from page `vp`. */
  lemma MapStep(pt: map<nat, Pte>, free: seq<nat>, vp: nat, end: Word, perm: bv32, done: nat)
    requires vp * PAGE_SIZE < WORD_MOD && end <= WORD_MOD - PAGE_SIZE
    ensures vp * PAGE_SIZE >= end ==> MapLoop(pt, free, vp * PAGE_SIZE, end, perm, done) == Run(pt, free, done, true)
    ensures vp * PAGE_SIZE < end && UserPage(pt, vp) && pt[vp].pa != 0 ==>
              MapLoop(pt, free, vp * PAGE_SIZE, end, perm, done) == Run(pt, free, done, false)
    ensures vp * PAGE_SIZE < end && !(UserPage(pt, vp) && pt[vp].pa != 0) && free == [] ==>
              MapLoop(pt, free, vp * PAGE_SIZE, end, perm, done) == Run(pt, free, done, false)
    ensures vp * PAGE_SIZE < end && !(UserPage(pt, vp) && pt[vp].pa != 0) && free != [] && ValidPage(pt, vp) ==>
              MapLoop(pt, free, vp * PAGE_SIZE, end, perm, done) == Run(pt, free[1..], done, false)
    ensures vp * PAGE_SIZE < end && !(UserPage(pt, vp) && pt[vp].pa != 0) && free != [] && !ValidPage(pt, vp) ==>
              && (vp + 1) * PAGE_SIZE < WORD_MOD
              && MapLoop(pt, free, vp * PAGE_SIZE, end, perm, done)
                 == MapLoop(pt[vp := Pte(free[0], perm | PTE_V)], free[1..], (vp + 1) * PAGE_SIZE, end, perm, done + 1)
  {
    var va := vp * PAGE_SIZE;
    assert va / PAGE_SIZE == vp && va % PAGE_SIZE == 0;
    assert UserAddr(pt, va) != 0 <==> UserPage(pt, vp) && pt[vp].pa != 0;
    if va < end {
      assert (va + PAGE_SIZE) % WORD_MOD == (vp + 1) * PAGE_SIZE;
    }
  }

  /** How far the `sys_mmap` loop gets and why it stops. */
  lemma {:induction false} MapLoopRun(pt: map<nat, Pte>, free: seq<nat>, vp: nat, end: Word, perm: bv32, done: nat)
    requires vp * PAGE_SIZE < WORD_MOD && end <= WORD_MOD - PAGE_SIZE
    ensures var r := MapLoop(pt, free, vp * PAGE_SIZE, end, perm, done);
            var n := PageCount(vp * PAGE_SIZE, end);
            var k := r.pages - done;
            && done <= r.pages <= done + n && k <= |free|
            && (r.ok ==> k == n)
            && (!r.ok ==> k < n && (ValidPage(pt, vp + k) || k == |free|))
    decreases |free|
  {
    MapStep(pt, free, vp, end, perm, done);
    var va := vp * PAGE_SIZE;
    if va < end {
      PageCountStep(va, end);
    }
    if va < end && !(UserPage(pt, vp) && pt[vp].pa != 0) && free != [] && !ValidPage(pt, vp) {
      var pt1 := pt[vp := Pte(free[0], perm | PTE_V)];
      MapLoopRun(pt1, free[1..], vp + 1, end, perm, done + 1);
      var r := MapLoop(pt1, free[1..], (vp + 1) * PAGE_SIZE, end, perm, done + 1);
      var k1 := r.pages - (done + 1);
      if !r.ok {
        assert ValidPage(pt1, vp + 1 + k1) || k1 == |free[1..]|;
      }
    }
  }

  /** Run `r` of the `sys_mmap` loop from page `vp`, entered with `done`
      pages mapped, has taken from `free` one page per page it mapped, plus
      the page it leaked when it stopped at a page that `useraddr` reports
      unusable but `mappages` refuses because its entry is valid. */
  ghost predicate Took(pt: map<nat, Pte>, free: seq<nat>, vp: nat, r: Run, done: nat)
  {
    var k := r.pages - done;
    && done <= r.pages && k <= |free|
    && r.free == (if !r.ok && k < |free| && !(UserPage(pt, vp + k) && pt[vp + k].pa != 0)
                  then free[k + 1..] else free[k..])
  }

  /** What the `sys_mmap` loop takes from the free list. */
  lemma {:induction false} MapLoopTake(pt: map<nat, Pte>, free: seq<nat>, vp: nat, end: Word, perm: bv32, done: nat)
    requires vp * PAGE_SIZE < WORD_MOD && end <= WORD_MOD - PAGE_SIZE
    ensures Took(pt, free, vp, MapLoop(pt, free, vp * PAGE_SIZE, end, perm, done), done)
    decreases |free|
  {
    if vp * PAGE_SIZE < end && !(UserPage(pt, vp) && pt[vp].pa != 0) && free != [] && !ValidPage(pt, vp) {
      MapStep(pt, free, vp, end, perm, done);
      var pt1 := pt[vp := Pte(free[0], perm | PTE_V)];
      var free1 := free[1..];
      var r1 := MapLoop(pt1, free1, (vp + 1) * PAGE_SIZE, end, perm, done + 1);
      assert MapLoop(pt, free, vp * PAGE_SIZE, end, perm, done) == r1;
      MapLoopTake(pt1, free1, vp + 1, end, perm, done + 1);
      TakeStep(pt, free, vp, perm | PTE_V, r1, done);
    } else {
      TakeStop(pt, free, vp, end, perm, done);
    }
  }

  /** MapLoopTake where the loop stops at page `vp`. */
  lemma TakeStop(pt: map<nat, Pte>, free: seq<nat>, vp: nat, end: Word, perm: bv32, done: nat)
    requires vp * PAGE_SIZE < WORD_MOD && end <= WORD_MOD - PAGE_SIZE
    requires !(vp * PAGE_SIZE < end && !(UserPage(pt, vp) && pt[vp].pa != 0) && free != [] && !ValidPage(pt, vp))
    ensures Took(pt, free, vp, MapLoop(pt, free, vp * PAGE_SIZE, end, perm, done), done)
  {
    MapStep(pt, free, vp, end, perm, done);
    assert free[0..] == free;
  }

  /** The inductive step of MapLoopTake, for a run `r` that mapped page `vp`
      first and then went on from the page after it. */
  lemma TakeStep(pt: map<nat, Pte>, free: seq<nat>, vp: nat, flags: bv32, r: Run, done: nat)
    requires free != [] && done + 1 <= r.pages
    requires Took(pt[vp := Pte(free[0], flags)], free[1..], vp + 1, r, done + 1)
    ensures Took(pt, free, vp, r, done)
  {
    var pt1 := pt[vp := Pte(free[0], flags)];
    var k := r.pages - done;
    assert UserPage(pt1, vp + k) == UserPage(pt, vp + k);
    assert vp + k in pt ==> pt1[vp + k] == pt[vp + k];
    assert free[1..][k - 1..] == free[k..];
    if k - 1 < |free[1..]| {
      assert free[1..][k..] == free[k + 1..];
    }
  }

  /** Which entries the `sys_mmap` loop installs: page `vp + i` gets the i-th
      page of the free list with the given permission and the valid bit,
      every page it installs had no valid entry before, and no other entry
      changes. */
  lemma {:induction false} MapLoopTable(pt: map<nat, Pte>, free: seq<nat>, vp: nat, end: Word, perm: bv32, done: nat)
    requires vp * PAGE_SIZE < WORD_MOD && end <= WORD_MOD - PAGE_SIZE
    ensures var r := MapLoop(pt, free, vp * PAGE_SIZE, end, perm, done);
            && done <= r.pages && r.pages - done <= |free|
            && (forall q :: vp <= q < vp + (r.pages - done) ==>
                  !ValidPage(pt, q) && q in r.pt && r.pt[q] == Pte(free[q - vp], perm | PTE_V))
            && (forall q :: q < vp || vp + (r.pages - done) <= q ==>
                  (q in r.pt <==> q in pt) && (q in pt ==> r.pt[q] == pt[q]))
    decreases |free|
  {
    var va := vp * PAGE_SIZE;
    assert va / PAGE_SIZE == vp;
    if va < end && UserAddr(pt, va) == 0 && free != [] && !ValidPage(pt, vp) {
      var pt1 := pt[vp := Pte(free[0], perm | PTE_V)];
      assert (va + PAGE_SIZE) % WORD_MOD == (vp + 1) * PAGE_SIZE;
      MapLoopTable(pt1, free[1..], vp + 1, end, perm, done + 1);
      var r := MapLoop(pt, free, va, end, perm, done);
      var k := r.pages - done;
      forall q | vp <= q < vp + k
        ensures !ValidPage(pt, q) && q in r.pt && r.pt[q] == Pte(free[q - vp], perm | PTE_V)
      {
        if q > vp {
          assert !ValidPage(pt1, q);
          assert free[1..][q - (vp + 1)] == free[q - vp];
        }
      }
    }
  }

  /** One step of the `sys_munmap` loop from page `vp`. */
  lemma UnmapStep(pt: map<nat, Pte>, free: seq<nat>, vp: nat, end: Word, done: nat)
    requires vp * PAGE_SIZE < WORD_MOD && end <= WORD_MOD - PAGE_SIZE
    ensures vp * PAGE_SIZE >= end ==> UnmapLoop(pt, free, vp * PAGE_SIZE, end, done) == Run(pt, free, done, true)
    ensures vp * PAGE_SIZE < end && !UserPage(pt, vp) ==>
              UnmapLoop(pt, free, vp * PAGE_SIZE, end, done) == Run(pt, free, done, false)
    ensures vp * PAGE_SIZE < end && UserPage(pt, vp) ==>
              && (vp + 1) * PAGE_SIZE < WORD_MOD
              && (pt - {vp}).Keys < pt.Keys
              && UnmapLoop(pt, free, vp * PAGE_SIZE, end, done)
                 == UnmapLoop(pt - {vp}, [pt[vp].pa] + free, (vp + 1) * PAGE_SIZE, end, done + 1)
  {
    var va := vp * PAGE_SIZE;
    assert va / PAGE_SIZE == vp;
    if va < end && UserPage(pt, vp) {
      assert (va + PAGE_SIZE) % WORD_MOD == (vp + 1) * PAGE_SIZE;
    }
  }

  /** How far the `sys_munmap` loop gets and why it stops. */
  lemma {:induction false} UnmapLoopRun(pt: map<nat, Pte>, free: seq<nat>, vp: nat, end: Word, done: nat)
    requires vp * PAGE_SIZE < WORD_MOD && end <= WORD_MOD - PAGE_SIZE
    ensures var r := UnmapLoop(pt, free, vp * PAGE_SIZE, end, done);
            var n := PageCount(vp * PAGE_SIZE, end);
            var k := r.pages - done;
            && done <= r.pages <= done + n
            && (r.ok ==> k == n)
            && (!r.ok ==> k < n && !UserPage(pt, vp + k))
    decreases pt.Keys
  {
    UnmapStep(pt, free, vp, end, done);
    var va := vp * PAGE_SIZE;
    if va < end {
      PageCountStep(va, end);
    }
    if va < end && UserPage(pt, vp) {
      var pt1 := pt - {vp};
      var free1 := [pt[vp].pa] + free;
      UnmapLoopRun(pt1, free1, vp + 1, end, done + 1);
      var r := UnmapLoop(pt1, free1, (vp + 1) * PAGE_SIZE, end, done + 1);
      assert UnmapLoop(pt, free, va, end, done) == r;
      var k1 := r.pages - (done + 1);
      if !r.ok {
        assert !UserPage(pt1, vp + 1 + k1);
      }
    }
  }

  /** The `sys_munmap` loop pushes one page on the free list per page it
      clears and keeps the old list underneath. */
  lemma {:induction false} UnmapLoopStack(pt: map<nat, Pte>, free: seq<nat>, vp: nat, end: Word, done: nat)
    requires vp * PAGE_SIZE < WORD_MOD && end <= WORD_MOD - PAGE_SIZE
    ensures var r := UnmapLoop(pt, free, vp * PAGE_SIZE, end, done);
            var k := r.pages - done;
            && done <= r.pages
            && |r.free| == |free| + k && r.free[k..] == free
    decreases pt.Keys
  {
    UnmapStep(pt, free, vp, end, done);
    if vp * PAGE_SIZE < end && UserPage(pt, vp) {
      var pt1 := pt - {vp};
      var free1 := [pt[vp].pa] + free;
      UnmapLoopStack(pt1, free1, vp + 1, end, done + 1);
      var r := UnmapLoop(pt1, free1, (vp + 1) * PAGE_SIZE, end, done + 1);
      var k1 := r.pages - (done + 1);
      assert r.free[k1..] == free1;
      assert r.free[k1 + 1..] == free1[1..];
    }
  }

  /** Which entries the `sys_munmap` loop clears: every page it passes had a
      valid user entry and is gone afterwards; no other entry changes. */
  lemma {:induction false} UnmapLoopTable(pt: map<nat, Pte>, free: seq<nat>, vp: nat, end: Word, done: nat)
    requires vp * PAGE_SIZE < WORD_MOD && end <= WORD_MOD - PAGE_SIZE
    ensures var r := UnmapLoop(pt, free, vp * PAGE_SIZE, end, done);
            && done <= r.pages
            && (forall q :: vp <= q < vp + (r.pages - done) ==> UserPage(pt, q) && q !in r.pt)
            && (forall q :: q < vp || vp + (r.pages - done) <= q ==>
                  (q in r.pt <==> q in pt) && (q in pt ==> r.pt[q] == pt[q]))
    decreases pt.Keys
  {
    UnmapStep(pt, free, vp, end, done);
    var va := vp * PAGE_SIZE;
    if va < end && UserPage(pt, vp) {
      var pt1 := pt - {vp};
      UnmapLoopTable(pt1, [pt[vp].pa] + free, vp + 1, end, done + 1);
      var r := UnmapLoop(pt, free, va, end, done);
      forall q | vp < q < vp + (r.pages - done)
        ensures UserPage(pt, q)
      {
        assert UserPage(pt1, q);
      }
    }
  }

  /** The physical page of every entry the `sys_munmap` loop clears is back on
      the free list, the last page cleared at the head. */
  lemma {:induction false} UnmapLoopFreed(pt: map<nat, Pte>, free: seq<nat>, vp: nat, end: Word, done: nat)
    requires vp * PAGE_SIZE < WORD_MOD && end <= WORD_MOD - PAGE_SIZE
    ensures var r := UnmapLoop(pt, free, vp * PAGE_SIZE, end, done);
            var k := r.pages - done;
            && done <= r.pages && k <= |r.free|
            && (forall q :: vp <= q < vp + k ==> q in pt && r.free[k - 1 - (q - vp)] == pt[q].pa)
    decreases pt.Keys
  {
    UnmapStep(pt, free, vp, end, done);
    if vp * PAGE_SIZE < end && UserPage(pt, vp) {
      var pt1 := pt - {vp};
      var free1 := [pt[vp].pa] + free;
      UnmapLoopFreed(pt1, free1, vp + 1, end, done + 1);
      UnmapLoopHead(pt1, free1, vp + 1, end, done + 1);
      FreedStep(pt, vp, UnmapLoop(pt1, free1, (vp + 1) * PAGE_SIZE, end, done + 1), done);
    }
  }

  /** The page the `sys_munmap` loop found at the head of the free list is
      still in place under the pages it pushed. */
  lemma UnmapLoopHead(pt: map<nat, Pte>, free: seq<nat>, vp: nat, end: Word, done: nat)
    requires vp * PAGE_SIZE < WORD_MOD && end <= WORD_MOD - PAGE_SIZE && |free| > 0
    ensures var r := UnmapLoop(pt, free, vp * PAGE_SIZE, end, done);
            var k := r.pages - done;
            && done <= r.pages && k < |r.free| && r.free[k] == free[0]
  {
    UnmapLoopStack(pt, free, vp, end, done);
    var r := UnmapLoop(pt, free, vp * PAGE_SIZE, end, done);
    var k := r.pages - done;
    assert r.free[k..][0] == free[0];
  }

  /** The inductive step of UnmapLoopFreed, for a run `r` that cleared page
      `vp` first and then the pages after it. */
  lemma FreedStep(pt: map<nat, Pte>, vp: nat, r: Run, done: nat)
    requires vp in pt && done + 1 <= r.pages
    requires r.pages - (done + 1) < |r.free| && r.free[r.pages - (done + 1)] == pt[vp].pa
    requires forall q :: vp + 1 <= q < vp + 1 + (r.pages - (done + 1)) ==>
               q in pt - {vp} && r.free[r.pages - (done + 1) - 1 - (q - (vp + 1))] == (pt - {vp})[q].pa
    ensures var k := r.pages - done;
            && done <= r.pages && k <= |r.free|
            && (forall q :: vp <= q < vp + k ==> q in pt && r.free[k - 1 - (q - vp)] == pt[q].pa)
  {
    var k := r.pages - done;
    forall q | vp < q < vp + k
      ensures q in pt && r.free[k - 1 - (q - vp)] == pt[q].pa
    {
      assert q in pt - {vp} && r.free[(k - 1) - 1 - (q - (vp + 1))] == (pt - {vp})[q].pa;
    }
  }

  // ---------------------------------------------------------------------
  // sys_mmap

  /** How far the map loop over an aligned range gets, and what it takes from
      the free list, in terms of its first page. */
  lemma MapFrom(s: Space, start: Word, len: Word, perm: bv32)
    requires NoWrap(start, len) && Aligned(start)
    ensures var r := MapLoop(s.pt, s.free, start, start + len, perm, 0);
            var vp := start / PAGE_SIZE;
            var n := PageCount(start, start + len);
            && r.pages <= n && r.pages <= |s.free|
            && (r.ok ==> r.pages == n)
            && (!r.ok ==> r.pages < n && (ValidPage(s.pt, vp + r.pages) || r.pages == |s.free|))
            && Took(s.pt, s.free, vp, r, 0)
  {
    var vp := start / PAGE_SIZE;
    assert vp * PAGE_SIZE == start;
    MapLoopRun(s.pt, s.free, vp, start + len, perm, 0);
    MapLoopTake(s.pt, s.free, vp, start + len, perm, 0);
  }

  /** The entries the map loop over an aligned range installs, in terms of
      its first page. */
  lemma MapFromTable(s: Space, start: Word, len: Word, perm: bv32)
    requires NoWrap(start, len) && Aligned(start)
    ensures var r := MapLoop(s.pt, s.free, start, start + len, perm, 0);
            var vp := start / PAGE_SIZE;
            && r.pages <= |s.free|
            && (forall q :: vp <= q < vp + r.pages ==>
                  !ValidPage(s.pt, q) && q in r.pt && r.pt[q] == Pte(s.free[q - vp], perm | PTE_V))
            && (forall q :: q < vp || vp + r.pages <= q ==>
                  (q in r.pt <==> q in s.pt) && (q in s.pt ==> r.pt[q] == s.pt[q]))
  {
    var vp := start / PAGE_SIZE;
    assert vp * PAGE_SIZE == start;
    MapLoopTable(s.pt, s.free, vp, start + len, perm, 0);
  }

  /** The argument checks: a zero length is a successful no-op; a misaligned
      start or a `prot` outside read/write/execute, or with none of them,
      fails; none of them touches the address space. */
  lemma MmapArgumentChecks(s: Space, start: Word, len: Word, prot: bv32)
    ensures len == 0 ==> Mmap(s, start, len, prot) == (s, 0)
    ensures len != 0 && (!Aligned(start) || !ProtOk(prot)) ==> Mmap(s, start, len, prot) == (s, NEG1)
  {
  }

  /** The `prot` values accepted are exactly the non-empty combinations of
      the read, write and execute bits. */
  lemma ProtOkIsRwxCombination(prot: bv32)
    ensures ProtOk(prot) <==> 1 <= prot <= 7
  {
  }

  /** `sys_mmap` returns 0 or -1, and returns 0 exactly when the length is
      zero or the arguments pass their checks, no page of the range has a
      valid entry, and the free list holds a page for every page of the
      range. */
  lemma MmapSucceedsIff(s: Space, start: Word, len: Word, prot: bv32)
    requires NoWrap(start, len)
    ensures Mmap(s, start, len, prot).1 == 0 || Mmap(s, start, len, prot).1 == NEG1
    ensures Mmap(s, start, len, prot).1 == 0 <==>
              len == 0 ||
              (Aligned(start) && ProtOk(prot) &&
               (forall q: nat :: InSpan(q, start, len) ==> !ValidPage(s.pt, q)) &&
               PageCount(start, start + len) <= |s.free|)
  {
    if len != 0 && Aligned(start) && ProtOk(prot) {
      assert (start + len) % WORD_MOD == start + len;
      var r := MapLoop(s.pt, s.free, start, start + len, Perm(prot), 0);
      assert Mmap(s, start, len, prot).1 == if r.ok then 0 else NEG1;
      MapFrom(s, start, len, Perm(prot));
      MapFromTable(s, start, len, Perm(prot));
    }
  }

  /** A successful `sys_mmap` of a non-empty range maps every page of it,
      partial last page included, to the next page of the free list with
      permission `(prot << 1) | PTE_U` and the valid bit; each of those pages
      had no valid entry before; no other entry changes; and `max_page`
      becomes the larger of its old value and the page after the range. */
  lemma MmapMapsRange(s: Space, start: Word, len: Word, prot: bv32)
    requires NoWrap(start, len) && len > 0
    requires Mmap(s, start, len, prot).1 == 0
    ensures var s' := Mmap(s, start, len, prot).0;
            var vp := start / PAGE_SIZE;
            var n := PageCount(start, start + len);
            && n <= |s.free|
            && (forall q: nat :: InSpan(q, start, len) ==>
                  !ValidPage(s.pt, q) && UserPage(s'.pt, q) &&
                  s'.pt[q] == Pte(s.free[q - vp], Perm(prot) | PTE_V))
            && (forall q: nat :: !InSpan(q, start, len) ==>
                  (q in s'.pt <==> q in s.pt) && (q in s.pt ==> s'.pt[q] == s.pt[q]))
            && s'.free == s.free[n..]
            && s'.maxPage == Max(s.maxPage, vp + n)
  {
    assert (start + len) % WORD_MOD == start + len;
    var r := MapLoop(s.pt, s.free, start, start + len, Perm(prot), 0);
    assert r.ok;
    assert Mmap(s, start, len, prot).0 == Space(r.pt, r.free, Max(s.maxPage, PgRoundUp(start + len) / PAGE_SIZE));
    MapFrom(s, start, len, Perm(prot));
    MapFromTable(s, start, len, Perm(prot));
    SpanEnd(start, len);
    PermIsUserValid(prot);
  }

  /** A `sys_mmap` that fails inside the range does not roll back: the pages
      before the failing one stay mapped, every other entry is as before,
      `max_page` is not raised, and the free list has lost the pages mapped
      and, when `mappages` refused the failing page, the page `kalloc` handed
      out for it. */
  lemma MmapNoRollback(s: Space, start: Word, len: Word, prot: bv32)
    requires NoWrap(start, len) && len > 0 && Aligned(start) && ProtOk(prot)
    requires Mmap(s, start, len, prot).1 == NEG1
    ensures var s' := Mmap(s, start, len, prot).0;
            var vp := start / PAGE_SIZE;
            var k := MapLoop(s.pt, s.free, start, start + len, Perm(prot), 0).pages;
            && k < PageCount(start, start + len) && k <= |s.free|
            && s'.maxPage == s.maxPage
            && (forall q: nat :: vp <= q < vp + k ==>
                  UserPage(s'.pt, q) && s'.pt[q] == Pte(s.free[q - vp], Perm(prot) | PTE_V))
            && (forall q: nat :: q < vp || vp + k <= q ==>
                  (q in s'.pt <==> q in s.pt) && (q in s.pt ==> s'.pt[q] == s.pt[q]))
            && s'.free == (if k < |s.free| && !(UserPage(s.pt, vp + k) && s.pt[vp + k].pa != 0)
                           then s.free[k + 1..] else s.free[k..])
  {
    var vp := start / PAGE_SIZE;
    assert vp * PAGE_SIZE == start;
    assert (start + len) % WORD_MOD == start + len;
    var r := MapLoop(s.pt, s.free, start, start + len, Perm(prot), 0);
    assert !r.ok;
    assert Mmap(s, start, len, prot).0 == Space(r.pt, r.free, s.maxPage);
    MapFrom(s, start, len, Perm(prot));
    MapFromTable(s, start, len, Perm(prot));
    PermIsUserValid(prot);
  }

  /** A `sys_mmap` whose range reaches a page that already has a valid entry
      (one mapped by an earlier `sys_mmap`, say) fails and leaves every valid
      entry as it was. */
  lemma MmapOverlapFails(s: Space, start: Word, len: Word, prot: bv32, q0: nat)
    requires NoWrap(start, len) && len > 0
    requires InSpan(q0, start, len) && ValidPage(s.pt, q0)
    ensures Mmap(s, start, len, prot).1 == NEG1
    ensures var s' := Mmap(s, start, len, prot).0;
            forall q: nat :: ValidPage(s.pt, q) ==> q in s'.pt && s'.pt[q] == s.pt[q]
  {
    MmapSucceedsIff(s, start, len, prot);
    if Aligned(start) && ProtOk(prot) {
      assert (start + len) % WORD_MOD == start + len;
      var r := MapLoop(s.pt, s.free, start, start + len, Perm(prot), 0);
      assert Mmap(s, start, len, prot).0.pt == r.pt;
      MapFromTable(s, start, len, Perm(prot));
    }
  }

  /** When `start + len` wraps past 2^64, `end` lies below `start`, the page
      loop does not run, and `sys_mmap` reports success without mapping
      anything. */
  lemma MmapWrappedLengthMapsNothing(s: Space, start: Word, len: Word, prot: bv32)
    requires Aligned(start) && ProtOk(prot) && len > 0
    requires start + len >= WORD_MOD
    ensures Mmap(s, start, len, prot).1 == 0
    ensures Mmap(s, start, len, prot).0.pt == s.pt
    ensures Mmap(s, start, len, prot).0.free == s.free
  {
  }

  // ---------------------------------------------------------------------
  // sys_munmap

  /** The unmap loop over an aligned range, in terms of its first page. */
  lemma UnmapFrom(s: Space, start: Word, len: Word)
    requires NoWrap(start, len) && Aligned(start)
    ensures var r := UnmapLoop(s.pt, s.free, start, start + len, 0);
            var vp := start / PAGE_SIZE;
            var n := PageCount(start, start + len);
            && r.pages <= n
            && (r.ok ==> r.pages == n)
            && (!r.ok ==> r.pages < n && !UserPage(s.pt, vp + r.pages))
            && |r.free| == |s.free| + r.pages && r.free[r.pages..] == s.free
            && (forall q :: vp <= q < vp + r.pages ==>
                  UserPage(s.pt, q) && q !in r.pt && r.free[r.pages - 1 - (q - vp)] == s.pt[q].pa)
            && (forall q :: q < vp || vp + r.pages <= q ==>
                  (q in r.pt <==> q in s.pt) && (q in s.pt ==> r.pt[q] == s.pt[q]))
  {
    var vp := start / PAGE_SIZE;
    assert vp * PAGE_SIZE == start;
    UnmapLoopRun(s.pt, s.free, vp, start + len, 0);
    UnmapLoopTable(s.pt, s.free, vp, start + len, 0);
    UnmapLoopStack(s.pt, s.free, vp, start + len, 0);
    UnmapLoopFreed(s.pt, s.free, vp, start + len, 0);
  }

  /** The argument checks of `sys_munmap`. */
  lemma MunmapArgumentChecks(s: Space, start: Word, len: Word)
    ensures len == 0 ==> Munmap(s, start, len) == (s, 0)
    ensures len != 0 && !Aligned(start) ==> Munmap(s, start, len) == (s, NEG1)
  {
  }

  /** `sys_munmap` returns 0 or -1, and returns 0 exactly when the length is
      zero or the start is aligned and every page of the range has a valid,
      user-accessible entry. */
  lemma MunmapSucceedsIff(s: Space, start: Word, len: Word)
    requires NoWrap(start, len)
    ensures Munmap(s, start, len).1 == 0 || Munmap(s, start, len).1 == NEG1
    ensures Munmap(s, start, len).1 == 0 <==>
              len == 0 ||
              (Aligned(start) && forall q: nat :: InSpan(q, start, len) ==> UserPage(s.pt, q))
  {
    if len != 0 && Aligned(start) {
      var vp := start / PAGE_SIZE;
      assert (start + len) % WORD_MOD == start + len;
      UnmapFrom(s, start, len);
      var r := UnmapLoop(s.pt, s.free, start, start + len, 0);
      assert Munmap(s, start, len).1 == if r.ok then 0 else NEG1;
      if !r.ok {
        assert InSpan(vp + r.pages, start, len);
      } else {
        forall q: nat | InSpan(q, start, len) ensures UserPage(s.pt, q) {
          assert vp <= q < vp + r.pages;
        }
      }
    }
  }

  /** A successful `sys_munmap` of a non-empty range clears the entry of every
      page of it and puts each of their physical pages on the free list, in
      front of the old free list; no other entry changes; `max_page` drops to
      the range's first page exactly when it equalled the page after the
      range. */
  lemma MunmapClearsRange(s: Space, start: Word, len: Word)
    requires NoWrap(start, len) && len > 0
    requires Munmap(s, start, len).1 == 0
    ensures var s' := Munmap(s, start, len).0;
            var vp := start / PAGE_SIZE;
            var n := PageCount(start, start + len);
            && |s'.free| == |s.free| + n && s'.free[n..] == s.free
            && (forall q: nat :: InSpan(q, start, len) ==>
                  UserPage(s.pt, q) && q !in s'.pt && s'.free[n - 1 - (q - vp)] == s.pt[q].pa)
            && (forall q: nat :: !InSpan(q, start, len) ==>
                  (q in s'.pt <==> q in s.pt) && (q in s.pt ==> s'.pt[q] == s.pt[q]))
            && s'.maxPage == (if s.maxPage == vp + n then vp else s.maxPage)
  {
    assert (start + len) % WORD_MOD == start + len;
    UnmapFrom(s, start, len);
    SpanEnd(start, len);
    var r := UnmapLoop(s.pt, s.free, start, start + len, 0);
    assert r.ok;
    assert Munmap(s, start, len).0.pt == r.pt && Munmap(s, start, len).0.free == r.free;
  }

  /** A `sys_munmap` that fails inside the range does not roll back: the pages
      before the failing one are already cleared and freed, the failing page
      has no valid user entry, and `max_page` is unchanged. */
  lemma MunmapNoRollback(s: Space, start: Word, len: Word)
    requires NoWrap(start, len) && len > 0 && Aligned(start)
    requires Munmap(s, start, len).1 == NEG1
    ensures var s' := Munmap(s, start, len).0;
            var vp := start / PAGE_SIZE;
            var k := UnmapLoop(s.pt, s.free, start, start + len, 0).pages;
            && k < PageCount(start, start + len) && !UserPage(s.pt, vp + k)
            && s'.maxPage == s.maxPage
            && |s'.free| == |s.free| + k && s'.free[k..] == s.free
            && (forall q: nat :: vp <= q < vp + k ==> UserPage(s.pt, q) && q !in s'.pt && s'.free[k - 1 - (q - vp)] == s.pt[q].pa)
            && (forall q: nat :: q < vp || vp + k <= q ==>
                  (q in s'.pt <==> q in s.pt) && (q in s.pt ==> s'.pt[q] == s.pt[q]))
  {
    assert (start + len) % WORD_MOD == start + len;
    UnmapFrom(s, start, len);
    var r := UnmapLoop(s.pt, s.free, start, start + len, 0);
    assert Munmap(s, start, len).1 == if r.ok then 0 else NEG1;
    assert !r.ok;
    assert Munmap(s, start, len).0 == Space(r.pt, r.free, s.maxPage);
  }

  /** `sys_mmap` followed by `sys_munmap` of the same non-empty range: the
      unmap succeeds, the page table is the old one without the range (so
      every page of the range is unmapped), the physical pages the map took
      are back on the free list in reverse order, `max_page` is back at the range's first page
      if the map had raised it, and unmapping the range again fails. */
  lemma {:induction false} MmapThenMunmap(s: Space, start: Word, len: Word, prot: bv32)
    requires NoWrap(start, len) && len > 0
    requires Mmap(s, start, len, prot).1 == 0
    ensures var s1 := Mmap(s, start, len, prot).0;
            var s2 := Munmap(s1, start, len).0;
            var vp := start / PAGE_SIZE;
            var n := PageCount(start, start + len);
            && Munmap(s1, start, len).1 == 0
            && (forall q: nat :: InSpan(q, start, len) ==> q !in s2.pt)
            && (forall q: nat :: !InSpan(q, start, len) ==>
                  (q in s2.pt <==> q in s.pt) && (q in s.pt ==> s2.pt[q] == s.pt[q]))
            && n <= |s.free| && |s2.free| == |s.free|
            && (forall i :: 0 <= i < n ==> s2.free[n - 1 - i] == s.free[i])
            && s2.free[n..] == s.free[n..]
            && (s.maxPage <= vp + n ==> s2.maxPage == vp)
            && Munmap(s2, start, len).1 == NEG1
  {
    var s1 := Mmap(s, start, len, prot).0;
    var vp := start / PAGE_SIZE;
    var n := PageCount(start, start + len);
    MmapArgumentChecks(s, start, len, prot);
    MmapMapsRange(s, start, len, prot);
    MunmapSucceedsIff(s1, start, len);
    MunmapClearsRange(s1, start, len);
    var s2 := Munmap(s1, start, len).0;
    forall i | 0 <= i < n ensures s2.free[n - 1 - i] == s.free[i] {
      assert InSpan(vp + i, start, len);
      assert s1.pt[vp + i].pa == s.free[i];
    }
    assert InSpan(vp, start, len);
    MunmapSucceedsIff(s2, start, len);
  }

  // ---------------------------------------------------------------------
  // The high-water mark

  /** `max_page` lies above every page with a valid user entry. */
  ghost predicate HighWater(s: Space)
  {
    forall q: nat :: UserPage(s.pt, q) ==> q < s.maxPage
  }

  /** A successful `sys_mmap` keeps `max_page` above every user page. */
  lemma MmapKeepsHighWater(s: Space, start: Word, len: Word, prot: bv32)
    requires NoWrap(start, len) && HighWater(s)
    requires Mmap(s, start, len, prot).1 == 0
    ensures HighWater(Mmap(s, start, len, prot).0)
  {
    if len > 0 {
      MmapMapsRange(s, start, len, prot);
      var s' := Mmap(s, start, len, prot).0;
      forall q: nat | UserPage(s'.pt, q) ensures q < s'.maxPage {
        if !InSpan(q, start, len) { assert UserPage(s.pt, q); }
      }
    }
  }

  /** `sys_munmap`, successful or not, keeps `max_page` above every user page:
      the retraction to the range's first page happens only when the mark
      sat right after the range, and then the whole range was cleared. */
  lemma MunmapKeepsHighWater(s: Space, start: Word, len: Word)
    requires NoWrap(start, len) && HighWater(s)
    ensures HighWater(Munmap(s, start, len).0)
  {
    if len > 0 && Aligned(start) {
      var s' := Munmap(s, start, len).0;
      MunmapSucceedsIff(s, start, len);
      if Munmap(s, start, len).1 == 0 {
        MunmapClearsRange(s, start, len);
        forall q: nat | UserPage(s'.pt, q) ensures q < s'.maxPage {
          assert !InSpan(q, start, len);
          assert UserPage(s.pt, q);
        }
      } else {
        MunmapNoRollback(s, start, len);
        var vp := start / PAGE_SIZE;
        var k := UnmapLoop(s.pt, s.free, start, start + len, 0).pages;
        forall q: nat | UserPage(s'.pt, q) ensures q < s'.maxPage {
          assert q < vp || vp + k <= q;
          assert UserPage(s.pt, q);
        }
      }
    }
  }

  /** Without rollback a failed `sys_mmap` can leave a user page at or above
      `max_page`: with one free page, mapping two pages at address 0 maps
      page 0, fails on page 1 and keeps `max_page` at 0. */
  lemma MmapFailureBreaksHighWater()
    ensures var s := Space(map[], [8 * PAGE_SIZE], 0);
            var r := Mmap(s, 0, 2 * PAGE_SIZE, 3);
            && HighWater(s)
            && r.1 == NEG1
            && UserPage(r.0.pt, 0)
            && !HighWater(r.0)
  {
    var s := Space(map[], [8 * PAGE_SIZE], 0);
    var pt1 := map[0 := Pte(8 * PAGE_SIZE, Perm(3) | PTE_V)];
    assert MapLoop(pt1, [], PAGE_SIZE, 2 * PAGE_SIZE, Perm(3), 1) == Run(pt1, [], 1, false);
    assert MapLoop(map[], [8 * PAGE_SIZE], 0, 2 * PAGE_SIZE, Perm(3), 0) == Run(pt1, [], 1, false);
    assert UserPage(pt1, 0);
  }

  // ---------------------------------------------------------------------
  // Null physical pages

  /** No entry and no free page is physical page 0, so the 0 that `kalloc`
      returns can only mean an empty free list. */
  predicate PhysNonNull(s: Space)
  {
    0 !in s.free && forall v :: v in s.pt ==> s.pt[v].pa != 0
  }

  lemma {:induction false} MapLoopKeepsNonNull(pt: map<nat, Pte>, free: seq<nat>, va: Word, end: Word, perm: bv32, done: nat)
    requires PhysNonNull(Space(pt, free, 0))
    decreases |free|
    ensures var r := MapLoop(pt, free, va, end, perm, done);
            PhysNonNull(Space(r.pt, r.free, 0))
  {
    if va < end && UserAddr(pt, va) == 0 && free != [] {
      assert free == [free[0]] + free[1..];
      if !ValidPage(pt, va / PAGE_SIZE) {
        MapLoopKeepsNonNull(pt[va / PAGE_SIZE := Pte(free[0], perm | PTE_V)], free[1..],
                            (va + PAGE_SIZE) % WORD_MOD, end, perm, done + 1);
      }
    }
  }

  lemma {:induction false} UnmapLoopKeepsNonNull(pt: map<nat, Pte>, free: seq<nat>, va: Word, end: Word, done: nat)
    requires PhysNonNull(Space(pt, free, 0))
    decreases pt.Keys
    ensures var r := UnmapLoop(pt, free, va, end, done);
            PhysNonNull(Space(r.pt, r.free, 0))
  {
    if va < end && UserPage(pt, va / PAGE_SIZE) {
      var vpn := va / PAGE_SIZE;
      assert (pt - {vpn}).Keys < pt.Keys;
      UnmapLoopKeepsNonNull(pt - {vpn}, [pt[vpn].pa] + free, (va + PAGE_SIZE) % WORD_MOD, end, done + 1);
    }
  }

  /** Both calls, successful or not, keep page 0 out of the page table and
      off the free list. */
  lemma KeepNonNull(s: Space, start: Word, len: Word, prot: bv32)
    requires PhysNonNull(s)
    ensures PhysNonNull(Mmap(s, start, len, prot).0)
    ensures PhysNonNull(Munmap(s, start, len).0)
  {
    var end := (start + len) % WORD_MOD;
    MapLoopKeepsNonNull(s.pt, s.free, start, end, Perm(prot), 0);
    UnmapLoopKeepsNonNull(s.pt, s.free, start, end, 0);
  }

  // ---------------------------------------------------------------------
  // Page ownership

  /** Every physical page has one owner at most: the free list holds each
      page once, no page on it backs an entry, and no two entries share a
      page. */
  predicate Owned(s: Space)
  {
    && (forall i, j :: 0 <= i < j < |s.free| ==> s.free[i] != s.free[j])
    && (forall v :: v in s.pt ==> s.pt[v].pa !in s.free)
    && (forall v, w :: v in s.pt && w in s.pt && v != w ==> s.pt[v].pa != s.pt[w].pa)
  }

  /** `kalloc`: the page it pops is in use nowhere else, and what remains
      keeps the invariant. */
  lemma PopKeepsOwned(pt: map<nat, Pte>, free: seq<nat>)
    requires Owned(Space(pt, free, 0)) && free != []
    ensures free[0] !in free[1..]
    ensures forall v :: v in pt ==> pt[v].pa != free[0]
    ensures Owned(Space(pt, free[1..], 0))
  {
    var rest := free[1..];
    forall j | 0 <= j < |rest|
      ensures rest[j] != free[0]
    {
      assert rest[j] == free[j + 1];
    }
    forall i, j | 0 <= i < j < |rest|
      ensures rest[i] != rest[j]
    {
      assert rest[i] == free[i + 1] && rest[j] == free[j + 1];
    }
  }

  /** `mappages` of a page in use nowhere else keeps the invariant. */
  lemma InstallKeepsOwned(pt: map<nat, Pte>, free: seq<nat>, vpn: nat, pa: nat, flags: bv32)
    requires Owned(Space(pt, free, 0))
    requires pa !in free && forall v :: v in pt ==> pt[v].pa != pa
    ensures Owned(Space(pt[vpn := Pte(pa, flags)], free, 0))
  {
  }

  /** Clearing an entry and handing its page to `kfree` keeps the invariant. */
  lemma ReleaseKeepsOwned(pt: map<nat, Pte>, free: seq<nat>, vpn: nat)
    requires Owned(Space(pt, free, 0)) && vpn in pt
    ensures Owned(Space(pt - {vpn}, [pt[vpn].pa] + free, 0))
  {
    var free' := [pt[vpn].pa] + free;
    forall i, j | 0 <= i < j < |free'|
      ensures free'[i] != free'[j]
    {
      assert free'[j] == free[j - 1];
      if i > 0 {
        assert free'[i] == free[i - 1];
      }
    }
  }

  lemma {:induction false} MapLoopKeepsOwned(pt: map<nat, Pte>, free: seq<nat>, va: Word, end: Word, perm: bv32, done: nat)
    requires Owned(Space(pt, free, 0))
    decreases |free|
    ensures var r := MapLoop(pt, free, va, end, perm, done);
            Owned(Space(r.pt, r.free, 0))
  {
    if va < end && UserAddr(pt, va) == 0 && free != [] {
      PopKeepsOwned(pt, free);
      if !ValidPage(pt, va / PAGE_SIZE) {
        InstallKeepsOwned(pt, free[1..], va / PAGE_SIZE, free[0], perm | PTE_V);
        MapLoopKeepsOwned(pt[va / PAGE_SIZE := Pte(free[0], perm | PTE_V)], free[1..],
                          (va + PAGE_SIZE) % WORD_MOD, end, perm, done + 1);
      }
    }
  }

  lemma {:induction false} UnmapLoopKeepsOwned(pt: map<nat, Pte>, free: seq<nat>, va: Word, end: Word, done: nat)
    requires Owned(Space(pt, free, 0))
    decreases pt.Keys
    ensures var r := UnmapLoop(pt, free, va, end, done);
            Owned(Space(r.pt, r.free, 0))
  {
    if va < end && UserPage(pt, va / PAGE_SIZE) {
      var vpn := va / PAGE_SIZE;
      assert (pt - {vpn}).Keys < pt.Keys;
      ReleaseKeepsOwned(pt, free, vpn);
      UnmapLoopKeepsOwned(pt - {vpn}, [pt[vpn].pa] + free, (va + PAGE_SIZE) % WORD_MOD, end, done + 1);
    }
  }

  /** Both calls, successful or not, leave every physical page with one owner
      at most: the pages `sys_mmap` maps come off the free list, a page it
      leaks is simply gone, and the pages `sys_munmap` frees leave the
      table. */
  lemma KeepOwned(s: Space, start: Word, len: Word, prot: bv32)
    requires Owned(s)
    ensures Owned(Mmap(s, start, len, prot).0)
    ensures Owned(Munmap(s, start, len).0)
  {
    var end := (start + len) % WORD_MOD;
    MapLoopKeepsOwned(s.pt, s.free, start, end, Perm(prot), 0);
    UnmapLoopKeepsOwned(s.pt, s.free, start, end, 0);
  }
}
