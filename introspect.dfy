/** The small computations of the system-call layer: `sys_gettimeofday`'s
    conversion of the cycle counter, `sys_getppid`'s sentinel, the stride
    `sys_set_priority` stores, and `sys_sbrk`'s result. */
module Introspect {
  import opened Types

  // ---------------------------------------------------------------------
  // sys_gettimeofday

  const USEC_PER_SEC: nat := 1000000

  /** The seconds/microseconds record `sys_gettimeofday` copies out. */
  datatype TimeVal = TimeVal(sec: nat, usec: nat)

  /** Whole seconds of the cycle count, and the remaining cycles scaled to
      microseconds, in uint64 arithmetic. */
  function TimeOfDay(cycle: Word): TimeVal
  {
    TimeVal(cycle / CPU_FREQ, (cycle % CPU_FREQ) * USEC_PER_SEC / CPU_FREQ)
  }

  /** The product in the microsecond computation stays below 2^64, so the
      uint64 arithmetic does not wrap; both fields fit their uint64 slots and
      the microseconds stay below one second. */
  lemma TimeOfDayFits(cycle: Word)
    ensures (cycle % CPU_FREQ) * USEC_PER_SEC < WORD_MOD
    ensures TimeOfDay(cycle).sec < WORD_MOD
    ensures TimeOfDay(cycle).usec < USEC_PER_SEC
  {
  }

  /** The record is the cycle count converted to microseconds and rounded
      down, split into seconds and microseconds. */
  lemma {:induction false} TimeOfDayIsMicroseconds(cycle: Word)
    ensures TimeOfDay(cycle).sec * USEC_PER_SEC + TimeOfDay(cycle).usec == cycle * USEC_PER_SEC / CPU_FREQ
  {
    var q, r := cycle / CPU_FREQ, cycle % CPU_FREQ;
    var u, v := r * USEC_PER_SEC / CPU_FREQ, r * USEC_PER_SEC % CPU_FREQ;
    assert r * USEC_PER_SEC == u * CPU_FREQ + v;
    assert cycle * USEC_PER_SEC == (q * USEC_PER_SEC + u) * CPU_FREQ + v;
  }

  /** A later cycle count never gives an earlier time of day. */
  lemma {:induction false} TimeOfDayMonotone(c1: Word, c2: Word)
    requires c1 <= c2
    ensures var t1, t2 := TimeOfDay(c1), TimeOfDay(c2);
            t1.sec < t2.sec || (t1.sec == t2.sec && t1.usec <= t2.usec)
  {
    TimeOfDayIsMicroseconds(c1);
    TimeOfDayIsMicroseconds(c2);
    TimeOfDayFits(c1);
    TimeOfDayFits(c2);
    assert c1 * USEC_PER_SEC <= c2 * USEC_PER_SEC;
  }

  // ---------------------------------------------------------------------
  // sys_getppid

  /** The parent's pid, or IDLE_PID for a process without a parent. */
  function Ppid(parent: Option<nat>): nat
  {
    if parent.None? then IDLE_PID else parent.value
  }

  /** A process reports IDLE_PID as its parent exactly when it has no parent
      or its parent is the idle process: the two cannot be told apart. */
  lemma PpidSentinel(parent: Option<nat>)
    ensures Ppid(parent) == IDLE_PID <==> parent.None? || parent.value == IDLE_PID
    ensures parent.Some? ==> Ppid(parent) == parent.value
  {
  }

  // ---------------------------------------------------------------------
  // sys_set_priority

  /** `sys_set_priority(prio)` on the process's `pass` field: the new `pass`
      and the return value. */
  function SetPriority(pass: nat, prio: int): (nat, Word)
  {
    if prio <= 1 then (pass, NEG1) else (BIG_STRIDE / prio, ToWord(prio))
  }

  /** Priorities up to 1 are refused with -1 and leave `pass` alone; any
      other `long long` priority is accepted, returned, and sets `pass` to the
      largest stride whose product with the priority stays within
      BIG_STRIDE. */
  lemma {:induction false} SetPriorityEffect(pass: nat, prio: int)
    requires -WORD_MOD / 2 <= prio < WORD_MOD / 2
    ensures SetPriority(pass, prio).1 == NEG1 <==> prio <= 1
    ensures prio <= 1 ==> SetPriority(pass, prio).0 == pass
    ensures prio > 1 ==>
              var s := SetPriority(pass, prio).0;
              SetPriority(pass, prio).1 == prio &&
              s * prio <= BIG_STRIDE < (s + 1) * prio
  {
    if prio > 1 {
      var s := BIG_STRIDE / prio;
      assert BIG_STRIDE == s * prio + BIG_STRIDE % prio;
      assert (s + 1) * prio == s * prio + prio;
    }
  }

  /** Any multiplier whose product with `d` stays within `x` is at most the
      quotient. */
  lemma {:induction false} QuotientIsLargest(x: nat, d: nat, s: nat)
    requires d > 0 && s * d <= x
    ensures s <= x / d
  {
    var q := x / d;
    assert x == q * d + x % d;
    assert (s - q - 1) * d < 0 by {
      assert (s - q - 1) * d == s * d - (q * d + d);
    }
  }

  /** The quotient times the divisor does not exceed the dividend. */
  lemma {:induction false} QuotientTimesDivisor(x: nat, d: nat)
    requires d > 0
    ensures (x / d) * d <= x
  {
    assert x == (x / d) * d + x % d;
  }

  lemma {:induction false} MulMonotone(a: nat, b: nat, c: nat)
    requires b <= c
    ensures a * b <= a * c
  {
    assert a * c - a * b == a * (c - b);
  }

  /** A larger priority never gets a larger stride, and every accepted
      priority gets at most half of BIG_STRIDE. */
  lemma {:induction false} StrideAntitone(p1: int, p2: int)
    requires 1 < p1 <= p2
    ensures BIG_STRIDE / p2 <= BIG_STRIDE / p1 <= BIG_STRIDE / 2
  {
    var s2 := BIG_STRIDE / p2;
    QuotientTimesDivisor(BIG_STRIDE, p2);
    MulMonotone(s2, p1, p2);
    QuotientIsLargest(BIG_STRIDE, p1, s2);
    var s1 := BIG_STRIDE / p1;
    QuotientTimesDivisor(BIG_STRIDE, p1);
    MulMonotone(s1, 2, p1);
    QuotientIsLargest(BIG_STRIDE, 2, s1);
  }

  // ---------------------------------------------------------------------
  // sys_sbrk

  /** `sys_sbrk(n)` given what `growproc(n)` did: `None` when it failed, or
      the new program break. Returns the old break, or -1. */
  function Sbrk(brk: nat, grown: Option<nat>): (nat, Word)
  {
    match grown
    case None => (brk, NEG1)
    case Some(b) => (b, ToWord(brk))
  }

  /** `sys_sbrk` returns the break from before the call when `growproc`
      succeeds and -1 otherwise, and keeps the break on failure. */
  lemma SbrkResult(brk: nat, grown: Option<nat>)
    requires brk < NEG1
    ensures Sbrk(brk, grown).1 == NEG1 <==> grown.None?
    ensures grown.None? ==> Sbrk(brk, grown).0 == brk
    ensures grown.Some? ==> Sbrk(brk, grown) == (grown.value, brk)
  {
  }
}
