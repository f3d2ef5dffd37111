/** `sys_exec`'s walk over the user's argument vector: a null-terminated
    array of user pointers at `uargv`, each naming a string that is copied
    into the kernel's fixed pool of MAX_ARG_NUM strings and listed in a
    kernel array of MAX_ARG_NUM pointers, which is null-terminated in turn.

    User memory is given as two functions: `fetch(va)`, the word at user
    address `va` (`fetchaddr`), and `strAt(va)`, the string `copyinstr`
    copies in from `va`. */
module Argv {
  import opened Types

  /** The user address of the `k`th pointer: `uargv` advanced by
      `sizeof(char *)` k times, in uint64 arithmetic. */
  function Slot(uargv: Word, k: nat): Word
  {
    (uargv + 8 * k) % WORD_MOD
  }

  /** Advancing the pointer by one slot, with uint64 wrap-around. */
  lemma SlotStep(uargv: Word, k: nat)
    requires k < MAX_ARG_NUM
    ensures Slot(uargv, k + 1) == (Slot(uargv, k) + 8) % WORD_MOD
  {
    if uargv + 8 * k >= WORD_MOD {
      assert Slot(uargv, k) == uargv + 8 * k - WORD_MOD;
      assert Slot(uargv, k + 1) == uargv + 8 * k + 8 - WORD_MOD;
    } else if uargv + 8 * k + 8 >= WORD_MOD {
      assert Slot(uargv, k + 1) == uargv + 8 * k + 8 - WORD_MOD;
    }
  }

  /** The loop test `uargv && (arg = fetchaddr(..., uargv))` at step `k`. */
  predicate Continues(fetch: Word -> Word, uargv: Word, k: nat)
  {
    Slot(uargv, k) != 0 && fetch(Slot(uargv, k)) != 0
  }

  /** The `k`th argument string. */
  function Arg(fetch: Word -> Word, strAt: Word -> string, uargv: Word, k: nat): string
  {
    strAt(fetch(Slot(uargv, k)))
  }

  /** The walk stops after exactly `n` arguments. */
  predicate StopsAt(fetch: Word -> Word, uargv: Word, n: nat)
  {
    (forall j :: 0 <= j < n ==> Continues(fetch, uargv, j)) && !Continues(fetch, uargv, n)
  }

  /** As written, the loop has no bound: it copies into `strpool[i]` and
      sets `argv[i]` on every step whose test passes, and then sets
      `argv[i] = NULL` where it stopped. Every one of these writes is inside
      the two MAX_ARG_NUM arrays exactly when the walk stops before
      MAX_ARG_NUM arguments. */
  predicate WritesInBoundsAsWritten(fetch: Word -> Word, uargv: Word)
  {
    exists n :: 0 <= n < MAX_ARG_NUM && StopsAt(fetch, uargv, n)
  }

  /** With a vector whose pointers never run out, the loop as written passes
      its test at step MAX_ARG_NUM and so writes one slot past `strpool` and
      `argv`. */
  lemma ArgvOverflowAsWritten()
    ensures var fetch: Word -> Word := _ => 1;
            && (forall j :: 0 <= j <= MAX_ARG_NUM ==> Continues(fetch, 8, j))
            && !WritesInBoundsAsWritten(fetch, 8)
  {
    var fetch: Word -> Word := _ => 1;
    forall n | 0 <= n < MAX_ARG_NUM
      ensures !StopsAt(fetch, 8, n)
    {
      assert Continues(fetch, 8, n);
    }
  }

  // ---------------------------------------------------------------------
  // The bounded walk

  /** The arguments from step `i` on, or `None` when the vector holds so many
      that `argv` would have no slot left for its terminating null. */
  function Walk(fetch: Word -> Word, strAt: Word -> string, uargv: Word, i: nat): Option<seq<string>>
    requires i < MAX_ARG_NUM
    decreases MAX_ARG_NUM - i
  {
    if !Continues(fetch, uargv, i) then Some([])
    else if i + 1 == MAX_ARG_NUM then None
    else match Walk(fetch, strAt, uargv, i + 1)
         case None => None
         case Some(rest) => Some([Arg(fetch, strAt, uargv, i)] + rest)
  }

  /** The argument list `sys_exec` hands to `exec`, or `None` when it must
      refuse the vector with -1. */
  function ArgvOf(fetch: Word -> Word, strAt: Word -> string, uargv: Word): Option<seq<string>>
  {
    Walk(fetch, strAt, uargv, 0)
  }

  /** When the walk from step `i` yields a list, it is the arguments from
      step `i` up to the first step whose test fails, which comes before
      MAX_ARG_NUM. */
  lemma {:induction false} WalkSome(fetch: Word -> Word, strAt: Word -> string, uargv: Word, i: nat)
    requires i < MAX_ARG_NUM
    requires Walk(fetch, strAt, uargv, i).Some?
    decreases MAX_ARG_NUM - i
    ensures var args := Walk(fetch, strAt, uargv, i).value;
            && i + |args| < MAX_ARG_NUM
            && !Continues(fetch, uargv, i + |args|)
            && forall j :: i <= j < i + |args| ==>
                 Continues(fetch, uargv, j) && args[j - i] == Arg(fetch, strAt, uargv, j)
  {
    if Continues(fetch, uargv, i) {
      WalkSome(fetch, strAt, uargv, i + 1);
      var rest := Walk(fetch, strAt, uargv, i + 1).value;
      var args := Walk(fetch, strAt, uargv, i).value;
      assert args == [Arg(fetch, strAt, uargv, i)] + rest;
      assert i + |args| == (i + 1) + |rest|;
      forall k | 0 < k < |args|
        ensures args[k] == rest[k - 1]
      {
      }
    }
  }

  /** The walk from step `i` gives up exactly when the test passes at every
      step from `i` to MAX_ARG_NUM - 1. */
  lemma {:induction false} WalkNone(fetch: Word -> Word, strAt: Word -> string, uargv: Word, i: nat)
    requires i < MAX_ARG_NUM
    decreases MAX_ARG_NUM - i
    ensures Walk(fetch, strAt, uargv, i).None? <==>
              forall j :: i <= j < MAX_ARG_NUM ==> Continues(fetch, uargv, j)
  {
    if Continues(fetch, uargv, i) && i + 1 < MAX_ARG_NUM {
      WalkNone(fetch, strAt, uargv, i + 1);
    }
  }

  /** `sys_exec` refuses the vector exactly when its first MAX_ARG_NUM
      pointers are all non-null; otherwise it passes on the strings before the
      first null pointer, in order. */
  lemma ArgvOfCorrect(fetch: Word -> Word, strAt: Word -> string, uargv: Word)
    ensures ArgvOf(fetch, strAt, uargv).None? <==>
              forall j :: 0 <= j < MAX_ARG_NUM ==> Continues(fetch, uargv, j)
    ensures ArgvOf(fetch, strAt, uargv).Some? ==>
              var args := ArgvOf(fetch, strAt, uargv).value;
              && |args| < MAX_ARG_NUM
              && StopsAt(fetch, uargv, |args|)
              && forall k :: 0 <= k < |args| ==> args[k] == Arg(fetch, strAt, uargv, k)
  {
    WalkNone(fetch, strAt, uargv, 0);
    if ArgvOf(fetch, strAt, uargv).Some? {
      WalkSome(fetch, strAt, uargv, 0);
    }
  }

  /** The walk stops at one place at most. */
  lemma StopIsUnique(fetch: Word -> Word, uargv: Word, m: nat, n: nat)
    requires StopsAt(fetch, uargv, m) && StopsAt(fetch, uargv, n)
    ensures m == n
  {
  }

  /** Wherever the loop as written stays inside its arrays, the bounded walk
      accepts the vector and yields the same arguments; where it does not,
      the bounded walk refuses it. */
  lemma {:induction false} ArgvOfAgreesAsWritten(fetch: Word -> Word, strAt: Word -> string, uargv: Word)
    ensures ArgvOf(fetch, strAt, uargv).Some? <==> WritesInBoundsAsWritten(fetch, uargv)
    ensures forall n :: 0 <= n < MAX_ARG_NUM && StopsAt(fetch, uargv, n) ==>
              ArgvOf(fetch, strAt, uargv) == Some(seq(n, k requires 0 <= k < n => Arg(fetch, strAt, uargv, k)))
  {
    ArgvOfCorrect(fetch, strAt, uargv);
    var r := ArgvOf(fetch, strAt, uargv);
    if r.Some? {
      assert StopsAt(fetch, uargv, |r.value|);
      forall n | 0 <= n < MAX_ARG_NUM && StopsAt(fetch, uargv, n)
        ensures r == Some(seq(n, k requires 0 <= k < n => Arg(fetch, strAt, uargv, k)))
      {
        StopIsUnique(fetch, uargv, n, |r.value|);
        var expected := seq(n, k requires 0 <= k < n => Arg(fetch, strAt, uargv, k));
        assert |r.value| == |expected|;
        assert forall k | 0 <= k < n :: r.value[k] == expected[k];
        assert r.value == expected;
      }
    } else {
      forall n | 0 <= n < MAX_ARG_NUM
        ensures !StopsAt(fetch, uargv, n)
      {
        assert Continues(fetch, uargv, n);
      }
    }
  }

  /** The bounded loop: fills a fresh MAX_ARG_NUM-slot `argv` with the
      argument strings and a terminating `None`, and reports the count, or
      gives up when the terminator would not fit. */
  method CollectArgv(fetch: Word -> Word, strAt: Word -> string, uargv: Word)
    returns (argv: array<Option<string>>, argc: nat, ok: bool)
    ensures argv.Length == MAX_ARG_NUM
    ensures ok <==> ArgvOf(fetch, strAt, uargv).Some?
    ensures ok ==>
              var args := ArgvOf(fetch, strAt, uargv).value;
              && argc == |args| < MAX_ARG_NUM
              && argv[argc] == None
              && forall k :: 0 <= k < argc ==> argv[k] == Some(args[k])
  {
    argv := new Option<string>[MAX_ARG_NUM](_ => None);
    var i: nat := 0;
    var ua := uargv;
    while ua != 0 && fetch(ua) != 0
      invariant i < MAX_ARG_NUM
      invariant ua == Slot(uargv, i)
      invariant forall j :: 0 <= j < i ==> Continues(fetch, uargv, j)
      invariant forall j :: 0 <= j < i ==> argv[j] == Some(Arg(fetch, strAt, uargv, j))
      decreases MAX_ARG_NUM - i
    {
      if i + 1 == MAX_ARG_NUM {
        assert Continues(fetch, uargv, i);
        ArgvOfCorrect(fetch, strAt, uargv);
        return argv, 0, false;
      }
      argv[i] := Some(strAt(fetch(ua)));
      SlotStep(uargv, i);
      ua := (ua + 8) % WORD_MOD;
      i := i + 1;
    }
    argv[i] := None;
    ArgvOfAgreesAsWritten(fetch, strAt, uargv);
    assert StopsAt(fetch, uargv, i);
    return argv, i, true;
  }
}
