/** Machine words, the C integer conversions the system-call layer performs,
    and the kernel configuration constants it uses. */
module Types {

  datatype Option<T> = None | Some(value: T)

  /** 2^64: uint64 arithmetic is arithmetic modulo this. */
  const WORD_MOD: int := 0x1_0000_0000_0000_0000
  /** 2^32 and 2^31, for the 32-bit `int` conversions. */
  const INT_MOD: int := 0x1_0000_0000
  const INT_HALF: int := 0x8000_0000

  /** An unsigned 64-bit machine word (uint64, a register, a user address). */
  type Word = x: int | 0 <= x < WORD_MOD

  /** `(uint64)-1`: the single failure value every handler returns. */
  const NEG1: Word := WORD_MOD - 1

  // Configuration constants of the kernel's headers.
  const PAGE_SIZE: nat := 4096
  const FD_BUFFER_SIZE: nat := 16
  const MAX_STR_LEN: nat := 200
  const MAX_ARG_NUM: nat := 32
  const BIG_STRIDE: nat := 65536
  const IDLE_PID: nat := 0
  const CPU_FREQ: nat := 12500000

  function Max(a: int, b: int): int { if a < b then b else a }

  /** C's conversion of an integer value to a 32-bit `int`: keep the low 32
      bits and read them as a two's-complement number. */
  function ToInt32(v: int): (r: int)
    ensures -INT_HALF <= r < INT_HALF
    ensures (v - r) % INT_MOD == 0
  {
    var m := v % INT_MOD;
    if m < INT_HALF then m else m - INT_MOD
  }

  /** C's conversion of a 64-bit word to `long long`. */
  function ToInt64(w: Word): (r: int)
    ensures -WORD_MOD / 2 <= r < WORD_MOD / 2
    ensures (w - r) % WORD_MOD == 0
  {
    if w < WORD_MOD / 2 then w else w - WORD_MOD
  }

  /** C's conversion of a signed value to uint64 (sign extension). */
  function ToWord(v: int): (r: Word)
    ensures (v - r) % WORD_MOD == 0
  {
    v % WORD_MOD
  }

  /** Reading a uint64 as `int` and storing that `int` back into a uint64
      slot gives the word back exactly when it is the sign extension of its
      own low 32 bits. */
  lemma {:induction false} Int32RoundTrip(w: Word)
    ensures ToWord(ToInt32(w)) == w <==> w < INT_HALF || WORD_MOD - INT_HALF <= w
  {
    var m := w % INT_MOD;
    if w < INT_HALF {
      assert m == w;
    } else if WORD_MOD - INT_HALF <= w {
      assert w == (WORD_MOD - INT_MOD) + m;
      assert m >= INT_HALF;
    } else {
      if m < INT_HALF {
        assert ToWord(ToInt32(w)) == m;
      } else {
        assert ToWord(ToInt32(w)) == WORD_MOD + m - INT_MOD;
      }
    }
  }

  /** Every 32-bit `int` survives the store into a uint64 register and the
      read back as `int`: in particular the failure value -1. */
  lemma Int32Survives(v: int)
    requires -INT_HALF <= v < INT_HALF
    ensures ToInt32(ToWord(v)) == v
  {
  }
}
