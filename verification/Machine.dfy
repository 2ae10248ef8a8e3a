/** Fixed-width machine arithmetic: 32-bit wrap-around, C's truncating division, and the two bitwise
    operators the kernel applies to page-table entries. */
module Machine {
  type uint8 = x: int | 0 <= x < 0x100
  type uint32 = x: int | 0 <= x < 0x1_0000_0000

  const PAGE_SIZE := 4096
  const EIO := 1
  const EINVARG := 2
  const ENOMEM := 3

  /** The longest path, and the size of the buffers that hold parts of one. */
  const MAX_PATH := 108

  datatype Option<T> = None | Some(value: T)

  function Wrap(x: int): uint32 {
    x % 0x1_0000_0000
  }

  /** The value of an unsigned word read as a signed 32-bit integer. */
  function ToSigned(x: uint32): int {
    if x < 0x8000_0000 then x else x - 0x1_0000_0000
  }

  /** C's `/` and `%`: the quotient is rounded toward zero. */
  function TruncDiv(a: int, b: int): int
    requires b > 0
  {
    if a >= 0 then a / b else -((-a) / b)
  }

  function TruncRem(a: int, b: int): int
    requires b > 0
  {
    if a >= 0 then a % b else -((-a) % b)
  }

  function Pow2(k: nat): nat {
    if k == 0 then 1 else 2 * Pow2(k - 1)
  }

  /** Bitwise or. */
  function Or(a: nat, b: nat): nat {
    if a == 0 then b
    else if b == 0 then a
    else (if a % 2 == 1 || b % 2 == 1 then 1 else 0) + 2 * Or(a / 2, b / 2)
  }

  /** Bitwise and. */
  function And(a: nat, b: nat): nat {
    if a == 0 || b == 0 then 0
    else (if a % 2 == 1 && b % 2 == 1 then 1 else 0) + 2 * And(a / 2, b / 2)
  }

  /** `q << k`. */
  function Shl(q: nat, k: nat): nat {
    if k == 0 then q else 2 * Shl(q, k - 1)
  }

  lemma {:induction false} ShlIsProduct(q: nat, k: nat)
    ensures Shl(q, k) == q * Pow2(k)
  {
    if k > 0 {
      ShlIsProduct(q, k - 1);
    }
  }

  /** Or-ing a value below 2^k only affects the low k bits. */
  lemma {:induction false} OrLow(q: nat, a: nat, b: nat, k: nat)
    requires a < Pow2(k) && b < Pow2(k)
    ensures Or(a, b) < Pow2(k)
    ensures Or(Shl(q, k) + a, b) == Shl(q, k) + Or(a, b)
  {
    if k > 0 {
      OrLow(q, a / 2, b / 2, k - 1);
      assert (Shl(q, k) + a) / 2 == Shl(q, k - 1) + a / 2;
    }
  }

  /** And-ing with a multiple of 2^k drops the low k bits. */
  lemma {:induction false} AndHigh(q: nat, a: nat, m: nat, k: nat)
    requires a < Pow2(k)
    ensures And(Shl(q, k) + a, Shl(m, k)) == Shl(And(q, m), k)
  {
    if k > 0 {
      AndHigh(q, a / 2, m, k - 1);
      assert (Shl(q, k) + a) / 2 == Shl(q, k - 1) + a / 2;
    }
  }

  /** And-ing with n ones keeps a value below 2^n. */
  lemma {:induction false} AndOnes(x: nat, n: nat)
    requires x < Pow2(n)
    ensures And(x, Pow2(n) - 1) == x
  {
    if n > 0 {
      AndOnes(x / 2, n - 1);
    }
  }

  lemma Shl12(q: nat)
    ensures Shl(q, 12) == 4096 * q && Pow2(12) == 4096
  {
    ShlIsProduct(q, 12);
    assert Pow2(12) == 4096;
  }

  /** The page frame an entry names. */
  function FrameOf(entry: uint32): (frame: uint32) {
    entry - entry % PAGE_SIZE
  }

  /** Masking with 0xFFFFF000 recovers the frame of an entry. */
  lemma MaskIsFrame(entry: uint32)
    ensures And(entry, 0xFFFF_F000) == FrameOf(entry)
  {
    Shl12(entry / 4096); Shl12(0xF_FFFF);
    AndHigh(entry / 4096, entry % 4096, 0xF_FFFF, 12);
    assert Pow2(20) == 0x10_0000;
    AndOnes(entry / 4096, 20);
  }

  /** Or-ing flags into an entry keeps its frame and only touches the low 12 bits. */
  lemma OrIsFlags(entry: uint32, flags: nat)
    requires flags < PAGE_SIZE
    ensures Or(entry, flags) == FrameOf(entry) + Or(entry % PAGE_SIZE, flags) < 0x1_0000_0000
    ensures Or(entry % PAGE_SIZE, flags) < PAGE_SIZE
  {
    Shl12(entry / 4096);
    OrLow(entry / 4096, entry % 4096, flags, 12);
  }

  /** And picks out bits: bit k of the result is set exactly when it is set in both; and so for Or, in either. */
  lemma {:induction false} BitOfAndOr(a: nat, b: nat, k: nat)
    ensures Bit(And(a, b), k) <==> Bit(a, k) && Bit(b, k)
    ensures Bit(Or(a, b), k) <==> Bit(a, k) || Bit(b, k)
    decreases k
  {
    NoBits(k);
    if a > 0 && b > 0 && k > 0 {
      BitOfAndOr(a / 2, b / 2, k - 1);
    }
  }

  /** Bit k of x. */
  predicate Bit(x: nat, k: nat) {
    if k == 0 then x % 2 == 1 else Bit(x / 2, k - 1)
  }

  lemma {:induction false} NoBits(k: nat)
    ensures !Bit(0, k)
  {
    if k > 0 {
      NoBits(k - 1);
    }
  }

  /** A page-aligned address is word-aligned; its word is the first of its frame. */
  lemma PageAlignedWord(a: nat)
    requires a % PAGE_SIZE == 0
    ensures a % 4 == 0 && a / 4 == 1024 * (a / PAGE_SIZE)
  {
    assert a == 4 * (1024 * (a / PAGE_SIZE));
  }
}
