/**
 * The C integer widths the sources rely on (LP64): a 32-bit `int`, 64-bit `long`, `size_t` and `intmax_t`, and the casts
 * between them, which keep the low bits and read them as two's complement. Shifts are repeated halving and doubling, so
 * that they need no bit vectors; a shift to the left is truncated where it is used, to the width of the variable that
 * takes it.
 */
module Words {
  const TWO_TO_32 := 0x1_0000_0000
  const TWO_TO_63 := 0x8000_0000_0000_0000
  const TWO_TO_64 := 0x1_0000_0000_0000_0000

  type U32 = x: int | 0 <= x < TWO_TO_32
  type U64 = x: int | 0 <= x < TWO_TO_64
  type I64 = x: int | -TWO_TO_63 <= x < TWO_TO_63

  /** `(int)x`: the low 32 bits, read as two's complement. */
  function AsInt32(x: int): int {
    var low := x % TWO_TO_32;
    if low < 0x8000_0000 then low else low - TWO_TO_32
  }

  /** `(intmax_t)x`: the low 64 bits, read as two's complement. */
  function AsInt64(x: int): I64 {
    var low := x % TWO_TO_64;
    if low < TWO_TO_63 then low else low - TWO_TO_64
  }

  /** `v >> n` on an unsigned value. */
  function Shr(v: nat, n: nat): nat
    decreases n
  {
    if n == 0 then v else Shr(v / 2, n - 1)
  }

  /** `v << n`, before any truncation. */
  function Shl(v: nat, n: nat): nat
    decreases n
  {
    if n == 0 then v else Shl(v * 2, n - 1)
  }

  lemma ShrNothing(v: nat)
    ensures Shr(v, 0) == v
  {
  }

  lemma {:induction false} ShrAdd(v: nat, m: nat, n: nat)
    ensures Shr(v, m + n) == Shr(Shr(v, m), n)
    decreases m
  {
    if m > 0 {
      ShrAdd(v / 2, m - 1, n);
    }
  }

  lemma {:induction false} ShlOnce(v: nat, n: nat)
    ensures Shl(v, n + 1) == 2 * Shl(v, n)
    decreases n
  {
    if n > 0 {
      ShlOnce(v * 2, n - 1);
    }
  }

  lemma Shr4(v: nat)
    ensures Shr(v, 4) == v / 16
  {
    assert Shr(v, 2) == v / 4;
    assert Shr(v / 4, 2) == v / 4 / 4;
    ShrAdd(v, 2, 2);
  }

  lemma Shr7(v: nat)
    ensures Shr(v, 7) == v / 128
  {
    Shr4(v);
    ShrAdd(v, 4, 3);
    var w := v / 16;
    assert Shr(w, 1) == w / 2;
    ShrAdd(w, 1, 2);
    assert Shr(w / 2, 2) == w / 2 / 4;
  }

  lemma Shr8(v: nat)
    ensures Shr(v, 8) == v / 256
  {
    Shr4(v);
    Shr4(v / 16);
    ShrAdd(v, 4, 4);
  }
}
