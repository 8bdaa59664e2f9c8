/** The unsigned integers that serve as exponents (the
    `IsUnsignedInteger` capability set): a value of a type whose
    `size_of` is `size` bytes is a `nat` that fits in `size * 8` bits, and
    the bit operations the exponentiation uses (`&`, `<<`, `>>`) are defined
    arithmetically. */
module Unsigned {

  /** `size_of::<T>() * 8`: the number of bits of an unsigned type whose
      size is `size` bytes. */
  function NumBits(size: nat): nat
  {
    size * 8
  }

  function Pow2(i: nat): (p: nat)
    ensures p >= 1
  {
    if i == 0 then 1 else 2 * Pow2(i - 1)
  }

  /** The number of significant bits of `x` (0 for 0). */
  function BitLength(x: nat): nat
  {
    if x == 0 then 0 else 1 + BitLength(x / 2)
  }

  /** `x` is a value of the unsigned type of `size` bytes. */
  ghost predicate InRange(size: nat, x: nat) {
    BitLength(x) <= NumBits(size)
  }

  /** Bitwise AND, bit by bit from the least significant one. */
  function And(a: nat, b: nat): nat
  {
    if a == 0 || b == 0 then 0 else 2 * And(a / 2, b / 2) + (a % 2) * (b % 2)
  }

  /** `x >> i` on an unsigned value: `i` single-bit shifts, each dropping
      the lowest bit. */
  function Shr(x: nat, i: nat): nat
  {
    if i == 0 then x else Shr(x / 2, i - 1)
  }

  /** `x << i` on an unsigned value of `size` bytes: bits shifted past the
      width are lost. Rust rejects a shift by the width or more. */
  function Shl(size: nat, x: nat, i: nat): nat
    requires i < NumBits(size)
  {
    (x * Pow2(i)) % Pow2(NumBits(size))
  }

  /** Bit `i` of `x`. */
  function BitOf(x: nat, i: nat): nat
  {
    Shr(x, i) % 2
  }

  lemma DivUnique(a: int, d: int, q: int, r: int)
    requires d > 0 && 0 <= r < d && a == d * q + r
    ensures a / d == q && a % d == r
  {
    var k := q - a / d;
    assert d * k == a % d - r by {
      assert a == d * (a / d) + a % d;
      assert d * q == d * (a / d) + d * k;
    }
  }

  /** Halving after dividing by `p` is dividing by `2 * p`. */
  lemma HalveAfterDiv(x: nat, p: nat)
    requires p > 0
    ensures (x / p) / 2 == x / (2 * p)
  {
    var q, r0 := (x / p) / 2, x % p;
    assert x == p * (x / p) + r0;
    if (x / p) % 2 == 0 {
      assert x / p == 2 * q;
      assert p * (2 * q) == (2 * p) * q;
      DivUnique(x, 2 * p, q, r0);
    } else {
      assert x / p == 2 * q + 1;
      assert p * (2 * q + 1) == (2 * p) * q + p;
      DivUnique(x, 2 * p, q, p + r0);
    }
  }

  /** One more shift halves once more. */
  lemma {:induction false} ShrSucc(x: nat, i: nat)
    ensures Shr(x, i + 1) == Shr(x, i) / 2
  {
    if i > 0 {
      ShrSucc(x / 2, i - 1);
    }
  }

  /** `x >> i` is `x` divided by 2^i, rounding down. */
  lemma {:induction false} ShrIsDiv(x: nat, i: nat)
    ensures Shr(x, i) == x / Pow2(i)
  {
    if i > 0 {
      ShrIsDiv(x, i - 1);
      ShrSucc(x, i - 1);
      HalveAfterDiv(x, Pow2(i - 1));
    }
  }

  /** The bits of `x` from `i` up are those from `i + 1` up followed by
      bit `i`. */
  lemma PrefixStep(x: nat, i: nat)
    ensures Shr(x, i) == 2 * Shr(x, i + 1) + BitOf(x, i)
  {
    ShrSucc(x, i);
  }

  /** Bit `i` of `x` is `(x / 2^i) % 2`, a 0 or a 1. */
  lemma BitOfIsDivMod(x: nat, i: nat)
    ensures BitOf(x, i) == (x / Pow2(i)) % 2
    ensures BitOf(x, i) <= 1
  {
    ShrIsDiv(x, i);
  }

  lemma {:induction false} ShrOfZero(i: nat)
    ensures Shr(0, i) == 0
  {
    if i > 0 {
      ShrOfZero(i - 1);
    }
  }

  /** Masking with a single power of two keeps exactly that bit. */
  lemma {:induction false} AndPow2(x: nat, i: nat)
    ensures And(x, Pow2(i)) == if BitOf(x, i) == 1 then Pow2(i) else 0
  {
    if x == 0 {
      ShrOfZero(i);
    } else if i == 0 {
      assert And(x, 1) == 2 * And(x / 2, 0) + (x % 2) * 1;
    } else {
      AndPow2(x / 2, i - 1);
      var p := Pow2(i - 1);
      assert Pow2(i) == 2 * p && Pow2(i) % 2 == 0 && Pow2(i) / 2 == p;
      assert And(x, Pow2(i)) == 2 * And(x / 2, p) + (x % 2) * 0;
      assert BitOf(x / 2, i - 1) == BitOf(x, i);
    }
  }

  /** Shifting `1 << i` back by `i` gives 1. */
  lemma {:induction false} ShrOfPow2(i: nat)
    ensures Shr(Pow2(i), i) == 1
  {
    if i > 0 {
      ShrOfPow2(i - 1);
    }
  }

  /** `1 << i` does not overflow below the width. */
  lemma {:induction false} Pow2Monotone(i: nat, j: nat)
    requires i <= j
    ensures Pow2(i) <= Pow2(j)
    ensures i < j ==> Pow2(i) < Pow2(j)
  {
    if i < j {
      Pow2Monotone(i, j - 1);
    }
  }

  /** `((x & (1 << i)) >> i) == 1`, as a 0/1 value: the bit extraction of
      the constant-time exponentiation (cyclic_group.rs lines 43-44) yields
      bit `i` of `x`. */
  function ExtractBit(size: nat, x: nat, i: nat): (b: nat)
    requires i < NumBits(size)
    ensures b == BitOf(x, i) && b <= 1
  {
    Pow2Monotone(i, NumBits(size));
    DivUnique(1 * Pow2(i), Pow2(NumBits(size)), 0, Pow2(i));
    AndPow2(x, i);
    ShrOfPow2(i);
    ShrOfZero(i);
    if Shr(And(x, Shl(size, 1, i)), i) == 1 then 1 else 0
  }

  /** `x & 1 == 1` tests oddness and `x >> 1` halves. */
  lemma LowBit(x: nat)
    ensures (And(x, 1) == 1) == (x % 2 == 1)
    ensures Shr(x, 1) == x / 2
  {
    AndPow2(x, 0);
  }

  /** `x` has at most `n` significant bits exactly when `x < 2^n`: the
      arithmetic meaning of `InRange`. */
  lemma {:induction false} BitLengthBelow(x: nat, n: nat)
    ensures BitLength(x) <= n <==> x < Pow2(n)
  {
    if x > 0 && n > 0 {
      BitLengthBelow(x / 2, n - 1);
    }
  }

  /** Shifting out at least as many bits as `x` has leaves nothing. */
  lemma {:induction false} ShrPastBitLength(x: nat, n: nat)
    requires BitLength(x) <= n
    ensures Shr(x, n) == 0
  {
    if n > 0 {
      ShrPastBitLength(x / 2, n - 1);
    }
  }
}
