/**
  Shifts, bit lengths and trailing zeros on natural numbers, as the tree
  arithmetic uses them.  Everything is defined by halving and doubling, so that
  proofs need linear arithmetic only.
 */
module Binary {

  /** `x << e` */
  function Shl(x: nat, e: nat): nat {
    if e == 0 then x else 2 * Shl(x, e - 1)
  }

  /** `x >> e` */
  function Shr(x: nat, e: nat): nat {
    if e == 0 then x else Shr(x, e - 1) / 2
  }

  function Pow2(e: nat): nat {
    Shl(1, e)
  }

  /** The number of bits needed to write `n`; 0 for 0. */
  function BitLen(n: nat): nat {
    if n == 0 then 0 else 1 + BitLen(n / 2)
  }

  /** The number of low zero bits of a positive number. */
  function TrailingZeros(n: nat): nat
    requires n > 0
  {
    if n % 2 == 1 then 0 else 1 + TrailingZeros(n / 2)
  }

  /** Bitwise exclusive or. */
  function Xor(a: nat, b: nat): nat {
    if a == 0 && b == 0 then 0
    else 2 * Xor(a / 2, b / 2) + (if a % 2 == b % 2 then 0 else 1)
  }

  /** True iff `n` is an exact power of two. */
  predicate IsPow2(n: nat) {
    n > 0 && Pow2(TrailingZeros(n)) == n
  }

  lemma {:induction false} ShlOnce(x: nat, e: nat)
    ensures Shl(x, e + 1) == 2 * Shl(x, e)
  {
  }

  lemma {:induction false} ShlMonotone(x: nat, y: nat, e: nat)
    ensures x <= y ==> Shl(x, e) <= Shl(y, e)
    ensures x < y ==> Shl(x, e) < Shl(y, e)
  {
    if e > 0 { ShlMonotone(x, y, e - 1); }
  }

  lemma {:induction false} ShlAdd(x: nat, y: nat, e: nat)
    ensures Shl(x + y, e) == Shl(x, e) + Shl(y, e)
  {
    if e > 0 { ShlAdd(x, y, e - 1); }
  }

  lemma ShlOdd(q: nat, e: nat)
    ensures Shl(2 * q + 1, e) == Shl(q, e + 1) + Pow2(e)
  {
    ShlAdd(q, q, e);
    ShlAdd(2 * q, 1, e);
    ShlOnce(q, e);
  }

  lemma {:induction false} ShlZero(e: nat)
    ensures Shl(0, e) == 0
  {
    if e > 0 { ShlZero(e - 1); }
  }

  lemma {:induction false} ShlShl(x: nat, a: nat, b: nat)
    ensures Shl(Shl(x, a), b) == Shl(x, a + b)
  {
    if b > 0 { ShlShl(x, a, b - 1); }
  }

  lemma {:induction false} ShlAtLeast(x: nat, e: nat)
    ensures Shl(x, e) >= x
    ensures x > 0 && e > 0 ==> Shl(x, e) > x
  {
    if e > 0 { ShlAtLeast(x, e - 1); }
  }

  lemma {:induction false} Pow2Monotone(a: nat, b: nat)
    requires a <= b
    ensures 1 <= Pow2(a) <= Pow2(b)
    ensures a < b ==> 2 * Pow2(a) <= Pow2(b)
  {
    if a < b {
      Pow2Monotone(a, b - 1);
    } else {
      ShlAtLeast(1, a);
    }
  }

  lemma {:induction false} ShrHalf(x: nat, e: nat)
    ensures Shr(x / 2, e) == Shr(x, e + 1)
  {
    if e > 0 { ShrHalf(x, e - 1); }
  }

  lemma {:induction false} ShrShr(x: nat, a: nat, b: nat)
    ensures Shr(Shr(x, a), b) == Shr(x, a + b)
  {
    if b > 0 { ShrShr(x, a, b - 1); }
  }

  /** Shifting right undoes shifting left, and lower bits do not interfere. */
  lemma {:induction false} ShrAddShl(x: nat, y: nat, e: nat)
    ensures Shr(x + Shl(y, e), e) == Shr(x, e) + y
    decreases e
  {
    if e > 0 {
      ShlShl(y, 1, e - 1);
      assert Shl(2 * y, e - 1) == Shl(y, e) by { assert Shl(y, 1) == 2 * y; }
      ShrAddShl(x, 2 * y, e - 1);
    }
  }

  lemma {:induction false} ShrZero(e: nat)
    ensures Shr(0, e) == 0
  {
    if e > 0 { ShrZero(e - 1); }
  }

  lemma {:induction false} ShrShl(y: nat, e: nat)
    ensures Shr(Shl(y, e), e) == y
  {
    ShrAddShl(0, y, e);
    ShrZero(e);
  }

  /** Shifting right rounds down to a multiple of `Pow2(e)`. */
  lemma {:induction false} ShrBounds(x: nat, e: nat)
    ensures Shl(Shr(x, e), e) <= x < Shl(Shr(x, e) + 1, e)
    decreases e
  {
    if e > 0 {
      ShrBounds(x, e - 1);
      var q := Shr(x, e - 1);
      ShlShl(q / 2, 1, e - 1);
      ShlShl(q / 2 + 1, 1, e - 1);
      assert Shl(q / 2, 1) == 2 * (q / 2) && Shl(q / 2 + 1, 1) == 2 * (q / 2 + 1);
      ShlMonotone(2 * (q / 2), q, e - 1);
      ShlMonotone(q + 1, 2 * (q / 2 + 1), e - 1);
    }
  }

  /** The quotient is the only number with those bounds. */
  lemma {:induction false} ShrUnique(x: nat, q: nat, e: nat)
    requires Shl(q, e) <= x < Shl(q + 1, e)
    ensures Shr(x, e) == q
  {
    ShrBounds(x, e);
    if Shr(x, e) < q {
      ShlMonotone(Shr(x, e) + 1, q, e);
    } else if Shr(x, e) > q {
      ShlMonotone(q + 1, Shr(x, e), e);
    }
  }

  /** `b` bits are what it takes to write `n`. */
  ghost predicate HasBits(n: nat, b: nat) {
    b > 0 && Pow2(b - 1) <= n < Pow2(b)
  }

  lemma {:induction false} BitLenBounds(n: nat)
    requires n > 0
    ensures HasBits(n, BitLen(n))
  {
    if n > 1 {
      BitLenBounds(n / 2);
      OneBitMore(n, BitLen(n / 2));
      assert BitLen(n) == BitLen(n / 2) + 1;
    } else {
      assert BitLen(1) == 1 + BitLen(0) == 1;
      assert HasBits(1, 1) by { ShlOnce(1, 0); }
    }
  }

  lemma OneBitMore(n: nat, b: nat)
    requires HasBits(n / 2, b)
    ensures HasBits(n, b + 1)
  {
    ShlOnce(1, b - 1);
    ShlOnce(1, b);
  }

  lemma {:induction false} BitLenUnique(n: nat, e: nat)
    requires Pow2(e) <= n < 2 * Pow2(e)
    ensures n > 0 && BitLen(n) == e + 1
  {
    ShlAtLeast(1, e);
    BitLenBounds(n);
    var b := BitLen(n) - 1;
    if b < e {
      Pow2Monotone(b + 1, e);
    } else if b > e {
      Pow2Monotone(e + 1, b);
    }
  }

  /** The exponent of the largest power of two that is at most `n`. */
  ghost function Log2(n: nat): (e: nat)
    requires n > 0
    ensures Pow2(e) <= n < 2 * Pow2(e)
  {
    BitLenBounds(n);
    assert Pow2(BitLen(n) - 1) <= n < 2 * Pow2(BitLen(n) - 1);
    var e: nat :| Pow2(e) <= n < 2 * Pow2(e); e
  }

  lemma Log2Unique(n: nat, e: nat)
    requires Pow2(e) <= n < 2 * Pow2(e)
    ensures n > 0 && Log2(n) == e == BitLen(n) - 1
  {
    BitLenUnique(n, e);
    BitLenUnique(n, Log2(n));
  }

  lemma {:induction false} XorSelf(a: nat)
    ensures Xor(a, a) == 0
  {
    if a > 0 { XorSelf(a / 2); }
  }

  lemma {:induction false} TrailingZerosDouble(n: nat)
    requires n > 0
    ensures TrailingZeros(2 * n) == 1 + TrailingZeros(n)
  {
  }

  /** A positive number is an odd number shifted by its trailing zeros. */
  lemma {:induction false} TrailingZerosSplit(n: nat)
    requires n > 0
    ensures var l := TrailingZeros(n); var q := Shr(n - 1, l);
            Shl(q + 1, l) == n && q % 2 == 0
  {
    if n % 2 == 0 {
      TrailingZerosSplit(n / 2);
      var l := TrailingZeros(n / 2);
      ShrHalf(n - 1, l);
      assert (n - 1) / 2 == n / 2 - 1;
    }
  }
}
