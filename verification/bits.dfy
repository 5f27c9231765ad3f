/** Machine words as naturals: powers of two, single bits, and the bitwise
    AND, OR, shifts and 64-bit complement the C code applies to them.
    Every operation is characterised bit by bit, and two naturals with the
    same bits are equal, so facts about masks and fields reduce to facts
    about bit positions. */
module Bits {
  import opened Wrappers
  import opened Arith

  function Pow2(k: nat): (p: nat)
    ensures p >= 1
  {
    if k == 0 then 1 else 2 * Pow2(k - 1)
  }

  lemma {:induction false} Pow2Add(a: nat, b: nat)
    ensures Pow2(a + b) == Pow2(a) * Pow2(b)
    decreases b
  {
    if b > 0 {
      Pow2Add(a, b - 1);
      calc {
        Pow2(a + b);
        2 * Pow2(a + b - 1);
        2 * (Pow2(a) * Pow2(b - 1));
        Pow2(a) * (2 * Pow2(b - 1));
        Pow2(a) * Pow2(b);
      }
    }
  }

  lemma {:induction false} Pow2Mono(a: nat, b: nat)
    requires a <= b
    ensures Pow2(a) <= Pow2(b)
    decreases b
  {
    if a < b { Pow2Mono(a, b - 1); }
  }

  /** The 64-bit range is the range of the word the code stores a page
      table entry in. */
  lemma Pow2Of64()
    ensures Pow2(64) == U64_LIMIT
  {
    assert Pow2(4) == 16;
    Pow2Add(4, 4);
    assert Pow2(8) == 0x100;
    Pow2Add(8, 8);
    assert Pow2(16) == 0x1_0000;
    Pow2Add(16, 16);
    assert Pow2(32) == 0x1_0000_0000;
    Pow2Add(32, 32);
  }

  predicate IsPow2(n: nat)
    decreases n
  {
    n == 1 || (n > 1 && n % 2 == 0 && IsPow2(n / 2))
  }

  lemma {:induction false} Pow2IsPow2(k: nat)
    ensures IsPow2(Pow2(k))
  {
    if k > 0 {
      Pow2IsPow2(k - 1);
      assert Pow2(k) / 2 == Pow2(k - 1);
    }
  }

  // ---------------------------------------------------------------------
  // Single bits

  /** Bit `i` of `x` is set. */
  predicate Bit(x: nat, i: nat)
    decreases i
  {
    if i == 0 then x % 2 == 1 else Bit(x / 2, i - 1)
  }

  lemma {:induction false} BitZero(i: nat)
    ensures !Bit(0, i)
  {
    if i > 0 { BitZero(i - 1); }
  }

  /** Doubling moves every bit up one place; the new bit 0 is `b`. */
  lemma BitDouble(x: nat, b: nat, i: nat)
    requires b < 2
    ensures Bit(2 * x + b, i) == if i == 0 then b == 1 else Bit(x, i - 1)
  {
    assert (2 * x + b) % 2 == b && (2 * x + b) / 2 == x;
  }

  /** Two naturals with the same bits are equal. */
  lemma {:induction false} BitsEqual(x: nat, y: nat)
    requires forall i: nat :: Bit(x, i) == Bit(y, i)
    ensures x == y
    decreases x + y
  {
    if x != y {
      assert Bit(x, 0) == Bit(y, 0);
      forall i: nat
        ensures Bit(x / 2, i) == Bit(y / 2, i)
      {
        assert Bit(x, i + 1) == Bit(y, i + 1);
      }
      BitsEqual(x / 2, y / 2);
    }
  }

  /** A natural below 2^n has no bit at or above n. */
  lemma {:induction false} BitsBelow(x: nat, n: nat, i: nat)
    requires x < Pow2(n) && n <= i
    ensures !Bit(x, i)
    decreases n
  {
    if n == 0 {
      BitZero(i);
    } else {
      BitsBelow(x / 2, n - 1, i - 1);
    }
  }

  /** A natural with no bit at or above n is below 2^n. */
  lemma {:induction false} BelowFromBits(x: nat, n: nat)
    requires forall i: nat :: n <= i ==> !Bit(x, i)
    ensures x < Pow2(n)
    decreases n
  {
    if n == 0 {
      forall i: nat
        ensures Bit(x, i) == Bit(0, i)
      {
        BitZero(i);
      }
      BitsEqual(x, 0);
    } else {
      forall i: nat | n - 1 <= i
        ensures !Bit(x / 2, i)
      {
        assert !Bit(x, i + 1);
      }
      BelowFromBits(x / 2, n - 1);
    }
  }

  /** 2^k - 1 has exactly the bits below k. */
  lemma {:induction false} BitLowMask(k: nat, i: nat)
    ensures Bit(Pow2(k) - 1, i) == (i < k)
    decreases k
  {
    if k == 0 {
      BitZero(i);
    } else {
      assert Pow2(k) - 1 == 2 * (Pow2(k - 1) - 1) + 1;
      BitDouble(Pow2(k - 1) - 1, 1, i);
      if i > 0 { BitLowMask(k - 1, i - 1); }
    }
  }

  /** 2^k has exactly bit k. */
  lemma {:induction false} BitPow2(k: nat, i: nat)
    ensures Bit(Pow2(k), i) == (i == k)
    decreases k
  {
    if k == 0 {
      BitDouble(0, 1, i);
      if i > 0 { BitZero(i - 1); }
    } else {
      BitDouble(Pow2(k - 1), 0, i);
      if i > 0 { BitPow2(k - 1, i - 1); }
    }
  }

  lemma HalfMod(x: nat, m: nat)
    requires m >= 1
    ensures 2 * ((x / 2) % m) + x % 2 == x % (2 * m)
  {
    var q, b := x / 2, x % 2;
    var t, r := q / m, q % m;
    assert q == m * t + r;
    assert x == 2 * q + b;
    assert x == (2 * m) * t + (2 * r + b);
    ModUnique(x, 2 * m, t, 2 * r + b);
  }

  /** The remainder modulo 2^k keeps the bits below k. */
  lemma {:induction false} BitMod(x: nat, k: nat, i: nat)
    ensures Bit(x % Pow2(k), i) == (i < k && Bit(x, i))
    decreases k
  {
    if k == 0 {
      BitZero(i);
    } else {
      HalfMod(x, Pow2(k - 1));
      BitDouble((x / 2) % Pow2(k - 1), x % 2, i);
      if i > 0 { BitMod(x / 2, k - 1, i - 1); }
    }
  }

  // ---------------------------------------------------------------------
  // Bitwise operations

  /** Bitwise AND. */
  function And(x: nat, y: nat): nat
    decreases x
  {
    if x == 0 || y == 0 then 0
    else 2 * And(x / 2, y / 2) + (if x % 2 == 1 && y % 2 == 1 then 1 else 0)
  }

  /** Bitwise OR. */
  function Or(x: nat, y: nat): nat
    decreases x + y
  {
    if x == 0 then y
    else if y == 0 then x
    else 2 * Or(x / 2, y / 2) + (if x % 2 == 1 || y % 2 == 1 then 1 else 0)
  }

  /** `x << k`, before any truncation to a word. */
  function Shl(x: nat, k: nat): nat
  {
    if k == 0 then x else 2 * Shl(x, k - 1)
  }

  /** `x >> k`. */
  function Shr(x: nat, k: nat): nat
  {
    if k == 0 then x else Shr(x / 2, k - 1)
  }

  /** `~x` in a 64-bit word. */
  function Not64(x: nat): nat
    requires x < U64_LIMIT
  {
    U64_LIMIT - 1 - x
  }

  lemma {:induction false} BitAnd(x: nat, y: nat, i: nat)
    ensures Bit(And(x, y), i) == (Bit(x, i) && Bit(y, i))
    decreases i
  {
    if x == 0 || y == 0 {
      BitZero(i);
    } else {
      var b := if x % 2 == 1 && y % 2 == 1 then 1 else 0;
      BitDouble(And(x / 2, y / 2), b, i);
      if i > 0 { BitAnd(x / 2, y / 2, i - 1); }
    }
  }

  lemma {:induction false} BitOr(x: nat, y: nat, i: nat)
    ensures Bit(Or(x, y), i) == (Bit(x, i) || Bit(y, i))
    decreases i
  {
    if x == 0 {
      BitZero(i);
    } else if y == 0 {
      BitZero(i);
    } else {
      var b := if x % 2 == 1 || y % 2 == 1 then 1 else 0;
      BitDouble(Or(x / 2, y / 2), b, i);
      if i > 0 { BitOr(x / 2, y / 2, i - 1); }
    }
  }

  lemma {:induction false} BitShl(x: nat, k: nat, i: nat)
    ensures Bit(Shl(x, k), i) == (k <= i && Bit(x, i - k))
    decreases k
  {
    if k > 0 {
      BitDouble(Shl(x, k - 1), 0, i);
      if i > 0 { BitShl(x, k - 1, i - 1); }
    }
  }

  lemma {:induction false} BitShr(x: nat, k: nat, i: nat)
    ensures Bit(Shr(x, k), i) == Bit(x, i + k)
    decreases k
  {
    if k > 0 {
      BitShr(x / 2, k - 1, i);
      assert Bit(x, i + k) == Bit(x / 2, i + k - 1);
    }
  }

  lemma {:induction false} BitNotBelow(n: nat, x: nat, i: nat)
    requires x < Pow2(n)
    ensures Bit(Pow2(n) - 1 - x, i) == (i < n && !Bit(x, i))
    decreases n
  {
    if n == 0 {
      BitZero(i);
    } else {
      var b := 1 - x % 2;
      assert Pow2(n) - 1 - x == 2 * (Pow2(n - 1) - 1 - x / 2) + b;
      BitDouble(Pow2(n - 1) - 1 - x / 2, b, i);
      if i > 0 { BitNotBelow(n - 1, x / 2, i - 1); }
    }
  }

  lemma BitNot64(x: nat, i: nat)
    requires x < U64_LIMIT
    ensures Bit(Not64(x), i) == (i < 64 && !Bit(x, i))
  {
    Pow2Of64();
    BitNotBelow(64, x, i);
  }

  /** OR and AND together add up the bits of both operands. */
  lemma {:induction false} OrAndSum(x: nat, y: nat)
    ensures Or(x, y) + And(x, y) == x + y
    decreases x + y
  {
    if x != 0 && y != 0 {
      OrAndSum(x / 2, y / 2);
    }
  }

  /** OR of operands with no bit in common is their sum. */
  lemma OrDisjoint(x: nat, y: nat)
    requires forall i: nat :: !(Bit(x, i) && Bit(y, i))
    ensures Or(x, y) == x + y
  {
    forall i: nat
      ensures Bit(And(x, y), i) == Bit(0, i)
    {
      BitAnd(x, y, i);
      BitZero(i);
    }
    BitsEqual(And(x, y), 0);
    OrAndSum(x, y);
  }

  /** Masking with `n - 1` for a power of two `n` keeps the remainder
      modulo `n`: the mask test for alignment is the remainder test. */
  lemma {:induction false} AndPow2Mask(x: nat, n: nat)
    requires IsPow2(n)
    ensures And(x, n - 1) == x % n
    decreases n
  {
    if n == 1 {
      assert And(x, 0) == 0;
    } else if x == 0 {
      assert And(0, n - 1) == 0;
    } else {
      var m := n / 2;
      assert n == 2 * m && IsPow2(m);
      assert (n - 1) / 2 == m - 1 && (n - 1) % 2 == 1;
      assert And(x, n - 1) == 2 * And(x / 2, m - 1) + x % 2;
      AndPow2Mask(x / 2, m);
      HalfMod(x, m);
    }
  }

  lemma {:induction false} ShlIsMul(x: nat, k: nat)
    ensures Shl(x, k) == x * Pow2(k)
    decreases k
  {
    if k > 0 {
      ShlIsMul(x, k - 1);
      assert x * Pow2(k) == x * (2 * Pow2(k - 1)) == 2 * (x * Pow2(k - 1));
    }
  }
  /** `x >> k` is division by 2^k. */
  lemma {:induction false} ShrIsDiv(x: nat, k: nat)
    ensures Shr(x, k) == x / Pow2(k)
    decreases k
  {
    if k > 0 {
      ShrIsDiv(x / 2, k - 1);
      DivDiv(x, 2, Pow2(k - 1));
    }
  }

  /** A power of two divided by a smaller or equal one is their quotient
      power, and by a larger one is 0. */
  lemma Pow2Div(a: nat, b: nat)
    ensures a >= b ==> Pow2(a) / Pow2(b) == Pow2(a - b)
    ensures a < b ==> Pow2(a) / Pow2(b) == 0
  {
    if a >= b {
      Pow2Add(a - b, b);
      ModUnique(Pow2(a), Pow2(b), Pow2(a - b), 0);
    } else {
      Pow2Mono(a + 1, b);
      ModUnique(Pow2(a), Pow2(b), 0, Pow2(a));
    }
  }

  /** Below 2^n, the quotient by 2^k is below 2^(n - k). */
  lemma DivPow2Below(x: nat, n: nat, k: nat)
    requires x < Pow2(n) && k <= n
    ensures x / Pow2(k) < Pow2(n - k)
  {
    Pow2Add(k, n - k);
    DivBelow(x, Pow2(k), Pow2(n - k));
  }

  /** Two numbers with the same quotient by 2^j have the same quotient by
      every larger power of two. */
  lemma DivCoarser(a: nat, b: nat, j: nat, k: nat)
    requires j <= k && a / Pow2(j) == b / Pow2(j)
    ensures a / Pow2(k) == b / Pow2(k)
  {
    Pow2Add(j, k - j);
    DivDiv(a, Pow2(j), Pow2(k - j));
    DivDiv(b, Pow2(j), Pow2(k - j));
  }

  /** A multiple of 2^k has no bit below k. */
  lemma LowBitsClear(x: nat, k: nat, i: nat)
    requires x % Pow2(k) == 0 && i < k
    ensures !Bit(x, i)
  {
    BitMod(x, k, i);
    BitZero(i);
  }

  /** `ilog2`: the position of the highest set bit, and -1 for 0. */
  function Ilog2(n: nat): (r: int)
    ensures n == 0 ==> r == -1
    ensures n > 0 ==> 0 <= r && Pow2(r) <= n < Pow2(r + 1)
    decreases n
  {
    if n == 0 then -1 else if n == 1 then 0 else 1 + Ilog2(n / 2)
  }

  lemma {:induction false} Ilog2Pow2(k: nat)
    ensures Ilog2(Pow2(k)) == k
  {
    if k > 0 {
      Ilog2Pow2(k - 1);
      Pow2Mono(1, k);
      assert Pow2(k) / 2 == Pow2(k - 1);
    }
  }

  /** A natural with no bit at or above 64 fits in a 64-bit word. */
  lemma WordFromBits(x: nat)
    requires forall i: nat :: Bit(x, i) ==> i < 64
    ensures x < U64_LIMIT
  {
    BelowFromBits(x, 64);
    Pow2Of64();
  }

  /** A word has no bit at or above 64. */
  lemma WordBits(x: nat, i: nat)
    requires x < U64_LIMIT && 64 <= i
    ensures !Bit(x, i)
  {
    Pow2Of64();
    BitsBelow(x, 64, i);
  }

  /** The `n`-bit field of `x` starting at bit `lo` is `c` when their bits
      agree. */
  lemma FieldFromBits(x: nat, lo: nat, n: nat, c: nat)
    requires c < Pow2(n)
    requires forall i: nat :: lo <= i < lo + n ==> Bit(x, i) == Bit(c, i - lo)
    ensures Shr(x, lo) % Pow2(n) == c
  {
    forall j: nat
      ensures Bit(Shr(x, lo) % Pow2(n), j) == Bit(c, j)
    {
      BitMod(Shr(x, lo), n, j);
      BitShr(x, lo, j);
      if j >= n { BitsBelow(c, n, j); }
    }
    BitsEqual(Shr(x, lo) % Pow2(n), c);
  }

  /** The bits of the small constants the page-table code shifts into
      place. */
  lemma SmallBits(j: nat)
    ensures Bit(1, j) == (j == 0) && Bit(2, j) == (j == 1) && Bit(3, j) == (j < 2)
    ensures Bit(5, j) == (j == 0 || j == 2) && Bit(6, j) == (j == 1 || j == 2)
    ensures Bit(0xf, j) == (j < 4) && Bit(0x7f, j) == (j < 7) && Bit(0x3ff, j) == (j < 10)
  {
    assert Pow2(0) == 1 && Pow2(1) == 2 && Pow2(2) == 4 && Pow2(4) == 16;
    assert Pow2(7) == 128 && Pow2(10) == 1024;
    BitPow2(0, j);
    BitPow2(1, j);
    BitLowMask(2, j);
    BitLowMask(4, j);
    BitLowMask(7, j);
    BitLowMask(10, j);
    BitDouble(2, 1, j);
    BitDouble(3, 0, j);
    if j > 0 {
      BitPow2(1, j - 1);
      BitLowMask(2, j - 1);
    }
  }

  /** The bits of those constants shifted left by `k`. */
  lemma ShlBits0(k: nat, i: nat)
    ensures !Bit(Shl(0, k), i)
  {
    BitShl(0, k, i);
    if k <= i { BitZero(i - k); }
  }

  lemma ShlBits1(k: nat, i: nat)
    ensures Bit(Shl(1, k), i) == (i == k)
  {
    BitShl(1, k, i);
    if k <= i { SmallBits(i - k); }
  }

  lemma ShlBits2(k: nat, i: nat)
    ensures Bit(Shl(2, k), i) == (i == k + 1)
  {
    BitShl(2, k, i);
    if k <= i { SmallBits(i - k); }
  }

  lemma ShlBits3(k: nat, i: nat)
    ensures Bit(Shl(3, k), i) == (k <= i < k + 2)
  {
    BitShl(3, k, i);
    if k <= i { SmallBits(i - k); }
  }

  lemma ShlBits5(k: nat, i: nat)
    ensures Bit(Shl(5, k), i) == (i == k || i == k + 2)
  {
    BitShl(5, k, i);
    if k <= i { SmallBits(i - k); }
  }

  lemma ShlBits6(k: nat, i: nat)
    ensures Bit(Shl(6, k), i) == (i == k + 1 || i == k + 2)
  {
    BitShl(6, k, i);
    if k <= i { SmallBits(i - k); }
  }

  /** An all-ones field of width `n` shifted left by `k`. */
  lemma ShlBitsMask(n: nat, k: nat, i: nat)
    ensures Bit(Shl(Pow2(n) - 1, k), i) == (k <= i < k + n)
  {
    BitShl(Pow2(n) - 1, k, i);
    if k <= i { BitLowMask(n, i - k); }
  }
}
