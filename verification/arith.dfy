/** Facts about division and remainder that the solver does not find on
    its own. */
module Arith {
  /** The remainder is the unique offset below the divisor. */
  lemma ModUnique(x: nat, d: nat, t: nat, s: nat)
    requires d > 0 && s < d && x == d * t + s
    ensures x % d == s && x / d == t
  {
    var t', s' := x / d, x % d;
    assert d * t + s == d * t' + s';
    if t > t' {
      MulSplit(d, t', t - t');
      MulAtLeast(d, t - t');
    } else if t < t' {
      MulSplit(d, t, t' - t);
      MulAtLeast(d, t' - t);
    }
  }

  /** The same for a dividend of either sign: the remainder is never
      negative. */
  lemma ModUniqueInt(x: int, d: nat, t: int, s: nat)
    requires d > 0 && s < d && x == d * t + s
    ensures x % d == s
  {
    var t', s' := x / d, x % d;
    assert d * t + s == d * t' + s';
    if t > t' {
      assert d * t == d * t' + d * (t - t');
      MulAtLeast(d, t - t');
    } else if t < t' {
      assert d * t' == d * t + d * (t' - t);
      MulAtLeast(d, t' - t);
    }
  }

  lemma MulSplit(d: nat, a: nat, k: nat)
    ensures d * (a + k) == d * a + d * k
  {
  }

  lemma MulAtLeast(d: nat, k: nat)
    requires k >= 1
    ensures d * k >= d
  {
  }

  lemma MulComm(a: int, b: int)
    ensures a * b == b * a
  {
  }

  lemma MulAssoc(a: nat, b: nat, c: nat)
    ensures a * (b * c) == (a * b) * c
  {
  }

  lemma MulMono(d: nat, a: nat, b: nat)
    requires a <= b
    ensures d * a <= d * b
  {
    MulSplit(d, a, b - a);
  }

  /** Dividing twice is dividing by the product. */
  lemma DivDiv(x: nat, a: nat, b: nat)
    requires a > 0 && b > 0
    ensures x / a / b == x / (a * b)
  {
    var q, r := x / a, x % a;
    var q2, r2 := q / b, q % b;
    assert x == a * q + r;
    assert q == b * q2 + r2;
    MulSplit(a, b * q2, r2);
    MulAssoc(a, b, q2);
    assert a * q == (a * b) * q2 + a * r2;
    MulMono(a, r2, b - 1);
    MulSplit(a, b - 1, 1);
    assert a * r2 + r < a * b;
    ModUnique(x, a * b, q2, a * r2 + r);
  }

  /** The quotient by `a` splits into the quotient by `a * b`, scaled
      back by `b`, and the remainder modulo `b`. */
  lemma DivSplit(x: nat, a: nat, b: nat)
    requires a > 0 && b > 0
    ensures x / a == (x / (a * b)) * b + (x / a) % b
  {
    var q := x / a;
    DivDiv(x, a, b);
    assert q == b * (q / b) + q % b;
    MulComm(b, q / b);
  }

  /** The remainder by `a * b` splits into the remainder by `a` and the
      quotient by `a`, taken modulo `b`, scaled back by `a`. */
  lemma ModSplit(x: nat, a: nat, b: nat)
    requires a > 0 && b > 0
    ensures x % (a * b) == (x / a % b) * a + x % a
  {
    var q, r := x / a, x % a;
    var q2, r2 := q / b, q % b;
    assert x == a * q + r;
    assert q == b * q2 + r2;
    MulSplit(a, b * q2, r2);
    MulAssoc(a, b, q2);
    MulMono(a, r2, b - 1);
    MulSplit(a, b - 1, 1);
    MulComm(a, r2);
    ModUnique(x, a * b, q2, a * r2 + r);
  }

  /** A multiple of `d` below a multiple `m` of `d` leaves room for `d`
      more. */
  lemma MultipleRoom(x: nat, d: nat, m: nat)
    requires d > 0 && x % d == 0 && m % d == 0 && x < m
    ensures x + d <= m
  {
    var q1, q2 := x / d, m / d;
    assert x == d * q1 && m == d * q2;
    if q1 >= q2 { MulMono(d, q2, q1); }
    MulMono(d, q1 + 1, q2);
    MulSplit(d, q1, 1);
  }

  /** Below `d * m`, the quotient by `d` is below `m`. */
  lemma DivBelow(x: nat, d: nat, m: nat)
    requires d > 0 && x < d * m
    ensures x / d < m
  {
    if x / d >= m {
      MulMono(d, m, x / d);
    }
  }

  /** A remainder of something already below the divisor. */
  lemma ModBelow(x: nat, d: nat)
    requires d > 0
    ensures x % d <= x
  {
    if x < d { ModSmall(x, d); }
  }

  lemma MulNonneg(a: nat, b: nat)
    ensures a * b >= 0
  {
  }

  lemma DivMulBelow(x: nat, d: nat)
    requires d > 0
    ensures (x / d) * d <= x
  {
    MulComm(x / d, d);
  }

  lemma ModSmall(x: nat, d: nat)
    requires x < d
    ensures x % d == x
  {
    ModUnique(x, d, 0, x);
  }

  /** A multiple of `d * e` is a multiple of `d`. */
  lemma MultipleOfFactor(y: nat, d: nat, e: nat)
    requires d > 0
    ensures (y * (d * e)) % d == 0
  {
    MulComm(y, d * e);
    MulAssoc(d, e, y);
    MultipleMod(d, e * y);
  }

  /** A multiple of `d` leaves no remainder. */
  lemma MultipleMod(d: nat, t: nat)
    requires d > 0
    ensures (d * t) % d == 0
  {
    ModUnique(d * t, d, t, 0);
  }
}
