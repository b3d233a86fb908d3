/** Elementary number theory used to state what the reduction computes: positive divisors,
    Euclid's greatest common divisor as an independent reference, and powers of two. */
module Arith {

  /** `d` is a positive divisor of `n`. The source only ever tests `n % d == 0` for d >= 2,
      where Rust's truncating remainder and Dafny's Euclidean one agree on being zero. */
  predicate Divides(d: int, n: int) {
    d >= 1 && n % d == 0
  }

  /** No two numbers share a positive divisor other than 1. */
  ghost predicate Coprime(x: int, y: int) {
    forall d :: Divides(d, x) && Divides(d, y) ==> d == 1
  }

  lemma MultipleIsDivisible(d: int, k: int)
    requires d >= 1
    ensures Divides(d, d * k)
  {
    var z := d * k;
    var t := k - z / d;
    assert z % d == d * t;
  }

  lemma DividesLinear(d: int, x: int, y: int, k: int)
    requires Divides(d, x) && Divides(d, y)
    ensures Divides(d, x + y * k)
  {
    var p, q := x / d, y / d;
    assert x == d * p;
    assert y == d * q;
    assert x + y * k == d * (p + q * k);
    MultipleIsDivisible(d, p + q * k);
  }

  /** A positive divisor of a positive number is at most that number. */
  lemma DivisorIsAtMost(d: int, n: int)
    requires Divides(d, n) && n >= 1
    ensures d <= n
  {
    var q := n / d;
    assert n == d * q;
    ProductAtLeast(d, q);
  }

  lemma ProductAtLeast(x: int, y: int)
    requires x >= 1 && y >= 1
    ensures x * y >= x && x * y >= y
  {
  }

  /** Euclid's algorithm: the reference against which the source's divisor-list
      intersection is proved. */
  function Gcd(a: nat, b: nat): (g: nat)
    requires a >= 1
    ensures g >= 1
    decreases b
  {
    if b == 0 then a else Gcd(b, a % b)
  }

  lemma {:induction false} GcdIsGreatestCommonDivisor(a: nat, b: nat)
    requires a >= 1
    ensures Divides(Gcd(a, b), a) && Divides(Gcd(a, b), b)
    ensures forall d :: Divides(d, a) && Divides(d, b) ==> Divides(d, Gcd(a, b))
    decreases b
  {
    if b > 0 {
      var r := a % b;
      GcdIsGreatestCommonDivisor(b, r);
      var g := Gcd(b, r);
      assert a == r + b * (a / b);
      DividesLinear(g, r, b, a / b);
      forall d | Divides(d, a) && Divides(d, b)
        ensures Divides(d, g)
      {
        DividesLinear(d, a, b, -(a / b));
        assert a + b * -(a / b) == r;
      }
    }
  }

  /** `g * d` divides `g * q` when `d` divides `q`. */
  lemma DividesScaled(g: int, d: int, q: int)
    requires g >= 1 && Divides(d, q)
    ensures Divides(g * d, g * q)
  {
    var k := q / d;
    assert q == d * k;
    assert g * q == (g * d) * k;
    ProductAtLeast(g, d);
    MultipleIsDivisible(g * d, k);
  }

  /** The quotient of a positive number by one of its divisors is positive, and exact. */
  lemma QuotientPositive(a: int, g: int)
    requires a >= 1 && Divides(g, a)
    ensures a / g >= 1 && a == g * (a / g)
  {
  }

  /** Only 1 scales a positive number into one of its own divisors. */
  lemma ScaleDividing(g: int, d: int)
    requires g >= 1 && d >= 1 && Divides(g * d, g)
    ensures d == 1
  {
    DivisorIsAtMost(g * d, g);
    if d >= 2 {
      ProductAtLeast(g, d - 1);
    }
  }

  /** Dividing two positive numbers by their greatest common divisor leaves
      positive, coprime quotients. */
  lemma QuotientsByGcdCoprime(a: nat, b: nat)
    requires a >= 1 && b >= 1
    ensures a / Gcd(a, b) >= 1 && b / Gcd(a, b) >= 1
    ensures Coprime(a / Gcd(a, b), b / Gcd(a, b))
  {
    var g := Gcd(a, b);
    GcdIsGreatestCommonDivisor(a, b);
    QuotientPositive(a, g);
    QuotientPositive(b, g);
    var qa, qb := a / g, b / g;
    forall d | Divides(d, qa) && Divides(d, qb)
      ensures d == 1
    {
      DividesScaled(g, d, qa);
      DividesScaled(g, d, qb);
      assert Divides(g * d, a) && Divides(g * d, b);
      ScaleDividing(g, d);
    }
  }

  function Pow2(k: nat): (p: nat)
    ensures p >= 1
  {
    if k == 0 then 1 else 2 * Pow2(k - 1)
  }

  lemma OddProductIsOdd(s: int, t: int)
    ensures ((2 * s + 1) * (2 * t + 1)) % 2 == 1
  {
    assert (2 * s + 1) * (2 * t + 1) == 2 * (2 * s * t + s + t) + 1;
  }

  /** `x` is 2^j for some j <= k. */
  ghost predicate PowerOfTwoUpTo(x: int, k: nat) {
    exists j: nat :: j <= k && x == Pow2(j)
  }

  /** An odd divisor of 2 * p divides p. */
  lemma OddDivisorOfDouble(d: int, p: int)
    requires Divides(d, 2 * p) && d % 2 == 1
    ensures Divides(d, p)
  {
    var q := (2 * p) / d;
    assert 2 * p == d * q;
    var s := d / 2;
    assert d == 2 * s + 1;
    var t := q / 2;
    if q % 2 == 1 {
      OddProductIsOdd(s, t);
      assert false;
    }
    assert q == 2 * t;
    assert p == d * t;
    MultipleIsDivisible(d, t);
  }

  /** An even divisor 2 * e of 2 * p leaves e dividing p. */
  lemma HalfOfEvenDivisor(e: int, p: int)
    requires e >= 1 && Divides(2 * e, 2 * p)
    ensures Divides(e, p)
  {
    var q := (2 * p) / (2 * e);
    assert 2 * p == (2 * e) * q;
    assert p == e * q;
    MultipleIsDivisible(e, q);
  }

  /** Every positive divisor of 2^k is itself a power of two, 2^j with j <= k. */
  lemma {:induction false} DivisorOfPowerOfTwo(k: nat, d: int)
    requires Divides(d, Pow2(k))
    ensures PowerOfTwoUpTo(d, k)
  {
    if k == 0 {
      DivisorIsAtMost(d, 1);
      assert d == Pow2(0);
    } else if d % 2 == 0 {
      var e := d / 2;
      HalfOfEvenDivisor(e, Pow2(k - 1));
      DivisorOfPowerOfTwo(k - 1, e);
      var j: nat :| j <= k - 1 && e == Pow2(j);
      assert d == Pow2(j + 1);
    } else {
      OddDivisorOfDouble(d, Pow2(k - 1));
      DivisorOfPowerOfTwo(k - 1, d);
      var j: nat :| j <= k - 1 && d == Pow2(j);
    }
  }

  /** 2^j divides 2^k whenever j <= k. */
  lemma {:induction false} PowerDividesPower(j: nat, k: nat)
    requires j <= k
    ensures Divides(Pow2(j), Pow2(k))
  {
    if j < k {
      PowerDividesPower(j, k - 1);
      var m := Pow2(k - 1) / Pow2(j);
      assert Pow2(k - 1) == Pow2(j) * m;
      assert Pow2(k) == Pow2(j) * (2 * m);
      MultipleIsDivisible(Pow2(j), 2 * m);
    } else {
      MultipleIsDivisible(Pow2(j), 1);
    }
  }
}
