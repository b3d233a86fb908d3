/** The fraction type of src/fraction.rs: a numerator/denominator pair tagged `Raw` (as
    written) or `Reduced` (after reduction), its accessors, equality, rendering as "a/b",
    parsing from "a b", and reduction by the largest common element of the two ascending
    divisor sequences. */
module Fractions {
  import opened Common
  import opened Arith
  import opened Ordered
  import opened DivisorSequence
  import opened Text

  datatype Fraction = Raw(Int32, Int32) | Reduced(Int32, Int32)
  {
    /** `Fraction::new`. */
    static function New(a: Int32, b: Int32): (f: Fraction)
      ensures f.Raw? && f.Numerator() == a && f.Denominator() == b
    {
      Raw(a, b)
    }

    function Numerator(): Int32 {
      match this
      case Raw(n, _) => n
      case Reduced(n, _) => n
    }

    function Denominator(): Int32 {
      match this
      case Raw(_, d) => d
      case Reduced(_, d) => d
    }

    /** `Fraction::reduce`: a reduced fraction is returned as it is; a raw one has both parts
        divided by their largest common divisor. The divisor scan of the source overflows
        `i32` on a part equal to `i32::MAX`, which the precondition excludes. */
    function Reduce(): (r: Fraction)
      requires Raw? ==> Numerator() < I32_MAX && Denominator() < I32_MAX
      ensures r.Reduced?
      ensures Reduced? ==> r == this
      ensures Raw? ==> (r.Numerator(), r.Denominator()) == ReducePair(Numerator(), Denominator())
    {
      match this
      case Reduced(a, b) => Reduced(a, b)
      case Raw(a, b) =>
        var (x, y) := ReducePair(a, b);
        Reduced(x, y)
    }

    /** `PartialEq::eq`: the parts are compared, the tag is not. */
    predicate Equals(other: Fraction) {
      Numerator() == other.Numerator() && Denominator() == other.Denominator()
    }

    /** `Display::fmt`: "<numerator>/<denominator>". */
    function ToString(): string {
      ShowInt(Numerator()) + "/" + ShowInt(Denominator())
    }
  }

  /** The errors of `FromStr`; `IntParse` stands for the boxed `ParseIntError`. */
  datatype FractionError = IntParse | TooFewParts | TooManyParts

  /** Both accessors return the stored part whichever the tag: a fraction is rebuilt from
      its tag, numerator and denominator. */
  lemma AccessorsReturnParts(f: Fraction)
    ensures f == if f.Raw? then Raw(f.Numerator(), f.Denominator())
                 else Reduced(f.Numerator(), f.Denominator())
  {
  }

  // ---------------------------------------------------------------------------------------
  // Reduction

  /** What `AscendingIntersection::new(DivisorIterator::new(a), DivisorIterator::new(b))`
      yields: the common divisors, ascending. */
  function CommonDivisors(a: int, b: int): seq<int> {
    Intersect(Divisors(a), Divisors(b))
  }

  /** Every value handed out by a `DivisorIterator` is positive, and the sequence ascends. */
  lemma DivisorsPositive(n: int)
    ensures StrictlyAscending(Divisors(n))
    ensures forall x :: x in Divisors(n) ==> x >= 1
  {
    DivisorsFromExact(n, 1);
  }

  /** The values common to both divisor sequences: 1 always, and exactly the positive
      common divisors when both parts are positive. */
  lemma CommonDivisorsMembers(a: int, b: int)
    ensures forall v :: v in CommonDivisors(a, b) <==> v in Divisors(a) && v in Divisors(b)
    ensures 1 in CommonDivisors(a, b)
    ensures forall v :: v in CommonDivisors(a, b) ==> v >= 1
  {
    DivisorsPositive(a);
    DivisorsPositive(b);
    IntersectIsAscendingIntersection(Divisors(a), Divisors(b));
    DivisorsFromExact(a, 1);
    DivisorsFromExact(b, 1);
    HeadIsElement(Divisors(a));
    HeadIsElement(Divisors(b));
  }

  /** `.max().unwrap_or(1)` over the common divisors: never below 1, so the division that
      follows never divides by zero. */
  function LargestCommonDivisor(a: int, b: int): (g: int)
    ensures g >= 1
  {
    CommonDivisorsMembers(a, b);
    match MaxOf(CommonDivisors(a, b))
    case None => 1
    case Some(m) => m
  }

  /** Division of a natural number by a positive one: the quotient is at most the dividend,
      and exact when the divisor divides it. */
  lemma NatQuotient(m: nat, g: int)
    requires g >= 1
    ensures 0 <= m / g <= m
    ensures Divides(g, m) ==> (m / g) * g == m
  {
    ProductAtLeast(g, 1);
    if m / g > m {
      ProductAtLeast(g, m / g);
      assert false;
    }
  }

  /** A divisor of `a` divides `-a`. */
  lemma DividesNegation(g: int, a: int)
    requires g >= 1
    ensures Divides(g, a) ==> Divides(g, -a)
  {
    if Divides(g, a) {
      assert a == g * (a / g);
      assert -a == g * -(a / g);
      MultipleIsDivisible(g, -(a / g));
    }
  }

  /** Rust's `/` on `i32` for a positive divisor: the quotient truncated toward zero. It is
      exact when `g` divides `a`, and never further from zero than `a`. */
  function Quot(a: Int32, g: int): (q: Int32)
    requires g >= 1
    ensures Divides(g, a) ==> q * g == a
    ensures (a >= 0 ==> 0 <= q <= a) && (a < 0 ==> a <= q <= 0)
    ensures a >= 0 ==> q * g <= a < q * g + g
    ensures a < 0 ==> q * g - g < a <= q * g
  {
    var m: nat := if a >= 0 then a else -(a as int);
    NatQuotient(m, g);
    DividesNegation(g, a);
    if a >= 0 then m / g else -(m / g)
  }

  /** The free function `reduce(a, b)`: both parts divided by the largest common divisor. */
  function ReducePair(a: Int32, b: Int32): (Int32, Int32) {
    var g := LargestCommonDivisor(a, b);
    (Quot(a, g), Quot(b, g))
  }

  /** For positive parts the largest common element of the divisor sequences is the greatest
      common divisor. */
  lemma {:induction false} LargestCommonDivisorIsGcd(a: int, b: int)
    requires a >= 1 && b >= 1
    ensures LargestCommonDivisor(a, b) == Gcd(a, b)
  {
    CommonDivisorsMembers(a, b);
    DivisorsMembership(a);
    DivisorsMembership(b);
    GcdIsGreatestCommonDivisor(a, b);
    var g := Gcd(a, b);
    var m := MaxOf(CommonDivisors(a, b));
    assert g in CommonDivisors(a, b);
    var best := m.value;
    assert Divides(best, a) && Divides(best, b);
    assert Divides(best, g);
    DivisorIsAtMost(best, g);
  }

  /** For positive parts `reduce` divides both by gcd(a, b) and leaves a coprime pair of
      positive parts with the same ratio. */
  lemma ReducePairLowestTerms(a: Int32, b: Int32)
    requires a >= 1 && b >= 1
    ensures ReducePair(a, b) == (a / Gcd(a, b), b / Gcd(a, b))
    ensures ReducePair(a, b).0 >= 1 && ReducePair(a, b).1 >= 1
    ensures Coprime(ReducePair(a, b).0, ReducePair(a, b).1)
    ensures ReducePair(a, b).0 * b == a * ReducePair(a, b).1
  {
    LargestCommonDivisorIsGcd(a, b);
    QuotientsByGcdCoprime(a, b);
    GcdIsGreatestCommonDivisor(a, b);
    SameRatio(a, b, Gcd(a, b));
  }

  /** Dividing both parts by a common divisor keeps their ratio. */
  lemma SameRatio(a: int, b: int, g: int)
    requires Divides(g, a) && Divides(g, b)
    ensures (a / g) * b == a * (b / g)
  {
    var x, y := a / g, b / g;
    assert a == x * g && b == y * g;
    calc {
      x * b;
      x * (y * g);
      (x * g) * y;
      a * y;
    }
  }

  /** A part at most 1 (zero and negatives included) has only the divisor 1 in the sequence,
      so `reduce` returns its input. */
  lemma ReducePairOfAtMostOne(a: Int32, b: Int32)
    requires a <= 1 || b <= 1
    ensures ReducePair(a, b) == (a, b)
  {
    CommonDivisorsMembers(a, b);
    if a <= 1 {
      DivisorsOfAtMostOne(a);
    } else {
      DivisorsOfAtMostOne(b);
    }
    var m := MaxOf(CommonDivisors(a, b));
    assert m.value in Divisors(a) && m.value in Divisors(b);
    assert LargestCommonDivisor(a, b) == 1;
  }

  /** The pair of a coprime pair of positive parts is its own reduction. */
  lemma ReducePairOfCoprime(x: Int32, y: Int32)
    requires x >= 1 && y >= 1 && Coprime(x, y)
    ensures ReducePair(x, y) == (x, y)
  {
    LargestCommonDivisorIsGcd(x, y);
    GcdIsGreatestCommonDivisor(x, y);
    assert Gcd(x, y) == 1;
  }

  /** Reducing twice gives what reducing once gives. */
  lemma ReducePairIdempotent(a: Int32, b: Int32)
    ensures ReducePair(ReducePair(a, b).0, ReducePair(a, b).1) == ReducePair(a, b)
  {
    if a >= 1 && b >= 1 {
      ReducePairLowestTerms(a, b);
      ReducePairOfCoprime(ReducePair(a, b).0, ReducePair(a, b).1);
    } else {
      ReducePairOfAtMostOne(a, b);
    }
  }

  /** `f.reduce().reduce() == f.reduce()`, tag included. */
  lemma ReduceIdempotent(f: Fraction)
    requires f.Raw? ==> f.Numerator() < I32_MAX && f.Denominator() < I32_MAX
    ensures f.Reduce().Reduce() == f.Reduce()
  {
  }

  /** Reducing a raw fraction with positive parts gives the same ratio in lowest terms; with a
      part at most 1 the parts stay as they were, although the tag becomes `Reduced`. */
  lemma ReduceRaw(a: Int32, b: Int32)
    requires a < I32_MAX && b < I32_MAX
    ensures a >= 1 && b >= 1 ==>
      var r := Fraction.New(a, b).Reduce();
      r.Numerator() >= 1 && r.Denominator() >= 1 && Coprime(r.Numerator(), r.Denominator())
      && r.Numerator() * b == a * r.Denominator()
    ensures a <= 1 || b <= 1 ==> Fraction.New(a, b).Reduce() == Reduced(a, b)
  {
    if a >= 1 && b >= 1 {
      ReducePairLowestTerms(a, b);
    } else {
      ReducePairOfAtMostOne(a, b);
    }
  }

  /** The test `reducible_fractions_are_reduced`: 12/16 reduces to 3/4. */
  lemma ReduceTwelveSixteenths()
    ensures Fraction.New(12, 16).Reduce() == Reduced(3, 4)
    ensures Fraction.New(12, 16).Reduce().Equals(Fraction.New(3, 4))
  {
    LargestCommonDivisorIsGcd(12, 16);
    assert Gcd(12, 16) == 4;
  }

  /** The test `irreducible_fractions_are_unchanged`: 13/16 stays 13/16. */
  lemma ReduceThirteenSixteenths()
    ensures Fraction.New(13, 16).Reduce() == Reduced(13, 16)
    ensures Fraction.New(13, 16).Reduce().Equals(Fraction.New(13, 16))
  {
    LargestCommonDivisorIsGcd(13, 16);
    assert Gcd(13, 16) == 1;
  }

  /** A negative numerator has no divisor but 1 in the sequence: -12/16 is not reduced. */
  lemma ReduceNegativeTwelveSixteenths()
    ensures Fraction.New(-12, 16).Reduce() == Reduced(-12, 16)
  {
    ReducePairOfAtMostOne(-12, 16);
  }

  /** The free function `reduce`: walks the divisors of `a` and of `b` in step, keeping the
      largest value met in both, and divides both parts by it (1 when there is none).
      Both iterators overflow `i32` at `i32::MAX`, which the precondition excludes. */
  method ReduceParts(a: Int32, b: Int32) returns (x: Int32, y: Int32)
    requires a < I32_MAX && b < I32_MAX
    ensures (x, y) == ReducePair(a, b)
  {
    var divisorsA := new DivisorIterator(a);
    var divisorsB := new DivisorIterator(b);
    var da := divisorsA.Next();
    var db := divisorsB.Next();
    ghost var pendingA, pendingB := Pending(da, divisorsA.Outputs()), Pending(db, divisorsB.Outputs());
    var greatest: Option<int> := None;
    while da.Some? && db.Some?
      invariant divisorsA.Valid() && divisorsA.value == a
      invariant divisorsB.Valid() && divisorsB.value == b
      invariant pendingA == Pending(da, divisorsA.Outputs())
      invariant pendingB == Pending(db, divisorsB.Outputs())
      invariant MaxOf(CommonDivisors(a, b)) == MaxFrom(greatest, Intersect(pendingA, pendingB))
      decreases |pendingA| + |pendingB|
    {
      MaxOfMergeStep(greatest, pendingA, pendingB);
      if da.value == db.value {
        greatest := Some(Bump(greatest, da.value));
        da := divisorsA.Next();
        db := divisorsB.Next();
        pendingA, pendingB := pendingA[1..], pendingB[1..];
      } else if da.value < db.value {
        da := divisorsA.Next();
        pendingA := pendingA[1..];
      } else {
        db := divisorsB.Next();
        pendingB := pendingB[1..];
      }
    }
    assert Intersect(pendingA, pendingB) == [];
    var g := if greatest.Some? then greatest.value else 1;
    assert g == LargestCommonDivisor(a, b);
    x, y := Quot(a, g), Quot(b, g);
  }

  // ---------------------------------------------------------------------------------------
  // Equality and rendering

  /** Equality is an equivalence and ignores the tag. */
  lemma EqualsIsEquivalence(f: Fraction, g: Fraction, h: Fraction)
    ensures f.Equals(f)
    ensures f.Equals(g) ==> g.Equals(f)
    ensures f.Equals(g) && g.Equals(h) ==> f.Equals(h)
    ensures Raw(f.Numerator(), f.Denominator()).Equals(Reduced(f.Numerator(), f.Denominator()))
  {
  }

  /** In "x/y" with no '/' in `x`, the first '/' stands right after `x`. */
  lemma SlashAt(x: string, y: string, i: int)
    requires '/' !in x && 0 <= i <= |x|
    ensures (x + "/" + y)[i] == '/' <==> i == |x|
  {
    if i < |x| {
      assert (x + "/" + y)[i] == x[i];
      assert x[i] in x;
    }
  }

  /** Two renderings "x/y" and "u/v" with no '/' in the numerators agree only part by part. */
  lemma SplitAtSlash(x: string, y: string, u: string, v: string)
    requires '/' !in x && '/' !in u
    requires x + "/" + y == u + "/" + v
    ensures x == u && y == v
  {
    var s := x + "/" + y;
    var i := if |x| <= |u| then |x| else |u|;
    SlashAt(x, y, i);
    SlashAt(u, v, i);
    assert |x| == |u|;
    assert x == s[..|x|] && u == (u + "/" + v)[..|u|];
    assert y == s[|x| + 1..] && v == (u + "/" + v)[|u| + 1..];
  }

  /** The rendering does not depend on the tag, and two fractions render alike exactly when
      they are equal. */
  lemma ToStringMatchesEquals(f: Fraction, g: Fraction)
    ensures Raw(f.Numerator(), f.Denominator()).ToString()
            == Reduced(f.Numerator(), f.Denominator()).ToString()
    ensures f.ToString() == g.ToString() <==> f.Equals(g)
  {
    if f.ToString() == g.ToString() {
      ShowIntHasNoSeparator(f.Numerator());
      ShowIntHasNoSeparator(g.Numerator());
      SplitAtSlash(ShowInt(f.Numerator()), ShowInt(f.Denominator()),
                   ShowInt(g.Numerator()), ShowInt(g.Denominator()));
      ShowIntInjective(f.Numerator(), g.Numerator());
      ShowIntInjective(f.Denominator(), g.Denominator());
    }
  }

  lemma ToStringExample()
    ensures Reduced(3, 4).ToString() == "3/4"
    ensures Raw(-12, 16).ToString() == "-12/16"
  {
  }

  // ---------------------------------------------------------------------------------------
  // Parsing

  /** What `from_str` returns, stated over the list of ' '-separated fields: the first field
      is parsed before a second is looked for, and a third is looked for only once both
      numbers have parsed. */
  function ParseFraction(s: string): Result<Fraction, FractionError> {
    var fields := Fields(s);
    match ParseInt(fields[0])
    case None => Err(IntParse)
    case Some(n) =>
      if |fields| < 2 then Err(TooFewParts)
      else match ParseInt(fields[1])
        case None => Err(IntParse)
        case Some(d) => if |fields| > 2 then Err(TooManyParts) else Ok(Fraction.New(n, d))
  }

  /** `FromStr::from_str`: pulls fields from the split iterator one at a time and returns as
      soon as one is missing or does not parse. */
  method FromStr(s: string) returns (r: Result<Fraction, FractionError>)
    ensures r == ParseFraction(s)
  {
    var parts := new SpaceSplit(s);
    var first := parts.Next();
    var numerator: Int32;
    match first {
      case None =>
        assert false;
        return Err(TooFewParts);
      case Some(field) =>
        var n := ParseInt(field);
        if n.None? {
          return Err(IntParse);
        }
        numerator := n.value;
    }
    var second := parts.Next();
    var denominator: Int32;
    match second {
      case None =>
        return Err(TooFewParts);
      case Some(field) =>
        var d := ParseInt(field);
        if d.None? {
          return Err(IntParse);
        }
        denominator := d.value;
    }
    var third := parts.Next();
    if third.Some? {
      return Err(TooManyParts);
    }
    r := Ok(Fraction.New(numerator, denominator));
  }

  /** A line without a space is one field. */
  lemma FieldsOfUnspaced(s: string)
    ensures ' ' !in s <==> Fields(s) == [s]
  {
    if ' ' !in s {
      FieldsCons(s, "");
      assert s + "" == s;
    }
    if Fields(s) == [s] {
      assert Fields(s)[0] == s;
    }
  }

  /** Which text parses, and to what: exactly two fields, both integers. */
  lemma ParseFractionSucceeds(s: string)
    ensures ParseFraction(s).Ok? <==>
      |Fields(s)| == 2 && ParseInt(Fields(s)[0]).Some? && ParseInt(Fields(s)[1]).Some?
    ensures ParseFraction(s).Ok? ==>
      ParseFraction(s).value == Raw(ParseInt(Fields(s)[0]).value, ParseInt(Fields(s)[1]).value)
  {
  }

  /** `TooFewParts` comes only from a single field that is an integer; an unparsable first
      field is reported as `IntParse` even when no second field follows. */
  lemma ParseFractionTooFewParts(s: string)
    ensures ParseFraction(s) == Err(TooFewParts) <==> ' ' !in s && ParseInt(s).Some?
  {
    FieldsOfUnspaced(s);
    if ' ' in s {
      JoinFields(s);
    }
  }

  /** The two remaining outcomes: `TooManyParts` only once both numbers have parsed, and
      `IntParse` exactly when the first field, or a second one that is present, is not an integer. */
  lemma ParseFractionErrors(s: string)
    ensures ParseFraction(s) == Err(TooManyParts)
      <==> |Fields(s)| > 2 && ParseInt(Fields(s)[0]).Some? && ParseInt(Fields(s)[1]).Some?
    ensures ParseFraction(s) == Err(IntParse)
      <==> ParseInt(Fields(s)[0]).None? || (|Fields(s)| >= 2 && ParseInt(Fields(s)[1]).None?)
  {
  }

  /** Writing a fraction's parts with one ' ' between them parses back to it as `Raw`. */
  lemma ParseShowPair(n: Int32, d: Int32)
    ensures ParseFraction(ShowInt(n) + " " + ShowInt(d)) == Ok(Raw(n, d))
  {
    ShowIntHasNoSeparator(n);
    ShowIntHasNoSeparator(d);
    var fs := [ShowInt(n), ShowInt(d)];
    assert Join(fs) == ShowInt(n) + " " + ShowInt(d) by {
      assert fs[1..] == [ShowInt(d)];
    }
    FieldsOfJoin(fs);
    ParseShowInt(n);
    ParseShowInt(d);
  }

  /** Two integer fields parse; one integer field is too few, three are too many. */
  lemma ParseFractionCountsFields()
    ensures ParseFraction("12 16") == Ok(Raw(12, 16))
    ensures ParseFraction("12") == Err(TooFewParts)
    ensures ParseFraction("12 16 20") == Err(TooManyParts)
  {
    ParseShowPair(12, 16);
    assert ShowInt(12) + " " + ShowInt(16) == "12 16";
  }

  /** A field that is not an integer is reported before the number of fields is looked at,
      and an empty line or a doubled space gives an empty field. */
  lemma ParseFractionChecksNumbersFirst()
    ensures ParseFraction("x") == Err(IntParse)
    ensures ParseFraction("x 16") == Err(IntParse)
    ensures ParseFraction("12 x 20") == Err(IntParse)
    ensures ParseFraction("") == Err(IntParse)
    ensures ParseFraction("12  16") == Err(IntParse)
  {
  }
}
