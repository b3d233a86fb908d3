/** Divisor enumeration (src/divisors.rs): `InclusiveRange`, a counting iterator, and
    `DivisorIterator`, which hands out the positive divisors of a number in ascending order by
    scanning a range for the next value that divides it. */
module DivisorSequence {
  import opened Common
  import opened Arith
  import opened Ordered

  /** The values an inclusive range from `lo` to `hi` yields: lo, lo + 1, ..., hi. */
  function Range(lo: int, hi: int): (r: seq<int>)
    ensures |r| == if lo <= hi then hi - lo + 1 else 0
    ensures forall i :: 0 <= i < |r| ==> r[i] == lo + i
    decreases hi - lo
  {
    if lo > hi then [] else [lo] + Range(lo + 1, hi)
  }

  /** For `lo >= 1`, `InclusiveRange::new(lo, hi).filter(|d| n % d == 0).nth(0)`: the first
      value of `lo ..= hi` that divides `n`. (The scan always starts at `last + 1 >= 2`.) */
  function FirstDivisor(n: int, lo: int, hi: int): Option<int>
    decreases hi - lo
  {
    if lo > hi then None
    else if Divides(lo, n) then Some(lo)
    else FirstDivisor(n, lo + 1, hi)
  }

  /** The scan finds the least divisor of `n` in `lo ..= hi`, or there is none. */
  lemma {:induction false} FirstDivisorInRange(n: int, lo: int, hi: int)
    ensures match FirstDivisor(n, lo, hi)
      case None => forall x :: lo <= x <= hi ==> !Divides(x, n)
      case Some(d) =>
        lo <= d <= hi && Divides(d, n) && forall x :: lo <= x < d ==> !Divides(x, n)
    decreases hi - lo
  {
    if lo <= hi && !Divides(lo, n) {
      FirstDivisorInRange(n, lo + 1, hi);
    }
  }

  /** The values a `DivisorIterator` over `n` hands out from the moment its cursor is `c`:
      the cursor itself, then whatever follows the first divisor of `n` in `c + 1 ..= n`. */
  function DivisorsFrom(n: int, c: int): seq<int>
    decreases n - c
  {
    [c] + match FirstDivisor(n, c + 1, n) {
      case None => []
      case Some(d) =>
        FirstDivisorInRange(n, c + 1, n);
        DivisorsFrom(n, d)
    }
  }

  lemma DivisorsFromStep(n: int, c: int, next: Option<int>)
    requires next == FirstDivisor(n, c + 1, n)
    ensures DivisorsFrom(n, c) == [c] + if next.None? then [] else DivisorsFrom(n, next.value)
  {
  }

  /** Everything `DivisorIterator::new(n)` yields. */
  function Divisors(n: int): seq<int> {
    DivisorsFrom(n, 1)
  }

  lemma {:induction false} DivisorsFromExact(n: int, c: int)
    requires c >= 1
    ensures DivisorsFrom(n, c)[0] == c
    ensures StrictlyAscending(DivisorsFrom(n, c))
    ensures forall x :: x in DivisorsFrom(n, c) <==> x == c || (c < x <= n && Divides(x, n))
    decreases n - c
  {
    FirstDivisorInRange(n, c + 1, n);
    match FirstDivisor(n, c + 1, n)
    case None =>
      assert DivisorsFrom(n, c) == [c];
    case Some(d) =>
      DivisorsFromExact(n, d);
      var rest := DivisorsFrom(n, d);
      var r := DivisorsFrom(n, c);
      assert r == [c] + rest;
      forall i, j | 0 <= i < j < |r|
        ensures r[i] < r[j]
      {
        assert r[j] == rest[j - 1];
        assert rest[j - 1] in rest;
        if i > 0 {
          assert r[i] == rest[i - 1];
        }
      }
  }

  /** For n >= 1 a value is handed out exactly when it is a positive divisor of n. */
  lemma DivisorsMembership(n: int)
    requires n >= 1
    ensures forall x :: x in Divisors(n) <==> Divides(x, n)
  {
    DivisorsFromExact(n, 1);
    forall x | Divides(x, n)
      ensures x <= n
    {
      DivisorIsAtMost(x, n);
    }
  }

  /** In a strictly ascending sequence holding every value with property `Divides(_, n)`,
      no such value lies strictly between two neighbours. */
  lemma NoneBetweenNeighbours(ds: seq<int>, n: int)
    requires StrictlyAscending(ds)
    requires forall x :: Divides(x, n) ==> x in ds
    ensures forall i, x :: 0 <= i < |ds| - 1 && ds[i] < x < ds[i + 1] ==> !Divides(x, n)
  {
    forall i, x | 0 <= i < |ds| - 1 && ds[i] < x < ds[i + 1]
      ensures !Divides(x, n)
    {
      if Divides(x, n) {
        var m :| 0 <= m < |ds| && ds[m] == x;
      }
    }
  }

  /** For n >= 1 the iterator yields exactly the positive divisors of n, strictly ascending,
      from 1 to n, with no divisor skipped between two consecutive outputs. */
  lemma DivisorsExact(n: int)
    requires n >= 1
    ensures StrictlyAscending(Divisors(n))
    ensures |Divisors(n)| >= 1 && Divisors(n)[0] == 1 && Divisors(n)[|Divisors(n)| - 1] == n
    ensures forall x :: x in Divisors(n) <==> Divides(x, n)
    ensures forall i, x :: 0 <= i < |Divisors(n)| - 1 && Divisors(n)[i] < x < Divisors(n)[i + 1]
              ==> !Divides(x, n)
  {
    var ds := Divisors(n);
    DivisorsFromExact(n, 1);
    DivisorsMembership(n);
    NoneBetweenNeighbours(ds, n);
    assert Divides(n, n);
    var top := ds[|ds| - 1];
    assert top in ds;
    DivisorIsAtMost(top, n);
  }

  /** For n <= 1 the range after the cursor 1 is empty: the iterator yields 1 and stops. */
  lemma DivisorsOfAtMostOne(n: int)
    requires n <= 1
    ensures Divisors(n) == [1]
  {
    assert Range(2, n) == [];
  }

  /** 1, 2, 4, ..., 2^k. */
  function PowersOfTwo(k: nat): seq<int> {
    if k == 0 then [1] else PowersOfTwo(k - 1) + [Pow2(k)]
  }

  lemma {:induction false} PowersOfTwoBelow(j: nat, k: nat)
    requires j < k
    ensures Pow2(j) < Pow2(k)
  {
    if j < k - 1 {
      PowersOfTwoBelow(j, k - 1);
    }
  }

  lemma {:induction false} PowersOfTwoMember(k: nat, x: int)
    requires x in PowersOfTwo(k)
    ensures PowerOfTwoUpTo(x, k)
  {
    if k == 0 {
      assert x == Pow2(0);
    } else if x == Pow2(k) {
    } else {
      assert PowersOfTwo(k) == PowersOfTwo(k - 1) + [Pow2(k)];
      PowersOfTwoMember(k - 1, x);
      var j: nat :| j <= k - 1 && x == Pow2(j);
    }
  }

  lemma {:induction false} PowersOfTwoElements(k: nat)
    ensures forall x :: x in PowersOfTwo(k) ==> PowerOfTwoUpTo(x, k)
    ensures forall j: nat :: j <= k ==> Pow2(j) in PowersOfTwo(k)
  {
    forall x | x in PowersOfTwo(k)
      ensures PowerOfTwoUpTo(x, k)
    {
      PowersOfTwoMember(k, x);
    }
    if k > 0 {
      PowersOfTwoElements(k - 1);
      assert PowersOfTwo(k) == PowersOfTwo(k - 1) + [Pow2(k)];
      forall j: nat | j <= k
        ensures Pow2(j) in PowersOfTwo(k)
      {
        if j < k {
          assert Pow2(j) in PowersOfTwo(k - 1);
        }
      }
    }
  }

  lemma {:induction false} PowersOfTwoAscending(k: nat)
    ensures StrictlyAscending(PowersOfTwo(k))
  {
    if k > 0 {
      PowersOfTwoAscending(k - 1);
      PowersOfTwoElements(k - 1);
      var ps := PowersOfTwo(k - 1);
      var r := PowersOfTwo(k);
      assert r == ps + [Pow2(k)];
      forall i, j | 0 <= i < j < |r|
        ensures r[i] < r[j]
      {
        assert r[i] == ps[i];
        if j == |r| - 1 {
          assert r[i] in ps;
          var m: nat :| m <= k - 1 && r[i] == Pow2(m);
          PowersOfTwoBelow(m, k);
        } else {
          assert r[j] == ps[j];
        }
      }
    }
  }

  /** The divisors of 2^k are exactly the k + 1 powers of two up to 2^k. */
  lemma DivisorsOfPowerOfTwo(k: nat)
    ensures Divisors(Pow2(k)) == PowersOfTwo(k)
  {
    DivisorsExact(Pow2(k));
    PowersOfTwoElements(k);
    PowersOfTwoAscending(k);
    forall x
      ensures x in Divisors(Pow2(k)) <==> x in PowersOfTwo(k)
    {
      if Divides(x, Pow2(k)) {
        DivisorOfPowerOfTwo(k, x);
        var j: nat :| j <= k && x == Pow2(j);
        assert x in PowersOfTwo(k);
      }
      if x in PowersOfTwo(k) {
        var j: nat :| j <= k && x == Pow2(j);
        PowerDividesPower(j, k);
      }
    }
    AscendingUnique(Divisors(Pow2(k)), PowersOfTwo(k));
  }

  lemma PowersOfTwoUpTo4096()
    ensures PowersOfTwo(12) == [1, 2, 4, 8, 16, 32, 64, 128, 256, 512, 1024, 2048, 4096]
  {
    assert PowersOfTwo(2) == [1, 2, 4];
    assert PowersOfTwo(4) == [1, 2, 4, 8, 16];
    assert PowersOfTwo(6) == [1, 2, 4, 8, 16, 32, 64];
    assert PowersOfTwo(8) == [1, 2, 4, 8, 16, 32, 64, 128, 256];
    assert PowersOfTwo(10) == [1, 2, 4, 8, 16, 32, 64, 128, 256, 512, 1024];
  }

  /** The divisors of 4096 are the thirteen powers of two from 1 to 4096. */
  lemma DivisorsOf4096()
    ensures Divisors(4096) == [1, 2, 4, 8, 16, 32, 64, 128, 256, 512, 1024, 2048, 4096]
  {
    PowersOfTwoUpTo4096();
    assert Pow2(12) == 4096;
    DivisorsOfPowerOfTwo(12);
  }

  /** `InclusiveRange`: counts from `current` up to and including `max`. */
  class InclusiveRange {
    var current: Int32
    const max: Int32

    /** The values this range still yields. */
    ghost function Remaining(): seq<int>
      reads this
    {
      Range(current, max)
    }

    constructor (current: Int32, max: Int32)
      ensures this.current == current && this.max == max
      ensures Remaining() == Range(current, max)
    {
      this.current := current;
      this.max := max;
    }

    /** Yields `current` and advances it by one, or `None` once `current` is past `max`.
        The step `current + 1` overflows `i32` when `current` is `i32::MAX`; the caller
        rules that out. */
    method Next() returns (r: Option<Int32>)
      requires current > max || current < I32_MAX
      modifies this
      ensures old(Remaining()) == Pending(r, Remaining())
      ensures r.None? ==> old(current) > max && current == old(current)
      ensures r.Some? ==> r.value == old(current) && current == old(current) + 1
    {
      if current > max {
        return None;
      }
      var ret := current;
      current := current + 1;
      assert old(Remaining())[1..] == Remaining();
      r := Some(ret);
    }
  }

  /** `DivisorIterator`: the divisors of `value`, handed out one per call. The cursor `last`
      holds the next value to hand out, or `None` once the iterator is exhausted. */
  class DivisorIterator {
    const value: Int32
    var last: Option<Int32>

    ghost predicate Valid()
      reads this
    {
      last.Some? ==> 1 <= last.value && (last.value == 1 || last.value <= value)
    }

    /** The values this iterator still hands out. */
    ghost function Outputs(): seq<int>
      reads this
      requires Valid()
    {
      match last
      case None => []
      case Some(c) => DivisorsFrom(value, c)
    }

    constructor (n: Int32)
      ensures Valid() && value == n && last == Some(1)
      ensures Outputs() == Divisors(n)
    {
      value := n;
      last := Some(1);
    }

    /** Hands out the cursor and moves it to the next divisor of `value` found by scanning
        `last + 1 ..= value`. `last + 1` and the range's own step overflow `i32` only for
        `value == i32::MAX`, which the precondition excludes. */
    method Next() returns (r: Option<Int32>)
      requires Valid() && value < I32_MAX
      modifies this
      ensures Valid()
      ensures old(Outputs()) == Pending(r, Outputs())
      ensures old(last).None? ==> r.None? && last.None?
      ensures r.Some? && last.Some? ==> r.value < last.value <= value
    {
      match last {
        case None =>
          r := None;
        case Some(l) =>
          var range := new InclusiveRange(l + 1, value);
          var candidate := range.Next();
          while candidate.Some? && value % candidate.value != 0
            invariant range.max == value
            invariant candidate.Some? ==>
              l + 1 <= candidate.value <= value && range.current == candidate.value + 1
            invariant FirstDivisor(value, l + 1, value)
                      == if candidate.None? then None else FirstDivisor(value, candidate.value, value)
            decreases |Pending(candidate, range.Remaining())|
          {
            candidate := range.Next();
          }
          ghost var found: Option<int> := candidate;
          assert found == FirstDivisor(value, l + 1, value) by {
            if candidate.Some? {
              assert Divides(candidate.value, value);
            }
          }
          DivisorsFromStep(value, l, found);
          last := candidate;
          r := Some(l);
      }
    }
  }

  /** `DivisorIterator::new(n).collect()`: drives the iterator to exhaustion. */
  method CollectDivisors(n: Int32) returns (ds: seq<int>)
    requires n < I32_MAX
    ensures ds == Divisors(n)
  {
    var divisors := new DivisorIterator(n);
    ds := [];
    var d := divisors.Next();
    while d.Some?
      invariant divisors.Valid() && divisors.value == n
      invariant Divisors(n) == ds + Pending(d, divisors.Outputs())
      decreases |Pending(d, divisors.Outputs())|
    {
      ghost var rest := divisors.Outputs();
      assert Divisors(n) == (ds + [d.value]) + rest;
      ds := ds + [d.value];
      d := divisors.Next();
    }
  }
}
