/** Strictly ascending sequences, the ascending intersection of two of them, and the maximum
    of a sequence. `Intersect` is the contract of the external `iter_ord::AscendingIntersection`
    (whose own code is not part of this model), written as the merge it is specified to be. */
module Ordered {
  import opened Common

  predicate StrictlyAscending(s: seq<int>) {
    forall i, j :: 0 <= i < j < |s| ==> s[i] < s[j]
  }

  lemma HeadIsElement(s: seq<int>)
    ensures s != [] ==> s[0] in s
  {
  }

  /** A strictly ascending sequence is determined by its elements. */
  lemma {:induction false} AscendingUnique(xs: seq<int>, ys: seq<int>)
    requires StrictlyAscending(xs) && StrictlyAscending(ys)
    requires forall v :: v in xs <==> v in ys
    ensures xs == ys
  {
    if xs != [] && ys != [] {
      assert xs[0] in xs;
      assert ys != [];
      assert ys[0] in ys;
      assert xs[0] == ys[0] by {
        var i :| 0 <= i < |ys| && ys[i] == xs[0];
        var k :| 0 <= k < |xs| && xs[k] == ys[0];
        if k > 0 {
          assert xs[0] < xs[k];
        }
      }
      forall v
        ensures v in xs[1..] <==> v in ys[1..]
      {
        if v in xs[1..] {
          assert v in ys && v != ys[0];
        }
        if v in ys[1..] {
          assert v in xs && v != xs[0];
        }
      }
      AscendingUnique(xs[1..], ys[1..]);
      assert xs == [xs[0]] + xs[1..];
      assert ys == [ys[0]] + ys[1..];
    } else if xs != [] {
      HeadIsElement(xs);
      assert false;
    } else if ys != [] {
      HeadIsElement(ys);
      assert false;
    }
  }

  /** The common elements of two ascending sequences: compare the heads, emit and advance both
      when they are equal, otherwise advance the side with the smaller head; stop when either
      side is exhausted. */
  function Intersect(xs: seq<int>, ys: seq<int>): seq<int>
    decreases |xs| + |ys|
  {
    if xs == [] || ys == [] then []
    else if xs[0] == ys[0] then [xs[0]] + Intersect(xs[1..], ys[1..])
    else if xs[0] < ys[0] then Intersect(xs[1..], ys)
    else Intersect(xs, ys[1..])
  }

  /** In a strictly ascending sequence, the head is below every later element. */
  lemma HeadBelowTail(s: seq<int>)
    requires StrictlyAscending(s) && s != []
    ensures forall v :: v in s[1..] ==> s[0] < v
  {
    forall v | v in s[1..] ensures s[0] < v {
      var i :| 0 <= i < |s[1..]| && s[1..][i] == v;
      assert s[i + 1] == v;
    }
  }

  /** A value below the head of a strictly ascending sequence is not in it. */
  lemma BelowHeadAbsent(h: int, s: seq<int>)
    requires StrictlyAscending(s) && s != [] && h < s[0]
    ensures h !in s
  {
    forall i | 0 <= i < |s| ensures s[i] != h {
      if i > 0 {
        assert s[0] < s[i];
      }
    }
  }

  /** Putting a value below every element in front keeps a sequence strictly ascending. */
  lemma ConsAscending(h: int, rest: seq<int>)
    requires StrictlyAscending(rest)
    requires forall v :: v in rest ==> h < v
    ensures StrictlyAscending([h] + rest)
  {
    forall i, j | 0 <= i < j < |[h] + rest|
      ensures ([h] + rest)[i] < ([h] + rest)[j]
    {
      assert ([h] + rest)[j] == rest[j - 1];
      if i == 0 {
        assert rest[j - 1] in rest;
      } else {
        assert ([h] + rest)[i] == rest[i - 1];
      }
    }
  }

  /** A value of a sequence other than its head lies in its tail. */
  lemma InTail(s: seq<int>, v: int)
    requires v in s && s != [] && v != s[0]
    ensures v in s[1..]
  {
    var i :| 0 <= i < |s| && s[i] == v;
    assert s[1..][i - 1] == v;
  }

  /** On strictly ascending inputs the merge yields exactly the values in both, ascending. */
  lemma {:induction false} IntersectIsAscendingIntersection(xs: seq<int>, ys: seq<int>)
    requires StrictlyAscending(xs) && StrictlyAscending(ys)
    ensures StrictlyAscending(Intersect(xs, ys))
    ensures forall v :: v in Intersect(xs, ys) <==> v in xs && v in ys
    decreases |xs| + |ys|
  {
    if xs == [] || ys == [] {
    } else if xs[0] == ys[0] {
      IntersectIsAscendingIntersection(xs[1..], ys[1..]);
      var rest := Intersect(xs[1..], ys[1..]);
      HeadBelowTail(xs);
      ConsAscending(xs[0], rest);
      assert Intersect(xs, ys) == [xs[0]] + rest;
      forall v | v in xs && v in ys && v != xs[0]
        ensures v in xs[1..] && v in ys[1..]
      {
        InTail(xs, v);
        InTail(ys, v);
      }
    } else if xs[0] < ys[0] {
      IntersectIsAscendingIntersection(xs[1..], ys);
      BelowHeadAbsent(xs[0], ys);
      assert xs == [xs[0]] + xs[1..];
    } else {
      IntersectIsAscendingIntersection(xs, ys[1..]);
      BelowHeadAbsent(ys[0], xs);
      assert ys == [ys[0]] + ys[1..];
    }
  }

  /** One step of `Iterator::max`: the larger of the running maximum and the next value,
      the next value when they are equal. */
  function Bump(best: Option<int>, v: int): int {
    if best.None? || best.value <= v then v else best.value
  }

  /** The fold behind `Iterator::max`, from the running maximum `best` over the rest `s`. */
  function MaxFrom(best: Option<int>, s: seq<int>): (m: Option<int>)
    ensures m.None? <==> best.None? && s == []
    ensures m.Some? ==> (best.Some? && m.value == best.value) || m.value in s
    ensures m.Some? ==> (best.Some? ==> best.value <= m.value) && forall v :: v in s ==> v <= m.value
    decreases |s|
  {
    if s == [] then best
    else
      assert s == [s[0]] + s[1..];
      MaxFrom(Some(Bump(best, s[0])), s[1..])
  }

  /** `Iterator::max`: the largest value, `None` for an empty sequence. */
  function MaxOf(s: seq<int>): (m: Option<int>)
    ensures m.None? <==> s == []
    ensures m.Some? ==> m.value in s && forall v :: v in s ==> v <= m.value
  {
    MaxFrom(None, s)
  }

  /** One step of the merge feeding the maximum: advancing past the heads keeps the maximum
      of everything still to come. */
  lemma MaxOfMergeStep(best: Option<int>, xs: seq<int>, ys: seq<int>)
    requires xs != [] && ys != []
    ensures xs[0] == ys[0] ==>
      MaxFrom(best, Intersect(xs, ys)) == MaxFrom(Some(Bump(best, xs[0])), Intersect(xs[1..], ys[1..]))
    ensures xs[0] < ys[0] ==> MaxFrom(best, Intersect(xs, ys)) == MaxFrom(best, Intersect(xs[1..], ys))
    ensures xs[0] > ys[0] ==> MaxFrom(best, Intersect(xs, ys)) == MaxFrom(best, Intersect(xs, ys[1..]))
  {
    if xs[0] == ys[0] {
      var rest := Intersect(xs[1..], ys[1..]);
      assert Intersect(xs, ys) == [xs[0]] + rest;
      assert ([xs[0]] + rest)[1..] == rest;
    }
  }
}
