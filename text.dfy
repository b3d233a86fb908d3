/** The text conventions the fraction type relies on, stated by contract: decimal rendering
    of an `i32` (`Display`), parsing of an `i32` field (`str::parse::<i32>`), and splitting a
    line at every single space (`str::split(' ')`), both as a list of fields and as the
    stateful iterator `from_str` advances. */
module Text {
  import opened Common

  predicate IsDigit(c: char) {
    '0' <= c <= '9'
  }

  predicate AllDigits(s: string) {
    forall i :: 0 <= i < |s| ==> IsDigit(s[i])
  }

  function DigitChar(d: nat): (c: char)
    requires d < 10
    ensures IsDigit(c)
  {
    ('0' as int + d) as char
  }

  function DigitValue(c: char): nat
    requires IsDigit(c)
  {
    c as int - '0' as int
  }

  /** The number a string of decimal digits denotes (leading zeros allowed). */
  function DigitsValue(s: string): nat
    requires AllDigits(s)
  {
    if s == [] then 0 else DigitsValue(s[..|s| - 1]) * 10 + DigitValue(s[|s| - 1])
  }

  /** Decimal digits of `n`, without leading zeros. */
  function ShowNat(n: nat): (s: string)
    ensures |s| >= 1 && AllDigits(s)
  {
    if n < 10 then [DigitChar(n)] else ShowNat(n / 10) + [DigitChar(n % 10)]
  }

  lemma {:induction false} ShowNatRoundTrip(n: nat)
    ensures DigitsValue(ShowNat(n)) == n
  {
    var s := ShowNat(n);
    if n >= 10 {
      ShowNatRoundTrip(n / 10);
      assert s[..|s| - 1] == ShowNat(n / 10);
    }
  }

  /** `Display` for `i32`: a minus sign for negative values, then the decimal digits. */
  function ShowInt(x: int): string {
    if x < 0 then "-" + ShowNat(-x) else ShowNat(x)
  }

  /** The rendering of an integer holds only digits and possibly a leading minus sign, so it
      can contain neither the separator ' ' nor '/'. */
  lemma ShowIntHasNoSeparator(x: int)
    ensures ' ' !in ShowInt(x) && '/' !in ShowInt(x)
  {
    var s := ShowInt(x);
    var digits := if x < 0 then ShowNat(-x) else ShowNat(x);
    assert forall c :: c in digits ==> IsDigit(c);
  }

  /** `str::parse::<i32>`, abstracted: an optional '+' or '-', then one or more ASCII digits,
      denoting a value inside the `i32` range; anything else is an error. */
  function ParseInt(s: string): Option<Int32> {
    var signed := |s| > 0 && (s[0] == '-' || s[0] == '+');
    var digits := if signed then s[1..] else s;
    if |digits| == 0 || !AllDigits(digits) then None
    else
      var v: int := if signed && s[0] == '-' then -(DigitsValue(digits) as int) else DigitsValue(digits);
      if I32_MIN <= v <= I32_MAX then Some(v) else None
  }

  /** Parsing the rendering of an `i32` gives it back. */
  lemma ParseShowInt(x: Int32)
    ensures ParseInt(ShowInt(x)) == Some(x)
  {
    if x < 0 {
      var m: nat := -(x as int);
      var s := ShowInt(x);
      assert s[0] == '-' && s[1..] == ShowNat(m);
      ShowNatRoundTrip(m);
    } else {
      ShowNatRoundTrip(x);
      assert IsDigit(ShowNat(x)[0]);
    }
  }

  /** Distinct `i32` values render differently. */
  lemma ShowIntInjective(x: Int32, y: Int32)
    requires ShowInt(x) == ShowInt(y)
    ensures x == y
  {
    ParseShowInt(x);
    ParseShowInt(y);
  }

  /** `s.split(' ')`: the pieces between consecutive spaces, empty pieces included; a string
      without a space is a single field, and the empty string is one empty field. */
  function Fields(s: string): (fs: seq<string>)
    ensures |fs| >= 1
    ensures forall i :: 0 <= i < |fs| ==> ' ' !in fs[i]
  {
    if s == [] then [""]
    else
      var rest := Fields(s[1..]);
      if s[0] == ' ' then [""] + rest
      else [[s[0]] + rest[0]] + rest[1..]
  }

  /** The fields written out again, one ' ' between neighbours. */
  function Join(fs: seq<string>): string
    requires |fs| >= 1
  {
    if |fs| == 1 then fs[0] else fs[0] + " " + Join(fs[1..])
  }

  /** Splitting loses nothing: joining the fields gives the line back. */
  lemma {:induction false} JoinFields(s: string)
    ensures Join(Fields(s)) == s
  {
    if s != [] {
      JoinFields(s[1..]);
      var rest := Fields(s[1..]);
      if s[0] == ' ' {
        assert Fields(s) == [""] + rest;
        assert ([""] + rest)[1..] == rest;
      } else {
        var fs := Fields(s);
        assert fs == [[s[0]] + rest[0]] + rest[1..];
        if |rest| > 1 {
          assert fs[1..] == rest[1..];
        }
        assert s == [s[0]] + s[1..];
      }
    }
  }

  /** A space-free prefix glues onto the first field of what follows it. */
  lemma {:induction false} FieldsCons(a: string, t: string)
    requires ' ' !in a
    ensures Fields(a + t) == [a + Fields(t)[0]] + Fields(t)[1..]
  {
    if a != [] {
      FieldsCons(a[1..], t);
      assert (a + t)[1..] == a[1..] + t;
      assert (a + t)[0] == a[0];
      assert [a[0]] + (a[1..] + Fields(t)[0]) == a + Fields(t)[0];
    } else {
      assert a + t == t;
      assert a + Fields(t)[0] == Fields(t)[0];
      assert Fields(t) == [Fields(t)[0]] + Fields(t)[1..];
    }
  }

  /** Splitting inverts joining, for fields that hold no space. */
  lemma {:induction false} FieldsOfJoin(fs: seq<string>)
    requires |fs| >= 1
    requires forall i :: 0 <= i < |fs| ==> ' ' !in fs[i]
    ensures Fields(Join(fs)) == fs
  {
    if |fs| == 1 {
      FieldsCons(fs[0], "");
      assert fs[0] + "" == fs[0];
    } else {
      var tail := Join(fs[1..]);
      FieldsOfJoin(fs[1..]);
      assert Join(fs) == fs[0] + (" " + tail);
      FieldsCons(fs[0], " " + tail);
      assert (" " + tail)[1..] == tail;
      assert Fields(" " + tail) == [""] + fs[1..];
      assert fs[0] + "" == fs[0];
      assert fs == [fs[0]] + fs[1..];
    }
  }

  /** Where the first field of `s` ends: at the first space, or at the end of `s`. */
  lemma FirstField(s: string, i: nat)
    requires i <= |s| && ' ' !in s[..i] && (i == |s| || s[i] == ' ')
    ensures i == |s| ==> Fields(s) == [s]
    ensures i < |s| ==> Fields(s) == [s[..i]] + Fields(s[i + 1..])
  {
    assert s == s[..i] + s[i..];
    FieldsCons(s[..i], s[i..]);
    if i < |s| {
      assert s[i..][1..] == s[i + 1..];
      assert Fields(s[i..]) == [""] + Fields(s[i + 1..]);
      assert s[..i] + "" == s[..i];
    } else {
      assert s[i..] == "";
      assert s[..i] + "" == s;
    }
  }

  /** `str::Split` over ' ': hands out the fields of a line one per call, then `None`. */
  class SpaceSplit {
    var rest: string
    var finished: bool

    /** The fields still to be handed out. */
    ghost function Remaining(): seq<string>
      reads this
    {
      if finished then [] else Fields(rest)
    }

    constructor (s: string)
      ensures Remaining() == Fields(s)
    {
      rest := s;
      finished := false;
    }

    method Next() returns (field: Option<string>)
      modifies this
      ensures old(Remaining()) == Pending(field, Remaining())
    {
      if finished {
        return None;
      }
      var i := 0;
      while i < |rest| && rest[i] != ' '
        invariant 0 <= i <= |rest|
        invariant ' ' !in rest[..i]
      {
        assert rest[..i + 1] == rest[..i] + [rest[i]];
        i := i + 1;
      }
      FirstField(rest, i);
      if i == |rest| {
        field := Some(rest);
        finished := true;
      } else {
        field := Some(rest[..i]);
        rest := rest[i + 1..];
      }
    }
  }
}
