/** `Scaled`: a 32-bit multiple of 2^-16 and its decimal rendering, done
    with integer arithmetic only: the sign, the integer part, and then
    one fractional digit at a time until the remaining error allowance
    covers what is left. */
module ScaledFormat {
  import opened JavaInt

  /** 2^16, the scaled value of 1. */
  const UNITY: int := 65536
  /** The rounding constant added before the last digits; the literal is
      23768. */
  const HALFUNITY: int := 23768

  /** How many fractional digits can still come once the allowance is
      `delta`: one more for every tenfold step it takes to pass a unit. */
  function DigitsLeft(delta: int): nat
    requires delta >= 10
    decreases 10 * UNITY - delta
  {
    if delta > UNITY then 1 else 1 + DigitsLeft(delta * 10)
  }

  /** The fractional digits `toString` appends from remainder `s` with
      allowance `delta`: each pass rounds once the allowance is past one
      unit, emits the units digit, keeps ten times the rest, and goes on
      while that exceeds the next allowance. Every operand of `/` and `%`
      here is positive, where Java's operators and Dafny's agree. */
  function FractionDigits(s: int, delta: int): string
    requires 0 <= s < 10 * UNITY && 10 <= delta < 10 * UNITY
    requires delta == 10 || s > delta
    decreases 10 * UNITY - delta
  {
    var rounded := if delta > UNITY then s + HALFUNITY - delta / 2 else s;
    var digit := rounded / UNITY;
    var rest := 10 * (rounded % UNITY);
    var next := delta * 10;
    DecimalString(digit) + (if rest > next then FractionDigits(rest, next) else "")
  }

  /** What follows the integer part, given ten times the remainder plus
      six: nothing when the remainder is zero, else a '.' and the digits. */
  function FractionPart(f: int): (r: string)
    requires 6 <= f < 10 * UNITY
    ensures r == "" <==> f == 6
    ensures r != "" ==> r[0] == '.' && 2 <= |r| <= 6 && IsDigits(r[1..])
  {
    if f != 6 then
      FractionLength(f);
      assert ("." + FractionDigits(f, 10))[1..] == FractionDigits(f, 10);
      "." + FractionDigits(f, 10)
    else ""
  }

  /** 2^31 is a whole number of units. */
  lemma MinValueUnits()
    ensures Div(INT_MIN, UNITY) == -32768 && Rem(INT_MIN, UNITY) == 0
  {
  }

  /** The remainder `toString` feeds the fraction is in range for every
      magnitude it can see: a non-negative value, or -2^31 left negative
      by Java's negation. */
  lemma MagnitudeRange(s: int)
    requires s >= 0 || s == INT_MIN
    ensures 6 <= 10 * Rem(s, UNITY) + 6 < 10 * UNITY
  {
    if s == INT_MIN {
      MinValueUnits();
    }
  }

  /** The text for a sign and a magnitude: the sign, the integer part, then
      the fraction. */
  function Render(sign: string, s: int): string
    requires s >= 0 || s == INT_MIN
  {
    MagnitudeRange(s);
    sign + DecimalString(Div(s, UNITY)) + FractionPart(10 * Rem(s, UNITY) + 6)
  }

  /** `toString` as a function of the value. The sign is taken with
      Java's negation, which leaves -2^31 negative. */
  function ScaledString(v: int): string
    requires IsInt32(v)
  {
    Render(if v < 0 then "-" else "", if v < 0 then Neg(v) else v)
  }

  /** The pieces `toString` assembles once it has taken the sign. */
  lemma StartSplit(v: int, sign: string, s: int)
    requires IsInt32(v)
    requires sign == (if v < 0 then "-" else "") && s == (if v < 0 then Neg(v) else v)
    ensures s >= 0 || s == INT_MIN
    ensures 6 <= 10 * Rem(s, UNITY) + 6 < 10 * UNITY
    ensures ScaledString(v) == sign + DecimalString(Div(s, UNITY)) + FractionPart(10 * Rem(s, UNITY) + 6)
  {
    SignSplit(v, sign, s);
    RenderPieces(sign, s);
  }

  /** Taking the sign with Java's negation leaves a magnitude that is
      non-negative or -2^31. */
  lemma SignSplit(v: int, sign: string, s: int)
    requires IsInt32(v)
    requires sign == (if v < 0 then "-" else "") && s == (if v < 0 then Neg(v) else v)
    ensures s >= 0 || s == INT_MIN
    ensures ScaledString(v) == Render(sign, s)
  {
  }

  lemma RenderPieces(sign: string, s: int)
    requires s >= 0 || s == INT_MIN
    ensures 6 <= 10 * Rem(s, UNITY) + 6 < 10 * UNITY
    ensures Render(sign, s) == sign + DecimalString(Div(s, UNITY)) + FractionPart(10 * Rem(s, UNITY) + 6)
  {
    MagnitudeRange(s);
  }

  /** One pass of the digit loop, written with Java's operators: from
      remainder `s` and allowance `delta`, the rounded value its one digit
      is taken from and the remainder `rest` the next pass starts from. */
  lemma FractionStep(s: int, delta: int, rounded: int, rest: int)
    requires 0 <= s < 10 * UNITY && 10 <= delta < 10 * UNITY
    requires delta == 10 || s > delta
    requires rounded == if delta > UNITY then s + HALFUNITY - Div(delta, 2) else s
    requires rest == 10 * Rem(rounded, UNITY)
    ensures 0 <= Div(rounded, UNITY) < 10
    ensures 0 <= rest < 10 * UNITY
    ensures FractionDigits(s, delta) == DecimalString(Div(rounded, UNITY))
      + (if rest > delta * 10 then FractionDigits(rest, delta * 10) else "")
  {
    if delta > UNITY {
      RoundedStep(s, delta, rounded, rest);
    } else {
      PlainStep(s, delta, rest);
    }
  }

  /** A pass before the allowance reaches a unit: no rounding. */
  lemma PlainStep(s: int, delta: int, rest: int)
    requires 0 <= s < 10 * UNITY && 10 <= delta <= UNITY
    requires delta == 10 || s > delta
    requires rest == 10 * Rem(s, UNITY)
    ensures 0 <= Div(s, UNITY) < 10
    ensures 0 <= rest < 10 * UNITY
    ensures FractionDigits(s, delta) == DecimalString(Div(s, UNITY))
      + (if rest > delta * 10 then FractionDigits(rest, delta * 10) else "")
  {
    DivIsEuclidean(s, UNITY);
  }

  /** A pass once the allowance is past a unit: round first; it is the
      last pass. */
  lemma RoundedStep(s: int, delta: int, rounded: int, rest: int)
    requires UNITY < delta < s < 10 * UNITY
    requires rounded == s + HALFUNITY - Div(delta, 2)
    requires rest == 10 * Rem(rounded, UNITY)
    ensures 0 <= Div(rounded, UNITY) < 10
    ensures 0 <= rest < 10 * UNITY
    ensures FractionDigits(s, delta) == DecimalString(Div(rounded, UNITY))
  {
    DivIsEuclidean(delta, 2);
    DivIsEuclidean(rounded, UNITY);
  }

  /** Each pass emits exactly one digit, and the passes stop once the
      allowance is past a unit: at most `DigitsLeft(delta)` digits. */
  lemma {:induction false} FractionBounds(s: int, delta: int)
    requires 0 <= s < 10 * UNITY && 10 <= delta < 10 * UNITY
    requires delta == 10 || s > delta
    ensures 1 <= |FractionDigits(s, delta)| <= DigitsLeft(delta)
    decreases 10 * UNITY - delta
  {
    var rounded := if delta > UNITY then s + HALFUNITY - Div(delta, 2) else s;
    var rest := 10 * Rem(rounded, UNITY);
    FractionStep(s, delta, rounded, rest);
    assert |DecimalString(Div(rounded, UNITY))| == 1;
    if rest > delta * 10 {
      FractionBounds(rest, delta * 10);
    }
  }

  /** Every character a pass emits is a decimal digit. */
  lemma {:induction false} FractionIsDigits(s: int, delta: int)
    requires 0 <= s < 10 * UNITY && 10 <= delta < 10 * UNITY
    requires delta == 10 || s > delta
    ensures IsDigits(FractionDigits(s, delta))
    decreases 10 * UNITY - delta
  {
    var rounded := if delta > UNITY then s + HALFUNITY - Div(delta, 2) else s;
    var rest := 10 * Rem(rounded, UNITY);
    FractionStep(s, delta, rounded, rest);
    var head := DecimalString(Div(rounded, UNITY));
    assert head == Digits(Div(rounded, UNITY));
    if rest > delta * 10 {
      FractionIsDigits(rest, delta * 10);
      DigitsConcat(head, FractionDigits(rest, delta * 10));
    } else {
      assert head + "" == head;
    }
  }

  lemma DigitsConcat(a: string, b: string)
    requires IsDigits(a) && IsDigits(b)
    ensures IsDigits(a + b)
  {
    assert forall i | 0 <= i < |a + b| :: (a + b)[i] == if i < |a| then a[i] else b[i - |a|];
  }

  /** A fraction has one to five digits. */
  lemma FractionLength(s: int)
    requires 0 <= s < 10 * UNITY
    ensures 1 <= |FractionDigits(s, 10)| <= 5
    ensures IsDigits(FractionDigits(s, 10))
  {
    FractionIsDigits(s, 10);
    FractionBounds(s, 10);
    assert DigitsLeft(100000) == 1;
    assert DigitsLeft(10) == 5;
  }

  function Abs(v: int): nat {
    if v < 0 then -v else v
  }

  lemma Pieces(a: string, b: string, c: string)
    ensures (a + b + c)[|a|..|a| + |b|] == b && (a + b + c)[|a| + |b|..] == c
    ensures |a| > 0 ==> (a + b + c)[0] == a[0]
    ensures |a| == 0 && |b| > 0 ==> (a + b + c)[0] == b[0]
  {
  }

  /** The layout of a rendering `r` whose sign takes `sign` characters:
      the digits of `q` follow the sign and read back as `q`; then either
      the text ends (`whole`), or a '.' and one to five digits end it. */
  predicate Shaped(r: string, sign: nat, q: nat, whole: bool) {
    var k := sign + |Digits(q)|;
    && k <= |r|
    && r[sign..k] == Digits(q)
    && (k == |r| <==> whole)
    && (k < |r| ==> r[k] == '.' && 2 <= |r| - k <= 6 && IsDigits(r[k + 1..]))
  }

  /** For every value but -2^31: a '-' first exactly when the value is
      negative; then the decimal digits of |v| / 65536, which read back as
      that quotient; then nothing when |v| is a whole number of units, and
      else a '.' and one to five digits. */
  lemma ScaledShape(v: int)
    requires IsInt32(v) && v != INT_MIN
    ensures ScaledString(v)[0] == '-' <==> v < 0
    ensures Shaped(ScaledString(v), if v < 0 then 1 else 0, Abs(v) / UNITY, Abs(v) % UNITY == 0)
  {
    var s := Abs(v);
    var pre := if v < 0 then "-" else "";
    StartSplit(v, pre, s);
    DivIsEuclidean(s, UNITY);
    Layout(pre, Div(s, UNITY), 10 * Rem(s, UNITY) + 6);
  }

  /** The layout of a sign, the digits of `q` and a fraction part. */
  lemma Layout(pre: string, q: nat, f: int)
    requires pre == "" || pre == "-"
    requires 6 <= f < 10 * UNITY
    ensures (pre + DecimalString(q) + FractionPart(f))[0] == '-' <==> pre == "-"
    ensures Shaped(pre + DecimalString(q) + FractionPart(f), |pre|, q, f == 6)
  {
    assert DecimalString(q) == Digits(q);
    Concatenated(pre, Digits(q), FractionPart(f), q, f == 6);
  }

  /** `Shaped` for a concatenation, from the shape of its three parts. */
  lemma Concatenated(pre: string, ip: string, tail: string, q: nat, whole: bool)
    requires pre == "" || pre == "-"
    requires ip == Digits(q)
    requires tail == "" <==> whole
    requires tail != "" ==> tail[0] == '.' && 2 <= |tail| <= 6 && IsDigits(tail[1..])
    ensures (pre + ip + tail)[0] == '-' <==> pre == "-"
    ensures Shaped(pre + ip + tail, |pre|, q, whole)
  {
    var r := pre + ip + tail;
    var k := |pre| + |ip|;
    Pieces(pre, ip, tail);
    if tail != "" {
      assert r[k] == r[k..][0] && r[k + 1..] == r[k..][1..];
    }
  }

  /** -2^31 has no positive counterpart: its negation stays negative and
      prints its own sign after the first. */
  lemma ScaledMinValue()
    ensures ScaledString(INT_MIN) == "--32768"
  {
    MinValueUnits();
    assert DigitChar(3) == '3' && DigitChar(2) == '2' && DigitChar(7) == '7';
    assert DigitChar(6) == '6' && DigitChar(8) == '8';
    assert Digits(32) == "32" by { assert 32 / 10 == 3 && 32 % 10 == 2; }
    assert Digits(327) == "327" by { assert 327 / 10 == 32 && 327 % 10 == 7; }
    assert Digits(3276) == "3276" by { assert 3276 / 10 == 327 && 3276 % 10 == 6; }
    assert Digits(32768) == "32768" by { assert 32768 / 10 == 3276 && 32768 % 10 == 8; }
  }

  lemma Associative(a: string, b: string, c: string)
    ensures a + (b + c) == (a + b) + c
  {
  }

  /** The fraction of `toString`: nothing when the remainder `s0` is the
      bare rounding offset 6; otherwise a '.' and then one digit per pass,
      rounding once the error allowance `delta` passes a unit, until what
      is left is within the allowance. */
  method AppendFraction(sb0: string, s0: int) returns (sb: string)
    requires 6 <= s0 < 10 * UNITY
    ensures sb == sb0 + FractionPart(s0)
  {
    sb := sb0;
    if s0 != 6 {
      ghost var target := sb0 + FractionPart(s0);
      Associative(sb0, ".", FractionDigits(s0, 10));
      var s, delta := s0, 10;
      sb := sb + ".";
      var more := true;
      while more
        invariant more ==> 0 <= s < 10 * UNITY && 10 <= delta < 10 * UNITY && (delta == 10 || s > delta)
        invariant more ==> sb + FractionDigits(s, delta) == target
        invariant !more ==> sb == target
        decreases if more then 10 * UNITY - delta + 1 else 0
      {
        ghost var sPrev, deltaPrev, sbPrev := s, delta, sb;
        if delta > UNITY {
          s := s + HALFUNITY - Div(delta, 2);
        }
        ghost var rounded := s;
        var digit := DecimalString(Div(s, UNITY));
        sb := sb + digit;
        s := 10 * Rem(s, UNITY);
        delta := delta * 10;
        more := s > delta;
        FractionStep(sPrev, deltaPrev, rounded, s);
        ghost var tail := if more then FractionDigits(s, delta) else "";
        Associative(sbPrev, digit, tail);
      }
    } else {
      assert FractionPart(s0) == "";
    }
  }

  class Scaled {
    const intValue: int

    constructor (i: int)
      requires IsInt32(i)
      ensures intValue == i
    {
      intValue := i;
    }

    /** `toString`, appending to a buffer as it goes. */
    method ToString() returns (r: string)
      requires IsInt32(intValue)
      ensures r == ScaledString(intValue)
    {
      var v := intValue;
      var sb := "";
      var s := v;
      if s < 0 {
        sb := "-";
        s := Neg(s);
      }
      StartSplit(v, sb, s);
      sb := sb + DecimalString(Div(s, UNITY));
      s := 10 * Rem(s, UNITY) + 6;
      sb := AppendFraction(sb, s);
      r := sb;
    }
  }
}
