/** Java's 32-bit `int` and its truncating division, stated over Dafny's
    unbounded integers. Dafny's own `/` and `%` are Euclidean; Java's `/`
    rounds toward zero and `%` takes the sign of the dividend. */
module JavaInt {

  const INT_MIN: int := -0x8000_0000
  const INT_MAX: int := 0x7FFF_FFFF

  predicate IsInt32(x: int) {
    INT_MIN <= x <= INT_MAX
  }

  /** The `int` that Java's wrapping arithmetic leaves for the exact
      value `x`: the one 32-bit value congruent to `x` modulo 2^32. */
  function Wrap32(x: int): (r: int)
    ensures IsInt32(r)
    ensures (x - r) % 0x1_0000_0000 == 0
    ensures IsInt32(x) ==> r == x
  {
    var u := x % 0x1_0000_0000;
    if u <= INT_MAX then u else u - 0x1_0000_0000
  }

  /** Java `a / d` for a positive divisor: rounds toward zero. */
  function Div(a: int, d: int): (q: int)
    requires d > 0
    ensures a >= 0 ==> 0 <= q && d * q <= a < d * q + d
    ensures a < 0 ==> q <= 0 && d * q - d < a <= d * q
  {
    if a >= 0 then
      EuclideanBounds(a, d);
      a / d
    else
      EuclideanBounds(-a, d);
      -((-a) / d)
  }

  lemma EuclideanBounds(a: nat, d: int)
    requires d > 0
    ensures 0 <= a / d && d * (a / d) <= a < d * (a / d) + d
  {
    assert a == d * (a / d) + a % d;
  }

  /** Java `a % d` for a positive divisor: the remainder of `Div`, with the
      sign of the dividend. */
  function Rem(a: int, d: int): (r: int)
    requires d > 0
    ensures a == d * Div(a, d) + r
    ensures a >= 0 ==> 0 <= r < d
    ensures a < 0 ==> -d < r <= 0
  {
    a - d * Div(a, d)
  }

  /** On a dividend that is not negative, Java's quotient and remainder
      are Dafny's. */
  lemma DivIsEuclidean(a: int, d: int)
    requires a >= 0 && d > 0
    ensures Div(a, d) == a / d && Rem(a, d) == a % d
  {
  }

  /** Java unary minus on an `int`: -2^31 overflows back to itself. */
  function Neg(x: int): (r: int)
    requires IsInt32(x)
    ensures IsInt32(r)
    ensures x != INT_MIN ==> r + x == 0
    ensures x == INT_MIN ==> r < 0
  {
    if x == INT_MIN then INT_MIN else -x
  }

  /** The residue `code % 256`, moved into 0..255 when negative, as
      GFTypeCallback computes a character's table slot; it is the
      Euclidean remainder. */
  function Residue(code: int): (c: int)
    ensures 0 <= c < 256
    ensures c == code % 256
  {
    var r := Rem(code, 256);
    if r < 0 then r + 256 else r
  }

  /** `Integer.toString`: decimal digits, with a leading '-' when negative. */
  function DecimalString(x: int): (s: string)
    ensures |s| >= 1
    ensures (s[0] == '-') <==> x < 0
    ensures IsDigits(s[SignWidth(x)..])
    ensures DigitsValue(s[SignWidth(x)..]) == if x < 0 then -x else x
    decreases if x < 0 then 1 - x else x
  {
    if x < 0 then
      DigitsRoundTrip(-x);
      assert ("-" + Digits(-x))[1..] == Digits(-x);
      "-" + Digits(-x)
    else
      DigitsRoundTrip(x);
      Digits(x)
  }

  /** The length of the sign `Integer.toString` writes: one for a
      negative number, none otherwise. */
  function SignWidth(x: int): nat {
    if x < 0 then 1 else 0
  }

  /** Every character is a decimal digit. */
  predicate IsDigits(s: string) {
    forall i | 0 <= i < |s| :: '0' <= s[i] <= '9'
  }

  /** The decimal digits of a natural number, most significant first. */
  function Digits(x: nat): (s: string)
    ensures |s| >= 1
    ensures IsDigits(s)
  {
    if x < 10 then [DigitChar(x)] else Digits(x / 10) + [DigitChar(x % 10)]
  }

  function DigitChar(d: nat): (ch: char)
    requires d < 10
    ensures '0' <= ch <= '9'
  {
    "0123456789"[d]
  }

  /** The value of a string of decimal digits: the inverse of `Digits`. */
  function DigitsValue(s: string): nat
    requires IsDigits(s)
  {
    if s == [] then 0 else 10 * DigitsValue(s[..|s| - 1]) + (s[|s| - 1] as int - '0' as int)
  }

  lemma {:induction false} DigitsRoundTrip(x: nat)
    ensures DigitsValue(Digits(x)) == x
  {
    if x >= 10 {
      DigitsRoundTrip(x / 10);
      var s := Digits(x);
      assert s[..|s| - 1] == Digits(x / 10);
      DigitCharValue(x % 10);
    } else {
      DigitCharValue(x);
    }
  }

  lemma DigitCharValue(d: nat)
    requires d < 10
    ensures DigitChar(d) as int - '0' as int == d
  {
  }
}
