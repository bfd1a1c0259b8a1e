/**
 * The JavaScript number operations the widget relies on, read over exact
 * decimals: `parseFloat`, `parseInt`, `Number.prototype.toString` and
 * `Number.prototype.toFixed`.
 */
module JsNumber {
  import opened Wrappers
  import opened Decimal

  /** A JavaScript number: a finite exact value, or NaN. */
  datatype Num = Finite(r: real) | NaN

  /** ECMAScript white space and line terminators, which parseFloat and parseInt skip. */
  predicate IsSpace(c: char)
  {
    c == '\t' || c == '\n' || c == '\U{000B}' || c == '\U{000C}' || c == '\r' || c == ' '
    || c == '\U{00A0}' || c == '\U{1680}' || ('\U{2000}' <= c <= '\U{200A}')
    || c == '\U{2028}' || c == '\U{2029}' || c == '\U{202F}' || c == '\U{205F}'
    || c == '\U{3000}' || c == '\U{FEFF}'
  }

  function SkipSpace(s: string): (r: string)
    ensures r == [] || !IsSpace(r[0])
    ensures s != [] && !IsSpace(s[0]) ==> r == s
  {
    if s != [] && IsSpace(s[0]) then SkipSpace(s[1..]) else s
  }

  /** Length of the run of decimal digits at the head of s. */
  function DigitRun(s: string): (n: nat)
    ensures n <= |s| && AllDigits(s[..n])
    ensures n < |s| ==> !IsDigit(s[n])
  {
    if s != [] && IsDigit(s[0]) then
      var n := 1 + DigitRun(s[1..]);
      assert s[..n] == [s[0]] + s[1..][..n - 1];
      n
    else 0
  }

  /** The digit run ends where the digits do. */
  lemma {:induction false} DigitRunStops(u: string, n: nat)
    requires n <= |u| && AllDigits(u[..n]) && (n == |u| || !IsDigit(u[n]))
    ensures DigitRun(u) == n
  {
    if n > 0 {
      assert u[..n][0] == u[0];
      assert u[1..][..n - 1] == u[..n][1..];
      DigitRunStops(u[1..], n - 1);
    }
  }

  /** A run of digits followed by a non-digit (or nothing) is read up to the non-digit. */
  lemma DigitRunOf(a: string, b: string)
    requires AllDigits(a) && (b == [] || !IsDigit(b[0]))
    ensures DigitRun(a + b) == |a|
  {
    var u := a + b;
    assert u[..|a|] == a;
    assert |a| < |u| ==> u[|a|] == b[0];
    DigitRunStops(u, |a|);
  }

  /** Multiplies d by 10^e. */
  function Scale(d: Dec, e: int): (r: Dec)
  {
    if e >= 0 then Dec(d.mant * Pow10(e), d.scale) else Dec(d.mant, d.scale - e)
  }

  /** The exponent part `e[+-]digits` at the head of s, or 0 when s has none. */
  function Exponent(s: string): int
  {
    if |s| >= 2 && (s[0] == 'e' || s[0] == 'E') then
      var u := if s[1] == '-' || s[1] == '+' then s[2..] else s[1..];
      var k := DigitRun(u);
      if k == 0 then 0
      else if s[1] == '-' then -(DigitsVal(u[..k]) as int)
      else DigitsVal(u[..k])
    else 0
  }

  /**
   * parseFloat: after leading white space, an optional sign and the longest
   * unsigned decimal literal that follows; None where parseFloat gives NaN.
   */
  function ParseDecimal(s: string): Option<Dec>
  {
    var t := SkipSpace(s);
    if t != [] && t[0] == '-' then WithSign(true, ParseUnsigned(t[1..]))
    else if t != [] && t[0] == '+' then ParseUnsigned(t[1..])
    else ParseUnsigned(t)
  }

  function WithSign(neg: bool, o: Option<Dec>): Option<Dec>
  {
    match o
    case None => None
    case Some(d) => Some(Dec(if neg then -d.mant else d.mant, d.scale))
  }

  /** The longest prefix of u of the form digits? ('.' digits?)? exponent? holding at least one digit. */
  function ParseUnsigned(u: string): Option<Dec>
  {
    var i := DigitRun(u);
    var point := i < |u| && u[i] == '.';
    var f := if point then DigitRun(u[i + 1..]) else 0;
    if i + f == 0 then None
    else
      var fp := if point then u[i + 1..][..f] else "";
      var rest := if point then u[i + 1 + f..] else u[i..];
      Some(Scale(Dec(DigitsVal(u[..i]) * Pow10(f) + DigitsVal(fp), f), Exponent(rest)))
  }

  function ParseFloat(s: string): Num
  {
    match ParseDecimal(s)
    case None => NaN
    case Some(d) => Finite(Val(d))
  }

  /** parseInt with no radix, on numerals without a hexadecimal prefix: sign and leading digits. */
  function ParseInt(s: string): Option<int>
  {
    var t := SkipSpace(s);
    if t != [] && t[0] == '-' then IntOf(true, LeadingDigits(t[1..]))
    else if t != [] && t[0] == '+' then IntOf(false, LeadingDigits(t[1..]))
    else IntOf(false, LeadingDigits(t))
  }

  function IntOf(neg: bool, o: Option<nat>): Option<int>
  {
    match o
    case None => None
    case Some(n) => Some(if neg then -(n as int) else n)
  }

  /** The number the digits at the head of u denote, if it starts with one. */
  function LeadingDigits(u: string): Option<nat>
  {
    var i := DigitRun(u);
    if i == 0 then None else Some(DigitsVal(u[..i]))
  }

  lemma IntOfSigned(neg: bool, n: nat)
    ensures IntOf(neg, Some(n)) == Some(Signed(neg, n))
  {
  }

  lemma ParseIntSigned(neg: bool, u: string)
    requires u != [] && IsDigit(u[0])
    ensures ParseInt(SignText(neg) + u) == IntOf(neg, LeadingDigits(u))
  {
    var s := SignText(neg) + u;
    assert !IsSpace(s[0]);
    if neg {
      assert s[1..] == u;
    } else {
      assert s == u;
    }
  }

  lemma {:induction false} LeadingDigitsOf(a: string, rest: string)
    requires |a| >= 1 && AllDigits(a) && (rest == [] || !IsDigit(rest[0]))
    ensures LeadingDigits(a + rest) == Some(DigitsVal(a))
  {
    DigitRunOf(a, rest);
    assert (a + rest)[..|a|] == a;
  }

  /** The index of the first c in s, or -1, as String.prototype.indexOf. */
  function IndexOf(s: string, c: char): (r: int)
    ensures -1 <= r < |s|
    ensures r >= 0 ==> s[r] == c && c !in s[..r]
    ensures r == -1 ==> c !in s
  {
    if s == [] then -1
    else if s[0] == c then 0
    else
      var r := IndexOf(s[1..], c);
      if r == -1 then -1
      else
        assert s[..r + 1] == [s[0]] + s[1..][..r];
        r + 1
  }

  lemma DivModNonneg(a: nat, p: nat)
    requires p >= 1
    ensures a / p >= 0 && 0 <= a % p < p
  {
  }

  /**
   * Number::toString in positional form: sign, integer digits and, when the
   * value is not whole, a point and the fraction without trailing zeros.
   */
  function NumberToString(d: Dec): string
  {
    var c := Normalize(d);
    var a := if c.mant < 0 then -c.mant else c.mant;
    var sign := if c.mant < 0 then "-" else "";
    if c.scale == 0 then sign + DigitsOf(a)
    else
      var p := Pow10(c.scale);
      DivModNonneg(a, p);
      sign + DigitsOf(a / p) + "." + PadLeft(DigitsOf(a % p), c.scale)
  }

  /** The string of a whole number: its sign and its digits. */
  lemma NumberToStringWhole(d: Dec, a: nat)
    requires Normalize(d).scale == 0
    requires a == if Normalize(d).mant < 0 then -Normalize(d).mant else Normalize(d).mant
    ensures NumberToString(d) == SignText(Normalize(d).mant < 0) + (DigitsOf(a) + [])
  {
    assert DigitsOf(a) + [] == DigitsOf(a);
  }

  /** The string of a number with a fraction: sign, the integer part, '.', and the fraction padded to the scale. */
  lemma NumberToStringFraction(d: Dec, a: nat, p: nat)
    requires Normalize(d).scale > 0
    requires a == if Normalize(d).mant < 0 then -Normalize(d).mant else Normalize(d).mant
    requires p == Pow10(Normalize(d).scale)
    ensures a / p >= 0 && a % p >= 0
    ensures NumberToString(d) == SignText(Normalize(d).mant < 0) + (DigitsOf(a / p) + ("." + PadLeft(DigitsOf(a % p), Normalize(d).scale)))
  {
    DivModNonneg(a, p);
  }

  /**
   * The integer n that toFixed(f) spells out for x: n / 10^f is nearest to x,
   * with ties resolved away from zero.
   */
  function RoundScaled(x: real, f: nat): int
  {
    var p := Pow10(f) as real;
    if x < 0.0 then -(-x * p + 0.5).Floor else (x * p + 0.5).Floor
  }

  /** toFixed's rounding: within half of x * 10^f, with the sign of x, and exact when x * 10^f is whole. */
  lemma RoundScaledBounds(x: real, f: nat)
    ensures -0.5 <= RoundScaled(x, f) as real - x * Pow10(f) as real <= 0.5
    ensures x >= 0.0 ==> RoundScaled(x, f) >= 0
    ensures x < 0.0 ==> RoundScaled(x, f) <= 0
    ensures var y := x * Pow10(f) as real; y.Floor as real == y ==> RoundScaled(x, f) == y.Floor
  {
    RoundScaledSign(x, f);
  }

  /** At a tie, toFixed's rounding goes away from zero: up for x >= 0, down for x < 0. */
  lemma RoundScaledTies(x: real, f: nat)
    ensures var y := x * Pow10(f) as real;
      x >= 0.0 && y - y.Floor as real == 0.5 ==> RoundScaled(x, f) == y.Floor + 1
    ensures var y := x * Pow10(f) as real;
      x < 0.0 && y - y.Floor as real == 0.5 ==> RoundScaled(x, f) == y.Floor
  {
    var y := x * Pow10(f) as real;
    RoundScaledOf(x, f, y);
    FloorAtHalf(y);
  }

  /** RoundScaled in terms of y = x * 10^f. */
  lemma RoundScaledOf(x: real, f: nat, y: real)
    requires y == x * Pow10(f) as real
    ensures RoundScaled(x, f) == if x < 0.0 then -(-y + 0.5).Floor else (y + 0.5).Floor
  {
    assert -x * Pow10(f) as real == -y;
  }

  /** Adding one half to a number halfway between two integers lands on the upper one. */
  lemma FloorAtHalf(y: real)
    ensures y - y.Floor as real == 0.5 ==> (y + 0.5).Floor == y.Floor + 1 && (-y + 0.5).Floor == -y.Floor
  {
    if y - y.Floor as real == 0.5 {
      assert y + 0.5 == (y.Floor + 1) as real;
      assert -y + 0.5 == (-y.Floor) as real;
    }
  }

  /** The rounded mantissa has the sign of x. */
  lemma RoundScaledSign(x: real, f: nat)
    ensures x >= 0.0 ==> RoundScaled(x, f) >= 0
    ensures x < 0.0 ==> RoundScaled(x, f) <= 0
  {
  }

  /** Digits of n with exactly f of them after a point (none and no point when f is 0). */
  function FixedDigits(n: nat, f: nat): string
  {
    var m := PadLeft(DigitsOf(n), f + 1);
    if f == 0 then m else m[..|m| - f] + "." + m[|m| - f..]
  }

  /** s is one or more digits followed, when f > 0, by a point and exactly f digits. */
  predicate FixedForm(s: string, f: nat)
  {
    if f == 0 then |s| >= 1 && AllDigits(s)
    else |s| >= f + 2 && AllDigits(s[..|s| - f - 1]) && s[|s| - f - 1] == '.' && AllDigits(s[|s| - f..])
  }

  lemma FixedDigitsForm(n: nat, f: nat)
    ensures FixedForm(FixedDigits(n, f), f)
  {
    var m := PadLeft(DigitsOf(n), f + 1);
    if f > 0 {
      var s := m[..|m| - f] + "." + m[|m| - f..];
      assert s[..|s| - f - 1] == m[..|m| - f];
      assert s[|s| - f..] == m[|m| - f..];
    }
  }

  /** Number.prototype.toFixed(f). */
  function ToFixed(x: Num, f: nat): string
  {
    match x
    case NaN => "NaN"
    case Finite(r) =>
      var n := RoundScaled(r, f);
      (if r < 0.0 then "-" else "") + FixedDigits(if n < 0 then -n else n, f)
  }

  function SignText(neg: bool): string
  {
    if neg then "-" else ""
  }

  function Signed(neg: bool, m: nat): int
  {
    if neg then -(m as int) else m
  }

  lemma {:induction false} ParseSigned(neg: bool, u: string)
    requires u != [] && IsDigit(u[0])
    ensures ParseDecimal(SignText(neg) + u) == WithSign(neg, ParseUnsigned(u))
  {
    var s := SignText(neg) + u;
    assert !IsSpace(s[0]);
    if neg {
      assert s[1..] == u;
    } else {
      assert s == u;
      match ParseUnsigned(u)
      case None =>
      case Some(d) => assert WithSign(false, Some(d)) == Some(d);
    }
  }

  /** A whole numeral reads back as its value. */
  lemma {:induction false} ParseUnsignedWhole(a: string)
    requires |a| >= 1 && AllDigits(a)
    ensures ParseUnsigned(a) == Some(Dec(DigitsVal(a), 0))
  {
    DigitRunOf(a, []);
    assert a + [] == a && a[..|a|] == a && a[|a|..] == [];
    assert Exponent([]) == 0;
  }

  /** A numeral with a point and fraction digits reads back as its value. */
  lemma {:induction false} ParseUnsignedFraction(a: string, b: string)
    requires |a| >= 1 && AllDigits(a) && |b| >= 1 && AllDigits(b)
    ensures ParseUnsigned(a + "." + b) == Some(Dec(DigitsVal(a) * Pow10(|b|) + DigitsVal(b), |b|))
  {
    var u := a + "." + b;
    var i := |a|;
    assert u[..i] == a && u[i] == '.' && u[i + 1..] == b;
    DigitRunStops(u, i);
    assert b[..|b|] == b;
    DigitRunStops(b, |b|);
    assert u[i + 1 + |b|..] == [];
    assert Exponent([]) == 0;
    ScaleZero(Dec(DigitsVal(a) * Pow10(|b|) + DigitsVal(b), |b|));
  }

  lemma ScaleZero(d: Dec)
    ensures Scale(d, 0) == d
  {
  }

  /** The digits toFixed lays out for n read back as n / 10^f. */
  lemma {:induction false} FixedDigitsReadBack(n: nat, f: nat)
    ensures ParseUnsigned(FixedDigits(n, f)) == Some(Dec(n, f))
  {
    var m := PadLeft(DigitsOf(n), f + 1);
    PadLeftVal(DigitsOf(n), f + 1);
    assert DigitsVal(m) == n;
    if f == 0 {
      assert FixedDigits(n, f) == m;
      ParseUnsignedWhole(m);
    } else {
      assert FixedDigits(n, f) == m[..|m| - f] + "." + m[|m| - f..];
      LayoutReadBack(m, f, n);
    }
  }

  /** Digits with a point put before the last f of them read back as their value scaled by f places. */
  lemma LayoutReadBack(m: string, f: nat, n: nat)
    requires f > 0 && |m| >= f + 1 && AllDigits(m) && DigitsVal(m) == n
    ensures ParseUnsigned(m[..|m| - f] + "." + m[|m| - f..]) == Some(Dec(n, f))
  {
    var a, b := m[..|m| - f], m[|m| - f..];
    assert a + b == m && |b| == f;
    SplitReadBack(m, a, b, n);
  }

  /** Digits split by a point read back as the digits' value scaled by the fraction's length. */
  lemma SplitReadBack(m: string, a: string, b: string, n: nat)
    requires AllDigits(m) && DigitsVal(m) == n && a + b == m && |a| >= 1 && |b| >= 1
    ensures ParseUnsigned(a + "." + b) == Some(Dec(n, |b|))
  {
    assert AllDigits(a) && AllDigits(b) by {
      assert forall i | 0 <= i < |a| :: a[i] == m[i];
      assert forall i | 0 <= i < |b| :: b[i] == m[|a| + i];
    }
    DigitsValConcat(a, b);
    ParseUnsignedFraction(a, b);
  }

  lemma {:induction false} SignedFixedReadBack(neg: bool, r: int, f: nat)
    requires neg ==> r <= 0
    requires !neg ==> r >= 0
    ensures ParseDecimal(SignText(neg) + FixedDigits(if r < 0 then -r else r, f)) == Some(Dec(r, f))
  {
    var n: nat := if r < 0 then -r else r;
    var u := FixedDigits(n, f);
    FixedDigitsForm(n, f);
    FixedFormLeadingDigit(u, f);
    FixedDigitsReadBack(n, f);
    ParseSigned(neg, u);
  }

  lemma FixedFormLeadingDigit(u: string, f: nat)
    requires FixedForm(u, f)
    ensures u != [] && IsDigit(u[0])
  {
    if f > 0 {
      assert u[..|u| - f - 1][0] == u[0];
    }
  }

  /** What toFixed(f) writes reads back, through parseFloat, as the rounded value with f fractional digits. */
  lemma ToFixedReadBack(x: real, f: nat)
    ensures ParseDecimal(ToFixed(Finite(x), f)) == Some(Dec(RoundScaled(x, f), f))
  {
    var neg, u := ToFixedShape(x, f);
  }

  /**
   * What toFixed writes for a finite number is an optional '-' and digits in
   * the fixed form, and it reads back as the rounded mantissa over 10^f.
   */
  lemma ToFixedShape(x: real, f: nat) returns (neg: bool, u: string)
    ensures ToFixed(Finite(x), f) == SignText(neg) + u && FixedForm(u, f)
    ensures ParseDecimal(SignText(neg) + u) == Some(Dec(RoundScaled(x, f), f))
  {
    var r := RoundScaled(x, f);
    RoundScaledSign(x, f);
    var n: nat := if r < 0 then -r else r;
    neg, u := x < 0.0, FixedDigits(n, f);
    FixedDigitsForm(n, f);
    SignedFixedReadBack(neg, r, f);
  }

  /** v times 10^f is the whole number r. */
  predicate ScaledTo(v: real, f: nat, r: int)
  {
    v * Pow10(f) as real == r as real
  }

  /** v lies within half a unit of the f-th fractional place of x. */
  predicate WithinHalfUnit(v: real, x: real, f: nat)
  {
    -0.5 <= v * Pow10(f) as real - x * Pow10(f) as real <= 0.5
  }

  /** x has at most f fractional digits. */
  predicate OnGrid(x: real, f: nat)
  {
    (x * Pow10(f) as real).Floor as real == x * Pow10(f) as real
  }

  /** A number whose f-place scaling is x rounded to f places is within half a unit of x, and x itself on the grid. */
  lemma RoundedWithin(x: real, f: nat, v: real)
    requires ScaledTo(v, f, RoundScaled(x, f))
    ensures WithinHalfUnit(v, x, f)
    ensures OnGrid(x, f) ==> v == x
  {
    var p := Pow10(f) as real;
    RoundScaledBounds(x, f);
    if OnGrid(x, f) {
      var r := RoundScaled(x, f);
      assert r == (x * p).Floor;
      assert v * p == r as real;
      assert r as real == x * p;
      RealCancel(v, x, p);
    }
  }

  lemma RealCancel(a: real, b: real, p: real)
    requires p > 0.0 && a * p == b * p
    ensures a == b
  {
    assert (a - b) * p == 0.0;
  }

  /** A value read back from f fractional digits, scaled by 10^f, is its mantissa. */
  lemma ScaledBackOf(v: real, r: int, f: nat)
    requires v == Val(Dec(r, f))
    ensures ScaledTo(v, f, r)
  {
  }

  /** x rounded to f places, as toFixed rounds, lies within half a unit of x and is x itself on the grid. */
  lemma RoundedVal(x: real, f: nat)
    ensures WithinHalfUnit(Val(Dec(RoundScaled(x, f), f)), x, f)
    ensures OnGrid(x, f) ==> Val(Dec(RoundScaled(x, f), f)) == x
  {
    var r := RoundScaled(x, f);
    ScaledBackOf(Val(Dec(r, f)), r, f);
    RoundedWithin(x, f, Val(Dec(r, f)));
  }
}
