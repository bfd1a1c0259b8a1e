/**
 * Value stepping: how one press of an arrow turns the field's value, step,
 * min and max attributes into the new value string (`clamp`,
 * `getDecimalPlaces`, `trimEndRegex` and the computation inside
 * `updateNumberInputValue`).
 */
module Stepping {
  import opened Wrappers
  import opened Decimal
  import opened JsNumber

  datatype ArrowKey = ArrowDown | ArrowUp

  /** The `keyCodes` table: the keyCode (and `which`) of a synthetic key event. */
  function KeyCode(key: ArrowKey): (code: int)
    ensures code == 38 || code == 40
    ensures key == ArrowUp <==> code == 38
  {
    match key
    case ArrowDown => 40
    case ArrowUp => 38
  }

  /** The sign table `{ ArrowDown: -1, ArrowUp: 1 }`. */
  function Sign(key: ArrowKey): (s: int)
    ensures s == 1 || s == -1
    ensures key == ArrowUp <==> s == 1
  {
    match key
    case ArrowDown => -1
    case ArrowUp => 1
  }

  // ---------------------------------------------------------------- clamp

  /** Math.max on two numbers: NaN when either is NaN. */
  function MathMax(a: Num, b: Num): (r: Num)
    ensures r.NaN? <==> a.NaN? || b.NaN?
    ensures r.Finite? ==> r.r >= a.r && r.r >= b.r && (r.r == a.r || r.r == b.r)
  {
    if a.NaN? || b.NaN? then NaN else Finite(if a.r >= b.r then a.r else b.r)
  }

  /** Math.min on two numbers: NaN when either is NaN. */
  function MathMin(a: Num, b: Num): (r: Num)
    ensures r.NaN? <==> a.NaN? || b.NaN?
    ensures r.Finite? ==> r.r <= a.r && r.r <= b.r && (r.r == a.r || r.r == b.r)
  {
    if a.NaN? || b.NaN? then NaN else Finite(if a.r <= b.r then a.r else b.r)
  }

  predicate IsNaNBound(b: Option<Num>)
  {
    b.Some? && b.value.NaN?
  }

  /**
   * clamp(value, min, max): raise to min when min is a number, then lower to
   * max when max is a number; an absent bound (`undefined`) is skipped.
   */
  function Clamp(value: Num, min: Option<Num>, max: Option<Num>): (r: Num)
    ensures min.None? && max.None? ==> r == value
    ensures r.NaN? <==> value.NaN? || IsNaNBound(min) || IsNaNBound(max)
    ensures r.Finite? && min.Some? && min.value.Finite? && (max.None? || min.value.r <= max.value.r) ==> r.r >= min.value.r
    ensures r.Finite? && max.Some? ==> r.r <= max.value.r
    ensures r.Finite? && min.Some? && max.Some? && min.value.r > max.value.r ==> r.r == max.value.r
    ensures (value.Finite? && r.Finite?
             && (min.None? || min.value.r <= value.r) && (max.None? || value.r <= max.value.r)) ==> r == value
    ensures r.Finite? ==> r == value || (min.Some? && r == min.value) || (max.Some? && r == max.value)
  {
    var v := if min.Some? then MathMax(min.value, value) else value;
    if max.Some? then MathMin(max.value, v) else v
  }

  /** With both bounds numbers and min <= max, clamp gives the point of [min, max] nearest the value. */
  lemma ClampIsNearest(v: real, lo: real, hi: real, y: real)
    requires lo <= hi && lo <= y <= hi
    ensures var r := Clamp(Finite(v), Some(Finite(lo)), Some(Finite(hi))).r;
            lo <= r <= hi && (r - v) * (r - v) <= (y - v) * (y - v)
  {
    var r := Clamp(Finite(v), Some(Finite(lo)), Some(Finite(hi))).r;
    if v < lo {
      assert r == lo;
      SquareMono(r - v, y - v);
    } else if v > hi {
      assert r == hi;
      SquareMono(v - r, v - y);
      SquareNeg(r - v);
      SquareNeg(y - v);
    }
  }

  lemma SquareMono(a: real, b: real)
    requires 0.0 <= a <= b
    ensures a * a <= b * b
  {
    assert a * a <= a * b;
    assert a * b <= b * b;
  }

  lemma SquareNeg(a: real)
    ensures a * a == (-a) * (-a)
  {
  }

  /** Clamping twice with the same bounds changes nothing more. */
  lemma ClampIdempotent(v: Num, min: Option<Num>, max: Option<Num>)
    ensures Clamp(Clamp(v, min, max), min, max) == Clamp(v, min, max)
  {
  }

  // ---------------------------------------------------------- decimal places

  /** `number === parseInt(number)`: the number equals the integer parseInt reads from its string. */
  predicate IsWhole(number: Dec)
  {
    match ParseInt(NumberToString(number))
    case None => false
    case Some(k) => k as real == Val(number)
  }

  /**
   * getDecimalPlaces: 0 for a whole number, otherwise the length of what
   * follows the first '.' in the number's string (the length of
   * `substr(indexOf('.') + 1)`, counted without building the substring).
   */
  function DecimalPlaces(number: Dec): nat
  {
    if IsWhole(number) then 0
    else
      var s := NumberToString(number);
      |s| - (IndexOf(s, '.') + 1)
  }

  lemma ValNormalize(d: Dec)
    ensures Val(Normalize(d)) == Val(d)
  {
    var c := Normalize(d);
    var t := d.scale - c.scale;
    assert d == Dec(c.mant * Pow10(t), c.scale + t);
    ValScaled(c.mant, c.scale, t);
  }

  /** A whole numeral, optionally signed, is read by parseInt as its value. */
  lemma ParseIntWhole(neg: bool, a: string, rest: string)
    requires |a| >= 1 && AllDigits(a) && (rest == [] || !IsDigit(rest[0]))
    ensures ParseInt(SignText(neg) + (a + rest)) == Some(Signed(neg, DigitsVal(a)))
  {
    LeadingDigitsOf(a, rest);
    ParseIntSigned(neg, a + rest);
    IntOfSigned(neg, DigitsVal(a));
  }

  lemma NotWholeFraction(m: int, scale: nat, k: int)
    requires scale >= 1 && m % 10 != 0
    ensures k as real != m as real / Pow10(scale) as real
  {
    if k as real == m as real / Pow10(scale) as real {
      assert m as real == k as real * Pow10(scale) as real;
      assert m == k * Pow10(scale);
      MultipleOfPow10(m, k, scale);
    }
  }

  lemma DecimalPlacesWhole(d: Dec)
    requires Normalize(d).scale == 0
    ensures DecimalPlaces(d) == 0
  {
    var c := Normalize(d);
    var neg := c.mant < 0;
    var a: nat := if neg then -c.mant else c.mant;
    assert c.mant == Signed(neg, a);
    NumberToStringWhole(d, a);
    assert ParseInt(NumberToString(d)) == Some(Signed(neg, a)) by {
      ParseIntWhole(neg, DigitsOf(a), []);
    }
    assert c.mant as real == Val(d) by {
      ValNormalize(d);
      ValWhole(c);
    }
    WholeIntro(d, c.mant);
  }

  lemma ValWhole(c: Dec)
    requires c.scale == 0
    ensures Val(c) == c.mant as real
  {
  }

  /** A number parseInt reads back whole has 0 places. */
  lemma WholeIntro(number: Dec, k: int)
    requires ParseInt(NumberToString(number)) == Some(k) && k as real == Val(number)
    ensures DecimalPlaces(number) == 0
  {
  }

  lemma DecimalPlacesFraction(d: Dec)
    requires Normalize(d).scale > 0
    ensures DecimalPlaces(d) == Normalize(d).scale
  {
    var c := Normalize(d);
    var neg := c.mant < 0;
    var a: nat := if neg then -c.mant else c.mant;
    var p := Pow10(c.scale);
    DivModNonneg(a, p);
    var k := Signed(neg, a / p);
    assert k as real != Val(d) by {
      ValNormalize(d);
      NotWholeFraction(c.mant, c.scale, k);
    }
    var ip, fp := DigitsOf(a / p), PadLeft(DigitsOf(a % p), c.scale);
    DigitsOfLength(a % p, c.scale);
    NumberToStringFraction(d, a, p);
    assert ParseInt(NumberToString(d)) == Some(k) by {
      ParseIntWhole(neg, ip, "." + fp);
    }
    FractionPlaces(d, neg, ip, fp, k);
  }

  /** A number whose string is sign, digits, '.' and fraction digits, and which parseInt does not read back whole, has as many places as fraction digits. */
  lemma FractionPlaces(number: Dec, neg: bool, ip: string, fp: string, k: int)
    requires AllDigits(ip) && NumberToString(number) == SignText(neg) + (ip + ("." + fp))
    requires ParseInt(NumberToString(number)) == Some(k) && k as real != Val(number)
    ensures DecimalPlaces(number) == |fp|
  {
    AfterPoint(NumberToString(number), neg, ip, fp);
  }

  /** In sign, digits, '.' and a fraction, what follows the first '.' is the fraction. */
  lemma AfterPoint(s: string, neg: bool, ip: string, fp: string)
    requires AllDigits(ip) && s == SignText(neg) + (ip + ("." + fp))
    ensures s[IndexOf(s, '.') + 1..] == fp
  {
    var i := |SignText(neg) + ip|;
    assert s[i] == '.' && '.' !in s[..i];
    assert s[i + 1..] == fp;
  }

  /** getDecimalPlaces is the scale of the normalized decimal. */
  lemma DecimalPlacesIsScale(d: Dec)
    ensures DecimalPlaces(d) == Normalize(d).scale
  {
    if Normalize(d).scale == 0 {
      DecimalPlacesWhole(d);
    } else {
      DecimalPlacesFraction(d);
    }
  }

  /**
   * The precision getDecimalPlaces derives is the least number of fractional
   * digits of the step: step * 10^places is whole, step * 10^k is not for
   * any smaller k.
   */
  lemma DecimalPlacesIsLeast(step: Dec)
    ensures HasPlaces(step, DecimalPlaces(step))
    ensures forall k :: 0 <= k < DecimalPlaces(step) ==> !HasPlaces(step, k)
  {
    DecimalPlacesIsScale(step);
    NormalizeIsLeastPlaces(step);
  }

  /** A whole step gives 0 decimal places. */
  lemma WholeStepHasNoPlaces(step: Dec)
    requires HasPlaces(step, 0)
    ensures DecimalPlaces(step) == 0
  {
    DecimalPlacesIsLeast(step);
  }

  // ------------------------------------------------------------------ trim

  predicate IsSeparator(c: char)
  {
    c == '.' || c == ','
  }

  /** /[.,]0+$/ matches s at i: a separator followed by one or more zeros that run to the end. */
  predicate MatchAt(s: string, i: int)
  {
    0 <= i && i + 1 < |s| && IsSeparator(s[i]) && forall j :: i < j < |s| ==> s[j] == '0'
  }

  /** The number of '0' characters at the end of s. */
  function TrailingZeros(s: string): (z: nat)
    ensures z <= |s|
    ensures forall j :: |s| - z <= j < |s| ==> s[j] == '0'
    ensures z < |s| ==> s[|s| - z - 1] != '0'
  {
    if s != [] && s[|s| - 1] == '0' then
      var z := 1 + TrailingZeros(s[..|s| - 1]);
      z
    else 0
  }

  /** `s.replace(trimEndRegex, '')`. */
  function TrimZeroFraction(s: string): (r: string)
    ensures |r| <= |s| && r == s[..|r|]
  {
    var z := TrailingZeros(s);
    if 0 < z < |s| && IsSeparator(s[|s| - z - 1]) then s[..|s| - z - 1] else s
  }

  /** The regex can match at one place at most, so its first match is its only one. */
  lemma MatchUnique(s: string, i: int, j: int)
    requires MatchAt(s, i) && MatchAt(s, j)
    ensures i == j
  {
  }

  /** Where the regex matches, the trim cuts the string just before the separator. */
  lemma TrimRemovesMatch(s: string, i: int)
    requires MatchAt(s, i)
    ensures TrimZeroFraction(s) == s[..i]
  {
    var z := TrailingZeros(s);
    assert s[i] != '0';
    assert z == |s| - i - 1;
  }

  /** Where the regex does not match, the trim leaves the string as it is. */
  lemma TrimKeepsUnmatched(s: string)
    requires forall i :: !MatchAt(s, i)
    ensures TrimZeroFraction(s) == s
  {
    var z := TrailingZeros(s);
    assert !MatchAt(s, |s| - z - 1);
  }

  lemma TrimExamples()
    ensures TrimZeroFraction("3.00") == "3"
    ensures TrimZeroFraction("2,0") == "2"
    ensures TrimZeroFraction("2.50") == "2.50"
    ensures TrimZeroFraction("2.5") == "2.5"
    ensures TrimZeroFraction("100") == "100"
  {
    TrimRemovesMatch("3.00", 1);
    TrimRemovesMatch("2,0", 1);
    assert "2.50"[..3] == "2.5";
  }

  /** In a signed toFixed string the only separator is the point before the f fraction digits. */
  lemma FixedSeparators(neg: bool, u: string, f: nat)
    requires FixedForm(u, f)
    ensures var t := SignText(neg) + u;
            forall i :: 0 <= i < |t| && (f == 0 || i != |t| - f - 1) ==> !IsSeparator(t[i])
  {
    var t := SignText(neg) + u;
    var k := |SignText(neg)|;
    var p := |u| - f - 1;
    forall i | 0 <= i < |t| && (f == 0 || i != |t| - f - 1)
      ensures !IsSeparator(t[i])
    {
      if i >= k {
        var j := i - k;
        assert t[i] == u[j];
        if f == 0 {
          assert IsDigit(u[j]);
        } else if j < p {
          assert u[..p][j] == u[j];
        } else {
          assert u[|u| - f..][j - p - 1] == u[j];
        }
      }
    }
  }

  /** Trimming a signed toFixed string: only an all-zero fraction goes, with its point. */
  lemma TrimFixedForm(neg: bool, u: string, f: nat)
    requires FixedForm(u, f)
    ensures var t := SignText(neg) + u;
            (f == 0 ==> TrimZeroFraction(t) == t)
            && (f > 0 && (forall j :: |u| - f <= j < |u| ==> u[j] == '0') ==> TrimZeroFraction(t) == SignText(neg) + u[..|u| - f - 1])
            && (f > 0 && (exists j :: |u| - f <= j < |u| && u[j] != '0') ==> TrimZeroFraction(t) == t)
  {
    var t := SignText(neg) + u;
    var k := |SignText(neg)|;
    var p := |t| - f - 1;
    FixedSeparators(neg, u, f);
    if f == 0 {
      forall i ensures !MatchAt(t, i) {
        if 0 <= i < |t| { assert !IsSeparator(t[i]); }
      }
      TrimKeepsUnmatched(t);
    } else if forall j :: |u| - f <= j < |u| ==> u[j] == '0' {
      assert t[p] == u[p - k] == '.';
      forall j | p < j < |t| ensures t[j] == '0' {
        assert t[j] == u[j - k];
      }
      assert MatchAt(t, p);
      TrimRemovesMatch(t, p);
      assert t[..p] == SignText(neg) + u[..|u| - f - 1];
    } else {
      var j :| |u| - f <= j < |u| && u[j] != '0';
      assert t[j + k] == u[j];
      forall i ensures !MatchAt(t, i) {
        if 0 <= i < |t| && i != p { assert !IsSeparator(t[i]); }
      }
      TrimKeepsUnmatched(t);
    }
  }

  /** A toFixed string with a fraction splits at its point. */
  lemma SplitFixed(u: string, f: nat) returns (a: string, b: string)
    requires FixedForm(u, f) && f > 0
    ensures u == a + "." + b && a == u[..|u| - f - 1] && |b| == f
    ensures |a| >= 1 && AllDigits(a) && AllDigits(b)
    ensures forall j :: 0 <= j < |b| ==> b[j] == u[|u| - f + j]
  {
    a, b := u[..|u| - f - 1], u[|u| - f..];
    assert u == a + "." + b;
  }

  /** The sign and integer digits left by the trim read back as the same value as the whole string. */
  lemma TrimmedFixedValue(neg: bool, a: string, b: string, r: int)
    requires |a| >= 1 && AllDigits(a) && |b| >= 1
    requires forall j :: 0 <= j < |b| ==> b[j] == '0'
    requires ParseDecimal(SignText(neg) + (a + "." + b)) == Some(Dec(r, |b|))
    ensures ParseFloat(SignText(neg) + a) == Finite(Val(Dec(r, |b|)))
  {
    AllZerosVal(b);
    var w := ZeroFractionMantissa(neg, a, b, r);
    assert ParseDecimal(SignText(neg) + a) == Some(Dec(w, 0)) by {
      ParseUnsignedWhole(a);
      ParseSigned(neg, a);
    }
    assert Val(Dec(r, |b|)) == Val(Dec(w, 0)) by {
      ScaledMantissaVal(w, r, |b|);
    }
  }

  lemma ScaledMantissaVal(w: int, r: int, k: nat)
    requires r == w * Pow10(k)
    ensures Val(Dec(r, k)) == Val(Dec(w, 0))
  {
    ValScaled(w, 0, k);
  }

  lemma AllZerosVal(b: string)
    requires forall j :: 0 <= j < |b| ==> b[j] == '0'
    ensures AllDigits(b) && DigitsVal(b) == 0
  {
    assert b == Zeros(|b|);
    ZerosVal(|b|);
  }

  lemma ZeroFractionMantissa(neg: bool, a: string, b: string, r: int) returns (w: int)
    requires |a| >= 1 && AllDigits(a) && |b| >= 1 && AllDigits(b) && DigitsVal(b) == 0
    requires ParseDecimal(SignText(neg) + (a + "." + b)) == Some(Dec(r, |b|))
    ensures w == Signed(neg, DigitsVal(a)) && r == w * Pow10(|b|)
  {
    var A, P := DigitsVal(a), Pow10(|b|);
    ParseUnsignedFraction(a, b);
    ParseSigned(neg, a + "." + b);
    w := Signed(neg, A);
    SignedTimes(neg, A, P);
  }

  lemma SignedTimes(neg: bool, A: nat, P: nat)
    ensures Signed(neg, A) * P == Signed(neg, A * P)
  {
  }

  // ----------------------------------------------------- the stepped value

  /** `parseFloat(step) || 1`: a step that reads as NaN or as zero falls back to 1. */
  function StepOf(attr: string): (step: Dec)
    ensures Val(step) != 0.0
    ensures ParseFloat(attr).NaN? || ParseFloat(attr) == Finite(0.0) ==> step == Dec(1, 0)
    ensures ParseFloat(attr).Finite? && ParseFloat(attr).r != 0.0 ==> Val(step) == ParseFloat(attr).r
  {
    match ParseDecimal(attr)
    case None => Dec(1, 0)
    case Some(d) => ValZero(d); if d.mant == 0 then Dec(1, 0) else d
  }

  lemma ValZero(d: Dec)
    ensures Val(d) == 0.0 <==> d.mant == 0
  {
  }

  /** `parseFloat(value) || 0`: a value that reads as NaN counts as zero. */
  function ValueOf(attr: string): (v: real)
    ensures ParseFloat(attr).NaN? ==> v == 0.0
    ensures ParseFloat(attr).Finite? ==> v == ParseFloat(attr).r
  {
    match ParseDecimal(attr)
    case None => 0.0
    case Some(d) => Val(d)
  }

  /** `attr ? parseFloat(attr) : undefined`: an empty attribute is no bound. */
  function BoundOf(attr: string): (b: Option<Num>)
    ensures b.None? <==> attr == ""
    ensures b.Some? ==> b.value == ParseFloat(attr)
  {
    if attr == "" then None else Some(ParseFloat(attr))
  }

  /** The number updateNumberInputValue computes: clamp(value + sign * step, min, max). */
  function NewValue(value: string, step: string, min: string, max: string, key: ArrowKey): (r: Num)
    ensures var x := ValueOf(value) + Sign(key) as real * Val(StepOf(step));
            min == "" && max == "" ==> r == Finite(x)
    ensures r.NaN? <==> (min != "" && ParseFloat(min).NaN?) || (max != "" && ParseFloat(max).NaN?)
    ensures r.Finite? && min != "" && (max == "" || ParseFloat(min).r <= ParseFloat(max).r) ==> r.r >= ParseFloat(min).r
    ensures r.Finite? && max != "" ==> r.r <= ParseFloat(max).r
  {
    Clamp(Finite(ValueOf(value) + Sign(key) as real * Val(StepOf(step))), BoundOf(min), BoundOf(max))
  }

  /** The string updateNumberInputValue writes back into the field. */
  function SteppedText(value: string, step: string, min: string, max: string, key: ArrowKey): string
  {
    TrimZeroFraction(ToFixed(NewValue(value, step, min, max, key), DecimalPlaces(StepOf(step))))
  }

  /** With a whole step the written string has no separator at all. */
  lemma WholeStepWritesNoSeparator(value: string, step: string, min: string, max: string, key: ArrowKey)
    requires HasPlaces(StepOf(step), 0)
    ensures '.' !in SteppedText(value, step, min, max, key)
    ensures ',' !in SteppedText(value, step, min, max, key)
  {
    WholeStepHasNoPlaces(StepOf(step));
    var x := NewValue(value, step, min, max, key);
    NoSeparatorWhole(x);
  }

  lemma NoSeparatorWhole(x: Num)
    ensures '.' !in TrimZeroFraction(ToFixed(x, 0))
    ensures ',' !in TrimZeroFraction(ToFixed(x, 0))
  {
    if x.Finite? {
      var neg, u := ToFixedShape(x.r, 0);
      FixedSeparators(neg, u, 0);
      PrefixHasNoSeparator(SignText(neg) + u);
    } else {
      PrefixHasNoSeparator(ToFixed(x, 0));
    }
  }

  /** The trim only cuts, so a string without separators keeps none. */
  lemma PrefixHasNoSeparator(t: string)
    requires forall i :: 0 <= i < |t| ==> !IsSeparator(t[i])
    ensures '.' !in TrimZeroFraction(t) && ',' !in TrimZeroFraction(t)
  {
    var w := TrimZeroFraction(t);
    assert forall i :: 0 <= i < |w| ==> w[i] == t[i];
  }

  /** What toFixed wrote and the trim kept reads back as x rounded to f fractional digits. */
  lemma TrimmedReadBack(x: real, f: nat)
    ensures ParseFloat(TrimZeroFraction(ToFixed(Finite(x), f))) == Finite(Val(Dec(RoundScaled(x, f), f)))
  {
    var neg, u := ToFixedShape(x, f);
    TrimmedFormReadBack(neg, u, f, RoundScaled(x, f));
  }

  lemma TrimmedFormReadBack(neg: bool, u: string, f: nat, r: int)
    requires FixedForm(u, f)
    requires ParseDecimal(SignText(neg) + u) == Some(Dec(r, f))
    ensures ParseFloat(TrimZeroFraction(SignText(neg) + u)) == Finite(Val(Dec(r, f)))
  {
    var t := SignText(neg) + u;
    TrimFixedForm(neg, u, f);
    if f > 0 && forall j :: |u| - f <= j < |u| ==> u[j] == '0' {
      var a, b := SplitFixed(u, f);
      assert TrimZeroFraction(t) == SignText(neg) + a;
      TrimmedFixedValue(neg, a, b, r);
    } else {
      assert TrimZeroFraction(t) == t;
    }
  }

  /**
   * The written string reads back, through parseFloat, as the clamped value
   * rounded to the step's decimal places: within half a unit of the last
   * place, and exactly the clamped value when that lies on the step's grid.
   */
  lemma SteppedTextReadBack(value: string, step: string, min: string, max: string, key: ArrowKey)
    requires NewValue(value, step, min, max, key).Finite?
    ensures var x := NewValue(value, step, min, max, key).r;
            var f := DecimalPlaces(StepOf(step));
            var back := ParseFloat(SteppedText(value, step, min, max, key));
            back.Finite? && WithinHalfUnit(back.r, x, f) && (OnGrid(x, f) ==> back.r == x)
  {
    var x := NewValue(value, step, min, max, key).r;
    var f := DecimalPlaces(StepOf(step));
    assert SteppedText(value, step, min, max, key) == TrimZeroFraction(ToFixed(Finite(x), f));
    TrimmedReadBack(x, f);
    RoundedVal(x, f);
  }

  /** A non-empty bound that parseFloat cannot read makes the field read "NaN". */
  lemma UnreadableBoundWritesNaN(value: string, step: string, min: string, max: string, key: ArrowKey)
    requires (min != "" && ParseFloat(min).NaN?) || (max != "" && ParseFloat(max).NaN?)
    ensures SteppedText(value, step, min, max, key) == "NaN"
  {
    var t: string := "NaN";
    forall i ensures !MatchAt(t, i) {
      if 0 <= i < |t| { assert !IsSeparator(t[i]); }
    }
    TrimKeepsUnmatched(t);
  }

  /** toFixed(1) of 2.56 is 2.6, above 2.56. */
  lemma RoundingPassesMax()
    ensures Val(Dec(RoundScaled(2.56, 1), 1)) == 2.6 > 2.56
  {
    assert Pow10(1) == 10;
    assert RoundScaled(2.56, 1) == 26;
  }

  /**
   * Rounding after clamping can carry the written value past max: with value
   * 2.5, step 0.1, no min and max 2.56, ArrowUp clamps 2.6 down to 2.56, and
   * the field is written with one decimal as a string that reads back as 2.6.
   */
  lemma SteppedTextPassesMax(value: string, step: string, min: string, max: string)
    requires ParseDecimal(value) == Some(Dec(25, 1))
    requires ParseDecimal(step) == Some(Dec(1, 1))
    requires min == ""
    requires max != "" && ParseDecimal(max) == Some(Dec(256, 2))
    ensures ParseFloat(max) == Finite(2.56)
    ensures NewValue(value, step, min, max, ArrowUp) == Finite(2.56)
    ensures ParseFloat(SteppedText(value, step, min, max, ArrowUp)) == Finite(2.6)
  {
    StepIsOneTenth(step);
    ClampedToMax(value, step, min, max);
    assert SteppedText(value, step, min, max, ArrowUp) == TrimZeroFraction(ToFixed(Finite(2.56), 1));
    TrimmedReadBack(2.56, 1);
    RoundingPassesMax();
  }

  /** A step attribute reading 0.1 is the step 0.1, with one decimal place. */
  lemma StepIsOneTenth(step: string)
    requires ParseDecimal(step) == Some(Dec(1, 1))
    ensures StepOf(step) == Dec(1, 1) && DecimalPlaces(StepOf(step)) == 1
  {
    DecimalPlacesIsScale(Dec(1, 1));
    assert Normalize(Dec(1, 1)) == Dec(1, 1);
  }

  /** 2.5 stepped up by 0.1 is 2.6, which a max of 2.56 clamps to 2.56. */
  lemma ClampedToMax(value: string, step: string, min: string, max: string)
    requires ParseDecimal(value) == Some(Dec(25, 1))
    requires StepOf(step) == Dec(1, 1)
    requires min == ""
    requires max != "" && ParseDecimal(max) == Some(Dec(256, 2))
    ensures ParseFloat(max) == Finite(2.56)
    ensures NewValue(value, step, min, max, ArrowUp) == Finite(2.56)
  {
    assert ValueOf(value) == Val(Dec(25, 1));
    assert ParseFloat(max) == Finite(Val(Dec(256, 2)));
    assert BoundOf(min) == None;
    TenthsAndHundredths();
    ClampAtMax();
  }

  lemma TenthsAndHundredths()
    ensures Val(Dec(25, 1)) == 2.5 && Val(Dec(1, 1)) == 0.1 && Val(Dec(256, 2)) == 2.56
  {
    assert Pow10(1) == 10 && Pow10(2) == 100;
  }

  lemma ClampAtMax()
    ensures Clamp(Finite(2.5 + Sign(ArrowUp) as real * 0.1), None, Some(Finite(2.56))) == Finite(2.56)
  {
  }
}
