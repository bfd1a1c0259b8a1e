/**
 * Exact decimal numbers and their decimal numerals.
 *
 * The widget computes with JavaScript numbers; this model takes every number
 * that comes out of a numeral to be the exact decimal the numeral denotes
 * (no binary rounding), written `Dec(mant, scale)` for mant / 10^scale.
 */
module Decimal {

  datatype Dec = Dec(mant: int, scale: nat)

  function Pow10(k: nat): (p: nat)
    ensures p >= 1
  {
    if k == 0 then 1 else 10 * Pow10(k - 1)
  }

  lemma {:induction false} Pow10Add(a: nat, b: nat)
    ensures Pow10(a + b) == Pow10(a) * Pow10(b)
  {
    if a > 0 {
      Pow10Add(a - 1, b);
      assert Pow10(a + b) == 10 * Pow10(a - 1 + b);
    }
  }

  lemma CastMul(x: int, y: int)
    ensures (x * y) as real == x as real * y as real
  {
  }

  lemma DivCancel(m: real, a: real, b: real)
    requires a > 0.0 && b > 0.0
    ensures (m * b) / (a * b) == m / a
  {
  }

  /** The exact value denoted by a decimal. */
  function Val(d: Dec): real
  {
    d.mant as real / Pow10(d.scale) as real
  }

  /** Appending t zero digits to the mantissa and t to the scale keeps the value. */
  lemma ValScaled(m: int, e: nat, t: nat)
    ensures Val(Dec(m * Pow10(t), e + t)) == Val(Dec(m, e))
  {
    var pe, pt := Pow10(e), Pow10(t);
    Pow10Add(e, t);
    CastMul(pe, pt);
    CastMul(m, pt);
    DivCancel(m as real, pe as real, pt as real);
    calc {
      Val(Dec(m * pt, e + t));
      (m * pt) as real / (pe * pt) as real;
      (m as real * pt as real) / (pe as real * pt as real);
      m as real / pe as real;
    }
  }

  predicate IsDigit(c: char)
  {
    '0' <= c <= '9'
  }

  predicate AllDigits(s: string)
  {
    forall i :: 0 <= i < |s| ==> IsDigit(s[i])
  }

  function DigitValue(c: char): nat
    requires IsDigit(c)
  {
    c as int - '0' as int
  }

  function DigitChar(k: nat): (c: char)
    requires k < 10
    ensures IsDigit(c) && DigitValue(c) == k
  {
    ('0' as int + k) as char
  }

  /** The number a string of decimal digits denotes, most significant digit first. */
  function DigitsVal(s: string): nat
    requires AllDigits(s)
  {
    if s == [] then 0 else 10 * DigitsVal(s[..|s| - 1]) + DigitValue(s[|s| - 1])
  }

  /** The shortest numeral of n: "0" for zero, otherwise no leading zero. */
  function DigitsOf(n: nat): (s: string)
    ensures 1 <= |s| && AllDigits(s)
    ensures DigitsVal(s) == n
    ensures n > 0 ==> s[0] != '0'
  {
    if n < 10 then [DigitChar(n)]
    else
      var s := DigitsOf(n / 10) + [DigitChar(n % 10)];
      assert s[..|s| - 1] == DigitsOf(n / 10);
      s
  }

  /** A numeral of n is no longer than k digits when n < 10^k. */
  lemma {:induction false} DigitsOfLength(n: nat, k: nat)
    requires 1 <= k && n < Pow10(k)
    ensures |DigitsOf(n)| <= k
  {
    if n >= 10 {
      assert Pow10(1) == 10;
      assert k >= 2;
      DigitsOfLength(n / 10, k - 1);
    }
  }

  function Zeros(k: nat): (s: string)
    ensures |s| == k && AllDigits(s)
    ensures forall i :: 0 <= i < k ==> s[i] == '0'
  {
    seq(k, _ => '0')
  }

  /** Left-pads a numeral with zeros to at least w characters. */
  function PadLeft(s: string, w: nat): (r: string)
    ensures |r| == if |s| < w then w else |s|
    ensures AllDigits(s) ==> AllDigits(r)
  {
    if |s| < w then Zeros(w - |s|) + s else s
  }

  /** Dropping the last digit of a numeral divides off its last place. */
  lemma DigitsValLast(s: string)
    requires AllDigits(s) && s != []
    ensures DigitsVal(s) == 10 * DigitsVal(s[..|s| - 1]) + DigitValue(s[|s| - 1])
  {
  }

  lemma {:induction false} DigitsValConcat(a: string, b: string)
    requires AllDigits(a) && AllDigits(b)
    ensures AllDigits(a + b)
    ensures DigitsVal(a + b) == DigitsVal(a) * Pow10(|b|) + DigitsVal(b)
  {
    if b == [] {
      assert a + b == a;
    } else {
      var b' := b[..|b| - 1];
      var last := DigitValue(b[|b| - 1]);
      assert (a + b)[..|a + b| - 1] == a + b';
      assert (a + b)[|a + b| - 1] == b[|b| - 1];
      DigitsValConcat(a, b');
      DigitsValLast(a + b);
      DigitsValLast(b);
      ShiftDigit(DigitsVal(a), DigitsVal(b'), Pow10(|b'|), last);
    }
  }

  lemma ShiftDigit(x: int, y: int, p: int, d: int)
    ensures 10 * (x * p + y) + d == x * (10 * p) + (10 * y + d)
  {
  }

  lemma {:induction false} ZerosVal(k: nat)
    ensures DigitsVal(Zeros(k)) == 0
  {
    if k > 0 {
      assert Zeros(k)[..k - 1] == Zeros(k - 1);
      ZerosVal(k - 1);
    }
  }

  /** Padding with leading zeros does not change the number a numeral denotes. */
  lemma {:induction false} PadLeftVal(s: string, w: nat)
    requires AllDigits(s)
    ensures DigitsVal(PadLeft(s, w)) == DigitsVal(s)
  {
    if |s| < w {
      var z := Zeros(w - |s|);
      DigitsValConcat(z, s);
      ZerosVal(w - |s|);
      assert DigitsVal(z + s) == 0 * Pow10(|s|) + DigitsVal(s);
    }
  }

  /** Strips trailing zero digits of the mantissa while there is a fraction. */
  function Normalize(d: Dec): (c: Dec)
    decreases d.scale
    ensures c.scale <= d.scale
    ensures d.mant == c.mant * Pow10(d.scale - c.scale)
    ensures c.scale == 0 || c.mant % 10 != 0
  {
    if d.scale > 0 && d.mant % 10 == 0 then
      var c := Normalize(Dec(d.mant / 10, d.scale - 1));
      Pow10Add(1, d.scale - 1 - c.scale);
      c
    else d
  }

  /** `d` times 10^k is a whole number: d has at most k fractional digits. */
  predicate HasPlaces(d: Dec, k: nat)
  {
    k >= d.scale || d.mant % Pow10(d.scale - k) == 0
  }

  lemma MulMod(a: int, b: nat)
    requires b >= 1
    ensures (a * b) % b == 0
  {
    var q, r := (a * b) / b, (a * b) % b;
    assert a * b == b * q + r && 0 <= r < b;
    assert b * (a - q) == r;
    if a - q >= 1 {
      assert false;
    } else if a - q <= -1 {
      assert false;
    }
  }

  /** If m is a multiple of 10^j with j >= 1, its last digit is zero. */
  lemma MultipleOfPow10(m: int, z: int, j: nat)
    requires j >= 1 && m == z * Pow10(j)
    ensures m % 10 == 0
  {
    assert m == (z * Pow10(j - 1)) * 10;
  }

  lemma MulCancel(x: int, y: int, p: nat)
    requires p >= 1 && x * p == y * p
    ensures x == y
  {
    assert (x - y) * p == 0;
  }

  lemma MulAssoc(x: int, y: int, z: int)
    ensures x * (y * z) == (x * y) * z
  {
  }

  lemma DivExact(m: int, p: nat)
    requires p >= 1 && m % p == 0
    ensures m == (m / p) * p
  {
  }

  /** A mantissa whose last digit is not zero, scaled by 10^t, is no multiple of 10^j for j > t. */
  lemma NotMultiple(cm: int, t: nat, j: nat)
    requires j > t && cm % 10 != 0
    ensures (cm * Pow10(t)) % Pow10(j) != 0
  {
    var m, pj, pa, pt := cm * Pow10(t), Pow10(j), Pow10(j - t), Pow10(t);
    if m % pj == 0 {
      var z := m / pj;
      DivExact(m, pj);
      Pow10Add(j - t, t);
      MulAssoc(z, pa, pt);
      MulCancel(cm, z * pa, pt);
      MultipleOfPow10(cm, z, j - t);
    }
  }

  /** The normalized scale is the least number of fractional digits of d. */
  lemma NormalizeIsLeastPlaces(d: Dec)
    ensures HasPlaces(d, Normalize(d).scale)
    ensures forall k :: 0 <= k < Normalize(d).scale ==> !HasPlaces(d, k)
  {
    var c := Normalize(d);
    var t := d.scale - c.scale;
    if c.scale < d.scale {
      MulMod(c.mant, Pow10(t));
    }
    forall k | 0 <= k < c.scale
      ensures !HasPlaces(d, k)
    {
      NotMultiple(c.mant, t, d.scale - k);
    }
  }
}
