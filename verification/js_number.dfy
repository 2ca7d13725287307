/**
 * The part of JavaScript numbers the grid-code conversion touches: integer
 * values, NaN, and `parseInt` without a radix argument (section 19.2.5 of
 * ECMA-262).
 */
module JsNumber {
  import opened JsString

  /** A JavaScript number restricted to what this model needs: an integer or NaN. */
  datatype Number = Num(value: int) | NaN
  {
    /** `this * k`; NaN absorbs. */
    function Times(k: int): (r: Number)
      ensures r.Num? <==> this.Num?
    {
      match this
      case Num(v) => Num(v * k)
      case NaN => NaN
    }

    /** `this - k`; NaN absorbs. */
    function Minus(k: int): (r: Number)
      ensures r.Num? <==> this.Num?
    {
      match this
      case Num(v) => Num(v - k)
      case NaN => NaN
    }
  }

  predicate IsDecimalDigit(c: char)
  {
    '0' <= c <= '9'
  }

  /** The value of `c` as a digit of radix 36 (0-9, then a/A = 10 up to
      z/Z = 35), and 36 for a character that is no digit at all. */
  function DigitValue(c: char): (v: nat)
    ensures v <= 36
    ensures v < 10 <==> IsDecimalDigit(c)
  {
    if '0' <= c <= '9' then c as int - '0' as int
    else if 'a' <= c <= 'z' then c as int - 'a' as int + 10
    else if 'A' <= c <= 'Z' then c as int - 'A' as int + 10
    else 36
  }

  predicate IsRadixDigit(c: char, radix: nat)
  {
    DigitValue(c) < radix
  }

  predicate AllRadixDigits(d: string, radix: nat)
  {
    forall i :: 0 <= i < |d| ==> IsRadixDigit(d[i], radix)
  }

  /** The longest prefix of `s` made of digits of `radix`. */
  function DigitRun(s: string, radix: nat): (d: string)
    ensures |d| <= |s| && d == s[..|d|]
    ensures AllRadixDigits(d, radix)
    ensures |d| == |s| || !IsRadixDigit(s[|d|], radix)
    decreases |s|
  {
    if |s| > 0 && IsRadixDigit(s[0], radix) then [s[0]] + DigitRun(s[1..], radix) else []
  }

  /** The number a digit string denotes, most significant digit first. */
  function DigitsValue(d: string, radix: nat): nat
    requires AllRadixDigits(d, radix)
    decreases |d|
  {
    if |d| == 0 then 0 else DigitsValue(d[..|d| - 1], radix) * radix + DigitValue(d[|d| - 1])
  }

  /** A "0x" or "0X" prefix, which switches `parseInt` to radix 16. */
  predicate HasHexPrefix(s: string)
  {
    |s| >= 2 && s[0] == '0' && (s[1] == 'x' || s[1] == 'X')
  }

  /** The input after leading white space and at most one sign character. */
  function Unsigned(s: string): string
  {
    var t := TrimStart(s);
    if |t| > 0 && (t[0] == '+' || t[0] == '-') then t[1..] else t
  }

  /** After white space and an optional sign the text starts with a decimal digit. */
  predicate StartsWithNumeral(s: string)
  {
    |Unsigned(s)| > 0 && IsDecimalDigit(Unsigned(s)[0])
  }

  /** The digits after the sign: radix 16 after "0x", radix 10 otherwise,
      the longest run of digits, NaN when that run is empty. */
  function ParseUnsigned(u: string): (n: Number)
    ensures n.Num? ==> |u| > 0 && IsDecimalDigit(u[0]) && n.value >= 0
  {
    var hex := HasHexPrefix(u);
    var radix := if hex then 16 else 10;
    var d := DigitRun(if hex then u[2..] else u, radix);
    if |d| == 0 then NaN else Num(DigitsValue(d, radix))
  }

  /** `parseInt(s)` without a radix (section 19.2.5 of ECMA-262): skip white
      space, read one optional sign, then the digits. */
  function ParseInt(s: string): (n: Number)
    ensures !StartsWithNumeral(s) ==> n == NaN
  {
    var t := TrimStart(s);
    var n := ParseUnsigned(Unsigned(s));
    if |t| > 0 && t[0] == '-' then n.Times(-1) else n
  }

  /** Leading white space does not change what `parseInt` reads. */
  lemma ParseIntPadded(w: string, s: string)
    requires AllWhiteSpace(w)
    ensures ParseInt(w + s) == ParseInt(s)
  {
    TrimStartPadded(w, s);
  }

  /** A run of a digit string followed by a non-digit is the digit string. */
  lemma {:induction false} DigitRunOfDigits(d: string, rest: string, radix: nat)
    requires AllRadixDigits(d, radix)
    requires |rest| == 0 || !IsRadixDigit(rest[0], radix)
    ensures DigitRun(d + rest, radix) == d
    decreases |d|
  {
    if |d| == 0 {
      assert d + rest == rest;
    } else {
      assert (d + rest)[0] == d[0];
      assert (d + rest)[1..] == d[1..] + rest;
      DigitRunOfDigits(d[1..], rest, radix);
      assert d == [d[0]] + d[1..];
    }
  }

  /** Unsigned text that starts with a run of decimal digits, and not with
      "0x", denotes the value of that run. */
  lemma {:induction false} ParseUnsignedDecimalRun(d: string, rest: string)
    requires |d| > 0 && AllRadixDigits(d, 10)
    requires |rest| == 0 || !IsDecimalDigit(rest[0])
    requires !HasHexPrefix(d + rest)
    ensures ParseUnsigned(d + rest) == Num(DigitsValue(d, 10))
  {
    DigitRunOfDigits(d, rest, 10);
  }

  /** A string that starts with a run of decimal digits, and not with "0x",
      parses to the value of that run; whatever follows the run is ignored. */
  lemma {:induction false} ParseIntDecimalRun(d: string, rest: string)
    requires |d| > 0 && AllRadixDigits(d, 10)
    requires |rest| == 0 || !IsDecimalDigit(rest[0])
    requires !HasHexPrefix(d + rest)
    ensures ParseInt(d + rest) == Num(DigitsValue(d, 10))
  {
    var s := d + rest;
    assert s[0] == d[0];
    assert IsDecimalDigit(s[0]);
    assert TrimStart(s) == s by { TrimStartOfTrimmed(s); }
    assert Unsigned(s) == s;
    ParseUnsignedDecimalRun(d, rest);
  }

  /** One sign in front of unsigned text that denotes `v`: "+" keeps `v`,
      "-" negates it. */
  lemma ParseIntSigned(sign: char, u: string, v: nat)
    requires sign == '+' || sign == '-'
    requires ParseUnsigned(u) == Num(v)
    ensures ParseInt([sign] + u) == if sign == '-' then Num(-(v as int)) else Num(v)
  {
    var s := [sign] + u;
    assert s[0] == sign && s[1..] == u;
    TrimStartOfTrimmed(s);
  }

  /** One sign in front of a run of decimal digits: "+" keeps its value, "-"
      negates it. */
  lemma {:induction false} ParseIntSignedRun(sign: char, d: string, rest: string)
    requires sign == '+' || sign == '-'
    requires |d| > 0 && AllRadixDigits(d, 10)
    requires |rest| == 0 || !IsDecimalDigit(rest[0])
    requires !HasHexPrefix(d + rest)
    ensures ParseInt([sign] + (d + rest))
            == if sign == '-' then Num(-(DigitsValue(d, 10) as int)) else Num(DigitsValue(d, 10))
  {
    ParseUnsignedDecimalRun(d, rest);
    ParseIntSigned(sign, d + rest, DigitsValue(d, 10));
  }

  /** After "0x" or "0X" the run of hexadecimal digits is read in radix 16;
      with no such digit the result is NaN. */
  lemma {:induction false} ParseIntHexRun(x: char, d: string, rest: string)
    requires x == 'x' || x == 'X'
    requires AllRadixDigits(d, 16)
    requires |rest| == 0 || !IsRadixDigit(rest[0], 16)
    ensures ParseInt(['0', x] + (d + rest))
            == if |d| == 0 then NaN else Num(DigitsValue(d, 16))
  {
    var u := d + rest;
    var s := ['0', x] + u;
    assert s[0] == '0' && s[1] == x && s[2..] == u;
    TrimStartOfTrimmed(s);
    assert Unsigned(s) == s;
    assert HasHexPrefix(s);
    DigitRunOfDigits(d, rest, 16);
  }

  function DigitChar(k: nat): (c: char)
    requires k < 10
    ensures IsDecimalDigit(c) && DigitValue(c) == k
  {
    ('0' as int + k) as char
  }

  /** The canonical decimal numeral of `n`: digits only, no leading zero, and
      denoting `n`. */
  function ToDecimal(n: nat): (d: string)
    ensures |d| > 0 && AllRadixDigits(d, 10)
    ensures |d| > 1 ==> d[0] != '0'
    ensures DigitsValue(d, 10) == n
    decreases n
  {
    if n < 10 then [DigitChar(n)]
    else
      var q, k := n / 10, n % 10;
      assert n == q * 10 + k;
      var p := ToDecimal(q);
      var d := p + [DigitChar(k)];
      assert d[..|d| - 1] == p && d[|d| - 1] == DigitChar(k);
      assert d[0] == p[0];
      assert AllRadixDigits(d, 10) by {
        forall i | 0 <= i < |d| ensures IsRadixDigit(d[i], 10) {
          if i < |p| { assert d[i] == p[i]; }
        }
      }
      assert DigitsValue(d, 10) == DigitsValue(p, 10) * 10 + k;
      d
  }

  /** `parseInt` inverts `ToDecimal`. */
  lemma ParseIntToDecimal(n: nat)
    ensures ParseInt(ToDecimal(n)) == Num(n)
  {
    var d := ToDecimal(n);
    assert d + [] == d;
    ParseIntDecimalRun(d, []);
  }

  /** `parseInt` inverts `ToDecimal` behind a minus sign. */
  lemma ParseIntNegatedDecimal(n: nat)
    ensures ParseInt("-" + ToDecimal(n)) == Num(-(n as int))
  {
    var d := ToDecimal(n);
    var s := "-" + d;
    assert s[0] == '-' && s[1..] == d;
    TrimStartOfTrimmed(s);
    assert Unsigned(s) == d;
    assert !HasHexPrefix(d);
    assert d + [] == d;
    DigitRunOfDigits(d, [], 10);
    assert DigitRun(d, 10) == d;
  }
}
