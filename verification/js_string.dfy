/**
 * The three JavaScript string operations the store search uses:
 * `String.prototype.trim`, `String.prototype.toLowerCase` and
 * `String.prototype.includes`, over Dafny strings (sequences of Unicode
 * scalar values).
 */
module JsString {

  /** The WhiteSpace and LineTerminator code points of ECMAScript (sections
      12.2 and 12.3 of ECMA-262): the set `trim` and `parseInt` strip. */
  predicate IsWhiteSpace(c: char)
  {
    || c == '\t' || c == '\n' || c == '\U{000B}' || c == '\U{000C}' || c == '\r'
    || c == ' ' || c == '\U{00A0}' || c == '\U{1680}'
    || ('\U{2000}' <= c <= '\U{200A}')
    || c == '\U{2028}' || c == '\U{2029}' || c == '\U{202F}' || c == '\U{205F}'
    || c == '\U{3000}' || c == '\U{FEFF}'
  }

  predicate AllWhiteSpace(s: string)
  {
    forall i :: 0 <= i < |s| ==> IsWhiteSpace(s[i])
  }

  /** `t` occurs in `s` starting at index `i`. */
  predicate OccursAt(s: string, t: string, i: nat)
  {
    i + |t| <= |s| && s[i..i + |t|] == t
  }

  lemma AllWhiteSpaceCons(s: string)
    requires |s| > 0
    ensures AllWhiteSpace(s) <==> IsWhiteSpace(s[0]) && AllWhiteSpace(s[1..])
  {
    if IsWhiteSpace(s[0]) && AllWhiteSpace(s[1..]) {
      forall i | 0 <= i < |s| ensures IsWhiteSpace(s[i]) {
        if i > 0 { assert s[i] == s[1..][i - 1]; }
      }
    }
  }

  /** Drops the leading white space. */
  function TrimStart(s: string): (r: string)
    ensures |r| <= |s|
    ensures |r| == 0 || !IsWhiteSpace(r[0])
    decreases |s|
  {
    if |s| > 0 && IsWhiteSpace(s[0]) then TrimStart(s[1..]) else s
  }

  /** `TrimStart` keeps a suffix of its input and drops only white space. */
  lemma {:induction false} TrimStartSpec(s: string)
    ensures TrimStart(s) == s[|s| - |TrimStart(s)|..]
    ensures forall i :: 0 <= i < |s| - |TrimStart(s)| ==> IsWhiteSpace(s[i])
    decreases |s|
  {
    if |s| > 0 && IsWhiteSpace(s[0]) {
      TrimStartSpec(s[1..]);
    }
  }

  /** Drops the trailing white space. */
  function TrimEnd(s: string): (r: string)
    ensures |r| <= |s|
    ensures |r| == 0 || !IsWhiteSpace(r[|r| - 1])
    decreases |s|
  {
    if |s| > 0 && IsWhiteSpace(s[|s| - 1]) then TrimEnd(s[..|s| - 1]) else s
  }

  /** `TrimEnd` keeps a prefix of its input and drops only white space. */
  lemma {:induction false} TrimEndSpec(s: string)
    ensures TrimEnd(s) == s[..|TrimEnd(s)|]
    ensures forall i :: |TrimEnd(s)| <= i < |s| ==> IsWhiteSpace(s[i])
    decreases |s|
  {
    if |s| > 0 && IsWhiteSpace(s[|s| - 1]) {
      TrimEndSpec(s[..|s| - 1]);
    }
  }

  /** `String.prototype.trim`: neither starts nor ends with white space, and
      is empty exactly when the input is white space only. */
  function Trim(s: string): (r: string)
    ensures |r| == 0 || (!IsWhiteSpace(r[0]) && !IsWhiteSpace(r[|r| - 1]))
    ensures |r| == 0 <==> AllWhiteSpace(s)
  {
    TrimEmptyIff(s);
    TrimEnd(TrimStart(s))
  }

  lemma TrimEmptyIff(s: string)
    ensures |TrimEnd(TrimStart(s))| == 0 || !IsWhiteSpace(TrimEnd(TrimStart(s))[0])
    ensures |TrimEnd(TrimStart(s))| == 0 <==> AllWhiteSpace(s)
  {
    var t := TrimStart(s);
    var k := |s| - |t|;
    var r := TrimEnd(t);
    TrimStartSpec(s);
    TrimEndSpec(t);
    if |r| == 0 {
      assert |t| == 0;
    } else {
      assert r[0] == t[0] == s[k];
    }
  }

  /** The trimmed string is a contiguous slice of the input, and only white
      space lies before and after it. */
  lemma TrimIsSlice(s: string)
    ensures exists i: nat ::
              OccursAt(s, Trim(s), i) && AllWhiteSpace(s[..i]) && AllWhiteSpace(s[i + |Trim(s)|..])
  {
    var t := TrimStart(s);
    var k := |s| - |t|;
    var r := TrimEnd(t);
    assert Trim(s) == r;
    var before, after := s[..k], t[|r|..];
    assert t == s[k..] && AllWhiteSpace(before) by {
      TrimStartSpec(s);
      forall j | 0 <= j < |before| ensures IsWhiteSpace(before[j]) {
        assert before[j] == s[j];
      }
    }
    assert r == t[..|r|] && AllWhiteSpace(after) by {
      TrimEndSpec(t);
      forall j | 0 <= j < |after| ensures IsWhiteSpace(after[j]) {
        assert after[j] == t[|r| + j];
      }
    }
    assert OccursAt(s, r, k) && s[k + |r|..] == after;
  }

  lemma TrimStartOfTrimmed(s: string)
    requires |s| == 0 || !IsWhiteSpace(s[0])
    ensures TrimStart(s) == s
  {
  }

  lemma TrimEndOfTrimmed(s: string)
    requires |s| == 0 || !IsWhiteSpace(s[|s| - 1])
    ensures TrimEnd(s) == s
  {
  }

  /** Trimming twice is trimming once. */
  lemma TrimIdempotent(s: string)
    ensures Trim(Trim(s)) == Trim(s)
  {
    var r := Trim(s);
    TrimStartOfTrimmed(r);
    TrimEndOfTrimmed(r);
  }

  /** Leading white space never survives `TrimStart`. */
  lemma {:induction false} TrimStartPadded(w: string, x: string)
    requires AllWhiteSpace(w)
    ensures TrimStart(w + x) == TrimStart(x)
    decreases |w|
  {
    if |w| > 0 {
      assert (w + x)[0] == w[0];
      assert (w + x)[1..] == w[1..] + x;
      TrimStartPadded(w[1..], x);
    } else {
      assert w + x == x;
    }
  }

  /** `TrimStart` of a concatenation: everything after the first non-white
      character is kept. */
  lemma {:induction false} TrimStartAppend(x: string, y: string)
    ensures TrimStart(x + y) == if AllWhiteSpace(x) then TrimStart(y) else TrimStart(x) + y
    decreases |x|
  {
    if |x| == 0 {
      assert x + y == y;
    } else {
      assert (x + y)[0] == x[0];
      assert (x + y)[1..] == x[1..] + y;
      TrimStartAppend(x[1..], y);
      AllWhiteSpaceCons(x);
    }
  }

  /** Trailing white space never survives `TrimEnd`. */
  lemma {:induction false} TrimEndPadded(x: string, w: string)
    requires AllWhiteSpace(w)
    ensures TrimEnd(x + w) == TrimEnd(x)
    decreases |w|
  {
    if |w| > 0 {
      var w' := w[..|w| - 1];
      assert (x + w)[|x + w| - 1] == w[|w| - 1];
      assert (x + w)[..|x + w| - 1] == x + w';
      TrimEndPadded(x, w');
    } else {
      assert x + w == x;
    }
  }

  /** Surrounding white space is irrelevant to `trim`. */
  lemma TrimPadded(w1: string, x: string, w2: string)
    requires AllWhiteSpace(w1) && AllWhiteSpace(w2)
    ensures Trim(w1 + x + w2) == Trim(x)
  {
    assert w1 + x + w2 == w1 + (x + w2);
    TrimStartPadded(w1, x + w2);
    TrimStartAppend(x, w2);
    if AllWhiteSpace(x) {
      TrimStartSpec(x);
      assert TrimStart(x) == [];
      TrimStartPadded(w2, []);
      assert w2 + [] == w2;
    } else {
      TrimEndPadded(TrimStart(x), w2);
    }
  }

  /** Lower-case mapping of one character: the ASCII letters and the upper-case
      letters of the Latin-1 Supplement block (U+00C0..U+00DE, without the
      multiplication sign U+00D7) move 32 code points up; everything else is
      unchanged. */
  /** The upper-case letters `toLowerCase` lowers in this model: ASCII A..Z
      and the Latin-1 capitals U+00C0..U+00DE except the sign U+00D7. */
  predicate IsUpper(c: char)
  {
    ('A' <= c <= 'Z') || ('\U{00C0}' <= c <= '\U{00DE}' && c != '\U{00D7}')
  }

  function LowerChar(c: char): char
  {
    if IsUpper(c) then (c as int + 32) as char else c
  }

  /** `String.prototype.toLowerCase`, character by character: no upper-case
      letter is left, each upper-case letter becomes the letter 32 code points
      above it, and every other character is kept. */
  function ToLowerCase(s: string): (r: string)
    ensures |r| == |s|
    ensures forall i :: 0 <= i < |r| ==> !IsUpper(r[i])
    ensures forall i :: 0 <= i < |s| && IsUpper(s[i]) ==> r[i] as int == s[i] as int + 32
    ensures forall i :: 0 <= i < |s| && !IsUpper(s[i]) ==> r[i] == s[i]
  {
    seq(|s|, i requires 0 <= i < |s| => LowerChar(s[i]))
  }

  lemma LowerCharIdempotent(c: char)
    ensures LowerChar(LowerChar(c)) == LowerChar(c)
  {
  }

  /** Lower-casing a lower-cased string changes nothing. */
  lemma ToLowerCaseIdempotent(s: string)
    ensures ToLowerCase(ToLowerCase(s)) == ToLowerCase(s)
  {
    forall i | 0 <= i < |s| ensures ToLowerCase(ToLowerCase(s))[i] == ToLowerCase(s)[i] {
      LowerCharIdempotent(s[i]);
    }
  }

  /** Lower-casing neither creates nor removes white space. */
  lemma LowerCharWhiteSpace(c: char)
    ensures IsWhiteSpace(LowerChar(c)) <==> IsWhiteSpace(c)
  {
  }

  lemma ToLowerCaseAppend(a: string, b: string)
    ensures ToLowerCase(a + b) == ToLowerCase(a) + ToLowerCase(b)
  {
  }

  lemma ToLowerCaseWhiteSpace(w: string)
    requires AllWhiteSpace(w)
    ensures ToLowerCase(w) == w
  {
  }

  /** Because lower-casing maps white space to itself and nothing else to
      white space, it commutes with `TrimStart`. */
  lemma {:induction false} ToLowerCaseTrimStart(s: string)
    ensures TrimStart(ToLowerCase(s)) == ToLowerCase(TrimStart(s))
    decreases |s|
  {
    if |s| > 0 {
      LowerCharWhiteSpace(s[0]);
      assert ToLowerCase(s)[1..] == ToLowerCase(s[1..]);
      ToLowerCaseTrimStart(s[1..]);
    }
  }

  lemma {:induction false} ToLowerCaseTrimEnd(s: string)
    ensures TrimEnd(ToLowerCase(s)) == ToLowerCase(TrimEnd(s))
    decreases |s|
  {
    if |s| > 0 {
      LowerCharWhiteSpace(s[|s| - 1]);
      assert ToLowerCase(s)[..|s| - 1] == ToLowerCase(s[..|s| - 1]);
      ToLowerCaseTrimEnd(s[..|s| - 1]);
    }
  }

  /** Trimming and lower-casing commute. */
  lemma ToLowerCaseTrim(s: string)
    ensures Trim(ToLowerCase(s)) == ToLowerCase(Trim(s))
  {
    ToLowerCaseTrimStart(s);
    ToLowerCaseTrimEnd(TrimStart(s));
  }

  /** `String.prototype.includes`: `t` is a prefix of `s` or occurs further on. */
  predicate Includes(s: string, t: string)
    decreases |s|
  {
    (|t| <= |s| && s[..|t|] == t) || (|s| > 0 && Includes(s[1..], t))
  }

  /** An occurrence at index `i` makes `Includes` hold. */
  lemma {:induction false} OccursAtIncludes(s: string, t: string, i: nat)
    requires OccursAt(s, t, i)
    ensures Includes(s, t)
    decreases i
  {
    if i > 0 {
      assert s[1..][i - 1..i - 1 + |t|] == s[i..i + |t|];
      OccursAtIncludes(s[1..], t, i - 1);
    }
  }

  /** `Includes` finds an index where `t` occurs. */
  lemma {:induction false} IncludesOccurs(s: string, t: string) returns (i: nat)
    requires Includes(s, t)
    ensures OccursAt(s, t, i)
    decreases |s|
  {
    if |t| <= |s| && s[..|t|] == t {
      i := 0;
    } else {
      var j := IncludesOccurs(s[1..], t);
      assert s[j + 1..j + 1 + |t|] == s[1..][j..j + |t|];
      i := j + 1;
    }
  }

  /** `Includes` holds exactly when `t` occurs at some index of `s`. */
  lemma IncludesIff(s: string, t: string)
    ensures Includes(s, t) <==> exists i: nat :: OccursAt(s, t, i)
  {
    if Includes(s, t) {
      var i := IncludesOccurs(s, t);
    }
    if exists i: nat :: OccursAt(s, t, i) {
      var i: nat :| OccursAt(s, t, i);
      OccursAtIncludes(s, t, i);
    }
  }

  /** Every string includes the empty string. */
  lemma IncludesEmpty(s: string)
    ensures Includes(s, [])
  {
    assert s[..0] == [];
  }
}
