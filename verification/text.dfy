/**
 * Character classes and string helpers used by both landing-page scripts:
 * JavaScript's `trim`, the `\s` and `\d` regex classes, decimal rendering of
 * numbers inside template strings, `padStart`, and a small reader that parses
 * a decimal number back out of rendered text.
 */
module Text {
  import opened Optional

  /** The whitespace of `String.prototype.trim` and of the regex class `\s`,
      restricted to ASCII: space, tab, line feed, carriage return, vertical tab
      and form feed. */
  predicate IsSpace(c: char) {
    c == ' ' || c == '\t' || c == '\n' || c == '\r' || c == '\U{000B}' || c == '\U{000C}'
  }

  /** The regex class `\d`: an ASCII decimal digit. */
  predicate IsDigit(c: char) {
    '0' <= c <= '9'
  }

  predicate AllDigits(s: string) {
    forall k :: 0 <= k < |s| ==> IsDigit(s[k])
  }

  predicate AllSpaces(s: string) {
    forall k :: 0 <= k < |s| ==> IsSpace(s[k])
  }

  predicate NoSpaces(s: string) {
    forall k :: 0 <= k < |s| ==> !IsSpace(s[k])
  }

  function Repeat(c: char, n: nat): (r: string)
    ensures |r| == n
    ensures forall k :: 0 <= k < n ==> r[k] == c
  {
    seq(n, _ => c)
  }

  // ---------------------------------------------------------------------------
  // trim
  // ---------------------------------------------------------------------------

  /** Drops the leading whitespace: the result is the longest suffix of `s`
      that does not start with whitespace, and everything dropped is whitespace. */
  function TrimStart(s: string): (r: string)
    ensures |r| <= |s| && r == s[|s| - |r|..]
    ensures AllSpaces(s[..|s| - |r|])
    ensures r == [] || !IsSpace(r[0])
  {
    if |s| > 0 && IsSpace(s[0]) then
      var r := TrimStart(s[1..]);
      assert s[1..][..|s| - 1 - |r|] == s[1..|s| - |r|];
      r
    else
      s
  }

  /** Drops the trailing whitespace: the result is the longest prefix of `s`
      that does not end with whitespace, and everything dropped is whitespace. */
  function TrimEnd(s: string): (r: string)
    ensures |r| <= |s| && r == s[..|r|]
    ensures AllSpaces(s[|r|..])
    ensures r == [] || !IsSpace(r[|r| - 1])
  {
    if |s| > 0 && IsSpace(s[|s| - 1]) then
      var r := TrimEnd(s[..|s| - 1]);
      assert s[..|s| - 1][..|r|] == s[..|r|];
      assert s[|r|..] == s[..|s| - 1][|r|..] + [s[|s| - 1]];
      r
    else
      s
  }

  /** `r` is the slice of `s` starting at `i`, with only whitespace around it. */
  predicate SpaceFramed(r: string, s: string, i: nat) {
    i + |r| <= |s| && r == s[i..i + |r|] && AllSpaces(s[..i]) && AllSpaces(s[i + |r|..])
  }

  /** `String.prototype.trim`: the result is a contiguous slice of the input
      with only whitespace outside it, and it neither starts nor ends with
      whitespace. */
  function Trim(s: string): (r: string)
    ensures |r| <= |s|
    ensures exists i: nat :: SpaceFramed(r, s, i)
    ensures r == [] || (!IsSpace(r[0]) && !IsSpace(r[|r| - 1]))
  {
    var t := TrimStart(s);
    var r := TrimEnd(t);
    TrimSlice(s, t, r);
    TrimEnds(t, r);
    r
  }

  /** What trimming the end keeps of a whitespace-stripped suffix `t` of `s`
      is framed by whitespace in `s`. */
  lemma TrimSlice(s: string, t: string, r: string)
    requires |t| <= |s| && t == s[|s| - |t|..] && AllSpaces(s[..|s| - |t|])
    requires |r| <= |t| && r == t[..|r|] && AllSpaces(t[|r|..])
    ensures SpaceFramed(r, s, |s| - |t|)
  {
    SlicesOfSuffix(s, |s| - |t|, |r|);
  }

  /** Trimming the end of a string that does not start with whitespace gives
      one that neither starts nor ends with it. */
  lemma TrimEnds(t: string, r: string)
    requires t == [] || !IsSpace(t[0])
    requires |r| <= |t| && r == t[..|r|]
    requires r == [] || !IsSpace(r[|r| - 1])
    ensures r == [] || (!IsSpace(r[0]) && !IsSpace(r[|r| - 1]))
  {
    if r != [] { assert r[0] == t[0]; }
  }

  lemma SlicesOfSuffix<T>(s: seq<T>, i: nat, n: nat)
    requires i + n <= |s|
    ensures s[i..][..n] == s[i..i + n] && s[i..][n..] == s[i + n..]
  {
  }

  /** A trimmed value is empty exactly when the raw value was all whitespace
      (this is the `!value` test of the required-field check). */
  lemma TrimEmptyIff(s: string)
    ensures Trim(s) == [] <==> AllSpaces(s)
  {
    var t := TrimStart(s);
    if t == [] {
      assert s[..|s|] == s;
    } else {
      assert TrimEnd(t) != [] by { assert !IsSpace(t[0]); }
      assert !IsSpace(s[|s| - |t|]);
    }
  }

  // ---------------------------------------------------------------------------
  // decimal numbers
  // ---------------------------------------------------------------------------

  function DigitChar(d: nat): (c: char)
    requires d < 10
    ensures IsDigit(c)
  {
    ('0' as int + d) as char
  }

  function DigitValue(c: char): (d: nat)
    requires IsDigit(c)
    ensures d < 10
  {
    c as int - '0' as int
  }

  function Pow10(k: nat): (p: nat)
    ensures p >= 1
  {
    if k == 0 then 1 else 10 * Pow10(k - 1)
  }

  /** The number a string of decimal digits denotes (leading zeros allowed). */
  function DigitsValue(s: string): nat
    requires AllDigits(s)
  {
    if s == [] then 0 else 10 * DigitsValue(s[..|s| - 1]) + DigitValue(s[|s| - 1])
  }

  /** Decimal rendering of a non-negative integer, as JavaScript's template
      interpolation and `toString()` produce it: at least one digit, and no
      leading zero unless the number is zero. */
  function NatToString(n: nat): (r: string)
    ensures 1 <= |r| && AllDigits(r)
    ensures r[0] == '0' ==> n == 0 && |r| == 1
    decreases n
  {
    if n < 10 then [DigitChar(n)] else NatToString(n / 10) + [DigitChar(n % 10)]
  }

  /** Reading back a rendered number gives the number. */
  lemma {:induction false} NatToStringRoundTrip(n: nat)
    ensures DigitsValue(NatToString(n)) == n
    decreases n
  {
    if n >= 10 {
      var s := NatToString(n);
      assert s[..|s| - 1] == NatToString(n / 10);
      NatToStringRoundTrip(n / 10);
    }
  }

  /** The value of a concatenation of digit strings. */
  lemma {:induction false} DigitsValueConcat(a: string, b: string)
    requires AllDigits(a) && AllDigits(b)
    ensures AllDigits(a + b)
    ensures DigitsValue(a + b) == DigitsValue(a) * Pow10(|b|) + DigitsValue(b)
    decreases |b|
  {
    if b == [] {
      assert a + b == a;
    } else {
      var b' := b[..|b| - 1];
      var d := DigitValue(b[|b| - 1]);
      assert (a + b)[..|a + b| - 1] == a + b';
      assert (a + b)[|a + b| - 1] == b[|b| - 1];
      DigitsValueConcat(a, b');
      assert DigitsValue(a + b) == 10 * DigitsValue(a + b') + d;
      assert DigitsValue(b) == 10 * DigitsValue(b') + d;
      ShiftDigit(DigitsValue(a), Pow10(|b'|), DigitsValue(b'), d);
    }
  }

  lemma ShiftDigit(x: int, p: int, y: int, d: int)
    ensures 10 * (x * p + y) + d == x * (10 * p) + (10 * y + d)
  {
  }

  lemma {:induction false} ZerosValue(k: nat)
    ensures AllDigits(Repeat('0', k)) && DigitsValue(Repeat('0', k)) == 0
    decreases k
  {
    if k > 0 {
      assert Repeat('0', k)[..k - 1] == Repeat('0', k - 1);
      ZerosValue(k - 1);
    }
  }

  /** Leading zeros add nothing to the value of a digit string. */
  lemma LeadingZerosValue(k: nat, s: string)
    requires AllDigits(s)
    ensures DigitsValue(Repeat('0', k) + s) == DigitsValue(s)
  {
    var z := Repeat('0', k);
    ZerosValue(k);
    DigitsValueConcat(z, s);
    assert DigitsValue(z) * Pow10(|s|) == 0;
  }

  /** `s.padStart(width, fill)`: copies of `fill` in front of `s` until the
      length reaches `width`; `s` itself is kept as the suffix. */
  function PadStart(s: string, width: nat, fill: char): (r: string)
    ensures |r| == if |s| >= width then |s| else width
    ensures r[|r| - |s|..] == s
    ensures forall k :: 0 <= k < |r| - |s| ==> r[k] == fill
  {
    if |s| >= width then s else Repeat(fill, width - |s|) + s
  }

  /** `n.toString().padStart(width, '0')`. */
  function ZeroPad(n: nat, width: nat): (r: string)
    ensures AllDigits(r) && |r| >= width && |r| >= 1
  {
    var r := PadStart(NatToString(n), width, '0');
    assert forall k :: 0 <= k < |r| ==> IsDigit(r[k]) by {
      forall k | 0 <= k < |r| ensures IsDigit(r[k]) {
        var s := NatToString(n);
        if k >= |r| - |s| { assert r[k] == r[|r| - |s|..][k - (|r| - |s|)]; }
      }
    }
    r
  }

  /** A number below 10^k has at most k digits (one digit for k == 0). */
  lemma {:induction false} NatToStringLength(n: nat, k: nat)
    requires n < Pow10(k)
    ensures |NatToString(n)| <= if k == 0 then 1 else k
    decreases k
  {
    if n >= 10 {
      assert k >= 2 && n / 10 < Pow10(k - 1);
      NatToStringLength(n / 10, k - 1);
    }
  }

  /** A number below 10^width, padded to width, takes exactly width characters. */
  lemma ZeroPadWidth(n: nat, width: nat)
    requires 1 <= width && n < Pow10(width)
    ensures |ZeroPad(n, width)| == width
  {
    NatToStringLength(n, width);
  }

  /** Zero padding does not change the number the digits denote. */
  lemma ZeroPadValue(n: nat, width: nat)
    ensures DigitsValue(ZeroPad(n, width)) == n
  {
    var s := NatToString(n);
    NatToStringRoundTrip(n);
    if |s| < width {
      assert ZeroPad(n, width) == Repeat('0', width - |s|) + s;
      LeadingZerosValue(width - |s|, s);
    }
  }

  // ---------------------------------------------------------------------------
  // reading numbers back out of text
  // ---------------------------------------------------------------------------

  /** Length of the longest prefix of `s` made of digits. */
  function DigitSpan(s: string): (n: nat)
    ensures n <= |s| && AllDigits(s[..n])
    ensures n == |s| || !IsDigit(s[n])
  {
    if |s| > 0 && IsDigit(s[0]) then
      var n := 1 + DigitSpan(s[1..]);
      assert s[..n] == [s[0]] + s[1..][..n - 1];
      n
    else
      0
  }

  /** The digit span is the only prefix length whose prefix is all digits and
      which is not followed by a digit. */
  lemma {:induction false} DigitSpanUnique(s: string, n: nat)
    requires n <= |s| && AllDigits(s[..n])
    requires n == |s| || !IsDigit(s[n])
    ensures DigitSpan(s) == n
    decreases n
  {
    if n > 0 {
      assert s[0] == s[..n][0];
      assert s[1..][..n - 1] == s[1..n];
      DigitSpanUnique(s[1..], n - 1);
    }
  }

  /** Reads a maximal run of digits at the start of `s`; None when `s` does
      not start with a digit. */
  function ReadNat(s: string): Option<(nat, string)>
  {
    var n := DigitSpan(s);
    if n == 0 then None else Some((DigitsValue(s[..n]), s[n..]))
  }

  /** If `s` starts with `lit`, the text after it. */
  function Expect(s: string, lit: string): (r: Option<string>)
    ensures r.Some? ==> s == lit + r.value
  {
    if |lit| <= |s| && s[..|lit|] == lit then
      assert s == s[..|lit|] + s[|lit|..];
      Some(s[|lit|..])
    else
      None
  }

  lemma ExpectLiteral(lit: string, rest: string)
    ensures Expect(lit + rest, lit) == Some(rest)
  {
    assert (lit + rest)[..|lit|] == lit;
    assert (lit + rest)[|lit|..] == rest;
  }

  /** Digits followed by a non-digit read back as the number they denote and
      the text after them. */
  lemma ReadDigits(p: string, rest: string)
    requires |p| > 0 && AllDigits(p)
    requires rest == [] || !IsDigit(rest[0])
    ensures ReadNat(p + rest) == Some((DigitsValue(p), rest))
  {
    var s := p + rest;
    assert s[..|p|] == p;
    DigitSpanUnique(s, |p|);
    assert s[|p|..] == rest;
  }

  /** Reads a number and then the literal `lit`; yields the number and the
      text after the literal. */
  function ReadField(s: string, lit: string): Option<(nat, string)>
  {
    match ReadNat(s)
    case None => None
    case Some((n, rest)) =>
      match Expect(rest, lit)
      case None => None
      case Some(after) => Some((n, after))
  }

  /** Digits followed by a literal that does not start with a digit read back
      as the number and the text after the literal. */
  lemma ReadFieldDigits(p: string, lit: string, rest: string)
    requires |p| > 0 && AllDigits(p)
    requires lit != [] && !IsDigit(lit[0])
    ensures ReadField(p + (lit + rest), lit) == Some((DigitsValue(p), rest))
  {
    ReadDigits(p, lit + rest);
    ExpectLiteral(lit, rest);
  }

  /** A rendered number followed by such a literal reads back as the number. */
  lemma ReadFieldNat(n: nat, lit: string, rest: string)
    requires lit != [] && !IsDigit(lit[0])
    ensures ReadField(NatToString(n) + (lit + rest), lit) == Some((n, rest))
  {
    ReadFieldDigits(NatToString(n), lit, rest);
    NatToStringRoundTrip(n);
  }

  /** The same for a zero-padded number. */
  lemma ReadFieldZeroPad(n: nat, width: nat, lit: string, rest: string)
    requires lit != [] && !IsDigit(lit[0])
    ensures ReadField(ZeroPad(n, width) + (lit + rest), lit) == Some((n, rest))
  {
    ReadFieldDigits(ZeroPad(n, width), lit, rest);
    ZeroPadValue(n, width);
  }

  /** A zero-padded number at the very end reads back as the number. */
  lemma ReadZeroPadEnd(n: nat, width: nat)
    ensures ReadNat(ZeroPad(n, width)) == Some((n, []))
  {
    assert ZeroPad(n, width) + [] == ZeroPad(n, width);
    ReadDigits(ZeroPad(n, width), []);
    ZeroPadValue(n, width);
  }
}
