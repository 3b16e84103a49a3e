/**
 * The three regular expressions of the field validators, written as
 * hand-rolled predicates over strings, together with the phone-number
 * cleaning step. Both landing-page scripts use the same email and phone
 * patterns; only landing-script.js adds the ZIP pattern and the minimum
 * phone length.
 */
module Patterns {
  import opened Text

  // ---------------------------------------------------------------------------
  // email: ^[^\s@]+@[^\s@]+\.[^\s@]+$
  // ---------------------------------------------------------------------------

  /** The regex class `[^\s@]`. */
  predicate EmailChar(c: char) {
    !IsSpace(c) && c != '@'
  }

  /** `[^\s@]+`: a non-empty run of characters that are neither whitespace nor '@'. */
  predicate EmailRun(s: string) {
    |s| > 0 && forall k :: 0 <= k < |s| ==> EmailChar(s[k])
  }

  /** The language of the email regex: the value splits as
      run, '@', run, '.', run. */
  ghost predicate EmailRegex(s: string) {
    exists i, j :: 0 < i < j < |s| - 1 && s[i] == '@' && s[j] == '.'
                   && EmailRun(s[..i]) && EmailRun(s[i + 1..j]) && EmailRun(s[j + 1..])
  }

  /** Position of the first `c` in `s`, or `|s|` when there is none. */
  function IndexOf(s: string, c: char): (k: nat)
    ensures k <= |s|
    ensures k < |s| ==> s[k] == c
    ensures c !in s[..k]
  {
    if s == [] then 0
    else if s[0] == c then 0
    else
      var k := 1 + IndexOf(s[1..], c);
      assert s[..k] == [s[0]] + s[1..][..k - 1];
      k
  }

  lemma {:induction false} IndexOfUnique(s: string, c: char, i: nat)
    requires i < |s| && s[i] == c && c !in s[..i]
    ensures IndexOf(s, c) == i
    decreases i
  {
    if i > 0 {
      assert s[0] == s[..i][0];
      assert s[1..][..i - 1] == s[1..i];
      IndexOfUnique(s[1..], c, i - 1);
    }
  }

  /** A '.' somewhere other than the first or last position. */
  predicate HasInnerDot(d: string) {
    |d| >= 3 && '.' in d[1..|d| - 1]
  }

  /** The email check as a reader states it: no whitespace, exactly one '@'
      (the first '@' has none after it) with something before it, and after
      the '@' a '.' at neither its first nor its last position. */
  predicate IsEmail(s: string) {
    var at := IndexOf(s, '@');
    && NoSpaces(s)
    && 0 < at < |s|
    && '@' !in s[at + 1..]
    && HasInnerDot(s[at + 1..])
  }

  /** The structural reading accepts exactly the language of the regex. */
  lemma EmailMatchesRegex(s: string)
    ensures IsEmail(s) <==> EmailRegex(s)
  {
    if IsEmail(s) { EmailIsRegex(s); }
    if EmailRegex(s) {
      var i, j :| 0 < i < j < |s| - 1 && s[i] == '@' && s[j] == '.'
                  && EmailRun(s[..i]) && EmailRun(s[i + 1..j]) && EmailRun(s[j + 1..]);
      RegexIsEmail(s, i, j);
    }
  }

  lemma EmailIsRegex(s: string)
    requires IsEmail(s)
    ensures EmailRegex(s)
  {
    var i := IndexOf(s, '@');
    var d := s[i + 1..];
    assert NoSpaces(s) && 0 < i < |s| && '@' !in d && HasInnerDot(d);
    var m :| 0 <= m < |d| - 2 && d[1..|d| - 1][m] == '.';
    var j := i + 2 + m;
    assert s[j] == d[m + 1];
    assert forall k :: i + 1 <= k < |s| ==> s[k] != '@' by {
      forall k | i + 1 <= k < |s| ensures s[k] != '@' { assert s[k] == d[k - i - 1]; }
    }
    assert forall k :: 0 <= k < i ==> s[k] != '@' by {
      forall k | 0 <= k < i ensures s[k] != '@' { assert s[k] == s[..i][k]; }
    }
    SliceIsRun(s, 0, i);
    SliceIsRun(s, i + 1, j);
    SliceIsRun(s, j + 1, |s|);
    assert s[j + 1..|s|] == s[j + 1..];
    assert s[0..i] == s[..i];
  }

  /** A non-empty slice without whitespace or '@' is a run of the email regex. */
  lemma SliceIsRun(s: string, a: nat, b: nat)
    requires a < b <= |s| && NoSpaces(s)
    requires forall k :: a <= k < b ==> s[k] != '@'
    ensures EmailRun(s[a..b])
  {
    forall k | 0 <= k < b - a ensures EmailChar(s[a..b][k]) {
      assert s[a..b][k] == s[a + k];
    }
  }

  lemma RegexIsEmail(s: string, i: nat, j: nat)
    requires 0 < i < j < |s| - 1 && s[i] == '@' && s[j] == '.'
    requires EmailRun(s[..i]) && EmailRun(s[i + 1..j]) && EmailRun(s[j + 1..])
    ensures IsEmail(s)
  {
    IndexOfUnique(s, '@', i);
    forall k | 0 <= k < |s| ensures !IsSpace(s[k]) && (k > i ==> s[k] != '@') {
      if k < i { assert s[k] == s[..i][k]; }
      else if i < k < j { assert s[k] == s[i + 1..j][k - i - 1]; }
      else if k > j { assert s[k] == s[j + 1..][k - j - 1]; }
    }
    var d := s[i + 1..];
    assert d[1..|d| - 1][j - i - 2] == '.';
    assert '@' !in d by {
      forall k | 0 <= k < |d| ensures d[k] != '@' { assert d[k] == s[i + 1 + k]; }
    }
  }

  // ---------------------------------------------------------------------------
  // phone: cleaning with /[\s\-\(\)]/g, then ^[\+]?[1-9][\d]{0,15}$
  // ---------------------------------------------------------------------------

  /** The characters the cleaning step deletes: whitespace, '-', '(' and ')'. */
  predicate IsPhoneSeparator(c: char) {
    IsSpace(c) || c == '-' || c == '(' || c == ')'
  }

  predicate NoSeparators(s: string) {
    forall k :: 0 <= k < |s| ==> !IsPhoneSeparator(s[k])
  }

  predicate OnlySeparators(s: string) {
    forall k :: 0 <= k < |s| ==> IsPhoneSeparator(s[k])
  }

  /** `value.replace(/[\s\-\(\)]/g, '')`: deletes every separator and keeps
      every other character. A value of separators only is cleaned away
      entirely, and a value without separators is kept as it is. */
  function CleanPhone(s: string): (r: string)
    ensures |r| <= |s|
    ensures NoSeparators(r)
    ensures NoSeparators(s) ==> r == s
    ensures OnlySeparators(s) ==> r == []
  {
    if s == [] then []
    else if IsPhoneSeparator(s[0]) then CleanPhone(s[1..])
    else [s[0]] + CleanPhone(s[1..])
  }

  /** Cleaning works piecewise: clean(a + b) == clean(a) + clean(b). Applied
      one character at a time, with the last two clauses of the contract of
      CleanPhone, this determines it on every input. */
  lemma {:induction false} CleanPhoneConcat(a: string, b: string)
    ensures CleanPhone(a + b) == CleanPhone(a) + CleanPhone(b)
    decreases |a|
  {
    if a == [] {
      assert a + b == b;
    } else {
      assert (a + b)[1..] == a[1..] + b;
      CleanPhoneConcat(a[1..], b);
    }
  }

  lemma CleanPhoneIdempotent(s: string)
    ensures CleanPhone(CleanPhone(s)) == CleanPhone(s)
  {
  }

  /** `[1-9][\d]{0,15}`: a non-zero digit followed by at most fifteen digits. */
  predicate PhoneDigits(t: string) {
    1 <= |t| <= 16 && '1' <= t[0] <= '9' && AllDigits(t[1..])
  }

  /** `^[\+]?[1-9][\d]{0,15}$`. */
  predicate IsPhone(s: string) {
    PhoneDigits(s) || (|s| > 0 && s[0] == '+' && PhoneDigits(s[1..]))
  }

  /** An accepted phone string has 1 to 17 characters, never starts with '0',
      and is all digits apart from an optional leading '+'. */
  lemma PhoneShape(s: string)
    requires IsPhone(s)
    ensures 1 <= |s| <= 17
    ensures s[0] != '0'
    ensures forall k :: 0 < k < |s| ==> IsDigit(s[k])
    ensures IsDigit(s[0]) || s[0] == '+'
  {
    if !PhoneDigits(s) {
      forall k | 0 < k < |s| ensures IsDigit(s[k]) {
        if k > 1 { assert s[k] == s[1..][1..][k - 2]; }
      }
    } else {
      forall k | 0 < k < |s| ensures IsDigit(s[k]) { assert s[k] == s[1..][k - 1]; }
    }
  }

  /** The phone check of landing-new.js: the cleaned value matches the pattern. */
  predicate PhoneAcceptedNew(value: string) {
    IsPhone(CleanPhone(value))
  }

  /** The phone check of landing-script.js: the cleaned value matches the
      pattern and has at least ten characters, a leading '+' included. */
  predicate PhoneAcceptedScript(value: string) {
    var clean := CleanPhone(value);
    IsPhone(clean) && |clean| >= 10
  }

  /** landing-script.js accepts a subset of what landing-new.js accepts, and
      its accepted cleaned values have 10 to 17 characters. */
  lemma PhoneScriptStricter(value: string)
    ensures PhoneAcceptedScript(value) ==> PhoneAcceptedNew(value)
    ensures PhoneAcceptedScript(value) ==> 10 <= |CleanPhone(value)| <= 17
    ensures PhoneAcceptedNew(value) && |CleanPhone(value)| >= 10 ==> PhoneAcceptedScript(value)
  {
    if PhoneAcceptedScript(value) { PhoneShape(CleanPhone(value)); }
  }

  // ---------------------------------------------------------------------------
  // ZIP: ^\d{5}(-\d{4})?$
  // ---------------------------------------------------------------------------

  /** `^\d{5}(-\d{4})?$`: five digits, optionally followed by '-' and four digits. */
  predicate IsZip(s: string) {
    || (|s| == 5 && AllDigits(s))
    || (|s| == 10 && AllDigits(s[..5]) && s[5] == '-' && AllDigits(s[6..]))
  }

  /** An accepted ZIP value has 5 or 10 characters; every one is a digit
      except a '-' at index 5 in the long form. */
  lemma ZipShape(s: string)
    requires IsZip(s)
    ensures |s| == 5 || |s| == 10
    ensures forall k :: 0 <= k < |s| && k != 5 ==> IsDigit(s[k])
    ensures |s| == 10 ==> s[5] == '-'
  {
    if |s| == 10 {
      forall k | 0 <= k < |s| && k != 5 ensures IsDigit(s[k]) {
        if k < 5 { assert s[k] == s[..5][k]; } else { assert s[k] == s[6..][k - 6]; }
      }
    }
  }

  /** Every five-digit code is accepted, alone or with any four-digit extension. */
  lemma ZipAcceptsCodes(code: nat, ext: nat)
    requires code < 100000 && ext < 10000
    ensures IsZip(ZeroPad(code, 5))
    ensures IsZip(ZeroPad(code, 5) + "-" + ZeroPad(ext, 4))
  {
    assert Pow10(5) == 100000 && Pow10(4) == 10000;
    NatToStringLength(code, 5);
    NatToStringLength(ext, 4);
    var a, b := ZeroPad(code, 5), ZeroPad(ext, 4);
    assert |a| == 5 && |b| == 4;
    var z := a + "-" + b;
    assert z[..5] == a;
    assert z[6..] == b;
  }
}
