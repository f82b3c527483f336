/**
 * The Python string built-ins the core relies on: `str.strip()` with no
 * argument, `int()` applied to a string, and decimal rendering of integers
 * as done by `str(n)` and `f"{n:02d}"`.
 */
module PyText {
  import opened Wrappers

  /** The characters for which Python's `str.isspace()` is true. */
  predicate IsSpace(c: char)
  {
    || c == ' ' || c == '\t' || c == '\n' || c == '\r'
    || c == '\U{B}' || c == '\U{C}'
    || ('\U{1C}' <= c <= '\U{1F}')
    || c == '\U{85}' || c == '\U{A0}' || c == '\U{1680}'
    || ('\U{2000}' <= c <= '\U{200A}')
    || c == '\U{2028}' || c == '\U{2029}' || c == '\U{202F}' || c == '\U{205F}'
    || c == '\U{3000}'
  }

  /** `s.lstrip()`: the suffix left after removing the leading whitespace run. */
  function StripLeft(s: string): (r: string)
    ensures |r| <= |s| && r == s[|s| - |r|..]
    ensures |r| > 0 ==> !IsSpace(r[0])
    ensures forall k :: 0 <= k < |s| - |r| ==> IsSpace(s[k])
  {
    if |s| > 0 && IsSpace(s[0]) then StripLeft(s[1..]) else s
  }

  /** `s.rstrip()`: the prefix left after removing the trailing whitespace run. */
  function StripRight(s: string): (r: string)
    ensures |r| <= |s| && r == s[..|r|]
    ensures |r| > 0 ==> !IsSpace(r[|r| - 1])
    ensures forall k :: |r| <= k < |s| ==> IsSpace(s[k])
  {
    if |s| > 0 && IsSpace(s[|s| - 1]) then StripRight(s[..|s| - 1]) else s
  }

  /** `s.strip()` */
  function Strip(s: string): string
  {
    StripRight(StripLeft(s))
  }

  /** What `strip()` leaves is the slice of its input that starts after the
      leading whitespace run, with no whitespace at either end, and everything
      it removed is whitespace. */
  lemma StripIsTrimmedSlice(s: string)
    ensures var r, i := Strip(s), |s| - |StripLeft(s)|;
      && (|r| > 0 ==> !IsSpace(r[0]) && !IsSpace(r[|r| - 1]))
      && 0 <= i <= |s| - |r| && r == s[i..i + |r|]
      && (forall k :: 0 <= k < i ==> IsSpace(s[k]))
      && (forall k :: i + |r| <= k < |s| ==> IsSpace(s[k]))
  {
    var l := StripLeft(s);
    var r := StripRight(l);
    var i := |s| - |l|;
    SuffixPrefix(s, i, |r|);
    forall k | i + |r| <= k < |s| ensures IsSpace(s[k]) {
      assert s[k] == l[k - i];
    }
  }

  /** A prefix of a suffix is a slice. */
  lemma SuffixPrefix(s: string, i: nat, n: nat)
    requires i + n <= |s|
    ensures s[i..][..n] == s[i..i + n]
  {
  }

  /** Stripping adds no character: one absent from `s` is absent from
      `s.strip()`. */
  lemma StripKeepsOut(s: string, c: char)
    requires c !in s
    ensures c !in Strip(s)
  {
    StripIsTrimmedSlice(s);
  }

  /** Stripping twice is stripping once. */
  lemma StripIdempotent(s: string)
    ensures Strip(Strip(s)) == Strip(s)
  {
    StripIsTrimmedSlice(s);
  }

  predicate IsDigit(c: char) { '0' <= c <= '9' }

  predicate AllDigits(s: string) { forall k :: 0 <= k < |s| ==> IsDigit(s[k]) }

  function DigitChar(d: nat): (c: char)
    requires d < 10
    ensures IsDigit(c)
  {
    (48 + d) as char
  }

  function DigitValue(c: char): (d: nat)
    requires IsDigit(c)
    ensures d < 10 && DigitChar(d) == c
  {
    (c as int) - 48
  }

  /** `str(n)` for a non-negative integer. */
  function NatToString(n: nat): (s: string)
    ensures |s| > 0 && AllDigits(s)
    ensures (|s| == 1) <==> n < 10
  {
    if n < 10 then [DigitChar(n)] else NatToString(n / 10) + [DigitChar(n % 10)]
  }

  /** The value of a run of decimal digits; leading zeros are allowed. */
  function ParseDigits(s: string): nat
    requires AllDigits(s)
  {
    if |s| == 0 then 0 else ParseDigits(s[..|s| - 1]) * 10 + DigitValue(s[|s| - 1])
  }

  /** Rendering a natural number and reading it back gives the number. */
  lemma {:induction false} ParseNatToString(n: nat)
    ensures ParseDigits(NatToString(n)) == n
  {
    if n >= 10 {
      var s := NatToString(n);
      assert s[..|s| - 1] == NatToString(n / 10);
      ParseNatToString(n / 10);
    }
  }

  /** Digits appended on the right scale the value: `ParseDigits(a + b)`. */
  lemma {:induction false} ParseDigitsAppend(a: string, b: string)
    requires AllDigits(a) && AllDigits(b)
    ensures AllDigits(a + b)
    ensures ParseDigits(a + b) == ParseDigits(a) * Pow10(|b|) + ParseDigits(b)
  {
    assert forall k :: 0 <= k < |a + b| ==> (a + b)[k] == if k < |a| then a[k] else b[k - |a|];
    if |b| > 0 {
      var ab, b' := a + b, b[..|b| - 1];
      assert ab[..|ab| - 1] == a + b';
      assert ab[|ab| - 1] == b[|b| - 1];
      ParseDigitsAppend(a, b');
      var d := DigitValue(b[|b| - 1]);
      assert ParseDigits(ab) == ParseDigits(a + b') * 10 + d;
      assert ParseDigits(b) == ParseDigits(b') * 10 + d;
      ShiftDigit(ParseDigits(a), Pow10(|b'|), ParseDigits(b'), d);
    } else {
      assert a + b == a;
    }
  }

  /** One more digit on the right of `a * p + b`. */
  lemma ShiftDigit(a: int, p: int, b: int, d: int)
    ensures (a * p + b) * 10 + d == a * (10 * p) + (b * 10 + d)
  {
  }

  function Pow10(k: nat): (p: nat)
    ensures p >= 1
  {
    if k == 0 then 1 else 10 * Pow10(k - 1)
  }

  /** `str(n)` for any integer. */
  function IntToString(n: int): string
  {
    if n < 0 then "-" + NatToString(-n) else NatToString(n)
  }

  /** `int(s)` for a string, when it succeeds: surrounding whitespace is
      ignored, then an optional sign and at least one ASCII digit. */
  function PyInt(s: string): (r: Option<int>)
  {
    var t := Strip(s);
    if |t| > 0 && (t[0] == '+' || t[0] == '-') then
      var digits := t[1..];
      if |digits| > 0 && AllDigits(digits) then
        var magnitude: int := ParseDigits(digits);
        Some(if t[0] == '-' then -magnitude else magnitude)
      else None
    else if |t| > 0 && AllDigits(t) then Some(ParseDigits(t))
    else None
  }

  /** A string with no whitespace at either end is left alone by `strip()`. */
  lemma StripUnpadded(s: string)
    requires |s| > 0 && !IsSpace(s[0]) && !IsSpace(s[|s| - 1])
    ensures Strip(s) == s
  {
  }

  /** `int(str(n)) == n` for every integer. */
  lemma PyIntOfIntToString(n: int)
    ensures PyInt(IntToString(n)) == Some(n)
  {
    if n < 0 {
      PyIntOfNegative(-n);
    } else {
      PyIntOfNatural(n);
    }
  }

  /** `int(str(n)) == n` for `n >= 0`. */
  lemma PyIntOfNatural(n: nat)
    ensures PyInt(IntToString(n)) == Some(n)
  {
    var s := IntToString(n);
    ParseNatToString(n);
    StripUnpadded(s);
  }

  /** `int(str(-m)) == -m` for `m > 0`. */
  lemma PyIntOfNegative(m: nat)
    requires m > 0
    ensures PyInt(IntToString(-(m as int))) == Some(-(m as int))
  {
    var s, digits := IntToString(-(m as int)), NatToString(m);
    NegativeRendering(m);
    ParseNatToString(m);
    PyIntOfSigned(s, digits, m);
  }

  /** `str(-m)` is a minus sign followed by `str(m)`. */
  lemma NegativeRendering(m: nat)
    requires m > 0
    ensures var s := IntToString(-(m as int)); |s| > 0 && s[0] == '-' && s[1..] == NatToString(m)
  {
  }

  /** `int()` of a minus sign followed by a run of digits is their negated
      value. */
  lemma PyIntOfSigned(s: string, digits: string, m: nat)
    requires |digits| > 0 && AllDigits(digits) && ParseDigits(digits) == m
    requires |s| > 0 && s[0] == '-' && s[1..] == digits
    ensures PyInt(s) == Some(-(m as int))
  {
    assert s[|s| - 1] == digits[|digits| - 1];
    StripUnpadded(s);
  }

  /** `f"{n:02d}"`: the decimal rendering of `n`, zero-padded to width two
      (the sign counts toward the width, so `-5` stays `"-5"`). */
  function Pad2(n: int): (s: string)
    ensures |s| >= 2
    ensures PyInt(s) == Some(n)
    ensures n >= 0 ==> AllDigits(s) && |s| == (if n < 10 then 2 else |NatToString(n)|)
    ensures n < 0 ==> s[0] == '-' && s[1..] == NatToString(-n)
  {
    if 0 <= n < 10 then
      var s := "0" + NatToString(n);
      StripUnpadded(s);
      ParseDigitsAppend("0", NatToString(n));
      ParseNatToString(n);
      s
    else
      PyIntOfIntToString(n);
      IntToString(n)
  }

  /** The index of the first occurrence of `c` in `s`. */
  function IndexOf(s: string, c: char): (i: nat)
    requires c in s
    ensures i < |s| && s[i] == c
    ensures forall j :: 0 <= j < i ==> s[j] != c
  {
    if s[0] == c then 0 else 1 + IndexOf(s[1..], c)
  }
}
