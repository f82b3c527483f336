/**
 * Python's numeric presentation on exact reals: `round(x, n)` (round half to
 * even), `int(x)` (truncation toward zero), `repr` of a value rounded to
 * eight decimals, and the `"%.2f"` format. Floating-point representation
 * error is not modelled: every value is the exact real the float stands for.
 */
module PyNumbers {
  import opened Wrappers
  import opened PyText

  /** `n` is `x` rounded to the nearest integer, ties going to the even one. */
  predicate IsRoundHalfEven(x: real, n: int)
  {
    && x - 0.5 <= n as real <= x + 0.5
    && ((n as real == x - 0.5 || n as real == x + 0.5) ==> n % 2 == 0)
  }

  function RoundHalfEven(x: real): (n: int)
    ensures IsRoundHalfEven(x, n)
  {
    var f := x.Floor;
    var frac := x - f as real;
    if frac < 0.5 then f
    else if frac > 0.5 then f + 1
    else if f % 2 == 0 then f
    else f + 1
  }

  /** Round-half-to-even picks exactly one integer. */
  lemma RoundHalfEvenUnique(x: real, n: int, m: int)
    requires IsRoundHalfEven(x, n) && IsRoundHalfEven(x, m)
    ensures n == m
  {
  }

  /** Rounding commutes with negation (this is what makes the tie rule
      symmetric, unlike rounding half up). */
  lemma RoundHalfEvenNeg(x: real)
    ensures RoundHalfEven(-x) == -RoundHalfEven(x)
  {
    var n := RoundHalfEven(x);
    assert IsRoundHalfEven(-x, -n);
    RoundHalfEvenUnique(-x, RoundHalfEven(-x), -n);
  }

  function Scale(places: nat): (p: real)
    ensures p >= 1.0
  {
    Pow10(places) as real
  }

  lemma DivMul(a: real, p: real)
    requires p > 0.0
    ensures (a / p) * p == a
  {
  }

  lemma SubMul(a: real, b: real, p: real)
    ensures (a - b) * p == a * p - b * p
  {
  }

  /** An integer rounds to itself. */
  lemma RoundHalfEvenInt(n: int)
    ensures RoundHalfEven(n as real) == n
  {
    RoundHalfEvenUnique(n as real, RoundHalfEven(n as real), n);
  }

  /** `x` is a whole number of units of `10^-places`. */
  predicate OnGrid(x: real, places: nat)
  {
    RoundHalfEven(x * Scale(places)) as real == x * Scale(places)
  }

  /** Python's `round(x, places)`. */
  function RoundTo(x: real, places: nat): (r: real)
    ensures r * Scale(places) == RoundHalfEven(x * Scale(places)) as real
    ensures OnGrid(r, places)
    ensures -0.5 <= (r - x) * Scale(places) <= 0.5
  {
    DivMul(RoundHalfEven(x * Scale(places)) as real, Scale(places));
    SubMul(RoundHalfEven(x * Scale(places)) as real / Scale(places), x, Scale(places));
    RoundHalfEvenInt(RoundHalfEven(x * Scale(places)));
    RoundHalfEven(x * Scale(places)) as real / Scale(places)
  }

  lemma NegMul(a: real, p: real)
    ensures -a * p == -(a * p)
  {
  }

  lemma MulCancel(a: real, b: real, p: real)
    requires p > 0.0 && a * p == b * p
    ensures a == b
  {
  }

  lemma NegStep(a: real, b: real, p: real, m: int, n: int)
    requires p > 0.0 && a * p == m as real && b * p == n as real && m == -n
    ensures a == -b
  {
    assert (a + b) * p == 0.0;
  }

  /** `round(-x, places) == -round(x, places)`. */
  lemma RoundToNeg(x: real, places: nat)
    ensures RoundTo(-x, places) == -RoundTo(x, places)
  {
    NegMul(x, Scale(places));
    RoundHalfEvenNeg(x * Scale(places));
    assert RoundHalfEven(-x * Scale(places)) == -RoundHalfEven(x * Scale(places));
    NegStep(RoundTo(-x, places), RoundTo(x, places), Scale(places),
            RoundHalfEven(-x * Scale(places)), RoundHalfEven(x * Scale(places)));
  }

  lemma MulNonNeg(a: real, p: real)
    requires a >= 0.0 && p > 0.0
    ensures a * p >= 0.0
  {
  }

  lemma DivNonNeg(a: real, p: real)
    requires a >= 0.0 && p > 0.0
    ensures a / p >= 0.0
  {
  }

  /** Rounding a non-negative value gives a non-negative value. */
  lemma RoundToNonNeg(x: real, places: nat)
    requires x >= 0.0
    ensures RoundTo(x, places) >= 0.0
  {
    RoundScaledNonNeg(x, places);
    DivNonNeg(RoundHalfEven(x * Scale(places)) as real, Scale(places));
  }

  lemma RoundScaledNonNeg(x: real, places: nat)
    requires x >= 0.0
    ensures RoundHalfEven(x * Scale(places)) >= 0
  {
    MulNonNeg(x, Scale(places));
  }

  /** A value already on the grid is left unchanged by rounding to it. */
  lemma RoundToOnGrid(x: real, places: nat)
    requires OnGrid(x, places)
    ensures RoundTo(x, places) == x
  {
    MulCancel(RoundTo(x, places), x, Scale(places));
  }

  /** Python's `int(x)` for a finite float: truncation toward zero. */
  function Trunc(x: real): (n: int)
    ensures x >= 0.0 ==> 0.0 <= n as real <= x < n as real + 1.0
    ensures x < 0.0 ==> n as real - 1.0 < x <= n as real <= 0.0
  {
    if x >= 0.0 then x.Floor else -((-x).Floor)
  }

  /** The last `k` decimal digits of `v`, zero-padded on the left. */
  function FractionDigits(v: nat, k: nat): (s: string)
    ensures |s| == k && AllDigits(s)
  {
    if k == 0 then "" else FractionDigits(v / 10, k - 1) + [DigitChar(v % 10)]
  }

  lemma {:induction false} ParseFractionDigits(v: nat, k: nat)
    requires v < Pow10(k)
    ensures ParseDigits(FractionDigits(v, k)) == v
  {
    if k > 0 {
      var s := FractionDigits(v, k);
      assert s[..|s| - 1] == FractionDigits(v / 10, k - 1);
      assert v / 10 < Pow10(k - 1);
      ParseFractionDigits(v / 10, k - 1);
    }
  }

  /** Drops the trailing zeros of a digit string. */
  function TrimZeros(t: string): (r: string)
    ensures |r| <= |t| && r == t[..|r|]
    ensures |r| > 0 ==> r[|r| - 1] != '0'
  {
    if |t| > 0 && t[|t| - 1] == '0' then TrimZeros(t[..|t| - 1]) else t
  }

  lemma IntMulAsReal(a: int, b: int)
    ensures (a * b) as real == a as real * b as real
  {
  }

  /** Reads a decimal literal `[-]digits.digits`, as written by `repr` and `%f`. */
  function ParseDecimal(s: string): Option<real>
  {
    if |s| > 0 && s[0] == '-' then
      match ParseUnsigned(s[1..])
      case Some(v) => Some(-v)
      case None => None
    else ParseUnsigned(s)
  }

  function ParseUnsigned(s: string): Option<real>
  {
    if '.' !in s then None
    else
      var i := IndexOf(s, '.');
      var whole, frac := s[..i], s[i + 1..];
      if |whole| > 0 && |frac| > 0 && AllDigits(whole) && AllDigits(frac) then
        Some(ParseDigits(whole) as real + ParseDigits(frac) as real / Scale(|frac|))
      else None
  }

  lemma IndexOfAfterDigits(ws: string, f: string)
    requires AllDigits(ws)
    ensures '.' in ws + "." + f
    ensures IndexOf(ws + "." + f, '.') == |ws|
  {
    var s := ws + "." + f;
    assert s[|ws|] == '.';
    assert forall k :: 0 <= k < |ws| ==> s[k] == ws[k] && s[k] != '.';
  }

  /** Digits, a point and digits read back as the whole part plus the
      fraction digits over their scale. */
  lemma ParseUnsignedParts(s: string, ws: string, f: string, w: nat)
    requires |ws| > 0 && AllDigits(ws) && ParseDigits(ws) == w
    requires |f| > 0 && AllDigits(f)
    requires s == ws + "." + f
    ensures ParseUnsigned(s) == Some(w as real + ParseDigits(f) as real / Scale(|f|))
  {
    IndexOfAfterDigits(ws, f);
    assert s[..|ws|] == ws && s[|ws| + 1..] == f;
  }

  lemma DivSplit(q: real, r: real, p: real)
    requires p > 0.0
    ensures (q * p + r) / p == q + r / p
  {
  }

  lemma CastDivMod(a: nat, p: nat)
    requires p > 0
    ensures a as real == (a / p) as real * p as real + (a % p) as real
  {
    IntMulAsReal(a / p, p);
  }

  /** Integer part plus fraction digits make up `a / 10^k`. */
  lemma WholePlusFraction(a: nat, k: nat)
    ensures (a / Pow10(k)) as real + (a % Pow10(k)) as real / Scale(k) == a as real / Scale(k)
  {
    CastDivMod(a, Pow10(k));
    DivSplit((a / Pow10(k)) as real, (a % Pow10(k)) as real, Scale(k));
  }

  /** `v`, negated when `negative` holds. */
  function Signed(negative: bool, v: real): real
  {
    if negative then -v else v
  }

  /** The text of a decimal literal: an optional minus sign before `unsigned`. */
  function SignedText(negative: bool, unsigned: string): string
  {
    if negative then "-" + unsigned else unsigned
  }

  /** A leading minus sign negates what follows it; without one the text
      reads back unchanged. */
  lemma SignReadsBack(negative: bool, unsigned: string, v: real)
    requires ParseUnsigned(unsigned) == Some(v)
    ensures ParseDecimal(SignedText(negative, unsigned)) == Some(Signed(negative, v))
  {
    if negative {
      assert ("-" + unsigned)[1..] == unsigned;
    } else {
      var i := IndexOf(unsigned, '.');
      assert unsigned[..i][0] == unsigned[0];
    }
  }

  /** The fraction digits `repr` prints: trailing zeros dropped, but at
      least one digit kept. */
  function ReprFraction(digits: string): (f: string)
    ensures |f| > 0
  {
    var trimmed := TrimZeros(digits);
    if trimmed == [] then "0" else trimmed
  }

  /** Python's `repr(round(x, 8))` for a value in the range `repr` writes
      without an exponent: sign, integer part, point, fraction digits. */
  function FloatRepr(x: real): (s: string)
    ensures |s| > 0 && '.' in s
    ensures s[0] == '-' <==> RoundHalfEven(x * Scale(8)) < 0
  {
    var n := RoundHalfEven(x * Scale(8));
    var a: nat := if n < 0 then -n else n;
    SignedText(n < 0, NatToString(a / Pow10(8)) + "." + ReprFraction(FractionDigits(a % Pow10(8), 8)))
  }

  /** The text of `f"{n / 100:.2f}"`: exactly two decimals. */
  function TwoPlacesText(n: nat): string
  {
    NatToString(n / Pow10(2)) + "." + FractionDigits(n % Pow10(2), 2)
  }

  lemma TwoPlacesReadsBack(n: nat)
    ensures ParseDecimal(TwoPlacesText(n)) == Some(n as real / Scale(2))
    ensures |TwoPlacesText(n)| >= 4 && TwoPlacesText(n)[|TwoPlacesText(n)| - 3] == '.'
  {
    var t, w := TwoPlacesText(n), n / Pow10(2);
    var ws, f := NatToString(w), FractionDigits(n % Pow10(2), 2);
    ParseNatToString(w);
    ParseFractionDigits(n % Pow10(2), 2);
    ParseUnsignedParts(t, ws, f, w);
    WholePlusFraction(n, 2);
    SignReadsBack(false, t, n as real / Scale(2));
  }

  /** The number of hundredths `f"{x:.2f}"` prints: `x * 100` rounded half
      to even. */
  function Hundredths(x: real): (n: nat)
    requires x >= 0.0
    ensures n as real / Scale(2) == RoundTo(x, 2)
  {
    RoundScaledNonNeg(x, 2);
    RoundToGrid(x, 2);
    RoundHalfEven(x * Scale(2))
  }

  /** Python's `f"{x:.2f}"` for a non-negative value. */
  function Fixed2(x: real): string
    requires x >= 0.0
  {
    TwoPlacesText(Hundredths(x))
  }

  /** The two-decimal text reads back as `round(x, 2)`, and it carries exactly
      two digits after the point. */
  lemma Fixed2ReadsBack(x: real)
    requires x >= 0.0
    ensures ParseDecimal(Fixed2(x)) == Some(RoundTo(x, 2))
    ensures |Fixed2(x)| >= 4 && Fixed2(x)[|Fixed2(x)| - 3] == '.'
  {
    TwoPlacesTextReadsBack(Fixed2(x), Hundredths(x), RoundTo(x, 2));
  }

  /** `round(x, places)` is the rounded count of grid steps, scaled back. */
  lemma RoundToGrid(x: real, places: nat)
    ensures RoundTo(x, places) == RoundHalfEven(x * Scale(places)) as real / Scale(places)
  {
  }

  /** `TwoPlacesReadsBack`, for a text and a value given by name. */
  lemma TwoPlacesTextReadsBack(t: string, n: nat, v: real)
    requires t == TwoPlacesText(n) && v == n as real / Scale(2)
    ensures ParseDecimal(t) == Some(v)
    ensures |t| >= 4 && t[|t| - 3] == '.'
  {
    TwoPlacesReadsBack(n);
  }
}
