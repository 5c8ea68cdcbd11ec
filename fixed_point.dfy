/** Fixed-point arithmetic that replaces the tab's floating-point values.
    A progress fraction is an integer count of ten-thousandths (what
    `round(x, 4)` keeps), a duration is a whole number of seconds or of
    microseconds (what Python's `timedelta` keeps). */
module FixedPoint {
  import opened Wrappers
  import Text

  /** Ten-thousandths in one whole: progress 1.0 is 10000. */
  const Unit: nat := 10000
  const MicrosPerSecond: nat := 1000000
  const SecondsPerDay: nat := 86400

  function Abs(x: int): (r: int)
    ensures r >= 0 && (r == x || r == -x)
  {
    if x < 0 then -x else x
  }

  function Pow10(k: nat): (r: int)
    ensures r >= 1
  {
    if k == 0 then 1 else 10 * Pow10(k - 1)
  }

  // ---------------------------------------------------------------------
  // Rounding

  /** Python's rounding of the rational n / d to an integer: to the nearest
      integer, and on a tie to the even one (`round` on floats and
      `timedelta` arithmetic both round this way). */
  function RoundHalfEven(n: int, d: int): (q: int)
    requires d != 0
    ensures -Abs(d) <= 2 * (q * d - n) <= Abs(d)
    ensures (2 * (q * d - n) == Abs(d) || 2 * (q * d - n) == -Abs(d)) ==> q % 2 == 0
  {
    if d > 0 then RoundPositive(n, d)
    else
      var q := RoundPositive(-n, -d);
      NegateProduct(q, d);
      q
  }

  /** Rounding half-to-even for a positive denominator. */
  function RoundPositive(n: int, d: int): (q: int)
    requires d > 0
    ensures -d <= 2 * (q * d - n) <= d
    ensures (2 * (q * d - n) == d || 2 * (q * d - n) == -d) ==> q % 2 == 0
  {
    var fl := n / d;
    var rem := n % d;
    DivMod(n, d);
    if 2 * rem < d || (2 * rem == d && fl % 2 == 0) then
      fl
    else
      MulSucc(fl, d);
      fl + 1
  }

  lemma DivMod(n: int, d: int)
    requires d > 0
    ensures n == (n / d) * d + n % d && 0 <= n % d < d
  {
  }

  lemma MulSucc(x: int, d: int)
    ensures (x + 1) * d == x * d + d
  {
  }

  lemma NegateProduct(q: int, d: int)
    ensures q * d == -(q * (-d))
  {
  }

  lemma MulAbs(k: int, d: int)
    ensures Abs(k * d) == Abs(k) * Abs(d)
  {
    if k < 0 && d < 0 { assert k * d == (-k) * (-d); }
    else if k < 0 { assert -(k * d) == (-k) * d; }
    else if d < 0 { assert -(k * d) == k * (-d); }
  }

  lemma MulAtLeastTwice(x: int, y: int)
    requires x >= 2 && y >= 1
    ensures x * y >= 2 * y
  {
    assert x * y == 2 * y + (x - 2) * y;
  }

  lemma ProductDifference(q: int, r: int, d: int, n: int)
    ensures (q - r) * d == (q * d - n) - (r * d - n)
  {
  }

  /** The rounding is determined by its two properties: any integer within half
      of n / d, that is even on a tie, is the rounded value. */
  lemma RoundHalfEvenUnique(n: int, d: int, q: int)
    requires d != 0
    requires -Abs(d) <= 2 * (q * d - n) <= Abs(d)
    requires (2 * (q * d - n) == Abs(d) || 2 * (q * d - n) == -Abs(d)) ==> q % 2 == 0
    ensures RoundHalfEven(n, d) == q
  {
    var r := RoundHalfEven(n, d);
    var a := Abs(d);
    var e1 := q * d - n;
    var e2 := r * d - n;
    ProductDifference(q, r, d, n);
    MulAbs(q - r, d);
    assert Abs(q - r) * a == Abs(e1 - e2) <= a;
    if Abs(q - r) >= 2 {
      MulAtLeastTwice(Abs(q - r), a);
    }
  }

  // ---------------------------------------------------------------------
  // Decimal literals

  predicate IsDigit(c: char) { '0' <= c <= '9' }

  predicate AllDigits(s: string) { forall k :: 0 <= k < |s| ==> IsDigit(s[k]) }

  /** The number a string of decimal digits denotes. */
  function DigitsValue(s: string): nat
    requires AllDigits(s)
  {
    if |s| == 0 then 0
    else
      assert IsDigit(s[|s| - 1]);
      DigitsValue(s[..|s| - 1]) * 10 + (s[|s| - 1] as int - '0' as int)
  }

  /** A decimal literal: a sign, a string of digits, and the number of digits
      after the point; its value is (-1 if negative) * digits / 10^scale. */
  datatype Decimal = Decimal(negative: bool, digits: nat, scale: nat)
  {
    function Numerator(): int { if negative then -(digits as int) else digits }
  }

  /** The text after an optional leading sign. */
  function LiteralBody(s: string): string
  {
    if |s| > 0 && (s[0] == '-' || s[0] == '+') then s[1..] else s
  }

  predicate LiteralChars(b: string) { forall k :: 0 <= k < |b| ==> IsDigit(b[k]) || b[k] == '.' }

  predicate AtMostOnePoint(b: string) { forall i, j :: 0 <= i < j < |b| && b[i] == '.' ==> b[j] != '.' }

  predicate HasDigit(b: string) { exists k :: 0 <= k < |b| && IsDigit(b[k]) }

  /** The literals the model reads as numbers: an optional sign, then digits
      with at most one decimal point, and at least one digit ("5", "-0.25",
      ".5", "5."). */
  predicate IsDecimalLiteral(s: string)
  {
    var b := LiteralBody(s);
    LiteralChars(b) && AtMostOnePoint(b) && HasDigit(b)
  }

  /** The part of Python's `float(s)` the tab meets in bitcoind's output.
      It is defined exactly on decimal literals, and everything else ("",
      "-", ".", "1.2.3") is a `ValueError`. The digits are those of
      the literal without its point, and the scale is the number of digits
      after the point. */
  function ParseDecimal(s: string): (r: Option<Decimal>)
    ensures r.Some? <==> IsDecimalLiteral(s)
    ensures r.Some? ==> |s| >= 1 && r.value.negative == (s[0] == '-')
    ensures r.Some? && '.' !in LiteralBody(s) ==>
      AllDigits(LiteralBody(s)) && r.value.digits == DigitsValue(LiteralBody(s)) && r.value.scale == 0
    ensures r.Some? ==> forall i :: 0 <= i < |LiteralBody(s)| && LiteralBody(s)[i] == '.' ==>
      var b := LiteralBody(s);
      AllDigits(b[..i] + b[i + 1..]) && r.value.digits == DigitsValue(b[..i] + b[i + 1..]) &&
      r.value.scale == |b| - i - 1
  {
    ParseUnsigned(|s| > 0 && s[0] == '-', LiteralBody(s))
  }

  /** The literal after its sign has been taken off. */
  function ParseUnsigned(negative: bool, body: string): (r: Option<Decimal>)
    ensures r.Some? <==> LiteralChars(body) && AtMostOnePoint(body) && HasDigit(body)
    ensures r.Some? ==> |body| >= 1 && r.value.negative == negative
    ensures r.Some? && '.' !in body ==>
      AllDigits(body) && r.value.digits == DigitsValue(body) && r.value.scale == 0
    ensures r.Some? ==> forall i :: 0 <= i < |body| && body[i] == '.' ==>
      AllDigits(body[..i] + body[i + 1..]) && r.value.digits == DigitsValue(body[..i] + body[i + 1..]) &&
      r.value.scale == |body| - i - 1
  {
    var parts := Text.Split(body, '.');
    BodyShape(body);
    if |parts| == 1 then
      if |body| > 0 && AllDigits(body) then Some(Decimal(negative, DigitsValue(body), 0))
      else None
    else if |parts| == 2 then
      var whole := parts[0];
      var fraction := parts[1];
      if |whole| + |fraction| > 0 && AllDigits(whole + fraction) then
        PointDigits(body, whole, fraction);
        Some(Decimal(negative, DigitsValue(whole + fraction), |fraction|))
      else None
    else None
  }

  /** Removing the only point of "whole.fraction" leaves the digits of both
      parts, and the fraction is what follows the point. */
  lemma PointDigits(b: string, whole: string, fraction: string)
    requires b == whole + "." + fraction && '.' !in whole && '.' !in fraction
    requires AllDigits(whole + fraction)
    ensures '.' in b
    ensures forall i :: 0 <= i < |b| && b[i] == '.' ==>
      AllDigits(b[..i] + b[i + 1..]) && DigitsValue(b[..i] + b[i + 1..]) == DigitsValue(whole + fraction) &&
      |b| - i - 1 == |fraction|
  {
    OnePointLiteral(whole, fraction);
    assert b[|whole|] == '.';
  }

  /** The grammar of an unsigned literal in terms of its split on '.': it is
      one non-empty piece of digits, or two pieces around its only point
      whose digits are not both empty. */
  lemma BodyShape(b: string)
    ensures var parts := Text.Split(b, '.');
      (LiteralChars(b) && AtMostOnePoint(b) && HasDigit(b) <==>
        (|parts| == 1 && |b| > 0 && AllDigits(b)) ||
        (|parts| == 2 && |parts[0]| + |parts[1]| > 0 && AllDigits(parts[0] + parts[1]))) &&
      (|parts| == 1 ==> '.' !in b) &&
      (|parts| == 2 ==> b == parts[0] + "." + parts[1] && '.' !in parts[0] && '.' !in parts[1])
  {
    var parts := Text.Split(b, '.');
    PointSplit(b);
    if |parts| == 1 {
      NoPointLiteral(b);
    } else if |parts| == 2 {
      OnePointLiteral(parts[0], parts[1]);
    }
  }

  /** How the pieces of a split on '.' lie in the text: one piece is a text
      without a point, two pieces are the parts around its only point, and
      three or more pieces mean at least two points. */
  lemma PointSplit(b: string)
    ensures var parts := Text.Split(b, '.');
      (|parts| == 1 ==> parts[0] == b) &&
      (|parts| == 2 ==> b == parts[0] + "." + parts[1]) &&
      (|parts| >= 3 ==> !AtMostOnePoint(b))
  {
    var parts := Text.Split(b, '.');
    Text.JoinSplit(b, '.');
    if |parts| >= 3 {
      var rest := Text.Join(parts[2..], '.');
      assert Text.Join(parts[1..], '.') == parts[1] + "." + rest by {
        assert parts[1..][1..] == parts[2..];
      }
      assert b == parts[0] + "." + (parts[1] + "." + rest);
      assert b[|parts[0]|] == '.';
      assert b[|parts[0]| + 1 + |parts[1]|] == '.';
    }
  }

  /** Without a point, a literal is a non-empty string of digits. */
  lemma NoPointLiteral(b: string)
    requires '.' !in b
    ensures LiteralChars(b) && AtMostOnePoint(b) && HasDigit(b) <==> |b| > 0 && AllDigits(b)
  {
    if |b| > 0 && AllDigits(b) {
      assert IsDigit(b[0]);
    }
  }

  /** Around its only point, a literal has digits and at least one of them. */
  lemma OnePointLiteral(w: string, f: string)
    requires '.' !in w && '.' !in f
    ensures var b := w + "." + f;
      (LiteralChars(b) && AtMostOnePoint(b) && HasDigit(b) <==> |w| + |f| > 0 && AllDigits(w + f)) &&
      (forall i :: 0 <= i < |b| && b[i] == '.' ==> i == |w| && b[..i] + b[i + 1..] == w + f && |b| - i - 1 == |f|)
  {
    var b := w + "." + f;
    OnePointIndex(w, f);
    if LiteralChars(b) {
      forall k | 0 <= k < |w + f| ensures IsDigit((w + f)[k]) {
        if k < |w| {
          assert (w + f)[k] == b[k];
        } else {
          assert (w + f)[k] == b[k + 1];
        }
      }
    }
    if AllDigits(w + f) {
      forall k | 0 <= k < |b| && k != |w| ensures IsDigit(b[k]) {
        if k < |w| {
          assert (w + f)[k] == b[k];
        } else {
          assert (w + f)[k - 1] == b[k];
        }
      }
      if |w| > 0 { assert IsDigit(b[0]); } else if |f| > 0 { assert IsDigit(b[1]); }
    }
    if HasDigit(b) {
      var k :| 0 <= k < |b| && IsDigit(b[k]);
      assert k != |w|;
    }
  }

  /** The only point of "w.f" is at index |w|, so removing it gives w + f. */
  lemma OnePointIndex(w: string, f: string)
    requires '.' !in w && '.' !in f
    ensures var b := w + "." + f;
      b[|w|] == '.' && b[..|w|] + b[|w| + 1..] == w + f &&
      forall i :: 0 <= i < |b| && b[i] == '.' ==> i == |w|
  {
    var b := w + "." + f;
    assert b[..|w|] == w && b[|w| + 1..] == f;
    assert forall i :: 0 <= i < |w| ==> b[i] == w[i] && w[i] in w;
    assert forall i :: |w| < i < |b| ==> b[i] == f[i - |w| - 1] && f[i - |w| - 1] in f;
  }

  /** `round(float(s), 4)` in ten-thousandths: the value of the literal,
      rounded half-to-even to four decimal places. */
  function ParseProgress(s: string): (r: Option<int>)
    ensures r.Some? <==> ParseDecimal(s).Some?
    ensures r.Some? <==> IsDecimalLiteral(s)
    ensures r.Some? ==>
      var x := ParseDecimal(s).value;
      -Pow10(x.scale) <= 2 * (r.value * Pow10(x.scale) - x.Numerator() * Unit) <= Pow10(x.scale)
    ensures r.Some? ==>
      var x := ParseDecimal(s).value;
      var e := 2 * (r.value * Pow10(x.scale) - x.Numerator() * Unit);
      (e == Pow10(x.scale) || e == -Pow10(x.scale)) ==> r.value % 2 == 0
  {
    match ParseDecimal(s)
    case None => None
    case Some(x) => Some(RoundHalfEven(x.Numerator() * Unit, Pow10(x.scale)))
  }

  // ---------------------------------------------------------------------
  // Percentages

  /** Python's `round(p * 100)` for progress p given in ten-thousandths. */
  function RoundedPercent(p: int): (q: int)
    ensures -100 <= 2 * (q * 100 - p) <= 100
    ensures (2 * (q * 100 - p) == 100 || 2 * (q * 100 - p) == -100) ==> q % 2 == 0
  {
    RoundHalfEven(p, 100)
  }

  /** The percentage rounds to 100 exactly for progress in [0.995, 1.005]:
      both ends are ties that round to the even 100. */
  lemma RoundsToHundred(p: int)
    ensures RoundedPercent(p) == 100 <==> 9950 <= p <= 10050
  {
    if 9950 <= p <= 10050 {
      RoundHalfEvenUnique(p, 100, 100);
    }
  }

  /** The digits of a natural number, without leading zeros ("0" for zero). */
  function NatDigits(n: nat): (s: string)
    ensures |s| >= 1 && AllDigits(s)
    ensures DigitsValue(s) == n
    ensures |s| == 1 || s[0] != '0'
  {
    var last := ['0' + (n % 10) as char];
    if n < 10 then
      assert DigitsValue(last) == DigitsValue(last[..0]) * 10 + n;
      last
    else
      var high := NatDigits(n / 10);
      var s := high + last;
      assert s[..|s| - 1] == high;
      assert |high| == 1 ==> DigitsValue(high) == DigitsValue(high[..0]) * 10 + (high[0] as int - '0' as int);
      assert s[0] == high[0];
      s
  }

  /** Python's `f'{p * 100:.2f}'` for progress p in ten-thousandths: the
      percentage with two decimals, e.g. 5000 gives "50.00" and -5 gives
      "-0.05". */
  function FormatPercent(p: int): (r: string)
    ensures |r| >= 4 && (r[0] == '-' <==> p < 0)
    ensures var body := if p < 0 then r[1..] else r;
      |body| >= 4 && body[|body| - 3] == '.' &&
      AllDigits(body[..|body| - 3]) && AllDigits(body[|body| - 2..]) &&
      (|body| == 4 || body[0] != '0')
  {
    var a := Abs(p);
    var whole := NatDigits(a / 100);
    var fraction := Hundredths(a % 100);
    PercentShape(p < 0, whole, fraction);
    (if p < 0 then "-" else "") + (whole + "." + fraction)
  }

  /** "whole.fraction" with two decimals, after an optional '-'. */
  lemma PercentShape(negative: bool, whole: string, fraction: string)
    requires |whole| >= 1 && AllDigits(whole) && (|whole| == 1 || whole[0] != '0')
    requires |fraction| == 2 && AllDigits(fraction)
    ensures var r := (if negative then "-" else "") + (whole + "." + fraction);
      |r| >= 4 && (r[0] == '-' <==> negative) &&
      var body := if negative then r[1..] else r;
      |body| >= 4 && body[|body| - 3] == '.' &&
      AllDigits(body[..|body| - 3]) && AllDigits(body[|body| - 2..]) &&
      (|body| == 4 || body[0] != '0')
  {
    var body := whole + "." + fraction;
    var r := (if negative then "-" else "") + body;
    assert body[..|body| - 3] == whole && body[|body| - 2..] == fraction;
    assert body[0] == whole[0] && IsDigit(whole[0]);
    if negative {
      assert r[1..] == body;
    } else {
      assert r == body;
    }
  }

  /** Appending digits shifts the value left by their number and adds their value. */
  lemma {:induction false} DigitsValueAppend(a: string, b: string)
    requires AllDigits(a) && AllDigits(b)
    ensures AllDigits(a + b)
    ensures DigitsValue(a + b) == DigitsValue(a) * Pow10(|b|) + DigitsValue(b)
    decreases |b|
  {
    AllDigitsAppend(a, b);
    if |b| == 0 {
      assert a + b == a;
    } else {
      var b' := b[..|b| - 1];
      var c := b[|b| - 1];
      var v := c as int - '0' as int;
      AllDigitsAppend(a, b');
      DigitsValueAppend(a, b');
      assert (a + b)[..|a + b| - 1] == a + b';
      assert DigitsValue(a + b) == DigitsValue(a + b') * 10 + v;
      assert DigitsValue(b) == DigitsValue(b') * 10 + v;
      ShiftTen(DigitsValue(a), Pow10(|b'|), DigitsValue(b'), v);
    }
  }

  lemma ShiftTen(x: int, p: int, y: int, v: int)
    ensures (x * p + y) * 10 + v == x * (10 * p) + (y * 10 + v)
  {
  }

  lemma AllDigitsAppend(a: string, b: string)
    requires AllDigits(a) && AllDigits(b)
    ensures AllDigits(a + b)
  {
    forall k | 0 <= k < |a + b| ensures IsDigit((a + b)[k]) {
      if k >= |a| { assert (a + b)[k] == b[k - |a|]; }
    }
  }

  /** Reading the percentage text back as a decimal literal gives exactly
      p / 100, that is the percentage of progress p. */
  lemma FormatPercentRoundTrip(p: int)
    ensures ParseDecimal(FormatPercent(p)) == Some(Decimal(p < 0, Abs(p), 2))
  {
    var a := Abs(p);
    var whole := NatDigits(a / 100);
    var fraction := Hundredths(a % 100);
    PercentDigits(a);
    BodyRoundTrip(whole, fraction);
    SignedBody(p < 0, whole, fraction);
  }

  /** The digits of the percentage, without its point, denote the progress. */
  lemma PercentDigits(a: nat)
    ensures var whole := NatDigits(a / 100);
      var fraction := Hundredths(a % 100);
      |fraction| == 2 && AllDigits(fraction) && AllDigits(whole + fraction) &&
      DigitsValue(whole + fraction) == a
  {
    var whole := NatDigits(a / 100);
    var fraction := Hundredths(a % 100);
    DigitsValueAppend(whole, fraction);
    assert Pow10(2) == 100;
    DivMod(a, 100);
  }

  /** A literal "whole.fraction", with or without a leading '-', parses to
      its digits, its scale and its sign. */
  lemma SignedBody(negative: bool, whole: string, fraction: string)
    requires |whole| >= 1 && AllDigits(whole) && AllDigits(fraction) && AllDigits(whole + fraction)
    requires var body := whole + "." + fraction;
      body[0] != '-' && body[0] != '+' && Text.Split(body, '.') == [whole, fraction]
    ensures ParseDecimal((if negative then "-" else "") + (whole + "." + fraction)) ==
      Some(Decimal(negative, DigitsValue(whole + fraction), |fraction|))
  {
    var body := whole + "." + fraction;
    SignPrefix(negative, body);
    assert ParseDecimal((if negative then "-" else "") + body) == ParseUnsigned(negative, body);
  }

  /** An optional '-' before an unsigned body is the sign the parser strips. */
  lemma SignPrefix(negative: bool, body: string)
    requires |body| >= 1 && body[0] != '-' && body[0] != '+'
    ensures var text := (if negative then "-" else "") + body;
      LiteralBody(text) == body && (|text| > 0 && text[0] == '-') == negative
  {
    var text := (if negative then "-" else "") + body;
    if negative {
      assert text[0] == '-' && text[1..] == body;
    } else {
      assert text == body;
    }
  }

  /** The two decimals of a percentage: they denote its hundredths. */
  function Hundredths(cents: nat): (f: string)
    requires cents < 100
    ensures |f| == 2 && AllDigits(f) && DigitsValue(f) == cents
  {
    DigitsValueAppend(NatDigits(cents / 10), NatDigits(cents % 10));
    NatDigits(cents / 10) + NatDigits(cents % 10)
  }

  /** An unsigned literal "whole.fraction" parses to its digits and scale. */
  lemma BodyRoundTrip(whole: string, fraction: string)
    requires |whole| >= 1 && AllDigits(whole) && AllDigits(fraction)
    ensures var body := whole + "." + fraction;
      body[0] != '-' && body[0] != '+' &&
      Text.Split(body, '.') == [whole, fraction]
  {
    assert IsDigit(whole[0]);
    assert '.' !in whole && '.' !in fraction by {
      assert forall k :: 0 <= k < |whole| ==> IsDigit(whole[k]);
      assert forall k :: 0 <= k < |fraction| ==> IsDigit(fraction[k]);
    }
    assert Text.Join([whole, fraction], '.') == whole + "." + fraction;
    Text.SplitJoin([whole, fraction], '.');
  }

  // ---------------------------------------------------------------------
  // Time left

  /** Python's `((1 - new) / (new - old)) * timedelta(seconds = dt)` in
      microseconds: the linear extrapolation of the time left, rounded
      half-to-even to a whole microsecond as `timedelta` arithmetic does. */
  function DurationLeft(newProgress: int, oldProgress: int, dt: int): (micros: int)
    requires newProgress != oldProgress
    ensures var change := newProgress - oldProgress;
      -Abs(change) <= 2 * (micros * change - (Unit - newProgress) * dt * MicrosPerSecond) <= Abs(change)
  {
    RoundHalfEven((Unit - newProgress) * dt * MicrosPerSecond, newProgress - oldProgress)
  }

  /** The most days a `timedelta` holds, either way. */
  const MaxDays: nat := 999999999

  /** A duration in microseconds that a `timedelta` can hold: its whole days,
      rounded down as Python normalises them, lie in [-MaxDays, MaxDays].
      Anything longer raises `OverflowError`. */
  predicate FitsTimedelta(micros: int)
  {
    -(MaxDays as int) <= micros / (SecondsPerDay * MicrosPerSecond) <= MaxDays
  }

  /** The `.seconds` component of that duration: Python normalises a
      `timedelta` to days, seconds in [0, 86400) and microseconds, so this is
      the number of whole seconds of the duration, less its whole days. */
  function TimeLeft(newProgress: int, oldProgress: int, dt: int): (secs: int)
    requires newProgress != oldProgress
    ensures 0 <= secs < SecondsPerDay
    ensures (DurationLeft(newProgress, oldProgress, dt) / MicrosPerSecond - secs) % SecondsPerDay == 0
  {
    (DurationLeft(newProgress, oldProgress, dt) / MicrosPerSecond) % SecondsPerDay
  }
}
