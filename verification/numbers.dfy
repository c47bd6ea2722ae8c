/** Python's conversions between numbers and text, as far as the script uses
    them: `int(s)` on a reply token, `float(s)` on the threshold's numeric part,
    `int(x)` truncating a float, `str(n)`, and the `.1f` format of a size. */
module Numbers {
  import opened Wrappers
  import opened Text

  predicate IsDigit(c: char) {
    '0' <= c <= '9'
  }

  predicate AllDigits(s: string) {
    forall i :: 0 <= i < |s| ==> IsDigit(s[i])
  }

  function DigitValue(c: char): (d: nat)
    requires IsDigit(c)
    ensures d < 10
  {
    c as int - '0' as int
  }

  function DigitChar(d: nat): (c: char)
    requires d < 10
    ensures IsDigit(c) && DigitValue(c) == d
  {
    ('0' as int + d) as char
  }

  function Pow10(k: nat): (p: nat)
    ensures p >= 1
  {
    if k == 0 then 1 else 10 * Pow10(k - 1)
  }

  /** The value of a string of decimal digits, most significant digit first. */
  function DigitsValue(s: string): nat
    requires AllDigits(s)
  {
    if s == [] then 0 else DigitsValue(s[..|s| - 1]) * 10 + DigitValue(s[|s| - 1])
  }

  /** `str(n)` for a natural number: the canonical decimal digits of `n`,
      which read back as `n`. */
  function NatToString(n: nat): (s: string)
    ensures s != [] && AllDigits(s)
    ensures DigitsValue(s) == n
    ensures |s| > 1 ==> s[0] != '0'
  {
    if n < 10 then [DigitChar(n)]
    else
      var init := NatToString(n / 10);
      assert (init + [DigitChar(n % 10)])[..|init|] == init;
      init + [DigitChar(n % 10)]
  }

  /** A number below 10^k takes at most k digits. */
  lemma {:induction false} NatToStringLength(n: nat, k: nat)
    requires 1 <= k && n < Pow10(k)
    ensures |NatToString(n)| <= k
  {
    if n >= 10 {
      NatToStringLength(n / 10, k - 1);
    }
  }

  /** Splits an optional leading `+` or `-` off `t`; the flag says it was `-`. */
  function SplitSign(t: string): (r: (bool, string))
    ensures |r.1| <= |t| && r.1 == t[|t| - |r.1|..]
  {
    if t != [] && (t[0] == '+' || t[0] == '-') then (t[0] == '-', t[1..]) else (false, t)
  }

  /** Python's `int(s)` on a string: optional surrounding whitespace, an
      optional sign and one or more ASCII digits. `None` stands for the
      `ValueError` Python raises on anything else. */
  function ParseInt(s: string): (r: Option<int>)
    ensures r.Some? ==> exists t :: t != [] && AllDigits(t) && EndsWith(Strip(s), t)
  {
    var (negative, body) := SplitSign(Strip(s));
    if body != [] && AllDigits(body) then
      assert EndsWith(Strip(s), body);
      var n: int := DigitsValue(body);
      Some(if negative then -n else n)
    else None
  }

  /** The index of the first `c` in `s`, or `|s|` when there is none. */
  function IndexOf(s: string, c: char): (k: nat)
    ensures k <= |s|
    ensures forall i :: 0 <= i < k ==> s[i] != c
    ensures k < |s| ==> s[k] == c
  {
    if s == [] || s[0] == c then 0 else 1 + IndexOf(s[1..], c)
  }

  /** The value of an unsigned decimal numeral: digits with at most one
      decimal point and at least one digit (`5`, `5.`, `.5`, `1.25`). */
  function UnsignedDecimal(body: string): (r: Option<real>)
    ensures r.Some? ==> r.value >= 0.0
  {
    var k := IndexOf(body, '.');
    if k == |body| then
      if body != [] && AllDigits(body) then Some(DigitsValue(body) as real) else None
    else
      var whole, fraction := body[..k], body[k + 1..];
      if AllDigits(whole) && AllDigits(fraction) && |whole| + |fraction| > 0 then
        Some(DecimalValue(DigitsValue(whole), DigitsValue(fraction), |fraction|))
      else None
  }

  /** The value of a numeral with `whole` before the point and `fraction`,
      written with `digits` digits, after it. */
  function DecimalValue(whole: nat, fraction: nat, digits: nat): (v: real)
    ensures v >= whole as real
  {
    whole as real + fraction as real / Pow10(digits) as real
  }

  /** Python's `float(s)` on its decimal forms: optional surrounding
      whitespace, an optional sign and an unsigned decimal numeral. `None`
      stands for the `ValueError` Python raises. */
  function ParseDecimal(s: string): (r: Option<real>)
  {
    var (negative, body) := SplitSign(Strip(s));
    match UnsignedDecimal(body)
    case None => None
    case Some(v) => Some(if negative then -v else v)
  }

  /** `float` accepts the text exactly when the part after the sign is an
      unsigned numeral. */
  lemma ParseDecimalAccepts(s: string)
    ensures ParseDecimal(s).Some? <==> UnsignedDecimal(SplitSign(Strip(s)).1).Some?
  {
  }

  /** A string of digits reads the same under `float` as under `int`. */
  lemma ParseDecimalOfInteger(s: string)
    requires s != [] && AllDigits(s)
    ensures ParseDecimal(s) == Some(DigitsValue(s) as real)
    ensures ParseInt(s) == Some(DigitsValue(s))
  {
    assert IsDigit(s[0]) && IsDigit(s[|s| - 1]);
    StripUnpadded(s);
    assert SplitSign(s) == (false, s);
    assert IndexOf(s, '.') == |s|;
  }

  /** `s` holds at least one ASCII digit. */
  predicate HasDigit(s: string) {
    exists i :: 0 <= i < |s| && IsDigit(s[i])
  }

  /** An unsigned numeral has a digit in it. */
  lemma UnsignedDecimalHasDigit(body: string)
    requires UnsignedDecimal(body).Some?
    ensures HasDigit(body)
  {
    var k := IndexOf(body, '.');
    if k == |body| {
      assert IsDigit(body[0]);
    } else if k > 0 {
      assert body[..k][0] == body[0];
      assert IsDigit(body[0]);
    } else {
      assert body[k + 1..][0] == body[k + 1];
      assert IsDigit(body[k + 1]);
    }
  }

  /** `float` raises on text without a digit. */
  lemma ParseDecimalHasDigit(s: string)
    ensures ParseDecimal(s).Some? ==> HasDigit(s)
  {
    var stripped := Strip(s);
    if UnsignedDecimal(SplitSign(stripped).1).None? {
      return;
    }
    SignedNumeralHasDigit(stripped);
    var j :| 0 <= j < |stripped| && IsDigit(stripped[j]);
    StripSlice(s);
    var k := LeadingSpace(s);
    assert s[k..k + |stripped|][j] == s[k + j];
  }

  /** A signed numeral has a digit in it. */
  lemma SignedNumeralHasDigit(t: string)
    requires UnsignedDecimal(SplitSign(t).1).Some?
    ensures HasDigit(t)
  {
    var body := SplitSign(t).1;
    UnsignedDecimalHasDigit(body);
    var i :| 0 <= i < |body| && IsDigit(body[i]);
    var j := |t| - |body| + i;
    assert t[|t| - |body|..][i] == t[j];
    assert 0 <= j < |t| && IsDigit(t[j]);
  }

  /** The characters `float` accepts in a decimal numeral: digits, the
      point, a sign and the whitespace around it. */
  predicate IsNumeralChar(c: char) {
    IsDigit(c) || c == '.' || c == '+' || c == '-' || IsSpace(c)
  }

  /** The characters of an unsigned numeral are digits and the point. */
  lemma UnsignedDecimalChars(body: string, j: nat)
    requires UnsignedDecimal(body).Some? && j < |body|
    ensures IsDigit(body[j]) || body[j] == '.'
  {
    var k := IndexOf(body, '.');
    if k < |body| {
      if j < k {
        assert body[..k][j] == body[j];
      } else if j > k {
        assert body[k + 1..][j - k - 1] == body[j];
      }
    }
  }

  /** Text that `float` accepts is made of numeral characters only. */
  lemma NumeralChars(s: string, i: nat)
    requires i < |s|
    ensures ParseDecimal(s).Some? ==> IsNumeralChar(s[i])
  {
    var stripped := Strip(s);
    ParseDecimalAccepts(s);
    if UnsignedDecimal(SplitSign(stripped).1).None? {
      return;
    }
    var k := LeadingSpace(s);
    if i < k || i >= k + |stripped| {
      StripCutIsSpace(s, i);
    } else {
      StrippedChar(s, i);
      SignedNumeralChars(stripped, i - k);
    }
  }

  /** A character the strip cuts away is whitespace. */
  lemma StripCutIsSpace(s: string, i: nat)
    requires i < |s|
    requires i < LeadingSpace(s) || i >= LeadingSpace(s) + |Strip(s)|
    ensures IsSpace(s[i])
  {
    var k := LeadingSpace(s);
    var n := |Strip(s)|;
    StripCuts(s);
    if i < k {
      assert s[..k][i] == s[i];
    } else {
      assert s[k + n..][i - k - n] == s[i];
    }
  }

  /** A character the strip keeps sits in the strip at its offset from the
      leading whitespace. */
  lemma StrippedChar(s: string, i: nat)
    requires LeadingSpace(s) <= i < LeadingSpace(s) + |Strip(s)|
    ensures Strip(s)[i - LeadingSpace(s)] == s[i]
  {
    StripSlice(s);
  }

  /** A signed numeral is made of numeral characters. */
  lemma SignedNumeralChars(t: string, j: nat)
    requires j < |t| && UnsignedDecimal(SplitSign(t).1).Some?
    ensures IsNumeralChar(t[j])
  {
    var body := SplitSign(t).1;
    var cut := |t| - |body|;
    if j >= cut {
      assert body[j - cut] == t[j];
      UnsignedDecimalChars(body, j - cut);
    }
  }

  /** `float` raises on text holding any other character, a letter say. */
  lemma NonNumeralRejected(s: string, i: nat)
    requires i < |s| && !IsNumeralChar(s[i])
    ensures ParseDecimal(s) == None
  {
    NumeralChars(s, i);
  }

  /** The least magnitude that `float` rounds to infinity: 2^1024 - 2^970,
      halfway between the largest double, (2 - 2^-52) * 2^1023, and 2^1024,
      where rounding half to even goes up. */
  const FloatLimit: int := 179769313486231580793728971405303415079934132710037826936173778980444968292764750946649017977587207096330286416692887910946555547851940402630657488671505820681908902000708383676273854845817711531764475730270069855571366959622842914819860834936475292719074168444365510704342711559699508093042880177904174497792

  /** `x` is held as a finite double: `float` does not round it to an
      infinity, on which `int()` raises `OverflowError`. */
  predicate FloatFinite(x: real) {
    -(FloatLimit as real) < x < FloatLimit as real
  }

  /** Python's `int(x)` on a float: truncation toward zero. */
  function Truncate(x: real): (n: int)
  {
    if x >= 0.0 then x.Floor else -((-x).Floor)
  }

  /** Truncation moves toward zero by less than one. */
  lemma TruncateTowardZero(x: real)
    ensures x >= 0.0 ==> 0.0 <= Truncate(x) as real <= x < Truncate(x) as real + 1.0
    ensures x < 0.0 ==> Truncate(x) as real - 1.0 < x <= Truncate(x) as real <= 0.0
  {
  }

  /** Rounds to the nearest integer, ties to the even neighbour. */
  function RoundHalfEven(x: real): (n: int)
    ensures x - 0.5 <= n as real <= x + 0.5
    ensures (n as real == x - 0.5 || n as real == x + 0.5) ==> n % 2 == 0
    ensures x >= 0.0 ==> n >= 0
  {
    var f := x.Floor;
    var d := x - f as real;
    if d < 0.5 then f
    else if d > 0.5 then f + 1
    else if f % 2 == 0 then f
    else f + 1
  }

  /** The number of tenths `f"{v:.1f}"` shows, sign apart. */
  function Tenths(v: real): (t: nat)
  {
    RoundHalfEven(if v < 0.0 then -v * 10.0 else v * 10.0)
  }

  /** The value `f"{v:.1f}"` denotes. */
  function RoundedToTenths(v: real): (x: real)
    ensures v - 0.05 <= x <= v + 0.05
  {
    if v < 0.0 then -(Tenths(v) as real / 10.0) else Tenths(v) as real / 10.0
  }

  /** `f"{v:.1f}"`: an optional minus sign, the whole tenths, a point and
      one digit, rounding the exact value half to even. */
  function FormatTenths(v: real): (s: string)
  {
    (if v < 0.0 then "-" else "") + TenthsNumeral(Tenths(v))
  }

  /** `t` tenths written as whole units, a point and one digit. */
  function TenthsNumeral(t: nat): (s: string)
  {
    NatToString(t / 10) + "." + [DigitChar(t % 10)]
  }

  lemma DigitsValueOfDigit(c: char)
    requires IsDigit(c)
    ensures DigitsValue([c]) == DigitValue(c)
  {
    assert [c][..0] == [];
  }

  /** A prefix without `c` shifts the first `c` by its length. */
  lemma {:induction false} IndexOfAfter(a: string, b: string, c: char)
    requires forall i :: 0 <= i < |a| ==> a[i] != c
    ensures IndexOf(a + b, c) == |a| + IndexOf(b, c)
  {
    if a == [] {
      assert a + b == b;
    } else {
      assert (a + b)[1..] == a[1..] + b;
      IndexOfAfter(a[1..], b, c);
    }
  }

  /** A numeral with a point and one fractional digit has the value its
      digits say. */
  lemma OneDecimalValue(whole: string, digit: char)
    requires whole != [] && AllDigits(whole) && IsDigit(digit)
    ensures UnsignedDecimal(whole + "." + [digit]) ==
      Some(DigitsValue(whole) as real + DigitValue(digit) as real / 10.0)
  {
    var body := whole + "." + [digit];
    PointSplits(whole, digit);
    DigitsValueOfDigit(digit);
    assert AllDigits([digit]);
    assert UnsignedDecimal(body) == Some(DecimalValue(DigitsValue(whole), DigitValue(digit), 1));
    OneFractionDigit(DigitsValue(whole), DigitValue(digit));
  }

  /** One digit after the point counts in tenths. */
  lemma OneFractionDigit(whole: nat, fraction: nat)
    ensures DecimalValue(whole, fraction, 1) == whole as real + fraction as real / 10.0
  {
    assert Pow10(1) == 10;
  }

  /** The first point of `whole.d`, for digits `whole`, separates `whole`
      from `d`. */
  lemma PointSplits(whole: string, digit: char)
    requires AllDigits(whole)
    ensures var body := whole + "." + [digit]; var k := IndexOf(body, '.');
      k == |whole| && body[..k] == whole && body[k + 1..] == [digit]
  {
    var body := whole + "." + [digit];
    assert body == whole + ("." + [digit]);
    IndexOfAfter(whole, "." + [digit], '.');
    assert body[..|whole|] == whole;
    assert body[|whole| + 1..] == [digit];
  }

  /** A numeral that starts and ends with a digit, with or without a minus
      sign in front, is its own strip, and its sign comes off whole. */
  lemma SignedNumeralParts(negative: bool, body: string)
    requires body != [] && IsDigit(body[0]) && IsDigit(body[|body| - 1])
    ensures SplitSign(Strip((if negative then "-" else "") + body)) == (negative, body)
  {
    if negative {
      NegativeNumeralParts(body);
    } else {
      assert "" + body == body;
      StripUnpadded(body);
      assert body[0] != '+' && body[0] != '-';
    }
  }

  lemma NegativeNumeralParts(body: string)
    requires body != [] && IsDigit(body[0]) && IsDigit(body[|body| - 1])
    ensures SplitSign(Strip("-" + body)) == (true, body)
  {
    var s := "-" + body;
    assert s[|s| - 1] == body[|body| - 1];
    StripUnpadded(s);
    assert s[1..] == body;
  }

  /** The numeral of `t` tenths starts and ends with a digit. */
  lemma TenthsNumeralEnds(t: nat)
    ensures var s := TenthsNumeral(t);
      s != [] && IsDigit(s[0]) && IsDigit(s[|s| - 1])
  {
    var whole := NatToString(t / 10);
    assert TenthsNumeral(t)[0] == whole[0];
  }

  /** The numeral of `t` tenths reads back as `t / 10`. */
  lemma TenthsNumeralValue(t: nat)
    ensures UnsignedDecimal(TenthsNumeral(t)) == Some(t as real / 10.0)
  {
    OneDecimalValue(NatToString(t / 10), DigitChar(t % 10));
    TenthsSplit(t);
    var r := UnsignedDecimal(TenthsNumeral(t));
    assert r.Some? && r.value == t as real / 10.0;
  }

  /** Whole units and the tenths digit make up the tenths. */
  lemma TenthsSplit(t: nat)
    ensures (t / 10) as real + (t % 10) as real / 10.0 == t as real / 10.0
  {
  }

  /** What `.1f` writes, `float` reads back as the rounded value, which is
      within 0.05 of the value formatted. */
  lemma FormatTenthsRoundTrip(v: real)
    ensures ParseDecimal(FormatTenths(v)) == Some(RoundedToTenths(v))
  {
    var t := Tenths(v);
    TenthsNumeralEnds(t);
    SignedNumeralParts(v < 0.0, TenthsNumeral(t));
    TenthsNumeralValue(t);
    var r := ParseDecimal(FormatTenths(v));
    assert r.Some? && r.value == RoundedToTenths(v);
  }
}
