/** The size-threshold parser, `parse_min_size`: a number with an optional
    binary-multiple suffix, in any letter case, with whitespace around it. */
module MinSize {
  import opened Wrappers
  import opened Text
  import opened Numbers

  /** The suffix table, in the dictionary's iteration order: K, M and G
      stand for 1024, 1024^2 and 1024^3, with or without `B` or `IB`. */
  const Suffixes: seq<(string, nat)> := [
    ("K", 1024), ("KB", 1024), ("KIB", 1024),
    ("M", 1048576), ("MB", 1048576), ("MIB", 1048576),
    ("G", 1073741824), ("GB", 1073741824), ("GIB", 1073741824)
  ]

  /** The first entry of `table` whose suffix ends `upper`, as the `for`
      loop over the dictionary finds it. */
  function FirstSuffix(upper: string, table: seq<(string, nat)>): (r: Option<(string, nat)>)
    ensures r.Some? ==> r.value in table && EndsWith(upper, r.value.0)
    ensures r.None? ==> forall e :: e in table ==> !EndsWith(upper, e.0)
  {
    if table == [] then None
    else if EndsWith(upper, table[0].0) then Some(table[0])
    else FirstSuffix(upper, table[1..])
  }

  /** `parse_min_size` with the suffixes tried in the order of `table`.
      `None` stands for the `ValueError` that `float()` raises and the
      `OverflowError` that `int()` raises on an infinity. */
  function ParseMinSizeIn(raw: string, table: seq<(string, nat)>): (r: Option<int>)
  {
    var upper := Upper(Strip(raw));
    Scaled(upper, FirstSuffix(upper, table))
  }

  /** The threshold once the loop has found `entry`, or found none: the
      number before the suffix times its factor, or the whole string as a
      number. */
  function Scaled(upper: string, entry: Option<(string, nat)>): (r: Option<int>)
    requires entry.Some? ==> EndsWith(upper, entry.value.0)
  {
    if entry.Some? then Scale(ParseDecimal(NumberPart(upper, entry)), entry.value.1)
    else Whole(ParseDecimal(NumberPart(upper, entry)))
  }

  /** The text `float` reads: `upper[:-len(suffix)]` once a suffix matched,
      all of `upper` otherwise. */
  function NumberPart(upper: string, entry: Option<(string, nat)>): (text: string)
    requires entry.Some? ==> EndsWith(upper, entry.value.0)
    ensures entry.Some? ==> text + entry.value.0 == upper
    ensures entry.None? ==> text == upper
  {
    if entry.Some? then upper[..|upper| - |entry.value.0|] else upper
  }

  /** `int(x * factor)` on the outcome of `float`: truncated toward zero;
      `None` when `float` raised, or when the number or the product is out
      of the range of a double, so that `int()` meets an infinity. */
  function Scale(x: Option<real>, factor: nat): (r: Option<int>)
    ensures r.Some? <==> x.Some? && FloatFinite(x.value) && FloatFinite(x.value * factor as real)
  {
    match x
    case None => None
    case Some(v) =>
      if FloatFinite(v) && FloatFinite(v * factor as real) then Some(Truncate(v * factor as real))
      else None
  }

  /** `int(x)` on the outcome of `float`: truncated toward zero; `None`
      when `float` raised, or rounded the number to an infinity. */
  function Whole(x: Option<real>): (r: Option<int>)
    ensures r.Some? <==> x.Some? && FloatFinite(x.value)
  {
    match x
    case None => None
    case Some(v) => if FloatFinite(v) then Some(Truncate(v)) else None
  }

  /** `parse_min_size(raw)`. */
  function ParseMinSize(raw: string): (r: Option<int>)
  {
    ParseMinSizeIn(raw, Suffixes)
  }

  /** Two suffixes of one string: the shorter is a suffix of the longer. */
  lemma EndsWithBoth(s: string, a: string, b: string)
    requires EndsWith(s, a) && EndsWith(s, b) && |a| <= |b|
    ensures EndsWith(b, a)
  {
    assert b[|b| - |a|..] == s[|s| - |a|..];
  }

  /** Entry `i` of the table: the letter of multiple `i / 3` followed by
      `i % 3` more letters, each `B` or `I`. */
  lemma SuffixShape(i: nat)
    requires i < |Suffixes|
    ensures |Suffixes[i].0| == i % 3 + 1 && Suffixes[i].0[0] == "KMG"[i / 3]
    ensures forall k :: 1 <= k < |Suffixes[i].0| ==> Suffixes[i].0[k] in "BI"
  {
  }

  /** No suffix in the table ends another one. */
  lemma SuffixesTailExclusive()
    ensures forall i, j :: 0 <= i < |Suffixes| && 0 <= j < |Suffixes| && i != j ==>
      !EndsWith(Suffixes[j].0, Suffixes[i].0)
  {
    forall i, j | 0 <= i < |Suffixes| && 0 <= j < |Suffixes| && EndsWith(Suffixes[j].0, Suffixes[i].0)
      ensures i == j
    {
      var a, b := Suffixes[i].0, Suffixes[j].0;
      SuffixShape(i);
      SuffixShape(j);
      assert b[|b| - |a|..][0] == b[|b| - |a|] == a[0];
      assert |a| == |b|;
      assert "KMG"[i / 3] == "KMG"[j / 3];
    }
  }

  /** At most one suffix matches the tail of a string. */
  lemma AtMostOneSuffixMatches(upper: string)
    ensures forall i, j ::
      0 <= i < |Suffixes| && 0 <= j < |Suffixes| &&
      EndsWith(upper, Suffixes[i].0) && EndsWith(upper, Suffixes[j].0)
      ==> i == j
  {
    SuffixesTailExclusive();
    forall i, j | 0 <= i < |Suffixes| && 0 <= j < |Suffixes| &&
      EndsWith(upper, Suffixes[i].0) && EndsWith(upper, Suffixes[j].0)
      ensures i == j
    {
      var (short, long) := if |Suffixes[i].0| <= |Suffixes[j].0| then (i, j) else (j, i);
      EndsWithBoth(upper, Suffixes[short].0, Suffixes[long].0);
    }
  }

  /** Two entries of the table that both match a string are the same entry. */
  lemma SameMatch(upper: string, a: (string, nat), b: (string, nat))
    requires a in Suffixes && b in Suffixes
    requires EndsWith(upper, a.0) && EndsWith(upper, b.0)
    ensures a == b
  {
    var i :| 0 <= i < |Suffixes| && Suffixes[i] == a;
    var j :| 0 <= j < |Suffixes| && Suffixes[j] == b;
    AtMostOneSuffixMatches(upper);
    assert i == j;
  }

  /** A reordering of the table has the same entries. */
  lemma SameEntries(table: seq<(string, nat)>, e: (string, nat))
    requires multiset(table) == multiset(Suffixes)
    ensures e in table <==> e in Suffixes
  {
    assert e in table <==> e in multiset(table);
    assert e in Suffixes <==> e in multiset(Suffixes);
  }

  /** Whatever order the dictionary iterates its nine entries in, the loop
      finds the same entry. */
  lemma FirstSuffixOrderIndependent(upper: string, table: seq<(string, nat)>)
    requires multiset(table) == multiset(Suffixes)
    ensures FirstSuffix(upper, table) == FirstSuffix(upper, Suffixes)
  {
    var mine := FirstSuffix(upper, table);
    var theirs := FirstSuffix(upper, Suffixes);
    assert theirs.Some? ==> mine.Some? by {
      if theirs.Some? {
        SameEntries(table, theirs.value);
      }
    }
    assert mine.Some? ==> theirs.Some? by {
      if mine.Some? {
        SameEntries(table, mine.value);
      }
    }
    if mine.Some? {
      SameEntries(table, mine.value);
      SameMatch(upper, mine.value, theirs.value);
    }
  }

  /** `parse_min_size` gives the same result whatever order the dictionary
      iterates its entries in. */
  lemma ParseMinSizeOrderIndependent(raw: string, table: seq<(string, nat)>)
    requires multiset(table) == multiset(Suffixes)
    ensures ParseMinSizeIn(raw, table) == ParseMinSize(raw)
  {
    FirstSuffixOrderIndependent(Upper(Strip(raw)), table);
  }

  /** Upper-casing works character by character. */
  lemma UpperConcat(a: string, b: string)
    ensures Upper(a + b) == Upper(a) + Upper(b)
  {
    assert forall k :: 0 <= k < |a| ==> (a + b)[k] == a[k];
    assert forall k :: |a| <= k < |a| + |b| ==> (a + b)[k] == b[k - |a|];
  }

  /** Digits have no upper case. */
  lemma UpperDigits(d: string)
    requires AllDigits(d)
    ensures Upper(d) == d
  {
  }

  /** Stripping and upper-casing a number followed by a suffix spelt in any
      case leaves the number followed by the upper-case suffix. */
  lemma NormalisedSpelling(digits: string, spelling: string)
    requires digits != [] && AllDigits(digits)
    requires spelling != [] && !IsSpace(spelling[|spelling| - 1])
    ensures Upper(Strip(digits + spelling)) == digits + Upper(spelling)
  {
    var raw := digits + spelling;
    assert raw[0] == digits[0];
    assert raw[|raw| - 1] == spelling[|spelling| - 1];
    StripUnpadded(raw);
    UpperConcat(digits, spelling);
    UpperDigits(digits);
  }

  /** The loop finds the suffix a number is followed by. */
  lemma FindsSuffix(digits: string, i: nat)
    requires i < |Suffixes|
    ensures FirstSuffix(digits + Suffixes[i].0, Suffixes) == Some(Suffixes[i])
  {
    var upper := digits + Suffixes[i].0;
    assert upper[|upper| - |Suffixes[i].0|..] == Suffixes[i].0;
    var found := FirstSuffix(upper, Suffixes);
    SameMatch(upper, found.value, Suffixes[i]);
  }

  /** A digit string followed by a suffix scales by the suffix's factor. */
  lemma ScaledNumber(digits: string, entry: (string, nat))
    requires digits != [] && AllDigits(digits)
    requires DigitsValue(digits) < FloatLimit && DigitsValue(digits) * entry.1 < FloatLimit
    ensures Scaled(digits + entry.0, Some(entry)) == Some(DigitsValue(digits) * entry.1)
  {
    var upper := digits + entry.0;
    assert upper[..|upper| - |entry.0|] == digits;
    ScaleDigits(digits, entry.1);
  }

  /** A digit string scaled by a whole factor is its value times the
      factor: no fraction is lost to the truncation. */
  lemma ScaleDigits(digits: string, factor: nat)
    requires digits != [] && AllDigits(digits)
    requires DigitsValue(digits) < FloatLimit && DigitsValue(digits) * factor < FloatLimit
    ensures Scale(ParseDecimal(digits), factor) == Some(DigitsValue(digits) * factor)
  {
    ParseDecimalOfInteger(digits);
    ScaleWhole(DigitsValue(digits), factor);
  }

  /** A whole number scaled by a whole factor is their product, when both
      are in the range of a double. */
  lemma ScaleWhole(n: nat, factor: nat)
    requires n < FloatLimit && n * factor < FloatLimit
    ensures Scale(Some(n as real), factor) == Some(n * factor)
  {
    NaturalProduct(n, factor);
    TruncateProduct(n, factor);
    assert (n * factor) as real == n as real * factor as real;
    var r := Scale(Some(n as real), factor);
    assert r.Some? && r.value == n * factor;
  }

  /** The product of two naturals is a natural. */
  lemma NaturalProduct(a: nat, b: nat)
    ensures a * b >= 0
  {
  }

  /** The product of two whole numbers, taken as reals, truncates to their
      integer product. */
  lemma TruncateProduct(a: int, b: int)
    ensures Truncate(a as real * b as real) == a * b
  {
    assert (a * b) as real == a as real * b as real;
    assert Truncate((a * b) as real) == a * b;
  }

  /** The number before the suffix, with the suffix in any letter case:
      "5MiB" is 5 * 1024^2, "2g" is 2 * 1024^3. */
  lemma SuffixedNumber(n: nat, i: nat, spelling: string)
    requires i < |Suffixes| && Upper(spelling) == Suffixes[i].0
    requires n * Suffixes[i].1 < FloatLimit
    ensures ParseMinSize(NatToString(n) + spelling) == Some(n * Suffixes[i].1)
  {
    assert n <= n * Suffixes[i].1;
    var suffix := Suffixes[i].0;
    assert UpperChar(spelling[|spelling| - 1]) == suffix[|suffix| - 1];
    var digits := NatToString(n);
    NormalisedSpelling(digits, spelling);
    FindsSuffix(digits, i);
    ScaledNumber(digits, Suffixes[i]);
  }

  /** A number without a suffix is taken as a number of bytes: "100" is 100. */
  lemma PlainNumber(n: nat)
    requires n < FloatLimit
    ensures ParseMinSize(NatToString(n)) == Some(n)
  {
    var digits := NatToString(n);
    StripUnpadded(digits);
    UpperDigits(digits);
    NoSuffixAfterDigit(digits);
    ParseDecimalOfInteger(digits);
    WholeNumber(n);
  }

  /** A number too large for a double is an error: `float` reads it as an
      infinity and `int()` raises `OverflowError`. */
  lemma HugeNumberIsError(n: nat)
    requires n >= FloatLimit
    ensures ParseMinSize(NatToString(n)) == None
  {
    var digits := NatToString(n);
    StripUnpadded(digits);
    UpperDigits(digits);
    NoSuffixAfterDigit(digits);
    ParseDecimalOfInteger(digits);
  }

  /** A number whose scaled value is too large for a double is an error:
      the product is an infinity and `int()` raises `OverflowError`. */
  lemma HugeSuffixedIsError(n: nat, i: nat, spelling: string)
    requires i < |Suffixes| && Upper(spelling) == Suffixes[i].0
    requires n * Suffixes[i].1 >= FloatLimit
    ensures ParseMinSize(NatToString(n) + spelling) == None
  {
    var suffix := Suffixes[i].0;
    assert UpperChar(spelling[|spelling| - 1]) == suffix[|suffix| - 1];
    var digits := NatToString(n);
    NormalisedSpelling(digits, spelling);
    FindsSuffix(digits, i);
    ScaledOverflow(digits, Suffixes[i]);
  }

  /** Digits followed by a suffix whose scaled value is too large for a
      double give an error. */
  lemma ScaledOverflow(digits: string, entry: (string, nat))
    requires digits != [] && AllDigits(digits)
    requires DigitsValue(digits) * entry.1 >= FloatLimit
    ensures Scaled(digits + entry.0, Some(entry)) == None
  {
    var upper := digits + entry.0;
    assert upper[..|upper| - |entry.0|] == digits;
    ParseDecimalOfInteger(digits);
    ScaleOverflow(DigitsValue(digits), entry.1);
  }

  /** A whole number whose product with the factor is too large for a
      double scales to an error. */
  lemma ScaleOverflow(n: nat, factor: nat)
    requires n * factor >= FloatLimit
    ensures Scale(Some(n as real), factor) == None
  {
    assert (n * factor) as real == n as real * factor as real;
  }

  /** No suffix matches a string that ends with a digit. */
  lemma NoSuffixAfterDigit(s: string)
    requires s != [] && IsDigit(s[|s| - 1])
    ensures FirstSuffix(s, Suffixes) == None
  {
    SuffixesEndInLetters();
    forall i | 0 <= i < |Suffixes|
      ensures !EndsWith(s, Suffixes[i].0)
    {
      var suffix := Suffixes[i].0;
      if |suffix| <= |s| {
        assert s[|s| - |suffix|..][|suffix| - 1] == s[|s| - 1];
      }
    }
  }

  /** Every suffix ends with a letter. */
  lemma SuffixesEndInLetters()
    ensures forall i :: 0 <= i < |Suffixes| ==>
      Suffixes[i].0 != [] && 'A' <= Suffixes[i].0[|Suffixes[i].0| - 1] <= 'Z'
  {
  }

  /** A whole number in the range of a double is its own truncation. */
  lemma WholeNumber(n: int)
    requires FloatFinite(n as real)
    ensures Whole(Some(n as real)) == Some(n)
  {
    var r := Whole(Some(n as real));
    assert r.Some? && r.value == n;
  }

  /** A threshold without a digit in it is an error: `float` raises on
      what is left once the suffix is cut off. */
  lemma ThresholdNeedsDigit(raw: string)
    ensures ParseMinSize(raw).Some? ==> HasDigit(raw)
  {
    NeedsDigitWithTable(raw, Suffixes);
  }

  /** Whatever the suffix table, a threshold without a digit in it is an
      error. */
  lemma NeedsDigitWithTable(raw: string, table: seq<(string, nat)>)
    ensures ParseMinSizeIn(raw, table).Some? ==> HasDigit(raw)
  {
    var upper := Upper(Strip(raw));
    var entry := FirstSuffix(upper, table);
    var text := if entry.Some? then upper[..|upper| - |entry.value.0|] else upper;
    ParseDecimalHasDigit(text);
    if HasDigit(text) {
      var i :| 0 <= i < |text| && IsDigit(text[i]);
      assert upper[i] == text[i];
      NormalisedDigit(raw, i);
    }
  }

  /** A digit in the stripped, upper-cased threshold is a digit of the
      threshold as given. */
  lemma NormalisedDigit(raw: string, i: nat)
    requires i < |Upper(Strip(raw))| && IsDigit(Upper(Strip(raw))[i])
    ensures HasDigit(raw)
  {
    var stripped := Strip(raw);
    assert IsDigit(stripped[i]);
    StripShape(raw);
    var k := LeadingSpace(raw);
    assert raw[k..k + |stripped|][i] == raw[k + i];
    assert IsDigit(raw[k + i]);
  }

  /** A number part with anything but digits, a point, a sign or
      whitespace in it is an error: "5XB", "1,5M" and "abc" are not sizes. */
  lemma NonNumericIsError(raw: string, i: nat)
    requires var upper := Upper(Strip(raw));
      var text := NumberPart(upper, FirstSuffix(upper, Suffixes));
      i < |text| && !IsNumeralChar(text[i])
    ensures ParseMinSize(raw) == None
  {
    var upper := Upper(Strip(raw));
    NonNumeralRejected(NumberPart(upper, FirstSuffix(upper, Suffixes)), i);
  }

  /** A suffix on its own, in any letter case, is an error: "MiB" is not
      a size. */
  lemma SuffixAloneIsError(i: nat, spelling: string)
    requires i < |Suffixes| && Upper(spelling) == Suffixes[i].0
    ensures ParseMinSize(spelling) == None
  {
    SuffixesAreLetters();
    forall k | 0 <= k < |spelling|
      ensures !IsDigit(spelling[k])
    {
      assert UpperChar(spelling[k]) == Suffixes[i].0[k];
    }
    ThresholdNeedsDigit(spelling);
  }

  /** Every suffix is made of upper-case letters. */
  lemma SuffixesAreLetters()
    ensures forall i, j :: 0 <= i < |Suffixes| && 0 <= j < |Suffixes[i].0| ==>
      'A' <= Suffixes[i].0[j] <= 'Z'
  {
  }
}
