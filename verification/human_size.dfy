/** `human_size`: a size in bytes written with one decimal and the smallest
    binary unit, up to TiB, that keeps the number below 1024. The float
    `value` of the script is an exact real here: dividing by 1024 is exact
    in binary floating point. */
module HumanSize {
  import opened Wrappers
  import opened Text
  import opened Numbers

  const Units: seq<string> := ["B", "KiB", "MiB", "GiB", "TiB"]

  /** The index of the last unit, TiB, which the loop takes whatever the
      value. */
  const LastUnit: nat := 4

  function Pow1024(k: nat): (p: nat)
    ensures p >= 1
  {
    if k == 0 then 1 else 1024 * Pow1024(k - 1)
  }

  /** Unit `j` is too small for `size`: the number would be 1024 or more. */
  predicate Overflows(size: int, j: nat) {
    size >= Pow1024(j + 1)
  }

  /** The unit the loop stops at when it starts looking at unit `i`. */
  function UnitFrom(size: int, i: nat): (u: nat)
    requires i <= LastUnit
    ensures i <= u <= LastUnit
    decreases LastUnit - i
  {
    if i == LastUnit || !Overflows(size, i) then i else UnitFrom(size, i + 1)
  }

  /** The unit `human_size` writes `size` in. */
  function UnitIndex(size: int): (u: nat)
    ensures u <= LastUnit
  {
    UnitFrom(size, 0)
  }

  /** The number `human_size` writes: the size in the chosen unit. */
  function ScaledValue(size: int): (v: real)
  {
    InUnit(size, UnitIndex(size))
  }

  /** What `human_size(size)` returns: the scaled value with one decimal,
      a space and the unit. */
  function HumanSizeText(size: int): (s: string)
  {
    FormatTenths(ScaledValue(size)) + " " + Units[UnitIndex(size)]
  }

  /** The unit chosen is the least `i` below TiB with `size < 1024^(i+1)`,
      and TiB when there is none: every smaller unit would leave the number
      at 1024 or more, and the chosen one leaves it below 1024 unless it is
      TiB. */
  lemma {:induction false} UnitIndexIsLeast(size: int)
    ensures UnitIndex(size) < LastUnit ==> !Overflows(size, UnitIndex(size))
    ensures forall j :: 0 <= j < UnitIndex(size) ==> Overflows(size, j)
  {
    UnitFromIsLeast(size, 0);
  }

  lemma {:induction false} UnitFromIsLeast(size: int, i: nat)
    requires i <= LastUnit
    ensures UnitFrom(size, i) < LastUnit ==> !Overflows(size, UnitFrom(size, i))
    ensures forall j :: i <= j < UnitFrom(size, i) ==> Overflows(size, j)
    decreases LastUnit - i
  {
    if i < LastUnit && Overflows(size, i) {
      UnitFromIsLeast(size, i + 1);
    }
  }

  /** The least unit is the one chosen: a `k` that every smaller unit
      overflows and that is TiB or holds `size` below 1024^(k+1) is
      `UnitIndex(size)`. */
  lemma UnitIndexAt(size: int, k: nat)
    requires k <= LastUnit
    requires forall j :: 0 <= j < k ==> Overflows(size, j)
    requires k == LastUnit || !Overflows(size, k)
    ensures UnitIndex(size) == k
  {
    UnitFromAt(size, 0, k);
  }

  lemma {:induction false} UnitFromAt(size: int, i: nat, k: nat)
    requires i <= k <= LastUnit
    requires forall j :: i <= j < k ==> Overflows(size, j)
    requires k == LastUnit || !Overflows(size, k)
    ensures UnitFrom(size, i) == k
    decreases k - i
  {
    if i < k {
      UnitFromAt(size, i + 1, k);
    }
  }

  /** The size in unit `k`. */
  function InUnit(size: int, k: nat): (v: real)
  {
    size as real / Pow1024(k) as real
  }

  /** Below 1024 in unit `k` is below 1024^(k+1) in bytes. */
  lemma BelowNextUnit(size: int, k: nat)
    ensures InUnit(size, k) < 1024.0 <==> !Overflows(size, k)
  {
    var p := Pow1024(k) as real;
    assert Pow1024(k + 1) as real == 1024.0 * p;
    QuotientBelow(size as real, p, 1024.0);
  }

  /** One more division by 1024 moves the value to the next unit. */
  lemma NextUnit(size: int, k: nat)
    ensures InUnit(size, k) / 1024.0 == InUnit(size, k + 1)
  {
    var p := Pow1024(k) as real;
    assert Pow1024(k + 1) as real == 1024.0 * p;
    QuotientTwice(size as real, p, 1024.0);
  }

  lemma QuotientBelow(x: real, p: real, bound: real)
    requires p > 0.0
    ensures x / p < bound <==> x < bound * p
  {
    var q := x / p;
    assert x == q * p;
    if q < bound {
      assert (bound - q) * p > 0.0;
    } else {
      assert (q - bound) * p >= 0.0;
    }
  }

  lemma QuotientTwice(x: real, p: real, d: real)
    requires p > 0.0 && d > 0.0
    ensures x / p / d == x / (d * p)
  {
  }

  lemma QuotientAtLeastOne(x: real, p: real)
    requires p > 0.0 && x >= p
    ensures x / p >= 1.0
  {
    QuotientBelow(x, p, 1.0);
  }

  /** `human_size(size)`: starting from bytes, divide by 1024 until the
      value is below 1024 or the unit is TiB. The loop always returns: the
      fallback after it is never reached. */
  method HumanSize(size: int) returns (text: string)
    ensures text == HumanSizeText(size)
  {
    var value := size as real;
    for k := 0 to |Units|
      invariant k <= LastUnit
      invariant value == InUnit(size, k)
      invariant forall j :: 0 <= j < k ==> Overflows(size, j)
    {
      BelowNextUnit(size, k);
      if value < 1024.0 || Units[k] == Units[LastUnit] {
        UnitIndexAt(size, k);
        return FormatTenths(value) + " " + Units[k];
      }
      NextUnit(size, k);
      value := value / 1024.0;
    }
    assert false;
  }

  /** The number written is below 1024 unless the unit is TiB, and at
      least 1 unless the unit is bytes: the unit is the largest that keeps
      the number at 1 or more. */
  lemma ScaledBounds(size: int)
    ensures UnitIndex(size) < LastUnit ==> ScaledValue(size) < 1024.0
    ensures UnitIndex(size) > 0 ==> ScaledValue(size) >= 1.0
  {
    var k := UnitIndex(size);
    UnitIndexIsLeast(size);
    BelowNextUnit(size, k);
    if k > 0 {
      assert Overflows(size, k - 1);
      QuotientAtLeastOne(size as real, Pow1024(k) as real);
    }
  }

  /** The text ends with a space and the unit, and the number before it
      reads back, under `float`, as the scaled size rounded to one decimal,
      which is within 0.05 of it. */
  lemma HumanSizeTextShape(size: int)
    ensures var unit := Units[UnitIndex(size)];
      var text := HumanSizeText(size);
      EndsWith(text, " " + unit) &&
      ParseDecimal(text[..|text| - |unit| - 1]) == Some(RoundedToTenths(ScaledValue(size)))
  {
    var unit := Units[UnitIndex(size)];
    var number := FormatTenths(ScaledValue(size));
    var text := number + " " + unit;
    assert text == number + (" " + unit);
    assert text[..|text| - |unit| - 1] == number;
    FormatTenthsRoundTrip(ScaledValue(size));
  }

  /** Any size from 0 up to, but not including, 1 TiB fits the ten-column
      size field of the report: at most four digits, a point, one digit, a
      space and a unit of at most three letters. */
  lemma FitsSizeColumn(size: int)
    requires 0 <= size < Pow1024(LastUnit)
    ensures |HumanSizeText(size)| <= 10
  {
    var k := UnitIndex(size);
    UnitIndexIsLeast(size);
    assert !Overflows(size, LastUnit - 1);
    assert k < LastUnit;
    ScaledBounds(size);
    var v := ScaledValue(size);
    assert v >= 0.0 by {
      assert size as real >= 0.0;
      QuotientBelow(size as real, Pow1024(k) as real, 0.0);
    }
    var t := Tenths(v);
    assert t <= 10240;
    NatToStringLength(t / 10, 4);
  }
}
