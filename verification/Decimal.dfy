/** Base-10000 numerics (src/include/postgres_conversion.hpp, and the arithmetic
    of ReadDecimal and WriteDecimal). A numeric with digit groups d_0 .. d_(n-1),
    weight w and scale s denotes sum d_i * 10000^(w-i); DuckDB stores that sum
    times 10^s in one of four integer types. */
module Decimal {
  import opened Bytes

  const NBASE := 10000
  const DEC_DIGITS := 4
  const NUMERIC_POS := 0x0000
  const NUMERIC_NEG := 0x4000
  const NUMERIC_NAN := 0xC000
  const NUMERIC_PINF := 0xD000
  const NUMERIC_NINF := 0xF000

  /** The integer types a DECIMAL is stored in, with the widths DuckDB maps to them. */
  datatype Storage = Int16 | Int32 | Int64 | Int128 {
    const Size: nat := match this case Int16 => 2 case Int32 => 4 case Int64 => 8 case Int128 => 16
    const MaxWidth: nat := match this case Int16 => 4 case Int32 => 9 case Int64 => 18 case Int128 => 38
    const Max: nat :=
      match this
      case Int16 => 0x7FFF
      case Int32 => 0x7FFF_FFFF
      case Int64 => 0x7FFF_FFFF_FFFF_FFFF
      case Int128 => 0x7FFF_FFFF_FFFF_FFFF_FFFF_FFFF_FFFF_FFFF
    /** First index beyond the power-of-ten table this type uses. */
    const PowerLimit: nat := if Int128? then 39 else 19

    predicate Fits(x: int) {
      -(Max as int) - 1 <= x <= Max
    }

    /** Every value of the widest decimal of this type fits it. */
    lemma WidthFits()
      ensures Pow(10, MaxWidth) <= Max && MaxWidth < PowerLimit && Pow(10, 4) <= Max
      ensures Pow(10, MaxWidth) <= Pow(10000, 4 * Size)
    {
      assert Pow(10, 4) == 10000;
      Pow10At5(0);
      Pow10At5(5);
      Pow10At5(10);
      Pow10At5(15);
      Pow10At5(20);
      Pow10At5(25);
      Pow10At5(30);
      Pow10At5(33);
      assert Pow(10, 9) == 1000000000;
      assert Pow(10, 18) == 1000000000000000000;
      assert Pow(10, 38) == 100000000000000000000000000000000000000;
      Pow10000(4 * Size);
      PowMonotone(10, MaxWidth, 16 * Size);
    }
  }

  lemma Pow10At5(e: nat)
    ensures Pow(10, e + 5) == 100000 * Pow(10, e)
    ensures Pow(10, e + 4) == 10000 * Pow(10, e)
    ensures Pow(10, e + 3) == 1000 * Pow(10, e)
    ensures Pow(10, e + 2) == 100 * Pow(10, e)
    ensures Pow(10, e + 1) == 10 * Pow(10, e)
  {
    assert Pow(10, e + 2) == 10 * Pow(10, e + 1);
    assert Pow(10, e + 3) == 10 * Pow(10, e + 2);
    assert Pow(10, e + 4) == 10 * Pow(10, e + 3);
    assert Pow(10, e + 5) == 10 * Pow(10, e + 4);
  }

  lemma {:induction false} Pow10000(k: nat)
    ensures Pow(10000, k) == Pow(10, 4 * k)
  {
    if k > 0 {
      Pow10000(k - 1);
      Pow10At5(4 * (k - 1));
    }
  }

  /** The number a string of digit groups denotes, most significant first. */
  function Dig(ds: seq<nat>): nat {
    if ds == [] then 0 else Dig(ds[..|ds| - 1]) * NBASE + ds[|ds| - 1]
  }

  lemma {:induction false} DigSplit(a: seq<nat>, b: seq<nat>)
    ensures Dig(a + b) == Dig(a) * Pow(NBASE, |b|) + Dig(b)
  {
    if b == [] {
      assert a + b == a;
    } else {
      var b', x, p := b[..|b| - 1], b[|b| - 1], Pow(NBASE, |b| - 1);
      DigSplit(a, b');
      assert (a + b)[..|a + b| - 1] == a + b';
      assert (Dig(a) * p + Dig(b')) * NBASE == Dig(a) * (NBASE * p) + Dig(b') * NBASE;
    }
  }

  // ------------------------------------------------------------------- reading

  /** Groups behind the decimal point, and the powers of ten in them beyond the scale. */
  function FractionGroups(n: nat, weight: int): int {
    n - weight - 1
  }

  function Correction(n: nat, weight: int, scale: nat): int {
    FractionGroups(n, weight) * DEC_DIGITS - scale
  }

  /** How many groups lie before the decimal point. */
  function IntegralCount(n: nat, weight: int): (k: nat)
    ensures k <= n
  {
    if weight < 0 then 0 else if weight + 1 < n then weight + 1 else n
  }

  /** What ReadDecimal accumulates in integral_part. */
  function IntegralPart(ds: seq<nat>, weight: int, scale: nat): nat {
    var k := IntegralCount(|ds|, weight);
    if weight < 0 then 0 else Dig(ds[..k]) * Pow(NBASE, weight + 1 - k) * Pow(10, scale)
  }

  /** The last group's base and digit once "compensated". */
  function FinalBase(c: int): nat {
    if c >= 0 then NBASE / Pow(10, c) else NBASE * Pow(10, -c)
  }

  function FinalDigit(d: nat, c: int): nat {
    if c >= 0 then d / Pow(10, c) else d * Pow(10, -c)
  }

  /** What ReadDecimal accumulates in fractional_part. */
  function FractionalPart(ds: seq<nat>, weight: int, scale: nat): nat {
    var n := |ds|;
    if n <= weight + 1 then 0
    else
      var c := Correction(n, weight, scale);
      var f := ds[IntegralCount(n, weight)..];
      if f == [] then 0 else Dig(f[..|f| - 1]) * FinalBase(c) + FinalDigit(f[|f| - 1], c)
  }

  /** The magnitude ReadDecimal returns for a finite numeric. */
  function Magnitude(ds: seq<nat>, weight: int, scale: nat): nat {
    if ds == [] then 0 else IntegralPart(ds, weight, scale) + FractionalPart(ds, weight, scale)
  }

  /** The value the digits denote, times 10^scale, as a fraction. */
  function Numerator(ds: seq<nat>, weight: int, scale: nat): nat {
    var k := FractionGroups(|ds|, weight);
    Dig(ds) * Pow(10, scale) * (if k < 0 then Pow(NBASE, -k) else 1)
  }

  function Denominator(n: nat, weight: int): (d: nat)
    ensures d >= 1
  {
    var k := FractionGroups(n, weight);
    if k <= 0 then 1 else Pow(NBASE, k)
  }

  lemma DivCancel(x: nat, p: nat, q: nat)
    requires p > 0 && q > 0
    ensures (x * p) / (p * q) == x / q
  {
    var r := x % q;
    var t := x / q;
    assert x * p == t * (p * q) + r * p;
    assert 0 <= r * p < q * p == p * q;
    DivModUnique(x * p, p * q, t, r * p);
  }

  lemma DivPlusMultiple(a: nat, m: nat, f: nat)
    requires m > 0
    ensures (a * m + f) / m == a + f / m
  {
    DivModUnique(a * m + f, m, a + f / m, f % m);
  }

  lemma SmallPowers(c: nat)
    requires c <= 4
    ensures FinalBase(c) * Pow(10, c) == NBASE && 1 <= FinalBase(c) <= NBASE
    ensures 1 <= Pow(10, c) <= NBASE
  {
    Pow10At5(0);
    assert Pow(10, 0) == 1;
    assert c == 0 || c == 1 || c == 2 || c == 3 || c == 4;
  }

  lemma FloorInParts(g: nat, d: nat, b: nat, p: nat)
    requires p > 0 && b * p == NBASE
    ensures (g * NBASE + d) / p == g * b + d / p
  {
    assert (g * b) * p == g * (b * p);
    DivPlusMultiple(g * b, p, d);
  }

  /** Dividing base and last digit separately is one floor division, as long as
      the divisor divides the base. */
  lemma CompensateSmall(g: nat, d: nat, c: nat)
    requires c <= 4
    ensures g * FinalBase(c) + FinalDigit(d, c) == (g * NBASE + d) / Pow(10, c)
  {
    SmallPowers(c);
    FloorInParts(g, d, FinalBase(c), Pow(10, c));
  }

  lemma CompensateLarge(d: nat, c: nat)
    requires c > 4 && d < 0x1_0000
    ensures FinalBase(c) == 0 && FinalDigit(d, c) == 0
  {
    Pow10At5(0);
    assert Pow(10, 5) == 100000;
    PowMonotone(10, 5, c);
    DivModUnique(NBASE, Pow(10, c), 0, NBASE);
    DivModUnique(d, Pow(10, c), 0, d);
  }

  /** The fraction digits as the true value sees them: their number, scaled. */
  lemma FractionValue(f: nat, k: nat, s: nat)
    ensures Pow(NBASE, k) > 0
    ensures 4 * k >= s ==> Pow(10, 4 * k - s) > 0 && f * Pow(10, s) / Pow(NBASE, k) == f / Pow(10, 4 * k - s)
    ensures 4 * k < s ==> f * Pow(10, s) / Pow(NBASE, k) == f * Pow(10, s - 4 * k)
  {
    Pow10000(k);
    if 4 * k >= s {
      PowAdd(10, s, 4 * k - s);
      DivCancel(f, Pow(10, s), Pow(10, 4 * k - s));
    } else {
      PowAdd(10, 4 * k, s - 4 * k);
      DivExact(f, Pow(10, 4 * k), Pow(10, s - 4 * k));
    }
  }

  lemma DivExact(f: nat, p: nat, q: nat)
    requires p > 0
    ensures f * (p * q) / p == f * q
  {
    assert f * (p * q) == (f * q) * p;
    DivModUnique(f * (p * q), p, f * q, 0);
  }

  lemma ScaleSplits(i: nat, f: nat, m: nat, p: nat)
    requires m > 0
    ensures (i * m + f) * p / m == i * p + f * p / m
  {
    assert (i * m + f) * p == (i * p) * m + f * p;
    DivPlusMultiple(i * p, m, f * p);
  }

  /** Numerator / Denominator splits at the decimal point like the code does. */
  lemma ValueSplits(ds: seq<nat>, weight: int, scale: nat)
    requires |ds| > weight + 1
    ensures var f := ds[IntegralCount(|ds|, weight)..];
            Numerator(ds, weight, scale) / Denominator(|ds|, weight)
            == IntegralPart(ds, weight, scale)
               + Dig(f) * Pow(10, scale) / Denominator(|ds|, weight)
  {
    var j := IntegralCount(|ds|, weight);
    var i, f, p := ds[..j], ds[j..], Pow(10, scale);
    var m := Denominator(|ds|, weight);
    assert ds == i + f;
    if weight >= 0 {
      DigSplit(i, f);
      ScaleSplits(Dig(i), Dig(f), m, p);
      assert Pow(NBASE, 0) == 1;
    } else {
      assert f == ds;
    }
  }

  /** Whether the correction stays within one digit group, or is moot. */
  predicate Regular(ds: seq<nat>, weight: int, scale: nat) {
    |ds| <= weight + 1 || Correction(|ds|, weight, scale) <= 4
  }

  lemma FractionTruncates(ds: seq<nat>, weight: int, scale: nat)
    requires |ds| > weight + 1 && ds != [] && (forall d | d in ds :: d < 0x1_0000)
    ensures var f := Dig(ds[IntegralCount(|ds|, weight)..]);
            var c := Correction(|ds|, weight, scale);
            FractionalPart(ds, weight, scale) ==
            if c < 0 then f * Pow(10, -c) else if c <= 4 then f / Pow(10, c) else 0
  {
    var f, c := ds[IntegralCount(|ds|, weight)..], Correction(|ds|, weight, scale);
    var g, d := Dig(f[..|f| - 1]), f[|f| - 1];
    assert d in ds;
    if c < 0 {
      var p := Pow(10, -c);
      assert (g * NBASE + d) * p == g * (NBASE * p) + d * p;
    } else if c <= 4 {
      CompensateSmall(g, d, c);
    } else {
      CompensateLarge(d, c);
      assert g * 0 == 0;
    }
  }

  lemma FloorIsZero(f: nat, p: nat)
    requires p > 0
    ensures f / p == 0 <==> f < p
  {
    if f < p {
      DivModUnique(f, p, 0, f);
    } else {
      DivPlusMultiple(1, p, f - p);
    }
  }

  lemma WholeNumber(ds: seq<nat>, weight: int, scale: nat)
    requires |ds| <= weight + 1
    ensures IntegralPart(ds, weight, scale) == Numerator(ds, weight, scale)
  {
    assert ds[..|ds|] == ds;
    var p, q := Pow(NBASE, weight + 1 - |ds|), Pow(10, scale);
    assert Dig(ds) * p * q == Dig(ds) * q * p;
    assert Pow(NBASE, 0) == 1;
  }

  /** Main result on reading: the digits' value times 10^scale, rounded toward
      zero, comes out exactly when the correction is at most one digit group or
      every fraction digit lies below the scale anyway. */
  lemma MagnitudeTruncates(ds: seq<nat>, weight: int, scale: nat)
    requires ds != [] && (forall d | d in ds :: d < 0x1_0000)
    ensures Magnitude(ds, weight, scale) == Numerator(ds, weight, scale) / Denominator(|ds|, weight)
            <==> Regular(ds, weight, scale)
                 || Dig(ds[IntegralCount(|ds|, weight)..]) < Pow(10, Correction(|ds|, weight, scale))
  {
    var n := |ds|;
    if n <= weight + 1 {
      WholeNumber(ds, weight, scale);
    } else {
      var f, c := Dig(ds[IntegralCount(n, weight)..]), Correction(n, weight, scale);
      ValueSplits(ds, weight, scale);
      FractionValue(f, FractionGroups(n, weight), scale);
      FractionTruncates(ds, weight, scale);
      if c > 4 {
        FloorIsZero(f, Pow(10, c));
      }
    }
  }

  /** ... and then no digit is lost exactly when the value has none beyond the scale. */
  lemma MagnitudeExact(ds: seq<nat>, weight: int, scale: nat)
    requires ds != [] && (forall d | d in ds :: d < 0x1_0000)
    requires Regular(ds, weight, scale)
    ensures Magnitude(ds, weight, scale) * Denominator(|ds|, weight) == Numerator(ds, weight, scale)
            <==> Numerator(ds, weight, scale) % Denominator(|ds|, weight) == 0
  {
    MagnitudeTruncates(ds, weight, scale);
    var n, d: nat := Numerator(ds, weight, scale), Denominator(|ds|, weight);
    hide *;
    Divides(n, d);
  }

  lemma Divides(n: nat, d: nat)
    requires d > 0
    ensures n / d * d == n <==> n % d == 0
  {
    DivModUnique(n, d, n / d, n % d);
  }

  /** A group beyond the ones the scale needs shifts everything before it out:
      0.12345678 read with two digits behind the point is 0, not 0.12. */
  lemma ExtraGroupLost()
    ensures Magnitude([1234, 5678], -1, 2) == 0
    ensures Numerator([1234, 5678], -1, 2) / Denominator(2, -1) == 12
  {
    PowersOf10();
    assert [1234, 5678][0..] == [1234, 5678] && [1234, 5678][..1] == [1234];
    assert Dig([1234]) == 1234 && Dig([1234, 5678]) == 12345678;
    assert Pow(NBASE, 2) == 100000000;
  }

  lemma PowersOf10()
    ensures Pow(10, 0) == 1 && Pow(10, 2) == 100 && Pow(10, 3) == 1000
    ensures Pow(10, 6) == 1000000 && Pow(10, 9) == 1000000000
  {
    assert Pow(10, 3) == 10 * Pow(10, 2);
    assert Pow(10, 6) == 10 * Pow(10, 5);
    assert Pow(10, 5) == 10 * Pow(10, 4);
    assert Pow(10, 8) == 10 * Pow(10, 7);
  }

  // -------------------------------------------------------- when reading fits T

  /** A numeric PostgreSQL can send for a column of this storage type. */
  predicate Readable(st: Storage, ds: seq<nat>, weight: int, scale: nat) {
    && (forall d | d in ds :: d < NBASE)
    && scale <= st.MaxWidth
    && Regular(ds, weight, scale)
    && Magnitude(ds, weight, scale) < Pow(10, st.MaxWidth)
  }

  /** integral_part after i groups: missing groups count as zero. */
  function Prefix(ds: seq<nat>, i: nat): nat {
    if i <= |ds| then Dig(ds[..i]) else Dig(ds) * Pow(NBASE, i - |ds|)
  }

  lemma PrefixStep(ds: seq<nat>, i: nat)
    ensures Prefix(ds, i + 1) == Prefix(ds, i) * NBASE + (if i < |ds| then ds[i] else 0)
  {
    if i < |ds| {
      assert ds[..i + 1][..i] == ds[..i];
    } else {
      assert ds[..|ds|] == ds;
      assert Pow(NBASE, 0) == 1;
      var p := Pow(NBASE, i - |ds|);
      assert Dig(ds) * p * NBASE == Dig(ds) * (NBASE * p);
    }
  }

  lemma {:induction false} PrefixMonotone(ds: seq<nat>, i: nat, j: nat)
    requires i <= j
    ensures Prefix(ds, i) <= Prefix(ds, j)
    decreases j
  {
    if i < j {
      PrefixStep(ds, j - 1);
      PrefixMonotone(ds, i, j - 1);
    }
  }

  lemma IntegralIsPrefix(ds: seq<nat>, weight: int, scale: nat)
    requires weight >= 0 && ds != []
    ensures IntegralPart(ds, weight, scale) == Prefix(ds, weight + 1) * Pow(10, scale)
    ensures Prefix(ds, weight + 1) <= IntegralPart(ds, weight, scale) <= Magnitude(ds, weight, scale)
  {
    assert ds[..|ds|] == ds;
    assert Pow(NBASE, 0) == 1;
    var x, p := Prefix(ds, weight + 1), Pow(10, scale);
    assert x * p >= x;
  }

  /** The values a compensation by 10^c (or 10^-c) goes through fit T. */
  predicate CompensationFits(st: Storage, c: int, d: nat) {
    CompensationWithin(st.PowerLimit, st.Max, c, d)
  }

  predicate CompensationWithin(limit: nat, max: nat, c: int, d: nat) {
    var e: nat := if c >= 0 then c else -c;
    e < limit && Pow(10, e) <= max && d <= max && NBASE <= max && FinalBase(c) <= max && FinalDigit(d, c) <= max
  }

  lemma DivideFits(st: Storage, c: nat, d: nat)
    requires c <= 4 && d < NBASE
    ensures CompensationFits(st, c, d) && FinalBase(c) >= 1
  {
    st.WidthFits();
    SmallPowers(c);
    FloorAtMost(d, Pow(10, c));
  }

  lemma MultiplyFits(st: Storage, e: int, d: nat)
    requires e > 0 && e + 4 <= st.MaxWidth && d < NBASE
    ensures CompensationFits(st, -e, d) && FinalBase(-e) >= 1
  {
    st.WidthFits();
    PowMonotone(10, e, st.MaxWidth);
    Pow10At5(e);
    PowMonotone(10, e + 4, st.MaxWidth);
    TimesOrdered(d, NBASE, Pow(10, e));
  }

  lemma TimesOrdered(a: nat, b: nat, p: nat)
    requires a <= b
    ensures a * p <= b * p
  {
  }

  /** Reading the last group of a readable numeric stays within T. */
  lemma LastGroupFits(st: Storage, ds: seq<nat>, weight: int, scale: nat)
    requires Readable(st, ds, weight, scale) && ds != [] && |ds| > weight + 1
    ensures var f := ds[IntegralCount(|ds|, weight)..];
            var c := Correction(|ds|, weight, scale);
            var g := Dig(f[..|f| - 1]);
            && CompensationFits(st, c, f[|f| - 1])
            && g <= g * FinalBase(c) <= FractionalPart(ds, weight, scale) <= st.Max
            && Magnitude(ds, weight, scale) <= st.Max
  {
    var f := ds[IntegralCount(|ds|, weight)..];
    var c := Correction(|ds|, weight, scale);
    var g, d := Dig(f[..|f| - 1]), f[|f| - 1];
    assert d in ds;
    if c >= 0 {
      DivideFits(st, c, d);
    } else {
      MultiplyFits(st, -c, d);
    }
    st.WidthFits();
    TimesAtLeast(g, FinalBase(c));
  }

  lemma FloorAtMost(d: nat, p: nat)
    requires p > 0
    ensures d / p <= d
  {
    TimesAtLeast(d / p, p);
  }

  lemma TimesAtLeast(q: nat, p: nat)
    requires p > 0
    ensures q <= q * p
  {
  }

  // ------------------------------------------------------------------- writing

  /** Digit groups of x without leading zero groups. */
  function Groups(x: nat): (ds: seq<nat>)
    ensures forall d | d in ds :: d < NBASE
  {
    if x == 0 then [] else Groups(x / NBASE) + [x % NBASE]
  }

  /** The k low-order digit groups of x. */
  function FixedGroups(k: nat, x: nat): (ds: seq<nat>)
    ensures |ds| == k && forall d | d in ds :: d < NBASE
  {
    if k == 0 then [] else FixedGroups(k - 1, x / NBASE) + [x % NBASE]
  }

  lemma {:induction false} DigGroups(x: nat)
    ensures Dig(Groups(x)) == x
  {
    if x > 0 {
      DigGroups(x / NBASE);
      assert Groups(x)[..|Groups(x)| - 1] == Groups(x / NBASE);
    }
  }

  lemma {:induction false} GroupsBound(x: nat, k: nat)
    requires x < Pow(NBASE, k)
    ensures |Groups(x)| <= k
  {
    if x > 0 {
      GroupsBound(x / NBASE, k - 1);
    }
  }

  lemma {:induction false} DigFixedGroups(k: nat, x: nat)
    requires x < Pow(NBASE, k)
    ensures Dig(FixedGroups(k, x)) == x
  {
    if k > 0 {
      DigFixedGroups(k - 1, x / NBASE);
      assert FixedGroups(k, x)[..k - 1] == FixedGroups(k - 1, x / NBASE);
    }
  }

  /** fractional_ndigits and the alignment of the fraction within its groups. */
  function ScaleGroups(scale: nat): nat {
    (scale + DEC_DIGITS - 1) / DEC_DIGITS
  }

  function Alignment(scale: nat): (c: nat)
    ensures c <= 3 && scale + c == 4 * ScaleGroups(scale)
  {
    ScaleGroups(scale) * DEC_DIGITS - scale
  }

  /** fractional_part once aligned: the one intermediate that can leave T. */
  function AlignedFraction(v: nat, scale: nat): nat {
    v % Pow(10, scale) * Pow(10, Alignment(scale))
  }

  function WrittenIntegral(v: nat, scale: nat): seq<nat> {
    Groups(v / Pow(10, scale))
  }

  function WrittenDigits(v: nat, scale: nat): (ds: seq<nat>)
    ensures forall d | d in ds :: d < NBASE
  {
    WrittenIntegral(v, scale) + FixedGroups(ScaleGroups(scale), AlignedFraction(v, scale))
  }

  function WrittenWeight(v: nat, scale: nat): int {
    |WrittenIntegral(v, scale)| - 1
  }

  lemma AlignedBound(v: nat, scale: nat)
    ensures AlignedFraction(v, scale) < Pow(NBASE, ScaleGroups(scale))
  {
    Pow10000(ScaleGroups(scale));
    PowAdd(10, scale, Alignment(scale));
    TimesBelow(v % Pow(10, scale), Pow(10, scale), Pow(10, Alignment(scale)));
  }

  lemma TimesBelow(f: nat, p: nat, q: nat)
    requires f < p && q > 0
    ensures f * q < p * q
  {
  }

  lemma IntegralOfGroups(x: nat, f: seq<nat>, scale: nat)
    ensures IntegralPart(Groups(x) + f, |Groups(x)| - 1, scale) == x * Pow(10, scale)
  {
    DigGroups(x);
    var i := Groups(x);
    assert (i + f)[..|i|] == i;
    assert Pow(NBASE, 0) == 1;
    assert x == 0 ==> x * Pow(10, scale) == 0;
  }

  lemma FractionOfGroups(i: seq<nat>, y: nat, scale: nat)
    requires y < Pow(NBASE, ScaleGroups(scale)) && (forall d | d in i :: d < NBASE)
    ensures FractionalPart(i + FixedGroups(ScaleGroups(scale), y), |i| - 1, scale) == y / Pow(10, Alignment(scale))
  {
    var k, c := ScaleGroups(scale), Alignment(scale);
    var f := FixedGroups(k, y);
    var ds := i + f;
    DigFixedGroups(k, y);
    if k == 0 {
      assert Pow(10, 0) == 1 && Pow(NBASE, 0) == 1;
    } else {
      assert ds[|i|..] == f;
      assert Correction(|ds|, |i| - 1, scale) == c;
      FractionTruncates(ds, |i| - 1, scale);
    }
  }

  lemma MagnitudeOfGroups(x: nat, y: nat, scale: nat)
    requires y < Pow(10, scale)
    ensures var ds := Groups(x) + FixedGroups(ScaleGroups(scale), y * Pow(10, Alignment(scale)));
            && Magnitude(ds, |Groups(x)| - 1, scale) == x * Pow(10, scale) + y
            && Regular(ds, |Groups(x)| - 1, scale)
  {
    var k, c := ScaleGroups(scale), Pow(10, Alignment(scale));
    var f := FixedGroups(k, y * c);
    AlignedBound(y, scale);
    DivModUnique(y, Pow(10, scale), 0, y);
    IntegralOfGroups(x, f, scale);
    FractionOfGroups(Groups(x), y * c, scale);
    DivModUnique(y * c, c, y, 0);
    if Groups(x) + f == [] {
      assert f == [] && k == 0 && scale == 0 && x == 0;
      assert Pow(10, 0) == 1;
    }
  }

  /** The reader's arithmetic undoes the writer's, at every magnitude and scale. */
  lemma MagnitudeOfWritten(v: nat, scale: nat)
    ensures Magnitude(WrittenDigits(v, scale), WrittenWeight(v, scale), scale) == v
    ensures Regular(WrittenDigits(v, scale), WrittenWeight(v, scale), scale)
  {
    var x, y := Quotient(v, Pow(10, scale));
    MagnitudeOfGroups(x, y, scale);
  }

  lemma Quotient(v: nat, p: nat) returns (x: nat, y: nat)
    requires p > 0
    ensures x == v / p && y == v % p && y < p && v == x * p + y
  {
    x, y := v / p, v % p;
  }

  /** The digit groups written denote the value, at its scale. */
  lemma WrittenDenotes(v: nat, scale: nat)
    ensures var ds, w := WrittenDigits(v, scale), WrittenWeight(v, scale);
            && FractionGroups(|ds|, w) == ScaleGroups(scale)
            && Numerator(ds, w, scale) == v * Denominator(|ds|, w)
  {
    var x, y := Quotient(v, Pow(10, scale));
    var k, p, c := ScaleGroups(scale), Pow(10, scale), Pow(10, Alignment(scale));
    var f := FixedGroups(k, y * c);
    AlignedBound(y, scale);
    DivModUnique(y, p, 0, y);
    DigGroups(x);
    DigFixedGroups(k, y * c);
    DigSplit(Groups(x), f);
    Pow10000(k);
    PowAdd(10, scale, Alignment(scale));
    assert Pow(NBASE, 0) == 1;
    hide Pow, Groups, FixedGroups, Dig;
    Scaled(x, y, p, c);
  }

  lemma Scaled(x: nat, y: nat, p: nat, c: nat)
    ensures (x * (p * c) + y * c) * p == (x * p + y) * (p * c)
  {
    var q := p * c;
    assert (x * q + y * c) * p == x * q * p + y * c * p;
    assert (x * p + y) * q == x * p * q + y * q;
    assert x * q * p == x * p * q && y * c * p == y * q;
  }

  /** Exact condition for writing: the aligned fraction fits the storage type. */
  predicate FractionFits(st: Storage, v: nat, scale: nat) {
    AlignedFraction(v, scale) <= st.Max
  }

  predicate InWidth(st: Storage, v: int, scale: nat) {
    -(Pow(10, st.MaxWidth) as int) < v < Pow(10, st.MaxWidth) && scale <= st.MaxWidth
  }

  /** Which scales can write every value of the width: those whose digit groups,
      all nines, still fit. Scale 9 in INT32, 17 and 18 in INT64, 37 and 38 in
      INT128 cannot, and lose the value 10^scale - 1. */
  lemma ScaleIsSafe(st: Storage, scale: nat)
    requires scale <= st.MaxWidth
    ensures (forall v: nat | v < Pow(10, st.MaxWidth) :: FractionFits(st, v, scale))
            <==> Pow(NBASE, ScaleGroups(scale)) <= st.Max
    ensures Pow(NBASE, ScaleGroups(scale)) <= st.Max
            <==> match st case Int16 => true case Int32 => scale <= 8 case Int64 => scale <= 16 case Int128 => scale <= 36
  {
    var k := ScaleGroups(scale);
    PowersOf10000();
    if Pow(NBASE, k) <= st.Max {
      forall v: nat | v < Pow(10, st.MaxWidth) ensures FractionFits(st, v, scale) {
        AlignedBound(v, scale);
      }
    } else {
      var v := Pow(10, scale) - 1;
      PowMonotone(10, scale, st.MaxWidth);
      Pow10000(k);
      PowAdd(10, scale, Alignment(scale));
      Pow10At5(0);
      var q := Pow(10, Alignment(scale));
      assert Alignment(scale) <= 3 && q <= 1000;
      DivModUnique(v, Pow(10, scale), 0, v);
      assert v * q == Pow(NBASE, k) - q;
      assert !FractionFits(st, v, scale);
    }
  }

  /** Such a value: 0.999999999 as DECIMAL(9,9), stored in an INT32. */
  lemma NinesOverflow()
    ensures InWidth(Int32, 999_999_999, 9) && !FractionFits(Int32, 999_999_999, 9)
  {
    PowersOf10();
  }

  lemma PowersOf10000()
    ensures Pow(NBASE, 1) == 10000 && Pow(NBASE, 2) == 100000000
    ensures Pow(NBASE, 3) == 1000000000000 && Pow(NBASE, 4) == 10000000000000000
    ensures Pow(NBASE, 5) == 100000000000000000000
    ensures Pow(NBASE, 9) == 1000000000000000000000000000000000000
    ensures Pow(NBASE, 10) == 10000000000000000000000000000000000000000
    ensures forall k: nat | k <= 4 :: Pow(NBASE, k) <= Pow(NBASE, 4)
    ensures forall k: nat | k <= 9 :: Pow(NBASE, k) <= Pow(NBASE, 9)
  {
    assert Pow(NBASE, 0) == 1;
    assert Pow(NBASE, 3) == NBASE * Pow(NBASE, 2);
    assert Pow(NBASE, 5) == NBASE * Pow(NBASE, 4);
    assert Pow(NBASE, 7) == NBASE * Pow(NBASE, 6);
    assert Pow(NBASE, 9) == NBASE * Pow(NBASE, 8);
    forall k: nat | k <= 9 ensures Pow(NBASE, k) <= Pow(NBASE, 9) && (k <= 4 ==> Pow(NBASE, k) <= Pow(NBASE, 4)) {
      PowMonotone(NBASE, k, 9);
      if k <= 4 {
        PowMonotone(NBASE, k, 4);
      }
    }
  }
}
