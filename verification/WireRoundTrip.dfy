/** Decoding undoes encoding, field by field and for whole nested values, and
    every encoded field announces its own length. */
module WireRoundTrip {
  import opened Wrappers
  import opened Bytes
  import opened Decimal
  import opened DateTime
  import opened NestedLists
  import opened WireFormat

  lemma WordPut(n: nat, x: int, rest: seq<byte>)
    ensures var s := Put(n, x) + rest;
            && Word(n, s) == Ok(ToUnsigned(n, x))
            && (IsUnsigned(n, x) ==> Word(n, s) == Ok(x))
            && (IsSigned(n, x) ==> SWord(n, s) == Ok(x))
            && s[n..] == rest
  {
    PutGet(n, x);
    assert (Put(n, x) + rest)[..n] == Put(n, x);
  }

  // ------------------------------------------------------------------ numerics

  lemma {:induction false} DigitsRoundTrip(ds: seq<nat>, tail: seq<byte>)
    requires forall d | d in ds :: d < NBASE
    ensures DecDigits(|ds|, EncDigits(ds) + tail) == ds
  {
    if ds != [] {
      Sizes();
      var rest := EncDigits(ds[1..]) + tail;
      assert EncDigits(ds) + tail == Put(2, ds[0]) + rest;
      WordPut(2, ds[0], rest);
      assert ds[0] in ds && forall d | d in ds[1..] :: d in ds;
      DigitsRoundTrip(ds[1..], tail);
    }
  }

  lemma Slices(a: seq<byte>, b: seq<byte>, c: seq<byte>, d: seq<byte>, e: seq<byte>)
    requires |a| == |b| == |c| == |d| == 2
    ensures var s := a + b + c + d + e;
            && s[..2] == a && s[2..][..2] == b && s[4..][..2] == c && s[6..][..2] == d
            && s[8..] == e
  {
  }

  lemma WordAt(n: nat, x: int, s: seq<byte>)
    requires |s| >= n && s[..n] == Put(n, x)
    ensures IsUnsigned(n, x) ==> Word(n, s) == Ok(x)
    ensures IsSigned(n, x) ==> SWord(n, s) == Ok(x)
  {
    PutGet(n, x);
  }

  lemma FourWords(n: nat, w: int, g: nat, c: nat, s: seq<byte>)
    requires n < 0x1_0000 && IsSigned(2, w) && g < 0x1_0000 && c < 0x1_0000 && |s| >= 8
    requires s[..2] == Put(2, n) && s[2..][..2] == Put(2, w) && s[4..][..2] == Put(2, g) && s[6..][..2] == Put(2, c)
    ensures Word(2, s) == Ok(n) && SWord(2, s[2..]) == Ok(w) && Word(2, s[4..]) == Ok(g) && Word(2, s[6..]) == Ok(c)
  {
    Sizes();
    WordAt(2, n, s);
    WordAt(2, w, s[2..]);
    WordAt(2, g, s[4..]);
    WordAt(2, c, s[6..]);
  }

  lemma NumericHeader(ds: seq<nat>, weight: int, sign: nat, scale: nat, tail: seq<byte>)
    requires |ds| < 0x1_0000 && IsSigned(2, weight) && sign < 0x1_0000 && scale < 0x1_0000
    ensures var s := EncNumeric(ds, weight, sign, scale) + tail;
            && Word(2, s) == Ok(|ds|) && SWord(2, s[2..]) == Ok(weight)
            && Word(2, s[4..]) == Ok(sign) && Word(2, s[6..]) == Ok(scale)
            && s[8..] == EncDigits(ds) + tail
  {
    var s := EncNumeric(ds, weight, sign, scale) + tail;
    var a, b, c, d, e := Put(2, |ds|), Put(2, weight), Put(2, sign), Put(2, scale), EncDigits(ds);
    Reassociate(a, b, c, d, e, tail);
    Slices(a, b, c, d, e + tail);
    FourWords(|ds|, weight, sign, scale, s);
  }

  lemma Reassociate(a: seq<byte>, b: seq<byte>, c: seq<byte>, d: seq<byte>, e: seq<byte>, f: seq<byte>)
    ensures a + b + c + d + e + f == a + b + c + d + (e + f)
  {
  }

  /** integral_digits and fractional_digits hold MAX_DIGITS = sizeof(T) * 4 groups. */
  lemma WrittenCount(st: Storage, v: nat, scale: nat)
    requires InWidth(st, v, scale)
    ensures |WrittenIntegral(v, scale)| <= 4 * st.Size
    ensures ScaleGroups(scale) <= 4 * st.Size <= 64
  {
    st.WidthFits();
    ScaleCount(st, scale);
    IntegralCountBound(v, scale, st.MaxWidth, 4 * st.Size);
  }

  lemma ScaleCount(st: Storage, scale: nat)
    requires scale <= st.MaxWidth
    ensures ScaleGroups(scale) <= 4 * st.Size <= 64
  {
  }

  lemma IntegralCountBound(v: nat, scale: nat, width: nat, k: nat)
    requires v < Pow(10, width) <= Pow(10000, k)
    ensures |WrittenIntegral(v, scale)| <= k
  {
    hide Pow, Groups;
    FloorAtMost(v, Pow(10, scale));
    GroupsBound(v / Pow(10, scale), k);
  }

  lemma WrittenReadable(st: Storage, m: nat, scale: nat)
    requires InWidth(st, m, scale)
    ensures Readable(st, WrittenDigits(m, scale), WrittenWeight(m, scale), scale)
    ensures Magnitude(WrittenDigits(m, scale), WrittenWeight(m, scale), scale) == m
  {
    MagnitudeOfWritten(m, scale);
  }

  /** Main result on decimals: whatever WriteDecimal can write at all (FractionFits),
      ReadDecimal reads back, at every scale of every storage type. */
  lemma DecimalRoundTrip(st: Storage, v: int, scale: nat, tail: seq<byte>)
    requires InWidth(st, v, scale) && EncDecimal(st, v, scale).Ok?
    ensures var b := EncDecimal(st, v, scale).value;
            8 <= |b| <= 264 && DecNumeric(st, b + tail) == Ok((Ordinary(v), |b|))
  {
    var m: nat := if v < 0 then -v else v;
    assert InWidth(st, m, scale);
    var sign := if v < 0 then NUMERIC_NEG else NUMERIC_POS;
    assert EncDecimal(st, v, scale) == Ok(EncNumeric(WrittenDigits(m, scale), WrittenWeight(m, scale), sign, scale));
    assert WrittenWeight(m, scale) == |WrittenIntegral(m, scale)| - 1;
    assert |WrittenDigits(m, scale)| == |WrittenIntegral(m, scale)| + ScaleGroups(scale);
    hide DecNumeric, EncDecimal, InWidth, WrittenDigits, WrittenWeight, WrittenIntegral, ScaleGroups;
    WrittenCount(st, m, scale);
    WrittenReadable(st, m, scale);
    NumericRoundTrip(st, WrittenDigits(m, scale), WrittenWeight(m, scale), v < 0, scale, tail);
  }

  /** The same for every numeric PostgreSQL can send for the column. */
  lemma NumericRoundTrip(st: Storage, ds: seq<nat>, weight: int, neg: bool, scale: nat, tail: seq<byte>)
    requires |ds| < 0x1_0000 && IsSigned(2, weight) && Readable(st, ds, weight, scale)
    ensures var b := EncNumeric(ds, weight, if neg then NUMERIC_NEG else NUMERIC_POS, scale);
            var m: int := Magnitude(ds, weight, scale);
            DecNumeric(st, b + tail) == Ok((Ordinary(if neg then -m else m), |b|))
  {
    var sign := if neg then NUMERIC_NEG else NUMERIC_POS;
    Sizes();
    NumericHeader(ds, weight, sign, scale, tail);
    DigitsRoundTrip(ds, tail);
  }

  // ------------------------------------------------------------------- scalars

  /** No VARCHAR in the value contains a NUL byte. */
  predicate NulFree(t: Type, v: Value)
    requires HasType(t, v)
    decreases t, v
  {
    match v
    case StrV(b) => t.Varchar? ==> 0 !in b
    case ListV(items) => forall x | x in items :: NulFree(t.elem, x)
    case StructV(fs) => forall i | 0 <= i < |fs| :: NulFree(t.fields[i], fs[i])
    case _ => true
  }

  /** The configuration leaves the text of v alone: nothing to replace in it, or
      no replacement configured, in which case a NUL byte is refused. */
  predicate Verbatim(nul: Option<seq<byte>>, t: Type, v: Value)
    requires HasType(t, v)
  {
    nul.None? || NulFree(t, v)
  }

  lemma TwoWords(m: nat, a: int, n: nat, b: int, tail: seq<byte>)
    ensures var s := Put(m, a) + Put(n, b) + tail;
            s == Put(m, a) + (Put(n, b) + tail) && s[m..] == Put(n, b) + tail
  {
    var s := Put(m, a) + Put(n, b) + tail;
    assert s == Put(m, a) + (Put(n, b) + tail);
  }

  lemma ScalarRoundTrip(nul: Option<seq<byte>>, cfg: Config, t: Type, v: Value, tail: seq<byte>)
    requires HasType(t, v) && !v.NullV? && !t.ListOf? && !t.StructOf?
    requires EncScalar(nul, t, v).Ok? && Verbatim(nul, t, v)
    ensures var b := EncScalar(nul, t, v).value;
            DecScalar(cfg, t, |b|, b + tail) == Ok((v, |b|))
  {
    Sizes();
    var b := EncScalar(nul, t, v).value;
    match t {
      case Boolean => WordPut(1, v.n, tail);
      case SmallInt => WordPut(2, v.n, tail);
      case Integer => WordPut(4, v.n, tail);
      case BigInt => WordPut(8, v.n, tail);
      case Float => WordPut(4, v.n, tail);
      case Double => WordPut(8, v.n, tail);
      case DecimalOf(st, scale) => DecimalRoundTrip(st, v.n, scale, tail);
      case Date =>
        DateRoundTrip(v.n);
        WordPut(4, DateToPostgres(v.n).value, tail);
      case Time => WordPut(8, v.n, tail);
      case TimeTz =>
        TwoWords(8, v.micros, 4, -v.offset, tail);
        WordPut(8, v.micros, Put(4, -v.offset) + tail);
        WordPut(4, -v.offset, tail);
      case Timestamp =>
        TimestampRoundTrip(v.n);
        WordPut(8, TimestampToPostgres(v.n).value, tail);
      case TimestampTz =>
        TimestampRoundTrip(v.n);
        WordPut(8, TimestampToPostgres(v.n).value, tail);
      case Interval => IntervalRoundTrip(v.micros, v.days, v.months, tail);
      case Uuid => UuidRoundTrip(v.upper, v.lower, tail);
      case Varchar => assert (b + tail)[..|b|] == b;
      case Blob => assert (b + tail)[..|b|] == b;
    }
  }

  lemma IntervalRoundTrip(m: int, d: int, o: int, tail: seq<byte>)
    requires IsSigned(8, m) && IsSigned(4, d) && IsSigned(4, o)
    ensures var s := Put(8, m) + Put(4, d) + Put(4, o) + tail;
            SWord(8, s) == Ok(m) && SWord(4, s[8..]) == Ok(d) && SWord(4, s[12..]) == Ok(o)
  {
    var r2 := Put(4, o) + tail;
    var r1 := Put(4, d) + r2;
    var s := Put(8, m) + Put(4, d) + Put(4, o) + tail;
    assert s == Put(8, m) + r1;
    WordPut(8, m, r1);
    WordPut(4, d, r2);
    assert s[12..] == r2;
    WordPut(4, o, tail);
  }

  lemma UuidRoundTrip(u: int, l: int, tail: seq<byte>)
    requires IsSigned(8, u) && IsUnsigned(8, l)
    ensures Pow(256, 8) == TWO64
    ensures var s := Put(8, FlipTop(ToUnsigned(8, u))) + Put(8, l) + tail;
            && Word(8, s) == Ok(FlipTop(ToUnsigned(8, u))) && Word(8, s[8..]) == Ok(l)
            && ToSigned(8, FlipTop(FlipTop(ToUnsigned(8, u)))) == u
  {
    Sizes();
    SignedRoundTrip(8, u);
    var f := FlipTop(ToUnsigned(8, u));
    TwoWords(8, f, 8, l, tail);
    WordPut(8, f, Put(8, l) + tail);
    WordPut(8, l, tail);
  }

  // -------------------------------------------------------------------- arrays

  lemma {:induction false} EncManyAppend(nul: Option<seq<byte>>, t: Type, a: seq<Value>, b: seq<Value>)
    requires (forall v | v in a :: HasType(t, v)) && (forall v | v in b :: HasType(t, v))
    requires EncMany(nul, t, a).Ok? && EncMany(nul, t, b).Ok?
    ensures forall v | v in a + b :: HasType(t, v)
    ensures EncMany(nul, t, a + b) == Ok(EncMany(nul, t, a).value + EncMany(nul, t, b).value)
  {
    hide *;
    EncManyCons(nul, t, a);
    if a == [] {
      assert a + b == b;
      assert [] + EncMany(nul, t, b).value == EncMany(nul, t, b).value;
    } else {
      EncManyAppend(nul, t, a[1..], b);
      var c := a + b;
      assert c[1..] == a[1..] + b && c[0] == a[0];
      EncManyCons(nul, t, c);
      Regrouped(Enc(nul, t, a[0]).value, EncMany(nul, t, a[1..]).value, EncMany(nul, t, b).value);
    }
  }

  lemma EncManyCons(nul: Option<seq<byte>>, t: Type, a: seq<Value>)
    requires forall v | v in a :: HasType(t, v)
    ensures a == [] ==> EncMany(nul, t, a) == Ok([])
    ensures a != [] ==> (EncMany(nul, t, a).Ok? <==> Enc(nul, t, a[0]).Ok? && EncMany(nul, t, a[1..]).Ok?)
    ensures a != [] && EncMany(nul, t, a).Ok? ==>
            EncMany(nul, t, a) == Ok(Enc(nul, t, a[0]).value + EncMany(nul, t, a[1..]).value)
  {
  }

  /** What WriteArray emits is the encoding of the leaves in depth-first order,
      and it only succeeds on rectangular lists of the announced dimensions. */
  lemma {:induction false} EncArrayIsDepthFirst(nul: Option<seq<byte>>, t: Type, dims: seq<nat>, vs: seq<Value>)
    requires t.ListOf? && |dims| == Depth(t) && forall v | v in vs :: HasType(t, v)
    requires EncArray(nul, t, dims, vs).Ok?
    ensures Rect(dims, vs)
    ensures forall v | v in DepthFirst(dims, vs) :: HasType(Leaf(t), v)
    ensures EncMany(nul, Leaf(t), DepthFirst(dims, vs)) == EncArray(nul, t, dims, vs)
    decreases t, |vs|
  {
    if vs != [] {
      assert HasType(t, vs[0]);
      var items := vs[0].items;
      EncArrayIsDepthFirst(nul, t, dims, vs[1..]);
      if t.elem.ListOf? {
        EncArrayIsDepthFirst(nul, t.elem, dims[1..], items);
      } else {
        assert dims[1..] == [];
      }
      RectCons(dims, vs);
      EncManyAppend(nul, Leaf(t), DepthFirst(dims[1..], items), DepthFirst(dims, vs[1..]));
    }
  }

  lemma RectCons(dims: seq<nat>, vs: seq<Value>)
    requires vs != [] && dims != []
    requires vs[0].ListV? && |vs[0].items| == dims[0] && Rect(dims[1..], vs[0].items) && Rect(dims, vs[1..])
    ensures Rect(dims, vs)
  {
    forall v | v in vs ensures v == vs[0] || v in vs[1..] {
    }
  }

  lemma {:induction false} DimsPositive(t: Type, v: Value)
    requires t.ListOf? && Dims(t, v).Ok? && Rect(Dims(t, v).value, [v])
    ensures forall d | d in Dims(t, v).value :: d > 0
  {
    var dims := Dims(t, v).value;
    assert v in [v];
    if t.elem.ListOf? {
      var w := v.items[0];
      assert dims[1..] == Dims(t.elem, w).value;
      RectSub(dims[1..], v.items, w);
      DimsPositive(t.elem, w);
    }
  }

  lemma RectSub(dims: seq<nat>, vs: seq<Value>, v: Value)
    requires Rect(dims, vs) && v in vs
    ensures Rect(dims, [v])
  {
  }

  lemma {:induction false} CountsFitWhenProductDoes(n: nat, dims: seq<nat>)
    requires n * Prod(dims) < TWO32 && forall d | d in dims :: d > 0
    ensures CountsFit(n, dims) && n <= n * Prod(dims)
    decreases |dims|
  {
    if dims != [] {
      ProdCons(n, dims);
      assert forall d | d in dims[1..] :: d in dims;
      CountsFitWhenProductDoes(n * dims[0], dims[1..]);
      assert dims[0] in dims;
      TimesAtLeast(n, dims[0]);
    }
  }

  lemma {:induction false} DimsRoundTrip(dims: seq<nat>, tail: seq<byte>)
    requires forall d | d in dims :: d < TWO32
    ensures DecDims(|dims|, EncDims(dims) + tail) == Ok(dims)
  {
    hide *;
    DimsCases(dims);
    if dims != [] {
      assert dims[0] in dims && forall d | d in dims[1..] :: d in dims;
      DimsRoundTrip(dims[1..], tail);
      OneDim(dims[0], EncDims(dims[1..]), tail);
      DecDimsStep(|dims|, dims[0], EncDims(dims) + tail, dims[1..]);
      assert [dims[0]] + dims[1..] == dims;
    }
  }

  lemma DimsCases(dims: seq<nat>)
    ensures dims == [] ==> EncDims(dims) == [] && forall s :: DecDims(0, s) == Ok([])
    ensures dims != [] ==> EncDims(dims) == Put(4, dims[0]) + Put(4, 1) + EncDims(dims[1..])
  {
    hide Put, Word;
  }

  lemma DecDimsStep(n: nat, d: nat, s: seq<byte>, rest: seq<nat>)
    requires n > 0 && |s| >= 8 && Word(4, s) == Ok(d) && DecDims(n - 1, s[8..]) == Ok(rest)
    ensures DecDims(n, s) == Ok([d] + rest)
  {
  }

  lemma OneDim(d: nat, more: seq<byte>, tail: seq<byte>)
    requires d < TWO32
    ensures var s := Put(4, d) + Put(4, 1) + more + tail;
            Word(4, s) == Ok(d) && s[8..] == more + tail
  {
    Sizes();
    hide Put, Pow;
    var a, b := Put(4, d), Put(4, 1);
    var s := a + b + more + tail;
    assert s[..4] == a;
    WordAt(4, d, s);
  }

  // -------------------------------------------------------------- whole values

  lemma {:induction false} EncManySize(nul: Option<seq<byte>>, t: Type, vs: seq<Value>)
    requires (forall v | v in vs :: HasType(t, v)) && EncMany(nul, t, vs).Ok?
    ensures |EncMany(nul, t, vs).value| >= 4 * |vs|
  {
    if vs != [] {
      EncManyCons(nul, t, vs);
      EncManySize(nul, t, vs[1..]);
      EncSize(nul, t, vs[0]);
    }
  }

  lemma EncSize(nul: Option<seq<byte>>, t: Type, v: Value)
    requires HasType(t, v) && Enc(nul, t, v).Ok?
    ensures |Enc(nul, t, v).value| >= 4
  {
  }

  lemma {:induction false} LeavesNulFree(t: Type, dims: seq<nat>, vs: seq<Value>)
    requires t.ListOf? && |dims| == Depth(t) && Rect(dims, vs)
    requires forall v | v in vs :: HasType(t, v) && NulFree(t, v)
    ensures forall v | v in DepthFirst(dims, vs) :: HasType(Leaf(t), v) && NulFree(Leaf(t), v)
    decreases t, |vs|
  {
    if vs != [] {
      var items := vs[0].items;
      assert HasType(t, vs[0]) && NulFree(t, vs[0]);
      LeavesNulFree(t, dims, vs[1..]);
      if t.elem.ListOf? {
        LeavesNulFree(t.elem, dims[1..], items);
      }
    }
  }

  lemma FieldSplit(body: seq<byte>, tail: seq<byte>)
    requires |body| <= INT32_MAX
    ensures SWord(4, Patched(body) + tail) == Ok(|body|) && (Patched(body) + tail)[4..] == body + tail
  {
    Sizes();
    var s := Put(4, |body|) + body + tail;
    assert s[..4] == Put(4, |body|);
    WordAt(4, |body|, s);
  }

  lemma ArrayHeader(b: int, c: int, d: int, rest: seq<byte>)
    requires 0 <= b < TWO32 && 0 <= c < TWO32 && 0 <= d < TWO32
    ensures var s := Put(4, b) + Put(4, c) + Put(4, d) + rest;
            && Word(4, s) == Ok(b) && Word(4, s[4..]) == Ok(c) && Word(4, s[8..]) == Ok(d)
            && s[12..] == rest
  {
    Sizes();
    var x, y, z := Put(4, b), Put(4, c), Put(4, d);
    var s := x + y + z + rest;
    assert s[..4] == x && s[4..][..4] == y && s[8..][..4] == z;
    WordAt(4, b, s);
    WordAt(4, c, s[4..]);
    WordAt(4, d, s[8..]);
  }

  lemma EmptyListRoundTrip(cfg: Config, t: Type, oid: nat, tail: seq<byte>)
    requires t.ListOf? && oid < TWO32
    ensures Dec(cfg, t, Put(4, 12) + Put(4, 0) + Put(4, 0) + Put(4, oid) + tail) == Ok((ListV([]), 16))
  {
    hide Dec, Word, SWord, Put;
    var body := Put(4, 0) + Put(4, 0) + Put(4, oid);
    FieldSplit(body, tail);
    assert Put(4, 12) + Put(4, 0) + Put(4, 0) + Put(4, oid) + tail == Patched(body) + tail;
    ArrayHeader(0, 0, oid, tail);
    assert DecList(cfg, t, 12, body + tail) == Ok((ListV([]), 12));
    DecAssembles(cfg, t, Patched(body) + tail, 12, ListV([]), 12);
  }

  /** Values whose text nothing is replaced in. Field lengths are int32_t, so the
      field is taken to be shorter than 2 GiB. */
  lemma {:induction false} PlainRoundTrip(nul: Option<seq<byte>>, cfg: Config, t: Type, v: Value, tail: seq<byte>)
    requires HasType(t, v) && Verbatim(nul, t, v)
    requires Enc(nul, t, v).Ok? && |Enc(nul, t, v).value| <= INT32_MAX
    ensures Dec(cfg, t, Enc(nul, t, v).value + tail) == Ok((v, |Enc(nul, t, v).value|))
    decreases t, 1, 0
  {
    hide *;
    EncCases(nul, t, v);
    if v.NullV? {
      NullRoundTrip(cfg, t, tail);
    } else if t.ListOf? {
      if v.items == [] {
        EmptyListRoundTrip(cfg, t, Oid(t.elem).value, tail);
      } else {
        ArrayRoundTrip(nul, cfg, t, v, tail);
      }
    } else if t.StructOf? {
      StructRoundTrip(nul, cfg, t, v, tail);
    } else {
      var body := EncScalar(nul, t, v).value;
      FieldSplit(body, tail);
      ScalarRoundTrip(nul, cfg, t, v, tail);
      DecAssembles(cfg, t, Patched(body) + tail, |body|, v, |body|);
    }
  }

  /** Enc by case, and the shape of a non-NULL value of each kind of type. */
  lemma EncCases(nul: Option<seq<byte>>, t: Type, v: Value)
    requires HasType(t, v) && Enc(nul, t, v).Ok?
    ensures v.NullV? ==> Enc(nul, t, v) == Ok(Put(4, -1))
    ensures !v.NullV? && t.ListOf? ==> v.ListV? && Enc(nul, t, v) == EncList(nul, t, v)
    ensures !v.NullV? && t.ListOf? && v.items == [] ==> Oid(t.elem).Ok? && Enc(nul, t, v) == Ok(Put(4, 12) + Put(4, 0) + Put(4, 0) + Put(4, Oid(t.elem).value))
    ensures !v.NullV? && t.StructOf? ==> v.StructV?
    ensures !v.NullV? && !t.ListOf? && !t.StructOf? ==>
            EncScalar(nul, t, v).Ok? && Enc(nul, t, v) == Ok(Patched(EncScalar(nul, t, v).value))
  {
    hide EncScalar, Put, EncArray, EncFields;
  }

  lemma NullRoundTrip(cfg: Config, t: Type, tail: seq<byte>)
    ensures Dec(cfg, t, Put(4, -1) + tail) == Ok((NullV, 4))
  {
    hide DecList, DecStruct, DecScalar;
    Sizes();
    WordPut(4, -1, tail);
  }

  lemma DecAssembles(cfg: Config, t: Type, s: seq<byte>, len: int, v: Value, k: nat)
    requires SWord(4, s) == Ok(len) && len != -1
    requires (if t.ListOf? then DecList(cfg, t, len, s[4..]) else if t.StructOf? then DecStruct(cfg, t, s[4..])
              else DecScalar(cfg, t, len, s[4..])) == Ok((v, k))
    ensures Dec(cfg, t, s) == Ok((v, 4 + k))
  {
    hide DecList, DecStruct, DecScalar;
  }

  lemma StructRoundTrip(nul: Option<seq<byte>>, cfg: Config, t: Type, v: Value, tail: seq<byte>)
    requires t.StructOf? && v.StructV? && HasType(t, v) && Verbatim(nul, t, v)
    requires Enc(nul, t, v).Ok? && |Enc(nul, t, v).value| <= INT32_MAX
    ensures Dec(cfg, t, Enc(nul, t, v).value + tail) == Ok((v, |Enc(nul, t, v).value|))
    decreases t, 0, 0
  {
    assert INT32_MAX < TWO32;
    hide *;
    EncStruct(nul, t, v);
    var fs := EncFields(nul, t.fields, v.fields).value;
    EncFieldsSize(nul, t.fields, v.fields);
    var n := |t.fields|;
    var body := Put(4, n) + fs;
    FieldSplit(body, tail);
    FieldCount(n, fs, tail);
    FieldsRoundTrip(nul, cfg, t.fields, v.fields, tail);
    StructDecodes(cfg, t, body + tail, v, |fs|);
    DecAssembles(cfg, t, Patched(body) + tail, |body|, v, |body|);
  }

  lemma EncStruct(nul: Option<seq<byte>>, t: Type, v: Value)
    requires t.StructOf? && v.StructV? && HasType(t, v) && Verbatim(nul, t, v) && Enc(nul, t, v).Ok?
    ensures |t.fields| == |v.fields| && forall i | 0 <= i < |v.fields| :: HasType(t.fields[i], v.fields[i]) && Verbatim(nul, t.fields[i], v.fields[i])
    ensures EncFields(nul, t.fields, v.fields).Ok?
    ensures Enc(nul, t, v) == Ok(Patched(Put(4, |t.fields|) + EncFields(nul, t.fields, v.fields).value))
  {
    hide EncFields;
  }

  lemma StructDecodes(cfg: Config, t: Type, s: seq<byte>, v: Value, k: nat)
    requires t.StructOf? && v.StructV? && Word(4, s) == Ok(|t.fields|) && |s| >= 4
    requires DecFields(cfg, t.fields, s[4..]) == Ok((v.fields, k))
    ensures DecStruct(cfg, t, s) == Ok((v, 4 + k))
  {
    hide DecFields, Word;
  }

  /** A count or OID word in front of the bytes it announces. */
  lemma FieldCount(n: nat, fs: seq<byte>, tail: seq<byte>)
    requires n < TWO32
    ensures var s := Put(4, n) + fs + tail;
            Word(4, s) == Ok(n) && s[4..] == fs + tail
  {
    Sizes();
    var s := Put(4, n) + fs + tail;
    assert s[..4] == Put(4, n);
    WordAt(4, n, s);
  }

  lemma {:induction false} EncFieldsSize(nul: Option<seq<byte>>, ts: seq<Type>, vs: seq<Value>)
    requires |ts| == |vs| && forall i | 0 <= i < |vs| :: HasType(ts[i], vs[i])
    requires EncFields(nul, ts, vs).Ok?
    ensures |EncFields(nul, ts, vs).value| >= 8 * |ts|
  {
    if ts != [] {
      EncFieldsSize(nul, ts[1..], vs[1..]);
      EncSize(nul, ts[0], vs[0]);
    }
  }

  lemma {:induction false} FieldsRoundTrip(nul: Option<seq<byte>>, cfg: Config, ts: seq<Type>, vs: seq<Value>, tail: seq<byte>)
    requires |ts| == |vs| && forall i | 0 <= i < |vs| :: HasType(ts[i], vs[i]) && Verbatim(nul, ts[i], vs[i])
    requires EncFields(nul, ts, vs).Ok? && |EncFields(nul, ts, vs).value| <= INT32_MAX
    ensures DecFields(cfg, ts, EncFields(nul, ts, vs).value + tail) == Ok((vs, |EncFields(nul, ts, vs).value|))
    decreases ts, 3, 0
  {
    hide *;
    EncFieldsCons(nul, ts, vs);
    if ts == [] {
      DecNoFields(cfg, EncFields(nul, ts, vs).value + tail);
    } else {
      var oid, x, y := Oid(ts[0]).value, Enc(nul, ts[0], vs[0]).value, EncFields(nul, ts[1..], vs[1..]).value;
      var s := EncFields(nul, ts, vs).value + tail;
      assert s == Put(4, oid) + x + (y + tail);
      FieldCount(oid, x, y + tail);
      PlainRoundTrip(nul, cfg, ts[0], vs[0], y + tail);
      FieldsRoundTrip(nul, cfg, ts[1..], vs[1..], tail);
      assert s[4 + |x|..] == y + tail;
      DecFieldsStep(cfg, ts, s, vs[0], |x|, vs[1..], |y|);
      assert [vs[0]] + vs[1..] == vs;
    }
  }

  lemma EncFieldsCons(nul: Option<seq<byte>>, ts: seq<Type>, vs: seq<Value>)
    requires |ts| == |vs| && (forall i | 0 <= i < |vs| :: HasType(ts[i], vs[i])) && EncFields(nul, ts, vs).Ok?
    ensures ts == [] ==> EncFields(nul, ts, vs) == Ok([])
    ensures ts != [] ==>
            && Oid(ts[0]).Ok? && Enc(nul, ts[0], vs[0]).Ok? && EncFields(nul, ts[1..], vs[1..]).Ok?
            && EncFields(nul, ts, vs) == Ok(Put(4, Oid(ts[0]).value) + Enc(nul, ts[0], vs[0]).value + EncFields(nul, ts[1..], vs[1..]).value)
  {
  }

  lemma DecNoFields(cfg: Config, s: seq<byte>)
    ensures DecFields(cfg, [], s) == Ok(([], 0))
  {
  }

  lemma DecFieldsStep(cfg: Config, ts: seq<Type>, s: seq<byte>, v: Value, k: nat, vs: seq<Value>, m: nat)
    requires ts != [] && |s| >= 4 + k && Word(4, s).Ok? && Dec(cfg, ts[0], s[4..]) == Ok((v, k))
    requires DecFields(cfg, ts[1..], s[4 + k..]) == Ok((vs, m))
    ensures DecFields(cfg, ts, s) == Ok(([v] + vs, 4 + k + m))
  {
    hide Dec, Word;
  }

  lemma DecManyStep(cfg: Config, t: Type, n: nat, s: seq<byte>, v: Value, k: nat, vs: seq<Value>, m: nat)
    requires n > 0 && |s| >= k && Dec(cfg, t, s) == Ok((v, k)) && DecMany(cfg, t, n - 1, s[k..]) == Ok((vs, m))
    ensures DecMany(cfg, t, n, s) == Ok(([v] + vs, k + m))
  {
    hide Dec;
  }

  lemma {:induction false} ManyRoundTrip(nul: Option<seq<byte>>, cfg: Config, t: Type, vs: seq<Value>, tail: seq<byte>)
    requires forall v | v in vs :: HasType(t, v) && Verbatim(nul, t, v)
    requires EncMany(nul, t, vs).Ok? && |EncMany(nul, t, vs).value| <= INT32_MAX
    ensures DecMany(cfg, t, |vs|, EncMany(nul, t, vs).value + tail) == Ok((vs, |EncMany(nul, t, vs).value|))
    decreases t, 2, |vs|
  {
    hide *;
    EncManyCons(nul, t, vs);
    if vs == [] {
      DecNone(cfg, t, EncMany(nul, t, vs).value + tail);
    } else {
      var x, y := Enc(nul, t, vs[0]).value, EncMany(nul, t, vs[1..]).value;
      Regrouped(x, y, tail);
      PlainRoundTrip(nul, cfg, t, vs[0], y + tail);
      ManyRoundTrip(nul, cfg, t, vs[1..], tail);
      assert (x + (y + tail))[|x|..] == y + tail;
      DecManyStep(cfg, t, |vs|, x + (y + tail), vs[0], |x|, vs[1..], |y|);
      assert [vs[0]] + vs[1..] == vs;
    }
  }

  lemma DecNone(cfg: Config, t: Type, s: seq<byte>)
    ensures DecMany(cfg, t, 0, s) == Ok(([], 0))
  {
  }

  lemma EncOfArray(nul: Option<seq<byte>>, t: Type, v: Value)
    requires t.ListOf? && v.ListV? && v.items != [] && HasType(t, v) && EncList(nul, t, v).Ok?
    ensures Oid(t.elem).Ok? && Dims(t, v).Ok? && EncArray(nul, t, Dims(t, v).value, [v]).Ok?
    ensures var elems := EncArray(nul, t, Dims(t, v).value, [v]).value;
            EncList(nul, t, v) == Ok(Patched(ArrayBody(Oid(t.elem).value, Dims(t, v).value, elems)))
  {
  }

  lemma ArrayRoundTrip(nul: Option<seq<byte>>, cfg: Config, t: Type, v: Value, tail: seq<byte>)
    requires t.ListOf? && v.ListV? && v.items != [] && HasType(t, v) && Verbatim(nul, t, v)
    requires EncList(nul, t, v).Ok? && |EncList(nul, t, v).value| <= INT32_MAX
    ensures Dec(cfg, t, EncList(nul, t, v).value + tail) == Ok((v, |EncList(nul, t, v).value|))
    decreases t, 0, 0
  {
    hide *;
    EncOfArray(nul, t, v);
    var oid, dims := Oid(t.elem).value, Dims(t, v).value;
    var elems := EncArray(nul, t, dims, [v]).value;
    ArrayLeaves(nul, t, dims, v);
    var l := DepthFirst(dims, [v]);
    LeafSmaller(t);
    ManyRoundTrip(nul, cfg, Leaf(t), l, tail);
    ArrayDecodes(cfg, t, oid, dims, elems, l, v, tail);
  }

  /** The leaves of one accepted list: their encoding, their number, their shape. */
  lemma ArrayLeaves(nul: Option<seq<byte>>, t: Type, dims: seq<nat>, v: Value)
    requires t.ListOf? && v.ListV? && HasType(t, v) && Verbatim(nul, t, v)
    requires Dims(t, v) == Ok(dims) && EncArray(nul, t, dims, [v]).Ok?
    ensures Rect(dims, [v]) && forall d | d in dims :: d > 0
    ensures var l := DepthFirst(dims, [v]);
            && (forall x | x in l :: HasType(Leaf(t), x) && Verbatim(nul, Leaf(t), x))
            && EncMany(nul, Leaf(t), l) == EncArray(nul, t, dims, [v])
            && |l| == Prod(dims) && Rows(dims, 1, l) == [v]
            && |EncArray(nul, t, dims, [v]).value| >= 4 * |l|
  {
    EncArrayIsDepthFirst(nul, t, dims, [v]);
    DimsPositive(t, v);
    RowsOfDepthFirst(dims, [v]);
    EncManySize(nul, Leaf(t), DepthFirst(dims, [v]));
    if nul.Some? {
      LeavesNulFree(t, dims, [v]);
    }
  }

  lemma ArrayDecodes(cfg: Config, t: Type, oid: nat, dims: seq<nat>, elems: seq<byte>, l: seq<Value>, v: Value, tail: seq<byte>)
    requires t.ListOf? && |dims| == Depth(t) && oid < TWO32
    requires forall d | d in dims :: 0 < d < TWO32
    requires |l| == Prod(dims) && 4 * |l| <= |elems| && Rows(dims, 1, l) == [v]
    requires DecMany(cfg, Leaf(t), |l|, elems + tail) == Ok((l, |elems|))
    requires 12 + 8 * |dims| + |elems| <= INT32_MAX
    ensures var b := Patched(ArrayBody(oid, dims, elems));
            Dec(cfg, t, b + tail) == Ok((v, |b|))
  {
    assert INT32_MAX < TWO32;
    hide *;
    var body := ArrayBody(oid, dims, elems);
    BodyWords(oid, dims, elems, tail);
    CountsFitWhenProductDoes(1, dims);
    ListDecodes(cfg, t, body + tail, dims, l, |elems|, |body|);
    FieldSplit(body, tail);
    DecAssembles(cfg, t, Patched(body) + tail, |body|, v, |body|);
  }

  lemma BodyWords(oid: nat, dims: seq<nat>, elems: seq<byte>, tail: seq<byte>)
    requires oid < TWO32 && |dims| < TWO32 && forall d | d in dims :: d < TWO32
    ensures var s := ArrayBody(oid, dims, elems) + tail;
            && |s| >= 12 + 8 * |dims|
            && Word(4, s) == Ok(|dims|) && Word(4, s[4..]).Ok? && Word(4, s[8..]).Ok?
            && DecDims(|dims|, s[12..]) == Ok(dims) && s[12..][8 * |dims|..] == elems + tail
  {
    assert 1 < TWO32;
    hide *;
    var rest := EncDims(dims) + (elems + tail);
    BodySplit(oid, dims, elems, tail);
    ArrayHeader(|dims|, 1, oid, rest);
    DimsRoundTrip(dims, elems + tail);
    assert rest[8 * |dims|..] == elems + tail;
  }

  lemma BodySplit(oid: nat, dims: seq<nat>, elems: seq<byte>, tail: seq<byte>)
    ensures ArrayBody(oid, dims, elems) + tail == Put(4, |dims|) + Put(4, 1) + Put(4, oid) + (EncDims(dims) + (elems + tail))
  {
    Reframe(Put(4, |dims|), Put(4, 1), Put(4, oid), EncDims(dims), elems, tail);
  }

  lemma ListDecodes(cfg: Config, t: Type, s: seq<byte>, dims: seq<nat>, l: seq<Value>, k: nat, len: nat)
    requires t.ListOf? && |dims| == Depth(t) && |s| >= 12 + 8 * |dims| && |l| == Prod(dims) && len >= 1
    requires Word(4, s) == Ok(|dims|) && Word(4, s[4..]).Ok? && Word(4, s[8..]).Ok?
    requires DecDims(|dims|, s[12..]) == Ok(dims) && CountsFit(1, dims)
    requires DecMany(cfg, Leaf(t), |l|, s[12..][8 * |dims|..]) == Ok((l, k))
    ensures DecList(cfg, t, len, s) == Ok((Rows(dims, 1, l)[0], 12 + 8 * |dims| + k))
  {
    hide Dec, DecMany, DecDims, Rows, Word, CountsFit;
    LeafSmaller(t);
    assert s[12 + 8 * |dims|..] == s[12..][8 * |dims|..];
  }

  lemma Reframe(b: seq<byte>, c: seq<byte>, d: seq<byte>, e: seq<byte>, f: seq<byte>, g: seq<byte>)
    ensures b + c + d + e + f + g == b + c + d + (e + (f + g))
  {
  }

  // ------------------------------------------------------------- replaced NUL bytes

  function JoinBytes(ps: seq<seq<byte>>, sep: seq<byte>): seq<byte> {
    if ps == [] then [] else if |ps| == 1 then ps[0] else ps[0] + sep + JoinBytes(ps[1..], sep)
  }

  /** Text between NUL bytes. */
  function NulPieces(s: seq<byte>): (ps: seq<seq<byte>>)
    ensures ps != []
  {
    if s == [] then [[]]
    else
      var ps := NulPieces(s[1..]);
      if s[0] == 0 then [[]] + ps else [[s[0]] + ps[0]] + ps[1..]
  }

  /** Every text is NUL-free pieces joined by NUL. */
  lemma {:induction false} PiecesOfText(s: seq<byte>)
    ensures JoinBytes(NulPieces(s), [0]) == s && forall p | p in NulPieces(s) :: 0 !in p
  {
    if s != [] {
      var ps, qs := NulPieces(s[1..]), NulPieces(s);
      PiecesOfText(s[1..]);
      assert s == [s[0]] + s[1..];
      if s[0] == 0 {
        assert qs[1..] == ps && qs[0] == [];
      } else {
        assert ps[0] in ps && qs[1..] == ps[1..];
        assert [s[0]] + (ps[0] + [0] + JoinBytes(ps[1..], [0])) == [s[0]] + ps[0] + [0] + JoinBytes(ps[1..], [0]);
      }
    }
  }

  lemma {:induction false} ReplaceAppend(subst: seq<byte>, a: seq<byte>, b: seq<byte>)
    ensures ReplaceNul(subst, a + b) == ReplaceNul(subst, a) + ReplaceNul(subst, b)
  {
    if a == [] {
      assert a + b == b;
    } else {
      assert (a + b)[1..] == a[1..] + b;
      ReplaceAppend(subst, a[1..], b);
      var head := if a[0] == 0 then subst else [a[0]];
      Regrouped(head, ReplaceNul(subst, a[1..]), ReplaceNul(subst, b));
    }
  }

  lemma {:induction false} ReplaceNothing(subst: seq<byte>, s: seq<byte>)
    requires 0 !in s
    ensures ReplaceNul(subst, s) == s
  {
    if s != [] {
      assert s[0] in s;
      ReplaceNothing(subst, s[1..]);
    }
  }

  /** Main result on replacement: the pieces stay, the configured text takes the place of
      each NUL between them. */
  lemma {:induction false} ReplacePieces(subst: seq<byte>, ps: seq<seq<byte>>)
    requires forall p | p in ps :: 0 !in p
    ensures ReplaceNul(subst, JoinBytes(ps, [0])) == JoinBytes(ps, subst)
  {
    if |ps| == 1 {
      assert ps[0] in ps;
      ReplaceNothing(subst, ps[0]);
    } else if |ps| > 1 {
      var rest := JoinBytes(ps[1..], [0]);
      assert ps[0] in ps && forall p | p in ps[1..] :: p in ps;
      ReplacePieces(subst, ps[1..]);
      ReplaceNothing(subst, ps[0]);
      OneReplaced(subst);
      hide ReplaceNul;
      ReplaceAppend(subst, ps[0] + [0], rest);
      ReplaceAppend(subst, ps[0], [0]);
    }
  }

  lemma OneReplaced(subst: seq<byte>)
    ensures ReplaceNul(subst, [0]) == subst
  {
    assert [0][1..] == [];
    assert subst + [] == subst;
  }

  /** With a usable replacement no NUL is left. */
  lemma {:induction false} ReplacedHasNoNul(subst: seq<byte>, s: seq<byte>)
    requires 0 !in subst
    ensures 0 !in ReplaceNul(subst, s)
  {
    if s != [] {
      ReplacedHasNoNul(subst, s[1..]);
    }
  }

  /** PostgresCopyState::Initialize refuses a replacement that contains NUL. */
  predicate Usable(nul: Option<seq<byte>>) {
    nul.Some? ==> 0 !in nul.value
  }

  /** The value that is stored: NUL bytes of its texts replaced. */
  function Replaced(nul: Option<seq<byte>>, t: Type, v: Value): (r: Value)
    requires HasType(t, v)
    ensures HasType(t, r) && (r.NullV? <==> v.NullV?) && (r.ListV? <==> v.ListV?) && (r.StructV? <==> v.StructV?)
    ensures v.ListV? ==> |r.items| == |v.items|
    ensures v.StructV? ==> |r.fields| == |v.fields|
    decreases t, v
  {
    match v
    case StrV(b) => if t.Varchar? && nul.Some? then StrV(ReplaceNul(nul.value, b)) else v
    case ListV(items) => ListV(seq(|items|, i requires 0 <= i < |items| => Replaced(nul, t.elem, items[i])))
    case StructV(fs) => StructV(seq(|fs|, i requires 0 <= i < |fs| => Replaced(nul, t.fields[i], fs[i])))
    case _ => v
  }

  function ReplacedAll(nul: Option<seq<byte>>, t: Type, vs: seq<Value>): (r: seq<Value>)
    requires forall v | v in vs :: HasType(t, v)
    ensures |r| == |vs| && forall v | v in r :: HasType(t, v)
  {
    seq(|vs|, i requires 0 <= i < |vs| => Replaced(nul, t, vs[i]))
  }

  function ReplacedFields(nul: Option<seq<byte>>, ts: seq<Type>, vs: seq<Value>): (r: seq<Value>)
    requires |ts| == |vs| && forall i | 0 <= i < |vs| :: HasType(ts[i], vs[i])
    ensures |r| == |vs| && forall i | 0 <= i < |vs| :: HasType(ts[i], r[i])
  {
    seq(|vs|, i requires 0 <= i < |vs| => Replaced(nul, ts[i], vs[i]))
  }

  lemma {:induction false} ReplacedDims(nul: Option<seq<byte>>, t: Type, v: Value)
    requires t.ListOf? && HasType(t, v)
    ensures Dims(t, Replaced(nul, t, v)) == Dims(t, v)
    decreases t
  {
    if v.ListV? && v.items != [] && t.elem.ListOf? {
      assert v.items[0] in v.items;
      ReplacedDims(nul, t.elem, v.items[0]);
    }
  }

  /** Replacing NULs while writing is writing what is left once they are replaced. */
  lemma {:induction false} EncReplaced(nul: Option<seq<byte>>, t: Type, v: Value)
    requires HasType(t, v) && Usable(nul) && Enc(nul, t, v).Ok?
    ensures Enc(None, t, Replaced(nul, t, v)) == Enc(nul, t, v)
    decreases t, 1, 0
  {
    if v.NullV? {
    } else if t.ListOf? {
      var w := Replaced(nul, t, v);
      ReplacedDims(nul, t, v);
      if v.items != [] && Oid(t.elem).Ok? && Dims(t, v).Ok? {
        EncArrayReplaced(nul, t, Dims(t, v).value, [v]);
        assert ReplacedAll(nul, t, [v]) == [w];
      }
    } else if t.StructOf? {
      EncFieldsReplaced(nul, t.fields, v.fields);
      assert Replaced(nul, t, v).fields == ReplacedFields(nul, t.fields, v.fields);
    } else if t.Varchar? && nul.Some? {
      ReplacedHasNoNul(nul.value, v.bytes);
      if 0 !in v.bytes {
        ReplaceNothing(nul.value, v.bytes);
      }
    }
  }

  lemma {:induction false} EncArrayReplaced(nul: Option<seq<byte>>, t: Type, dims: seq<nat>, vs: seq<Value>)
    requires t.ListOf? && |dims| == Depth(t) && (forall v | v in vs :: HasType(t, v)) && Usable(nul)
    requires EncArray(nul, t, dims, vs).Ok?
    ensures EncArray(None, t, dims, ReplacedAll(nul, t, vs)) == EncArray(nul, t, dims, vs)
    decreases t, 0, |vs|
  {
    if vs != [] {
      assert HasType(t, vs[0]);
      var ws, items := ReplacedAll(nul, t, vs), vs[0].items;
      assert ws[1..] == ReplacedAll(nul, t, vs[1..]);
      assert ws[0].items == ReplacedAll(nul, t.elem, items);
      EncArrayReplaced(nul, t, dims, vs[1..]);
      if t.elem.ListOf? {
        EncArrayReplaced(nul, t.elem, dims[1..], items);
      } else {
        EncManyReplaced(nul, t.elem, items);
      }
    }
  }

  lemma {:induction false} EncManyReplaced(nul: Option<seq<byte>>, t: Type, vs: seq<Value>)
    requires (forall v | v in vs :: HasType(t, v)) && Usable(nul) && EncMany(nul, t, vs).Ok?
    ensures EncMany(None, t, ReplacedAll(nul, t, vs)) == EncMany(nul, t, vs)
    decreases t, 2, |vs|
  {
    if vs != [] {
      assert ReplacedAll(nul, t, vs)[1..] == ReplacedAll(nul, t, vs[1..]);
      EncReplaced(nul, t, vs[0]);
      EncManyReplaced(nul, t, vs[1..]);
    }
  }

  lemma {:induction false} EncFieldsReplaced(nul: Option<seq<byte>>, ts: seq<Type>, vs: seq<Value>)
    requires |ts| == |vs| && (forall i | 0 <= i < |vs| :: HasType(ts[i], vs[i])) && Usable(nul) && EncFields(nul, ts, vs).Ok?
    ensures EncFields(None, ts, ReplacedFields(nul, ts, vs)) == EncFields(nul, ts, vs)
    decreases ts, 3, 0
  {
    if ts != [] {
      assert ReplacedFields(nul, ts, vs)[1..] == ReplacedFields(nul, ts[1..], vs[1..]);
      EncReplaced(nul, ts[0], vs[0]);
      EncFieldsReplaced(nul, ts[1..], vs[1..]);
    }
  }

  /** Where there is nothing to replace, or nothing to replace it with, the value stays. */
  lemma {:induction false} ReplacedSame(nul: Option<seq<byte>>, t: Type, v: Value)
    requires HasType(t, v) && Verbatim(nul, t, v)
    ensures Replaced(nul, t, v) == v
    decreases t, v
  {
    match v
    case StrV(b) =>
      if t.Varchar? && nul.Some? {
        ReplaceNothing(nul.value, b);
      }
    case ListV(items) =>
      forall i | 0 <= i < |items| ensures Replaced(nul, t.elem, items[i]) == items[i] {
        ReplacedSame(nul, t.elem, items[i]);
      }
    case StructV(fs) =>
      forall i | 0 <= i < |fs| ensures Replaced(nul, t.fields[i], fs[i]) == fs[i] {
        ReplacedSame(nul, t.fields[i], fs[i]);
      }
    case _ =>
  }

  /** Main result on values: what WriteValue emits for any value of any column type,
      ReadValue reads back, NULs replaced as configured, leaving exactly the bytes
      behind it. Field lengths are int32_t, so the field is taken to be shorter than
      2 GiB. */
  lemma RoundTrip(nul: Option<seq<byte>>, cfg: Config, t: Type, v: Value, tail: seq<byte>)
    requires HasType(t, v) && Usable(nul)
    requires Enc(nul, t, v).Ok? && |Enc(nul, t, v).value| <= INT32_MAX
    ensures Dec(cfg, t, Enc(nul, t, v).value + tail) == Ok((Replaced(nul, t, v), |Enc(nul, t, v).value|))
    ensures Verbatim(nul, t, v) ==> Replaced(nul, t, v) == v
  {
    hide Enc, Dec, Replaced, HasType;
    EncReplaced(nul, t, v);
    PlainRoundTrip(None, cfg, t, Replaced(nul, t, v), tail);
    if Verbatim(nul, t, v) {
      ReplacedSame(nul, t, v);
    }
  }
}
