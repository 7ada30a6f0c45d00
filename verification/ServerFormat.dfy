/** Binary COPY as the server takes it: the file format of the PostgreSQL COPY command
    and the receive functions of its types, written from their description alone, with
    PostgreSQL's own numbers. What the writer sends is proved to be received as the
    values it was made of, and what the format gives a meaning to is proved to be read
    with that meaning. */
module ServerFormat {
  import opened Wrappers
  import opened Bytes
  import opened Decimal
  import opened DateTime
  import opened NestedLists
  import opened WireFormat
  import opened WireRoundTrip

  // ------------------------------------------------------------------- the format

  /** The big-endian two's complement number in a string of bytes. */
  function Signed(b: seq<byte>): int {
    if b != [] && b[0] >= 128 then Val(b) - Pow(256, |b|) else Val(b)
  }

  /** The type names of the catalog by their object identifiers. */
  function TypeOfOid(oid: nat): Option<Type> {
    if oid == 16 then Some(Boolean)
    else if oid == 17 then Some(Blob)
    else if oid == 20 then Some(BigInt)
    else if oid == 21 then Some(SmallInt)
    else if oid == 23 then Some(Integer)
    else if oid == 700 then Some(Float)
    else if oid == 701 then Some(Double)
    else if oid == 1043 then Some(Varchar)
    else if oid == 1082 then Some(Date)
    else if oid == 1083 then Some(Time)
    else if oid == 1114 then Some(Timestamp)
    else if oid == 1184 then Some(TimestampTz)
    else if oid == 1186 then Some(Interval)
    else if oid == 1266 then Some(TimeTz)
    else if oid == 2950 then Some(Uuid)
    else None
  }

  /** Days between the epochs of 1970 and 2000, and the microseconds in them. */
  const EPOCH_DAYS: int := 30 * 365 + 7
  const EPOCH_MICROS: int := EPOCH_DAYS * 86400 * 1000000

  /** A date: days since 2000 from Julian day 0 on, the extremes of the type being the
      infinities. */
  function ReceiveDate(d: int): Option<int> {
    if d == 0x7FFF_FFFF then Some(0x7FFF_FFFF)
    else if d == -0x8000_0000 then Some(-0x7FFF_FFFF)
    else if 0 <= d + 2451545 < 2147483494 then Some(d + EPOCH_DAYS)
    else None
  }

  /** A timestamp: microseconds since 2000, likewise; none if DuckDB has no such finite
      timestamp. */
  function ReceiveTimestamp(u: int): Option<int> {
    if u == 0x7FFF_FFFF_FFFF_FFFF then Some(0x7FFF_FFFF_FFFF_FFFF)
    else if u == -0x8000_0000_0000_0000 then Some(-0x7FFF_FFFF_FFFF_FFFF)
    else
      var t := u + EPOCH_MICROS;
      if -2451545 * 86400000000 <= u < (109203528 - 2451545) * 86400000000 && -0x7FFF_FFFF_FFFF_FFFF < t < 0x7FFF_FFFF_FFFF_FFFF
      then Some(t) else None
  }

  /** A UUID: sixteen bytes, most significant first. DuckDB keeps the 128-bit number
      shifted by half its range, so that UUIDs order as numbers. */
  function ReceiveUuid(n: nat): Value {
    var v: int := n - 0x8000_0000_0000_0000_0000_0000_0000_0000;
    UuidV(v / 0x1_0000_0000_0000_0000, v % 0x1_0000_0000_0000_0000)
  }

  /** A numeric: digit count, weight, sign, scale, then groups of four decimal digits. */
  function ReceiveNumeric(st: Storage, scale: nat, b: seq<byte>): Option<int> {
    if |b| < 8 then None
    else
      var n, w, sign := Val(b[..2]), Signed(b[2..][..2]), Val(b[4..][..2]);
      if |b| != 8 + 2 * n || Val(b[6..][..2]) != scale || (sign != 0x0000 && sign != 0x4000) then None
      else
        var ds := DecDigits(n, b[8..]);
        if (exists d | d in ds :: d >= 10000) || n - w - 1 > (scale + 3) / 4 then None
        else
          var x, d := Numerator(ds, w, scale), Denominator(n, w);
          if x % d != 0 || x / d >= Pow(10, st.MaxWidth) then None
          else Some(if sign == 0x4000 then -((x / d) as int) else x / d)
  }

  function Number(n: Option<int>): Option<Value> {
    if n.None? then None else Some(NumV(n.value))
  }

  /** The value a field of type t with body b means, if there is such a value. */
  function Receive(t: Type, b: seq<byte>): Option<Value>
    decreases t, 2
  {
    match t
    case Boolean => if |b| == 1 then Some(NumV(if b[0] != 0 then 1 else 0)) else None
    case SmallInt => if |b| == 2 then Some(NumV(Signed(b))) else None
    case Integer => if |b| == 4 then Some(NumV(Signed(b))) else None
    case BigInt => if |b| == 8 then Some(NumV(Signed(b))) else None
    case Float => if |b| == 4 then Some(NumV(Val(b))) else None
    case Double => if |b| == 8 then Some(NumV(Val(b))) else None
    case DecimalOf(st, scale) => Number(if scale <= st.MaxWidth then ReceiveNumeric(st, scale, b) else None)
    case Date => if |b| == 4 then Number(ReceiveDate(Signed(b))) else None
    case Time => if |b| == 8 then Some(NumV(Signed(b))) else None
    case TimeTz => if |b| == 12 then Some(TimeTzV(Signed(b[..8]), -Signed(b[8..]))) else None
    case Timestamp => if |b| == 8 then Number(ReceiveTimestamp(Signed(b))) else None
    case TimestampTz => if |b| == 8 then Number(ReceiveTimestamp(Signed(b))) else None
    case Interval => if |b| == 16 then Some(IntervalV(Signed(b[..8]), Signed(b[8..][..4]), Signed(b[12..]))) else None
    case Uuid => if |b| == 16 then Some(ReceiveUuid(Val(b))) else None
    case Varchar => if 0 !in b then Some(StrV(b)) else None
    case Blob => Some(StrV(b))
    case ListOf(_) => ReceiveArray(t, b)
    case StructOf(ts) =>
      if |b| < 4 || Val(b[..4]) != |ts| then None
      else
        match ReceiveFields(ts, b[4..])
        case Some((vs, k)) => if 4 + k == |b| then Some(StructV(vs)) else None
        case None => None
  }

  /** An array: dimensions, null flag, element type, then a length and a lower bound per
      dimension and the elements. */
  function ReceiveArray(t: Type, b: seq<byte>): Option<Value>
    requires t.ListOf?
    decreases t, 1
  {
    if |b| < 12 || Val(b[4..][..4]) > 1 || TypeOfOid(Val(b[8..][..4])) != Some(Leaf(t)) then None
    else
      var n := Val(b[..4]);
      if n == 0 then if |b| == 12 then Some(ListV([])) else None
      else if n != Depth(t) || |b| < 12 + 8 * n || !Bounds(n, b[12..]) then None
      else ReceiveItems(t, Lengths(n, b[12..]), b[12 + 8 * n..])
  }

  function ReceiveItems(t: Type, dims: seq<nat>, s: seq<byte>): Option<Value>
    requires t.ListOf?
    decreases t, 0
  {
    LeafSmaller(t);
    match ReceiveMany(Leaf(t), Prod(dims), s)
    case Some((l, k)) => if k == |s| then Some(Rows(dims, 1, l)[0]) else None
    case None => None
  }

  function Lengths(n: nat, s: seq<byte>): (dims: seq<nat>)
    requires |s| >= 8 * n
    ensures |dims| == n
  {
    if n == 0 then [] else [Val(s[..4])] + Lengths(n - 1, s[8..])
  }

  /** No dimension is empty, and every lower bound is one. */
  predicate Bounds(n: nat, s: seq<byte>)
    requires |s| >= 8 * n
  {
    n == 0 || (Val(s[..4]) > 0 && Val(s[4..][..4]) == 1 && Bounds(n - 1, s[8..]))
  }

  /** A field: its length, or -1 for NULL, and that many bytes. */
  function ReceiveField(t: Type, s: seq<byte>): (r: Option<(Value, nat)>)
    ensures r.Some? ==> r.value.1 <= |s|
    decreases t, 3
  {
    if |s| < 4 then None
    else
      var len := Signed(s[..4]);
      if len == -1 then Some((NullV, 4))
      else if len < 0 || |s| < 4 + len then None
      else
        match Receive(t, s[4..][..len])
        case Some(v) => Some((v, 4 + len))
        case None => None
  }

  function ReceiveMany(t: Type, n: nat, s: seq<byte>): (r: Option<(seq<Value>, nat)>)
    ensures r.Some? ==> |r.value.0| == n && r.value.1 <= |s|
    decreases t, 4, n
  {
    if n == 0 then Some(([], 0))
    else
      var first := ReceiveField(t, s);
      if first.None? then None
      else
        var (v, k) := first.value;
        var more := ReceiveMany(t, n - 1, s[k..]);
        if more.None? then None else Some(([v] + more.value.0, k + more.value.1))
  }

  /** The fields of a record, each behind the identifier of its type. */
  function ReceiveFields(ts: seq<Type>, s: seq<byte>): (r: Option<(seq<Value>, nat)>)
    ensures r.Some? ==> |r.value.0| == |ts| && r.value.1 <= |s|
    decreases ts, 5
  {
    if ts == [] then Some(([], 0))
    else
      var first := ReceiveTagged(ts[0], s);
      if first.None? then None
      else
        var (v, k) := first.value;
        var more := ReceiveFields(ts[1..], s[k..]);
        if more.None? then None else Some(([v] + more.value.0, k + more.value.1))
  }

  function ReceiveTagged(t: Type, s: seq<byte>): (r: Option<(Value, nat)>)
    ensures r.Some? ==> r.value.1 <= |s|
    decreases t, 4
  {
    if |s| < 4 || TypeOfOid(Val(s[..4])) != Some(Leaf(t)) then None
    else
      match ReceiveField(t, s[4..]) case Some((v, k)) => Some((v, 4 + k)) case None => None
  }

  // ------------------------------------------------------------------- numbers

  lemma {:induction false} ValAppend(a: seq<byte>, b: seq<byte>)
    ensures Val(a + b) == Val(a) * Pow(256, |b|) + Val(b)
  {
    if b == [] {
      assert a + b == a && Pow(256, 0) == 1;
    } else {
      var c, x, p := b[..|b| - 1], b[|b| - 1], Pow(256, |b| - 1);
      ValAppend(a, c);
      assert (a + b)[..|a + b| - 1] == a + c;
      MulAssociates(Val(a), p, 256);
      assert Val(a) * p * 256 == Val(a) * (256 * p);
    }
  }

  /** The sign is the topmost bit. */
  lemma SignedIs(b: seq<byte>)
    requires b != []
    ensures IsUnsigned(|b|, Val(b)) && Signed(b) == ToSigned(|b|, Val(b)) && IsSigned(|b|, Signed(b))
  {
    var p, tail := Pow(256, |b| - 1), b[1..];
    BeVal(b);
    BeVal(tail);
    assert b == [b[0]] + tail && Val([b[0]]) == b[0] by {
      assert [b[0]][..0] == [];
    }
    ValAppend([b[0]], tail);
    assert Pow(256, |b|) == 256 * p;
    TopByte(b[0], Val(tail), p);
  }

  lemma TopByte(x: byte, rest: nat, p: nat)
    requires rest < p
    ensures x >= 128 <==> 2 * (x * p + rest) >= 256 * p
  {
    if x >= 128 {
      assert x * p >= 128 * p;
    } else {
      assert x * p <= 127 * p;
    }
  }

  lemma SignedPut(n: nat, x: int)
    requires n > 0
    ensures IsSigned(n, x) ==> Signed(Put(n, x)) == x
    ensures IsUnsigned(n, x) ==> Val(Put(n, x)) == x && Signed(Put(n, x)) == ToSigned(n, x)
  {
    PutGet(n, x);
    SignedIs(Put(n, x));
  }

  lemma WordIs(n: nat, s: seq<byte>)
    requires 0 < n <= |s|
    ensures Word(n, s) == Ok(Val(s[..n])) && SWord(n, s) == Ok(Signed(s[..n]))
  {
    SignedIs(s[..n]);
  }

  /** Main result on UUIDs: the bytes on the wire are the number PostgreSQL means, both
      ways. */
  lemma UuidOnWire(nul: Option<seq<byte>>, u: int, l: int)
    requires IsSigned(8, u) && IsUnsigned(8, l)
    ensures HasType(Uuid, UuidV(u, l)) && EncScalar(nul, Uuid, UuidV(u, l)).Ok?
    ensures var b := EncScalar(nul, Uuid, UuidV(u, l)).value;
            |b| == 16 && Val(b) == (u + 0x8000_0000_0000_0000) * 0x1_0000_0000_0000_0000 + l
  {
    Sizes();
    SignedRoundTrip(8, u);
    var f := FlipTop(ToUnsigned(8, u));
    assert f == u + 0x8000_0000_0000_0000;
    SignedPut(8, f);
    SignedPut(8, l);
    ValAppend(Put(8, f), Put(8, l));
  }

  lemma UuidFromWire(s: seq<byte>)
    requires |s| >= 16
    ensures DecUuid(s).Ok? && DecUuid(s).value.0.UuidV? && DecUuid(s).value.1 == 16
    ensures var v := DecUuid(s).value.0;
            IsSigned(8, v.upper) && IsUnsigned(8, v.lower)
            && Val(s[..16]) == (v.upper + 0x8000_0000_0000_0000) * 0x1_0000_0000_0000_0000 + v.lower
  {
    Sizes();
    WordIs(8, s);
    WordIs(8, s[8..]);
    BeVal(s[..8]);
    BeVal(s[8..][..8]);
    assert s[..16] == s[..8] + s[8..][..8];
    ValAppend(s[..8], s[8..][..8]);
  }

  /** One string of bytes is before another of the same length. */
  predicate Before(a: seq<byte>, b: seq<byte>)
    requires |a| == |b|
  {
    a != [] && (a[0] < b[0] || (a[0] == b[0] && Before(a[1..], b[1..])))
  }

  lemma {:induction false} BeforeIsLess(a: seq<byte>, b: seq<byte>)
    requires |a| == |b|
    ensures Before(a, b) <==> Val(a) < Val(b)
    decreases |a|
  {
    if a != [] {
      var x, y, p := a[1..], b[1..], Pow(256, |a| - 1);
      BeforeIsLess(x, y);
      BeVal(x);
      BeVal(y);
      assert a == [a[0]] + x && b == [b[0]] + y;
      assert [a[0]][..0] == [] && [b[0]][..0] == [];
      ValAppend([a[0]], x);
      ValAppend([b[0]], y);
      Digits(a[0], b[0], Val(x), Val(y), p);
    }
  }

  lemma Digits(a: int, b: int, x: nat, y: nat, p: nat)
    requires x < p && y < p
    ensures a * p + x < b * p + y <==> a < b || (a == b && x < y)
  {
    if a < b {
      assert (a + 1) * p <= b * p;
    } else if a > b {
      assert (b + 1) * p <= a * p;
    }
  }

  /** UUIDs order on the wire as DuckDB orders them. */
  lemma UuidOrder(nul: Option<seq<byte>>, u: int, l: int, v: int, m: int)
    requires IsSigned(8, u) && IsUnsigned(8, l) && IsSigned(8, v) && IsUnsigned(8, m)
    ensures HasType(Uuid, UuidV(u, l)) && HasType(Uuid, UuidV(v, m))
    ensures var a, b := EncScalar(nul, Uuid, UuidV(u, l)), EncScalar(nul, Uuid, UuidV(v, m));
            a.Ok? && b.Ok? && |a.value| == |b.value| && (Before(a.value, b.value) <==> u < v || (u == v && l < m))
  {
    UuidOnWire(nul, u, l);
    UuidOnWire(nul, v, m);
    Sizes();
    BeforeIsLess(EncScalar(nul, Uuid, UuidV(u, l)).value, EncScalar(nul, Uuid, UuidV(v, m)).value);
    Digits(u, v, l, m, 0x1_0000_0000_0000_0000);
  }

  // ------------------------------------------------------------ what is sent arrives

  lemma NumericWords(ds: seq<nat>, w: int, sign: nat, scale: nat)
    requires |ds| < 0x1_0000 && IsSigned(2, w) && sign < 0x1_0000 && scale < 0x1_0000 && forall d | d in ds :: d < NBASE
    ensures var b := EncNumeric(ds, w, sign, scale);
            && |b| == 8 + 2 * |ds| && Val(b[..2]) == |ds| && Signed(b[2..][..2]) == w && Val(b[4..][..2]) == sign
            && Val(b[6..][..2]) == scale && DecDigits(|ds|, b[8..]) == ds
  {
    var b := EncNumeric(ds, w, sign, scale);
    assert b + [] == b;
    NumericHeader(ds, w, sign, scale, []);
    DigitsRoundTrip(ds, []);
    WordIs(2, b);
    WordIs(2, b[2..]);
    WordIs(2, b[4..]);
    WordIs(2, b[6..]);
  }

  lemma NumericArrives(st: Storage, scale: nat, b: seq<byte>, ds: seq<nat>, w: int, neg: bool, m: nat)
    requires |b| == 8 + 2 * |ds| && Val(b[..2]) == |ds| && Signed(b[2..][..2]) == w && Val(b[6..][..2]) == scale
    requires Val(b[4..][..2]) == if neg then 0x4000 else 0x0000
    requires DecDigits(|ds|, b[8..]) == ds && (forall d | d in ds :: d < 10000) && |ds| - w - 1 <= (scale + 3) / 4
    requires Numerator(ds, w, scale) == m * Denominator(|ds|, w) && m < Pow(10, st.MaxWidth)
    ensures ReceiveNumeric(st, scale, b) == Some(if neg then -(m as int) else m)
  {
    hide Val, Signed, DecDigits, Numerator, Denominator, Pow;
    DivModUnique(Numerator(ds, w, scale), Denominator(|ds|, w), m, 0);
  }

  lemma DecimalReceived(st: Storage, v: int, scale: nat)
    requires InWidth(st, v, scale) && EncDecimal(st, v, scale).Ok?
    ensures ReceiveNumeric(st, scale, EncDecimal(st, v, scale).value) == Some(v)
  {
    var m: nat := if v < 0 then -v else v;
    var sign := if v < 0 then NUMERIC_NEG else NUMERIC_POS;
    var ds, w := WrittenDigits(m, scale), WrittenWeight(m, scale);
    assert |ds| == |WrittenIntegral(m, scale)| + ScaleGroups(scale) && w == |WrittenIntegral(m, scale)| - 1;
    assert EncDecimal(st, v, scale).value == EncNumeric(ds, w, sign, scale);
    assert ScaleGroups(scale) == (scale + 3) / 4;
    Sizes();
    WrittenCount(st, m, scale);
    WrittenDenotes(m, scale);
    hide EncDecimal, WrittenDigits, WrittenWeight, WrittenIntegral, EncNumeric, Numerator, Denominator, Pow, ScaleGroups;
    NumericWords(ds, w, sign, scale);
    NumericArrives(st, scale, EncNumeric(ds, w, sign, scale), ds, w, v < 0, m);
  }

  lemma ThreeParts(a: seq<byte>, b: seq<byte>, c: seq<byte>)
    requires |a| == 8 && |b| == 4
    ensures (a + b + c)[..8] == a && (a + b + c)[8..][..4] == b && (a + b + c)[12..] == c
    ensures (a + b)[..8] == a && (a + b)[8..] == b
  {
  }

  /** The date conversion in PostgreSQL's own terms: exactly the dates the server has are
      sent, and arrive. */
  lemma DateReceived(days: int)
    requires IsSigned(4, days)
    ensures DateToPostgres(days).Ok? <==>
            days == DATE_INFINITY || days == DATE_NINFINITY || 0 <= days - EPOCH_DAYS + 2451545 < 2147483494
    ensures DateToPostgres(days).Ok? ==>
            DateToPostgres(days).value < TWO32 && ReceiveDate(ToSigned(4, DateToPostgres(days).value)) == Some(days)
  {
    Sizes();
    var d := days - EPOCH_DAYS;
    if DATE_NINFINITY < days < DATE_INFINITY && DateToPostgres(days).Ok? {
      assert days + DUCKDB_EPOCH_DATE - POSTGRES_EPOCH_JDATE == d;
      SignedRoundTrip(4, d);
    }
  }

  /** The same for timestamps. */
  lemma TimestampReceived(micros: int)
    requires IsSigned(8, micros)
    ensures TimestampToPostgres(micros).Ok? <==>
            micros == TIMESTAMP_INFINITY || micros == TIMESTAMP_NINFINITY
            || 0 <= micros - EPOCH_MICROS + 2451545 * 86400000000 < 109203528 * 86400000000
    ensures TimestampToPostgres(micros).Ok? ==>
            TimestampToPostgres(micros).value < TWO64 && ReceiveTimestamp(ToSigned(8, TimestampToPostgres(micros).value)) == Some(micros)
  {
    Sizes();
    var u := micros - EPOCH_MICROS;
    assert POSTGRES_EPOCH_TS - DUCKDB_EPOCH_TS == EPOCH_MICROS;
    if micros != TIMESTAMP_INFINITY && micros != TIMESTAMP_NINFINITY && TimestampToPostgres(micros).Ok? {
      SignedRoundTrip(8, u);
    }
  }

  predicate PlainNumber(t: Type) {
    t.Boolean? || t.SmallInt? || t.Integer? || t.BigInt? || t.Float? || t.Double?
  }

  lemma NumberReceived(t: Type, v: Value)
    requires HasType(t, v) && !v.NullV? && PlainNumber(t) && EncScalar(None, t, v).Ok?
    ensures Receive(t, EncScalar(None, t, v).value) == Some(v)
  {
    Sizes();
    match t {
      case Boolean => SignedPut(1, v.n); OneByte(Put(1, v.n));
      case SmallInt => SignedPut(2, v.n);
      case Integer => SignedPut(4, v.n);
      case BigInt => SignedPut(8, v.n);
      case Float => SignedPut(4, v.n);
      case Double => SignedPut(8, v.n);
    }
  }

  lemma TimeTzReceived(micros: int, offset: int)
    requires IsSigned(8, micros) && IsSigned(4, -offset)
    ensures Receive(TimeTz, Put(8, micros) + Put(4, -offset)) == Some(TimeTzV(micros, offset))
  {
    Sizes();
    SignedPut(8, micros);
    SignedPut(4, -offset);
    ThreeParts(Put(8, micros), Put(4, -offset), []);
    hide Put, Signed;
  }

  lemma IntervalReceived(micros: int, days: int, months: int)
    requires IsSigned(8, micros) && IsSigned(4, days) && IsSigned(4, months)
    ensures Receive(Interval, Put(8, micros) + Put(4, days) + Put(4, months)) == Some(IntervalV(micros, days, months))
  {
    Sizes();
    SignedPut(8, micros);
    SignedPut(4, days);
    SignedPut(4, months);
    ThreeParts(Put(8, micros), Put(4, days), Put(4, months));
    hide Put, Signed;
  }

  lemma UuidReceived(u: int, l: int)
    requires IsSigned(8, u) && IsUnsigned(8, l)
    ensures HasType(Uuid, UuidV(u, l)) && EncScalar(None, Uuid, UuidV(u, l)).Ok?
    ensures Receive(Uuid, EncScalar(None, Uuid, UuidV(u, l)).value) == Some(UuidV(u, l))
  {
    UuidOnWire(None, u, l);
    Sizes();
    DivModUnique(u * 0x1_0000_0000_0000_0000 + l, 0x1_0000_0000_0000_0000, u, l);
    hide EncScalar;
  }

  lemma MomentReceived(t: Type, v: Value)
    requires HasType(t, v) && !v.NullV? && (t.Date? || t.Timestamp? || t.TimestampTz?) && EncScalar(None, t, v).Ok?
    ensures Receive(t, EncScalar(None, t, v).value) == Some(v)
  {
    Sizes();
    if t.Date? {
      DateReceived(v.n);
      SignedPut(4, DateToPostgres(v.n).value);
    } else {
      TimestampReceived(v.n);
      SignedPut(8, TimestampToPostgres(v.n).value);
    }
    hide Put, Signed, DateToPostgres, TimestampToPostgres, ReceiveDate, ReceiveTimestamp;
  }

  lemma ScalarReceived(t: Type, v: Value)
    requires HasType(t, v) && !v.NullV? && !t.ListOf? && !t.StructOf? && EncScalar(None, t, v).Ok?
    ensures Receive(t, EncScalar(None, t, v).value) == Some(v)
  {
    if PlainNumber(t) {
      NumberReceived(t, v);
    } else if t.Date? || t.Timestamp? || t.TimestampTz? {
      MomentReceived(t, v);
    } else if t.DecimalOf? {
      DecimalReceived(t.storage, v.n, t.scale);
      hide EncDecimal, ReceiveNumeric, InWidth;
    } else if t.Time? {
      Sizes();
      SignedPut(8, v.n);
      hide Put, Signed;
    } else if t.TimeTz? {
      TimeTzReceived(v.micros, v.offset);
      hide Receive, Put;
    } else if t.Interval? {
      IntervalReceived(v.micros, v.days, v.months);
      hide Receive, Put;
    } else if t.Uuid? {
      UuidReceived(v.upper, v.lower);
      hide Receive, Put;
    }
  }

  lemma OneByte(b: seq<byte>)
    requires |b| == 1
    ensures Val(b) == b[0]
  {
    assert b[..0] == [];
  }

  /** The catalog knows the identifiers the writer uses by the same names. */
  lemma {:induction false} OidNames(t: Type)
    requires Oid(t).Ok?
    ensures TypeOfOid(Oid(t).value) == Some(Leaf(t))
    decreases t
  {
    if t.ListOf? {
      OidNames(t.elem);
    }
  }

  lemma FieldArrives(t: Type, body: seq<byte>, v: Value, tail: seq<byte>)
    requires |body| <= INT32_MAX && Receive(t, body) == Some(v)
    ensures ReceiveField(t, Patched(body) + tail) == Some((v, 4 + |body|))
  {
    hide Receive;
    var s := Patched(body) + tail;
    FieldSplit(body, tail);
    WordIs(4, s);
    assert s[4..][..|body|] == body;
  }

  lemma NullArrives(t: Type, tail: seq<byte>)
    ensures ReceiveField(t, Put(4, -1) + tail) == Some((NullV, 4))
  {
    Sizes();
    SignedPut(4, -1);
    assert (Put(4, -1) + tail)[..4] == Put(4, -1);
  }

  lemma DimArrives(d: nat, rest: seq<byte>)
    requires 0 < d < TWO32
    ensures var s := Put(4, d) + Put(4, 1) + rest;
            |s| == 8 + |rest| && Val(s[..4]) == d && Val(s[4..][..4]) == 1 && s[8..] == rest
  {
    Sizes();
    SignedPut(4, d);
    SignedPut(4, 1);
    var s := Put(4, d) + Put(4, 1) + rest;
    assert s[..4] == Put(4, d) && s[4..][..4] == Put(4, 1) && s[8..] == rest;
  }

  lemma DimsCons(dims: seq<nat>, tail: seq<byte>)
    requires dims != []
    ensures EncDims(dims) + tail == Put(4, dims[0]) + Put(4, 1) + (EncDims(dims[1..]) + tail)
  {
    Regrouped(Put(4, dims[0]) + Put(4, 1), EncDims(dims[1..]), tail);
  }

  lemma LengthsStep(n: nat, s: seq<byte>, d: nat, rest: seq<byte>, dims: seq<nat>, tail: seq<byte>)
    requires n > 0 && |s| == 8 + |rest| && |rest| >= 8 * (n - 1) && s[8..] == rest
    requires Val(s[..4]) == d && Val(s[4..][..4]) == 1 && d > 0
    requires Lengths(n - 1, rest) == dims && Bounds(n - 1, rest) && rest[8 * (n - 1)..] == tail
    ensures Lengths(n, s) == [d] + dims && Bounds(n, s) && s[8 * n..] == tail
  {
    hide Val;
    assert s[8..][8 * (n - 1)..] == s[8 * n..];
  }

  lemma {:induction false} DimsArrive(dims: seq<nat>, tail: seq<byte>)
    requires forall d | d in dims :: 0 < d < TWO32
    ensures var s := EncDims(dims) + tail;
            Lengths(|dims|, s) == dims && Bounds(|dims|, s) && s[8 * |dims|..] == tail
    decreases |dims|
  {
    if dims != [] {
      assert dims[0] in dims && forall d | d in dims[1..] :: d in dims;
      hide *;
      DimsCons(dims, tail);
      DimsArrive(dims[1..], tail);
      DimArrives(dims[0], EncDims(dims[1..]) + tail);
      LengthsStep(|dims|, EncDims(dims) + tail, dims[0], EncDims(dims[1..]) + tail, dims[1..], tail);
      HeadAndTail(dims);
    }
  }

  lemma ArrayIs(t: Type, b: seq<byte>)
    requires t.ListOf?
    ensures Receive(t, b) == ReceiveArray(t, b)
  {
    hide ReceiveArray;
  }

  lemma ItemsHold(t: Type, dims: seq<nat>, s: seq<byte>, l: seq<Value>, v: Value)
    requires t.ListOf? && |l| == Prod(dims) && Rows(dims, 1, l) == [v]
    requires ReceiveMany(Leaf(t), |l|, s) == Some((l, |s|))
    ensures ReceiveItems(t, dims, s) == Some(v)
  {
    LeafSmaller(t);
    hide ReceiveMany, Rows, Prod, Leaf;
  }

  lemma ArrayHolds(t: Type, b: seq<byte>, n: nat)
    requires t.ListOf? && n == Depth(t) && |b| >= 12 + 8 * n && Bounds(n, b[12..])
    requires Val(b[..4]) == n && Val(b[4..][..4]) <= 1 && TypeOfOid(Val(b[8..][..4])) == Some(Leaf(t))
    ensures Receive(t, b) == ReceiveItems(t, Lengths(n, b[12..]), b[12 + 8 * n..])
  {
    hide Receive, ReceiveItems, TypeOfOid, Lengths, Bounds, Val, Leaf;
    ArrayIs(t, b);
  }

  lemma HeaderArrives(n: nat, flag: nat, oid: nat, rest: seq<byte>)
    requires n < TWO32 && flag < TWO32 && oid < TWO32
    ensures var b := Put(4, n) + Put(4, flag) + Put(4, oid) + rest;
            |b| == 12 + |rest| && Val(b[..4]) == n && Val(b[4..][..4]) == flag && Val(b[8..][..4]) == oid && b[12..] == rest
  {
    var b := Put(4, n) + Put(4, flag) + Put(4, oid) + rest;
    hide *;
    ArrayHeader(n, flag, oid, rest);
    assert |Put(4, n)| == 4 && |Put(4, flag)| == 4 && |Put(4, oid)| == 4;
    WordIs(4, b);
    WordIs(4, b[4..]);
    WordIs(4, b[8..]);
  }

  lemma KnownOid(oid: nat, t: Type)
    requires TypeOfOid(oid) == Some(t)
    ensures oid < TWO32
  {
  }

  lemma ArrayArrives(t: Type, oid: nat, dims: seq<nat>, elems: seq<byte>, l: seq<Value>, v: Value)
    requires t.ListOf? && TypeOfOid(oid) == Some(Leaf(t)) && |dims| == Depth(t) && forall d | d in dims :: 0 < d < TWO32
    requires |dims| < TWO32 && |l| == Prod(dims) && Rows(dims, 1, l) == [v]
    requires ReceiveMany(Leaf(t), |l|, elems) == Some((l, |elems|))
    ensures Receive(t, ArrayBody(oid, dims, elems)) == Some(v)
  {
    var b, rest := ArrayBody(oid, dims, elems), EncDims(dims) + elems;
    var n := |dims|;
    assert 1 < TWO32;
    hide *;
    KnownOid(oid, Leaf(t));
    EmptyAdded(elems);
    EmptyAdded(b);
    BodySplit(oid, dims, elems, []);
    HeaderArrives(n, 1, oid, rest);
    DimsArrive(dims, elems);
    assert b[12 + 8 * n..] == b[12..][8 * n..];
    ArrayHolds(t, b, n);
    ItemsHold(t, dims, elems, l, v);
  }

  lemma EmptyArrives(t: Type, oid: nat)
    requires t.ListOf? && TypeOfOid(oid) == Some(Leaf(t))
    ensures Receive(t, Put(4, 0) + Put(4, 0) + Put(4, oid)) == Some(ListV([]))
  {
    var b := Put(4, 0) + Put(4, 0) + Put(4, oid);
    EmptyAdded(b);
    KnownOid(oid, Leaf(t));
    HeaderArrives(0, 0, oid, []);
    ArrayIs(t, b);
    hide TypeOfOid, Val, Put, Receive, ReceiveMany, Lengths, Bounds;
  }

  /** Main result, sending: for every column type and every value that can be written,
      with no replacement configured, the server receives the value, and its field ends
      where the next begins. */
  lemma {:induction false} FieldReceived(t: Type, v: Value, tail: seq<byte>)
    requires HasType(t, v) && Enc(None, t, v).Ok? && |Enc(None, t, v).value| <= INT32_MAX
    ensures ReceiveField(t, Enc(None, t, v).value + tail) == Some((v, |Enc(None, t, v).value|))
    decreases t, 1, 0
  {
    hide *;
    EncCases(None, t, v);
    if v.NullV? {
      NullArrives(t, tail);
    } else if t.ListOf? {
      if v.items == [] {
        var oid := Oid(t.elem).value;
        OidOfElement(t);
        EmptyArrives(t, oid);
        EmptyBody(oid);
        FieldArrives(t, Put(4, 0) + Put(4, 0) + Put(4, oid), v, tail);
      } else {
        ArrayReceived(t, v, tail);
      }
    } else if t.StructOf? {
      RecordReceived(t, v, tail);
    } else {
      ScalarReceived(t, v);
      FieldArrives(t, EncScalar(None, t, v).value, v, tail);
    }
  }

  lemma EmptyBody(oid: nat)
    ensures Put(4, 12) + Put(4, 0) + Put(4, 0) + Put(4, oid) == Patched(Put(4, 0) + Put(4, 0) + Put(4, oid))
    ensures |Put(4, 0) + Put(4, 0) + Put(4, oid)| == 12 <= INT32_MAX
  {
    hide Put;
  }

  lemma OidOfElement(t: Type)
    requires t.ListOf? && Oid(t.elem).Ok?
    ensures TypeOfOid(Oid(t.elem).value) == Some(Leaf(t))
  {
    OidNames(t.elem);
  }

  lemma ArrayReceived(t: Type, v: Value, tail: seq<byte>)
    requires t.ListOf? && v.ListV? && v.items != [] && HasType(t, v)
    requires EncList(None, t, v).Ok? && |EncList(None, t, v).value| <= INT32_MAX
    ensures ReceiveField(t, EncList(None, t, v).value + tail) == Some((v, |EncList(None, t, v).value|))
    decreases t, 0, 0
  {
    hide *;
    NothingToReplace(t, v);
    EncOfArray(None, t, v);
    DimsBound(t, v);
    OidOfElement(t);
    LeafSmaller(t);
    var dims := Dims(t, v).value;
    var elems := EncArray(None, t, dims, [v]).value;
    var l := LeavesOf(t, dims, v);
    ElementsSize(Oid(t.elem).value, dims, elems);
    ManyReceived(Leaf(t), l, []);
    EmptyAdded(elems);
    ArrayDone(t, Oid(t.elem).value, dims, elems, l, v, tail);
  }

  /** The leaves of an accepted list, and their encoding. */
  lemma LeavesOf(t: Type, dims: seq<nat>, v: Value) returns (l: seq<Value>)
    requires t.ListOf? && v.ListV? && HasType(t, v)
    requires Dims(t, v) == Ok(dims) && EncArray(None, t, dims, [v]).Ok?
    ensures (forall d | d in dims :: d > 0) && (forall x | x in l :: HasType(Leaf(t), x))
    ensures EncMany(None, Leaf(t), l) == EncArray(None, t, dims, [v]) && |l| == Prod(dims) && Rows(dims, 1, l) == [v]
  {
    hide *;
    NothingToReplace(t, v);
    ArrayLeaves(None, t, dims, v);
    l := DepthFirst(dims, [v]);
  }

  lemma ElementsSize(oid: nat, dims: seq<nat>, elems: seq<byte>)
    requires |Patched(ArrayBody(oid, dims, elems))| <= INT32_MAX
    ensures |elems| + 8 * |dims| <= INT32_MAX && |ArrayBody(oid, dims, elems)| <= INT32_MAX
    ensures |Patched(ArrayBody(oid, dims, elems))| == 4 + |ArrayBody(oid, dims, elems)|
  {
    hide Put;
  }

  lemma ArrayDone(t: Type, oid: nat, dims: seq<nat>, elems: seq<byte>, l: seq<Value>, v: Value, tail: seq<byte>)
    requires t.ListOf? && TypeOfOid(oid) == Some(Leaf(t)) && |dims| == Depth(t) && forall d | d in dims :: 0 < d < TWO32
    requires |Patched(ArrayBody(oid, dims, elems))| <= INT32_MAX && |l| == Prod(dims) && Rows(dims, 1, l) == [v]
    requires ReceiveMany(Leaf(t), |l|, elems) == Some((l, |elems|))
    ensures var b := Patched(ArrayBody(oid, dims, elems)); ReceiveField(t, b + tail) == Some((v, |b|))
  {
    assert INT32_MAX < TWO32;
    var b := ArrayBody(oid, dims, elems);
    hide *;
    ElementsSize(oid, dims, elems);
    ArrayArrives(t, oid, dims, elems, l, v);
    FieldArrives(t, b, v, tail);
  }

  lemma DimsBound(t: Type, v: Value)
    requires t.ListOf? && Dims(t, v).Ok?
    ensures |Dims(t, v).value| == Depth(t) && forall d | d in Dims(t, v).value :: d < TWO32
  {
  }

  lemma {:induction false} ManyReceived(t: Type, vs: seq<Value>, tail: seq<byte>)
    requires (forall v | v in vs :: HasType(t, v)) && EncMany(None, t, vs).Ok? && |EncMany(None, t, vs).value| <= INT32_MAX
    ensures ReceiveMany(t, |vs|, EncMany(None, t, vs).value + tail) == Some((vs, |EncMany(None, t, vs).value|))
    decreases t, 2, |vs|
  {
    hide *;
    EncManyCons(None, t, vs);
    if vs == [] {
      NoneArrive(t, EncMany(None, t, vs).value + tail);
    } else {
      var x, y := Enc(None, t, vs[0]).value, EncMany(None, t, vs[1..]).value;
      Regrouped(x, y, tail);
      FieldReceived(t, vs[0], y + tail);
      ManyReceived(t, vs[1..], tail);
      assert (x + (y + tail))[|x|..] == y + tail;
      ManyStep(t, |vs|, x + (y + tail), vs[0], |x|, vs[1..], |y|);
      assert [vs[0]] + vs[1..] == vs;
    }
  }

  lemma NoneArrive(t: Type, s: seq<byte>)
    ensures ReceiveMany(t, 0, s) == Some(([], 0))
  {
  }

  lemma ManyStep(t: Type, n: nat, s: seq<byte>, v: Value, k: nat, vs: seq<Value>, m: nat)
    requires n > 0 && |s| >= k && ReceiveField(t, s) == Some((v, k)) && ReceiveMany(t, n - 1, s[k..]) == Some((vs, m))
    ensures ReceiveMany(t, n, s) == Some(([v] + vs, k + m))
  {
    hide ReceiveField;
  }

  lemma RecordReceived(t: Type, v: Value, tail: seq<byte>)
    requires t.StructOf? && v.StructV? && HasType(t, v)
    requires Enc(None, t, v).Ok? && |Enc(None, t, v).value| <= INT32_MAX
    ensures ReceiveField(t, Enc(None, t, v).value + tail) == Some((v, |Enc(None, t, v).value|))
    decreases t, 0, 0
  {
    RecordParts(t, v);
    hide *;
    FieldsWhole(t.fields, v.fields);
    RecordDone(t, EncFields(None, t.fields, v.fields).value, v, tail);
  }

  lemma RecordParts(t: Type, v: Value)
    requires t.StructOf? && v.StructV? && HasType(t, v)
    requires Enc(None, t, v).Ok? && |Enc(None, t, v).value| <= INT32_MAX
    ensures |t.fields| == |v.fields| && (forall i | 0 <= i < |v.fields| :: HasType(t.fields[i], v.fields[i]))
    ensures var fs := EncFields(None, t.fields, v.fields);
            && fs.Ok? && |t.fields| < TWO32 && 4 + |fs.value| <= INT32_MAX
            && Enc(None, t, v) == Ok(Patched(Put(4, |t.fields|) + fs.value)) && |Enc(None, t, v).value| == 8 + |fs.value|
  {
    assert INT32_MAX < TWO32;
    hide *;
    NothingToReplace(t, v);
    EncStruct(None, t, v);
    EncFieldsSize(None, t.fields, v.fields);
    RecordBody(|t.fields|, EncFields(None, t.fields, v.fields).value);
  }

  lemma RecordDone(t: Type, fs: seq<byte>, v: Value, tail: seq<byte>)
    requires t.StructOf? && v.StructV? && |t.fields| < TWO32 && 4 + |fs| <= INT32_MAX
    requires ReceiveFields(t.fields, fs) == Some((v.fields, |fs|))
    ensures ReceiveField(t, Patched(Put(4, |t.fields|) + fs) + tail) == Some((v, 8 + |fs|))
  {
    hide *;
    var b := Put(4, |t.fields|) + fs;
    RecordBody(|t.fields|, fs);
    RecordArrives(t, b, v);
    FieldArrives(t, b, v, tail);
  }

  lemma NothingToReplace(t: Type, v: Value)
    requires HasType(t, v)
    ensures Verbatim(None, t, v)
  {
  }

  lemma RecordBody(n: nat, fs: seq<byte>)
    ensures var b := Put(4, n) + fs;
            |b| == 4 + |fs| && (n < TWO32 ==> Word(4, b) == Ok(n)) && b[4..] == fs && |Patched(b)| == 4 + |b|
  {
    if n < TWO32 {
      FieldCount(n, fs, []);
      EmptyAdded(Put(4, n) + fs);
      EmptyAdded(fs);
    }
  }

  lemma RecordArrives(t: Type, b: seq<byte>, v: Value)
    requires t.StructOf? && v.StructV? && |b| >= 4 && Word(4, b) == Ok(|t.fields|)
    requires ReceiveFields(t.fields, b[4..]) == Some((v.fields, |b| - 4))
    ensures Receive(t, b) == Some(v)
  {
    WordIs(4, b);
    hide ReceiveFields, Val;
  }

  lemma {:induction false} FieldsReceived(ts: seq<Type>, vs: seq<Value>, tail: seq<byte>)
    requires |ts| == |vs| && forall i | 0 <= i < |vs| :: HasType(ts[i], vs[i])
    requires EncFields(None, ts, vs).Ok? && |EncFields(None, ts, vs).value| <= INT32_MAX
    ensures ReceiveFields(ts, EncFields(None, ts, vs).value + tail) == Some((vs, |EncFields(None, ts, vs).value|))
    decreases ts, 3, 0
  {
    hide *;
    EncFieldsCons(None, ts, vs);
    if ts == [] {
      NoFieldsArrive(EncFields(None, ts, vs).value + tail);
    } else {
      var oid, x, y := Oid(ts[0]).value, Enc(None, ts[0], vs[0]).value, EncFields(None, ts[1..], vs[1..]).value;
      var s := EncFields(None, ts, vs).value + tail;
      assert s == Put(4, oid) + x + (y + tail);
      FieldCount(oid, x, y + tail);
      OidNames(ts[0]);
      FieldReceived(ts[0], vs[0], y + tail);
      FieldsReceived(ts[1..], vs[1..], tail);
      assert s[4 + |x|..] == y + tail;
      FieldsStep(ts, s, oid, vs[0], |x|, vs[1..], |y|);
      assert [vs[0]] + vs[1..] == vs;
    }
  }

  lemma FieldsWhole(ts: seq<Type>, vs: seq<Value>)
    requires |ts| == |vs| && forall i | 0 <= i < |vs| :: HasType(ts[i], vs[i])
    requires EncFields(None, ts, vs).Ok? && |EncFields(None, ts, vs).value| <= INT32_MAX
    ensures ReceiveFields(ts, EncFields(None, ts, vs).value) == Some((vs, |EncFields(None, ts, vs).value|))
    decreases ts, 4, 0
  {
    hide *;
    FieldsReceived(ts, vs, []);
    EmptyAdded(EncFields(None, ts, vs).value);
  }

  lemma NoFieldsArrive(s: seq<byte>)
    ensures ReceiveFields([], s) == Some(([], 0))
  {
  }

  lemma FieldsStep(ts: seq<Type>, s: seq<byte>, oid: nat, v: Value, k: nat, vs: seq<Value>, m: nat)
    requires ts != [] && |s| >= 4 + k && Word(4, s) == Ok(oid) && TypeOfOid(oid) == Some(Leaf(ts[0]))
    requires ReceiveField(ts[0], s[4..]) == Some((v, k)) && ReceiveFields(ts[1..], s[4 + k..]) == Some((vs, m))
    ensures ReceiveFields(ts, s) == Some(([v] + vs, 4 + k + m))
  {
    hide *;
    WordIs(4, s);
    TaggedHolds(ts[0], s);
    FieldsCons(ts, s);
  }

  lemma TaggedHolds(t: Type, s: seq<byte>)
    requires |s| >= 4 && TypeOfOid(Val(s[..4])) == Some(Leaf(t)) && ReceiveField(t, s[4..]).Some?
    ensures ReceiveTagged(t, s) == Some((ReceiveField(t, s[4..]).value.0, 4 + ReceiveField(t, s[4..]).value.1))
  {
    hide ReceiveField, Val, TypeOfOid, Leaf;
  }

  lemma FieldsCons(ts: seq<Type>, s: seq<byte>)
    requires ts != [] && ReceiveTagged(ts[0], s).Some?
    ensures var (v, k) := ReceiveTagged(ts[0], s).value;
            var more := ReceiveFields(ts[1..], s[k..]);
            ReceiveFields(ts, s) == if more.Some? then Some(([v] + more.value.0, k + more.value.1)) else None
  {
    hide ReceiveTagged;
  }


  /** ... and in general the value with its NULs replaced. */
  lemma ServerReceives(nul: Option<seq<byte>>, t: Type, v: Value, tail: seq<byte>)
    requires HasType(t, v) && Usable(nul) && Enc(nul, t, v).Ok? && |Enc(nul, t, v).value| <= INT32_MAX
    ensures ReceiveField(t, Enc(nul, t, v).value + tail) == Some((Replaced(nul, t, v), |Enc(nul, t, v).value|))
  {
    hide Enc, ReceiveField, Replaced, HasType;
    EncReplaced(nul, t, v);
    FieldReceived(t, Replaced(nul, t, v), tail);
  }

  // ------------------------------------------------------ what has a meaning is read so

  lemma PrefixWord(n: nat, b: seq<byte>, tail: seq<byte>)
    requires 0 < n <= |b|
    ensures Word(n, b + tail) == Ok(Val(b[..n])) && SWord(n, b + tail) == Ok(Signed(b[..n]))
    ensures (b + tail)[n..] == b[n..] + tail
  {
    assert (b + tail)[..n] == b[..n];
    WordIs(n, b + tail);
  }

  lemma {:induction false} DigitsRead(n: nat, b: seq<byte>, tail: seq<byte>)
    requires |b| >= 2 * n
    ensures DecDigits(n, b + tail) == DecDigits(n, b)
  {
    if n > 0 {
      assert (b + tail)[..2] == b[..2] && (b + tail)[2..] == b[2..] + tail;
      DigitsRead(n - 1, b[2..], tail);
    }
  }

  lemma NumericRead(st: Storage, scale: nat, b: seq<byte>, tail: seq<byte>)
    requires scale <= st.MaxWidth && ReceiveNumeric(st, scale, b).Some?
    ensures DecNumeric(st, b + tail) == Ok((Ordinary(ReceiveNumeric(st, scale, b).value), |b|))
  {
    var n, w, sign := Val(b[..2]), Signed(b[2..][..2]), Val(b[4..][..2]);
    var s, ds := b + tail, DecDigits(n, b[8..]);
    PrefixWord(2, b, tail);
    PrefixWord(2, b[2..], tail);
    PrefixWord(2, b[4..], tail);
    PrefixWord(2, b[6..], tail);
    assert s[2..] == b[2..] + tail && s[4..] == b[4..] + tail && s[6..] == b[6..] + tail && s[8..] == b[8..] + tail;
    DigitsRead(n, b[8..], tail);
    st.WidthFits();
    NumericReadable(st, ds, w, scale);
    hide Val, DecDigits, Readable, Magnitude, Numerator, Denominator, Pow, Word, SWord, Signed;
  }

  lemma NumericReadable(st: Storage, ds: seq<nat>, w: int, scale: nat)
    requires scale <= st.MaxWidth && (forall d | d in ds :: d < 10000) && |ds| - w - 1 <= (scale + 3) / 4
    requires var x, d := Numerator(ds, w, scale), Denominator(|ds|, w); x % d == 0 && x / d < Pow(10, st.MaxWidth)
    ensures Readable(st, ds, w, scale) && Magnitude(ds, w, scale) == Numerator(ds, w, scale) / Denominator(|ds|, w)
  {
    assert Regular(ds, w, scale);
    if ds != [] {
      MagnitudeTruncates(ds, w, scale);
    } else {
      assert Numerator(ds, w, scale) == 0;
      DivModUnique(0, Denominator(0, w), 0, 0);
    }
  }

  lemma DateRead(d: int)
    requires IsSigned(4, d) && ReceiveDate(d).Some?
    ensures ToUnsigned(4, d) < TWO32 && DateFromPostgres(ToUnsigned(4, d)) == ReceiveDate(d).value
  {
    Sizes();
    SignedRoundTrip(4, d);
    var u := ToUnsigned(4, d);
    if -0x8000_0000 < d < 0x7FFF_FFFF {
      var x := u + POSTGRES_EPOCH_JDATE - DUCKDB_EPOCH_DATE;
      assert x == d + EPOCH_DAYS + if d < 0 then TWO32 else 0;
    }
  }

  lemma TimestampRead(u: int)
    requires IsSigned(8, u) && ReceiveTimestamp(u).Some?
    ensures ToUnsigned(8, u) < TWO64 && TimestampFromPostgres(ToUnsigned(8, u)) == Ok(ReceiveTimestamp(u).value)
  {
    Sizes();
    SignedRoundTrip(8, u);
    assert POSTGRES_EPOCH_TS - DUCKDB_EPOCH_TS == EPOCH_MICROS;
  }

  lemma UnsignedOf(b: seq<byte>)
    requires b != []
    ensures Val(b) == ToUnsigned(|b|, Signed(b)) && IsSigned(|b|, Signed(b))
  {
    SignedIs(b);
    UnsignedRoundTrip(|b|, Val(b));
  }

  lemma UuidRead(b: seq<byte>, tail: seq<byte>)
    requires |b| == 16
    ensures DecUuid(b + tail) == Ok((ReceiveUuid(Val(b)), 16))
  {
    UuidFromWire(b + tail);
    assert (b + tail)[..16] == b;
    var v := DecUuid(b + tail).value.0;
    Sizes();
    DivModUnique(v.upper * 0x1_0000_0000_0000_0000 + v.lower, 0x1_0000_0000_0000_0000, v.upper, v.lower);
  }

  lemma WholeWord(b: seq<byte>, tail: seq<byte>)
    requires b != []
    ensures Word(|b|, b + tail) == Ok(Val(b)) && SWord(|b|, b + tail) == Ok(Signed(b))
  {
    assert b[..|b|] == b;
    PrefixWord(|b|, b, tail);
  }

  lemma NumberRead(cfg: Config, t: Type, b: seq<byte>, tail: seq<byte>)
    requires PlainNumber(t) && Receive(t, b).Some?
    ensures DecScalar(cfg, t, |b|, b + tail) == Ok((Receive(t, b).value, |b|))
  {
    WholeWord(b, tail);
    if t.Boolean? {
      OneByte(b);
    }
  }

  lemma MomentRead(cfg: Config, t: Type, b: seq<byte>, tail: seq<byte>)
    requires (t.Date? || t.Timestamp? || t.TimestampTz?) && Receive(t, b).Some?
    ensures DecScalar(cfg, t, |b|, b + tail) == Ok((Receive(t, b).value, |b|))
  {
    Sizes();
    if t.Date? {
      WholeWord(b, tail);
      UnsignedOf(b);
      DateRead(Signed(b));
    } else {
      TimestampBody(b, tail);
    }
  }

  lemma TimesRead(cfg: Config, t: Type, b: seq<byte>, tail: seq<byte>)
    requires (t.Time? || t.TimeTz? || t.Interval?) && Receive(t, b).Some?
    ensures DecScalar(cfg, t, |b|, b + tail) == Ok((Receive(t, b).value, |b|))
  {
    if t.Time? {
      WholeWord(b, tail);
    } else if t.TimeTz? {
      TimeTzBody(b, tail);
    } else {
      IntervalBody(b, tail);
    }
  }

  lemma ScalarRead(cfg: Config, t: Type, b: seq<byte>, tail: seq<byte>)
    requires !t.ListOf? && !t.StructOf? && Receive(t, b).Some?
    ensures DecScalar(cfg, t, |b|, b + tail) == Ok((Receive(t, b).value, |b|))
  {
    if PlainNumber(t) {
      NumberRead(cfg, t, b, tail);
    } else if t.Date? || t.Timestamp? || t.TimestampTz? {
      MomentRead(cfg, t, b, tail);
    } else if t.Time? || t.TimeTz? || t.Interval? {
      TimesRead(cfg, t, b, tail);
    } else if t.DecimalOf? {
      NumericRead(t.storage, t.scale, b, tail);
    } else if t.Uuid? {
      UuidRead(b, tail);
    } else {
      assert (b + tail)[..|b|] == b;
    }
  }

  lemma TimeTzBody(b: seq<byte>, tail: seq<byte>)
    requires |b| == 12
    ensures DecTimeTz(b + tail) == Ok((TimeTzV(Signed(b[..8]), -Signed(b[8..])), 12))
  {
    PrefixWord(8, b, tail);
    WholeWord(b[8..], tail);
  }

  lemma TimestampBody(b: seq<byte>, tail: seq<byte>)
    requires |b| == 8 && ReceiveTimestamp(Signed(b)).Some?
    ensures DecTimestamp(b + tail) == Ok((NumV(ReceiveTimestamp(Signed(b)).value), 8))
  {
    PrefixWord(8, b, tail);
    assert b[..8] == b;
    UnsignedOf(b);
    TimestampRead(Signed(b));
  }

  lemma IntervalBody(b: seq<byte>, tail: seq<byte>)
    requires |b| == 16
    ensures DecInterval(b + tail) == Ok((IntervalV(Signed(b[..8]), Signed(b[8..][..4]), Signed(b[12..])), 16))
  {
    PrefixWord(8, b, tail);
    PrefixWord(4, b[8..], tail);
    PrefixWord(4, b[12..], tail);
    assert (b + tail)[12..] == b[12..] + tail && b[12..][..4] == b[12..];
  }

  lemma {:induction false} DimsRead(n: nat, b: seq<byte>, tail: seq<byte>)
    requires |b| >= 8 * n && Bounds(n, b)
    ensures DecDims(n, b + tail) == Ok(Lengths(n, b)) && forall d | d in Lengths(n, b) :: d > 0
  {
    if n > 0 {
      Sizes();
      PrefixWord(4, b, tail);
      PrefixWord(4, b[4..], tail);
      assert (b + tail)[8..] == b[8..] + tail;
      DimsRead(n - 1, b[8..], tail);
    }
  }

  lemma {:induction false} ManySize(t: Type, n: nat, s: seq<byte>)
    requires ReceiveMany(t, n, s).Some?
    ensures ReceiveMany(t, n, s).value.1 >= 4 * n
    decreases n
  {
    if n > 0 {
      FieldSize(t, s);
      ManySize(t, n - 1, s[ReceiveField(t, s).value.1..]);
    }
  }

  lemma FieldSize(t: Type, s: seq<byte>)
    requires ReceiveField(t, s).Some?
    ensures 4 <= ReceiveField(t, s).value.1 <= |s|
  {
    hide Receive;
  }

  /** Main result, reading: every field the format gives a value is read as that value,
      ending where it ends, not only those this writer produces. */
  lemma {:induction false} FieldRead(cfg: Config, t: Type, b: seq<byte>, tail: seq<byte>)
    requires ReceiveField(t, b).Some? && |b| <= INT32_MAX
    ensures Dec(cfg, t, b + tail) == Ok(ReceiveField(t, b).value)
    decreases t, 1, 0
  {
    var len := Signed(b[..4]);
    PrefixWord(4, b, tail);
    if len == -1 {
      NullRead(cfg, t, b + tail);
    } else {
      var body, rest := b[4..][..len], b[4..][len..] + tail;
      assert b[4..] + tail == body + rest;
      if t.ListOf? {
        ArrayRead(cfg, t, body, rest, len);
      } else if t.StructOf? {
        RecordRead(cfg, t, body, rest);
      } else {
        ScalarRead(cfg, t, body, rest);
      }
      hide Receive, DecList, DecStruct, DecScalar;
      DecAssembles(cfg, t, b + tail, len, Receive(t, body).value, len);
    }
  }

  lemma NullRead(cfg: Config, t: Type, s: seq<byte>)
    requires SWord(4, s) == Ok(-1)
    ensures Dec(cfg, t, s) == Ok((NullV, 4))
  {
    hide DecList, DecStruct, DecScalar;
  }

  /** What an array that has a value looks like. */
  lemma ArraySome(t: Type, b: seq<byte>)
    requires t.ListOf? && Receive(t, b).Some?
    ensures |b| >= 12
    ensures Val(b[..4]) == 0 ==> |b| == 12 && Receive(t, b) == Some(ListV([]))
    ensures Val(b[..4]) != 0 ==>
            var n := Val(b[..4]);
            n == Depth(t) && |b| >= 12 + 8 * n && Bounds(n, b[12..])
            && Receive(t, b) == ReceiveItems(t, Lengths(n, b[12..]), b[12 + 8 * n..])
  {
    hide Val, TypeOfOid, Receive, ReceiveItems, Lengths, Bounds;
    ArrayIs(t, b);
  }

  lemma ItemsSome(t: Type, dims: seq<nat>, s: seq<byte>)
    requires t.ListOf? && ReceiveItems(t, dims, s).Some?
    ensures var many := ReceiveMany(Leaf(t), Prod(dims), s);
            many.Some? && many.value.1 == |s| && ReceiveItems(t, dims, s) == Some(Rows(dims, 1, many.value.0)[0])
  {
    LeafSmaller(t);
    hide ReceiveMany, Rows, Prod, Leaf;
  }

  lemma ArrayWords(b: seq<byte>, tail: seq<byte>)
    requires |b| >= 12
    ensures var s := b + tail;
            && Word(4, s) == Ok(Val(b[..4])) && Word(4, s[4..]).Ok? && Word(4, s[8..]).Ok? && s[12..] == b[12..] + tail
  {
    PrefixWord(4, b, tail);
    PrefixWord(4, b[4..], tail);
    PrefixWord(4, b[8..], tail);
  }

  lemma NothingRead(cfg: Config, t: Type, s: seq<byte>, len: nat)
    requires t.ListOf? && len >= 1 && Word(4, s) == Ok(0) && |s| >= 12
    ensures DecList(cfg, t, len, s) == Ok((ListV([]), 12))
  {
    hide DecMany, DecDims;
  }

  /** The header of a list of those dimensions is followed by those bytes. */
  predicate HeadsList(t: Type, s: seq<byte>, dims: seq<nat>, rest: seq<byte>)
    requires t.ListOf?
  {
    && |dims| == Depth(t) && |s| >= 12 + 8 * |dims|
    && Word(4, s) == Ok(|dims|) && Word(4, s[4..]).Ok? && Word(4, s[8..]).Ok?
    && DecDims(|dims|, s[12..]) == Ok(dims) && s[12..][8 * |dims|..] == rest
  }

  lemma ArrayDims(t: Type, b: seq<byte>, n: nat, elems: seq<byte>, tail: seq<byte>)
    requires t.ListOf? && n == Depth(t) && |b| >= 12 + 8 * n && Val(b[..4]) == n && Bounds(n, b[12..]) && elems == b[12 + 8 * n..]
    ensures HeadsList(t, b + tail, Lengths(n, b[12..]), elems + tail) && forall d | d in Lengths(n, b[12..]) :: d > 0
  {
    ArrayWords(b, tail);
    hide Val, Word, Lengths, Bounds, DecDims;
    assert (b + tail)[12..] == b[12..] + tail;
    DimsRead(n, b[12..], tail);
  }

  lemma ListAssembled(cfg: Config, t: Type, s: seq<byte>, dims: seq<nat>, rest: seq<byte>, l: seq<Value>, k: nat, len: nat)
    requires t.ListOf? && HeadsList(t, s, dims, rest) && |l| == Prod(dims) && 4 * |l| <= k <= INT32_MAX && len >= 1
    requires (forall d | d in dims :: d > 0) && DecMany(cfg, Leaf(t), |l|, rest) == Ok((l, k))
    ensures DecList(cfg, t, len, s) == Ok((Rows(dims, 1, l)[0], 12 + 8 * |dims| + k))
  {
    assert INT32_MAX < TWO32;
    hide Word, DecDims, DecMany, DecList, Rows, Prod, CountsFit;
    CountsFitWhenProductDoes(1, dims);
    ListDecodes(cfg, t, s, dims, l, k, len);
  }

  lemma ElementsRead(cfg: Config, t: Type, s: seq<byte>, dims: seq<nat>, elems: seq<byte>, tail: seq<byte>, len: nat)
    requires t.ListOf? && HeadsList(t, s, dims, elems + tail) && (forall d | d in dims :: d > 0)
    requires ReceiveItems(t, dims, elems).Some? && |elems| <= INT32_MAX && len >= 1
    ensures DecList(cfg, t, len, s) == Ok((ReceiveItems(t, dims, elems).value, 12 + 8 * |dims| + |elems|))
    decreases t, 0, 0
  {
    hide *;
    ItemsSome(t, dims, elems);
    var l := ReceiveMany(Leaf(t), Prod(dims), elems).value.0;
    LeafSmaller(t);
    ManyRead(cfg, Leaf(t), Prod(dims), elems, tail);
    ManySize(Leaf(t), Prod(dims), elems);
    ListAssembled(cfg, t, s, dims, elems + tail, l, |elems|, len);
  }

  lemma ArrayRead(cfg: Config, t: Type, b: seq<byte>, tail: seq<byte>, len: nat)
    requires t.ListOf? && Receive(t, b).Some? && |b| == len <= INT32_MAX
    ensures DecList(cfg, t, len, b + tail) == Ok((Receive(t, b).value, |b|))
    decreases t, 0, 1
  {
    hide *;
    ArraySome(t, b);
    var n := Val(b[..4]);
    if n == 0 {
      ArrayWords(b, tail);
      NothingRead(cfg, t, b + tail, len);
    } else {
      var elems := b[12 + 8 * n..];
      ArrayDims(t, b, n, elems, tail);
      ElementsRead(cfg, t, b + tail, Lengths(n, b[12..]), elems, tail, len);
    }
  }

  lemma ManySome(t: Type, n: nat, b: seq<byte>)
    requires n > 0 && ReceiveMany(t, n, b).Some?
    ensures ReceiveField(t, b).Some?
    ensures var (v, k) := ReceiveField(t, b).value;
            k <= |b| && ReceiveMany(t, n - 1, b[k..]).Some?
            && ReceiveMany(t, n, b).value == ([v] + ReceiveMany(t, n - 1, b[k..]).value.0, k + ReceiveMany(t, n - 1, b[k..]).value.1)
  {
    hide ReceiveField;
  }

  lemma {:induction false} ManyRead(cfg: Config, t: Type, n: nat, b: seq<byte>, tail: seq<byte>)
    requires ReceiveMany(t, n, b).Some? && |b| <= INT32_MAX
    ensures DecMany(cfg, t, n, b + tail) == Ok(ReceiveMany(t, n, b).value)
    decreases t, 2, n
  {
    hide *;
    if n == 0 {
      DecNone(cfg, t, b + tail);
      NoneArrive(t, b);
    } else {
      ManySome(t, n, b);
      var (v, k) := ReceiveField(t, b).value;
      var more := ReceiveMany(t, n - 1, b[k..]).value;
      FieldRead(cfg, t, b, tail);
      ManyRead(cfg, t, n - 1, b[k..], tail);
      assert (b + tail)[k..] == b[k..] + tail;
      DecManyStep(cfg, t, n, b + tail, v, k, more.0, more.1);
    }
  }

  lemma RecordRead(cfg: Config, t: Type, b: seq<byte>, tail: seq<byte>)
    requires t.StructOf? && Receive(t, b).Some? && |b| <= INT32_MAX
    ensures DecStruct(cfg, t, b + tail) == Ok((Receive(t, b).value, |b|))
    decreases t, 0, 0
  {
    PrefixWord(4, b, tail);
    FieldsRead(cfg, t.fields, b[4..], tail);
    hide ReceiveFields, DecFields, Val;
    StructDecodes(cfg, t, b + tail, Receive(t, b).value, |b| - 4);
  }

  lemma FieldsSome(ts: seq<Type>, b: seq<byte>)
    requires ts != [] && ReceiveFields(ts, b).Some?
    ensures |b| >= 4 && ReceiveField(ts[0], b[4..]).Some?
    ensures var (v, k) := ReceiveField(ts[0], b[4..]).value;
            4 + k <= |b| &&
            var more := ReceiveFields(ts[1..], b[4 + k..]);
            more.Some? && ReceiveFields(ts, b) == Some(([v] + more.value.0, 4 + k + more.value.1))
  {
    FirstTagged(ts, b);
    TaggedSome(ts[0], b);
    hide *;
    FieldsCons(ts, b);
  }

  lemma FirstTagged(ts: seq<Type>, b: seq<byte>)
    requires ts != [] && ReceiveFields(ts, b).Some?
    ensures ReceiveTagged(ts[0], b).Some?
  {
    hide ReceiveTagged;
  }

  lemma TaggedSome(t: Type, b: seq<byte>)
    requires ReceiveTagged(t, b).Some?
    ensures |b| >= 4 && ReceiveField(t, b[4..]).Some?
    ensures ReceiveTagged(t, b) == Some((ReceiveField(t, b[4..]).value.0, 4 + ReceiveField(t, b[4..]).value.1))
  {
    hide ReceiveField, Val, TypeOfOid, Leaf;
  }

  lemma {:induction false} FieldsRead(cfg: Config, ts: seq<Type>, b: seq<byte>, tail: seq<byte>)
    requires ReceiveFields(ts, b).Some? && |b| <= INT32_MAX
    ensures DecFields(cfg, ts, b + tail) == Ok(ReceiveFields(ts, b).value)
    decreases ts, 3, 0
  {
    hide *;
    if ts == [] {
      DecNoFields(cfg, b + tail);
      NoFieldsArrive(b);
    } else {
      FieldsSome(ts, b);
      var (v, k) := ReceiveField(ts[0], b[4..]).value;
      var more := ReceiveFields(ts[1..], b[4 + k..]).value;
      PrefixWord(4, b, tail);
      FieldRead(cfg, ts[0], b[4..], tail);
      FieldsRead(cfg, ts[1..], b[4 + k..], tail);
      assert (b + tail)[4 + k..] == b[4 + k..] + tail;
      DecFieldsStep(cfg, ts, b + tail, v, k, more.0, more.1);
    }
  }

  // -------------------------------------------------------------------- what is refused

  /** Numerics that are no numbers: NaN and the infinities read as NULL if so configured;
      any other sign word is an error. */
  lemma SpecialNumbers(cfg: Config, st: Storage, scale: nat, b: seq<byte>, tail: seq<byte>)
    requires |b| >= 8
    ensures var sign := Val(b[4..][..2]);
            var r := DecScalar(cfg, DecimalOf(st, scale), |b|, b + tail);
            && (sign == 0xC000 || sign == 0xD000 || sign == 0xF000 ==> r == if cfg.nanAsNull then Ok((NullV, 8)) else Err(BadFormat))
            && (sign != 0 && sign != 0x4000 && sign != 0xC000 && sign != 0xD000 && sign != 0xF000 ==> r == Err(BadFormat))
  {
    PrefixWord(2, b, tail);
    PrefixWord(2, b[2..], tail);
    PrefixWord(2, b[4..], tail);
    PrefixWord(2, b[6..], tail);
    assert (b + tail)[2..] == b[2..] + tail && (b + tail)[4..] == b[4..] + tail && (b + tail)[6..] == b[6..] + tail;
    hide Val, Word, SWord, Readable, Magnitude, DecDigits;
  }

  /** A record of another number of fields, and an array of another number of dimensions. */
  lemma ShapeRefused(cfg: Config, t: Type, len: int, b: seq<byte>)
    requires len != -1 && |b| >= 16 && Signed(b[..4]) == len
    ensures t.StructOf? && Val(b[4..][..4]) != |t.fields| ==> Dec(cfg, t, b) == Err(Mismatch)
    ensures t.ListOf? && len >= 1 && Val(b[4..][..4]) != 0 && Val(b[4..][..4]) != Depth(t) ==> Dec(cfg, t, b) == Err(Mismatch)
  {
    WordIs(4, b);
    WordIs(4, b[4..]);
    DecHeads(cfg, t, len, b[4..]);
    DecFails(cfg, t, b, len);
  }

  lemma DecHeads(cfg: Config, t: Type, len: int, s: seq<byte>)
    requires |s| >= 12 && Word(4, s).Ok?
    ensures t.StructOf? && Word(4, s).value != |t.fields| ==> DecStruct(cfg, t, s) == Err(Mismatch)
    ensures t.ListOf? && len >= 1 && Word(4, s).value != 0 && Word(4, s).value != Depth(t) ==> DecList(cfg, t, len, s) == Err(Mismatch)
  {
    hide Val;
  }

  lemma DecFails(cfg: Config, t: Type, s: seq<byte>, len: int)
    requires |s| >= 4 && SWord(4, s) == Ok(len) && len != -1
    ensures t.ListOf? && DecList(cfg, t, len, s[4..]).Err? ==> Dec(cfg, t, s) == Err(DecList(cfg, t, len, s[4..]).error)
    ensures t.StructOf? && DecStruct(cfg, t, s[4..]).Err? ==> Dec(cfg, t, s) == Err(DecStruct(cfg, t, s[4..]).error)
  {
    hide DecList, DecStruct, DecScalar;
  }
}
