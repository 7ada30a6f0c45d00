/** The binary COPY format as two reference functions on byte strings: what the
    writer emits for a value, and what the parser makes of arbitrary bytes. The
    classes BinaryWriter and BinaryParser are proved against them, and WireRoundTrip
    shows them inverse. */
module WireFormat {
  import opened Wrappers
  import opened Bytes
  import opened Decimal
  import opened DateTime
  import opened NestedLists

  const INT32_MAX := 0x7FFF_FFFF

  /** "PGCOPY\n\377\r\n\0"; eight bytes of flags and extension length follow it. */
  const COPY_HEADER: seq<byte> := [80, 71, 67, 79, 80, 89, 10, 255, 13, 10, 0]
  const HEADER_SIZE: nat := 19

  // ---------------------------------------------------------------- both sides

  /** ToPostgresOid; it has no entry for DECIMAL or STRUCT and descends into lists. */
  function Oid(t: Type): (r: Result<nat>)
    ensures r.Ok? ==> r.value < TWO32
  {
    match t
    case Boolean => Ok(16)
    case SmallInt => Ok(21)
    case Integer => Ok(23)
    case BigInt => Ok(20)
    case Float => Ok(700)
    case Double => Ok(701)
    case Varchar => Ok(1043)
    case Blob => Ok(17)
    case Date => Ok(1082)
    case Time => Ok(1083)
    case Timestamp => Ok(1114)
    case TimestampTz => Ok(1184)
    case Interval => Ok(1186)
    case TimeTz => Ok(1266)
    case Uuid => Ok(2950)
    case ListOf(e) => Oid(e)
    case DecimalOf(_, _) => Err(BadFormat)
    case StructOf(_) => Err(BadFormat)
  }

  /** Exchanges the halves of the uint64_t range: x ^ (1 << 63). */
  function FlipTop(x: nat): (y: nat)
    requires x < TWO64
    ensures y < TWO64
  {
    if x <= INT64_MAX then x + INT64_MAX + 1 else x - INT64_MAX - 1
  }

  /** What a DuckDB vector of type t can hold. */
  predicate HasType(t: Type, v: Value)
    decreases t, v
  {
    match v
    case NullV => true
    case NumV(n) =>
      (match t
       case Boolean => n == 0 || n == 1
       case SmallInt => IsSigned(2, n)
       case Integer => IsSigned(4, n)
       case BigInt => IsSigned(8, n)
       case Float => IsUnsigned(4, n)
       case Double => IsUnsigned(8, n)
       case DecimalOf(st, scale) => InWidth(st, n, scale)
       case Date => IsSigned(4, n)
       case Time => IsSigned(8, n)
       case Timestamp => IsSigned(8, n)
       case TimestampTz => IsSigned(8, n)
       case _ => false)
    case TimeTzV(m, o) => t.TimeTz? && IsSigned(8, m) && IsSigned(4, o) && IsSigned(4, -o)
    case IntervalV(m, d, o) => t.Interval? && IsSigned(8, m) && IsSigned(4, d) && IsSigned(4, o)
    case UuidV(u, l) => t.Uuid? && IsSigned(8, u) && IsUnsigned(8, l)
    case StrV(_) => t.Varchar? || t.Blob?
    case ListV(items) => t.ListOf? && forall x | x in items :: HasType(t.elem, x)
    case StructV(fs) => t.StructOf? && |fs| == |t.fields| && forall i | 0 <= i < |fs| :: HasType(t.fields[i], fs[i])
  }

  // ------------------------------------------------------------------- writing

  /** NUL bytes of a VARCHAR replaced, as configured. */
  function ReplaceNul(subst: seq<byte>, s: seq<byte>): seq<byte> {
    if s == [] then [] else (if s[0] == 0 then subst else [s[0]]) + ReplaceNul(subst, s[1..])
  }

  function EncDigits(ds: seq<nat>): (b: seq<byte>)
    ensures |b| == 2 * |ds|
  {
    if ds == [] then [] else Put(2, ds[0]) + EncDigits(ds[1..])
  }

  /** The field body of a numeric: header, then the digit groups. */
  function EncNumeric(ds: seq<nat>, weight: int, sign: nat, scale: nat): (b: seq<byte>)
    ensures |b| == 8 + 2 * |ds|
  {
    Put(2, |ds|) + Put(2, weight) + Put(2, sign) + Put(2, scale) + EncDigits(ds)
  }

  function EncDecimal(st: Storage, v: int, scale: nat): Result<seq<byte>> {
    var m := if v < 0 then -v else v;
    if !FractionFits(st, m, scale) then Err(Overflow)
    else Ok(EncNumeric(WrittenDigits(m, scale), WrittenWeight(m, scale),
                       if v < 0 then NUMERIC_NEG else NUMERIC_POS, scale))
  }

  /** The body of a non-NULL field that is neither list nor struct. */
  function EncScalar(nul: Option<seq<byte>>, t: Type, v: Value): Result<seq<byte>>
    requires HasType(t, v) && !v.NullV? && !t.ListOf? && !t.StructOf?
  {
    match t
    case Boolean => Ok(Put(1, v.n))
    case SmallInt => Ok(Put(2, v.n))
    case Integer => Ok(Put(4, v.n))
    case BigInt => Ok(Put(8, v.n))
    case Float => Ok(Put(4, v.n))
    case Double => Ok(Put(8, v.n))
    case DecimalOf(st, scale) => EncDecimal(st, v.n, scale)
    case Date => var d :- DateToPostgres(v.n); Ok(Put(4, d))
    case Time => Ok(Put(8, v.n))
    case TimeTz => Ok(Put(8, v.micros) + Put(4, -v.offset))
    case Timestamp => var u :- TimestampToPostgres(v.n); Ok(Put(8, u))
    case TimestampTz => var u :- TimestampToPostgres(v.n); Ok(Put(8, u))
    case Interval => Ok(Put(8, v.micros) + Put(4, v.days) + Put(4, v.months))
    case Uuid => Sizes(); Ok(Put(8, FlipTop(ToUnsigned(8, v.upper))) + Put(8, v.lower))
    case Varchar =>
      if 0 !in v.bytes then Ok(v.bytes)
      else if nul.None? then Err(NulByte)
      else Ok(ReplaceNul(nul.value, v.bytes))
    case Blob => Ok(v.bytes)
  }

  /** A field with its length in front; the cast of a string length is checked. */
  function Field(body: seq<byte>): Result<seq<byte>> {
    if |body| > INT32_MAX then Err(OutOfRange) else Ok(Put(4, |body|) + body)
  }

  function EncDims(dims: seq<nat>): (b: seq<byte>)
    ensures |b| == 8 * |dims|
  {
    if dims == [] then [] else Put(4, dims[0]) + Put(4, 1) + EncDims(dims[1..])
  }

  /** The dimension list WriteValue collects by following first elements. A NULL or
      empty list on that path makes the code read an unrelated entry. */
  function Dims(t: Type, v: Value): (r: Result<seq<nat>>)
    requires t.ListOf?
    ensures r.Ok? ==> |r.value| == Depth(t) && forall d | d in r.value :: d < TWO32
    ensures r.Err? ==> r.error == Unmodelled
  {
    if !v.ListV? || v.items == [] then Err(Unmodelled)
    else if t.elem.ListOf? then
      var rest :- Dims(t.elem, v.items[0]);
      Ok([|v.items| % TWO32] + rest)
    else Ok([|v.items| % TWO32])
  }

  /** WriteValue. */
  function Enc(nul: Option<seq<byte>>, t: Type, v: Value): Result<seq<byte>>
    requires HasType(t, v)
    decreases t, 1, 0
  {
    if v.NullV? then Ok(Put(4, -1))
    else if t.ListOf? then EncList(nul, t, v)
    else if t.StructOf? then
      var fs :- EncFields(nul, t.fields, v.fields);
      Ok(Patched(Put(4, |t.fields|) + fs))
    else
      var body :- EncScalar(nul, t, v);
      Field(body)
  }

  /** A field whose length was patched in once its body was written: the cast to
      int32_t is not checked. */
  function Patched(body: seq<byte>): (b: seq<byte>)
    ensures |b| == 4 + |body|
  {
    Put(4, |body|) + body
  }

  function ArrayBody(oid: nat, dims: seq<nat>, elems: seq<byte>): (b: seq<byte>)
    ensures |b| == 12 + 8 * |dims| + |elems|
  {
    Put(4, |dims|) + Put(4, 1) + Put(4, oid) + EncDims(dims) + elems
  }

  function EncList(nul: Option<seq<byte>>, t: Type, v: Value): Result<seq<byte>>
    requires t.ListOf? && v.ListV? && HasType(t, v)
    decreases t, 0, 2, 0
  {
    var oid :- Oid(t.elem);
    if v.items == [] then Ok(Put(4, 12) + Put(4, 0) + Put(4, 0) + Put(4, oid))
    else
      var dims :- Dims(t, v);
      var elems :- EncArray(nul, t, dims, [v]);
      Ok(Patched(ArrayBody(oid, dims, elems)))
  }

  /** WriteArray over consecutive list entries. */
  function EncArray(nul: Option<seq<byte>>, t: Type, dims: seq<nat>, vs: seq<Value>): Result<seq<byte>>
    requires t.ListOf? && |dims| == Depth(t) && forall v | v in vs :: HasType(t, v)
    decreases t, 0, 1, |vs|
  {
    if vs == [] then Ok([])
    else
      assert HasType(t, vs[0]);
      if vs[0].NullV? then Err(Unmodelled)
      else if |vs[0].items| != dims[0] then Err(Mismatch)
      else
        var x :- if t.elem.ListOf? then EncArray(nul, t.elem, dims[1..], vs[0].items)
                 else EncMany(nul, t.elem, vs[0].items);
        var y :- EncArray(nul, t, dims, vs[1..]);
        Ok(x + y)
  }

  function EncMany(nul: Option<seq<byte>>, t: Type, vs: seq<Value>): Result<seq<byte>>
    requires forall v | v in vs :: HasType(t, v)
    decreases t, 2, |vs|
  {
    if vs == [] then Ok([])
    else
      var x :- Enc(nul, t, vs[0]);
      var y :- EncMany(nul, t, vs[1..]);
      Ok(x + y)
  }

  /** The columns of a struct, or of a row without the OIDs. */
  function EncFields(nul: Option<seq<byte>>, ts: seq<Type>, vs: seq<Value>): Result<seq<byte>>
    requires |ts| == |vs| && forall i | 0 <= i < |vs| :: HasType(ts[i], vs[i])
    decreases ts, 3, 0
  {
    if ts == [] then Ok([])
    else
      var oid :- Oid(ts[0]);
      var x :- Enc(nul, ts[0], vs[0]);
      var y :- EncFields(nul, ts[1..], vs[1..]);
      Ok(Put(4, oid) + x + y)
  }

  // ------------------------------------------------------------------- reading

  /** ReadInteger: an unsigned word of n bytes. */
  function Word(n: nat, s: seq<byte>): (r: Result<nat>)
    ensures r.Ok? <==> n <= |s|
    ensures r.Ok? ==> IsUnsigned(n, r.value)
  {
    if |s| < n then Err(OutOfBuffer) else BeVal(s[..n]); Ok(Val(s[..n]))
  }

  function SWord(n: nat, s: seq<byte>): (r: Result<int>)
    ensures r.Ok? <==> n <= |s|
  {
    var u :- Word(n, s);
    Ok(ToSigned(n, u))
  }

  datatype Numeric = Ordinary(value: int) | NotANumber | PositiveInfinity | NegativeInfinity

  function DecDigits(n: nat, s: seq<byte>): (ds: seq<nat>)
    requires |s| >= 2 * n
    ensures |ds| == n
  {
    if n == 0 then [] else [Val(s[..2])] + DecDigits(n - 1, s[2..])
  }

  /** ReadDecimal. Beyond readable numerics its intermediates leave the storage
      type, and nothing is claimed. */
  function DecNumeric(st: Storage, s: seq<byte>): (r: Result<(Numeric, nat)>)
    ensures r.Ok? ==> r.value.1 <= |s|
  {
    var n :- Word(2, s);
    var w :- SWord(2, s[2..]);
    var sign :- Word(2, s[4..]);
    if sign !in {NUMERIC_POS, NUMERIC_NEG, NUMERIC_NAN, NUMERIC_PINF, NUMERIC_NINF} then Err(BadFormat)
    else
      var scale :- Word(2, s[6..]);
      if sign == NUMERIC_NAN then Ok((NotANumber, 8))
      else if sign == NUMERIC_PINF then Ok((PositiveInfinity, 8))
      else if sign == NUMERIC_NINF then Ok((NegativeInfinity, 8))
      else if scale >= st.PowerLimit then Err(OutOfRange)
      else if |s| < 8 + 2 * n then Err(OutOfBuffer)
      else
        var ds := DecDigits(n, s[8..]);
        if !Readable(st, ds, w, scale) then Err(Unmodelled)
        else
          var m := Magnitude(ds, w, scale);
          Ok((Ordinary(if sign == NUMERIC_NEG then -(m as int) else m), 8 + 2 * n))
  }

  /** The parser's settings: whether NaN and infinite numerics read as NULL. */
  datatype Config = Config(nanAsNull: bool)

  function DecNumber(cfg: Config, st: Storage, len: int, s: seq<byte>): (r: Result<(Value, nat)>)
    ensures r.Ok? ==> r.value.1 <= |s|
  {
    if 0 <= len < 8 then Err(BadFormat)
    else
      var (x, k) :- DecNumeric(st, s);
      match x
      case Ordinary(n) => Ok((NumV(n), k))
      case _ => if cfg.nanAsNull then Ok((NullV, k)) else Err(BadFormat)
  }

  function DecTimestamp(s: seq<byte>): (r: Result<(Value, nat)>)
    ensures r.Ok? ==> r.value.1 <= |s|
  {
    var u :- Word(8, s);
    var n :- TimestampFromPostgres(u);
    Ok((NumV(n), 8))
  }

  function DecTimeTz(s: seq<byte>): (r: Result<(Value, nat)>)
    ensures r.Ok? ==> r.value.1 <= |s|
  {
    var m :- SWord(8, s);
    var o :- SWord(4, s[8..]);
    Ok((TimeTzV(m, -o), 12))
  }

  function DecInterval(s: seq<byte>): (r: Result<(Value, nat)>)
    ensures r.Ok? ==> r.value.1 <= |s|
  {
    var m :- SWord(8, s);
    var d :- SWord(4, s[8..]);
    var o :- SWord(4, s[12..]);
    Ok((IntervalV(m, d, o), 16))
  }

  function DecUuid(s: seq<byte>): (r: Result<(Value, nat)>)
    ensures r.Ok? ==> r.value.1 <= |s|
  {
    var u :- Word(8, s);
    var l :- Word(8, s[8..]);
    Sizes();
    Ok((UuidV(ToSigned(8, FlipTop(u)), l), 16))
  }

  /** ReadString; a negative length becomes a huge unsigned one. */
  function DecText(len: int, s: seq<byte>): (r: Result<(Value, nat)>)
    ensures r.Ok? ==> r.value.1 <= |s|
  {
    if len < 0 then Err(Unmodelled)
    else if len > |s| then Err(OutOfBuffer)
    else Ok((StrV(s[..len]), len))
  }

  /** The body of a scalar field announced with length len. */
  function DecScalar(cfg: Config, t: Type, len: int, s: seq<byte>): (r: Result<(Value, nat)>)
    requires !t.ListOf? && !t.StructOf?
    ensures r.Ok? ==> r.value.1 <= |s|
  {
    match t
    case Boolean => var u :- Word(1, s); Ok((NumV(if u > 0 then 1 else 0), 1))
    case SmallInt => var n :- SWord(2, s); Ok((NumV(n), 2))
    case Integer => var n :- SWord(4, s); Ok((NumV(n), 4))
    case BigInt => var n :- SWord(8, s); Ok((NumV(n), 8))
    case Float => var n :- Word(4, s); Ok((NumV(n), 4))
    case Double => var n :- Word(8, s); Ok((NumV(n), 8))
    case DecimalOf(st, _) => DecNumber(cfg, st, len, s)
    case Date => var u :- Word(4, s); Ok((NumV(DateFromPostgres(u)), 4))
    case Time => var n :- SWord(8, s); Ok((NumV(n), 8))
    case TimeTz => DecTimeTz(s)
    case Timestamp => DecTimestamp(s)
    case TimestampTz => DecTimestamp(s)
    case Interval => DecInterval(s)
    case Uuid => DecUuid(s)
    case Varchar => DecText(len, s)
    case Blob => DecText(len, s)
  }

  function DecDims(n: nat, s: seq<byte>): (r: Result<seq<nat>>)
    ensures r.Ok? ==> |r.value| == n && 8 * n <= |s| && forall d | d in r.value :: d < TWO32
  {
    if n == 0 then Ok([])
    else
      Sizes();
      var d :- Word(4, s);
      var lower :- Word(4, s[4..]);
      var rest :- DecDims(n - 1, s[8..]);
      Ok([d] + rest)
  }

  /** ReadArray multiplies counts in uint32_t; this says no level wraps. */
  predicate CountsFit(n: nat, dims: seq<nat>)
    decreases |dims|
  {
    n < TWO32 && (dims == [] || CountsFit(n * dims[0], dims[1..]))
  }

  /** ReadValue: the value at the front of s and the bytes it takes. */
  function Dec(cfg: Config, t: Type, s: seq<byte>): (r: Result<(Value, nat)>)
    ensures r.Ok? ==> 4 <= r.value.1 <= |s|
    decreases t, 1, 0
  {
    var len :- SWord(4, s);
    if len == -1 then Ok((NullV, 4))
    else
      var (v, k) :- if t.ListOf? then DecList(cfg, t, len, s[4..])
                    else if t.StructOf? then DecStruct(cfg, t, s[4..])
                    else DecScalar(cfg, t, len, s[4..]);
      Ok((v, 4 + k))
  }

  /** An array body: a header, the dimensions, then the leaves. The announced
      length only decides whether there is a body at all. */
  function DecList(cfg: Config, t: Type, len: int, s: seq<byte>): (r: Result<(Value, nat)>)
    requires t.ListOf?
    ensures r.Ok? ==> r.value.1 <= |s|
    decreases t, 0, 0
  {
    if len < 1 then Ok((ListV([]), 0))
    else
      var dim :- Word(4, s);
      var hasNull :- Word(4, s[4..]);
      var oid :- Word(4, s[8..]);
      if dim == 0 then Ok((ListV([]), 12))
      else if dim != Depth(t) then Err(Mismatch)
      else
        var dims :- DecDims(dim, s[12..]);
        if !CountsFit(1, dims) then Err(Unmodelled)
        else
          LeafSmaller(t);
          var (l, k) :- DecMany(cfg, Leaf(t), Prod(dims), s[12 + 8 * dim..]);
          Ok((Rows(dims, 1, l)[0], 12 + 8 * dim + k))
  }

  function DecStruct(cfg: Config, t: Type, s: seq<byte>): (r: Result<(Value, nat)>)
    requires t.StructOf?
    ensures r.Ok? ==> r.value.1 <= |s|
    decreases t, 0, 0
  {
    var count :- Word(4, s);
    if count != |t.fields| then Err(Mismatch)
    else
      var (vs, k) :- DecFields(cfg, t.fields, s[4..]);
      Ok((StructV(vs), 4 + k))
  }

  lemma LeafSmaller(t: Type)
    requires t.ListOf?
    ensures Leaf(t) < t
  {
    if t.elem.ListOf? {
      LeafSmaller(t.elem);
    }
  }

  function DecMany(cfg: Config, t: Type, n: nat, s: seq<byte>): (r: Result<(seq<Value>, nat)>)
    ensures r.Ok? ==> |r.value.0| == n && r.value.1 <= |s|
    decreases t, 2, n
  {
    if n == 0 then Ok(([], 0))
    else
      var (v, k) :- Dec(cfg, t, s);
      var (vs, m) :- DecMany(cfg, t, n - 1, s[k..]);
      Ok(([v] + vs, k + m))
  }

  function DecFields(cfg: Config, ts: seq<Type>, s: seq<byte>): (r: Result<(seq<Value>, nat)>)
    ensures r.Ok? ==> |r.value.0| == |ts| && r.value.1 <= |s|
    decreases ts, 3, 0
  {
    if ts == [] then Ok(([], 0))
    else
      var oid :- Word(4, s);
      var (v, k) :- Dec(cfg, ts[0], s[4..]);
      var (vs, m) :- DecFields(cfg, ts[1..], s[4 + k..]);
      Ok(([v] + vs, 4 + k + m))
  }
}
