/** PostgresBinaryParser (src/include/postgres_binary_parser.hpp and
    src/postgres_binary_parser.cpp): a cursor over a byte buffer that fills
    DuckDB vectors. */
module BinaryParser {
  import opened Wrappers
  import opened Bytes
  import opened Decimal
  import opened DateTime
  import opened NestedLists
  import opened WireFormat
  import WireRoundTrip
  import opened Vectors
  import opened RowFormat

  /** A read against the value and length it should take off the buffer: on success
      exactly those, an exception where the format has one, and no promise where
      the source leaves defined behaviour. */
  ghost predicate Takes<T>(want: Result<(T, nat)>, before: seq<byte>, after: seq<byte>, got: Result<T>) {
    match want
    case Ok((v, k)) => got == Ok(v) && k <= |before| && after == before[k..]
    case Err(Unmodelled) => true
    case Err(_) => got.Err?
  }

  /** A decoded word, as a value and the length of its encoding. */
  function Sized<T>(n: nat, w: Result<T>): Result<(T, nat)> {
    match w case Ok(x) => Ok((x, n)) case Err(e) => Err(e)
  }

  /** The first i digit groups behind a numeric's header are the groups of any
      longer reading. */
  lemma {:induction false} DigitsPrefix(i: nat, n: nat, s: seq<byte>)
    requires i <= n && 2 * n <= |s|
    ensures DecDigits(n, s)[..i] == DecDigits(i, s)
  {
    if i > 0 {
      DigitsPrefix(i - 1, n - 1, s[2..]);
    }
  }

  lemma {:induction false} DigitsStep(i: nat, s: seq<byte>)
    requires 2 * i + 2 <= |s|
    ensures DecDigits(i + 1, s) == DecDigits(i, s) + [Val(s[2 * i..][..2])]
  {
    if i > 0 {
      DigitsStep(i - 1, s[2..]);
      assert s[2..][2 * (i - 1)..] == s[2 * i..];
    } else {
      assert s[0..] == s;
    }
  }

  lemma NextGroup(s: seq<byte>, i: nat)
    requires 2 * i + 2 <= |s|
    ensures s[2 * i..][2..] == s[2 * (i + 1)..]
  {
  }

  class BinaryParser {
    const cfg: Config
    var buffer: seq<byte>
    var ptr: nat

    constructor (cfg: Config)
      ensures Valid() && Rest() == [] && this.cfg == cfg
    {
      this.cfg := cfg;
      buffer := [];
      ptr := 0;
    }

    predicate Valid()
      reads this
    {
      ptr <= |buffer|
    }

    /** The bytes between the cursor and the end of the buffer. */
    function Rest(): seq<byte>
      requires Valid()
      reads this
    {
      buffer[ptr..]
    }

    method SetBuffer(buf: seq<byte>)
      modifies this
      ensures Valid() && Rest() == buf
    {
      buffer := buf;
      ptr := 0;
    }

    method ReadInteger(n: nat) returns (r: Result<nat>)
      requires Valid()
      modifies this
      ensures Valid() && Takes(Sized(n, Word(n, old(Rest()))), old(Rest()), Rest(), r)
    {
      if ptr + n > |buffer| {
        return Err(OutOfBuffer);
      }
      assert buffer[ptr..ptr + n] == Rest()[..n];
      BeVal(buffer[ptr..ptr + n]);
      r := Ok(Val(buffer[ptr..ptr + n]));
      ptr := ptr + n;
    }

    method ReadSigned(n: nat) returns (r: Result<int>)
      requires Valid()
      modifies this
      ensures Valid() && Takes(Sized(n, SWord(n, old(Rest()))), old(Rest()), Rest(), r)
    {
      var u := ReadInteger(n);
      r := if u.Ok? then Ok(ToSigned(n, u.value)) else Err(u.error);
    }

    method ReadString(len: nat) returns (r: Result<seq<byte>>)
      requires Valid()
      modifies this
      ensures Valid()
      ensures Takes(if len > |old(Rest())| then Err(OutOfBuffer) else Ok((old(Rest())[..len], len)), old(Rest()), Rest(), r)
    {
      if ptr + len > |buffer| {
        return Err(OutOfBuffer);
      }
      assert buffer[ptr..ptr + len] == Rest()[..len];
      r := Ok(buffer[ptr..ptr + len]);
      ptr := ptr + len;
    }

    // --------------------------------------------------------------- numerics

    /** The integral loop of ReadDecimal. It only fails on numerics that are short
        or not readable. */
    method ReadIntegralPart(st: Storage, n: nat, weight: int, scale: nat) returns (r: Result<nat>)
      requires Valid() && weight >= 0 && n > 0
      modifies this
      ensures Valid()
      ensures var s, k := old(Rest()), IntegralCount(n, weight);
              r.Ok? ==> 2 * k <= |s| && Rest() == s[2 * k..]
                        && r.value == IntegralRead(k, weight + 1, s) * Pow(10, scale)
      ensures var s := old(Rest());
              r.Err? ==> !(2 * n <= |s| && Readable(st, DecDigits(n, s), weight, scale))
    {
      ghost var s := Rest();
      hide Readable, Pow, IntegralRead, Val;
      var first := ReadInteger(2);
      if first.Err? {
        return Err(first.error);
      }
      var part: nat := first.value;
      var i, k := 1, 1;
      IntegralStart(st, n, weight, scale, s);
      if part > st.Max {
        return Err(Overflow);
      }
      while i <= weight
        invariant 1 <= i <= weight + 1 && k == (if i <= n then i else n)
        invariant Valid() && 2 * k <= |s| && Rest() == s[2 * k..]
        invariant part == IntegralRead(k, i, s)
      {
        IntegralRound(st, n, weight, scale, s, k, i);
        var next := ReadGroup(st.Max, part, i < n);
        if next.Err? {
          return Err(next.error);
        }
        part := next.value;
        if i < n {
          k := k + 1;
        }
        i := i + 1;
      }
      IntegralRound(st, n, weight, scale, s, k, i);
      part := part * Pow(10, scale);
      if part > st.Max {
        return Err(Overflow);
      }
      r := Ok(part);
    }

    /** One round of a digit loop: shift by a group, then add one if any is left. */
    method ReadGroup(max: nat, part: nat, more: bool) returns (r: Result<nat>)
      requires Valid()
      modifies this
      ensures Valid()
      ensures r.Ok? && more ==> |old(Rest())| >= 2 && Rest() == old(Rest())[2..] && r.value == part * NBASE + Val(old(Rest())[..2])
      ensures r.Ok? && !more ==> Rest() == old(Rest()) && r.value == part * NBASE
      ensures r.Err? ==> (more && |old(Rest())| < 2)
                         || part * NBASE + (if more then Val(old(Rest())[..2]) else 0) > max
    {
      var shifted := part * NBASE;
      if shifted > max {
        return Err(Overflow);
      }
      if more {
        var d := ReadInteger(2);
        if d.Err? {
          return Err(d.error);
        }
        shifted := shifted + d.value;
        if shifted > max {
          return Err(Overflow);
        }
      }
      r := Ok(shifted);
    }

    /** The fractional loop of ReadDecimal, over the groups behind the point; the
        last one is compensated for the scale. */
    method ReadFractionalPart(st: Storage, n: nat, weight: int, scale: nat, ghost s: seq<byte>) returns (r: Result<nat>)
      requires Valid() && n > weight + 1 && n > 0
      requires var k := IntegralCount(n, weight); 2 * k <= |s| && Rest() == s[2 * k..]
      modifies this
      ensures Valid()
      ensures r.Ok? ==> 2 * n <= |s| && Rest() == s[2 * n..]
                        && r.value == FractionalPart(DecDigits(n, s), weight, scale)
      ensures r.Err? ==> !(2 * n <= |s| && Readable(st, DecDigits(n, s), weight, scale))
    {
      LastGroup(st, n, weight, scale, s);
      var part := ReadGroupsButLast(st, n, weight, scale, s);
      hide Readable, Magnitude, FractionalPart, FinalBase, FinalDigit, CompensationFits, Dig, DecDigits;
      if part.Err? {
        return Err(part.error);
      }
      assert 2 * n <= |s| ==> s[2 * (n - 1)..][2..] == s[2 * n..];
      r := ReadLastGroup(st, part.value, Correction(n, weight, scale));
    }

    method ReadGroupsButLast(st: Storage, n: nat, weight: int, scale: nat, ghost s: seq<byte>) returns (r: Result<nat>)
      requires Valid() && n > weight + 1 && n > 0
      requires var k := IntegralCount(n, weight); 2 * k <= |s| && Rest() == s[2 * k..]
      modifies this
      ensures Valid()
      ensures r.Ok? ==> 2 * (n - 1) <= |s| && Rest() == s[2 * (n - 1)..]
                        && r.value == FractionRead(IntegralCount(n, weight), n - 1, s)
      ensures r.Err? ==> !(2 * n <= |s| && Readable(st, DecDigits(n, s), weight, scale))
    {
      ghost var start := IntegralCount(n, weight);
      var part: nat := 0;
      var i: nat := if weight + 1 > 0 then weight + 1 else 0;
      assert FractionRead(start, start, s) == 0;
      hide Readable, FractionRead, IntegralCount, Val;
      while i + 1 < n
        invariant start <= i < n && Valid() && 2 * i <= |s| && Rest() == s[2 * i..]
        invariant part == FractionRead(start, i, s)
      {
        FractionRound(st, n, weight, scale, s, i);
        var next := ReadGroup(st.Max, part, true);
        if next.Err? {
          return Err(next.error);
        }
        part := next.value;
        i := i + 1;
      }
      r := Ok(part);
    }

    /** The last group: base and digit are scaled down or up by a power of ten. */
    method ReadLastGroup(st: Storage, part: nat, c: int) returns (r: Result<nat>)
      requires Valid()
      modifies this
      ensures Valid()
      ensures r.Ok? ==> |old(Rest())| >= 2 && Rest() == old(Rest())[2..]
                        && r.value == part * FinalBase(c) + FinalDigit(Val(old(Rest())[..2]), c)
      ensures r.Err? && |old(Rest())| >= 2 ==>
              var d := Val(old(Rest())[..2]);
              !CompensationFits(st, c, d) || part * FinalBase(c) + FinalDigit(d, c) > st.Max
    {
      var d := ReadInteger(2);
      if d.Err? {
        return Err(d.error);
      }
      var compensated := Compensate(st.PowerLimit, st.Max, d.value, c);
      if compensated.Err? {
        return Err(compensated.error);
      }
      var (finalBase, finalDigit) := compensated.value;
      hide FinalBase, FinalDigit, CompensationFits;
      var scaled := part * finalBase;
      if scaled > st.Max || scaled + finalDigit > st.Max {
        return Err(Overflow);
      }
      r := Ok(scaled + finalDigit);
    }

    method ReadDecimalConfig() returns (r: Result<(nat, int, nat, nat)>)
      requires Valid()
      modifies this
      ensures Valid() && Takes(DecConfig(old(Rest())), old(Rest()), Rest(), r)
    {
      var n :- ReadInteger(2);
      var w :- ReadSigned(2);
      var sign :- ReadInteger(2);
      if sign !in {NUMERIC_POS, NUMERIC_NAN, NUMERIC_PINF, NUMERIC_NINF, NUMERIC_NEG} {
        return Err(BadFormat);
      }
      var scale :- ReadInteger(2);
      r := Ok((n, w, sign, scale));
    }

    /** ReadDecimal<T>. Besides agreeing with the format on readable numerics, any
        finite value it returns is the one its digits give under Magnitude. */
    method ReadDecimal(st: Storage) returns (r: Result<Numeric>)
      requires Valid()
      modifies this
      ensures Valid() && Takes(DecNumeric(st, old(Rest())), old(Rest()), Rest(), r)
      ensures r.Ok? && r.value.Ordinary? ==> IsMagnitude(old(Rest()), r.value.value)
    {
      ghost var before := Rest();
      var config :- ReadDecimalConfig();
      var (n, weight, sign, scale) := config;
      NumericConfig(st, before);
      ghost var s := Rest();
      assert s == before[8..];
      if sign == NUMERIC_NAN || sign == NUMERIC_PINF || sign == NUMERIC_NINF {
        return Ok(if sign == NUMERIC_NAN then NotANumber else if sign == NUMERIC_PINF then PositiveInfinity else NegativeInfinity);
      }
      if scale >= st.PowerLimit {
        return Err(OutOfRange);
      }
      if n == 0 {
        return Ok(Ordinary(0));
      }
      var magnitude := ReadMagnitude(st, n, weight, scale);
      if magnitude.Err? {
        return Err(magnitude.error);
      }
      assert s[2 * n..] == before[8 + 2 * n..];
      r := Ok(Ordinary(if sign == NUMERIC_NEG then -(magnitude.value as int) else magnitude.value));
    }

    /** integral_part + fractional_part. */
    method ReadMagnitude(st: Storage, n: nat, weight: int, scale: nat) returns (r: Result<nat>)
      requires Valid() && n > 0
      modifies this
      ensures Valid()
      ensures var s := old(Rest());
              r.Ok? ==> 2 * n <= |s| && Rest() == s[2 * n..] && r.value == Magnitude(DecDigits(n, s), weight, scale)
      ensures var s := old(Rest());
              r.Err? ==> !(2 * n <= |s| && Readable(st, DecDigits(n, s), weight, scale))
    {
      ghost var s := Rest();
      var integral, fractional := 0, 0;
      if weight >= 0 {
        var x := ReadIntegralPart(st, n, weight, scale);
        if x.Err? {
          return Err(x.error);
        }
        integral := x.value;
      }
      if n > weight + 1 {
        assert s[0..] == s;
        var x := ReadFractionalPart(st, n, weight, scale, s);
        if x.Err? {
          return Err(x.error);
        }
        fractional := x.value;
      }
      SumFits(st, n, weight, scale, s);
      if integral + fractional > st.Max {
        return Err(Overflow);
      }
      r := Ok(integral + fractional);
    }

    // ------------------------------------------------------------------ values

    method ReadTimestamp() returns (r: Result<Value>)
      requires Valid()
      modifies this
      ensures Valid() && Takes(DecTimestamp(old(Rest())), old(Rest()), Rest(), r)
    {
      var usec :- ReadInteger(8);
      var micros :- TimestampFromPostgres(usec);
      r := Ok(NumV(micros));
    }

    method ReadTimeTz() returns (r: Result<Value>)
      requires Valid()
      modifies this
      ensures Valid() && Takes(DecTimeTz(old(Rest())), old(Rest()), Rest(), r)
    {
      var usec :- ReadSigned(8);
      var offset :- ReadSigned(4);
      r := Ok(TimeTzV(usec, -offset));
    }

    method ReadInterval() returns (r: Result<Value>)
      requires Valid()
      modifies this
      ensures Valid() && Takes(DecInterval(old(Rest())), old(Rest()), Rest(), r)
    {
      var micros :- ReadSigned(8);
      var days :- ReadSigned(4);
      var months :- ReadSigned(4);
      r := Ok(IntervalV(micros, days, months));
    }

    method ReadUuid() returns (r: Result<Value>)
      requires Valid()
      modifies this
      ensures Valid() && Takes(DecUuid(old(Rest())), old(Rest()), Rest(), r)
    {
      Sizes();
      var upper :- ReadInteger(8);
      var lower :- ReadInteger(8);
      r := Ok(UuidV(ToSigned(8, FlipTop(upper)), lower));
    }

    method ReadText(len: int) returns (r: Result<Value>)
      requires Valid()
      modifies this
      ensures Valid() && Takes(DecText(len, old(Rest())), old(Rest()), Rest(), r)
    {
      if len < 0 {
        return Err(Unmodelled);
      }
      var text :- ReadString(len);
      r := Ok(StrV(text));
    }

    /** The DECIMAL case: a NULL for the special values if so configured. */
    method ReadNumber(st: Storage, len: int) returns (r: Result<Value>)
      requires Valid()
      modifies this
      ensures Valid() && Takes(DecNumber(cfg, st, len, old(Rest())), old(Rest()), Rest(), r)
    {
      hide DecNumeric;
      if 0 <= len < 8 {
        return Err(BadFormat);
      }
      var x := ReadDecimal(st);
      if x.Err? {
        return Err(x.error);
      }
      match x.value {
        case Ordinary(n) => r := Ok(NumV(n));
        case _ => r := if cfg.nanAsNull then Ok(NullV) else Err(BadFormat);
      }
    }

    method ReadWord(n: nat, signed: bool) returns (r: Result<Value>)
      requires Valid()
      modifies this
      ensures Valid()
      ensures signed ==> Takes(match SWord(n, old(Rest())) case Ok(x) => Ok((NumV(x), n)) case Err(e) => Err(e), old(Rest()), Rest(), r)
      ensures !signed ==> Takes(match Word(n, old(Rest())) case Ok(x) => Ok((NumV(x), n)) case Err(e) => Err(e), old(Rest()), Rest(), r)
    {
      if signed {
        var x :- ReadSigned(n);
        r := Ok(NumV(x));
      } else {
        var x :- ReadInteger(n);
        r := Ok(NumV(x));
      }
    }

    /** The cases of ReadValue that are neither LIST nor STRUCT. */
    method ReadScalar(t: Type, len: int) returns (r: Result<Value>)
      requires Valid() && !t.ListOf? && !t.StructOf?
      modifies this
      ensures Valid() && Takes(DecScalar(cfg, t, len, old(Rest())), old(Rest()), Rest(), r)
    {
      hide DecNumber, DecText, DecUuid, DecInterval, DecTimestamp, DecTimeTz, Word, SWord;
      match t {
        case Boolean =>
          var u :- ReadInteger(1);
          r := Ok(NumV(if u > 0 then 1 else 0));
        case SmallInt => r := ReadWord(2, true);
        case Integer => r := ReadWord(4, true);
        case BigInt => r := ReadWord(8, true);
        case Float => r := ReadWord(4, false);
        case Double => r := ReadWord(8, false);
        case DecimalOf(st, _) => r := ReadNumber(st, len);
        case Date =>
          var jd :- ReadInteger(4);
          r := Ok(NumV(DateFromPostgres(jd)));
        case Time => r := ReadWord(8, true);
        case TimeTz => r := ReadTimeTz();
        case Timestamp => r := ReadTimestamp();
        case TimestampTz => r := ReadTimestamp();
        case Interval => r := ReadInterval();
        case Uuid => r := ReadUuid();
        case Varchar => r := ReadText(len);
        case Blob => r := ReadText(len);
      }
    }

    /** ReadValue: the value at the cursor goes to row off of vec. */
    method ReadValue(t: Type, vec: Vec, off: nat) returns (r: Result<Vec>)
      requires Valid() && Ready(t, vec) && off < |vec.valid| && Fresh(vec, off)
      modifies this
      ensures Valid() && Stored(t, Dec(cfg, t, old(Rest())), old(Rest()), Rest(), vec, off, r)
      decreases t, 1, 0
    {
      hide Dec, DecBody, Val, ToSigned, Ready, Fresh, Stored;
      ghost var s := Rest();
      var len := ReadSigned(4);
      DecCases(cfg, t, s);
      if len.Err? {
        FailsStored(t, s, Rest(), vec, off, len.error);
        return Err(len.error);
      }
      if len.value == -1 {
        var w := SetNull(vec, off);
        NullStored(t, s, vec, off);
        return Ok(w);
      }
      r := ReadBody(t, len.value, vec, off);
      BodyStored(cfg, t, s, len.value, Rest(), vec, off, r);
    }

    /** The switch of ReadValue, behind the field length. */
    method ReadBody(t: Type, len: int, vec: Vec, off: nat) returns (r: Result<Vec>)
      requires Valid() && Ready(t, vec) && off < |vec.valid| && Fresh(vec, off)
      modifies this
      ensures Valid() && Stored(t, DecBody(cfg, t, len, old(Rest())), old(Rest()), Rest(), vec, off, r)
      decreases t, 0, 3
    {
      hide DecScalar, DecList, DecStruct, Ready, Fresh, Elsewhere, At;
      ReadyShape(t, vec);
      if t.ListOf? {
        r := ReadList(t, len, vec, off);
      } else if t.StructOf? {
        r := ReadStruct(t, vec, off);
      } else {
        var v := ReadScalar(t, len);
        if v.Err? {
          return Err(v.error);
        }
        r := Ok(SetCell(vec, off, v.value));
        SetCellStores(t, vec, off, v.value);
      }
    }

    /** The LIST case of ReadValue, behind the field length. */
    method ReadList(t: Type, len: int, vec: Vec, off: nat) returns (r: Result<Vec>)
      requires Valid() && Ready(t, vec) && off < |vec.valid| && Fresh(vec, off) && t.ListOf?
      modifies this
      ensures Valid() && Stored(t, DecList(cfg, t, len, old(Rest())), old(Rest()), Rest(), vec, off, r)
      decreases t, 0, 2
    {
      ghost var s := Rest();
      ListHeader(cfg, t, len, s);
      EmptyStores(t, vec, off);
      hide DecList, DecElements, Val, Fresh, Ready, Elsewhere, At, EmptyList;
      if len < 1 {
        return Ok(EmptyList(vec, off));
      }
      var dim :- ReadInteger(4);
      var hasNull :- ReadInteger(4);
      var oid :- ReadInteger(4);
      if dim == 0 {
        return Ok(EmptyList(vec, off));
      }
      if dim != Depth(t) {
        return Err(Mismatch);
      }
      r := ReadElements(t, vec, off);
    }

    /** The dimensions and the elements, behind a header of the expected depth. */
    method ReadElements(t: Type, vec: Vec, off: nat) returns (r: Result<Vec>)
      requires Valid() && Ready(t, vec) && off < |vec.valid| && Fresh(vec, off) && t.ListOf?
      modifies this
      ensures Valid() && Stored(t, DecElements(cfg, t, old(Rest())), old(Rest()), Rest(), vec, off, r)
      decreases t, 0, 1
    {
      ghost var s := Rest();
      ReadyShape(t, vec);
      ElementsFail(cfg, t, s);
      var dims := ReadDims(Depth(t));
      if dims.Err? {
        return Err(dims.error);
      }
      hide StoredRows, Stored, DecElements;
      if !CountsFit(1, dims.value) {
        ElementsUnmodelled(cfg, t, s, dims.value, Rest(), vec, off);
        return Err(Unmodelled);
      }
      ghost var now := Rest();
      r := ReadArray(t, vec, off, 1, dims.value);
      ElementsStored(cfg, t, s, dims.value, now, Rest(), vec, off, r);
    }

    method ReadDims(n: nat) returns (r: Result<seq<nat>>)
      requires Valid()
      modifies this
      ensures Valid() && r.Ok? == DecDims(n, old(Rest())).Ok?
      ensures r.Ok? ==> r == DecDims(n, old(Rest())) && |r.value| == n && 8 * n <= |old(Rest())| && Rest() == old(Rest())[8 * n..]
      ensures r.Err? ==> DecDims(n, old(Rest())).Err?
    {
      ghost var s := Rest();
      var dims: seq<nat> := [];
      hide DecDims, Val;
      assert s[0..] == s;
      DimsDone(s);
      assert DecDims(n, s).Ok? ==> [] + DecDims(n, s).value == DecDims(n, s).value;
      while |dims| < n
        invariant |dims| <= n && Valid() && 8 * |dims| <= |s| && Rest() == s[8 * |dims|..]
        invariant DecDims(n, s) == DimsBehind(dims, DecDims(n - |dims|, Rest()))
      {
        ghost var now := Rest();
        var d := ReadDim();
        if d.Err? {
          return Err(d.error);
        }
        assert now[8..] == s[8 * (|dims| + 1)..];
        DimsAdvance(n, s, dims, now);
        dims := dims + [d.value];
      }
      assert dims + [] == dims;
      r := Ok(dims);
    }

    /** One dimension; its lower bound is read and dropped. */
    method ReadDim() returns (r: Result<nat>)
      requires Valid()
      modifies this
      ensures Valid() && (r.Ok? <==> |old(Rest())| >= 8)
      ensures r.Ok? ==> r == Word(4, old(Rest())) && Rest() == old(Rest())[8..]
    {
      ghost var now := Rest();
      hide Val;
      var d :- ReadInteger(4);
      var lower :- ReadInteger(4);
      assert now[4..][4..] == now[8..];
      r := Ok(d);
    }

    /** ReadArray: count lists at rows off .. off + count, one level of the array. */
    method ReadArray(t: Type, vec: Vec, off: nat, count: nat, dims: seq<nat>) returns (r: Result<Vec>)
      requires Valid() && Ready(t, vec) && off + count <= |vec.valid| && t.ListOf? && |dims| == Depth(t)
      requires CountsFit(count, dims) && forall i | off <= i < off + count :: Fresh(vec, i)
      modifies this
      ensures Valid()
      ensures StoredRows(t, Shaped(dims, count, DecMany(cfg, Leaf(t), count * Prod(dims), old(Rest()))), old(Rest()), Rest(), vec, off, count, r)
      decreases t, 0, 0
    {
      hide DecMany, At;
      var d := dims[0];
      var total := count * d;
      var entries := WriteEntries(vec.entries, off, count, vec.size, d);
      var child := Reserve(vec.child, vec.size + total);
      ReserveFresh(t.elem, vec.child, child, vec.size, total);
      ProdCons(count, dims);
      var filled;
      if |dims| > 1 {
        filled := ReadArray(t.elem, child, vec.size, total, dims[1..]);
      } else {
        filled := ReadCells(t.elem, child, vec.size, total);
      }
      if filled.Err? {
        return Err(filled.error);
      }
      r := Ok(ListVec(vec.valid, entries, filled.value, vec.size + total));
      LevelStored(cfg, t, vec, filled.value, off, count, dims, old(Rest()), Rest());
    }

    /** The innermost loop of ReadArray. */
    method ReadCells(t: Type, vec: Vec, off: nat, count: nat) returns (r: Result<Vec>)
      requires Valid() && Ready(t, vec) && off + count <= |vec.valid|
      requires forall i | off <= i < off + count :: Fresh(vec, i)
      modifies this
      ensures Valid()
      ensures StoredRows(t, DecMany(cfg, t, count, old(Rest())), old(Rest()), Rest(), vec, off, count, r)
      decreases t, 2, 0
    {
      ghost var s := Rest();
      ghost var vs: seq<Value>, m: nat := [], 0;
      FillStart(cfg, t, vec, off, count, s);
      hide Dec, DecMany, Filling, Stored, StoredRows, Ready, Shape, Fresh;
      var w := vec;
      var i := 0;
      while i < count
        invariant 0 <= i <= count && Valid() && |w.valid| == |vec.valid|
        invariant Filling(cfg, t, vec, w, off, i, count, s, Rest(), vs, m)
      {
        ghost var now := Rest();
        FillReady(cfg, t, vec, w, off, i, count, s, now, vs, m);
        var x := ReadValue(t, w, off + i);
        vs, m := FillStep(cfg, t, vec, w, off, i, count, s, now, Rest(), vs, m, x);
        if x.Err? {
          return Err(x.error);
        }
        w := x.value;
        i := i + 1;
      }
      FillEnd(cfg, t, vec, w, off, count, s, Rest(), vs, m);
      r := Ok(w);
    }

    /** The STRUCT case of ReadValue: every field's vector at the same row. */
    method ReadStruct(t: Type, vec: Vec, off: nat) returns (r: Result<Vec>)
      requires Valid() && Ready(t, vec) && off < |vec.valid| && Fresh(vec, off) && t.StructOf?
      modifies this
      ensures Valid() && Stored(t, DecStruct(cfg, t, old(Rest())), old(Rest()), Rest(), vec, off, r)
      decreases t, 0, 1
    {
      var count :- ReadInteger(4);
      if count != |vec.fields| {
        return Err(Mismatch);
      }
      var fields := ReadFields(t, vec, off);
      if fields.Err? {
        return Err(fields.error);
      }
      StructStored(t, vec, fields.value, off);
      r := Ok(StructVec(vec.valid, fields.value));
    }

    method ReadFields(t: Type, vec: Vec, off: nat) returns (r: Result<seq<Vec>>)
      requires Valid() && Ready(t, vec) && off < |vec.valid| && Fresh(vec, off) && vec.StructVec?
      modifies this
      ensures Valid()
      ensures Gathered(t, DecFields(cfg, t.fields, old(Rest())), old(Rest()), Rest(), vec, off, r)
      decreases t, 0, 0
    {
      ghost var s := Rest();
      ghost var all := DecFields(cfg, t.fields, s);
      ghost var vs: seq<Value>, m: nat := [], 0;
      GatherStart(all, t, vec, off, s);
      assert t.fields[0..] == t.fields && t.fields[|t.fields|..] == [] && |vec.fields| == |t.fields|;
      DecNoFields(cfg);
      hide Dec, DecFields, DecField, Val, Ready, Fresh, Gathering, Gathered, Stored;
      var fields := vec.fields;
      var k := 0;
      while k < |vec.fields|
        invariant 0 <= k <= |vec.fields| && Valid() && |fields| == |vec.fields|
        invariant Gathering(all, t, vec, off, s, Rest(), fields, k, vs, m, DecFields(cfg, t.fields[k..], Rest()))
      {
        ghost var now, rest := Rest(), DecFields(cfg, t.fields[k..], Rest());
        DecFieldsCons(cfg, t.fields, k, now);
        GatherField(all, t, vec, off, s, now, fields, k, vs, m, rest);
        var oid := ReadInteger(4);
        if oid.Err? {
          NoOid(cfg, t.fields[k], now);
          GatherFails(all, t, vec, off, s, now, Rest(), fields, k, vs, m, rest, oid.error);
          return Err(oid.error);
        }
        ghost var one := DecField(cfg, t.fields[k], now);
        var x := ReadValue(t.fields[k], fields[k], off);
        FieldTaken(cfg, t.fields[k], now, Rest(), fields[k], off, x);
        if x.Err? {
          FieldFails(all, t, vec, off, s, now, Rest(), fields, k, vs, m, one, DecFields(cfg, t.fields[k..], now), x.error);
          return Err(x.error);
        }
        vs, m := GatherStep(all, t, vec, off, s, now, Rest(), fields, k, vs, m, one, DecFields(cfg, t.fields[k + 1..], Rest()), x.value);
        fields := fields[k := x.value];
        k := k + 1;
      }
      GatherEnd(all, t, vec, off, s, Rest(), fields, vs, m);
      r := Ok(fields);
    }

    // -------------------------------------------------------------------- rows

    /** CheckHeader: the signature, then the flags and the extension length, which
        are skipped. */
    method CheckHeader() returns (o: Outcome)
      requires Valid()
      modifies this
      ensures Valid()
      ensures o.Pass? <==> |old(Rest())| >= HEADER_SIZE && old(Rest())[..|COPY_HEADER|] == COPY_HEADER
      ensures o.Pass? ==> Rest() == old(Rest())[HEADER_SIZE..]
    {
      if ptr + HEADER_SIZE > |buffer| {
        return Fail(BadHeader);
      }
      assert buffer[ptr..ptr + |COPY_HEADER|] == Rest()[..|COPY_HEADER|];
      if buffer[ptr..ptr + |COPY_HEADER|] != COPY_HEADER {
        return Fail(BadHeader);
      }
      ptr := ptr + HEADER_SIZE;
      o := Pass;
    }

    /** ReadChunk: rows into the chunk until it is full or the buffer is used up. A
        chunk is a struct vector whose fields are its columns. */
    method ReadChunk(t: Type, chunk: Vec, size: nat) returns (r: Result<bool>, out: Vec, n: nat)
      requires Valid() && t.StructOf? && OpenChunk(t, chunk, size)
      modifies this
      ensures Valid()
      ensures r.Ok? ==> OpenChunk(t, out, n) && r.value == (n == VECTOR_SIZE) && (!r.value ==> Rest() == [])
      ensures Delivers(t, Parse(cfg, t.fields, old(Rest()), VECTOR_SIZE - size), chunk, size, Rest(), r, out, n)
    {
      hide Parse, DecCells, Val, ToSigned, At, Ready, Fresh;
      ghost var all := Parse(cfg, t.fields, Rest(), VECTOR_SIZE - size);
      ghost var rows: seq<seq<Value>> := [];
      out, n := chunk, size;
      NoRowsYet(t, all, chunk, size);
      while n < VECTOR_SIZE
        invariant Valid() && OpenChunk(t, out, n)
        invariant Filled(t, all, chunk, size, out, n, rows, Parse(cfg, t.fields, Rest(), VECTOR_SIZE - n))
        decreases VECTOR_SIZE - n, |Rest()|
      {
        ghost var now := Rest();
        ParseStep(cfg, t.fields, now, VECTOR_SIZE - n);
        if ptr >= |buffer| {
          ChunkDone(t, all, chunk, size, out, n, rows, now);
          return Ok(false), out, n;
        }
        var count := ReadSigned(2);
        if count.Err? {
          ChunkFails(t, all, chunk, size, out, n, rows, Parse(cfg, t.fields, now, VECTOR_SIZE - n));
          return Err(count.error), out, n;
        }
        if count.value <= 0 {
          buffer, ptr := [], 0;
          ParseStep(cfg, t.fields, [], VECTOR_SIZE - n);
          continue;
        }
        var w := ReadRow(t, out, n);
        if w.Err? {
          ChunkFails(t, all, chunk, size, out, n, rows, Parse(cfg, t.fields, now, VECTOR_SIZE - n));
          return Err(w.error), out, n;
        }
        rows := RowFilled(cfg, t, all, chunk, size, out, n, rows, now, Rest(), w.value);
        out, n := w.value, n + 1;
      }
      ChunkFull(cfg, t, all, chunk, size, out, rows, Rest());
      r := Ok(true);
    }

    /** The column loop of ReadChunk. */
    method ReadRow(t: Type, vec: Vec, off: nat) returns (r: Result<Vec>)
      requires Valid() && Ready(t, vec) && off < |vec.valid| && Fresh(vec, off) && t.StructOf?
      modifies this
      ensures Valid() && Stored(t, DecRow(cfg, t.fields, old(Rest())), old(Rest()), Rest(), vec, off, r)
    {
      ghost var s := Rest();
      ghost var all := DecCells(cfg, t.fields, s);
      ghost var vs: seq<Value>, m: nat := [], 0;
      GatherStart(all, t, vec, off, s);
      assert t.fields[0..] == t.fields && t.fields[|t.fields|..] == [] && |vec.fields| == |t.fields|;
      DecNoCells(cfg);
      hide Dec, DecCells, Val, Ready, Fresh, Gathering, Gathered, Stored;
      var fields := vec.fields;
      var k := 0;
      while k < |vec.fields|
        invariant 0 <= k <= |vec.fields| && Valid() && |fields| == |vec.fields|
        invariant Gathering(all, t, vec, off, s, Rest(), fields, k, vs, m, DecCells(cfg, t.fields[k..], Rest()))
      {
        ghost var now, rest := Rest(), DecCells(cfg, t.fields[k..], Rest());
        DecCellsCons(cfg, t.fields, k, now);
        GatherField(all, t, vec, off, s, now, fields, k, vs, m, rest);
        ghost var one := Dec(cfg, t.fields[k], now);
        var x := ReadValue(t.fields[k], fields[k], off);
        if x.Err? {
          FieldFails(all, t, vec, off, s, now, Rest(), fields, k, vs, m, one, rest, x.error);
          GatheredFails(cfg, t, s, Rest(), vec, off, x.error);
          return Err(x.error);
        }
        vs, m := GatherStep(all, t, vec, off, s, now, Rest(), fields, k, vs, m, one, DecCells(cfg, t.fields[k + 1..], Rest()), x.value);
        fields := fields[k := x.value];
        k := k + 1;
      }
      GatherEnd(all, t, vec, off, s, Rest(), fields, vs, m);
      RowStored(cfg, t, s, Rest(), vec, off, fields);
      r := Ok(StructVec(vec.valid, fields));
    }
  }

  // ------------------------------------------------------------------ data chunks

  /** A chunk holding size rows, the rows behind them not yet written. */
  ghost predicate OpenChunk(t: Type, chunk: Vec, size: nat) {
    && Ready(t, chunk) && Shape(t, chunk) && |chunk.valid| == VECTOR_SIZE && size <= VECTOR_SIZE
    && forall i | size <= i < VECTOR_SIZE :: Fresh(chunk, i)
  }

  /** The columns of one row as one struct. */
  function DecRow(cfg: Config, ts: seq<Type>, s: seq<byte>): (r: Result<(Value, nat)>)
    ensures r.Ok? ==> r.value.1 <= |s|
  {
    var (vs, k) :- DecCells(cfg, ts, s);
    Ok((StructV(vs), k))
  }

  function Structs(rows: seq<seq<Value>>): (vs: seq<Value>)
    ensures |vs| == |rows|
  {
    seq(|rows|, i requires 0 <= i < |rows| => StructV(rows[i]))
  }

  /** A chunk filled against the rows and the rest of the buffer it should leave. */
  ghost predicate Delivers(t: Type, want: Result<(seq<seq<Value>>, seq<byte>)>, chunk: Vec, size: nat, after: seq<byte>,
                           r: Result<bool>, out: Vec, n: nat)
    requires OpenChunk(t, chunk, size)
  {
    match want
    case Ok((rows, rest)) =>
      && r.Ok? && OpenChunk(t, out, n) && after == rest && n == size + |rows|
      && Slice(t, out, 0, n) == Slice(t, chunk, 0, size) + Structs(rows)
    case Err(Unmodelled) => true
    case Err(_) => r.Err?
  }

  function RowsBehind(rows: seq<seq<Value>>, rest: Result<(seq<seq<Value>>, seq<byte>)>): Result<(seq<seq<Value>>, seq<byte>)> {
    match rest case Ok((more, s)) => Ok((rows + more, s)) case Err(e) => Err(e)
  }

  /** Loop invariant of ReadChunk: rows are in the chunk, the others still to come. */
  ghost predicate Filled(t: Type, all: Result<(seq<seq<Value>>, seq<byte>)>, chunk: Vec, size: nat, out: Vec, n: nat,
                         rows: seq<seq<Value>>, rest: Result<(seq<seq<Value>>, seq<byte>)>)
    requires OpenChunk(t, chunk, size) && OpenChunk(t, out, n)
  {
    || all == Err(Unmodelled)
    || (n == size + |rows| && all == RowsBehind(rows, rest) && Slice(t, out, 0, n) == Slice(t, chunk, 0, size) + Structs(rows))
  }

  lemma NoRowsYet(t: Type, all: Result<(seq<seq<Value>>, seq<byte>)>, chunk: Vec, size: nat)
    requires OpenChunk(t, chunk, size)
    ensures Filled(t, all, chunk, size, chunk, size, [], all)
  {
    hide Shape, Ready, Fresh, At;
    assert all.Ok? ==> [] + all.value.0 == all.value.0;
    assert Slice(t, chunk, 0, size) + Structs([]) == Slice(t, chunk, 0, size);
  }

  lemma ParseStep(cfg: Config, ts: seq<Type>, s: seq<byte>, room: nat)
    requires room > 0
    ensures s == [] ==> Parse(cfg, ts, s, room) == Ok(([], []))
    ensures s != [] && SWord(2, s).Err? ==> Parse(cfg, ts, s, room).Err? && Parse(cfg, ts, s, room) != Err(Unmodelled)
    ensures SWord(2, s).Ok? && SWord(2, s).value <= 0 ==> Parse(cfg, ts, s, room) == Ok(([], []))
    ensures SWord(2, s).Ok? && SWord(2, s).value > 0 ==>
            Parse(cfg, ts, s, room) ==
            if DecCells(cfg, ts, s[2..]).Err? then Err(DecCells(cfg, ts, s[2..]).error)
            else RowsBehind([DecCells(cfg, ts, s[2..]).value.0],
                            Parse(cfg, ts, s[2..][DecCells(cfg, ts, s[2..]).value.1..], room - 1))
  {
    hide DecCells, Val, ToSigned;
    if SWord(2, s).Ok? && DecCells(cfg, ts, s[2..]).Ok? {
      var k := DecCells(cfg, ts, s[2..]).value.1;
      assert s[2..][k..] == s[2 + k..];
    }
  }

  lemma ChunkDone(t: Type, all: Result<(seq<seq<Value>>, seq<byte>)>, chunk: Vec, size: nat, out: Vec, n: nat,
                  rows: seq<seq<Value>>, now: seq<byte>)
    requires OpenChunk(t, chunk, size) && OpenChunk(t, out, n) && now == []
    requires Filled(t, all, chunk, size, out, n, rows, Ok(([], [])))
    ensures Delivers(t, all, chunk, size, now, Ok(false), out, n)
  {
    hide Shape, Ready, Fresh, At;
    assert rows + [] == rows;
  }

  lemma ChunkFails(t: Type, all: Result<(seq<seq<Value>>, seq<byte>)>, chunk: Vec, size: nat, out: Vec, n: nat,
                   rows: seq<seq<Value>>, rest: Result<(seq<seq<Value>>, seq<byte>)>)
    requires OpenChunk(t, chunk, size) && OpenChunk(t, out, n)
    requires Filled(t, all, chunk, size, out, n, rows, rest) && rest.Err?
    ensures forall after, e, w, m :: Delivers(t, all, chunk, size, after, Err(e), w, m)
  {
    hide Shape, Ready, Fresh, At;
  }

  lemma ChunkFull(cfg: Config, t: Type, all: Result<(seq<seq<Value>>, seq<byte>)>, chunk: Vec, size: nat, out: Vec,
                  rows: seq<seq<Value>>, now: seq<byte>)
    requires t.StructOf? && OpenChunk(t, chunk, size) && OpenChunk(t, out, VECTOR_SIZE)
    requires Filled(t, all, chunk, size, out, VECTOR_SIZE, rows, Parse(cfg, t.fields, now, 0))
    ensures Delivers(t, all, chunk, size, now, Ok(true), out, VECTOR_SIZE)
  {
    hide Shape, Ready, Fresh, At;
    assert rows + [] == rows;
  }

  /** One more row in the chunk. */
  lemma RowFilled(cfg: Config, t: Type, all: Result<(seq<seq<Value>>, seq<byte>)>, chunk: Vec, size: nat, out: Vec, n: nat,
                  rows: seq<seq<Value>>, now: seq<byte>, after: seq<byte>, w: Vec) returns (more: seq<seq<Value>>)
    requires t.StructOf? && OpenChunk(t, chunk, size) && OpenChunk(t, out, n) && n < VECTOR_SIZE
    requires SWord(2, now).Ok? && SWord(2, now).value > 0
    requires Filled(t, all, chunk, size, out, n, rows, Parse(cfg, t.fields, now, VECTOR_SIZE - n))
    requires Stored(t, DecRow(cfg, t.fields, now[2..]), now[2..], after, out, n, Ok(w))
    ensures OpenChunk(t, w, n + 1)
    ensures Filled(t, all, chunk, size, w, n + 1, more, Parse(cfg, t.fields, after, VECTOR_SIZE - n - 1))
  {
    hide Ready, At, Fresh, Shape, Parse, DecCells, Val, ToSigned;
    ParseStep(cfg, t.fields, now, VECTOR_SIZE - n);
    more := rows;
    var cells := DecCells(cfg, t.fields, now[2..]);
    if cells.Ok? {
      var (row, k) := cells.value;
      more := rows + [row];
      var rest := Parse(cfg, t.fields, after, VECTOR_SIZE - n - 1);
      if rest.Ok? {
        Regrouped(rows, [row], rest.value.0);
      }
      assert Structs(more) == Structs(rows) + [StructV(row)];
      RowSliced(t, out, w, n, StructV(row));
      if all != Err(Unmodelled) {
        Regrouped(Slice(t, chunk, 0, size), Structs(rows), [StructV(row)]);
      }
    }
  }

  lemma RowSliced(t: Type, out: Vec, w: Vec, n: nat, v: Value)
    requires Elsewhere(t, out, w, n, 1) && n < |out.valid| && At(t, w, n) == v
    ensures Slice(t, w, 0, n + 1) == Slice(t, out, 0, n) + [v]
  {
    hide Ready, At, Fresh, Shape;
  }

  lemma DecCellsCons(cfg: Config, ts: seq<Type>, k: nat, s: seq<byte>)
    requires k < |ts|
    ensures DecCells(cfg, ts[k..], s) == Cons(Dec(cfg, ts[k], s),
              if Dec(cfg, ts[k], s).Ok? then DecCells(cfg, ts[k + 1..], s[Dec(cfg, ts[k], s).value.1..]) else Err(Unmodelled))
  {
    assert ts[k..][1..] == ts[k + 1..];
    hide Dec;
  }

  lemma DecNoCells(cfg: Config)
    ensures forall s :: DecCells(cfg, [], s) == Ok(([], 0))
  {
  }

  /** A store against the value it should leave in the row; no other row changes. */
  ghost predicate Stored(t: Type, want: Result<(Value, nat)>, before: seq<byte>, after: seq<byte>, vec: Vec, off: nat, r: Result<Vec>)
    requires off < |vec.valid|
  {
    && (r.Ok? ==> Elsewhere(t, vec, r.value, off, 1))
    && match want
       case Ok((v, k)) => r.Ok? && k <= |before| && after == before[k..] && At(t, r.value, off) == v
       case Err(Unmodelled) => true
       case Err(_) => r.Err?
  }

  /** The same for count consecutive rows. */
  ghost predicate StoredRows(t: Type, want: Result<(seq<Value>, nat)>, before: seq<byte>, after: seq<byte>, vec: Vec, off: nat, count: nat, r: Result<Vec>)
    requires off + count <= |vec.valid|
  {
    && (r.Ok? ==> Elsewhere(t, vec, r.value, off, count))
    && match want
       case Ok((vs, k)) =>
         && r.Ok? && k <= |before| && after == before[k..] && |vs| == count
         && forall c | 0 <= c < count :: At(t, r.value, off + c) == vs[c]
       case Err(Unmodelled) => true
       case Err(_) => r.Err?
  }

  /** The first k fields have been written at row off, the others not. */
  ghost predicate FieldsStored(t: Type, vec: Vec, fields: seq<Vec>, off: nat, k: nat)
    requires Ready(t, vec) && vec.StructVec?
  {
    && |fields| == |vec.fields| && k <= |fields|
    && (forall j | 0 <= j < k :: Elsewhere(t.fields[j], vec.fields[j], fields[j], off, 1))
    && (forall j | k <= j < |fields| :: fields[j] == vec.fields[j])
  }

  lemma StructStored(t: Type, vec: Vec, fields: seq<Vec>, off: nat)
    requires Ready(t, vec) && vec.StructVec? && off < |vec.valid| && Fresh(vec, off)
    requires FieldsStored(t, vec, fields, off, |vec.fields|)
    ensures Elsewhere(t, vec, StructVec(vec.valid, fields), off, 1)
    ensures var v := At(t, StructVec(vec.valid, fields), off);
            v.StructV? && |v.fields| == |fields| && forall j | 0 <= j < |fields| :: v.fields[j] == At(t.fields[j], fields[j], off)
  {
    var w := StructVec(vec.valid, fields);
    forall i | 0 <= i < |vec.valid| && i != off ensures At(t, w, i) == At(t, vec, i) {
      if vec.valid[i] {
        assert At(t, w, i).fields == At(t, vec, i).fields;
      }
    }
  }

  // ------------------------------------------------- loops that take several values

  /** One value, then the others. */
  function Cons(one: Result<(Value, nat)>, rest: Result<(seq<Value>, nat)>): Result<(seq<Value>, nat)> {
    match one
    case Err(e) => Err(e)
    case Ok((v, k)) => Prefixed([v], k, rest)
  }

  function Prefixed(vs: seq<Value>, m: nat, rest: Result<(seq<Value>, nat)>): Result<(seq<Value>, nat)> {
    match rest
    case Ok((us, k)) => Ok((vs + us, m + k))
    case Err(e) => Err(e)
  }

  /** Loop invariant: vs have been taken off before, the rest is at the cursor. */
  ghost predicate Pending(all: Result<(seq<Value>, nat)>, before: seq<byte>, now: seq<byte>, vs: seq<Value>, m: nat,
                          rest: Result<(seq<Value>, nat)>) {
    all == Err(Unmodelled) || (m <= |before| && now == before[m..] && all == Prefixed(vs, m, rest))
  }

  lemma PendingAll(all: Result<(seq<Value>, nat)>, before: seq<byte>)
    ensures Pending(all, before, before, [], 0, all)
  {
    assert before[0..] == before;
    assert all.Ok? ==> [] + all.value.0 == all.value.0;
  }

  lemma TakeOne(all: Result<(seq<Value>, nat)>, before: seq<byte>, now: seq<byte>, after: seq<byte>, vs: seq<Value>, m: nat,
                one: Result<(Value, nat)>, rest: Result<(seq<Value>, nat)>) returns (more: seq<Value>, m2: nat)
    requires Pending(all, before, now, vs, m, Cons(one, rest))
    requires one.Ok? ==> one.value.1 <= |now| && after == now[one.value.1..]
    requires one.Err? ==> one.error == Unmodelled
    ensures Pending(all, before, after, more, m2, rest) && |more| == |vs| + 1 && more[..|vs|] == vs
    ensures all != Err(Unmodelled) ==> one.Ok? && more[|vs|] == one.value.0
  {
    if one.Ok? {
      var (v, k) := one.value;
      more, m2 := vs + [v], m + k;
      if rest.Ok? {
        Regrouped(vs, [v], rest.value.0);
      }
      if all != Err(Unmodelled) {
        assert before[m..][k..] == before[m + k..];
      }
    } else {
      more, m2 := vs + [NullV], m;
    }
  }

  /** A failing read inside the loop is a failure of the whole. */
  lemma PendingFails(all: Result<(seq<Value>, nat)>, before: seq<byte>, now: seq<byte>, vs: seq<Value>, m: nat,
                     one: Result<(Value, nat)>, rest: Result<(seq<Value>, nat)>)
    requires Pending(all, before, now, vs, m, rest) && (one.Err? ==> rest == Err(one.error))
    ensures one.Err? ==> all.Err?
  {
  }

  lemma PendingDone(cfg: Config, t: Type, all: Result<(seq<Value>, nat)>, before: seq<byte>, now: seq<byte>, vs: seq<Value>, m: nat)
    requires Pending(all, before, now, vs, m, DecMany(cfg, t, 0, now))
    ensures all == Err(Unmodelled) || (m <= |before| && now == before[m..] && all == Ok((vs, m)))
  {
    assert vs + [] == vs;
  }

  /** The rows read so far hold the values taken. */
  ghost predicate Holds(all: Result<(seq<Value>, nat)>, t: Type, w: Vec, off: nat, i: nat, vs: seq<Value>) {
    && |vs| == i && off + i <= |w.valid| && Shape(t, w)
    && (all == Err(Unmodelled) || forall c | 0 <= c < i :: At(t, w, off + c) == vs[c])
  }

  lemma HoldsGrows(all: Result<(seq<Value>, nat)>, t: Type, w: Vec, x: Vec, off: nat, i: nat, vs: seq<Value>, more: seq<Value>)
    requires Holds(all, t, w, off, i, vs) && Elsewhere(t, w, x, off + i, 1) && off + i < |w.valid|
    requires |more| == i + 1 && more[..i] == vs
    requires all != Err(Unmodelled) ==> At(t, x, off + i) == more[i]
    ensures Holds(all, t, x, off, i + 1, more)
  {
    forall c | 0 <= c < i + 1 && all != Err(Unmodelled) ensures At(t, x, off + c) == more[c] {
      assert c < i ==> more[c] == vs[c];
    }
  }

  /** Loop invariant of ReadCells: i cells stored, the others still to be read. */
  ghost predicate Filling(cfg: Config, t: Type, vec: Vec, w: Vec, off: nat, i: nat, count: nat, s: seq<byte>, now: seq<byte>,
                          vs: seq<Value>, m: nat)
    requires i <= count
  {
    && Elsewhere(t, vec, w, off, i)
    && Pending(DecMany(cfg, t, count, s), s, now, vs, m, DecMany(cfg, t, count - i, now))
    && Holds(DecMany(cfg, t, count, s), t, w, off, i, vs)
  }

  lemma FillStart(cfg: Config, t: Type, vec: Vec, off: nat, count: nat, s: seq<byte>)
    requires Ready(t, vec) && off + count <= |vec.valid|
    ensures Filling(cfg, t, vec, vec, off, 0, count, s, s, [], 0)
  {
    hide DecMany;
    PendingAll(DecMany(cfg, t, count, s), s);
    ElsewhereNone(t, vec, off);
  }

  lemma FillReady(cfg: Config, t: Type, vec: Vec, w: Vec, off: nat, i: nat, count: nat, s: seq<byte>, now: seq<byte>,
                  vs: seq<Value>, m: nat)
    requires i < count && Filling(cfg, t, vec, w, off, i, count, s, now, vs, m)
    requires off + count <= |vec.valid| && forall j | off <= j < off + count :: Fresh(vec, j)
    ensures Ready(t, w) && off + i < |w.valid| && Fresh(w, off + i)
  {
    hide DecMany, Pending, Holds;
  }

  lemma FillStep(cfg: Config, t: Type, vec: Vec, w: Vec, off: nat, i: nat, count: nat, s: seq<byte>, now: seq<byte>,
                 after: seq<byte>, vs: seq<Value>, m: nat, x: Result<Vec>) returns (more: seq<Value>, m2: nat)
    requires i < count && Filling(cfg, t, vec, w, off, i, count, s, now, vs, m)
    requires off + count <= |vec.valid| && off + i < |w.valid| && Stored(t, Dec(cfg, t, now), now, after, w, off + i, x)
    ensures x.Err? ==> StoredRows(t, DecMany(cfg, t, count, s), s, after, vec, off, count, Err(x.error))
    ensures x.Ok? ==> |x.value.valid| == |vec.valid| && Filling(cfg, t, vec, x.value, off, i + 1, count, s, after, more, m2)
  {
    hide *;
    if x.Err? {
      FillFails(cfg, t, vec, w, off, i, count, s, now, after, vs, m, x.error);
      more, m2 := vs, m;
    } else {
      more, m2 := FillGoesOn(cfg, t, vec, w, off, i, count, s, now, after, vs, m, x.value);
    }
  }

  lemma FillFails(cfg: Config, t: Type, vec: Vec, w: Vec, off: nat, i: nat, count: nat, s: seq<byte>, now: seq<byte>,
                  after: seq<byte>, vs: seq<Value>, m: nat, e: Error)
    requires i < count && Filling(cfg, t, vec, w, off, i, count, s, now, vs, m)
    requires off + count <= |vec.valid| && off + i < |w.valid| && Stored(t, Dec(cfg, t, now), now, after, w, off + i, Err(e))
    ensures StoredRows(t, DecMany(cfg, t, count, s), s, after, vec, off, count, Err(e))
  {
    hide Dec, DecMany, Elsewhere, Pending, Holds, Cons, At;
    DecManyCons(cfg, t, count - i, now);
    PendingFails(DecMany(cfg, t, count, s), s, now, vs, m, Dec(cfg, t, now), DecMany(cfg, t, count - i, now));
  }

  lemma FillGoesOn(cfg: Config, t: Type, vec: Vec, w: Vec, off: nat, i: nat, count: nat, s: seq<byte>, now: seq<byte>,
                   after: seq<byte>, vs: seq<Value>, m: nat, x: Vec) returns (more: seq<Value>, m2: nat)
    requires i < count && Filling(cfg, t, vec, w, off, i, count, s, now, vs, m)
    requires off + count <= |vec.valid| && off + i < |w.valid| && Stored(t, Dec(cfg, t, now), now, after, w, off + i, Ok(x))
    ensures |x.valid| == |vec.valid| && Filling(cfg, t, vec, x, off, i + 1, count, s, after, more, m2)
  {
    var all, one := DecMany(cfg, t, count, s), Dec(cfg, t, now);
    hide Dec, DecMany, Ready, Shape, Fresh, Elsewhere, Pending;
    DecManyCons(cfg, t, count - i, now);
    more, m2 := TakeOne(all, s, now, after, vs, m, one, DecMany(cfg, t, count - i - 1, after));
    ElsewhereGrows(t, vec, w, x, off, i);
    HoldsGrows(all, t, w, x, off, i, vs, more);
  }

  lemma FillEnd(cfg: Config, t: Type, vec: Vec, w: Vec, off: nat, count: nat, s: seq<byte>, now: seq<byte>, vs: seq<Value>, m: nat)
    requires Filling(cfg, t, vec, w, off, count, count, s, now, vs, m) && off + count <= |vec.valid|
    ensures StoredRows(t, DecMany(cfg, t, count, s), s, now, vec, off, count, Ok(w))
  {
    PendingDone(cfg, t, DecMany(cfg, t, count, s), s, now, vs, m);
    hide DecMany;
    RowsHold(DecMany(cfg, t, count, s), t, vec, w, off, count, vs, s, now);
  }

  lemma RowsHold(all: Result<(seq<Value>, nat)>, t: Type, vec: Vec, w: Vec, off: nat, count: nat, vs: seq<Value>, before: seq<byte>, after: seq<byte>)
    requires off + count <= |vec.valid| && Elsewhere(t, vec, w, off, count) && Holds(all, t, w, off, count, vs)
    requires all == Err(Unmodelled) || (all.Ok? && all.value.0 == vs && all.value.1 <= |before| && after == before[all.value.1..])
    ensures StoredRows(t, all, before, after, vec, off, count, Ok(w))
  {
  }

  lemma DecManyCons(cfg: Config, t: Type, n: nat, s: seq<byte>)
    requires n > 0
    ensures Dec(cfg, t, s).Err? ==> DecMany(cfg, t, n, s) == Err(Dec(cfg, t, s).error)
    ensures DecMany(cfg, t, n, s) == Cons(Dec(cfg, t, s),
              if Dec(cfg, t, s).Ok? then DecMany(cfg, t, n - 1, s[Dec(cfg, t, s).value.1..]) else Err(Unmodelled))
  {
    hide Dec;
  }

  /** One struct field: its OID, then its value. */
  function DecField(cfg: Config, t: Type, s: seq<byte>): (r: Result<(Value, nat)>)
    ensures r.Ok? ==> r.value.1 <= |s|
  {
    var oid :- Word(4, s);
    var (v, k) :- Dec(cfg, t, s[4..]);
    Ok((v, 4 + k))
  }

  lemma DecFieldsCons(cfg: Config, ts: seq<Type>, k: nat, s: seq<byte>)
    requires k < |ts|
    ensures DecFields(cfg, ts[k..], s) == Cons(DecField(cfg, ts[k], s),
              if DecField(cfg, ts[k], s).Ok? then DecFields(cfg, ts[k + 1..], s[DecField(cfg, ts[k], s).value.1..]) else Err(Unmodelled))
  {
    assert ts[k..][1..] == ts[k + 1..];
    hide Dec, Word;
  }

  lemma DecNoFields(cfg: Config)
    ensures forall s :: DecFields(cfg, [], s) == Ok(([], 0))
  {
  }

  lemma NoOid(cfg: Config, t: Type, now: seq<byte>)
    requires Word(4, now).Err?
    ensures DecField(cfg, t, now) == Err(Word(4, now).error) && Word(4, now) != Err(Unmodelled)
  {
  }

  lemma FieldTaken(cfg: Config, t: Type, now: seq<byte>, after: seq<byte>, vec: Vec, off: nat, x: Result<Vec>)
    requires |now| >= 4 && Word(4, now).Ok? && off < |vec.valid|
    requires Stored(t, Dec(cfg, t, now[4..]), now[4..], after, vec, off, x)
    ensures Stored(t, DecField(cfg, t, now), now, after, vec, off, x)
  {
    hide Dec, Word, Elsewhere, At;
    var one := Dec(cfg, t, now[4..]);
    if one.Ok? {
      var k := one.value.1;
      assert k <= |now[4..]| ==> now[4..][k..] == now[4 + k..];
    }
  }

  // ------------------------------------------------------- the fields of a struct

  /** The fields read so far, each at row off, and what has been taken off the bytes. */
  ghost predicate Gathering(all: Result<(seq<Value>, nat)>, t: Type, vec: Vec, off: nat, s: seq<byte>, now: seq<byte>,
                            fields: seq<Vec>, k: nat, vs: seq<Value>, m: nat, rest: Result<(seq<Value>, nat)>)
  {
    && Ready(t, vec) && vec.StructVec? && off < |vec.valid| && Fresh(vec, off) && k <= |vec.fields|
    && FieldsStored(t, vec, fields, off, k) && |vs| == k
    && Pending(all, s, now, vs, m, rest)
    && (all != Err(Unmodelled) ==> forall j | 0 <= j < k :: Shape(t.fields[j], fields[j]) && At(t.fields[j], fields[j], off) == vs[j])
  }

  /** The outcome of reading all fields. */
  ghost predicate Gathered(t: Type, want: Result<(seq<Value>, nat)>, before: seq<byte>, after: seq<byte>, vec: Vec, off: nat,
                           r: Result<seq<Vec>>)
  {
    && Ready(t, vec) && vec.StructVec? && off < |vec.valid| && Fresh(vec, off)
    && (r.Ok? ==> FieldsStored(t, vec, r.value, off, |vec.fields|))
    && match want
       case Ok((vs, k)) =>
         && r.Ok? && k <= |before| && after == before[k..] && |vs| == |r.value| == |t.fields|
         && forall j | 0 <= j < |vs| :: Shape(t.fields[j], r.value[j]) && At(t.fields[j], r.value[j], off) == vs[j]
       case Err(Unmodelled) => true
       case Err(_) => r.Err?
  }

  lemma GatherStart(all: Result<(seq<Value>, nat)>, t: Type, vec: Vec, off: nat, s: seq<byte>)
    requires Ready(t, vec) && off < |vec.valid| && Fresh(vec, off) && t.StructOf?
    ensures vec.StructVec? && |vec.fields| == |t.fields|
    ensures Gathering(all, t, vec, off, s, s, vec.fields, 0, [], 0, all)
  {
    PendingAll(all, s);
  }

  /** The next field has not been written yet. */
  lemma GatherField(all: Result<(seq<Value>, nat)>, t: Type, vec: Vec, off: nat, s: seq<byte>, now: seq<byte>, fields: seq<Vec>,
                    k: nat, vs: seq<Value>, m: nat, rest: Result<(seq<Value>, nat)>)
    requires Gathering(all, t, vec, off, s, now, fields, k, vs, m, rest) && k < |vec.fields|
    ensures |fields| == |vec.fields| == |t.fields|
    ensures Ready(t.fields[k], fields[k]) && off < |fields[k].valid| && Fresh(fields[k], off)
  {
    hide Pending, At;
  }

  lemma GatherFails(all: Result<(seq<Value>, nat)>, t: Type, vec: Vec, off: nat, s: seq<byte>, now: seq<byte>, after: seq<byte>,
                    fields: seq<Vec>, k: nat, vs: seq<Value>, m: nat, rest: Result<(seq<Value>, nat)>, e: Error)
    requires Gathering(all, t, vec, off, s, now, fields, k, vs, m, rest) && rest.Err?
    ensures Gathered(t, all, s, after, vec, off, Err(e))
  {
    hide At, Ready, Fresh, FieldsStored;
  }

  lemma FieldFails(all: Result<(seq<Value>, nat)>, t: Type, vec: Vec, off: nat, s: seq<byte>, now: seq<byte>, after: seq<byte>,
                   fields: seq<Vec>, k: nat, vs: seq<Value>, m: nat, one: Result<(Value, nat)>, rest: Result<(seq<Value>, nat)>, e: Error)
    requires Gathering(all, t, vec, off, s, now, fields, k, vs, m, rest) && k < |vec.fields| && |fields| == |vec.fields| == |t.fields|
    requires one.Err? ==> rest == Err(one.error)
    requires off < |fields[k].valid|
    requires exists before :: Stored(t.fields[k], one, before, after, fields[k], off, Err(e))
    ensures Gathered(t, all, s, after, vec, off, Err(e))
  {
    hide At, Ready, Fresh, FieldsStored;
  }

  lemma GatherStep(all: Result<(seq<Value>, nat)>, t: Type, vec: Vec, off: nat, s: seq<byte>, now: seq<byte>, after: seq<byte>,
                   fields: seq<Vec>, k: nat, vs: seq<Value>, m: nat, one: Result<(Value, nat)>, rest: Result<(seq<Value>, nat)>, x: Vec)
    returns (more: seq<Value>, m2: nat)
    requires vec.StructVec? && t.StructOf? && k < |vec.fields| && |fields| == |vec.fields| == |t.fields| && off < |fields[k].valid|
    requires Gathering(all, t, vec, off, s, now, fields, k, vs, m, Cons(one, rest))
    requires Stored(t.fields[k], one, now, after, fields[k], off, Ok(x))
    ensures Gathering(all, t, vec, off, s, after, fields[k := x], k + 1, more, m2, rest)
  {
    hide At, Fresh, Pending, Cons;
    more, m2 := TakeOne(all, s, now, after, vs, m, one, rest);
    var w := fields[k := x];
    forall j | 0 <= j < k + 1 && all != Err(Unmodelled) ensures Shape(t.fields[j], w[j]) && At(t.fields[j], w[j], off) == more[j] {
      assert j < k ==> more[j] == vs[j];
    }
  }

  lemma GatherEnd(all: Result<(seq<Value>, nat)>, t: Type, vec: Vec, off: nat, s: seq<byte>, now: seq<byte>, fields: seq<Vec>,
                  vs: seq<Value>, m: nat)
    requires vec.StructVec? && Gathering(all, t, vec, off, s, now, fields, |vec.fields|, vs, m, Ok(([], 0)))
    ensures Gathered(t, all, s, now, vec, off, Ok(fields))
  {
    hide At, Fresh;
    assert vs + [] == vs;
  }

  lemma RowStored(cfg: Config, t: Type, s: seq<byte>, after: seq<byte>, vec: Vec, off: nat, fields: seq<Vec>)
    requires t.StructOf? && off < |vec.valid| && vec.StructVec?
    requires Gathered(t, DecCells(cfg, t.fields, s), s, after, vec, off, Ok(fields))
    ensures Stored(t, DecRow(cfg, t.fields, s), s, after, vec, off, Ok(StructVec(vec.valid, fields)))
  {
    StructStored(t, vec, fields, off);
    hide DecCells, Elsewhere, FieldsStored, Ready, Fresh;
    var all := DecCells(cfg, t.fields, s);
    if all.Ok? {
      assert At(t, StructVec(vec.valid, fields), off).fields == all.value.0;
    }
  }

  lemma GatheredFails(cfg: Config, t: Type, s: seq<byte>, after: seq<byte>, vec: Vec, off: nat, e: Error)
    requires t.StructOf? && off < |vec.valid| && Gathered(t, DecCells(cfg, t.fields, s), s, after, vec, off, Err(e))
    ensures Stored(t, DecRow(cfg, t.fields, s), s, after, vec, off, Err(e))
  {
    hide DecCells, FieldsStored, Ready, Fresh, At;
  }

  function DimsBehind(dims: seq<nat>, rest: Result<seq<nat>>): Result<seq<nat>> {
    match rest case Ok(ds) => Ok(dims + ds) case Err(e) => Err(e)
  }

  lemma DimsAdvance(n: nat, s: seq<byte>, dims: seq<nat>, now: seq<byte>)
    requires |dims| < n && |now| >= 8 && DecDims(n, s) == DimsBehind(dims, DecDims(n - |dims|, now))
    ensures DecDims(n, s) == DimsBehind(dims + [Word(4, now).value], DecDims(n - |dims| - 1, now[8..]))
    ensures DecDims(n - |dims|, now) == DimsBehind([Word(4, now).value], DecDims(n - |dims| - 1, now[8..]))
  {
    var rest := DecDims(n - |dims| - 1, now[8..]);
    hide Val;
    if rest.Ok? {
      Regrouped(dims, [Word(4, now).value], rest.value);
    }
  }

  lemma DimsDone(s: seq<byte>)
    ensures forall r :: DecDims(0, r) == Ok([])
    ensures forall n: nat, r: seq<byte> :: n > 0 && |r| < 8 ==> DecDims(n, r).Err?
  {
  }

  // --------------------------------------------------------- rows of a vector

  lemma ElsewhereNone(t: Type, vec: Vec, off: nat)
    requires Ready(t, vec)
    ensures Elsewhere(t, vec, vec, off, 0)
  {
  }

  lemma ElsewhereGrows(t: Type, vec: Vec, w: Vec, x: Vec, off: nat, i: nat)
    requires Elsewhere(t, vec, w, off, i) && Elsewhere(t, w, x, off + i, 1)
    ensures Elsewhere(t, vec, x, off, i + 1) && |x.valid| == |vec.valid|
  {
  }

  lemma ReserveFresh(t: Type, vec: Vec, w: Vec, size: nat, total: nat)
    requires Ready(t, vec) && size <= |vec.valid| && w == Reserve(vec, size + total)
    requires forall i | size <= i < |vec.valid| :: Fresh(vec, i)
    ensures Ready(t, w) && size + total <= |w.valid|
    ensures forall i | size <= i < size + total :: Fresh(w, i)
  {
    ReserveKeeps(t, vec, size + total);
  }

  /** Row off becomes an empty list. */
  function EmptyList(vec: Vec, off: nat): Vec
    requires vec.ListVec?
  {
    ListVec(vec.valid, SetEntries(vec.entries, off, 1, vec.size, 0), vec.child, vec.size)
  }

  lemma EmptyStores(t: Type, vec: Vec, off: nat)
    requires Ready(t, vec) && off < |vec.valid| && Fresh(vec, off) && t.ListOf?
    ensures Elsewhere(t, vec, EmptyList(vec, off), off, 1) && At(t, EmptyList(vec, off), off) == ListV([])
  {
    var w := EmptyList(vec, off);
    assert w.entries[off] == Entry(vec.size, 0);
    forall i | 0 <= i < |vec.valid| && i != off ensures At(t, w, i) == At(t, vec, i) {
      SliceSame(t.elem, vec.child, vec.child, vec.entries[i].offset, vec.entries[i].length);
    }
  }

  /** The entry loop of ReadArray, with its running current_offset. */
  method WriteEntries(entries: seq<Entry>, off: nat, count: nat, start: nat, d: nat) returns (r: seq<Entry>)
    requires off + count <= |entries|
    ensures r == SetEntries(entries, off, count, start, d)
  {
    r := entries;
    var current := start;
    var c := 0;
    while c < count
      invariant 0 <= c <= count && |r| == |entries| && current == start + c * d
      invariant forall i | 0 <= i < |r| :: r[i] == if off <= i < off + c then Entry(start + (i - off) * d, d) else entries[i]
    {
      r := r[off + c := Entry(current, d)];
      assert (c + 1) * d == c * d + d;
      current := current + d;
      c := c + 1;
    }
  }

  /** One level of ReadArray: lists laid over the level below, which holds the
      leaves shaped by the remaining dimensions. */
  lemma LevelStored(cfg: Config, t: Type, vec: Vec, w: Vec, off: nat, count: nat, dims: seq<nat>, before: seq<byte>, after: seq<byte>)
    requires Ready(t, vec) && vec.ListVec? && off + count <= |vec.valid| && t.ListOf? && |dims| == Depth(t)
    requires forall i | off <= i < off + count :: Fresh(vec, i)
    requires var total := count * dims[0];
             && |Reserve(vec.child, vec.size + total).valid| >= vec.size + total
             && count * Prod(dims) == total * Prod(dims[1..])
             && StoredRows(t.elem, Shaped(dims[1..], total, DecMany(cfg, Leaf(t), count * Prod(dims), before)), before, after,
                           Reserve(vec.child, vec.size + total), vec.size, total, Ok(w))
    ensures var n := ListVec(vec.valid, SetEntries(vec.entries, off, count, vec.size, dims[0]), w, vec.size + count * dims[0]);
            StoredRows(t, Shaped(dims, count, DecMany(cfg, Leaf(t), count * Prod(dims), before)), before, after, vec, off, count, Ok(n))
  {
    hide DecMany, Elsewhere, At, Ready, Fresh, Rows, Prod, SetEntries, Reserve;
    var d, total := dims[0], count * dims[0];
    var leaves := DecMany(cfg, Leaf(t), count * Prod(dims), before);
    RowsElsewhere(t.elem, Shaped(dims[1..], total, leaves), before, after, Reserve(vec.child, vec.size + total), vec.size, total, w);
    ListsElsewhere(t, vec, w, off, count, d, total);
    if leaves.Ok? {
      var k := Rows(dims[1..], total, leaves.value.0);
      ListsStored(t, vec, w, off, count, d, total, k);
      var n := ListVec(vec.valid, SetEntries(vec.entries, off, count, vec.size, d), w, vec.size + total);
      RowsStep(dims, count, leaves.value.0);
    }
  }

  lemma RowsElsewhere(t: Type, want: Result<(seq<Value>, nat)>, before: seq<byte>, after: seq<byte>, vec: Vec, off: nat, count: nat, w: Vec)
    requires off + count <= |vec.valid| && StoredRows(t, want, before, after, vec, off, count, Ok(w))
    ensures Elsewhere(t, vec, w, off, count) && |w.valid| == |vec.valid|
  {
    hide At, Ready, Fresh;
  }

  lemma RowsStep(dims: seq<nat>, n: nat, l: seq<Value>)
    requires dims != [] && |l| == n * Prod(dims)
    ensures |l| == n * dims[0] * Prod(dims[1..])
    ensures var k := Rows(dims[1..], n * dims[0], l);
            forall c | 0 <= c < n :: Rows(dims, n, l)[c] == ListV(Run(n, dims[0], k, c))
  {
    ProdCons(n, dims);
  }

  /** The layout facts ReadValue relies on to pick its case. */
  lemma ReadyShape(t: Type, vec: Vec)
    requires Ready(t, vec)
    ensures Shape(t, vec)
    ensures t.ListOf? <==> vec.ListVec?
    ensures t.StructOf? <==> vec.StructVec?
    ensures vec.Column? ==> |vec.data| == |vec.valid|
    ensures vec.StructVec? ==> |vec.fields| == |t.fields|
  {
  }

  lemma FailsStored(t: Type, before: seq<byte>, after: seq<byte>, vec: Vec, off: nat, e: Error)
    requires off < |vec.valid|
    ensures forall f | f != Unmodelled :: Stored(t, Err(f), before, after, vec, off, Err(e))
  {
  }

  lemma NullStored(t: Type, s: seq<byte>, vec: Vec, off: nat)
    requires Ready(t, vec) && off < |vec.valid| && |s| >= 4
    ensures Stored(t, Ok((NullV, 4)), s, s[4..], vec, off, Ok(SetNull(vec, off)))
  {
    SetNullStores(t, vec, off);
    hide Elsewhere;
  }

  lemma BodyStored(cfg: Config, t: Type, s: seq<byte>, len: int, after: seq<byte>, vec: Vec, off: nat, r: Result<Vec>)
    requires off < |vec.valid| && SWord(4, s) == Ok(len) && len != -1 && |s| >= 4
    requires Stored(t, DecBody(cfg, t, len, s[4..]), s[4..], after, vec, off, r)
    ensures Stored(t, Dec(cfg, t, s), s, after, vec, off, r)
  {
    DecCases(cfg, t, s);
    var body := DecBody(cfg, t, len, s[4..]);
    hide Dec, DecBody, Elsewhere, At;
    if body.Ok? {
      var k := body.value.1;
      assert k <= |s[4..]| ==> s[4..][k..] == s[4 + k..];
    }
  }

  /** The part of DecList behind the three header words. */
  function DecElements(cfg: Config, t: Type, s: seq<byte>): (r: Result<(Value, nat)>)
    requires t.ListOf?
    ensures r.Ok? ==> r.value.1 <= |s|
  {
    var dims :- DecDims(Depth(t), s);
    if !CountsFit(1, dims) then Err(Unmodelled)
    else
      var (vs, k) :- Shaped(dims, 1, DecMany(cfg, Leaf(t), 1 * Prod(dims), s[8 * Depth(t)..]));
      Ok((vs[0], 8 * Depth(t) + k))
  }

  lemma ElementsFail(cfg: Config, t: Type, s: seq<byte>)
    requires t.ListOf?
    ensures DecDims(Depth(t), s).Err? ==> DecElements(cfg, t, s) == Err(DecDims(Depth(t), s).error)
    ensures DecDims(Depth(t), s) != Err(Unmodelled)
  {
    hide DecMany, Rows, CountsFit;
    DimsErrors(Depth(t), s);
  }

  lemma {:induction false} DimsErrors(n: nat, s: seq<byte>)
    ensures DecDims(n, s) != Err(Unmodelled)
  {
    if n > 0 && |s| >= 8 {
      DimsErrors(n - 1, s[8..]);
    }
  }

  lemma ElementsUnmodelled(cfg: Config, t: Type, s: seq<byte>, dims: seq<nat>, after: seq<byte>, vec: Vec, off: nat)
    requires t.ListOf? && off < |vec.valid| && DecDims(Depth(t), s) == Ok(dims) && !CountsFit(1, dims)
    ensures Stored(t, DecElements(cfg, t, s), s, after, vec, off, Err(Unmodelled))
  {
    hide DecMany, DecDims, Rows;
  }

  lemma ElementsStored(cfg: Config, t: Type, s: seq<byte>, dims: seq<nat>, now: seq<byte>, after: seq<byte>, vec: Vec, off: nat, r: Result<Vec>)
    requires t.ListOf? && off < |vec.valid| && DecDims(Depth(t), s) == Ok(dims) && CountsFit(1, dims)
    requires 8 * Depth(t) <= |s| && now == s[8 * Depth(t)..]
    requires StoredRows(t, Shaped(dims, 1, DecMany(cfg, Leaf(t), 1 * Prod(dims), now)), now, after, vec, off, 1, r)
    ensures Stored(t, DecElements(cfg, t, s), s, after, vec, off, r)
  {
    hide DecMany, DecDims, Rows, Elsewhere, CountsFit;
    var h := 8 * Depth(t);
    assert forall k: nat | h + k <= |s| :: s[h..][k..] == s[h + k..];
  }

  lemma ListHeader(cfg: Config, t: Type, len: int, s: seq<byte>)
    requires t.ListOf?
    ensures len < 1 ==> DecList(cfg, t, len, s) == Ok((ListV([]), 0)) && s[0..] == s
    ensures len >= 1 && |s| < 12 ==> DecList(cfg, t, len, s).Err? && DecList(cfg, t, len, s) != Err(Unmodelled)
    ensures len >= 1 && |s| >= 12 ==>
            s[4..][4..][4..] == s[12..] &&
            var dim := Word(4, s).value;
            DecList(cfg, t, len, s) ==
            if dim == 0 then Ok((ListV([]), 12))
            else if dim != Depth(t) then Err(Mismatch)
            else match DecElements(cfg, t, s[12..]) case Ok((v, k)) => Ok((v, 12 + k)) case Err(e) => Err(e)
    ensures |s| >= 12 ==> forall k: nat | 12 + k <= |s| :: s[12..][k..] == s[12 + k..]
  {
    hide DecMany, DecDims, CountsFit, Rows, Val;
    if |s| >= 12 + 8 * Depth(t) {
      assert s[12..][8 * Depth(t)..] == s[12 + 8 * Depth(t)..];
    }
  }

  /** Leaves arranged into count nested lists. */
  function Shaped(dims: seq<nat>, count: nat, leaves: Result<(seq<Value>, nat)>): Result<(seq<Value>, nat)>
    requires leaves.Ok? ==> |leaves.value.0| == count * Prod(dims)
  {
    match leaves
    case Ok((l, k)) => Ok((Rows(dims, count, l), k))
    case Err(e) => Err(e)
  }

  /** The compensation branch of ReadDecimal, each intermediate checked against T. */
  method Compensate(limit: nat, max: nat, d: nat, c: int) returns (r: Result<(nat, nat)>)
    ensures r.Ok? ==> r.value == (FinalBase(c), FinalDigit(d, c))
    ensures r.Err? ==> !CompensationWithin(limit, max, c, d)
  {
    hide Pow;
    var e: nat := if c >= 0 then c else -c;
    if e >= limit {
      return Err(OutOfRange);
    }
    var compensation := Pow(10, e);
    if NBASE > max || d > max || compensation > max {
      return Err(Overflow);
    }
    var base: nat, digit: nat;
    if c >= 0 {
      assert NBASE / compensation == FinalBase(c) && d / compensation == FinalDigit(d, c);
      base, digit := NBASE / compensation, d / compensation;
    } else {
      base, digit := NBASE * compensation, d * compensation;
    }
    if base > max || digit > max {
      return Err(Overflow);
    }
    r := Ok((base, digit));
  }

  /** Appending a digit group to the prefix read so far. */
  lemma PrefixExtend(ds: seq<nat>, d: nat)
    ensures Prefix(ds + [d], |ds| + 1) == Prefix(ds, |ds|) * NBASE + d
  {
    assert ds[..|ds|] == ds;
    assert (ds + [d])[..|ds| + 1] == ds + [d];
    assert (ds + [d])[..|ds|] == ds;
  }

  lemma FirstGroup(s: seq<byte>)
    requires |s| >= 2
    ensures Prefix(DecDigits(1, s), 1) == Val(s[..2])
  {
    DigitsStep(0, s);
    assert s[0..] == s;
    PrefixExtend([], Val(s[..2]));
  }

  /** The next value of the integral loop, read or shifted. */
  lemma IntegralStep(n: nat, s: seq<byte>, k: nat, i: nat)
    requires i >= 1 && k == (if i <= n then i else n) && 2 * k <= |s|
    ensures i < n && 2 * k + 2 <= |s| ==>
            Prefix(DecDigits(k + 1, s), i + 1) == Prefix(DecDigits(k, s), i) * NBASE + Val(s[2 * k..][..2])
    ensures i >= n ==> Prefix(DecDigits(k, s), i + 1) == Prefix(DecDigits(k, s), i) * NBASE
  {
    if i >= n {
      PrefixStep(DecDigits(k, s), i);
    } else if 2 * k + 2 <= |s| {
      DigitsStep(k, s);
      PrefixExtend(DecDigits(k, s), Val(s[2 * k..][..2]));
    }
  }

  /** What the integral loop holds, and holds next, is below the value of the
      whole numeric. */
  lemma IntegralFits(st: Storage, n: nat, weight: int, scale: nat, s: seq<byte>, k: nat, i: nat)
    requires n > 0 && 1 <= i <= weight + 1 && k == (if i <= n then i else n) && 2 * k <= |s|
    ensures 2 * n <= |s| && Readable(st, DecDigits(n, s), weight, scale) ==>
            && Prefix(DecDigits(k, s), i) <= st.Max
            && (i <= weight && i < n ==> Prefix(DecDigits(k, s), i) * NBASE + Val(s[2 * k..][..2]) <= st.Max)
            && (i <= weight && i >= n ==> Prefix(DecDigits(k, s), i) * NBASE <= st.Max)
            && (i == weight + 1 ==> Prefix(DecDigits(k, s), i) * Pow(10, scale) <= st.Max)
  {
    hide Readable, Magnitude, Prefix, Pow, DecDigits, Val;
    if 2 * n <= |s| && Readable(st, DecDigits(n, s), weight, scale) {
      PrefixBounds(st, DecDigits(n, s), weight, scale, i);
      PrefixOfRead(n, s, k, i);
      if i <= weight {
        PrefixBounds(st, DecDigits(n, s), weight, scale, i + 1);
        IntegralStep(n, s, k, i);
        PrefixOfRead(n, s, if i < n then k + 1 else k, i + 1);
      }
    }
  }

  /** The integral part after i of its groups, k of which are there to be read. */
  function IntegralRead(k: nat, i: nat, s: seq<byte>): nat
    requires 2 * k <= |s|
  {
    Prefix(DecDigits(k, s), i)
  }

  lemma IntegralStart(st: Storage, n: nat, weight: int, scale: nat, s: seq<byte>)
    requires n > 0 && weight >= 0
    ensures |s| >= 2 ==> IntegralRead(1, 1, s) == Val(s[..2])
    ensures 2 * n <= |s| && Readable(st, DecDigits(n, s), weight, scale) ==> IntegralRead(1, 1, s) <= st.Max
  {
    hide Readable, Prefix, DecDigits, Val, Pow;
    if |s| >= 2 {
      FirstGroup(s);
      IntegralFits(st, n, weight, scale, s, 1, 1);
    }
  }

  lemma IntegralRound(st: Storage, n: nat, weight: int, scale: nat, s: seq<byte>, k: nat, i: nat)
    requires n > 0 && 1 <= i <= weight + 1 && k == (if i <= n then i else n) && 2 * k <= |s|
    ensures i < n && 2 * k + 2 <= |s| ==>
            && IntegralRead(k + 1, i + 1, s) == IntegralRead(k, i, s) * NBASE + Val(s[2 * k..][..2])
            && s[2 * k..][2..] == s[2 * (k + 1)..]
    ensures i >= n ==> IntegralRead(k, i + 1, s) == IntegralRead(k, i, s) * NBASE
    ensures 2 * n <= |s| && Readable(st, DecDigits(n, s), weight, scale) ==>
            && (i <= weight && i < n ==> IntegralRead(k, i, s) * NBASE + Val(s[2 * k..][..2]) <= st.Max)
            && (i <= weight && i >= n ==> IntegralRead(k, i, s) * NBASE <= st.Max)
            && (i == weight + 1 ==> IntegralRead(k, i, s) * Pow(10, scale) <= st.Max)
  {
    hide Readable, Prefix, DecDigits, Val, Pow;
    IntegralStep(n, s, k, i);
    IntegralFits(st, n, weight, scale, s, k, i);
    if 2 * k + 2 <= |s| {
      NextGroup(s, k);
    }
  }

  lemma PrefixBounds(st: Storage, ds: seq<nat>, weight: int, scale: nat, i: nat)
    requires Readable(st, ds, weight, scale) && ds != [] && 0 <= weight && i <= weight + 1
    ensures Prefix(ds, i) <= st.Max
    ensures i == weight + 1 ==> Prefix(ds, i) * Pow(10, scale) <= st.Max
  {
    assert Magnitude(ds, weight, scale) < Pow(10, st.MaxWidth);
    st.WidthFits();
    hide *;
    PrefixMonotone(ds, i, weight + 1);
    IntegralIsPrefix(ds, weight, scale);
  }

  /** The prefix over the groups read so far is the prefix over all groups. */
  lemma PrefixOfRead(n: nat, s: seq<byte>, k: nat, i: nat)
    requires 2 * n <= |s| && k == if i <= n then i else n
    ensures Prefix(DecDigits(k, s), i) == Prefix(DecDigits(n, s), i)
  {
    DigitsPrefix(k, n, s);
    assert DecDigits(k, s)[..k] == DecDigits(k, s);
  }

  /** The groups behind the decimal point among the first i, as one number. */
  function FractionRead(start: nat, i: nat, s: seq<byte>): nat
    requires start <= i && 2 * i <= |s|
  {
    Dig(DecDigits(i, s)[start..])
  }

  lemma FractionRound(st: Storage, n: nat, weight: int, scale: nat, s: seq<byte>, i: nat)
    requires n > weight + 1 && IntegralCount(n, weight) <= i && i + 1 < n && 2 * i <= |s|
    ensures var start := IntegralCount(n, weight);
            2 * i + 2 <= |s| ==>
              && FractionRead(start, i + 1, s) == FractionRead(start, i, s) * NBASE + Val(s[2 * i..][..2])
              && s[2 * i..][2..] == s[2 * (i + 1)..]
    ensures 2 * n <= |s| && Readable(st, DecDigits(n, s), weight, scale) ==>
            FractionRead(IntegralCount(n, weight), i + 1, s) <= st.Max
  {
    hide Readable, Dig, DecDigits, IntegralCount, Val;
    if 2 * i + 2 <= |s| {
      FractionStep(i, s, IntegralCount(n, weight));
      NextGroup(s, i);
      if 2 * n <= |s| && Readable(st, DecDigits(n, s), weight, scale) {
        FractionPrefixFits(st, n, weight, scale, s, i + 1);
      }
    }
  }

  lemma FractionStep(i: nat, s: seq<byte>, start: nat)
    requires start <= i && 2 * i + 2 <= |s|
    ensures Dig(DecDigits(i + 1, s)[start..]) == Dig(DecDigits(i, s)[start..]) * NBASE + Val(s[2 * i..][..2])
  {
    DigitsStep(i, s);
    var f := DecDigits(i + 1, s)[start..];
    assert f[..|f| - 1] == DecDigits(i, s)[start..];
  }

  lemma {:induction false} DigMonotone(ds: seq<nat>, i: nat)
    requires i <= |ds|
    ensures Dig(ds[..i]) <= Dig(ds)
  {
    if i < |ds| {
      DigMonotone(ds[..|ds| - 1], i);
      assert ds[..|ds| - 1][..i] == ds[..i];
    } else {
      assert ds[..i] == ds;
    }
  }

  /** The fraction read so far, and one group further, is below the value of the
      whole numeric. */
  lemma FractionPrefixFits(st: Storage, n: nat, weight: int, scale: nat, s: seq<byte>, i: nat)
    requires n > weight + 1 && IntegralCount(n, weight) <= i < n && 2 * n <= |s|
    requires Readable(st, DecDigits(n, s), weight, scale)
    ensures Dig(DecDigits(i, s)[IntegralCount(n, weight)..]) <= st.Max
  {
    AllButLastFits(st, DecDigits(n, s), weight, scale);
    FractionOfRead(n, s, IntegralCount(n, weight), i);
  }

  lemma AllButLastFits(st: Storage, ds: seq<nat>, weight: int, scale: nat)
    requires Readable(st, ds, weight, scale) && ds != [] && |ds| > weight + 1
    ensures var f := ds[IntegralCount(|ds|, weight)..]; Dig(f[..|f| - 1]) <= st.Max
  {
    LastGroupFits(st, ds, weight, scale);
  }

  /** The groups read so far denote no more than all groups but the last. */
  lemma FractionOfRead(n: nat, s: seq<byte>, start: nat, i: nat)
    requires start <= i < n && 2 * n <= |s|
    ensures var f := DecDigits(n, s)[start..];
            Dig(DecDigits(i, s)[start..]) <= Dig(f[..|f| - 1])
  {
    var ds := DecDigits(n, s);
    var f := ds[start..];
    DigitsPrefix(i, n, s);
    assert f[..|f| - 1][..i - start] == DecDigits(i, s)[start..];
    DigMonotone(f[..|f| - 1], i - start);
  }

  lemma LastGroup(st: Storage, n: nat, weight: int, scale: nat, s: seq<byte>)
    requires n > weight + 1 && n > 0
    ensures 2 * n <= |s| ==>
            var start, c, d := IntegralCount(n, weight), Correction(n, weight, scale), Val(s[2 * (n - 1)..][..2]);
            && FractionalPart(DecDigits(n, s), weight, scale)
               == Dig(DecDigits(n - 1, s)[start..]) * FinalBase(c) + FinalDigit(d, c)
            && (Readable(st, DecDigits(n, s), weight, scale) ==>
                CompensationFits(st, c, d) && FractionalPart(DecDigits(n, s), weight, scale) <= st.Max)
  {
    if 2 * n <= |s| {
      var start, ds := IntegralCount(n, weight), DecDigits(n, s);
      DigitsStep(n - 1, s);
      var f := ds[start..];
      assert f[..|f| - 1] == DecDigits(n - 1, s)[start..];
      if Readable(st, ds, weight, scale) {
        LastGroupFits(st, ds, weight, scale);
      }
    }
  }

  lemma SumFits(st: Storage, n: nat, weight: int, scale: nat, s: seq<byte>)
    requires n > 0 && 2 * n <= |s|
    ensures Readable(st, DecDigits(n, s), weight, scale) ==> Magnitude(DecDigits(n, s), weight, scale) <= st.Max
    ensures var k := IntegralCount(n, weight);
            Magnitude(DecDigits(n, s), weight, scale) ==
            (if weight >= 0 then Prefix(DecDigits(k, s), weight + 1) * Pow(10, scale) else 0)
            + (if n > weight + 1 then FractionalPart(DecDigits(n, s), weight, scale) else 0)
  {
    st.WidthFits();
    var k, ds := IntegralCount(n, weight), DecDigits(n, s);
    DigitsPrefix(k, n, s);
    assert ds[..n] == ds;
    if weight >= 0 {
      IntegralIsPrefix(ds, weight, scale);
      assert DecDigits(k, s)[..k] == DecDigits(k, s);
    }
  }

  /** The four header words of a numeric. */
  function DecConfig(s: seq<byte>): Result<((nat, int, nat, nat), nat)> {
    var n :- Word(2, s);
    var w :- SWord(2, s[2..]);
    var sign :- Word(2, s[4..]);
    if sign !in {NUMERIC_POS, NUMERIC_NEG, NUMERIC_NAN, NUMERIC_PINF, NUMERIC_NINF} then Err(BadFormat)
    else
      var scale :- Word(2, s[6..]);
      Ok(((n, w, sign, scale), 8))
  }

  /** x is, up to sign, the magnitude of the digit groups a numeric carries. */
  ghost predicate IsMagnitude(s: seq<byte>, x: int) {
    && DecConfig(s).Ok?
    && var ((n, w, sign, scale), _) := DecConfig(s).value;
       && 8 + 2 * n <= |s|
       && x == (if sign == NUMERIC_NEG then -1 else 1) * Magnitude(DecDigits(n, s[8..]), w, scale)
  }

  lemma NumericConfig(st: Storage, s: seq<byte>)
    ensures DecConfig(s).Err? ==> DecNumeric(st, s) == Err(DecConfig(s).error)
    ensures DecConfig(s).Ok? ==>
            var ((n, w, sign, scale), _) := DecConfig(s).value;
            |s| >= 8 && DecNumeric(st, s) ==
            if sign == NUMERIC_NAN then Ok((NotANumber, 8))
            else if sign == NUMERIC_PINF then Ok((PositiveInfinity, 8))
            else if sign == NUMERIC_NINF then Ok((NegativeInfinity, 8))
            else if scale >= st.PowerLimit then Err(OutOfRange)
            else if |s| < 8 + 2 * n then Err(OutOfBuffer)
            else if !Readable(st, DecDigits(n, s[8..]), w, scale) then Err(Unmodelled)
            else Ok((Ordinary((if sign == NUMERIC_NEG then -1 else 1) * Magnitude(DecDigits(n, s[8..]), w, scale)), 8 + 2 * n))
  {
    hide Word, SWord, Readable, Magnitude;
  }

  /** The numeric of ExtraGroupLost on the wire: 0.12345678 with two digits behind the
      point does not read as 0.12. */
  method ReadExtraGroup(st: Storage, tail: seq<byte>) returns (r: Result<Numeric>)
    ensures r.Ok? && r.value.Ordinary? ==> r.value == Ordinary(0)
  {
    var ds: seq<nat> := [1234, 5678];
    var s := EncNumeric(ds, -1, NUMERIC_POS, 2) + tail;
    Sizes();
    WireRoundTrip.NumericHeader(ds, -1, NUMERIC_POS, 2, tail);
    WireRoundTrip.DigitsRoundTrip(ds, tail);
    ExtraGroupLost();
    hide EncNumeric, EncDigits, DecDigits, Magnitude, DecNumeric;
    var parser := new BinaryParser(Config(true));
    parser.SetBuffer(s);
    r := parser.ReadDecimal(st);
  }
}
