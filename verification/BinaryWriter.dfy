/** PostgresBinaryWriter (src/include/postgres_binary_writer.hpp): every method
    appends to the stream; lists and structs patch their length in afterwards. */
module BinaryWriter {
  import opened Wrappers
  import opened Bytes
  import opened Decimal
  import opened DateTime
  import opened NestedLists
  import opened WireFormat
  import opened WireRoundTrip
  import opened Vectors

  function Header(): (h: seq<byte>)
    ensures |h| == HEADER_SIZE
  {
    COPY_HEADER + Put(4, 0) + Put(4, 0)
  }

  function Footer(): (f: seq<byte>)
    ensures |f| == 2
  {
    Put(2, -1)
  }

  /** The outcome of a write against the bytes it should have appended: on success
      exactly those, where the format throws some exception, and where the source
      reads unrelated memory no promise. */
  ghost predicate Emits(want: Result<seq<byte>>, before: seq<byte>, after: seq<byte>, outcome: Outcome) {
    && |before| <= |after|
    && match want
       case Ok(b) => outcome == Pass && after == before + b
       case Err(Unmodelled) => true
       case Err(_) => outcome.Fail?
  }

  /** The bytes of a loop's remaining work, behind those already written. */
  function Behind(done: seq<byte>, rest: Result<seq<byte>>): (r: Result<seq<byte>>)
    ensures done == [] ==> r == rest
  {
    assert [] + (if rest.Ok? then rest.value else []) == if rest.Ok? then rest.value else [];
    match rest case Ok(b) => Ok(done + b) case Err(e) => Err(e)
  }

  /** What one part of a loop's work, then the rest of it, should append. */
  function Then(part: Result<seq<byte>>, rest: Result<seq<byte>>): Result<seq<byte>> {
    match part case Ok(b) => Behind(b, rest) case Err(e) => Err(e)
  }

  /** Loop invariant of every emitting loop: done is on the stream, rest is owed. */
  ghost predicate Owes(all: Result<seq<byte>>, before: seq<byte>, now: seq<byte>, done: seq<byte>, rest: Result<seq<byte>>) {
    && |before| <= |now|
    && (all == Err(Unmodelled) || (now == before + done && all == Behind(done, rest)))
  }

  lemma OweAll(all: Result<seq<byte>>, before: seq<byte>)
    ensures Owes(all, before, before, [], all)
  {
    assert before + [] == before;
  }

  /** One part emitted: the invariant moves on, or the whole loop has failed as it should. */
  lemma Advance(all: Result<seq<byte>>, before: seq<byte>, now: seq<byte>, after: seq<byte>, done: seq<byte>,
                part: Result<seq<byte>>, rest: Result<seq<byte>>, o: Outcome) returns (more: seq<byte>)
    requires Owes(all, before, now, done, Then(part, rest)) && Emits(part, now, after, o)
    ensures o.Fail? ==> Emits(all, before, after, o)
    ensures o.Pass? ==> Owes(all, before, after, more, rest)
  {
    more := done + (if part.Ok? then part.value else []);
    if part.Ok? {
      Regrouped(before, done, part.value);
      if rest.Ok? {
        Regrouped(done, part.value, rest.value);
      }
    }
  }

  lemma Settled(all: Result<seq<byte>>, before: seq<byte>, now: seq<byte>, done: seq<byte>)
    requires Owes(all, before, now, done, Ok([]))
    ensures Emits(all, before, now, Pass)
  {
    assert done + [] == done;
  }

  class BinaryWriter {
    var stream: seq<byte>
    const nul: Option<seq<byte>>

    constructor (nul: Option<seq<byte>>)
      ensures stream == [] && this.nul == nul
    {
      stream := [];
      this.nul := nul;
    }

    method WriteRawInteger(n: nat, x: int)
      modifies this
      ensures stream == old(stream) + Put(n, x)
    {
      stream := stream + Put(n, x);
    }

    method WriteData(b: seq<byte>)
      modifies this
      ensures stream == old(stream) + b
    {
      stream := stream + b;
    }

    method WriteHeader()
      modifies this
      ensures stream == old(stream) + Header()
    {
      WriteData(COPY_HEADER);
      WriteRawInteger(4, 0);
      WriteRawInteger(4, 0);
    }

    method WriteFooter()
      modifies this
      ensures stream == old(stream) + Footer()
    {
      WriteRawInteger(2, -1);
    }

    method BeginRow(columnCount: nat)
      modifies this
      ensures stream == old(stream) + Put(2, columnCount)
    {
      WriteRawInteger(2, columnCount);
    }

    method WriteNull()
      modifies this
      ensures stream == old(stream) + Put(4, -1)
    {
      WriteRawInteger(4, -1);
    }

    method WriteInteger(n: nat, x: int)
      modifies this
      ensures stream == old(stream) + Patched(Put(n, x))
    {
      WriteRawInteger(4, n);
      WriteRawInteger(n, x);
    }

    method WriteTimeTz(micros: int, offset: int)
      modifies this
      ensures stream == old(stream) + Patched(Put(8, micros) + Put(4, -offset))
    {
      WriteRawInteger(4, 12);
      WriteRawInteger(8, micros);
      WriteRawInteger(4, -offset);
    }

    method WriteInterval(micros: int, days: int, months: int)
      modifies this
      ensures stream == old(stream) + Patched(Put(8, micros) + Put(4, days) + Put(4, months))
    {
      WriteRawInteger(4, 16);
      WriteRawInteger(8, micros);
      WriteRawInteger(4, days);
      WriteRawInteger(4, months);
    }

    method WriteUuid(upper: int, lower: int)
      modifies this
      ensures ToUnsigned(8, upper) < TWO64
      ensures stream == old(stream) + Patched(Put(8, FlipTop(ToUnsigned(8, upper))) + Put(8, lower))
    {
      assert ToUnsigned(8, upper) < TWO64 by {
        Sizes();
      }
      WriteRawInteger(4, 16);
      WriteRawInteger(8, FlipTop(ToUnsigned(8, upper)));
      WriteRawInteger(8, lower);
    }

    method WriteRawBlob(b: seq<byte>) returns (o: Outcome)
      modifies this
      ensures Emits(Field(b), old(stream), stream, o)
    {
      if |b| > INT32_MAX {
        return Fail(OutOfRange);
      }
      WriteRawInteger(4, |b|);
      WriteData(b);
      o := Pass;
    }

    method WriteVarchar(b: seq<byte>) returns (o: Outcome)
      modifies this
      ensures 0 !in b ==> Emits(Field(b), old(stream), stream, o)
      ensures 0 in b && nul.None? ==> o == Fail(NulByte) && stream == old(stream)
      ensures 0 in b && nul.Some? ==> Emits(Field(ReplaceNul(nul.value, b)), old(stream), stream, o)
    {
      if 0 in b {
        if nul.None? {
          return Fail(NulByte);
        }
        var text: seq<byte> := [];
        var i := 0;
        while i < |b|
          invariant 0 <= i <= |b|
          invariant text + ReplaceNul(nul.value, b[i..]) == ReplaceNul(nul.value, b)
          invariant stream == old(stream)
        {
          assert b[i..][1..] == b[i + 1..];
          text := text + (if b[i] == 0 then nul.value else [b[i]]);
          i := i + 1;
        }
        o := WriteRawBlob(text);
        return;
      }
      o := WriteRawBlob(b);
    }

    /** WriteDecimal<T>: arithmetic in T is exact or the method fails. */
    method WriteDecimal(st: Storage, v: int, scale: nat) returns (o: Outcome)
      requires InWidth(st, v, scale)
      modifies this
      ensures Emits(DecimalField(st, v, scale), old(stream), stream, o)
    {
      var value, sign := v, NUMERIC_POS;
      if v < 0 {
        value, sign := -v, NUMERIC_NEG;
      }
      ghost var m: nat := value;
      WrittenCount(st, m, scale);
      DecimalFieldOf(st, v, scale, m, sign);
      var integerPart, fractionalPart := SplitAtPoint(value, scale);
      assert WrittenIntegral(m, scale) == Groups(integerPart);
      assert fractionalPart * Pow(10, Alignment(scale)) == AlignedFraction(m, scale);
      hide Pow, Groups, FixedGroups, EncNumeric, ScaleGroups, Put, EncDecimal, Alignment, AlignedFraction, WrittenIntegral;
      var integralDigits := new nat[st.Size * 4];
      var fractionalDigits := new nat[st.Size * 4];
      var integralCount := SplitIntegral(integerPart, integralDigits);
      var fractionalCount := ScaleGroups(scale);
      fractionalPart := fractionalPart * Pow(10, Alignment(scale));
      if fractionalPart > st.Max {
        return Fail(Overflow);
      }
      SplitFraction(fractionalPart, fractionalCount, fractionalDigits);
      WriteNumeric(integralDigits, integralCount, fractionalDigits, fractionalCount, sign, scale,
                   WrittenIntegral(m, scale), FixedGroups(fractionalCount, fractionalPart));
      o := Pass;
    }

    /** The tail of WriteDecimal: size, header, both digit arrays in reverse. */
    method WriteNumeric(integralDigits: array<nat>, integralCount: nat, fractionalDigits: array<nat>,
                        fractionalCount: nat, sign: nat, scale: nat, ghost a: seq<nat>, ghost b: seq<nat>)
      requires Reverses(integralDigits[..], integralCount, a)
      requires Reverses(fractionalDigits[..], fractionalCount, b)
      modifies this
      ensures stream == old(stream) + Patched(EncNumeric(a + b, |a| - 1, sign, scale))
    {
      hide Put, EncDigits, EncNumeric, Patched;
      var ndigits := integralCount + fractionalCount;
      var weight: int := integralCount as int - 1;
      WriteRawInteger(4, 2 * (4 + ndigits));
      WriteRawInteger(2, ndigits);
      WriteRawInteger(2, weight);
      WriteRawInteger(2, sign);
      WriteRawInteger(2, scale);
      WriteReversed(integralDigits, integralCount, a);
      WriteReversed(fractionalDigits, fractionalCount, b);
      NumericBytes(old(stream), a, b, sign, scale);
    }

    /** The cases of WriteValue that are neither list nor struct. */
    method WriteScalar(t: Type, v: Value) returns (o: Outcome)
      requires HasType(t, v) && !v.NullV? && !t.ListOf? && !t.StructOf?
      modifies this
      ensures Emits(Enc(nul, t, v), old(stream), stream, o)
    {
      hide Put;
      o := Pass;
      match t {
        case Boolean => WriteInteger(1, v.n);
        case SmallInt => WriteInteger(2, v.n);
        case Integer => WriteInteger(4, v.n);
        case BigInt => WriteInteger(8, v.n);
        case Float => WriteInteger(4, v.n);
        case Double => WriteInteger(8, v.n);
        case DecimalOf(st, scale) => o := WriteDecimal(st, v.n, scale);
        case Date =>
          match DateToPostgres(v.n) {
            case Ok(d) => WriteInteger(4, d);
            case Err(e) => o := Fail(e);
          }
        case Time => WriteInteger(8, v.n);
        case TimeTz => WriteTimeTz(v.micros, v.offset);
        case Timestamp => o := WriteTimestamp(v.n);
        case TimestampTz => o := WriteTimestamp(v.n);
        case Interval => WriteInterval(v.micros, v.days, v.months);
        case Uuid => WriteUuid(v.upper, v.lower);
        case Varchar => o := WriteVarchar(v.bytes);
        case Blob => o := WriteRawBlob(v.bytes);
      }
    }

    method WriteTimestamp(micros: int) returns (o: Outcome)
      modifies this
      ensures match TimestampToPostgres(micros)
              case Ok(u) => o == Pass && stream == old(stream) + Patched(Put(8, u))
              case Err(e) => o == Fail(e) && stream == old(stream)
    {
      match TimestampToPostgres(micros) {
        case Ok(u) => WriteInteger(8, u); o := Pass;
        case Err(e) => o := Fail(e);
      }
    }

    /** WriteValue: row r of a column. */
    method WriteValue(t: Type, col: Vec, r: nat) returns (o: Outcome)
      requires Shape(t, col) && Typed(t, col) && r < |col.valid|
      modifies this
      ensures Emits(EncRow(nul, t, col, r), old(stream), stream, o)
      decreases t, 1, 0
    {
      TypedAt(t, col, r);
      if !col.valid[r] {
        WriteNull();
        return Pass;
      }
      match col {
        case Column(_, data) => o := WriteScalar(t, data[r]);
        case ListVec(_, _, _, _) => o := WriteList(t, col, r);
        case StructVec(_, _) => o := WriteStruct(t, col, r);
      }
    }

    method WriteList(t: Type, col: Vec, r: nat) returns (o: Outcome)
      requires Shape(t, col) && Typed(t, col) && r < |col.valid| && col.valid[r] && col.ListVec?
      modifies this
      ensures Emits(EncRow(nul, t, col, r), old(stream), stream, o)
      decreases t, 0, 3
    {
      hide EncRow, EncRows, Put, At, Dims, Oid;
      ListRow(nul, t, col, r);
      var oid := Oid(t.elem);
      if oid.Err? {
        return Fail(oid.error);
      }
      if col.entries[r].length == 0 {
        WriteRawInteger(4, 12);
        WriteRawInteger(4, 0);
        WriteRawInteger(4, 0);
        WriteRawInteger(4, oid.value);
        assert stream == old(stream) + (Put(4, 12) + Put(4, 0) + Put(4, 0) + Put(4, oid.value));
        return Pass;
      }
      var dims := CollectDimensions(t, col, r);
      if dims.Err? {
        return Fail(dims.error);
      }
      o := WriteElements(t, col, r, oid.value, dims.value);
    }

    /** The list header, the elements, and the length of both patched in. */
    method WriteElements(t: Type, col: Vec, r: nat, oid: nat, dims: seq<nat>) returns (o: Outcome)
      requires Shape(t, col) && Typed(t, col) && r < |col.valid| && col.ListVec? && |dims| == Depth(t)
      modifies this
      ensures Emits(PatchedArray(oid, dims, EncRows(nul, t, dims, col, r, 1)), old(stream), stream, o)
      decreases t, 0, 2
    {
      hide EncRows, Put, EncDims, Patched, ArrayBody;
      ghost var elems := EncRows(nul, t, dims, col, r, 1);
      var start := |stream|;
      WriteRawInteger(4, 0);
      WriteRawInteger(4, |dims|);
      WriteRawInteger(4, 1);
      WriteRawInteger(4, oid);
      WriteDims(dims);
      assert dims[0..] == dims;
      o := WriteArray(t, col, r, dims, 0, 1);
      if o.Pass? {
        if elems.Ok? {
          ListPlaceholder(old(stream), oid, dims, elems.value, stream);
        }
        PatchLength(start);
      }
    }

    /** Store<int32_t>(field_size) over the four placeholder bytes. */
    method PatchLength(start: nat)
      requires start + 4 <= |stream|
      modifies this
      ensures stream == old(stream)[..start] + Patched(old(stream)[start + 4..])
    {
      var size := |stream| - start - 4;
      stream := stream[..start] + Put(4, size) + stream[start + 4..];
    }

    method WriteDims(dims: seq<nat>)
      modifies this
      ensures stream == old(stream) + EncDims(dims)
    {
      hide EncDims, Put;
      var d := 0;
      DimsWritten(old(stream), dims, 0);
      while d < |dims|
        invariant 0 <= d <= |dims| && stream == old(stream) + EncDims(dims[..d])
      {
        DimsWritten(old(stream), dims, d);
        WriteRawInteger(4, dims[d]);
        WriteRawInteger(4, 1);
        d := d + 1;
      }
      assert dims[..d] == dims;
    }

    /** WriteArray: the lists at rows r .. r + count of one level. */
    method WriteArray(t: Type, col: Vec, r: nat, dims: seq<nat>, depth: nat, count: nat) returns (o: Outcome)
      requires Shape(t, col) && Typed(t, col) && r + count <= |col.valid| && col.ListVec?
      requires depth <= |dims| && |dims| - depth == Depth(t)
      modifies this
      ensures Emits(EncRows(nul, t, dims[depth..], col, r, count), old(stream), stream, o)
      decreases t, 0, 1
    {
      ghost var ds := dims[depth..];
      ghost var all := EncRows(nul, t, ds, col, r, count);
      ghost var done: seq<byte> := [];
      EncRowsNone(nul, t, ds, col, r + count);
      OweAll(all, stream);
      hide EncCells, EncRows, Then, Owes, Emits;
      var i := 0;
      while i < count
        invariant 0 <= i <= count
        invariant Owes(all, old(stream), stream, done, EncRows(nul, t, ds, col, r + i, count - i))
      {
        ghost var now := stream;
        EncRowsStep(nul, t, ds, col, r + i, count - i);
        o := WriteEntry(t, col, r + i, dims, depth);
        done := Advance(all, old(stream), now, stream, done, EncEntry(nul, t, ds, col, r + i),
                        EncRows(nul, t, ds, col, r + i + 1, count - i - 1), o);
        if o.Fail? {
          return;
        }
        i := i + 1;
      }
      o := Pass;
      Settled(all, old(stream), stream, done);
    }

    /** The loop body of WriteArray: the elements of one list entry. */
    method WriteEntry(t: Type, col: Vec, r: nat, dims: seq<nat>, depth: nat) returns (o: Outcome)
      requires Shape(t, col) && Typed(t, col) && r < |col.valid| && col.ListVec?
      requires depth <= |dims| && |dims| - depth == Depth(t)
      modifies this
      ensures Emits(EncEntry(nul, t, dims[depth..], col, r), old(stream), stream, o)
      decreases t, 0, 0
    {
      var entry := col.entries[r];
      assert dims[depth..][1..] == dims[depth + 1..];
      hide EncCells, EncRows;
      if entry.length != dims[depth] {
        return Fail(Mismatch);
      }
      if t.elem.ListOf? {
        o := WriteArray(t.elem, col.child, entry.offset, dims, depth + 1, entry.length);
      } else {
        o := WriteCells(t.elem, col.child, entry.offset, entry.length);
      }
    }

    /** The innermost loop of WriteArray: consecutive cells of one vector. */
    method WriteCells(t: Type, col: Vec, r: nat, count: nat) returns (o: Outcome)
      requires Shape(t, col) && Typed(t, col) && r + count <= |col.valid|
      modifies this
      ensures Emits(EncCells(nul, t, col, r, count), old(stream), stream, o)
      decreases t, 2, 0
    {
      hide *;
      ghost var all := EncCells(nul, t, col, r, count);
      ghost var done: seq<byte> := [];
      EncCellsNone(nul, t, col, r + count);
      OweAll(all, stream);
      var i := 0;
      while i < count
        invariant 0 <= i <= count
        invariant Owes(all, old(stream), stream, done, EncCells(nul, t, col, r + i, count - i))
      {
        ghost var now := stream;
        EncCellsStep(nul, t, col, r + i, count - i);
        o := WriteValue(t, col, r + i);
        done := Advance(all, old(stream), now, stream, done, EncRow(nul, t, col, r + i),
                        EncCells(nul, t, col, r + i + 1, count - i - 1), o);
        if o.Fail? {
          return;
        }
        i := i + 1;
      }
      o := Pass;
      Settled(all, old(stream), stream, done);
    }

    method WriteStruct(t: Type, col: Vec, r: nat) returns (o: Outcome)
      requires Shape(t, col) && Typed(t, col) && r < |col.valid| && col.valid[r] && col.StructVec?
      modifies this
      ensures Emits(EncRow(nul, t, col, r), old(stream), stream, o)
      decreases t, 0, 3
    {
      EncStructRow(nul, t, col, r);
      hide EncFieldsFrom, EncRow, Put, Shape, Typed, Patched;
      var start := |stream|;
      WriteRawInteger(4, 0);
      WriteRawInteger(4, |col.fields|);
      o := WriteFields(t, col, r);
      if o.Pass? {
        ghost var fs := EncFieldsFrom(nul, t, col, r, 0);
        if fs.Ok? {
          Placeholder(old(stream), Put(4, |col.fields|), fs.value, stream);
        }
        PatchLength(start);
      }
    }

    method WriteFields(t: Type, col: Vec, r: nat) returns (o: Outcome)
      requires Shape(t, col) && Typed(t, col) && r < |col.valid| && col.StructVec?
      modifies this
      ensures Emits(EncFieldsFrom(nul, t, col, r, 0), old(stream), stream, o)
      decreases t, 0, 1
    {
      ghost var all := EncFieldsFrom(nul, t, col, r, 0);
      ghost var done: seq<byte> := [];
      EncFieldsNone(nul, t, col, r);
      OweAll(all, stream);
      hide EncFieldsFrom, EncField, Then, Owes, Emits;
      var k := 0;
      while k < |col.fields|
        invariant 0 <= k <= |col.fields|
        invariant Owes(all, old(stream), stream, done, EncFieldsFrom(nul, t, col, r, k))
      {
        ghost var now := stream;
        EncFieldsStep(nul, t, col, r, k);
        o := WriteField(t, col, r, k);
        done := Advance(all, old(stream), now, stream, done, EncField(nul, t, col, r, k), EncFieldsFrom(nul, t, col, r, k + 1), o);
        if o.Fail? {
          return;
        }
        k := k + 1;
      }
      o := Pass;
      Settled(all, old(stream), stream, done);
    }

    /** The loop body: one field, behind its type OID. */
    method WriteField(t: Type, col: Vec, r: nat, k: nat) returns (o: Outcome)
      requires Shape(t, col) && Typed(t, col) && r < |col.valid| && col.StructVec? && k < |col.fields|
      modifies this
      ensures Emits(EncField(nul, t, col, r, k), old(stream), stream, o)
      decreases t, 0, 0
    {
      hide Oid, EncRow, Put;
      var oid := Oid(t.fields[k]);
      if oid.Err? {
        return Fail(oid.error);
      }
      WriteRawInteger(4, oid.value);
      o := WriteValue(t.fields[k], col.fields[k], r);
    }

    /** for (i = n; i > 0; i--): the digits, stored least significant first. */
    method WriteReversed(digits: array<nat>, n: nat, ghost ds: seq<nat>)
      requires n <= digits.Length && Reverses(digits[..], n, ds)
      modifies this
      ensures stream == old(stream) + EncDigits(ds)
    {
      hide Put, EncDigits;
      var i := n;
      DigitsWritten(old(stream), ds, 0);
      while i > 0
        invariant 0 <= i <= n
        invariant stream == old(stream) + EncDigits(ds[..n - i])
      {
        DigitsWritten(old(stream), ds, n - i);
        WriteRawInteger(2, digits[i - 1]);
        i := i - 1;
      }
      assert ds[..n] == ds;
    }
  }

  lemma DigitsWritten(before: seq<byte>, ds: seq<nat>, d: nat)
    ensures before + EncDigits(ds[..0]) == before
    ensures d < |ds| ==> before + EncDigits(ds[..d + 1]) == before + EncDigits(ds[..d]) + Put(2, ds[d])
  {
    hide Put;
    if d < |ds| {
      assert ds[..d + 1] == ds[..d] + [ds[d]];
      EncDigitsAppend(ds[..d], [ds[d]]);
      assert EncDigits([ds[d]]) == Put(2, ds[d]) + [];
    }
  }

  /** The pieces WriteDecimal puts on the stream are one field. */
  lemma NumericBytes(before: seq<byte>, a: seq<nat>, b: seq<nat>, sign: nat, scale: nat)
    ensures before + Put(4, 2 * (4 + |a| + |b|)) + Put(2, |a| + |b|) + Put(2, |a| - 1) + Put(2, sign) + Put(2, scale)
            + EncDigits(a) + EncDigits(b)
            == before + Patched(EncNumeric(a + b, |a| - 1, sign, scale))
  {
    hide Put, EncDigits;
    EncDigitsAppend(a, b);
    var x := before + Put(4, 2 * (4 + |a| + |b|));
    var p, q, r, s := Put(2, |a| + |b|), Put(2, |a| - 1), Put(2, sign), Put(2, scale);
    FourParts(x, p, q, r, s);
    Regrouped(x, p + q + r + s, EncDigits(a));
    Regrouped(x, p + q + r + s + EncDigits(a), EncDigits(b));
    Regrouped(p + q + r + s, EncDigits(a), EncDigits(b));
    Regrouped(before, Put(4, 2 * (4 + |a| + |b|)), EncNumeric(a + b, |a| - 1, sign, scale));
  }

  lemma DimsWritten(before: seq<byte>, dims: seq<nat>, d: nat)
    ensures before + EncDims(dims[..0]) == before
    ensures d < |dims| ==> before + EncDims(dims[..d + 1]) == before + EncDims(dims[..d]) + Put(4, dims[d]) + Put(4, 1)
  {
    hide Put;
    if d < |dims| {
      assert dims[..d + 1] == dims[..d] + [dims[d]];
      EncDimsAppend(dims[..d], dims[d]);
    }
  }

  lemma {:induction false} EncDimsAppend(dims: seq<nat>, d: nat)
    ensures EncDims(dims + [d]) == EncDims(dims) + Put(4, d) + Put(4, 1)
  {
    hide Put;
    if dims == [] {
      assert dims + [d] == [d] && [d][1..] == [];
    } else {
      EncDimsAppend(dims[1..], d);
      assert (dims + [d])[1..] == dims[1..] + [d];
    }
  }

  function DecimalField(st: Storage, v: int, scale: nat): Result<seq<byte>> {
    var body :- EncDecimal(st, v, scale);
    Field(body)
  }

  lemma DecimalFieldOf(st: Storage, v: int, scale: nat, m: nat, sign: nat)
    requires InWidth(st, v, scale)
    requires m == (if v < 0 then -v else v) && sign == (if v < 0 then NUMERIC_NEG else NUMERIC_POS)
    ensures DecimalField(st, v, scale) ==
            if AlignedFraction(m, scale) <= st.Max
            then Ok(Patched(EncNumeric(WrittenIntegral(m, scale) + FixedGroups(ScaleGroups(scale), AlignedFraction(m, scale)),
                                       |WrittenIntegral(m, scale)| - 1, sign, scale)))
            else Err(Overflow)
  {
    WrittenCount(st, m, scale);
    hide Pow, Groups, FixedGroups, EncNumeric, ScaleGroups, Put;
  }

  lemma DivideByOne(m: nat)
    ensures Pow(10, 0) == 1 && m / Pow(10, 0) == m && m % Pow(10, 0) == 0
  {
  }

  // ------------------------------------------- rows of vectors, as the format sees them

  function EncRow(nul: Option<seq<byte>>, t: Type, col: Vec, r: nat): Result<seq<byte>>
    requires Shape(t, col) && Typed(t, col) && r < |col.valid|
  {
    TypedAt(t, col, r);
    Enc(nul, t, At(t, col, r))
  }

  function EncCells(nul: Option<seq<byte>>, t: Type, col: Vec, r: nat, count: nat): Result<seq<byte>>
    requires Shape(t, col) && Typed(t, col) && r + count <= |col.valid|
  {
    TypedSlice(t, col, r, count);
    EncMany(nul, t, Slice(t, col, r, count))
  }

  function EncRows(nul: Option<seq<byte>>, t: Type, dims: seq<nat>, col: Vec, r: nat, count: nat): Result<seq<byte>>
    requires Shape(t, col) && Typed(t, col) && r + count <= |col.valid|
    requires t.ListOf? && |dims| == Depth(t)
  {
    TypedSlice(t, col, r, count);
    EncArray(nul, t, dims, Slice(t, col, r, count))
  }

  /** The values of the struct fields from the k-th on. */
  function FieldsFrom(t: Type, col: Vec, r: nat, k: nat): (vs: seq<Value>)
    requires Shape(t, col) && r < |col.valid| && col.StructVec? && k <= |col.fields|
    ensures |vs| == |col.fields| - k
  {
    seq(|col.fields| - k, i requires 0 <= i < |col.fields| - k => At(t.fields[k + i], col.fields[k + i], r))
  }

  lemma TypedFields(t: Type, col: Vec, r: nat, k: nat)
    requires Shape(t, col) && Typed(t, col) && r < |col.valid| && col.StructVec? && k <= |col.fields|
    ensures |t.fields[k..]| == |FieldsFrom(t, col, r, k)|
    ensures forall i | 0 <= i < |FieldsFrom(t, col, r, k)| :: HasType(t.fields[k..][i], FieldsFrom(t, col, r, k)[i])
  {
    var vs := FieldsFrom(t, col, r, k);
    forall i | 0 <= i < |vs| ensures HasType(t.fields[k..][i], vs[i]) {
      TypedAt(t.fields[k + i], col.fields[k + i], r);
    }
  }

  function EncFieldsFrom(nul: Option<seq<byte>>, t: Type, col: Vec, r: nat, k: nat): Result<seq<byte>>
    requires Shape(t, col) && Typed(t, col) && r < |col.valid| && col.StructVec? && k <= |col.fields|
  {
    TypedFields(t, col, r, k);
    EncFields(nul, t.fields[k..], FieldsFrom(t, col, r, k))
  }

  lemma SliceCons(t: Type, col: Vec, r: nat, count: nat)
    requires Shape(t, col) && r + count <= |col.valid| && count > 0
    ensures Slice(t, col, r, count) == [At(t, col, r)] + Slice(t, col, r + 1, count - 1)
  {
  }

  lemma EncCellsStep(nul: Option<seq<byte>>, t: Type, col: Vec, r: nat, count: nat)
    requires Shape(t, col) && Typed(t, col) && r + count <= |col.valid| && count > 0
    ensures EncCells(nul, t, col, r, count) == Then(EncRow(nul, t, col, r), EncCells(nul, t, col, r + 1, count - 1))
  {
    TypedSlice(t, col, r, count);
    TypedSlice(t, col, r + 1, count - 1);
    TypedAt(t, col, r);
    SliceCons(t, col, r, count);
    assert Slice(t, col, r, count)[1..] == Slice(t, col, r + 1, count - 1);
    hide Enc, Slice, At;
  }

  lemma EncCellsNone(nul: Option<seq<byte>>, t: Type, col: Vec, r: nat)
    requires Shape(t, col) && Typed(t, col) && r <= |col.valid|
    ensures EncCells(nul, t, col, r, 0) == Ok([])
  {
  }

  lemma EncRowsNone(nul: Option<seq<byte>>, t: Type, dims: seq<nat>, col: Vec, r: nat)
    requires Shape(t, col) && Typed(t, col) && r <= |col.valid| && t.ListOf? && |dims| == Depth(t)
    ensures EncRows(nul, t, dims, col, r, 0) == Ok([])
  {
  }

  lemma EncFieldsNone(nul: Option<seq<byte>>, t: Type, col: Vec, r: nat)
    requires Shape(t, col) && Typed(t, col) && r < |col.valid| && col.StructVec?
    ensures EncFieldsFrom(nul, t, col, r, |col.fields|) == Ok([])
  {
  }

  /** The elements of one list entry, against the dimensions of its level. */
  function EncEntry(nul: Option<seq<byte>>, t: Type, dims: seq<nat>, col: Vec, r: nat): Result<seq<byte>>
    requires Shape(t, col) && Typed(t, col) && r < |col.valid| && col.ListVec? && |dims| == Depth(t)
  {
    var entry := col.entries[r];
    if !col.valid[r] then Err(Unmodelled)
    else if entry.length != dims[0] then Err(Mismatch)
    else if t.elem.ListOf? then EncRows(nul, t.elem, dims[1..], col.child, entry.offset, entry.length)
    else EncCells(nul, t.elem, col.child, entry.offset, entry.length)
  }

  lemma EncRowsStep(nul: Option<seq<byte>>, t: Type, dims: seq<nat>, col: Vec, r: nat, count: nat)
    requires Shape(t, col) && Typed(t, col) && r + count <= |col.valid| && count > 0
    requires col.ListVec? && |dims| == Depth(t)
    ensures EncRows(nul, t, dims, col, r, count) ==
            Then(EncEntry(nul, t, dims, col, r), EncRows(nul, t, dims, col, r + 1, count - 1))
  {
    TypedSlice(t, col, r, count);
    TypedSlice(t, col, r + 1, count - 1);
    TypedAt(t, col, r);
    SliceCons(t, col, r, count);
    assert Slice(t, col, r, count)[1..] == Slice(t, col, r + 1, count - 1);
    hide Enc, EncMany, Slice;
  }

  /** One struct field behind its type OID. */
  function EncField(nul: Option<seq<byte>>, t: Type, col: Vec, r: nat, k: nat): Result<seq<byte>>
    requires Shape(t, col) && Typed(t, col) && r < |col.valid| && col.StructVec? && k < |col.fields|
  {
    var oid :- Oid(t.fields[k]);
    var x :- EncRow(nul, t.fields[k], col.fields[k], r);
    Ok(Put(4, oid) + x)
  }

  lemma EncFieldsStep(nul: Option<seq<byte>>, t: Type, col: Vec, r: nat, k: nat)
    requires Shape(t, col) && Typed(t, col) && r < |col.valid| && col.StructVec? && k < |col.fields|
    ensures EncFieldsFrom(nul, t, col, r, k) == Then(EncField(nul, t, col, r, k), EncFieldsFrom(nul, t, col, r, k + 1))
  {
    TypedFields(t, col, r, k);
    TypedFields(t, col, r, k + 1);
    TypedAt(t.fields[k], col.fields[k], r);
    assert t.fields[k..][1..] == t.fields[k + 1..];
    FieldsFromCons(t, col, r, k);
    EncFieldsCases(nul, t.fields[k..], FieldsFrom(t, col, r, k));
    hide Enc, EncFields, Put, At, FieldsFrom, Shape, Typed, HasType, Oid;
  }

  lemma FieldsFromCons(t: Type, col: Vec, r: nat, k: nat)
    requires Shape(t, col) && r < |col.valid| && col.StructVec? && k < |col.fields|
    ensures FieldsFrom(t, col, r, k)[1..] == FieldsFrom(t, col, r, k + 1)
    ensures FieldsFrom(t, col, r, k)[0] == At(t.fields[k], col.fields[k], r)
  {
    hide At;
  }

  lemma EncFieldsCases(nul: Option<seq<byte>>, ts: seq<Type>, vs: seq<Value>)
    requires |ts| == |vs| && ts != [] && forall i | 0 <= i < |vs| :: HasType(ts[i], vs[i])
    ensures EncFields(nul, ts, vs) ==
            match Oid(ts[0])
            case Err(e) => Err(e)
            case Ok(oid) =>
              match Enc(nul, ts[0], vs[0])
              case Ok(x) => Behind(Put(4, oid) + x, EncFields(nul, ts[1..], vs[1..]))
              case Err(e) => Err(e)
  {
    hide Enc, Put;
  }

  lemma Placeholder(before: seq<byte>, head: seq<byte>, body: seq<byte>, now: seq<byte>)
    requires now == before + Put(4, 0) + head + body
    ensures |before| + 4 <= |now| && now[..|before|] == before && now[|before| + 4..] == head + body
  {
    hide Put;
  }

  lemma ListPlaceholder(before: seq<byte>, oid: nat, dims: seq<nat>, elems: seq<byte>, now: seq<byte>)
    requires now == before + Put(4, 0) + Put(4, |dims|) + Put(4, 1) + Put(4, oid) + EncDims(dims) + elems
    ensures |before| + 4 <= |now| && now[..|before|] == before && now[|before| + 4..] == ArrayBody(oid, dims, elems)
  {
    hide Put, EncDims;
    var a, b, c, d := Put(4, |dims|), Put(4, 1), Put(4, oid), EncDims(dims);
    FourParts(before + Put(4, 0), a, b, c, d);
    Placeholder(before, a + b + c + d, elems, now);
  }

  lemma FourParts(x: seq<byte>, a: seq<byte>, b: seq<byte>, c: seq<byte>, d: seq<byte>)
    ensures x + a + b + c + d == x + (a + b + c + d)
  {
    Regrouped(x, a, b);
    Regrouped(x, a + b, c);
    Regrouped(x, a + b + c, d);
  }

  function PatchedArray(oid: nat, dims: seq<nat>, elems: Result<seq<byte>>): Result<seq<byte>> {
    match elems
    case Ok(b) => Ok(Patched(ArrayBody(oid, dims, b)))
    case Err(e) => Err(e)
  }

  lemma OneRow(nul: Option<seq<byte>>, t: Type, dims: seq<nat>, col: Vec, r: nat)
    requires Shape(t, col) && Typed(t, col) && r < |col.valid| && col.ListVec? && |dims| == Depth(t)
    ensures HasType(t, At(t, col, r))
    ensures EncRows(nul, t, dims, col, r, 1) == EncArray(nul, t, dims, [At(t, col, r)])
  {
    TypedAt(t, col, r);
    TypedSlice(t, col, r, 1);
    assert Slice(t, col, r, 1) == [At(t, col, r)];
  }

  lemma EncStructRow(nul: Option<seq<byte>>, t: Type, col: Vec, r: nat)
    requires Shape(t, col) && Typed(t, col) && r < |col.valid| && col.valid[r] && col.StructVec?
    ensures EncRow(nul, t, col, r) ==
            match EncFieldsFrom(nul, t, col, r, 0)
            case Ok(b) => Ok(Patched(Put(4, |col.fields|) + b))
            case Err(e) => Err(e)
  {
    TypedAt(t, col, r);
    TypedFields(t, col, r, 0);
    assert t.fields[0..] == t.fields;
    assert At(t, col, r).fields == FieldsFrom(t, col, r, 0);
    hide EncFields, Put, FieldsFrom, At;
  }

  /** Enc of a list row, case by case. */
  lemma ListRow(nul: Option<seq<byte>>, t: Type, col: Vec, r: nat)
    requires Shape(t, col) && Typed(t, col) && r < |col.valid| && col.valid[r] && col.ListVec?
    ensures HasType(t, At(t, col, r)) && At(t, col, r).ListV? && |At(t, col, r).items| == col.entries[r].length
    ensures Oid(t.elem).Err? ==> EncRow(nul, t, col, r) == Err(Oid(t.elem).error)
    ensures Oid(t.elem).Ok? && col.entries[r].length == 0 ==>
            EncRow(nul, t, col, r) == Ok(Put(4, 12) + Put(4, 0) + Put(4, 0) + Put(4, Oid(t.elem).value))
    ensures Oid(t.elem).Ok? && col.entries[r].length != 0 ==>
            var dims := Dims(t, At(t, col, r));
            EncRow(nul, t, col, r) ==
            if dims.Err? then Err(dims.error)
            else PatchedArray(Oid(t.elem).value, dims.value, EncRows(nul, t, dims.value, col, r, 1))
  {
    TypedAt(t, col, r);
    EncIsList(nul, t, At(t, col, r));
    ListCases(nul, t, At(t, col, r));
    if Dims(t, At(t, col, r)).Ok? {
      OneRow(nul, t, Dims(t, At(t, col, r)).value, col, r);
    }
    hide Enc, EncList, EncArray, Put, Typed, Dims, PatchedArray, EncRows;
  }

  lemma EncIsList(nul: Option<seq<byte>>, t: Type, v: Value)
    requires t.ListOf? && HasType(t, v) && v.ListV?
    ensures Enc(nul, t, v) == EncList(nul, t, v)
  {
  }

  lemma ListCases(nul: Option<seq<byte>>, t: Type, v: Value)
    requires t.ListOf? && HasType(t, v) && v.ListV?
    ensures Oid(t.elem).Err? ==> EncList(nul, t, v) == Err(Oid(t.elem).error)
    ensures Oid(t.elem).Ok? && v.items == [] ==>
            EncList(nul, t, v) == Ok(Put(4, 12) + Put(4, 0) + Put(4, 0) + Put(4, Oid(t.elem).value))
    ensures Oid(t.elem).Ok? && v.items != [] && Dims(t, v).Err? ==> EncList(nul, t, v) == Err(Dims(t, v).error)
    ensures Oid(t.elem).Ok? && v.items != [] && Dims(t, v).Ok? ==>
            EncList(nul, t, v) == PatchedArray(Oid(t.elem).value, Dims(t, v).value, EncArray(nul, t, Dims(t, v).value, [v]))
  {
    hide EncArray, Put, Dims, Oid;
  }

  /** The loop that follows first elements down to the leaf level. */
  method CollectDimensions(t: Type, col: Vec, r: nat) returns (res: Result<seq<nat>>)
    requires Shape(t, col) && Typed(t, col) && r < |col.valid| && col.ListVec?
    ensures res.Ok? ==> |res.value| == Depth(t) && forall d | d in res.value :: d < TWO32
    ensures Dims(t, At(t, col, r)).Ok? ==> res == Dims(t, At(t, col, r))
    ensures Dims(t, At(t, col, r)).Err? ==> Dims(t, At(t, col, r)) == Err(Unmodelled)
    ensures res.Err? ==> res == Err(Unmodelled)
  {
    ghost var want := Dims(t, At(t, col, r));
    var dims: seq<nat> := [];
    var ct, vec := t, col;
    var pos: nat := r;
    hide At, Dims, Shape, Typed, Depth, Following;
    VecLevel(ct, vec);
    FollowStart(t, col, r);
    while vec.ListVec?
      invariant Shape(ct, vec) && Typed(ct, vec) && |dims| + Depth(ct) == Depth(t)
      invariant forall d | d in dims :: d < TWO32
      invariant Following(want, ct, vec, pos, dims)
      decreases vec
    {
      VecLevel(ct, vec);
      if pos >= |vec.valid| {
        FollowEnd(want, ct, vec, pos, dims);
        return Err(Unmodelled);
      }
      FollowStep(want, ct, vec, pos, dims);
      dims := dims + [vec.entries[pos].length % TWO32];
      ct, vec, pos := ct.elem, vec.child, vec.entries[pos].offset;
    }
    VecLevel(ct, vec);
    FollowEnd(want, ct, vec, pos, dims);
    res := Ok(dims);
  }

  /** The dimensions collected so far, in front of those of the entry at pos. */
  ghost predicate Following(want: Result<seq<nat>>, t: Type, vec: Vec, pos: nat, dims: seq<nat>)
    requires Shape(t, vec)
  {
    want.Ok? ==>
      && pos < |vec.valid|
      && if t.ListOf? then Dims(t, At(t, vec, pos)).Ok? && want.value == dims + Dims(t, At(t, vec, pos)).value else want.value == dims
  }

  lemma FollowStart(t: Type, col: Vec, r: nat)
    requires Shape(t, col) && r < |col.valid| && col.ListVec?
    ensures Following(Dims(t, At(t, col, r)), t, col, r, [])
  {
    var want := Dims(t, At(t, col, r));
    assert want.Ok? ==> [] + want.value == want.value;
    hide Dims, At;
  }

  lemma FollowStep(want: Result<seq<nat>>, t: Type, vec: Vec, pos: nat, dims: seq<nat>)
    requires Shape(t, vec) && vec.ListVec? && pos < |vec.valid| && Following(want, t, vec, pos, dims)
    ensures |vec.entries| == |vec.valid| && Shape(t.elem, vec.child)
    ensures Following(want, t.elem, vec.child, vec.entries[pos].offset, dims + [vec.entries[pos].length % TWO32])
  {
    if want.Ok? {
      DimsStep(t, vec, pos);
    }
    hide Dims, At;
  }

  lemma FollowEnd(want: Result<seq<nat>>, t: Type, vec: Vec, pos: nat, dims: seq<nat>)
    requires Shape(t, vec) && Following(want, t, vec, pos, dims)
    ensures want.Ok? ==> pos < |vec.valid| && (!t.ListOf? ==> want.value == dims)
  {
  }

  lemma VecLevel(t: Type, vec: Vec)
    requires Shape(t, vec) && Typed(t, vec)
    ensures t.ListOf? <==> vec.ListVec?
    ensures !t.ListOf? ==> Depth(t) == 0
    ensures t.ListOf? ==>
            && |vec.entries| == |vec.valid| && Depth(t) == 1 + Depth(t.elem)
            && Shape(t.elem, vec.child) && Typed(t.elem, vec.child)
  {
  }

  lemma DimsStep(t: Type, vec: Vec, pos: nat)
    requires Shape(t, vec) && pos < |vec.valid| && vec.ListVec? && Dims(t, At(t, vec, pos)).Ok?
    ensures var entry := vec.entries[pos];
            && entry.offset < |vec.child.valid|
            && (var rest := if t.elem.ListOf? then Dims(t.elem, At(t.elem, vec.child, entry.offset)) else Ok([]);
                rest.Ok? && Dims(t, At(t, vec, pos)).value == [entry.length % TWO32] + rest.value)
  {
    var v, entry := At(t, vec, pos), vec.entries[pos];
    assert v.ListV? && |v.items| == entry.length > 0;
    assert v.items[0] == At(t.elem, vec.child, entry.offset);
  }

  // -------------------------------------------------------- digits of a decimal

  /** The first n digits, read backwards, are ds. */
  predicate Reverses(digits: seq<nat>, n: nat, ds: seq<nat>) {
    n <= |digits| && |ds| == n && forall k | 0 <= k < n :: digits[k] == ds[n - 1 - k]
  }

  lemma {:induction false} EncDigitsAppend(a: seq<nat>, b: seq<nat>)
    ensures EncDigits(a + b) == EncDigits(a) + EncDigits(b)
  {
    if a == [] {
      assert a + b == b;
    } else {
      EncDigitsAppend(a[1..], b);
      assert (a + b)[1..] == a[1..] + b;
      Regrouped(Put(2, a[0]), EncDigits(a[1..]), EncDigits(b));
    }
  }

  method SplitAtPoint(value: nat, scale: nat) returns (integerPart: nat, fractionalPart: nat)
    ensures integerPart == value / Pow(10, scale) && fractionalPart == value % Pow(10, scale)
  {
    if scale == 0 {
      DivideByOne(value);
      integerPart, fractionalPart := value, 0;
    } else {
      integerPart, fractionalPart := value / Pow(10, scale), value % Pow(10, scale);
    }
  }

  /** The first loop of WriteDecimal: digits of the integral part, lowest first. */
  method SplitIntegral(x: nat, digits: array<nat>) returns (n: nat)
    requires |Groups(x)| <= digits.Length
    modifies digits
    ensures Reverses(digits[..], n, Groups(x))
  {
    var part: nat := x;
    n := 0;
    assert Groups(x)[..|Groups(x)|] == Groups(x);
    while part > 0
      invariant n + |Groups(part)| == |Groups(x)|
      invariant Groups(part) == Groups(x)[..|Groups(x)| - n]
      invariant forall k | 0 <= k < n :: digits[k] == Groups(x)[|Groups(x)| - 1 - k]
    {
      assert Groups(part) == Groups(part / NBASE) + [part % NBASE];
      digits[n] := part % NBASE;
      n := n + 1;
      part := part / NBASE;
    }
  }

  /** The second loop: exactly n digits of the aligned fraction, lowest first. */
  method SplitFraction(x: nat, n: nat, digits: array<nat>)
    requires n <= digits.Length
    modifies digits
    ensures Reverses(digits[..], n, FixedGroups(n, x))
  {
    var part: nat := x;
    var i := 0;
    while i < n
      invariant 0 <= i <= n
      invariant FixedGroups(n - i, part) == FixedGroups(n, x)[..n - i]
      invariant forall k | 0 <= k < i :: digits[k] == FixedGroups(n, x)[n - 1 - k]
    {
      assert FixedGroups(n - i, part) == FixedGroups(n - i - 1, part / NBASE) + [part % NBASE];
      digits[i] := part % NBASE;
      part := part / NBASE;
      i := i + 1;
    }
  }
}
