/** Which values the binary writer can write (src/include/postgres_binary_writer.hpp):
    everything it accepts, and nothing else, told from the value alone. */
module Writability {
  import opened Wrappers
  import opened Bytes
  import opened Decimal
  import opened DateTime
  import opened NestedLists
  import opened WireFormat
  import opened WireRoundTrip
  import opened RowFormat
  import opened ServerFormat

  /** A text or a blob that fits its length word; NULs need a replacement. */
  predicate TextFits(nul: Option<seq<byte>>, t: Type, b: seq<byte>) {
    if t.Varchar? && 0 in b then nul.Some? && |ReplaceNul(nul.value, b)| <= 0x7FFF_FFFF else |b| <= 0x7FFF_FFFF
  }

  /** Dates and timestamps within the server's range or infinite, decimals whose aligned
      fraction fits, texts that fit. */
  predicate ScalarWritable(nul: Option<seq<byte>>, t: Type, v: Value)
    requires HasType(t, v) && !t.ListOf? && !t.StructOf? && !v.NullV?
  {
    match t
    case Date => v.n == DATE_INFINITY || v.n == DATE_NINFINITY || 0 <= v.n - EPOCH_DAYS + 2451545 < 2147483494
    case Timestamp => MomentWritable(v.n)
    case TimestampTz => MomentWritable(v.n)
    case DecimalOf(st, scale) => FractionFits(st, if v.n < 0 then -v.n else v.n, scale)
    case Varchar => TextFits(nul, t, v.bytes)
    case Blob => TextFits(nul, t, v.bytes)
    case _ => true
  }

  predicate MomentWritable(n: int) {
    n == TIMESTAMP_INFINITY || n == TIMESTAMP_NINFINITY
    || 0 <= n - EPOCH_MICROS + 2451545 * 86400000000 < 109203528 * 86400000000
  }

  /** What a list or a record can hold: neither decimals nor records, in lists of any
      depth. */
  predicate Tagged(t: Type) {
    match t
    case ListOf(e) => Tagged(e)
    case DecimalOf(_, _) => false
    case StructOf(_) => false
    case _ => true
  }

  /** A list of lists of those lengths, level by level, none of them NULL. */
  ghost predicate Sized(nul: Option<seq<byte>>, t: Type, dims: seq<nat>, v: Value)
    requires t.ListOf? && HasType(t, v)
    decreases t, 0
  {
    && v.ListV? && dims != [] && |v.items| == dims[0]
    && forall x | x in v.items :: if t.elem.ListOf? then Sized(nul, t.elem, dims[1..], x) else Writable(nul, t.elem, x)
  }

  predicate Lengths(t: Type, dims: seq<nat>)
    requires t.ListOf?
  {
    |dims| == Depth(t) && forall d | d in dims :: 0 < d < 0x1_0000_0000
  }

  ghost predicate Writable(nul: Option<seq<byte>>, t: Type, v: Value)
    requires HasType(t, v)
    decreases t, 1
  {
    v.NullV? ||
    if t.ListOf? then Tagged(t) && (v.items == [] || exists dims :: Lengths(t, dims) && Sized(nul, t, dims, v))
    else if t.StructOf? then
      forall i | 0 <= i < |v.fields| :: Tagged(t.fields[i]) && Writable(nul, t.fields[i], v.fields[i])
    else ScalarWritable(nul, t, v)
  }

  lemma {:induction false} TaggedHasOid(t: Type)
    ensures Oid(t).Ok? <==> Tagged(t)
    decreases t
  {
    if t.ListOf? {
      TaggedHasOid(t.elem);
    }
  }

  lemma DecimalWrites(nul: Option<seq<byte>>, t: Type, v: Value)
    requires HasType(t, v) && t.DecimalOf? && !v.NullV?
    ensures EncScalar(nul, t, v).Ok? <==> ScalarWritable(nul, t, v)
    ensures EncScalar(nul, t, v).Ok? ==> |EncScalar(nul, t, v).value| <= INT32_MAX
  {
    if FractionFits(t.storage, if v.n < 0 then -v.n else v.n, t.scale) {
      DecimalRoundTrip(t.storage, v.n, t.scale, []);
    }
    hide FractionFits, InWidth;
  }

  lemma ScalarBody(nul: Option<seq<byte>>, t: Type, v: Value)
    requires HasType(t, v) && !t.ListOf? && !t.StructOf? && !v.NullV?
    ensures Enc(nul, t, v).Ok? <==> EncScalar(nul, t, v).Ok? && |EncScalar(nul, t, v).value| <= INT32_MAX
  {
    hide EncScalar, HasType;
  }

  lemma MomentWrites(nul: Option<seq<byte>>, t: Type, v: Value)
    requires HasType(t, v) && (t.Date? || t.Timestamp? || t.TimestampTz?) && !v.NullV?
    ensures EncScalar(nul, t, v).Ok? <==> ScalarWritable(nul, t, v)
    ensures EncScalar(nul, t, v).Ok? ==> |EncScalar(nul, t, v).value| <= INT32_MAX
  {
    if t.Date? {
      DateReceived(v.n);
    } else {
      TimestampReceived(v.n);
    }
    hide DateToPostgres, TimestampToPostgres;
  }

  lemma ScalarWrites(nul: Option<seq<byte>>, t: Type, v: Value)
    requires HasType(t, v) && !t.ListOf? && !t.StructOf? && !v.NullV?
    ensures Enc(nul, t, v).Ok? <==> ScalarWritable(nul, t, v)
  {
    ScalarBody(nul, t, v);
    hide Enc;
    if t.DecimalOf? {
      DecimalWrites(nul, t, v);
      hide EncScalar, ScalarWritable, HasType;
    } else if t.Date? || t.Timestamp? || t.TimestampTz? {
      MomentWrites(nul, t, v);
      hide EncScalar, ScalarWritable, HasType;
    } else {
      hide ReplaceNul;
    }
  }

  lemma {:induction false} ManyWrite(nul: Option<seq<byte>>, t: Type, vs: seq<Value>)
    requires forall v | v in vs :: HasType(t, v)
    ensures EncMany(nul, t, vs).Ok? <==> forall v | v in vs :: Writable(nul, t, v)
    decreases t, 3, |vs|
  {
    hide Enc, EncMany, Writable, HasType;
    EncManyCons(nul, t, vs);
    if vs != [] {
      Writes(nul, t, vs[0]);
      ManyWrite(nul, t, vs[1..]);
      HeadAndTail(vs);
    }
  }

  lemma SizedIs(nul: Option<seq<byte>>, t: Type, dims: seq<nat>, v: Value)
    requires t.ListOf? && HasType(t, v)
    ensures v.ListV? ==> forall x | x in v.items :: HasType(t.elem, x)
    ensures Sized(nul, t, dims, v) <==>
            && v.ListV? && dims != [] && |v.items| == dims[0]
            && if t.elem.ListOf? then forall x | x in v.items :: Sized(nul, t.elem, dims[1..], x)
               else forall x | x in v.items :: Writable(nul, t.elem, x)
  {
    hide Writable;
  }

  lemma EncArrayCons(nul: Option<seq<byte>>, t: Type, dims: seq<nat>, vs: seq<Value>)
    requires t.ListOf? && |dims| == Depth(t) && forall v | v in vs :: HasType(t, v)
    ensures vs == [] ==> EncArray(nul, t, dims, vs) == Ok([])
    ensures vs != [] ==> HasType(t, vs[0])
    ensures vs != [] && !(vs[0].ListV? && |vs[0].items| == dims[0]) ==> EncArray(nul, t, dims, vs).Err?
    ensures vs != [] && vs[0].ListV? && |vs[0].items| == dims[0] ==>
            var first := if t.elem.ListOf? then EncArray(nul, t.elem, dims[1..], vs[0].items) else EncMany(nul, t.elem, vs[0].items);
            EncArray(nul, t, dims, vs).Ok? <==> first.Ok? && EncArray(nul, t, dims, vs[1..]).Ok?
  {
    hide EncMany;
  }

  lemma {:induction false} ArrayWrites(nul: Option<seq<byte>>, t: Type, dims: seq<nat>, vs: seq<Value>)
    requires t.ListOf? && |dims| == Depth(t) && forall v | v in vs :: HasType(t, v)
    ensures EncArray(nul, t, dims, vs).Ok? <==> forall v | v in vs :: Sized(nul, t, dims, v)
    decreases t, 0, |vs|
  {
    EncArrayCons(nul, t, dims, vs);
    if vs != [] {
      var v := vs[0];
      SizedIs(nul, t, dims, v);
      hide EncArray, EncMany, Sized, Writable, HasType;
      ArrayWrites(nul, t, dims, vs[1..]);
      if v.ListV? && t.elem.ListOf? {
        ArrayWrites(nul, t.elem, dims[1..], v.items);
      } else if v.ListV? {
        ManyWrite(nul, t.elem, v.items);
      }
      HeadAndTail(vs);
      assert forall x | x in vs :: x == v || x in vs[1..];
    }
  }

  lemma LengthsCons(t: Type, dims: seq<nat>)
    requires t.ListOf? && dims != []
    ensures Lengths(t, dims) <==>
            0 < dims[0] < TWO32 && if t.elem.ListOf? then Lengths(t.elem, dims[1..]) else |dims| == 1
  {
    assert Depth(t) == 1 + Depth(t.elem);
    assert |dims| == 1 ==> dims[1..] == [];
    if Lengths(t, dims) {
      assert dims[0] in dims;
      forall d | d in dims[1..] ensures 0 < d < TWO32 {
        assert d in dims;
      }
    }
    if 0 < dims[0] < TWO32 && (if t.elem.ListOf? then Lengths(t.elem, dims[1..]) else |dims| == 1) {
      forall d | d in dims ensures 0 < d < TWO32 {
        assert d == dims[0] || d in dims[1..];
      }
    }
  }

  lemma DimsIs(t: Type, v: Value)
    requires t.ListOf? && v.ListV? && v.items != []
    ensures t.elem.ListOf? ==>
            Dims(t, v) == match Dims(t.elem, v.items[0])
                          case Ok(rest) => Ok([|v.items| % TWO32] + rest)
                          case Err(e) => Err(e)
    ensures !t.elem.ListOf? ==> Dims(t, v) == Ok([|v.items| % TWO32])
  {
  }

  lemma {:induction false} SizedDims(nul: Option<seq<byte>>, t: Type, dims: seq<nat>, v: Value)
    requires t.ListOf? && HasType(t, v) && Sized(nul, t, dims, v)
    ensures Lengths(t, dims) ==> Dims(t, v) == Ok(dims)
    ensures Dims(t, v) == Ok(dims) ==> Lengths(t, dims)
    decreases t
  {
    SizedIs(nul, t, dims, v);
    hide Writable, Sized, HasType;
    if v.items != [] {
      DimsIs(t, v);
      hide Dims;
    }
    HeadAndTail(dims);
    LengthsCons(t, dims);
    hide Lengths;
    assert |dims| == 1 ==> dims == [dims[0]];
    if v.items != [] && t.elem.ListOf? {
      assert v.items[0] in v.items;
      SizedDims(nul, t.elem, dims[1..], v.items[0]);
      assert Dims(t, v).Ok? ==> Dims(t, v).value[1..] == Dims(t.elem, v.items[0]).value;
    }
  }

  lemma ListWrites(nul: Option<seq<byte>>, t: Type, v: Value)
    requires HasType(t, v) && t.ListOf? && v.ListV?
    ensures Enc(nul, t, v).Ok? <==> Writable(nul, t, v)
    decreases t, 1, 0
  {
    TaggedHasOid(t);
    if v.items != [] {
      ListCases(nul, t, v);
      hide Enc, EncArray, Oid, Dims, Tagged, Sized, Lengths;
      if Dims(t, v).Ok? {
        var dims := Dims(t, v).value;
        ArrayWrites(nul, t, dims, [v]);
        assert v in [v];
        if Sized(nul, t, dims, v) {
          SizedDims(nul, t, dims, v);
        }
      }
      forall dims | Lengths(t, dims) && Sized(nul, t, dims, v) ensures Dims(t, v) == Ok(dims) {
        SizedDims(nul, t, dims, v);
      }
    }
  }

  lemma ListCases(nul: Option<seq<byte>>, t: Type, v: Value)
    requires HasType(t, v) && t.ListOf? && v.ListV? && v.items != []
    ensures Enc(nul, t, v).Ok? <==> Oid(t).Ok? && Dims(t, v).Ok? && EncArray(nul, t, Dims(t, v).value, [v]).Ok?
  {
    hide Dims, EncArray;
  }

  lemma {:induction false} FieldsWrite(nul: Option<seq<byte>>, ts: seq<Type>, vs: seq<Value>)
    requires |ts| == |vs| && forall i | 0 <= i < |vs| :: HasType(ts[i], vs[i])
    ensures EncFields(nul, ts, vs).Ok? <==> forall i | 0 <= i < |vs| :: Tagged(ts[i]) && Writable(nul, ts[i], vs[i])
    decreases ts, 3, 0
  {
    FieldsCases(nul, ts, vs);
    hide Enc, EncFields, Oid, Writable, HasType, Tagged;
    if ts != [] {
      TaggedHasOid(ts[0]);
      Writes(nul, ts[0], vs[0]);
      FieldsWrite(nul, ts[1..], vs[1..]);
      if forall i | 0 <= i < |vs| - 1 :: Tagged(ts[1..][i]) && Writable(nul, ts[1..][i], vs[1..][i]) {
        forall i | 0 < i < |vs| ensures Tagged(ts[i]) && Writable(nul, ts[i], vs[i]) {
          assert ts[1..][i - 1] == ts[i] && vs[1..][i - 1] == vs[i];
        }
      }
    }
  }

  lemma FieldsCases(nul: Option<seq<byte>>, ts: seq<Type>, vs: seq<Value>)
    requires |ts| == |vs| && forall i | 0 <= i < |vs| :: HasType(ts[i], vs[i])
    ensures ts == [] ==> EncFields(nul, ts, vs).Ok?
    ensures ts != [] ==> (EncFields(nul, ts, vs).Ok? <==>
            Oid(ts[0]).Ok? && Enc(nul, ts[0], vs[0]).Ok? && EncFields(nul, ts[1..], vs[1..]).Ok?)
  {
    hide Enc, Oid;
  }

  /** Main result: a value is written without an exception exactly if it is writable. */
  lemma {:induction false} Writes(nul: Option<seq<byte>>, t: Type, v: Value)
    requires HasType(t, v)
    ensures Enc(nul, t, v).Ok? <==> Writable(nul, t, v)
    decreases t, 2, 0
  {
    if v.NullV? {
    } else if t.ListOf? {
      ListWrites(nul, t, v);
    } else if t.StructOf? {
      FieldsWrite(nul, t.fields, v.fields);
      hide EncFields, Tagged, HasType;
    } else {
      ScalarWrites(nul, t, v);
    }
  }

  // -------------------------------------------------------------------------- rows

  ghost predicate RowWritable(nul: Option<seq<byte>>, ts: seq<Type>, row: seq<Value>) {
    IsRow(ts, row) && forall i | 0 <= i < |row| :: Writable(nul, ts[i], row[i])
  }

  lemma RowCases(nul: Option<seq<byte>>, ts: seq<Type>, row: seq<Value>)
    requires IsRow(ts, row)
    ensures ts != [] ==> IsRow(ts[1..], row[1..]) && HasType(ts[0], row[0])
    ensures ts == [] ==> EncColumns(nul, ts, row).Ok?
    ensures ts != [] ==> (EncColumns(nul, ts, row).Ok? <==> Enc(nul, ts[0], row[0]).Ok? && EncColumns(nul, ts[1..], row[1..]).Ok?)
    ensures ts != [] ==> (RowWritable(nul, ts, row) <==> Writable(nul, ts[0], row[0]) && RowWritable(nul, ts[1..], row[1..]))
  {
    hide Enc, Writable, HasType;
    if ts != [] && Writable(nul, ts[0], row[0]) && RowWritable(nul, ts[1..], row[1..]) {
      forall i | 0 < i < |row| ensures Writable(nul, ts[i], row[i]) {
        assert ts[1..][i - 1] == ts[i] && row[1..][i - 1] == row[i];
      }
    }
  }

  lemma {:induction false} RowWrites(nul: Option<seq<byte>>, ts: seq<Type>, row: seq<Value>)
    requires IsRow(ts, row)
    ensures EncColumns(nul, ts, row).Ok? <==> RowWritable(nul, ts, row)
    decreases |ts|
  {
    RowCases(nul, ts, row);
    if ts != [] {
      hide *;
      Writes(nul, ts[0], row[0]);
      RowWrites(nul, ts[1..], row[1..]);
    } else {
      assert row == [];
    }
  }

  /** Rows are written exactly if each of their values is writable. */
  lemma {:induction false} RowsWrite(nul: Option<seq<byte>>, ts: seq<Type>, rows: seq<seq<Value>>)
    requires forall r | r in rows :: IsRow(ts, r)
    ensures EncRowsBytes(nul, ts, rows).Ok? <==> forall r | r in rows :: RowWritable(nul, ts, r)
    decreases |rows|
  {
    hide EncColumns, RowWritable, IsRow;
    if rows != [] {
      RowWrites(nul, ts, rows[0]);
      RowsWrite(nul, ts, rows[1..]);
      HeadAndTail(rows);
      assert forall r | r in rows :: r == rows[0] || r in rows[1..];
    }
  }
}
