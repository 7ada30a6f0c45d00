/** The COPY protocol of an insert (src/storage/postgres_insert.cpp and
    src/postgres_copy_to.cpp): streams are opened on demand, filled chunk by chunk
    and closed per chunk or at the end. The server sees complete streams whose rows
    are exactly the rows sunk. */
module CopyLifecycle {
  import opened Wrappers
  import opened Bytes
  import opened NestedLists
  import opened WireFormat
  import opened WireRoundTrip
  import opened Vectors
  import opened RowFormat
  import opened BinaryWriter
  import opened BinaryParser
  import opened FileReader
  import opened ServerStream
  import Writability

  // ----------------------------------------------------------- rows of a chunk

  /** A chunk of size rows; its columns are the fields of a struct vector. */
  predicate IsChunk(t: Type, chunk: Vec, size: nat) {
    t.StructOf? && chunk.StructVec? && Shape(t, chunk) && Typed(t, chunk) && size <= |chunk.valid|
  }

  function RowsFrom(t: Type, chunk: Vec, r: nat, count: nat): (rows: seq<seq<Value>>)
    requires IsChunk(t, chunk, r + count)
    ensures |rows| == count && forall row | row in rows :: IsRow(t.fields, row)
  {
    RowsTyped(t, chunk);
    seq(count, i requires 0 <= i < count => FieldsFrom(t, chunk, r + i, 0))
  }

  lemma RowsTyped(t: Type, chunk: Vec)
    requires IsChunk(t, chunk, 0)
    ensures forall r: nat | r < |chunk.valid| :: IsRow(t.fields, FieldsFrom(t, chunk, r, 0))
  {
    forall r: nat | r < |chunk.valid| ensures IsRow(t.fields, FieldsFrom(t, chunk, r, 0)) {
      TypedFields(t, chunk, r, 0);
      assert t.fields[0..] == t.fields;
    }
  }

  /** The fields of one row from the k-th column on. */
  function EncColumnsFrom(nul: Option<seq<byte>>, t: Type, chunk: Vec, r: nat, k: nat): Result<seq<byte>>
    requires IsChunk(t, chunk, r + 1) && k <= |chunk.fields|
  {
    TypedFields(t, chunk, r, k);
    EncColumns(nul, t.fields[k..], FieldsFrom(t, chunk, r, k))
  }

  lemma ColumnsStep(nul: Option<seq<byte>>, t: Type, chunk: Vec, r: nat, k: nat)
    requires IsChunk(t, chunk, r + 1) && k < |chunk.fields|
    ensures EncColumnsFrom(nul, t, chunk, r, k) == Then(EncRow(nul, t.fields[k], chunk.fields[k], r), EncColumnsFrom(nul, t, chunk, r, k + 1))
  {
    TypedFields(t, chunk, r, k);
    TypedFields(t, chunk, r, k + 1);
    TypedAt(t.fields[k], chunk.fields[k], r);
    assert t.fields[k..][1..] == t.fields[k + 1..];
    assert FieldsFrom(t, chunk, r, k)[1..] == FieldsFrom(t, chunk, r, k + 1);
    assert FieldsFrom(t, chunk, r, k)[0] == At(t.fields[k], chunk.fields[k], r);
    hide Enc, At, FieldsFrom;
  }

  lemma ColumnsDone(nul: Option<seq<byte>>, t: Type, chunk: Vec, r: nat)
    requires IsChunk(t, chunk, r + 1)
    ensures EncColumnsFrom(nul, t, chunk, r, |chunk.fields|) == Ok([])
  {
  }

  function EncOneRow(nul: Option<seq<byte>>, t: Type, chunk: Vec, r: nat): Result<seq<byte>>
    requires IsChunk(t, chunk, r + 1)
  {
    RowsTyped(t, chunk);
    EncRowBytes(nul, t.fields, FieldsFrom(t, chunk, r, 0))
  }

  lemma OneRow(nul: Option<seq<byte>>, t: Type, chunk: Vec, r: nat)
    requires IsChunk(t, chunk, r + 1)
    ensures EncOneRow(nul, t, chunk, r) == Then(Ok(Put(2, |chunk.fields|)), EncColumnsFrom(nul, t, chunk, r, 0))
  {
    assert t.fields[0..] == t.fields;
    hide EncColumns, Put;
  }

  /** What CopyChunk sends for a chunk. */
  function ChunkBytes(nul: Option<seq<byte>>, t: Type, chunk: Vec, size: nat): Result<seq<byte>>
    requires IsChunk(t, chunk, size)
  {
    EncRowsBytes(nul, t.fields, RowsFrom(t, chunk, 0, size))
  }

  lemma RowsStep(nul: Option<seq<byte>>, t: Type, chunk: Vec, r: nat, count: nat)
    requires IsChunk(t, chunk, r + count) && count > 0
    ensures EncRowsBytes(nul, t.fields, RowsFrom(t, chunk, r, count))
            == Then(EncOneRow(nul, t, chunk, r), EncRowsBytes(nul, t.fields, RowsFrom(t, chunk, r + 1, count - 1)))
  {
    RowsTyped(t, chunk);
    assert RowsFrom(t, chunk, r, count)[1..] == RowsFrom(t, chunk, r + 1, count - 1);
    hide EncRowBytes, FieldsFrom;
  }

  lemma RowsNone(nul: Option<seq<byte>>, t: Type, chunk: Vec, r: nat)
    requires IsChunk(t, chunk, r)
    ensures EncRowsBytes(nul, t.fields, RowsFrom(t, chunk, r, 0)) == Ok([])
  {
  }

  method WriteColumns(writer: BinaryWriter, t: Type, chunk: Vec, r: nat) returns (o: Outcome)
    requires IsChunk(t, chunk, r + 1)
    modifies writer
    ensures Emits(EncColumnsFrom(writer.nul, t, chunk, r, 0), old(writer.stream), writer.stream, o)
  {
    ghost var nul, before := writer.nul, writer.stream;
    ghost var all := EncColumnsFrom(nul, t, chunk, r, 0);
    ghost var done: seq<byte> := [];
    ColumnsDone(nul, t, chunk, r);
    OweAll(all, before);
    hide EncColumnsFrom, EncRow, Then, Owes, Emits;
    var c := 0;
    while c < |chunk.fields|
      invariant 0 <= c <= |chunk.fields|
      invariant Owes(all, before, writer.stream, done, EncColumnsFrom(nul, t, chunk, r, c))
    {
      ghost var now := writer.stream;
      ColumnsStep(nul, t, chunk, r, c);
      o := writer.WriteValue(t.fields[c], chunk.fields[c], r);
      done := Advance(all, before, now, writer.stream, done, EncRow(nul, t.fields[c], chunk.fields[c], r),
                      EncColumnsFrom(nul, t, chunk, r, c + 1), o);
      if o.Fail? {
        return;
      }
      c := c + 1;
    }
    o := Pass;
    Settled(all, before, writer.stream, done);
  }

  method WriteRow(writer: BinaryWriter, t: Type, chunk: Vec, r: nat) returns (o: Outcome)
    requires IsChunk(t, chunk, r + 1)
    modifies writer
    ensures Emits(EncOneRow(writer.nul, t, chunk, r), old(writer.stream), writer.stream, o)
  {
    OneRow(writer.nul, t, chunk, r);
    hide EncOneRow, EncColumnsFrom, Put;
    writer.BeginRow(|chunk.fields|);
    ghost var now, cols := writer.stream, EncColumnsFrom(writer.nul, t, chunk, r, 0);
    o := WriteColumns(writer, t, chunk, r);
    if cols.Ok? {
      Regrouped(old(writer.stream), Put(2, |chunk.fields|), cols.value);
    }
  }

  /** The row loop of CopyChunk. */
  method WriteRows(writer: BinaryWriter, t: Type, chunk: Vec, size: nat) returns (o: Outcome)
    requires IsChunk(t, chunk, size)
    modifies writer
    ensures Emits(ChunkBytes(writer.nul, t, chunk, size), old(writer.stream), writer.stream, o)
  {
    ghost var nul, before := writer.nul, writer.stream;
    ghost var all := ChunkBytes(nul, t, chunk, size);
    ghost var done: seq<byte> := [];
    RowsNone(nul, t, chunk, size);
    OweAll(all, before);
    hide EncRowsBytes, EncOneRow, RowsFrom, Then, Owes, Emits;
    var r := 0;
    while r < size
      invariant 0 <= r <= size
      invariant Owes(all, before, writer.stream, done, EncRowsBytes(nul, t.fields, RowsFrom(t, chunk, r, size - r)))
    {
      ghost var now := writer.stream;
      RowsStep(nul, t, chunk, r, size - r);
      o := WriteRow(writer, t, chunk, r);
      done := Advance(all, before, now, writer.stream, done, EncOneRow(nul, t, chunk, r),
                      EncRowsBytes(nul, t.fields, RowsFrom(t, chunk, r + 1, size - r - 1)), o);
      if o.Fail? {
        return;
      }
      r := r + 1;
    }
    o := Pass;
    Settled(all, before, writer.stream, done);
  }

  // ------------------------------------------------------------- the connection

  /** What the server has received: complete COPY streams, and the one being sent. */
  class Connection {
    const nul: Option<seq<byte>>
    var received: seq<seq<byte>>
    var stream: seq<byte>
    var copying: bool

    constructor (nul: Option<seq<byte>>)
      ensures received == [] && !copying && this.nul == nul
    {
      this.nul := nul;
      received, stream, copying := [], [], false;
    }

    method BeginCopyTo()
      requires !copying
      modifies this
      ensures copying && stream == Header() && received == old(received)
    {
      copying, stream := true, [];
      var writer := new BinaryWriter(nul);
      writer.WriteHeader();
      CopyData(writer.stream);
    }

    method CopyData(b: seq<byte>)
      requires copying
      modifies this
      ensures copying && stream == old(stream) + b && received == old(received)
    {
      stream := stream + b;
    }

    /** CopyChunk: nothing of the chunk is sent unless all of it could be written. */
    method CopyChunk(t: Type, chunk: Vec, size: nat) returns (o: Outcome)
      requires copying && IsChunk(t, chunk, size)
      modifies this
      ensures copying && received == old(received)
      ensures Emits(ChunkBytes(nul, t, chunk, size), old(stream), stream, o)
      ensures o.Fail? ==> stream == old(stream)
    {
      var writer := new BinaryWriter(nul);
      hide ChunkBytes;
      o := WriteRows(writer, t, chunk, size);
      if o.Pass? {
        CopyData(writer.stream);
      }
    }

    method FinishCopyTo()
      requires copying
      modifies this
      ensures !copying && received == old(received) + [old(stream) + Footer()]
    {
      var writer := new BinaryWriter(nul);
      writer.WriteFooter();
      assert writer.stream == Footer();
      CopyData(writer.stream);
      received, copying := received + [stream], false;
    }
  }

  // ----------------------------------------------------------- streams and rows

  /** The bytes are the header and the rows of a COPY stream. */
  predicate Carries(nul: Option<seq<byte>>, ts: seq<Type>, rows: seq<seq<Value>>, s: seq<byte>) {
    && (forall r | r in rows :: IsRow(ts, r))
    && EncRowsBytes(nul, ts, rows).Ok?
    && s == Header() + EncRowsBytes(nul, ts, rows).value
  }

  /** The bytes are a complete COPY stream of the rows: header, rows, footer. */
  predicate IsStream(nul: Option<seq<byte>>, ts: seq<Type>, rows: seq<seq<Value>>, s: seq<byte>) {
    |s| >= 2 && s[|s| - 2..] == Footer() && Carries(nul, ts, rows, s[..|s| - 2])
  }

  lemma StreamStarts(nul: Option<seq<byte>>, ts: seq<Type>)
    ensures Carries(nul, ts, [], Header())
  {
    assert Header() + [] == Header();
  }

  lemma StreamGrows(nul: Option<seq<byte>>, ts: seq<Type>, a: seq<seq<Value>>, b: seq<seq<Value>>, s: seq<byte>, after: seq<byte>)
    requires Carries(nul, ts, a, s) && (forall r | r in b :: IsRow(ts, r))
    requires EncRowsBytes(nul, ts, b).Ok? && after == s + EncRowsBytes(nul, ts, b).value
    ensures Carries(nul, ts, a + b, after)
  {
    hide EncRowsBytes, Header, IsRow;
    EncRowsAppend(nul, ts, a, b);
    Regrouped(Header(), EncRowsBytes(nul, ts, a).value, EncRowsBytes(nul, ts, b).value);
  }

  lemma StreamEnds(nul: Option<seq<byte>>, ts: seq<Type>, rows: seq<seq<Value>>, s: seq<byte>)
    requires Carries(nul, ts, rows, s)
    ensures IsStream(nul, ts, rows, s + Footer())
  {
    hide Carries;
    assert (s + Footer())[..|s|] == s;
  }

  function Flatten<T>(xss: seq<seq<T>>): seq<T> {
    if xss == [] then [] else Flatten(xss[..|xss| - 1]) + xss[|xss| - 1]
  }

  lemma FlattenLast<T>(xss: seq<seq<T>>, xs: seq<T>)
    ensures Flatten(xss + [xs]) + [] == Flatten(xss) + xs
  {
    assert (xss + [xs])[..|xss + [xs]| - 1] == xss;
  }

  lemma {:induction false} EncRowsAppend(nul: Option<seq<byte>>, ts: seq<Type>, a: seq<seq<Value>>, b: seq<seq<Value>>)
    requires (forall r | r in a :: IsRow(ts, r)) && (forall r | r in b :: IsRow(ts, r))
    requires EncRowsBytes(nul, ts, a).Ok? && EncRowsBytes(nul, ts, b).Ok?
    ensures forall r | r in a + b :: IsRow(ts, r)
    ensures EncRowsBytes(nul, ts, a + b) == Ok(EncRowsBytes(nul, ts, a).value + EncRowsBytes(nul, ts, b).value)
  {
    hide *;
    EncRowsSteps(nul, ts, a);
    if a == [] {
      assert a + b == b;
      assert [] + EncRowsBytes(nul, ts, b).value == EncRowsBytes(nul, ts, b).value;
    } else {
      EncRowsAppend(nul, ts, a[1..], b);
      var c := a + b;
      assert c[1..] == a[1..] + b && c[0] == a[0];
      Regrouped(EncRowBytes(nul, ts, a[0]).value, EncRowsBytes(nul, ts, a[1..]).value, EncRowsBytes(nul, ts, b).value);
      RowThenRows(nul, ts, c);
    }
  }

  lemma RowThenRows(nul: Option<seq<byte>>, ts: seq<Type>, rows: seq<seq<Value>>)
    requires rows != [] && (forall r | r in rows :: IsRow(ts, r))
    requires EncRowBytes(nul, ts, rows[0]).Ok? && EncRowsBytes(nul, ts, rows[1..]).Ok?
    ensures EncRowsBytes(nul, ts, rows) == Ok(EncRowBytes(nul, ts, rows[0]).value + EncRowsBytes(nul, ts, rows[1..]).value)
  {
    hide EncRowBytes;
  }

  // ---------------------------------------------------- what the server decodes

  /** A setting Initialize accepts, and rows that stay below 2 GiB. */
  predicate Sendable(nul: Option<seq<byte>>, ts: seq<Type>, rows: seq<seq<Value>>) {
    && 0 < |ts| < 0x8000 && Usable(nul)
    && (forall r | r in rows :: IsRow(ts, r))
    && (forall r | r in rows && EncColumns(nul, ts, r).Ok? :: |EncColumns(nul, ts, r).value| <= INT32_MAX)
  }

  lemma StreamParts(nul: Option<seq<byte>>, ts: seq<Type>, rows: seq<seq<Value>>, s: seq<byte>)
    requires IsStream(nul, ts, rows, s)
    ensures (forall r | r in rows :: IsRow(ts, r)) && EncRowsBytes(nul, ts, rows).Ok?
    ensures s == Header() + (EncRowsBytes(nul, ts, rows).value + Footer())
  {
    hide EncRowsBytes, IsRow, Put, Header, Footer;
    assert s == s[..|s| - 2] + s[|s| - 2..];
    Regrouped(Header(), EncRowsBytes(nul, ts, rows).value, Footer());
  }

  /** A complete stream is received, by the binary format, as the rows it was made of,
      with their NULs replaced. */
  lemma StreamReceived(nul: Option<seq<byte>>, ts: seq<Type>, rows: seq<seq<Value>>, s: seq<byte>)
    requires IsStream(nul, ts, rows, s) && Sendable(nul, ts, rows)
    ensures forall r | r in rows :: IsRow(ts, r)
    ensures ReceiveStream(ts, s) == Some(ReplacedRows(nul, ts, rows))
  {
    StreamParts(nul, ts, rows, s);
    var body := EncRowsBytes(nul, ts, rows).value + Footer();
    hide EncRowsBytes, EncColumns, IsRow, Put, ReceiveRows, ReceiveHeader, IsStream;
    RowsReceived(nul, ts, rows);
    HeaderReceived(body);
  }

  /** The connector's own reader finds the same rows in it. */
  lemma StreamParses(nul: Option<seq<byte>>, cfg: Config, ts: seq<Type>, rows: seq<seq<Value>>, s: seq<byte>)
    requires IsStream(nul, ts, rows, s) && Sendable(nul, ts, rows)
    ensures |s| >= HEADER_SIZE && s[..|COPY_HEADER|] == COPY_HEADER && forall r | r in rows :: IsRow(ts, r)
    ensures WellFormed(cfg, ts, s[HEADER_SIZE..]) && Table(cfg, ts, s[HEADER_SIZE..]) == ReplacedRows(nul, ts, rows)
  {
    StreamParts(nul, ts, rows, s);
    hide WellFormed, Table, EncRowsBytes, EncColumns, IsRow, Put, Header, IsStream;
    FileRoundTrip(nul, cfg, ts, rows);
    HeaderFirst(EncRowsBytes(nul, ts, rows).value + Footer());
  }

  lemma HeaderFirst(rest: seq<byte>)
    ensures var s := Header() + rest;
            |s| >= HEADER_SIZE && s[..|COPY_HEADER|] == COPY_HEADER && s[HEADER_SIZE..] == rest
  {
    assert |COPY_HEADER| == 11;
    hide Put;
  }

  /** The rows of all streams, as the server receives them; none if one is malformed. */
  function Received(ts: seq<Type>, streams: seq<seq<byte>>): Option<seq<seq<Value>>> {
    if streams == [] then Some([])
    else
      var n := |streams| - 1;
      var front, last := Received(ts, streams[..n]), ReceiveStream(ts, streams[n]);
      if front.None? || last.None? then None else Some(front.value + last.value)
  }

  lemma {:induction false} StreamsReceived(nul: Option<seq<byte>>, ts: seq<Type>, batches: seq<seq<seq<Value>>>, streams: seq<seq<byte>>)
    requires |batches| == |streams| && forall i | 0 <= i < |streams| :: IsStream(nul, ts, batches[i], streams[i])
    requires Sendable(nul, ts, Flatten(batches))
    ensures forall r | r in Flatten(batches) :: IsRow(ts, r)
    ensures Received(ts, streams) == Some(ReplacedRows(nul, ts, Flatten(batches)))
  {
    hide ReceiveStream, EncRowsBytes, EncColumns, IsRow, IsStream, ReplacedFields;
    if streams != [] {
      var k := |streams| - 1;
      var front, last := Flatten(batches[..k]), batches[k];
      assert forall r | r in last || r in front :: r in Flatten(batches);
      StreamsReceived(nul, ts, batches[..k], streams[..k]);
      StreamReceived(nul, ts, last, streams[k]);
      assert ReplacedRows(nul, ts, front + last) == ReplacedRows(nul, ts, front) + ReplacedRows(nul, ts, last);
    }
  }

  /** The state an insert keeps between its sinks (PostgresInsertCopyGlobalState). */
  class CopySink {
    const connection: Connection
    const t: Type
    const keepCopyAlive: bool
    var copyIsActive: bool
    var insertCount: nat
    ghost var streams: seq<seq<seq<Value>>>
    ghost var current: seq<seq<Value>>

    /** Everything received is complete and accounted for. */
    ghost predicate Consistent()
      reads this, connection
    {
      && t.StructOf? && connection.copying == copyIsActive
      && |streams| == |connection.received|
      && (forall i | 0 <= i < |streams| :: IsStream(connection.nul, t.fields, streams[i], connection.received[i]))
      && (if copyIsActive then Carries(connection.nul, t.fields, current, connection.stream) else current == [])
      && insertCount == |Sunk()|
    }

    /** ... and between sinks a COPY is open only if it may be kept. */
    ghost predicate Valid()
      reads this, connection
    {
      Consistent() && (!keepCopyAlive ==> !copyIsActive)
    }

    /** Every row sunk so far, in order. */
    ghost function Sunk(): seq<seq<Value>>
      reads this
    {
      Flatten(streams) + current
    }

    constructor (connection: Connection, columns: seq<Type>, keepCopyAlive: bool)
      requires !connection.copying && connection.received == []
      ensures Valid() && Sunk() == [] && insertCount == 0
      ensures this.connection == connection && t == StructOf(columns) && this.keepCopyAlive == keepCopyAlive
    {
      this.connection, t, this.keepCopyAlive := connection, StructOf(columns), keepCopyAlive;
      copyIsActive, insertCount := false, 0;
      streams, current := [], [];
    }

    /** SinkCopy. Without keepCopyAlive no COPY is open when it returns. */
    method SinkCopy(chunk: Vec, size: nat) returns (o: Outcome)
      requires Valid() && IsChunk(t, chunk, size)
      requires ChunkBytes(connection.nul, t, chunk, size) != Err(Unmodelled)
      modifies this, connection
      ensures o.Pass? ==> Valid() && Sunk() == old(Sunk()) + RowsFrom(t, chunk, 0, size)
      ensures o.Pass? ==> insertCount == old(insertCount) + size && copyIsActive == keepCopyAlive
      ensures o.Pass? ==> |connection.received| == |old(connection.received)| + if keepCopyAlive then 0 else 1
      ensures o.Pass? <==> ChunkBytes(connection.nul, t, chunk, size).Ok?
    {
      ghost var rows := RowsFrom(t, chunk, 0, size);
      hide IsStream, Carries, IsChunk, EncRowsBytes, IsRow, Flatten;
      if !copyIsActive {
        connection.BeginCopyTo();
        copyIsActive := true;
        StreamStarts(connection.nul, t.fields);
      }
      ghost var before := connection.stream;
      o := connection.CopyChunk(t, chunk, size);
      if o.Fail? {
        return;
      }
      StreamGrows(connection.nul, t.fields, current, rows, before, connection.stream);
      Regrouped(Flatten(streams), current, rows);
      current := current + rows;
      insertCount := insertCount + size;
      if !keepCopyAlive {
        FinishCopyTo();
      }
    }

    /** FinalizeCopy ends with this too: an open stream gets its footer. */
    method FinishCopyTo()
      requires Consistent()
      modifies this, connection
      ensures Valid() && !copyIsActive
      ensures |connection.received| == |old(connection.received)| + if old(copyIsActive) then 1 else 0
      ensures Sunk() == old(Sunk()) && insertCount == old(insertCount)
    {
      if !copyIsActive {
        return;
      }
      hide Carries, IsStream;
      StreamEnds(connection.nul, t.fields, current, connection.stream);
      FlattenLast(streams, current);
      connection.FinishCopyTo();
      copyIsActive := false;
      streams, current := streams + [current], [];
    }
  }

  /** The rows of all chunks. */
  function AllRows(t: Type, chunks: seq<(Vec, nat)>): seq<seq<Value>>
    requires forall c | c in chunks :: IsChunk(t, c.0, c.1)
  {
    if chunks == [] then []
    else
      var c := chunks[|chunks| - 1];
      assert c in chunks;
      AllRows(t, chunks[..|chunks| - 1]) + RowsFrom(t, c.0, 0, c.1)
  }

  lemma AllRowsStep(t: Type, chunks: seq<(Vec, nat)>, i: nat)
    requires i < |chunks| && forall c | c in chunks :: IsChunk(t, c.0, c.1)
    ensures chunks[i] in chunks
    ensures AllRows(t, chunks[..i + 1]) == AllRows(t, chunks[..i]) + RowsFrom(t, chunks[i].0, 0, chunks[i].1)
  {
    assert chunks[..i + 1][..i] == chunks[..i];
  }

  /** Every sink succeeds exactly if every chunk can be written. */
  method SinkAll(sink: CopySink, chunks: seq<(Vec, nat)>) returns (o: Outcome)
    requires sink.Valid() && sink.Sunk() == [] && !sink.copyIsActive && sink.connection.received == []
    requires forall c | c in chunks :: IsChunk(sink.t, c.0, c.1) && ChunkBytes(sink.connection.nul, sink.t, c.0, c.1) != Err(Unmodelled)
    modifies sink, sink.connection
    ensures o.Pass? <==> forall c | c in chunks :: ChunkBytes(sink.connection.nul, sink.t, c.0, c.1).Ok?
    ensures o.Pass? ==> sink.Valid() && sink.Sunk() == AllRows(sink.t, chunks)
    ensures o.Pass? ==> sink.copyIsActive == (sink.keepCopyAlive && chunks != [])
    ensures o.Pass? ==> |sink.connection.received| == if sink.keepCopyAlive then 0 else |chunks|
  {
    hide ChunkBytes, AllRows, RowsFrom, IsChunk;
    var t, connection := sink.t, sink.connection;
    NoRows(t);
    assert chunks[..0] == [];
    var i := 0;
    while i < |chunks|
      invariant 0 <= i <= |chunks|
      invariant sink.Valid() && sink.Sunk() == AllRows(t, chunks[..i])
      invariant sink.copyIsActive == (sink.keepCopyAlive && i > 0)
      invariant |connection.received| == if sink.keepCopyAlive then 0 else i
      invariant forall j | 0 <= j < i :: ChunkBytes(connection.nul, t, chunks[j].0, chunks[j].1).Ok?
    {
      AllRowsStep(t, chunks, i);
      o := sink.SinkCopy(chunks[i].0, chunks[i].1);
      if o.Fail? {
        return;
      }
      i := i + 1;
    }
    assert chunks[..i] == chunks;
    o := Pass;
  }

  lemma NoRows(t: Type)
    ensures AllRows(t, []) == []
  {
  }

  lemma {:induction false} ChunksWrite(nul: Option<seq<byte>>, t: Type, chunks: seq<(Vec, nat)>)
    requires t.StructOf? && forall c | c in chunks :: IsChunk(t, c.0, c.1)
    ensures (forall c | c in chunks :: ChunkBytes(nul, t, c.0, c.1).Ok?)
            <==> forall r | r in AllRows(t, chunks) :: Writability.RowWritable(nul, t.fields, r)
    decreases |chunks|
  {
    hide IsChunk, EncRowsBytes, RowsFrom, IsRow;
    if chunks != [] {
      var n := |chunks| - 1;
      var c := chunks[n];
      assert c in chunks && forall x | x in chunks :: x == c || x in chunks[..n];
      ChunksWrite(nul, t, chunks[..n]);
      Writability.RowsWrite(nul, t.fields, RowsFrom(t, c.0, 0, c.1));
    }
  }

  /** Main result on inserts: any number of sinks and the finalize. If all succeed,
      the server has received complete streams only, one per chunk unless the COPY is
      kept alive, and has taken them as exactly the rows sunk, in order, with the NULs
      of their texts replaced as configured. */
  method Insert(nul: Option<seq<byte>>, columns: seq<Type>, chunks: seq<(Vec, nat)>, keepCopyAlive: bool)
    returns (o: Outcome, connection: Connection, insertCount: nat)
    requires forall c | c in chunks :: IsChunk(StructOf(columns), c.0, c.1) && ChunkBytes(nul, StructOf(columns), c.0, c.1) != Err(Unmodelled)
    ensures o.Pass? <==> forall r | r in AllRows(StructOf(columns), chunks) :: Writability.RowWritable(nul, columns, r)
    ensures o.Pass? ==> !connection.copying && insertCount == |AllRows(StructOf(columns), chunks)|
    ensures o.Pass? ==> |connection.received| == if !keepCopyAlive then |chunks| else if chunks != [] then 1 else 0
    ensures o.Pass? && Sendable(nul, columns, AllRows(StructOf(columns), chunks)) ==>
            && (forall r | r in AllRows(StructOf(columns), chunks) :: IsRow(columns, r))
            && Received(columns, connection.received) == Some(ReplacedRows(nul, columns, AllRows(StructOf(columns), chunks)))
  {
    ChunksWrite(nul, StructOf(columns), chunks);
    connection := new Connection(nul);
    var sink := new CopySink(connection, columns, keepCopyAlive);
    hide ChunkBytes, AllRows, RowsFrom, IsChunk, IsStream, Carries, Sendable, Received, Flatten, ReplacedRows, IsRow;
    assert sink.connection.received == [] && !sink.copyIsActive;
    insertCount := 0;
    o := SinkAll(sink, chunks);
    if o.Pass? {
      sink.FinishCopyTo();
      insertCount := sink.insertCount;
      assert Flatten(sink.streams) + [] == Flatten(sink.streams);
      if Sendable(nul, columns, AllRows(StructOf(columns), chunks)) {
        StreamsReceived(nul, columns, sink.streams, connection.received);
      }
    }
  }

  /** Main result end to end: reading a complete stream back from a file, through any
      buffer that holds its header and each of its rows, gives the rows sent. */
  method ReadStream(nul: Option<seq<byte>>, cfg: Config, columns: seq<Type>, s: seq<byte>, bufferSize: nat, ghost rows: seq<seq<Value>>)
    returns (r: Result<seq<Value>>)
    requires IsStream(nul, columns, rows, s) && Sendable(nul, columns, rows) && bufferSize >= HEADER_SIZE
    ensures |s| >= HEADER_SIZE && forall r | r in rows :: IsRow(columns, r)
    ensures r == if RowsFit(s[HEADER_SIZE..], bufferSize) then Ok(Structs(ReplacedRows(nul, columns, rows))) else Err(RowTooLarge)
  {
    StreamParses(nul, cfg, columns, rows, s);
    hide WellFormed, Table, RowsFit, IsStream, Sendable, IsRow, ReplacedRows;
    r := ReadFile(s, bufferSize, columns, cfg);
  }
}
