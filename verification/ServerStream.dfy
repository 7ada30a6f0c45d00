/** A binary COPY stream as the server takes it ("Binary Format" of the PostgreSQL COPY
    command): signature, flags, header extension, counted rows, trailer. */
module ServerStream {
  import opened Wrappers
  import opened Bytes
  import opened NestedLists
  import opened WireFormat
  import opened WireRoundTrip
  import opened RowFormat
  import opened ServerFormat

  /** "PGCOPY", newline, 255, carriage return, newline, NUL. */
  const SIGNATURE: seq<byte> :=
    ['P' as int, 'G' as int, 'C' as int, 'O' as int, 'P' as int, 'Y' as int, '\n' as int, 255, '\r' as int, '\n' as int, 0]

  function ReceiveCells(ts: seq<Type>, s: seq<byte>): (r: Option<(seq<Value>, nat)>)
    ensures r.Some? ==> |r.value.0| == |ts| && r.value.1 <= |s|
    decreases |ts|
  {
    if ts == [] then Some(([], 0))
    else
      var first := ReceiveField(ts[0], s);
      if first.None? then None
      else
        var (v, k) := first.value;
        var more := ReceiveCells(ts[1..], s[k..]);
        if more.None? then None else Some(([v] + more.value.0, k + more.value.1))
  }

  /** Rows of as many fields as there are columns, up to the trailer, which ends the
      stream. */
  function ReceiveRows(ts: seq<Type>, s: seq<byte>): Option<seq<seq<Value>>>
    decreases |s|
  {
    if |s| < 2 then None
    else
      var count := Signed(s[..2]);
      if count == -1 then if |s| == 2 then Some([]) else None
      else if count != |ts| then None
      else
        var row := ReceiveCells(ts, s[2..]);
        if row.None? then None
        else
          var more := ReceiveRows(ts, s[2 + row.value.1..]);
          if more.None? then None else Some([row.value.0] + more.value)
  }

  /** The body of a stream: behind a header without critical flags, whose extension is
      skipped. */
  function ReceiveHeader(s: seq<byte>): Option<seq<byte>> {
    if |s| < 19 || s[..11] != SIGNATURE || Val(s[11..][..4]) >= 0x1_0000 then None
    else
      var extension := Val(s[15..][..4]);
      if |s| < 19 + extension then None else Some(s[19 + extension..])
  }

  function ReceiveStream(ts: seq<Type>, s: seq<byte>): Option<seq<seq<Value>>> {
    match ReceiveHeader(s)
    case None => None
    case Some(body) => ReceiveRows(ts, body)
  }

  // ------------------------------------------------------------ what is sent arrives

  lemma {:induction false} CellsReceived(nul: Option<seq<byte>>, ts: seq<Type>, vs: seq<Value>, tail: seq<byte>)
    requires IsRow(ts, vs) && Usable(nul)
    requires EncColumns(nul, ts, vs).Ok? && |EncColumns(nul, ts, vs).value| <= INT32_MAX
    ensures ReceiveCells(ts, EncColumns(nul, ts, vs).value + tail)
            == Some((ReplacedFields(nul, ts, vs), |EncColumns(nul, ts, vs).value|))
    decreases |ts|
  {
    hide *;
    RowCases(ts, vs);
    EncColumnsSteps(nul, ts, vs);
    ReplacedRowSteps(nul, ts, vs);
    if ts == [] {
      NoCells(EncColumns(nul, ts, vs).value + tail);
    } else {
      var x, y := Enc(nul, ts[0], vs[0]).value, EncColumns(nul, ts[1..], vs[1..]).value;
      ServerReceives(nul, ts[0], vs[0], y + tail);
      CellsReceived(nul, ts[1..], vs[1..], tail);
      Regrouped(x, y, tail);
      assert (x + (y + tail))[|x|..] == y + tail;
      CellsStep(ts, x + (y + tail), Replaced(nul, ts[0], vs[0]), |x|, ReplacedFields(nul, ts[1..], vs[1..]), |y|);
    }
  }

  lemma NoCells(s: seq<byte>)
    ensures ReceiveCells([], s) == Some(([], 0))
  {
  }

  lemma CellsStep(ts: seq<Type>, s: seq<byte>, v: Value, k: nat, vs: seq<Value>, m: nat)
    requires ts != [] && k <= |s| && ReceiveField(ts[0], s) == Some((v, k)) && ReceiveCells(ts[1..], s[k..]) == Some((vs, m))
    ensures ReceiveCells(ts, s) == Some(([v] + vs, k + m))
  {
    hide ReceiveField;
  }

  lemma TrailerReceived(ts: seq<Type>)
    ensures ReceiveRows(ts, Put(2, -1)) == Some([])
  {
    Sizes();
    SignedPut(2, -1);
    assert Put(2, -1)[..2] == Put(2, -1);
  }

  lemma RowSplit(n: nat, cols: seq<byte>, rest: seq<byte>)
    requires n < 0x8000
    ensures var s := Put(2, n) + cols + rest;
            |s| >= 2 + |cols| && Signed(s[..2]) == n && s[2..] == cols + rest && s[2 + |cols|..] == rest
  {
    var s := Put(2, n) + cols + rest;
    Sizes();
    SignedPut(2, n);
    assert s[..2] == Put(2, n);
  }

  lemma RowsCons(ts: seq<Type>, s: seq<byte>, row: seq<Value>, k: nat, rows: seq<seq<Value>>)
    requires |s| >= 2 + k && Signed(s[..2]) == |ts| && ReceiveCells(ts, s[2..]) == Some((row, k))
    requires ReceiveRows(ts, s[2 + k..]) == Some(rows)
    ensures ReceiveRows(ts, s) == Some([row] + rows)
  {
    hide ReceiveCells, ReceiveField, Receive, Signed, Val, Pow;
    var cells, rest := s[2..], s[2 + k..];
    assert ReceiveCells(ts, cells) == Some((row, k)) && ReceiveRows(ts, rest) == Some(rows);
  }

  lemma RowsStep(ts: seq<Type>, cols: seq<byte>, row: seq<Value>, rest: seq<byte>)
    requires 0 < |ts| < 0x8000 && ReceiveCells(ts, cols + rest) == Some((row, |cols|)) && ReceiveRows(ts, rest).Some?
    ensures ReceiveRows(ts, Put(2, |ts|) + cols + rest) == Some([row] + ReceiveRows(ts, rest).value)
  {
    hide *;
    RowSplit(|ts|, cols, rest);
    RowsCons(ts, Put(2, |ts|) + cols + rest, row, |cols|, ReceiveRows(ts, rest).value);
  }

  lemma {:induction false} RowsReceived(nul: Option<seq<byte>>, ts: seq<Type>, rows: seq<seq<Value>>)
    requires 0 < |ts| < 0x8000 && (forall r | r in rows :: IsRow(ts, r)) && Usable(nul)
    requires EncRowsBytes(nul, ts, rows).Ok?
    requires forall r | r in rows && EncColumns(nul, ts, r).Ok? :: |EncColumns(nul, ts, r).value| <= INT32_MAX
    ensures ReceiveRows(ts, EncRowsBytes(nul, ts, rows).value + Put(2, -1)) == Some(ReplacedRows(nul, ts, rows))
  {
    hide *;
    EncRowsSteps(nul, ts, rows);
    ReplacedRowsCons(nul, ts, rows);
    if rows == [] {
      TrailerReceived(ts);
      assert EncRowsBytes(nul, ts, rows).value + Put(2, -1) == Put(2, -1);
    } else {
      RowCases(ts, rows[0]);
      var cols, y := EncColumns(nul, ts, rows[0]).value, EncRowsBytes(nul, ts, rows[1..]).value;
      var rest := y + Put(2, -1);
      RowBytes(nul, ts, rows[0]);
      RowsReceived(nul, ts, rows[1..]);
      CellsReceived(nul, ts, rows[0], rest);
      RowsStep(ts, cols, ReplacedFields(nul, ts, rows[0]), rest);
      Regrouped(Put(2, |ts|) + cols, y, Put(2, -1));
    }
  }

  lemma RowBytes(nul: Option<seq<byte>>, ts: seq<Type>, row: seq<Value>)
    requires IsRow(ts, row) && EncColumns(nul, ts, row).Ok?
    ensures EncRowBytes(nul, ts, row) == Ok(Put(2, |ts|) + EncColumns(nul, ts, row).value)
  {
    hide EncColumns, Put;
  }

  /** Zero flags and no extension: the body is what follows. */
  lemma HeaderReceived(body: seq<byte>)
    ensures ReceiveHeader(COPY_HEADER + Put(4, 0) + Put(4, 0) + body) == Some(body)
  {
    var s := COPY_HEADER + Put(4, 0) + Put(4, 0) + body;
    Sizes();
    SignedPut(4, 0);
    assert s[..11] == COPY_HEADER && s[11..][..4] == Put(4, 0) && s[15..][..4] == Put(4, 0) && s[19..] == body;
    assert COPY_HEADER == SIGNATURE;
    hide Put, Val;
  }
}
