/** PostgresBinaryFileReader (src/postgres_binary_file_reader.cpp): a file cut into
    buffers at row boundaries, with the partial row at the end of one buffer carried
    over to the next. For a well-formed file the chunks it hands out are the rows of
    the one-shot parse, whatever the buffer size. */
module FileReader {
  import opened Wrappers
  import opened Bytes
  import opened NestedLists
  import opened WireFormat
  import opened Vectors
  import opened RowFormat
  import opened BinaryParser

  /** What one fill does with the unread bytes p: nothing left, so many bytes for the
      parser, or a row that is too large. */
  datatype Fill = Exhausted | Hand(bytes: nat) | TooLarge

  function Min(a: nat, b: nat): nat {
    if a < b then a else b
  }

  /** FillBuffer as a function of the unread bytes. */
  function FillOf(p: seq<byte>, bufferSize: nat, headerScanned: bool): Fill {
    var total := Min(bufferSize, |p|);
    var skip := if headerScanned then 0 else Min(HEADER_SIZE, total);
    var valid := Scan(p[skip..total]);
    if total == 0 then Exhausted
    else if valid > 0 then Hand(skip + valid)
    else if total == |p| then Hand(total)
    else if skip > 0 then Hand(skip)
    else TooLarge
  }

  lemma FillSteps(p: seq<byte>, bufferSize: nat, headerScanned: bool)
    ensures var total := Min(bufferSize, |p|);
            var skip := if headerScanned then 0 else Min(HEADER_SIZE, total);
            var valid := Scan(p[skip..total]);
            && (total == 0 ==> FillOf(p, bufferSize, headerScanned) == Exhausted)
            && (valid > 0 ==> FillOf(p, bufferSize, headerScanned) == Hand(skip + valid) && skip + valid <= total)
            && (valid == 0 && total > 0 ==>
                  FillOf(p, bufferSize, headerScanned) ==
                  if total == |p| then Hand(total) else if skip > 0 then Hand(skip) else TooLarge)
  {
    assert Scan(p[0..0]) == 0;
    assert forall i | 0 <= i <= |p| :: |p[i..i]| == 0;
  }

  /** A fill hands over something, from what fits the buffer; it ends only when
      nothing is left, or no buffer was given. */
  lemma FillProgress(p: seq<byte>, bufferSize: nat, headerScanned: bool)
    ensures var f := FillOf(p, bufferSize, headerScanned);
            && (f.Hand? ==> 0 < f.bytes <= Min(bufferSize, |p|))
            && (f.Exhausted? <==> p == [] || bufferSize == 0)
  {
    var total := Min(bufferSize, |p|);
    var skip := if headerScanned then 0 else Min(HEADER_SIZE, total);
    assert Scan(p[skip..total]) <= total - skip;
  }

  // ------------------------------------------------------------ rows and buffers

  /** No row at the front of s, or behind it, exceeds n bytes. */
  predicate RowsFit(s: seq<byte>, n: nat)
    decreases |s|
  {
    RowLen(s).Some? ==> RowLen(s).value <= n && RowsFit(s[RowLen(s).value..], n)
  }

  lemma RowsFitSteps(s: seq<byte>, n: nat)
    ensures RowLen(s).None? ==> RowsFit(s, n)
    ensures RowLen(s).Some? ==> (RowsFit(s, n) <==> RowLen(s).value <= n && RowsFit(s[RowLen(s).value..], n))
  {
    hide RowLen;
  }

  /** The rows a scan passes over fit the buffer it scans. */
  lemma {:induction false} ScanFits(cfg: Config, ts: seq<Type>, p: seq<byte>, total: nat, n: nat)
    requires WellFormed(cfg, ts, p) && total <= |p| && total <= n
    ensures Scan(p[..total]) <= total
    ensures RowsFit(p, n) <==> RowsFit(p[Scan(p[..total])..], n)
    decreases |p|
  {
    hide *;
    WellFormedSteps(cfg, ts, p);
    Nothing(cfg, ts);
    RowsFitSteps(p, n);
    RowLenPrefix(p, total);
    ScanBound(p[..total]);
    ScanSteps(p[..total]);
    if RowLen(p).Some? && RowLen(p).value <= total {
      var m := RowLen(p).value;
      ScanFits(cfg, ts, p[m..], total - m, n);
      assert p[..total][m..] == p[m..][..total - m];
      var v := Scan(p[m..][..total - m]);
      assert p[m + v..] == p[m..][v..];
    } else if RowLen(p).None? && total == 2 {
      assert p[2..] == [];
      RowsFitSteps([], n);
    } else {
      assert p[0..] == p;
    }
  }

  lemma ScanBound(s: seq<byte>)
    ensures Scan(s) <= |s|
  {
  }

  /** A scan that finds nothing in all of a well-formed body: there is nothing. */
  lemma NothingFound(cfg: Config, ts: seq<Type>, p: seq<byte>)
    requires WellFormed(cfg, ts, p) && Scan(p) == 0
    ensures p == []
  {
    hide *;
    WellFormedSteps(cfg, ts, p);
    ScanSteps(p);
  }

  /** What one fill does to well-formed unread bytes: rows are split, none is lost,
      and it fails exactly when the next row exceeds the buffer. */
  lemma FillSplits(cfg: Config, ts: seq<Type>, p: seq<byte>, n: nat)
    requires WellFormed(cfg, ts, p) && n >= HEADER_SIZE
    ensures match FillOf(p, n, true)
            case Exhausted => p == []
            case TooLarge => RowLen(p).Some? && RowLen(p).value > n && !RowsFit(p, n)
            case Hand(v) =>
              && v <= |p|
              && WellFormed(cfg, ts, p[..v]) && WellFormed(cfg, ts, p[v..])
              && Table(cfg, ts, p) == Table(cfg, ts, p[..v]) + Table(cfg, ts, p[v..])
              && (RowsFit(p, n) <==> RowsFit(p[v..], n))
  {
    hide WellFormed, Table, Scan, RowLen, RowsFit;
    var total := Min(n, |p|);
    assert p[0..total] == p[..total];
    ScanSplits(cfg, ts, p, total);
    ScanFits(cfg, ts, p, total, n);
    RowsFitSteps(p, n);
    if Scan(p[..total]) == 0 && total == |p| {
      assert p[..total] == p;
      NothingFound(cfg, ts, p);
    }
  }

  /** The first fill takes the header along, and the header alone if need be. */
  lemma FirstFill(file: seq<byte>, n: nat)
    ensures var f := FillOf(file, n, false);
            && !f.TooLarge?
            && (f.Hand? ==> (f.bytes >= HEADER_SIZE <==> n >= HEADER_SIZE && |file| >= HEADER_SIZE))
  {
    FillProgress(file, n, false);
  }

  lemma FirstFillSplits(cfg: Config, ts: seq<Type>, file: seq<byte>, n: nat)
    requires n >= HEADER_SIZE && |file| >= HEADER_SIZE && WellFormed(cfg, ts, file[HEADER_SIZE..])
    ensures FillOf(file, n, false).Hand?
    ensures var v, body := FillOf(file, n, false).bytes, file[HEADER_SIZE..];
            && HEADER_SIZE <= v <= |file|
            && WellFormed(cfg, ts, file[HEADER_SIZE..v]) && WellFormed(cfg, ts, file[v..])
            && Table(cfg, ts, body) == Table(cfg, ts, file[HEADER_SIZE..v]) + Table(cfg, ts, file[v..])
            && (RowsFit(body, n) <==> RowsFit(file[v..], n))
  {
    hide WellFormed, Table, Scan, RowLen, RowsFit, FillOf;
    FillSteps(file, n, false);
    var total, body := Min(n, |file|), file[HEADER_SIZE..];
    var cut := total - HEADER_SIZE;
    assert file[HEADER_SIZE..total] == body[..cut];
    ScanSplits(cfg, ts, body, cut);
    ScanFits(cfg, ts, body, cut, n);
    Nothing(cfg, ts);
    if Scan(body[..cut]) == 0 && total == |file| {
      assert body[..cut] == body;
      NothingFound(cfg, ts, body);
    }
    Shifted(file, FillOf(file, n, false).bytes);
  }

  lemma Shifted(file: seq<byte>, v: nat)
    requires HEADER_SIZE <= v <= |file|
    ensures file[HEADER_SIZE..v] == file[HEADER_SIZE..][..v - HEADER_SIZE] && file[v..] == file[HEADER_SIZE..][v - HEADER_SIZE..]
  {
  }

  // -------------------------------------------------------------- chunks served

  /** out holds what chunk held and the rows of all that are no longer left. */
  ghost predicate Served(t: Type, all: seq<seq<Value>>, chunk: Vec, size: nat, out: Vec, n: nat, left: seq<seq<Value>>) {
    && OpenChunk(t, chunk, size) && OpenChunk(t, out, n)
    && size <= n <= size + |all| && left == all[n - size..]
    && Slice(t, out, 0, n) == Slice(t, chunk, 0, size) + Structs(all[..n - size])
  }

  lemma NothingServed(t: Type, all: seq<seq<Value>>, chunk: Vec, size: nat)
    requires OpenChunk(t, chunk, size)
    ensures Served(t, all, chunk, size, chunk, size, all)
  {
    hide Ready, Shape, Fresh, At;
    assert all[..0] == [] && all[0..] == all;
    assert Slice(t, chunk, 0, size) + Structs([]) == Slice(t, chunk, 0, size);
  }

  /** One call of the parser hands out the next rows. */
  lemma ServeMore(cfg: Config, t: Type, all: seq<seq<Value>>, chunk: Vec, size: nat, from: Vec, at: nat, before: seq<byte>,
                  unread: seq<byte>, after: seq<byte>, got: Result<bool>, out: Vec, n: nat)
    requires t.StructOf? && WellFormed(cfg, t.fields, before) && WellFormed(cfg, t.fields, unread)
    requires Served(t, all, chunk, size, from, at, Table(cfg, t.fields, before) + Table(cfg, t.fields, unread))
    requires Delivers(t, Parse(cfg, t.fields, before, VECTOR_SIZE - at), from, at, after, got, out, n)
    ensures got.Ok? && WellFormed(cfg, t.fields, after)
    ensures Served(t, all, chunk, size, out, n, Table(cfg, t.fields, after) + Table(cfg, t.fields, unread))
  {
    hide WellFormed, Table, Parse, OpenChunk, Slice, Structs;
    assert at <= VECTOR_SIZE by {
      OpenBound(t, from, at);
    }
    ParseIsTable(cfg, t.fields, before, VECTOR_SIZE - at);
    var a, b := Table(cfg, t.fields, before), Table(cfg, t.fields, unread);
    var k := n - at;
    assert all[at - size..][..k] == a[..k];
    assert all[n - size..] == a[k..] + b;
    assert all[..n - size] == all[..at - size] + a[..k];
    StructsAppend(all[..at - size], a[..k]);
    AppendServed(t, all, chunk, size, from, at, out, n, a[..k]);
  }

  lemma AppendServed(t: Type, all: seq<seq<Value>>, chunk: Vec, size: nat, from: Vec, at: nat, out: Vec, n: nat, more: seq<seq<Value>>)
    requires OpenChunk(t, chunk, size) && OpenChunk(t, from, at) && OpenChunk(t, out, n)
    requires size <= at <= n <= size + |all| && Structs(all[..n - size]) == Structs(all[..at - size]) + Structs(more)
    requires Slice(t, from, 0, at) == Slice(t, chunk, 0, size) + Structs(all[..at - size])
    requires Slice(t, out, 0, n) == Slice(t, from, 0, at) + Structs(more)
    ensures Slice(t, out, 0, n) == Slice(t, chunk, 0, size) + Structs(all[..n - size])
  {
    hide Slice, Structs, Ready, Shape, Fresh;
    Regrouped(Slice(t, chunk, 0, size), Structs(all[..at - size]), Structs(more));
  }

  /** With its buffer used up, the parser holds no rows. */
  lemma Drained(cfg: Config, ts: seq<Type>, unread: seq<byte>)
    requires WellFormed(cfg, ts, unread)
    ensures WellFormed(cfg, ts, []) && Table(cfg, ts, []) + Table(cfg, ts, unread) == Table(cfg, ts, unread)
    ensures unread == [] ==> Table(cfg, ts, unread) == []
  {
    Nothing(cfg, ts);
  }

  lemma OpenBound(t: Type, chunk: Vec, size: nat)
    requires OpenChunk(t, chunk, size)
    ensures size <= VECTOR_SIZE
  {
  }

  lemma NoStructs(all: seq<seq<Value>>)
    ensures Structs(all[..0]) == [] && all[0..] == all
  {
  }

  lemma EmptyChunk(t: Type)
    requires t.StructOf?
    ensures OpenChunk(t, NewVec(t, VECTOR_SIZE), 0)
  {
  }

  /** A chunk that started empty holds the next rows and nothing else. */
  lemma ServedChunk(t: Type, all: seq<seq<Value>>, k: nat, chunk: Vec, out: Vec, n: nat, left: seq<seq<Value>>)
    requires k <= |all| && Served(t, all[k..], chunk, 0, out, n, left)
    ensures k + n <= |all| && left == all[k + n..] && Shape(t, out) && n <= |out.valid|
    ensures Structs(all[..k + n]) == Structs(all[..k]) + Slice(t, out, 0, n)
  {
    hide Ready, Fresh, At, Structs;
    assert Slice(t, chunk, 0, 0) == [];
    assert all[k..][n..] == all[k + n..];
    assert all[..k + n] == all[..k] + all[k..][..n];
    StructsAppend(all[..k], all[k..][..n]);
  }

  lemma StructsAppend(a: seq<seq<Value>>, b: seq<seq<Value>>)
    ensures Structs(a + b) == Structs(a) + Structs(b)
  {
  }

  // ------------------------------------------------------- reading whole words

  lemma TwoBytes(a: byte, b: byte)
    ensures Val([a, b]) == (a as int) * 256 + b
  {
    assert [a, b][..|[a, b]| - 1] == [a] && Val([a]) == a;
  }

  lemma FourBytes(a: byte, b: byte, c: byte, d: byte)
    ensures Val([a, b, c, d]) == (((a as int) * 256 + b) * 256 + c) * 256 + d
  {
    TwoBytes(a, b);
    assert [a, b, c, d][..|[a, b, c, d]| - 1] == [a, b, c] && [a, b, c][..|[a, b, c]| - 1] == [a, b];
  }

  // ---------------------------------------------------------- scanning and cutting

  /** Words and tails of a slice, as slices of the buffer it is taken from. */
  lemma Within(buf: seq<byte>, start: nat, end: nat, at: nat, n: nat)
    requires start + at + n <= end <= |buf|
    ensures buf[start..end][at..][..n] == buf[start + at..start + at + n]
    ensures buf[start..end][at..][n..] == buf[start + at + n..end]
  {
  }

  lemma FieldsSteps(n: nat, s: seq<byte>)
    ensures n == 0 ==> FieldsLen(n, s) == Some(0)
    ensures n > 0 && |s| < 4 ==> FieldsLen(n, s) == None
    ensures n > 0 && |s| >= 4 ==>
            && SWord(4, s).Ok?
            && var k := 4 + if SWord(4, s).value > 0 then SWord(4, s).value else 0;
               FieldsLen(n, s) == if |s| < k then None
                                  else match FieldsLen(n - 1, s[k..]) case None => None case Some(m) => Some(k + m)
  {
    hide SWord;
  }

  lemma RowSteps(s: seq<byte>)
    ensures |s| < 2 ==> Scan(s) == 0
    ensures |s| >= 2 ==> SWord(2, s).Ok?
    ensures |s| >= 2 && SWord(2, s).value <= 0 ==> Scan(s) == 2
    ensures |s| >= 2 && SWord(2, s).value > 0 ==>
            match FieldsLen(SWord(2, s).value, s[2..])
            case None => Scan(s) == 0
            case Some(k) => 2 + k <= |s| && Scan(s) == 2 + k + Scan(s[2 + k..])
  {
    hide SWord, FieldsLen;
  }

  /** The first n bytes are rows the scan has passed over. */
  predicate Scanned(s: seq<byte>, n: nat) {
    n <= |s| && Scan(s) == n + Scan(s[n..])
  }

  lemma ScanStarts(s: seq<byte>)
    ensures Scanned(s, 0)
  {
    assert s[0..] == s;
  }

  lemma ScanStops(s: seq<byte>, n: nat)
    requires Scanned(s, n) && n + 2 > |s|
    ensures Scan(s) == n
  {
    RowSteps(s[n..]);
    hide Scan;
  }

  /** A row in the middle of a buffer: the scan ends there, or passes over it. */
  lemma RowAt(buf: seq<byte>, s: seq<byte>, start: nat, end: nat, at: nat, count: int)
    requires start + at + 2 <= end <= |buf| && s == buf[start..end] && Scanned(s, at)
    requires SWord(2, buf[start + at..start + at + 2]) == Ok(count)
    ensures count <= 0 ==> Scan(s) == at + 2
    ensures count > 0 ==>
            match FieldsLen(count, buf[start + at + 2..end])
            case None => Scan(s) == at
            case Some(k) => Scanned(s, at + 2 + k)
  {
    hide Scan, FieldsLen, SWord;
    var row := s[at..];
    Within(buf, start, end, at, 2);
    WordLocal(2, row, 2);
    RowSteps(row);
    if count > 0 && FieldsLen(count, buf[start + at + 2..end]).Some? {
      var k := FieldsLen(count, buf[start + at + 2..end]).value;
      assert row[2 + k..] == s[at + 2 + k..];
    }
  }

  lemma Refill(left: seq<byte>, file: seq<byte>, offset: nat, n: nat)
    requires offset + n <= |file|
    ensures (left + file[offset..])[..|left| + n] == left + file[offset..offset + n]
    ensures (left + file[offset..])[|left| + n..] == file[offset + n..]
    ensures left + file[offset..offset] == left
  {
  }

  lemma Prefixes(buf: seq<byte>, p: seq<byte>, total: nat, skip: nat)
    requires skip <= total <= |buf| && total <= |p| && buf[..total] == p[..total]
    ensures buf[skip..total] == p[skip..total]
  {
    assert buf[..total][skip..] == buf[skip..total] && p[..total][skip..] == p[skip..total];
  }

  lemma Cut(buf: seq<byte>, p: seq<byte>, total: nat, valid: nat)
    requires valid <= total <= |buf| && total <= |p| && buf[..total] == p[..total]
    ensures buf[..valid] == p[..valid] && buf[valid..total] + p[total..] == p[valid..]
  {
    Prefixes(buf, p, total, valid);
    assert buf[..total][..valid] == buf[..valid] && p[..total][..valid] == p[..valid];
  }

  class FileReader {
    const file: seq<byte>
    const bufferSize: nat
    const t: Type
    const parser: BinaryParser
    const readBuffer: array<byte>
    var fileOffset: nat
    var leftover: nat
    var leftoverOffset: nat
    var finished: bool
    var headerScanned: bool

    ghost predicate Valid()
      reads this, parser
    {
      && parser.Valid() && t.StructOf? && readBuffer.Length == bufferSize
      && leftoverOffset + leftover <= bufferSize && fileOffset <= |file|
    }

    /** The bytes of the file the parser has not been given: the leftover of the last
        buffer, then the rest of the file. */
    ghost function Unread(): seq<byte>
      requires Valid()
      reads this, parser, readBuffer
    {
      readBuffer[leftoverOffset..leftoverOffset + leftover] + file[fileOffset..]
    }

    constructor (file: seq<byte>, bufferSize: nat, columns: seq<Type>, cfg: Config)
      ensures Valid() && fresh(parser) && fresh(readBuffer)
      ensures Unread() == file && parser.Rest() == [] && !headerScanned && !finished
      ensures this.file == file && this.bufferSize == bufferSize && t == StructOf(columns) && parser.cfg == cfg
    {
      this.file := file;
      this.bufferSize := bufferSize;
      t := StructOf(columns);
      parser := new BinaryParser(cfg);
      readBuffer := new byte[bufferSize](_ => 0);
      fileOffset, leftover, leftoverOffset := 0, 0, 0;
      finished, headerScanned := false, false;
    }

    /** FillBuffer. The parser has used up its buffer, so overwriting the bytes it
        points into does no harm. */
    method FillBuffer() returns (r: Result<bool>)
      requires Valid() && parser.Rest() == []
      modifies this, parser, readBuffer
      ensures Valid() && (old(headerScanned) ==> headerScanned)
      ensures var p := old(Unread());
              match FillOf(p, bufferSize, old(headerScanned))
              case Exhausted => r == Ok(false) && finished && parser.Rest() == [] && Unread() == p
              case Hand(v) => r == Ok(true) && headerScanned && finished == old(finished) && parser.Rest() == p[..v] && Unread() == p[v..]
              case TooLarge => r == Err(RowTooLarge)
    {
      hide Scan, FillOf;
      ghost var p := Unread();
      FillSteps(p, bufferSize, headerScanned);
      if fileOffset >= |file| && leftover == 0 {
        finished := true;
        return Ok(false);
      }
      var total := Load();
      if total == 0 {
        finished := true;
        return Ok(false);
      }
      var valid := CutPoint(total, p);
      if valid.Err? {
        return Err(valid.error);
      }
      HandOver(total, valid.value, p);
      r := Ok(true);
    }

    // --------------------------------------------------------- whole files

    /** What remains to be handed out is a sequence of well-formed rows. */
    ghost predicate Serving()
      reads this, parser, readBuffer
    {
      && Valid() && headerScanned && bufferSize >= HEADER_SIZE
      && WellFormed(parser.cfg, t.fields, parser.Rest()) && WellFormed(parser.cfg, t.fields, Unread())
      && (finished ==> Unread() == [])
    }

    /** The rows not handed out yet: those in the parser's buffer, then the unread ones. */
    ghost function Remaining(): seq<seq<Value>>
      requires Serving()
      reads this, parser, readBuffer
    {
      Table(parser.cfg, t.fields, parser.Rest()) + Table(parser.cfg, t.fields, Unread())
    }

    /** The rest of the constructor: the first fill and the header check. */
    method Open() returns (o: Outcome)
      requires Valid() && Unread() == file && parser.Rest() == [] && !headerScanned && !finished
      modifies this, parser, readBuffer
      ensures Valid()
      ensures o.Pass? <==> bufferSize >= HEADER_SIZE && |file| >= HEADER_SIZE && file[..|COPY_HEADER|] == COPY_HEADER
      ensures o.Pass? && WellFormed(parser.cfg, t.fields, file[HEADER_SIZE..]) ==>
              && Serving() && Remaining() == Table(parser.cfg, t.fields, file[HEADER_SIZE..])
              && (RowsFit(file[HEADER_SIZE..], bufferSize) <==> RowsFit(Unread(), bufferSize))
    {
      hide FillOf, WellFormed, Table, RowsFit;
      if |file| == 0 {
        return Fail(BadHeader);
      }
      FillProgress(file, bufferSize, false);
      FirstFill(file, bufferSize);
      if |file| >= HEADER_SIZE && bufferSize >= HEADER_SIZE && WellFormed(parser.cfg, t.fields, file[HEADER_SIZE..]) {
        FirstFillSplits(parser.cfg, t.fields, file, bufferSize);
      }
      var filled := FillBuffer();
      if filled != Ok(true) {
        return Fail(BadHeader);
      }
      o := parser.CheckHeader();
    }

    /** ReadChunk: rows into the chunk until it is full or the file is used up. */
    method ReadChunk(chunk: Vec, size: nat) returns (r: Result<bool>, out: Vec, n: nat)
      requires Valid() && OpenChunk(t, chunk, size)
      modifies this, parser, readBuffer
      ensures Valid()
      ensures r.Ok? ==> OpenChunk(t, out, n)
      ensures old(Serving()) && r.Ok? ==> Serving() && Served(t, old(Remaining()), chunk, size, out, n, Remaining())
      ensures old(Serving()) && r.Ok? ==> r.value == (n == VECTOR_SIZE) && (!r.value ==> Remaining() == [] && Unread() == [])
      ensures old(Serving()) && r.Ok? ==> (old(RowsFit(Unread(), bufferSize)) <==> RowsFit(Unread(), bufferSize))
      ensures old(Serving()) && r.Err? ==> r.error == RowTooLarge && !old(RowsFit(Unread(), bufferSize))
    {
      hide FillOf, WellFormed, Table, RowsFit, Parse, OpenChunk;
      ghost var good, all, fits := Serving(), [], RowsFit(Unread(), bufferSize);
      if good {
        all := Remaining();
        NothingServed(t, all, chunk, size);
      }
      out, n := chunk, size;
      OpenBound(t, out, n);
      while n < VECTOR_SIZE
        invariant Valid() && OpenChunk(t, out, n) && n <= VECTOR_SIZE
        invariant good ==> Serving() && Served(t, all, chunk, size, out, n, Remaining())
        invariant good ==> (fits <==> RowsFit(Unread(), bufferSize))
        decreases |Unread()|
      {
        ghost var before, unread, from, at := parser.Rest(), Unread(), out, n;
        var got;
        got, out, n := parser.ReadChunk(t, out, n);
        if got.Ok? {
          OpenBound(t, out, n);
        }
        if good {
          ServeMore(parser.cfg, t, all, chunk, size, from, at, before, unread, parser.Rest(), got, out, n);
        }
        if got.Err? {
          return Err(got.error), out, n;
        }
        if got.value {
          return Ok(true), out, n;
        }
        if good {
          Drained(parser.cfg, t.fields, unread);
        }
        if finished {
          return Ok(false), out, n;
        }
        FillProgress(unread, bufferSize, headerScanned);
        if good {
          FillSplits(parser.cfg, t.fields, unread, bufferSize);
        }
        var filled := FillBuffer();
        if filled.Err? {
          return Err(filled.error), out, n;
        }
        if !filled.value {
          return Ok(false), out, n;
        }
      }
      r := Ok(true);
    }

    /** The scan that calls ReadChunk on an empty chunk until it reports the end
        (PostgresBinaryReadScan): all rows, or none because one is too large. */
    method ReadAll() returns (r: Result<seq<Value>>)
      requires Serving()
      modifies this, parser, readBuffer
      ensures RowsFit(old(Unread()), bufferSize) ==> r == Ok(Structs(old(Remaining())))
      ensures !RowsFit(old(Unread()), bufferSize) ==> r == Err(RowTooLarge)
    {
      hide FillOf, WellFormed, Table, RowsFit, OpenChunk, Ready, Shape, Structs, Slice;
      ghost var all, fits := Remaining(), RowsFit(Unread(), bufferSize);
      var rows: seq<Value> := [];
      ghost var k := 0;
      NoStructs(all);
      while true
        invariant Serving() && 0 <= k <= |all| && Remaining() == all[k..] && rows == Structs(all[..k])
        invariant fits <==> RowsFit(Unread(), bufferSize)
        decreases |Remaining()|
      {
        var chunk := NewVec(t, VECTOR_SIZE);
        EmptyChunk(t);
        var more, out, n := ReadChunk(chunk, 0);
        if more.Err? {
          return Err(more.error);
        }
        ServedChunk(t, all, k, chunk, out, n, Remaining());
        rows := rows + Slice(t, out, 0, n);
        k := k + n;
        if !more.value {
          RowsFitSteps([], bufferSize);
          assert all[..k] == all;
          return Ok(rows);
        }
      }
    }

    /** Where the buffer is cut. The first buffer starts with the file header, which
        the scan for rows skips. */
    method CutPoint(total: nat, ghost p: seq<byte>) returns (r: Result<nat>)
      requires Valid() && 0 < total == Min(bufferSize, |p|)
      requires readBuffer[..total] == p[..total] && file[fileOffset..] == p[total..]
      modifies this`headerScanned
      ensures Valid() && headerScanned && (r.Ok? ==> r.value <= total)
      ensures FillOf(p, bufferSize, old(headerScanned)) == if r.Ok? then Hand(r.value) else TooLarge
      ensures r.Err? ==> r.error == RowTooLarge
    {
      hide Scan, FillOf;
      FillSteps(p, bufferSize, headerScanned);
      var skip := if headerScanned then 0 else Min(HEADER_SIZE, total);
      headerScanned := true;
      Prefixes(readBuffer[..], p, total, skip);
      var valid := FindLastCompleteRow(readBuffer, skip, total - skip);
      if valid > 0 {
        return Ok(skip + valid);
      } else if fileOffset >= |file| {
        return Ok(total);
      } else if skip > 0 {
        // The header is a boundary of its own: the row behind it gets a whole buffer next.
        return Ok(skip);
      }
      r := Err(RowTooLarge);
    }

    /** The first valid bytes go to the parser, the others stay as leftover. */
    method HandOver(total: nat, valid: nat, ghost p: seq<byte>)
      requires Valid() && valid <= total <= bufferSize && total <= |p|
      requires readBuffer[..total] == p[..total] && file[fileOffset..] == p[total..]
      modifies this`leftover, this`leftoverOffset, parser
      ensures Valid() && parser.Rest() == p[..valid] && Unread() == p[valid..]
    {
      Cut(readBuffer[..], p, total, valid);
      parser.SetBuffer(readBuffer[..valid]);
      leftover, leftoverOffset := total - valid, valid;
    }

    /** The leftover moved to the front of the buffer, and the bytes read behind it. */
    method Load() returns (total: nat)
      requires Valid()
      modifies this`fileOffset, readBuffer
      ensures Valid() && var p := old(Unread());
              && total == Min(bufferSize, |p|) && leftover <= total
              && readBuffer[..total] == p[..total] && file[fileOffset..] == p[total..]
    {
      ghost var left := readBuffer[leftoverOffset..leftoverOffset + leftover];
      if leftover > 0 {
        MoveLeftover();
      }
      assert readBuffer[..leftover] == left;
      var toRead := Min(bufferSize - leftover, |file| - fileOffset);
      Refill(left, file, fileOffset, toRead);
      if toRead > 0 {
        ReadFile(toRead);
      }
      total := leftover + toRead;
    }

    /** memmove of the leftover to the front of the buffer. */
    method MoveLeftover()
      requires Valid()
      modifies readBuffer
      ensures Valid() && readBuffer[..leftover] == old(readBuffer[leftoverOffset..leftoverOffset + leftover])
    {
      forall i | 0 <= i < leftover {
        readBuffer[i] := readBuffer[leftoverOffset + i];
      }
    }

    /** The next bytes of the file, behind the leftover. */
    method ReadFile(n: nat)
      requires Valid() && leftover + n <= bufferSize && fileOffset + n <= |file|
      modifies this`fileOffset, readBuffer
      ensures Valid() && fileOffset == old(fileOffset) + n
      ensures readBuffer[..leftover + n] == old(readBuffer[..leftover]) + file[old(fileOffset)..fileOffset]
    {
      forall i | 0 <= i < n {
        readBuffer[leftover + i] := file[fileOffset + i];
      }
      fileOffset := fileOffset + n;
    }

    /** FindLastCompleteRow over len bytes of a buffer. */
    static method FindLastCompleteRow(buf: array<byte>, start: nat, len: nat) returns (lastSafe: nat)
      requires start + len <= buf.Length
      ensures lastSafe == Scan(buf[start..start + len])
    {
      hide Scan, FieldsLen, SWord, Scanned;
      ghost var b, s := buf[..], buf[start..start + len];
      var ptr, end := start, start + len;
      lastSafe := 0;
      ScanStarts(s);
      while ptr + 2 <= end
        invariant start <= ptr <= end && lastSafe == ptr - start && Scanned(s, lastSafe)
        decreases end - ptr
      {
        var tupleCount := ReadInt16(buf, ptr);
        RowAt(b, s, start, end, lastSafe, tupleCount);
        ptr := ptr + 2;
        if tupleCount <= 0 {
          lastSafe := ptr - start;
          return;
        }
        var complete, next := SkipFields(buf, ptr, end, tupleCount);
        if !complete {
          return;
        }
        ptr := next;
        lastSafe := ptr - start;
      }
      ScanStops(s, lastSafe);
    }

    /** The column loop of FindLastCompleteRow. */
    static method SkipFields(buf: array<byte>, start: nat, end: nat, count: nat) returns (complete: bool, ptr: nat)
      requires start <= end <= buf.Length
      ensures match FieldsLen(count, buf[start..end])
              case Some(k) => complete && ptr == start + k
              case None => !complete
    {
      hide FieldsLen, SWord;
      ghost var s := buf[start..end];
      FieldsSteps(0, s);
      ptr := start;
      complete := true;
      var c := 0;
      assert s[0..] == s;
      while c < count
        invariant 0 <= c <= count && start <= ptr <= end
        invariant FieldsLen(count, s) == match FieldsLen(count - c, s[ptr - start..]) case None => None case Some(k) => Some(ptr - start + k)
      {
        ghost var rest := s[ptr - start..];
        FieldsSteps(count - c, rest);
        if ptr + 4 > end {
          complete := false;
          break;
        }
        var len := ReadInt32(buf, ptr);
        Within(buf[..], start, end, ptr - start, 4);
        assert buf[..][start..end] == s && buf[..][ptr..ptr + 4] == buf[ptr..ptr + 4];
        WordLocal(4, rest, 4);
        ptr := ptr + 4;
        if len > 0 {
          if ptr + len > end {
            complete := false;
            break;
          }
          ptr := ptr + len;
        }
        assert rest[4 + (if len > 0 then len else 0)..] == s[ptr - start..];
        c := c + 1;
      }
      FieldsSteps(0, s[ptr - start..]);
    }

    static method ReadInt16(buf: array<byte>, ptr: nat) returns (x: int)
      requires ptr + 2 <= buf.Length
      ensures SWord(2, buf[ptr..ptr + 2]) == Ok(x)
    {
      Sizes();
      assert buf[ptr..ptr + 2] == [buf[ptr], buf[ptr + 1]];
      var a: nat, b: nat := buf[ptr], buf[ptr + 1];
      TwoBytes(a, b);
      x := ToSigned(2, a * 256 + b);
      assert buf[ptr..ptr + 2][..2] == buf[ptr..ptr + 2];
    }

    static method ReadInt32(buf: array<byte>, ptr: nat) returns (x: int)
      requires ptr + 4 <= buf.Length
      ensures SWord(4, buf[ptr..ptr + 4]) == Ok(x)
    {
      Sizes();
      assert buf[ptr..ptr + 4] == [buf[ptr], buf[ptr + 1], buf[ptr + 2], buf[ptr + 3]];
      var a: nat, b: nat, c: nat, d: nat := buf[ptr], buf[ptr + 1], buf[ptr + 2], buf[ptr + 3];
      FourBytes(a, b, c, d);
      x := ToSigned(4, ((a * 256 + b) * 256 + c) * 256 + d);
      assert buf[ptr..ptr + 4][..4] == buf[ptr..ptr + 4];
    }
  }

  /** Main result on files: for a file of the header and well-formed rows, and any
      buffer that holds the header, reading chunk by chunk gives exactly the rows of
      the one-shot parse, in order, unless some row exceeds the buffer, which is the
      only case that fails. */
  method ReadFile(file: seq<byte>, bufferSize: nat, columns: seq<Type>, cfg: Config) returns (r: Result<seq<Value>>)
    requires |file| >= HEADER_SIZE && file[..|COPY_HEADER|] == COPY_HEADER && bufferSize >= HEADER_SIZE
    requires WellFormed(cfg, columns, file[HEADER_SIZE..])
    ensures RowsFit(file[HEADER_SIZE..], bufferSize) ==> r == Ok(Structs(Table(cfg, columns, file[HEADER_SIZE..])))
    ensures !RowsFit(file[HEADER_SIZE..], bufferSize) ==> r == Err(RowTooLarge)
  {
    var reader := new FileReader(file, bufferSize, columns, cfg);
    var o := reader.Open();
    r := reader.ReadAll();
  }
}
