/** Rows of a binary COPY file: their framing by length prefixes alone, which is
    all the file reader looks at, and their decoding by column types. */
module RowFormat {
  import opened Wrappers
  import opened Bytes
  import opened Decimal
  import opened DateTime
  import opened NestedLists
  import opened WireFormat
  import opened WireRoundTrip

  // ------------------------------------------------------------------- framing

  /** The length of n fields at the front of s, by their length words; any
      non-positive length is followed by nothing. */
  function FieldsLen(n: nat, s: seq<byte>): (r: Option<nat>)
    ensures r.Some? ==> r.value <= |s|
    decreases n
  {
    if n == 0 then Some(0)
    else if |s| < 4 then None
    else
      var len := SWord(4, s).value;
      var k := 4 + if len > 0 then len else 0;
      if |s| < k then None
      else
        match FieldsLen(n - 1, s[k..])
        case None => None
        case Some(m) => Some(k + m)
  }

  predicate IsTrailer(s: seq<byte>)
    requires |s| >= 2
  {
    SWord(2, s).value <= 0
  }

  /** The length of the row at the front of s, if it is complete. */
  function RowLen(s: seq<byte>): (r: Option<nat>)
    ensures r.Some? ==> 2 <= r.value <= |s|
  {
    if |s| < 2 || IsTrailer(s) then None
    else
      match FieldsLen(SWord(2, s).value, s[2..])
      case None => None
      case Some(m) => Some(2 + m)
  }

  /** FindLastCompleteRow: rows are skipped while complete; a trailer ends the scan. */
  function Scan(s: seq<byte>): (n: nat)
    ensures n <= |s|
    decreases |s|
  {
    if |s| < 2 then 0
    else if IsTrailer(s) then 2
    else
      match RowLen(s)
      case None => 0
      case Some(k) => k + Scan(s[k..])
  }

  /** A concatenation of whole rows, optionally ending just after a trailer. */
  predicate Whole(s: seq<byte>)
    decreases |s|
  {
    s == [] || (|s| == 2 && IsTrailer(s)) || (RowLen(s).Some? && Whole(s[RowLen(s).value..]))
  }

  lemma {:induction false} FieldsLenPrefix(n: nat, s: seq<byte>, k: nat)
    requires k <= |s|
    ensures FieldsLen(n, s[..k]) == match FieldsLen(n, s) case None => None case Some(m) => if m <= k then Some(m) else None
  {
    hide Val, ToSigned, Word;
    if n > 0 && k >= 4 {
      assert s[..k][..4] == s[..4];
      WordLocal(4, s, k);
      var len := SWord(4, s).value;
      var f := 4 + if len > 0 then len else 0;
      if f <= k {
        FieldsLenPrefix(n - 1, s[f..], k - f);
        assert s[..k][f..] == s[f..][..k - f];
      }
    }
  }

  lemma RowLenPrefix(s: seq<byte>, k: nat)
    requires k <= |s|
    ensures k >= 2 ==> IsTrailer(s[..k]) == IsTrailer(s)
    ensures RowLen(s[..k]) == match RowLen(s) case None => None case Some(m) => if m <= k then Some(m) else None
  {
    if k >= 2 {
      assert s[..k][..2] == s[..2];
      assert s[..k][2..] == s[2..][..k - 2];
      if !IsTrailer(s) {
        FieldsLenPrefix(SWord(2, s).value, s[2..], k - 2);
      }
    }
  }

  /** Main result on the scan: it stops at the end of the longest prefix made of
      whole rows and, possibly, a trailer. */
  lemma {:induction false} ScanIsLongest(s: seq<byte>)
    ensures Whole(s[..Scan(s)])
    ensures forall k | 0 <= k <= |s| && Whole(s[..k]) :: k <= Scan(s)
    decreases |s|
  {
    if |s| >= 2 && IsTrailer(s) {
      assert s[..2][..2] == s[..2];
      forall k | 0 <= k <= |s| && Whole(s[..k]) ensures k <= 2 {
        RowLenPrefix(s, k);
      }
    } else if RowLen(s).Some? {
      var m := RowLen(s).value;
      ScanIsLongest(s[m..]);
      RowLenPrefix(s, Scan(s));
      assert s[..Scan(s)][m..] == s[m..][..Scan(s) - m];
      forall k | 0 <= k <= |s| && Whole(s[..k]) ensures k <= Scan(s) {
        WholePeels(s, k);
      }
    } else {
      forall k | 0 <= k <= |s| && Whole(s[..k]) ensures k <= Scan(s) {
        RowLenPrefix(s, k);
      }
    }
  }

  lemma WholePeels(s: seq<byte>, k: nat)
    requires k <= |s| && Whole(s[..k]) && RowLen(s).Some?
    ensures k == 0 || (RowLen(s).value <= k && Whole(s[RowLen(s).value..][..k - RowLen(s).value]))
  {
    RowLenPrefix(s, k);
    if k > 0 {
      assert k >= 2 ==> s[..k][..2] == s[..2];
      assert RowLen(s).value <= k ==> s[..k][RowLen(s).value..] == s[RowLen(s).value..][..k - RowLen(s).value];
    }
  }

  // ------------------------------------------------------------------ decoding

  /** The columns of one row, as ReadChunk reads them. */
  function DecCells(cfg: Config, ts: seq<Type>, s: seq<byte>): (r: Result<(seq<Value>, nat)>)
    ensures r.Ok? ==> |r.value.0| == |ts| && r.value.1 <= |s|
    decreases |ts|
  {
    if ts == [] then Ok(([], 0))
    else
      var (v, k) :- Dec(cfg, ts[0], s);
      var (vs, m) :- DecCells(cfg, ts[1..], s[k..]);
      Ok(([v] + vs, k + m))
  }

  /** Rows of the given columns, each framed by its lengths, up to a trailer or the
      end of the bytes. */
  predicate WellFormed(cfg: Config, ts: seq<Type>, s: seq<byte>)
    decreases |s|
  {
    s == [] || (|s| == 2 && IsTrailer(s)) || (
      && RowLen(s).Some?
      && DecCells(cfg, ts, s[2..]).Ok?
      && RowLen(s).value == 2 + DecCells(cfg, ts, s[2..]).value.1
      && WellFormed(cfg, ts, s[RowLen(s).value..]))
  }

  /** The rows of a well-formed file body: the one-shot parse. */
  function Table(cfg: Config, ts: seq<Type>, s: seq<byte>): (rows: seq<seq<Value>>)
    requires WellFormed(cfg, ts, s)
    decreases |s|
  {
    if RowLen(s).None? then []
    else [DecCells(cfg, ts, s[2..]).value.0] + Table(cfg, ts, s[RowLen(s).value..])
  }

  /** Rows read off a buffer into a chunk that has room for so many, and what is
      left in the buffer. A count that is not positive discards the buffer. */
  function Parse(cfg: Config, ts: seq<Type>, s: seq<byte>, room: nat): (r: Result<(seq<seq<Value>>, seq<byte>)>)
    ensures r.Ok? ==> |r.value.0| <= room && |r.value.1| <= |s|
    ensures r.Ok? && |r.value.0| < room ==> r.value.1 == []
    decreases room
  {
    if room == 0 then Ok(([], s))
    else if s == [] then Ok(([], []))
    else
      var count :- SWord(2, s);
      if count <= 0 then Ok(([], []))
      else
        var (row, k) :- DecCells(cfg, ts, s[2..]);
        var (rows, rest) :- Parse(cfg, ts, s[2 + k..], room - 1);
        Ok(([row] + rows, rest))
  }

  /** A chunk's worth of a well-formed body is the next rows of its table. */
  lemma {:induction false} ParseIsTable(cfg: Config, ts: seq<Type>, s: seq<byte>, room: nat)
    requires WellFormed(cfg, ts, s)
    ensures var rows := Table(cfg, ts, s);
            var k := if room < |rows| then room else |rows|;
            var p := Parse(cfg, ts, s, room);
            && p.Ok? && p.value.0 == rows[..k]
            && WellFormed(cfg, ts, p.value.1) && Table(cfg, ts, p.value.1) == rows[k..]
    decreases room
  {
    hide *;
    WellFormedSteps(cfg, ts, s);
    ParseSteps(cfg, ts, s, room);
    Nothing(cfg, ts);
    var rows := Table(cfg, ts, s);
    if room == 0 {
      assert rows[..0] == [] && rows[0..] == rows;
    } else if RowLen(s).Some? {
      var rest := s[RowLen(s).value..];
      ParseIsTable(cfg, ts, rest, room - 1);
      var more := Table(cfg, ts, rest);
      var k := if room - 1 < |more| then room - 1 else |more|;
      assert rows == [DecCells(cfg, ts, s[2..]).value.0] + more;
      assert rows[..k + 1] == [rows[0]] + more[..k] && rows[k + 1..] == more[k..];
    } else {
      assert rows[..0] == [] && rows[0..] == [];
    }
  }

  lemma ParseSteps(cfg: Config, ts: seq<Type>, s: seq<byte>, room: nat)
    ensures room == 0 ==> Parse(cfg, ts, s, room) == Ok(([], s))
    ensures room > 0 && (s == [] || (|s| >= 2 && IsTrailer(s))) ==> Parse(cfg, ts, s, room) == Ok(([], []))
    ensures room > 0 && |s| >= 2 && !IsTrailer(s) && DecCells(cfg, ts, s[2..]).Ok? ==>
            var (row, k) := DecCells(cfg, ts, s[2..]).value;
            var p := Parse(cfg, ts, s[2 + k..], room - 1);
            p.Ok? ==> Parse(cfg, ts, s, room) == Ok(([row] + p.value.0, p.value.1))
  {
    hide DecCells, ToSigned, Val;
  }

  // ---------------------------------------- decoding looks only at what it takes

  lemma WordLocal(n: nat, s: seq<byte>, m: nat)
    requires n <= m <= |s|
    ensures Word(n, s[..m]) == Word(n, s) && SWord(n, s[..m]) == SWord(n, s)
  {
    assert s[..m][..n] == s[..n];
  }

  lemma {:induction false} DigitsLocal(n: nat, s: seq<byte>, m: nat)
    requires 2 * n <= m <= |s|
    ensures DecDigits(n, s[..m]) == DecDigits(n, s)
  {
    if n > 0 {
      assert s[..m][..2] == s[..2];
      assert s[..m][2..] == s[2..][..m - 2];
      DigitsLocal(n - 1, s[2..], m - 2);
    }
  }

  lemma {:induction false} DimsLocal(n: nat, s: seq<byte>, m: nat)
    requires DecDims(n, s).Ok? && 8 * n <= m <= |s|
    ensures DecDims(n, s[..m]) == DecDims(n, s)
  {
    if n > 0 {
      assert s[..m][4..] == s[4..][..m - 4] && s[..m][8..] == s[8..][..m - 8];
      WordLocal(4, s, m);
      WordLocal(4, s[4..], m - 4);
      DimsLocal(n - 1, s[8..], m - 8);
    }
  }

  lemma NumericLocal(st: Storage, s: seq<byte>, m: nat)
    requires DecNumeric(st, s).Ok? && DecNumeric(st, s).value.1 <= m <= |s|
    ensures DecNumeric(st, s[..m]) == DecNumeric(st, s)
  {
    hide Val, ToSigned, Readable, Magnitude, DecDigits;
    forall n | n in {2, 4, 6, 8} ensures s[..m][n..] == s[n..][..m - n] {
    }
    WordLocal(2, s, m);
    WordLocal(2, s[2..], m - 2);
    WordLocal(2, s[4..], m - 4);
    WordLocal(2, s[6..], m - 6);
    var n := Word(2, s).value;
    if 8 + 2 * n <= m {
      DigitsLocal(n, s[8..], m - 8);
    }
  }

  lemma ScalarLocal(cfg: Config, t: Type, len: int, s: seq<byte>, m: nat)
    requires !t.ListOf? && !t.StructOf?
    requires DecScalar(cfg, t, len, s).Ok? && DecScalar(cfg, t, len, s).value.1 <= m <= |s|
    ensures DecScalar(cfg, t, len, s[..m]) == DecScalar(cfg, t, len, s)
  {
    hide Word, SWord, DecNumeric;
    var k := DecScalar(cfg, t, len, s).value.1;
    match t
    case DecimalOf(st, _) => NumericLocal(st, s, m);
    case TimeTz => WordsLocal(s, m, 4);
    case Interval =>
      WordsLocal(s, m, 4);
      assert s[..m][12..] == s[12..][..m - 12];
      WordLocal(4, s[12..], m - 12);
    case Uuid => WordsLocal(s, m, 8);
    case Varchar => assert s[..m][..len] == s[..len];
    case Blob => assert s[..m][..len] == s[..len];
    case _ => WordLocal(k, s, m);
  }

  lemma WordsLocal(s: seq<byte>, m: nat, n: nat)
    requires 8 + n <= m <= |s|
    ensures Word(8, s[..m]) == Word(8, s) && SWord(8, s[..m]) == SWord(8, s)
    ensures Word(n, s[..m][8..]) == Word(n, s[8..]) && SWord(n, s[..m][8..]) == SWord(n, s[8..])
  {
    hide Word, SWord;
    WordLocal(8, s, m);
    assert s[..m][8..] == s[8..][..m - 8];
    WordLocal(n, s[8..], m - 8);
  }

  /** The body of a field that is not NULL. */
  function DecBody(cfg: Config, t: Type, len: int, s: seq<byte>): Result<(Value, nat)> {
    if t.ListOf? then DecList(cfg, t, len, s) else if t.StructOf? then DecStruct(cfg, t, s) else DecScalar(cfg, t, len, s)
  }

  lemma DecCases(cfg: Config, t: Type, s: seq<byte>)
    ensures SWord(4, s).Err? ==> Dec(cfg, t, s) == Err(SWord(4, s).error) && Dec(cfg, t, s) != Err(Unmodelled)
    ensures SWord(4, s) == Ok(-1) ==> |s| >= 4 && Dec(cfg, t, s) == Ok((NullV, 4))
    ensures SWord(4, s).Ok? && SWord(4, s) != Ok(-1) ==>
            && |s| >= 4
            && var body := DecBody(cfg, t, SWord(4, s).value, s[4..]);
               Dec(cfg, t, s) == if body.Ok? then Ok((body.value.0, 4 + body.value.1)) else Err(body.error)
  {
    hide DecList, DecStruct, DecScalar;
  }

  lemma {:induction false} DecLocal(cfg: Config, t: Type, s: seq<byte>, m: nat)
    requires Dec(cfg, t, s).Ok? && Dec(cfg, t, s).value.1 <= m <= |s|
    ensures Dec(cfg, t, s[..m]) == Dec(cfg, t, s)
    decreases t, 1, 0
  {
    hide DecList, DecStruct, DecScalar, Dec, Word, SWord;
    DecCases(cfg, t, s);
    DecCases(cfg, t, s[..m]);
    WordLocal(4, s, m);
    assert s[..m][4..] == s[4..][..m - 4];
    var len := SWord(4, s).value;
    if len == -1 {
    } else if t.ListOf? {
      ListLocal(cfg, t, len, s[4..], m - 4);
    } else if t.StructOf? {
      StructLocal(cfg, t, s[4..], m - 4);
    } else {
      ScalarLocal(cfg, t, len, s[4..], m - 4);
    }
  }

  lemma ListLocal(cfg: Config, t: Type, len: int, s: seq<byte>, m: nat)
    requires t.ListOf? && DecList(cfg, t, len, s).Ok? && DecList(cfg, t, len, s).value.1 <= m <= |s|
    ensures DecList(cfg, t, len, s[..m]) == DecList(cfg, t, len, s)
    decreases t, 0, 0
  {
    hide Dec, DecMany, DecList, DecDims, Rows, CountsFit, Word;
    var r := s[..m];
    ListCases(cfg, t, len, s);
    ListCases(cfg, t, len, r);
    if len >= 1 {
      HeaderLocal(s, m);
      var dim := Word(4, s).value;
      if dim != 0 {
        var dims, h := DecDims(dim, s[12..]).value, 12 + 8 * dim;
        DimsLocal(dim, s[12..], m - 12);
        assert r[h..] == s[h..][..m - h];
        LeafSmaller(t);
        ManyLocal(cfg, Leaf(t), Prod(dims), s[h..], m - h);
        ListLayout(cfg, t, len, s, dims);
        ListLayout(cfg, t, len, r, dims);
      }
    }
  }

  /** What a successful list decoding says about the header. */
  lemma ListCases(cfg: Config, t: Type, len: int, s: seq<byte>)
    requires t.ListOf?
    ensures len < 1 ==> DecList(cfg, t, len, s) == Ok((ListV([]), 0))
    ensures len >= 1 && |s| >= 12 && Word(4, s) == Ok(0) ==> DecList(cfg, t, len, s) == Ok((ListV([]), 12))
    ensures len >= 1 && DecList(cfg, t, len, s).Ok? ==>
            && 12 <= |s| && 12 <= DecList(cfg, t, len, s).value.1
            && Word(4, s).Ok? && Word(4, s[4..]).Ok? && Word(4, s[8..]).Ok?
    ensures len >= 1 && DecList(cfg, t, len, s).Ok? && Word(4, s) != Ok(0) ==>
            var dims := DecDims(Word(4, s).value, s[12..]);
            && Word(4, s) == Ok(Depth(t)) && dims.Ok? && |dims.value| == Depth(t) && CountsFit(1, dims.value)
            && 12 + 8 * Depth(t) <= DecList(cfg, t, len, s).value.1 && 12 + 8 * Depth(t) <= |s|
            && DecMany(cfg, Leaf(t), Prod(dims.value), s[12 + 8 * Depth(t)..]).Ok?
            && DecList(cfg, t, len, s).value.1 == 12 + 8 * Depth(t) + DecMany(cfg, Leaf(t), Prod(dims.value), s[12 + 8 * Depth(t)..]).value.1
  {
    hide Dec, DecMany, Rows, CountsFit, Val;
  }

  lemma HeaderLocal(s: seq<byte>, m: nat)
    requires 12 <= m <= |s|
    ensures Word(4, s[..m]) == Word(4, s) && Word(4, s[..m][4..]) == Word(4, s[4..]) && Word(4, s[..m][8..]) == Word(4, s[8..])
    ensures s[..m][12..] == s[12..][..m - 12]
  {
    forall n | n in {4, 8} ensures s[..m][n..] == s[n..][..m - n] {
    }
    WordLocal(4, s, m);
    WordLocal(4, s[4..], m - 4);
    WordLocal(4, s[8..], m - 8);
  }

  lemma ListLayout(cfg: Config, t: Type, len: int, s: seq<byte>, dims: seq<nat>)
    requires t.ListOf? && len >= 1 && |dims| == Depth(t) && |s| >= 12 + 8 * |dims|
    requires Word(4, s) == Ok(|dims|) && Word(4, s[4..]).Ok? && Word(4, s[8..]).Ok?
    requires DecDims(|dims|, s[12..]) == Ok(dims) && CountsFit(1, dims)
    ensures var leaves := DecMany(cfg, Leaf(t), Prod(dims), s[12 + 8 * |dims|..]);
            && (DecList(cfg, t, len, s).Ok? <==> leaves.Ok?)
            && (leaves.Ok? ==> DecList(cfg, t, len, s) == Ok((Rows(dims, 1, leaves.value.0)[0], 12 + 8 * |dims| + leaves.value.1)))
  {
    hide Dec, DecMany, DecDims, Rows, CountsFit, Word;
  }

  lemma StructLocal(cfg: Config, t: Type, s: seq<byte>, m: nat)
    requires t.StructOf? && DecStruct(cfg, t, s).Ok? && DecStruct(cfg, t, s).value.1 <= m <= |s|
    ensures DecStruct(cfg, t, s[..m]) == DecStruct(cfg, t, s)
    decreases t, 0, 0
  {
    WordLocal(4, s, m);
    assert s[..m][4..] == s[4..][..m - 4];
    FieldsLocal(cfg, t.fields, s[4..], m - 4);
  }

  lemma {:induction false} ManyLocal(cfg: Config, t: Type, n: nat, s: seq<byte>, m: nat)
    requires DecMany(cfg, t, n, s).Ok? && DecMany(cfg, t, n, s).value.1 <= m <= |s|
    ensures DecMany(cfg, t, n, s[..m]) == DecMany(cfg, t, n, s)
    decreases t, 2, n
  {
    hide Dec;
    if n > 0 {
      var k := Dec(cfg, t, s).value.1;
      DecLocal(cfg, t, s, m);
      assert s[..m][k..] == s[k..][..m - k];
      ManyLocal(cfg, t, n - 1, s[k..], m - k);
    }
  }

  lemma {:induction false} FieldsLocal(cfg: Config, ts: seq<Type>, s: seq<byte>, m: nat)
    requires DecFields(cfg, ts, s).Ok? && DecFields(cfg, ts, s).value.1 <= m <= |s|
    ensures DecFields(cfg, ts, s[..m]) == DecFields(cfg, ts, s)
    decreases ts, 3, 0
  {
    hide Dec, Word;
    if ts != [] {
      WordLocal(4, s, m);
      assert s[..m][4..] == s[4..][..m - 4];
      var k := Dec(cfg, ts[0], s[4..]).value.1;
      DecLocal(cfg, ts[0], s[4..], m - 4);
      assert s[..m][4 + k..] == s[4 + k..][..m - 4 - k];
      FieldsLocal(cfg, ts[1..], s[4 + k..], m - 4 - k);
    }
  }

  lemma {:induction false} CellsLocal(cfg: Config, ts: seq<Type>, s: seq<byte>, m: nat)
    requires DecCells(cfg, ts, s).Ok? && DecCells(cfg, ts, s).value.1 <= m <= |s|
    ensures DecCells(cfg, ts, s[..m]) == DecCells(cfg, ts, s)
    decreases |ts|
  {
    hide Dec;
    if ts != [] {
      var k := Dec(cfg, ts[0], s).value.1;
      DecLocal(cfg, ts[0], s, m);
      assert s[..m][k..] == s[k..][..m - k];
      CellsLocal(cfg, ts[1..], s[k..], m - k);
    }
  }

  // ------------------------------------------------- cutting a file at row ends

  lemma {:induction false} RowKeeps(cfg: Config, ts: seq<Type>, p: seq<byte>, n: nat)
    requires WellFormed(cfg, ts, p) && RowLen(p).Some? && RowLen(p).value <= n <= |p|
    ensures RowLen(p[..n]) == RowLen(p)
    ensures DecCells(cfg, ts, p[..n][2..]) == DecCells(cfg, ts, p[2..])
    ensures p[..n][RowLen(p).value..] == p[RowLen(p).value..][..n - RowLen(p).value]
  {
    hide DecCells;
    RowLenPrefix(p, n);
    assert p[..n][2..] == p[2..][..n - 2];
    CellsLocal(cfg, ts, p[2..], n - 2);
  }

  lemma ScanSteps(s: seq<byte>)
    ensures |s| < 2 ==> Scan(s) == 0
    ensures |s| >= 2 && RowLen(s).None? ==> Scan(s) == if IsTrailer(s) then 2 else 0
    ensures RowLen(s).Some? ==> |s| >= 2 && Scan(s) == RowLen(s).value + Scan(s[RowLen(s).value..])
  {
    hide SWord, FieldsLen;
  }

  lemma WellFormedSteps(cfg: Config, ts: seq<Type>, s: seq<byte>)
    requires WellFormed(cfg, ts, s)
    ensures RowLen(s).None? ==> (s == [] || (|s| == 2 && IsTrailer(s))) && Table(cfg, ts, s) == []
    ensures RowLen(s).Some? ==>
            && |s| >= 2 && !IsTrailer(s)
            && DecCells(cfg, ts, s[2..]).Ok? && RowLen(s).value == 2 + DecCells(cfg, ts, s[2..]).value.1
            && WellFormed(cfg, ts, s[RowLen(s).value..])
            && Table(cfg, ts, s) == [DecCells(cfg, ts, s[2..]).value.0] + Table(cfg, ts, s[RowLen(s).value..])
  {
    hide SWord, FieldsLen, DecCells;
  }

  lemma Nothing(cfg: Config, ts: seq<Type>)
    ensures WellFormed(cfg, ts, []) && Table(cfg, ts, []) == [] && RowLen([]).None?
  {
  }

  /** Cutting the pending bytes of a well-formed file where the scan of a buffer full
      of them stops: both parts are well formed and the rows are split between them. */
  lemma {:induction false} ScanSplits(cfg: Config, ts: seq<Type>, p: seq<byte>, total: nat)
    requires WellFormed(cfg, ts, p) && total <= |p|
    ensures var v := Scan(p[..total]);
            && v <= total
            && WellFormed(cfg, ts, p[..v]) && WellFormed(cfg, ts, p[v..])
            && Table(cfg, ts, p) == Table(cfg, ts, p[..v]) + Table(cfg, ts, p[v..])
            && (v == 0 && total >= 2 ==> RowLen(p).Some?)
            && (v == 0 && RowLen(p).Some? ==> RowLen(p).value > total)
    decreases |p|
  {
    hide *;
    WellFormedSteps(cfg, ts, p);
    Nothing(cfg, ts);
    RowLenPrefix(p, total);
    ScanSteps(p[..total]);
    if RowLen(p).Some? && RowLen(p).value <= total {
      var m := RowLen(p).value;
      var q := p[m..];
      ScanSplits(cfg, ts, q, total - m);
      assert p[..total][m..] == q[..total - m];
      RowAndSplit(cfg, ts, p, Scan(q[..total - m]));
    } else if RowLen(p).None? && total == 2 {
      assert p[..2] == p && p[2..] == [];
    } else {
      assert p[0..] == p && p[..0] == [];
    }
  }

  lemma RowAndSplit(cfg: Config, ts: seq<Type>, p: seq<byte>, v: nat)
    requires WellFormed(cfg, ts, p) && RowLen(p).Some? && v <= |p| - RowLen(p).value
    requires var q := p[RowLen(p).value..];
             && WellFormed(cfg, ts, q) && WellFormed(cfg, ts, q[..v]) && WellFormed(cfg, ts, q[v..])
             && Table(cfg, ts, q) == Table(cfg, ts, q[..v]) + Table(cfg, ts, q[v..])
    ensures var n := RowLen(p).value + v;
            && WellFormed(cfg, ts, p[..n]) && WellFormed(cfg, ts, p[n..])
            && Table(cfg, ts, p) == Table(cfg, ts, p[..n]) + Table(cfg, ts, p[n..])
  {
    hide *;
    WellFormedSteps(cfg, ts, p);
    var m := RowLen(p).value;
    var x, q, row := p[..m], p[m..], DecCells(cfg, ts, p[2..]).value.0;
    RowKeeps(cfg, ts, p, m + v);
    assert p[..m + v] == x + q[..v] && p[m + v..] == q[v..];
    FileCons(cfg, ts, x, q[..v], row);
    Regrouped([row], Table(cfg, ts, q[..v]), Table(cfg, ts, q[v..]));
  }

  // ---------------------------------------------------------- what the writer sends

  /** One row: the column count, then the fields. */
  function EncColumns(nul: Option<seq<byte>>, ts: seq<Type>, vs: seq<Value>): Result<seq<byte>>
    requires |ts| == |vs| && forall i | 0 <= i < |vs| :: HasType(ts[i], vs[i])
    decreases |ts|
  {
    if ts == [] then Ok([])
    else
      var x :- Enc(nul, ts[0], vs[0]);
      var y :- EncColumns(nul, ts[1..], vs[1..]);
      Ok(x + y)
  }

  predicate IsRow(ts: seq<Type>, vs: seq<Value>) {
    |ts| == |vs| && forall i | 0 <= i < |vs| :: HasType(ts[i], vs[i])
  }

  function EncRowBytes(nul: Option<seq<byte>>, ts: seq<Type>, vs: seq<Value>): Result<seq<byte>>
    requires IsRow(ts, vs)
  {
    var cols :- EncColumns(nul, ts, vs);
    Ok(Put(2, |ts|) + cols)
  }

  function EncRowsBytes(nul: Option<seq<byte>>, ts: seq<Type>, rows: seq<seq<Value>>): Result<seq<byte>>
    requires forall r | r in rows :: IsRow(ts, r)
  {
    if rows == [] then Ok([])
    else
      var x :- EncRowBytes(nul, ts, rows[0]);
      var y :- EncRowsBytes(nul, ts, rows[1..]);
      Ok(x + y)
  }

  /** A field announces its own length: the framing of everything WriteValue emits. */
  lemma EncFramed(nul: Option<seq<byte>>, t: Type, v: Value, tail: seq<byte>)
    requires HasType(t, v) && Enc(nul, t, v).Ok? && |Enc(nul, t, v).value| <= INT32_MAX
    ensures var b := Enc(nul, t, v).value;
            |b| >= 4 && SWord(4, b + tail).Ok? && |b| == 4 + (var n := SWord(4, b + tail).value; if n > 0 then n else 0)
  {
    hide *;
    EncSize(nul, t, v);
    EncIsPatched(nul, t, v);
    if v.NullV? {
      FrameOfNull(tail);
    } else {
      var body :| Enc(nul, t, v).value == Patched(body);
      FrameOfPatched(body, tail);
    }
  }

  lemma FrameOfNull(tail: seq<byte>)
    ensures SWord(4, Put(4, -1) + tail) == Ok(-1)
  {
    Sizes();
    WordPut(4, -1, tail);
  }

  lemma FrameOfPatched(body: seq<byte>, tail: seq<byte>)
    requires |Patched(body)| <= INT32_MAX
    ensures SWord(4, Patched(body) + tail) == Ok(|body|)
  {
    FieldSplit(body, tail);
  }

  /** Whatever is not NULL is a length in front of that many bytes. */
  lemma EncIsPatched(nul: Option<seq<byte>>, t: Type, v: Value)
    requires HasType(t, v) && Enc(nul, t, v).Ok?
    ensures v.NullV? ==> Enc(nul, t, v) == Ok(Put(4, -1))
    ensures !v.NullV? ==> exists body :: Enc(nul, t, v).value == Patched(body)
  {
    hide *;
    EncCases(nul, t, v);
    if !v.NullV? {
      if t.ListOf? {
        if v.items == [] {
          EmptyIsPatched(Oid(t.elem).value);
        } else {
          EncOfArray(nul, t, v);
        }
      } else if t.StructOf? {
        StructIsPatched(nul, t, v);
      }
    }
  }

  lemma EmptyIsPatched(oid: nat)
    ensures Put(4, 12) + Put(4, 0) + Put(4, 0) + Put(4, oid) == Patched(Put(4, 0) + Put(4, 0) + Put(4, oid))
  {
    hide Put;
  }

  lemma StructIsPatched(nul: Option<seq<byte>>, t: Type, v: Value)
    requires t.StructOf? && v.StructV? && HasType(t, v) && Enc(nul, t, v).Ok?
    ensures exists body :: Enc(nul, t, v).value == Patched(body)
  {
    hide EncFields, Patched, Put;
    assert Enc(nul, t, v).value == Patched(Put(4, |t.fields|) + EncFields(nul, t.fields, v.fields).value);
  }

  lemma {:induction false} ColumnsRoundTrip(nul: Option<seq<byte>>, cfg: Config, ts: seq<Type>, vs: seq<Value>, tail: seq<byte>)
    requires IsRow(ts, vs) && Usable(nul)
    requires EncColumns(nul, ts, vs).Ok? && |EncColumns(nul, ts, vs).value| <= INT32_MAX
    ensures var b := EncColumns(nul, ts, vs).value;
            DecCells(cfg, ts, b + tail) == Ok((ReplacedFields(nul, ts, vs), |b|)) && FieldsLen(|ts|, b + tail) == Some(|b|)
    decreases |ts|
  {
    hide *;
    RowCases(ts, vs);
    EncColumnsSteps(nul, ts, vs);
    ReplacedRowSteps(nul, ts, vs);
    if ts == [] {
      NoColumns(cfg, tail);
      assert EncColumns(nul, ts, vs).value + tail == tail;
    } else {
      var x, y := Enc(nul, ts[0], vs[0]).value, EncColumns(nul, ts[1..], vs[1..]).value;
      RoundTrip(nul, cfg, ts[0], vs[0], y + tail);
      EncFramed(nul, ts[0], vs[0], y + tail);
      ColumnsRoundTrip(nul, cfg, ts[1..], vs[1..], tail);
      OneColumn(cfg, ts, x, y + tail, Replaced(nul, ts[0], vs[0]), ReplacedFields(nul, ts[1..], vs[1..]), |y|);
      Regrouped(x, y, tail);
    }
  }

  lemma ReplacedRowSteps(nul: Option<seq<byte>>, ts: seq<Type>, vs: seq<Value>)
    requires IsRow(ts, vs)
    ensures ts == [] ==> ReplacedFields(nul, ts, vs) == []
    ensures ts != [] ==> HasType(ts[0], vs[0]) && IsRow(ts[1..], vs[1..])
                         && ReplacedFields(nul, ts, vs) == [Replaced(nul, ts[0], vs[0])] + ReplacedFields(nul, ts[1..], vs[1..])
  {
    hide HasType, Replaced;
  }

  /** The rows that are stored: NUL bytes of their texts replaced. */
  function ReplacedRows(nul: Option<seq<byte>>, ts: seq<Type>, rows: seq<seq<Value>>): (r: seq<seq<Value>>)
    requires forall row | row in rows :: IsRow(ts, row)
    ensures |r| == |rows|
  {
    seq(|rows|, i requires 0 <= i < |rows| && IsRow(ts, rows[i]) => ReplacedFields(nul, ts, rows[i]))
  }

  lemma RowCases(ts: seq<Type>, vs: seq<Value>)
    requires IsRow(ts, vs)
    ensures |ts| == |vs| && forall i | 0 <= i < |vs| :: HasType(ts[i], vs[i])
    ensures ts != [] ==> IsRow(ts[1..], vs[1..])
  {
  }

  lemma EncColumnsSteps(nul: Option<seq<byte>>, ts: seq<Type>, vs: seq<Value>)
    requires IsRow(ts, vs) && EncColumns(nul, ts, vs).Ok?
    ensures ts == [] ==> EncColumns(nul, ts, vs) == Ok([])
    ensures ts != [] ==>
            && Enc(nul, ts[0], vs[0]).Ok? && EncColumns(nul, ts[1..], vs[1..]).Ok?
            && EncColumns(nul, ts, vs) == Ok(Enc(nul, ts[0], vs[0]).value + EncColumns(nul, ts[1..], vs[1..]).value)
  {
    hide Enc, HasType;
  }

  lemma NoColumns(cfg: Config, tail: seq<byte>)
    ensures DecCells(cfg, [], tail) == Ok(([], 0)) && FieldsLen(0, tail) == Some(0)
  {
  }

  lemma OneColumn(cfg: Config, ts: seq<Type>, x: seq<byte>, rest: seq<byte>, v: Value, vs: seq<Value>, k: nat)
    requires ts != [] && |x| >= 4 && Dec(cfg, ts[0], x + rest) == Ok((v, |x|))
    requires SWord(4, x + rest).Ok? && |x| == 4 + (var n := SWord(4, x + rest).value; if n > 0 then n else 0)
    requires DecCells(cfg, ts[1..], rest) == Ok((vs, k)) && FieldsLen(|ts| - 1, rest) == Some(k)
    ensures DecCells(cfg, ts, x + rest) == Ok(([v] + vs, |x| + k)) && FieldsLen(|ts|, x + rest) == Some(|x| + k)
  {
    hide *;
    var s := x + rest;
    assert s[|x|..] == rest && |s| == |x| + |rest|;
    CellsStep(cfg, ts, s);
    FieldsLenStep(|ts|, s);
  }

  lemma CellsStep(cfg: Config, ts: seq<Type>, s: seq<byte>)
    requires ts != [] && Dec(cfg, ts[0], s).Ok?
    requires DecCells(cfg, ts[1..], s[Dec(cfg, ts[0], s).value.1..]).Ok?
    ensures var (v, k) := Dec(cfg, ts[0], s).value;
            var (vs, m) := DecCells(cfg, ts[1..], s[k..]).value;
            DecCells(cfg, ts, s) == Ok(([v] + vs, k + m))
  {
    hide Dec, Word, SWord;
    var k := Dec(cfg, ts[0], s).value.1;
    var rest := s[k..];
    assert DecCells(cfg, ts[1..], rest).Ok?;
  }

  lemma FieldsLenStep(n: nat, s: seq<byte>)
    requires n > 0 && SWord(4, s).Ok?
    ensures var len := SWord(4, s).value;
            var k := 4 + if len > 0 then len else 0;
            k <= |s| && FieldsLen(n - 1, s[k..]).Some? ==> FieldsLen(n, s) == Some(k + FieldsLen(n - 1, s[k..]).value)
  {
    hide ToSigned, Val;
  }

  /** Main result on files: the rows one COPY emits, with the footer behind them, are
      a well-formed file body that parses back to exactly those rows. */
  lemma {:induction false} FileRoundTrip(nul: Option<seq<byte>>, cfg: Config, ts: seq<Type>, rows: seq<seq<Value>>)
    requires 0 < |ts| < 0x8000 && (forall r | r in rows :: IsRow(ts, r)) && Usable(nul)
    requires EncRowsBytes(nul, ts, rows).Ok?
    requires forall r | r in rows && EncColumns(nul, ts, r).Ok? :: |EncColumns(nul, ts, r).value| <= INT32_MAX
    ensures var s := EncRowsBytes(nul, ts, rows).value + Put(2, -1);
            WellFormed(cfg, ts, s) && Table(cfg, ts, s) == ReplacedRows(nul, ts, rows)
  {
    hide *;
    EncRowsSteps(nul, ts, rows);
    ReplacedRowsCons(nul, ts, rows);
    if rows == [] {
      FooterIsTrailer();
      FooterAlone(cfg, ts);
      assert EncRowsBytes(nul, ts, rows).value + Put(2, -1) == Put(2, -1);
    } else {
      var x, y := EncRowBytes(nul, ts, rows[0]).value, EncRowsBytes(nul, ts, rows[1..]).value;
      FileRoundTrip(nul, cfg, ts, rows[1..]);
      RowCases(ts, rows[0]);
      Regrouped(x, y, Put(2, -1));
      RowRoundTrip(nul, cfg, ts, rows[0], y + Put(2, -1));
      FileCons(cfg, ts, x, y + Put(2, -1), ReplacedFields(nul, ts, rows[0]));
    }
  }

  lemma ReplacedRowsCons(nul: Option<seq<byte>>, ts: seq<Type>, rows: seq<seq<Value>>)
    requires forall row | row in rows :: IsRow(ts, row)
    ensures rows == [] ==> ReplacedRows(nul, ts, rows) == []
    ensures rows != [] ==>
            && IsRow(ts, rows[0]) && (forall row | row in rows[1..] :: IsRow(ts, row))
            && ReplacedRows(nul, ts, rows) == [ReplacedFields(nul, ts, rows[0])] + ReplacedRows(nul, ts, rows[1..])
  {
    hide IsRow;
    assert rows != [] ==> rows[0] in rows && forall row | row in rows[1..] :: row in rows;
  }

  lemma EncRowsSteps(nul: Option<seq<byte>>, ts: seq<Type>, rows: seq<seq<Value>>)
    requires (forall r | r in rows :: IsRow(ts, r)) && EncRowsBytes(nul, ts, rows).Ok?
    ensures rows == [] ==> EncRowsBytes(nul, ts, rows) == Ok([])
    ensures rows != [] ==>
            && rows[0] in rows && |rows[0]| == |ts| && (forall r | r in rows[1..] :: r in rows)
            && EncColumns(nul, ts, rows[0]).Ok? && EncRowBytes(nul, ts, rows[0]).Ok? && EncRowsBytes(nul, ts, rows[1..]).Ok?
            && EncRowsBytes(nul, ts, rows) == Ok(EncRowBytes(nul, ts, rows[0]).value + EncRowsBytes(nul, ts, rows[1..]).value)
  {
    hide EncColumns, HasType, Put;
  }

  lemma FooterAlone(cfg: Config, ts: seq<Type>)
    requires |Put(2, -1)| == 2 && IsTrailer(Put(2, -1)) && RowLen(Put(2, -1)).None?
    ensures WellFormed(cfg, ts, Put(2, -1)) && Table(cfg, ts, Put(2, -1)) == []
  {
    hide Put, RowLen, IsTrailer;
  }

  lemma FooterIsTrailer()
    ensures IsTrailer(Put(2, -1)) && RowLen(Put(2, -1)).None?
  {
    Sizes();
    WordPut(2, -1, []);
    assert Put(2, -1) + [] == Put(2, -1);
  }

  lemma RowRoundTrip(nul: Option<seq<byte>>, cfg: Config, ts: seq<Type>, vs: seq<Value>, tail: seq<byte>)
    requires 0 < |ts| < 0x8000 && IsRow(ts, vs) && Usable(nul)
    requires EncColumns(nul, ts, vs).Ok? && |EncColumns(nul, ts, vs).value| <= INT32_MAX
    ensures var b := EncRowBytes(nul, ts, vs).value;
            RowLen(b + tail) == Some(|b|) && DecCells(cfg, ts, (b + tail)[2..]) == Ok((ReplacedFields(nul, ts, vs), |b| - 2))
  {
    var cols := EncColumns(nul, ts, vs).value;
    Sizes();
    hide EncColumns, DecCells, FieldsLen, Put, Val, Enc, Dec, HasType, Replaced, SWord, Pow;
    ColumnsRoundTrip(nul, cfg, ts, vs, tail);
    Regrouped(Put(2, |ts|), cols, tail);
    WordPut(2, |ts|, cols + tail);
    RowOfFields(Put(2, |ts|) + (cols + tail), |ts|, |cols|);
  }

  lemma RowOfFields(s: seq<byte>, n: nat, k: nat)
    requires |s| >= 2 && n > 0 && SWord(2, s) == Ok(n) && FieldsLen(n, s[2..]) == Some(k)
    ensures RowLen(s) == Some(2 + k)
  {
    hide FieldsLen, SWord;
  }

  lemma FileCons(cfg: Config, ts: seq<Type>, x: seq<byte>, rest: seq<byte>, row: seq<Value>)
    requires RowLen(x + rest) == Some(|x|) && |x| >= 2 && DecCells(cfg, ts, (x + rest)[2..]) == Ok((row, |x| - 2))
    requires WellFormed(cfg, ts, rest)
    ensures WellFormed(cfg, ts, x + rest) && Table(cfg, ts, x + rest) == [row] + Table(cfg, ts, rest)
  {
    assert (x + rest)[|x|..] == rest;
    hide DecCells, RowLen;
  }
}
