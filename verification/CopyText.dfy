/** COPY in text format: what PostgresTextWriter sends (src/include/postgres_text_writer.hpp)
    and how the server takes it apart ("Text Format" of the PostgreSQL COPY command,
    with a raw backspace as the NULL marker). */
module CopyText {
  import opened Wrappers
  import opened Characters

  type Cell = Option<string>

  // ------------------------------------------------------------------- writing

  /** PostgresCopyState::Initialize: a replacement must not contain NUL itself. */
  function Initialize(setting: Option<string>): Result<Option<string>> {
    if setting.Some? && NUL in setting.value then Err(NulByte) else Ok(setting)
  }

  /** A usable replacement setting. */
  predicate Usable(nul: Option<string>) {
    nul.Some? ==> NUL !in nul.value
  }

  /** One character other than NUL. */
  function EscapeChar(c: char): (s: string)
    ensures |s| == 1 || |s| == 2
  {
    if c == '\n' then "\\n"
    else if c == '\r' then "\\r"
    else if c == BS then "\\b"
    else if c == FF then "\\f"
    else if c == '\t' then "\\t"
    else if c == VT then "\\v"
    else if c == '\\' then "\\\\"
    else if c == '"' then "\\\""
    else [c]
  }

  function EscapeText(s: string): string {
    if s == "" then "" else EscapeChar(s[0]) + EscapeText(s[1..])
  }

  /** The text that is stored: NUL characters replaced, or refused. */
  function Stored(nul: Option<string>, s: string): (r: Result<string>)
    ensures nul.Some? ==> r.Ok?
    ensures NUL !in s ==> r.Ok?
    ensures nul.None? && NUL in s ==> r == Err(NulByte)
  {
    if s == "" then Ok("")
    else
      var head :- if s[0] != NUL then Ok([s[0]]) else if nul.None? then Err(NulByte) else Ok(nul.value);
      var tail :- Stored(nul, s[1..]);
      Ok(head + tail)
  }

  function EncCell(nul: Option<string>, v: Cell): Result<string> {
    match v
    case None => Ok([BS])
    case Some(s) => var t :- Stored(nul, s); Ok(EscapeText(t))
  }

  /** The cells of a row from the c-th on, each behind a separator unless it is the first. */
  function EncCells(nul: Option<string>, row: seq<Cell>, c: nat): Result<string>
    requires c <= |row|
    decreases |row| - c
  {
    if c == |row| then Ok("")
    else
      var x :- EncCell(nul, row[c]);
      var y :- EncCells(nul, row, c + 1);
      Ok((if c > 0 then "\t" else "") + x + y)
  }

  function EncRow(nul: Option<string>, row: seq<Cell>): Result<string> {
    var x :- EncCells(nul, row, 0);
    Ok(x + "\n")
  }

  function EncRows(nul: Option<string>, rows: seq<seq<Cell>>): Result<string> {
    if rows == [] then Ok("")
    else
      var x :- EncRow(nul, rows[0]);
      var y :- EncRows(nul, rows[1..]);
      Ok(x + y)
  }

  const FOOTER := "\\.\n"

  class TextWriter {
    var stream: string
    const nul: Option<string>

    constructor (nul: Option<string>)
      ensures stream == "" && this.nul == nul
    {
      stream := "";
      this.nul := nul;
    }

    method WriteCharInternal(c: char)
      modifies this
      ensures stream == old(stream) + [c]
    {
      stream := stream + [c];
    }

    method WriteNull()
      modifies this
      ensures stream == old(stream) + [BS]
    {
      WriteCharInternal(BS);
    }

    method WriteEscaped(c: char)
      modifies this
      ensures stream == old(stream) + ['\\', c]
    {
      WriteCharInternal('\\');
      WriteCharInternal(c);
    }

    /** WriteChar. It calls itself for each character of the replacement of a NUL,
        and those calls do not go deeper. */
    method WriteChar(c: char) returns (o: Outcome)
      requires Usable(nul)
      modifies this
      ensures var want := Stored(nul, [c]);
              if want.Ok? then o == Pass && stream == old(stream) + EscapeText(want.value) else o == Fail(want.error)
      decreases if c == NUL then 1 else 0
    {
      OneStored(nul, c);
      o := Pass;
      if c == '\n' {
        WriteEscaped('n');
      } else if c == '\r' {
        WriteEscaped('r');
      } else if c == BS {
        WriteEscaped('b');
      } else if c == FF {
        WriteEscaped('f');
      } else if c == '\t' {
        WriteEscaped('t');
      } else if c == VT {
        WriteEscaped('v');
      } else if c == '\\' {
        WriteEscaped('\\');
      } else if c == '"' {
        WriteEscaped('"');
      } else if c == NUL {
        if nul.None? {
          return Fail(NulByte);
        }
        var i := 0;
        assert nul.value[..0] == "";
        while i < |nul.value|
          invariant 0 <= i <= |nul.value| && stream == old(stream) + EscapeText(nul.value[..i])
        {
          assert nul.value[i] in nul.value;
          OneStored(nul, nul.value[i]);
          o := WriteChar(nul.value[i]);
          EscapeAppend(nul.value[..i], [nul.value[i]]);
          assert nul.value[..i + 1] == nul.value[..i] + [nul.value[i]];
          i := i + 1;
        }
        assert nul.value[..i] == nul.value;
        o := Pass;
      } else {
        WriteCharInternal(c);
      }
    }

    method WriteVarchar(s: string) returns (o: Outcome)
      requires Usable(nul)
      modifies this
      ensures var want := EncCell(nul, Some(s));
              if want.Ok? then o == Pass && stream == old(stream) + want.value else o == Fail(want.error)
    {
      TextStart(nul, s);
      hide Stored, EscapeText, EscapeChar;
      var c := 0;
      while c < |s|
        invariant 0 <= c <= |s| && Stored(nul, s[..c]).Ok?
        invariant stream == old(stream) + EscapeText(Stored(nul, s[..c]).value)
      {
        TextStep(nul, s, c);
        ghost var done := EscapeText(Stored(nul, s[..c]).value);
        o := WriteChar(s[c]);
        if o.Fail? {
          return;
        }
        assert old(stream) + done + EscapeText(Stored(nul, [s[c]]).value) == old(stream) + (done + EscapeText(Stored(nul, [s[c]]).value));
        c := c + 1;
      }
      assert s[..c] == s;
      o := Pass;
    }

    method WriteValue(v: Cell) returns (o: Outcome)
      requires Usable(nul)
      modifies this
      ensures var want := EncCell(nul, v);
              if want.Ok? then o == Pass && stream == old(stream) + want.value else o == Fail(want.error)
    {
      match v {
        case None => WriteNull(); o := Pass;
        case Some(s) => o := WriteVarchar(s);
      }
    }

    method WriteSeparator()
      modifies this
      ensures stream == old(stream) + "\t"
    {
      WriteCharInternal('\t');
    }

    method FinishRow()
      modifies this
      ensures stream == old(stream) + "\n"
    {
      WriteCharInternal('\n');
    }

    method WriteFooter()
      modifies this
      ensures stream == old(stream) + FOOTER
    {
      stream := stream + FOOTER;
    }

    /** The column loop of CopyChunk and the end of the row. */
    method WriteRow(row: seq<Cell>) returns (o: Outcome)
      requires Usable(nul)
      modifies this
      ensures var want := EncRow(nul, row);
              if want.Ok? then o == Pass && stream == old(stream) + want.value else o == Fail(want.error)
    {
      hide EncCell;
      ghost var want := EncCells(nul, row, 0);
      ghost var done := "";
      var c := 0;
      assert want.Ok? ==> "" + want.value == want.value;
      while c < |row|
        invariant 0 <= c <= |row| && stream == old(stream) + done
        invariant want == Behind(done, EncCells(nul, row, c))
      {
        if c > 0 {
          WriteSeparator();
        }
        o := WriteValue(row[c]);
        if o.Fail? {
          return;
        }
        ghost var piece := (if c > 0 then "\t" else "") + EncCell(nul, row[c]).value;
        assert EncCells(nul, row, c) == Behind(piece, EncCells(nul, row, c + 1));
        BehindBehind(done, piece, EncCells(nul, row, c + 1));
        done := done + piece;
        c := c + 1;
      }
      FinishRow();
      o := Pass;
    }

    /** The row loop of CopyChunk in text format. */
    method WriteRows(rows: seq<seq<Cell>>) returns (o: Outcome)
      requires Usable(nul)
      modifies this
      ensures var want := EncRows(nul, rows);
              if want.Ok? then o == Pass && stream == old(stream) + want.value else o == Fail(want.error)
    {
      hide EncRow;
      ghost var want := EncRows(nul, rows);
      ghost var done := "";
      var r := 0;
      assert rows[0..] == rows && (want.Ok? ==> "" + want.value == want.value);
      while r < |rows|
        invariant 0 <= r <= |rows| && stream == old(stream) + done
        invariant want == Behind(done, EncRows(nul, rows[r..]))
      {
        assert rows[r..][1..] == rows[r + 1..];
        o := WriteRow(rows[r]);
        if o.Fail? {
          return;
        }
        ghost var piece := EncRow(nul, rows[r]).value;
        assert EncRows(nul, rows[r..]) == Behind(piece, EncRows(nul, rows[r + 1..]));
        BehindBehind(done, piece, EncRows(nul, rows[r + 1..]));
        done := done + piece;
        r := r + 1;
      }
      o := Pass;
    }
  }

  function Behind(done: string, rest: Result<string>): Result<string> {
    match rest case Ok(s) => Ok(done + s) case Err(e) => Err(e)
  }

  lemma BehindBehind(done: string, piece: string, rest: Result<string>)
    ensures Behind(done, Behind(piece, rest)) == Behind(done + piece, rest)
  {
    assert rest.Ok? ==> done + (piece + rest.value) == done + piece + rest.value;
  }

  lemma OneStored(nul: Option<string>, c: char)
    ensures Stored(nul, [c]) == if c != NUL then Ok([c]) else if nul.None? then Err(NulByte) else Ok(nul.value)
    ensures EscapeText([c]) == EscapeChar(c)
  {
    assert [c][1..] == "" && [c] + "" == [c] && EscapeChar(c) + "" == EscapeChar(c);
    assert nul.Some? ==> nul.value + "" == nul.value;
  }

  lemma TextStart(nul: Option<string>, s: string)
    ensures s[..0] == "" && Stored(nul, "") == Ok("") && EscapeText("") == ""
  {
  }

  lemma TextStep(nul: Option<string>, s: string, c: nat)
    requires c < |s| && Stored(nul, s[..c]).Ok?
    ensures Stored(nul, [s[c]]).Err? ==> Stored(nul, s) == Err(Stored(nul, [s[c]]).error)
    ensures Stored(nul, [s[c]]).Ok? ==>
            && Stored(nul, s[..c + 1]).Ok?
            && EscapeText(Stored(nul, s[..c + 1]).value) == EscapeText(Stored(nul, s[..c]).value) + EscapeText(Stored(nul, [s[c]]).value)
  {
    hide EscapeText, EscapeChar;
    OneStored(nul, s[c]);
    assert s[..c + 1] == s[..c] + [s[c]] && s == s[..c + 1] + s[c + 1..];
    StoredAppend(nul, s[..c], [s[c]]);
    StoredAppend(nul, s[..c + 1], s[c + 1..]);
    if Stored(nul, [s[c]]).Ok? {
      EscapeAppend(Stored(nul, s[..c]).value, Stored(nul, [s[c]]).value);
    } else {
      assert Stored(nul, s[..c] + [s[c]]) == Err(NulByte);
    }
  }

  lemma {:induction false} EscapeAppend(a: string, b: string)
    ensures EscapeText(a + b) == EscapeText(a) + EscapeText(b)
    decreases |a|
  {
    hide EscapeChar;
    if a == "" {
      assert a + b == b;
    } else {
      EscapeAppend(a[1..], b);
      var c := a + b;
      assert c[1..] == a[1..] + b && c[0] == a[0];
      assert EscapeText(c) == EscapeChar(a[0]) + (EscapeText(a[1..]) + EscapeText(b));
    }
  }

  lemma {:induction false} StoredAppend(nul: Option<string>, a: string, b: string)
    ensures Stored(nul, a).Ok? && Stored(nul, b).Ok? ==> Stored(nul, a + b) == Ok(Stored(nul, a).value + Stored(nul, b).value)
    ensures Stored(nul, a).Err? || Stored(nul, b).Err? ==> Stored(nul, a + b) == Err(NulByte)
    decreases |a|
  {
    if a == "" {
      assert a + b == b;
      assert Stored(nul, b).Ok? ==> "" + Stored(nul, b).value == Stored(nul, b).value;
    } else {
      StoredAppend(nul, a[1..], b);
      assert (a + b)[1..] == a[1..] + b;
      var head := if a[0] != NUL then [a[0]] else if nul.Some? then nul.value else "";
      if Stored(nul, a[1..]).Ok? && Stored(nul, b).Ok? {
        assert head + (Stored(nul, a[1..]).value + Stored(nul, b).value) == head + Stored(nul, a[1..]).value + Stored(nul, b).value;
      }
    }
  }

  // ------------------------------------------------- how the server reads it back

  predicate IsLineEnd(c: char) {
    c == '\n' || c == '\r'
  }

  /** Up to the first line end that is not escaped, and the rest behind it. A carriage
      return ends a line as well. */
  function NextLine(s: string): (string, string)
    decreases |s|
  {
    if s == "" then ("", "")
    else if IsLineEnd(s[0]) then ("", s[1..])
    else if s[0] == '\\' && |s| > 1 then var (l, r) := NextLine(s[2..]); (s[..2] + l, r)
    else var (l, r) := NextLine(s[1..]); (s[..1] + l, r)
  }

  /** The raw fields of a line: cut at tabs that are not escaped. */
  function Fields(s: string): (r: seq<string>)
    ensures r != []
    decreases |s|
  {
    if s == "" then [""]
    else if s[0] == '\t' then [""] + Fields(s[1..])
    else
      var n := if s[0] == '\\' && |s| > 1 then 2 else 1;
      var more := Fields(s[n..]);
      [s[..n] + more[0]] + more[1..]
  }

  predicate IsOctal(c: char) {
    '0' <= c <= '7'
  }

  /** Backslash sequences: octal, hexadecimal, the named ones, or the character itself. */
  function Unescape(s: string): string
    decreases |s|
  {
    if s == "" then ""
    else if s[0] != '\\' then [s[0]] + Unescape(s[1..])
    else if |s| == 1 then ""
    else if IsOctal(s[1]) then
      var n := if |s| > 2 && IsOctal(s[2]) then if |s| > 3 && IsOctal(s[3]) then 4 else 3 else 2;
      [(OctalValue(s[1..n]) % 256) as char] + Unescape(s[n..])
    else if s[1] == 'x' && |s| > 2 && IsHex(s[2]) then
      if |s| > 3 && IsHex(s[3]) then [(HexValue(s[2]) * 16 + HexValue(s[3])) as char] + Unescape(s[4..])
      else [HexValue(s[2]) as char] + Unescape(s[3..])
    else [Named(s[1])] + Unescape(s[2..])
  }

  function OctalValue(s: string): nat
    requires forall c | c in s :: IsOctal(c)
  {
    if s == "" then 0 else assert IsOctal(s[|s| - 1]); OctalValue(s[..|s| - 1]) * 8 + (s[|s| - 1] as int - '0' as int)
  }

  function Named(c: char): char {
    match c
    case 'b' => BS
    case 'f' => FF
    case 'n' => '\n'
    case 'r' => '\r'
    case 't' => '\t'
    case 'v' => VT
    case _ => c
  }

  /** The NULL marker is compared with the raw field. */
  function DecCell(raw: string): Cell {
    if raw == [BS] then None else Some(Unescape(raw))
  }

  function DecRow(line: string): seq<Cell> {
    var raw := Fields(line);
    seq(|raw|, i requires 0 <= i < |raw| => DecCell(raw[i]))
  }

  /** Lines up to the end-of-data line. */
  function Decode(s: string): seq<seq<Cell>>
    decreases |s|
  {
    if s == "" then []
    else
      NextLineShorter(s);
      var (line, rest) := NextLine(s);
      if line == "\\." then [] else [DecRow(line)] + Decode(rest)
  }

  lemma {:induction false} NextLineShorter(s: string)
    requires s != ""
    ensures |NextLine(s).1| < |s|
    decreases |s|
  {
    if IsLineEnd(s[0]) {
    } else if s[0] == '\\' && |s| > 1 {
      if |s| > 2 {
        NextLineShorter(s[2..]);
      }
    } else if |s| > 1 {
      NextLineShorter(s[1..]);
    }
  }

  // ---------------------------------------------------------------- round trip

  /** Escaped text of one field: no raw line end or tab, no escaped dot, nothing cut
      off in the middle of an escape. */
  predicate IsField(s: string)
    decreases |s|
  {
    s == ""
    || (s[0] == '\\' && |s| > 1 && s[1] != '.' && IsField(s[2..]))
    || (s[0] != '\\' && !IsLineEnd(s[0]) && s[0] != '\t' && IsField(s[1..]))
  }

  lemma {:induction false} EscapedIsField(s: string)
    ensures IsField(EscapeText(s))
  {
    if s != "" {
      EscapedIsField(s[1..]);
      var e, rest := EscapeChar(s[0]), EscapeText(s[1..]);
      assert (e + rest)[|e|..] == rest;
    }
  }

  lemma UnescapeSteps(s: string)
    ensures s == "" ==> Unescape(s) == ""
    ensures s != "" && s[0] != '\\' ==> Unescape(s) == [s[0]] + Unescape(s[1..])
    ensures |s| > 1 && s[0] == '\\' && !IsOctal(s[1]) && s[1] != 'x' ==> Unescape(s) == [Named(s[1])] + Unescape(s[2..])
  {
    hide OctalValue, Named;
  }

  lemma EscapeCases(c: char)
    ensures var e := EscapeChar(c);
            || (e == [c] && c !in "\n\r\t\\" && c != BS)
            || (|e| == 2 && e[0] == '\\' && e[1] in "nrbftv\\\"" && Named(e[1]) == c)
  {
  }

  lemma UnescapeOne(c: char, rest: string)
    ensures Unescape(EscapeChar(c) + rest) == [c] + Unescape(rest)
  {
    var e := EscapeChar(c);
    var s := e + rest;
    EscapeCases(c);
    UnescapeSteps(s);
    hide Unescape, EscapeChar, Named;
    assert s[|e|..] == rest && s[0] == e[0];
    if |e| == 2 {
      assert s[1] == e[1];
    }
  }

  lemma {:induction false} UnescapeEscaped(s: string)
    ensures Unescape(EscapeText(s)) == s
  {
    hide Unescape, EscapeChar;
    UnescapeSteps("");
    if s != "" {
      UnescapeEscaped(s[1..]);
      UnescapeOne(s[0], EscapeText(s[1..]));
      assert [s[0]] + s[1..] == s;
    }
  }

  /** A text is never taken for the NULL marker, and comes back as it was stored. */
  lemma CellRoundTrip(nul: Option<string>, v: Cell)
    requires EncCell(nul, v).Ok?
    ensures IsField(EncCell(nul, v).value)
    ensures DecCell(EncCell(nul, v).value) == if v.None? then None else Some(Stored(nul, v.value).value)
  {
    if v.Some? {
      var t := Stored(nul, v.value).value;
      EscapedIsField(t);
      UnescapeEscaped(t);
      if t != "" {
        var e := EscapeChar(t[0]);
        assert EscapeText(t) == e + EscapeText(t[1..]);
        assert e[0] != BS;
      }
    } else {
      assert [BS][1..] == "";
    }
  }

  /** How many characters the readers take off a field at once. */
  function Token(s: string): (n: nat)
    requires s != ""
    ensures 1 <= n <= |s|
  {
    if s[0] == '\\' && |s| > 1 then 2 else 1
  }

  lemma FieldsStep(s: string)
    requires s != "" && s[0] != '\t'
    ensures Fields(s) == [s[..Token(s)] + Fields(s[Token(s)..])[0]] + Fields(s[Token(s)..])[1..]
  {
  }

  lemma LineStep(s: string)
    requires s != "" && !IsLineEnd(s[0])
    ensures NextLine(s) == (s[..Token(s)] + NextLine(s[Token(s)..]).0, NextLine(s[Token(s)..]).1)
  {
  }

  lemma IsFieldStep(f: string)
    requires f != "" && IsField(f)
    ensures f[0] != '\t' && !IsLineEnd(f[0]) && IsField(f[Token(f)..]) && (f[0] == '\\' ==> |f| > 1)
  {
  }

  lemma SplitAt(f: string, tail: string, n: nat)
    requires n <= |f|
    ensures (f + tail)[..n] == f[..n] && (f + tail)[n..] == f[n..] + tail && f[..n] + f[n..] == f
  {
  }

  lemma FieldStep(f: string, tail: string)
    requires f != "" && IsField(f)
    ensures f[0] != '\t' && !IsLineEnd(f[0])
    ensures var n := Token(f);
            && Token(f + tail) == n && IsField(f[n..])
            && (f + tail)[..n] == f[..n] && (f + tail)[n..] == f[n..] + tail && f[..n] + f[n..] == f
  {
    IsFieldStep(f);
    SplitAt(f, tail, Token(f));
    hide IsField;
    assert (f + tail)[0] == f[0];
  }

  lemma {:induction false} FieldsOf(f: string, rest: string)
    requires IsField(f)
    ensures Fields(f) == [f]
    ensures Fields(f + "\t" + rest) == [f] + Fields(rest)
    decreases |f|
  {
    hide Fields, IsField, Token;
    var tail := "\t" + rest;
    assert f + "\t" + rest == f + tail;
    if f == "" {
      NoField(rest);
      assert f + tail == tail;
    } else {
      var n := Token(f);
      FieldStep(f, tail);
      assert f[n..] + "\t" + rest == f[n..] + tail;
      FieldsStep(f);
      FieldsStep(f + tail);
      FieldsOf(f[n..], rest);
      Headed(f[n..], Fields(rest));
    }
  }

  lemma NoField(rest: string)
    ensures Fields("") == [""] && Fields("\t" + rest) == [""] + Fields(rest)
  {
    assert ("\t" + rest)[1..] == rest;
  }

  lemma Headed(f: string, more: seq<string>)
    ensures [f][0] == f && [f][1..] == [] && ([f] + more)[0] == f && ([f] + more)[1..] == more
  {
  }

  lemma {:induction false} LineOf(f: string, tail: string)
    requires IsField(f)
    ensures NextLine(f + tail) == (f + NextLine(tail).0, NextLine(tail).1)
    decreases |f|
  {
    hide NextLine, IsField, Token;
    if f == "" {
      assert f + tail == tail && f + NextLine(tail).0 == NextLine(tail).0;
    } else {
      var n := Token(f);
      FieldStep(f, tail);
      LineStep(f + tail);
      LineOf(f[n..], tail);
      assert f[..n] + (f[n..] + NextLine(tail).0) == f + NextLine(tail).0;
    }
  }

  /** A row as the server sees it: its cells with NULs replaced. */
  function StoredCell(nul: Option<string>, v: Cell): Result<Cell> {
    match v
    case None => Ok(None)
    case Some(s) => var t :- Stored(nul, s); Ok(Some(t))
  }

  function StoredFrom(nul: Option<string>, row: seq<Cell>, c: nat): Result<seq<Cell>>
    requires c <= |row|
    decreases |row| - c
  {
    if c == |row| then Ok([])
    else
      var x :- StoredCell(nul, row[c]);
      var y :- StoredFrom(nul, row, c + 1);
      Ok([x] + y)
  }

  function StoredRows(nul: Option<string>, rows: seq<seq<Cell>>): Result<seq<seq<Cell>>> {
    if rows == [] then Ok([])
    else
      var x :- StoredFrom(nul, rows[0], 0);
      var y :- StoredRows(nul, rows[1..]);
      Ok([x] + y)
  }

  /** The cells from the c-th on, without the separator in front of them. */
  function Tail(nul: Option<string>, row: seq<Cell>, c: nat): string
    requires c < |row| && EncCells(nul, row, c).Ok?
  {
    if c > 0 then EncCells(nul, row, c).value[1..] else EncCells(nul, row, c).value
  }

  lemma TailSteps(nul: Option<string>, row: seq<Cell>, c: nat)
    requires c < |row| && EncCells(nul, row, c).Ok?
    ensures EncCell(nul, row[c]).Ok? && EncCells(nul, row, c + 1).Ok?
    ensures var x := EncCell(nul, row[c]).value;
            Tail(nul, row, c) == if c + 1 == |row| then x else x + "\t" + Tail(nul, row, c + 1)
  {
    hide EncCell;
    var x, y := EncCell(nul, row[c]).value, EncCells(nul, row, c + 1).value;
    assert ("\t" + x + y)[1..] == x + y && "" + x == x;
    if c + 1 == |row| {
      assert x + y == x;
    } else {
      assert y[0] == '\t' && y == "\t" + y[1..];
      assert x + y == x + "\t" + y[1..];
    }
  }

  /** Splitting a line at its tabs and decoding each field. */
  lemma {:induction false} RowDecodes(nul: Option<string>, row: seq<Cell>, c: nat, rest: string)
    requires c < |row| && EncCells(nul, row, c).Ok?
    ensures StoredFrom(nul, row, c).Ok?
    ensures DecRow(Tail(nul, row, c)) == StoredFrom(nul, row, c).value
    ensures NextLine(Tail(nul, row, c) + "\n" + rest) == (Tail(nul, row, c), rest)
    ensures Tail(nul, row, c) != "\\."
    decreases |row| - c
  {
    hide *;
    TailSteps(nul, row, c);
    CellRoundTrip(nul, row[c]);
    var x, line := EncCell(nul, row[c]).value, Tail(nul, row, c);
    StoredOne(nul, row, c);
    if c + 1 == |row| {
      DecOne(line, x, "", true);
      NoneStored(nul, row);
      LineEnds(x, rest);
      NotFooter(line, x);
    } else {
      var more := Tail(nul, row, c + 1);
      RowDecodes(nul, row, c + 1, rest);
      DecOne(line, x, more, false);
      LineGoesOn(x, more, rest);
      NotFooter(line, x);
    }
  }

  lemma NoneStored(nul: Option<string>, row: seq<Cell>)
    ensures StoredFrom(nul, row, |row|) == Ok([])
  {
  }

  lemma LineEnds(x: string, rest: string)
    requires IsField(x)
    ensures NextLine(x + "\n" + rest) == (x, rest)
  {
    LineOf(x, "\n" + rest);
    assert ("\n" + rest)[1..] == rest && x + "\n" + rest == x + ("\n" + rest) && x + "" == x;
  }

  lemma LineGoesOn(x: string, more: string, rest: string)
    requires IsField(x) && NextLine(more + "\n" + rest) == (more, rest)
    ensures NextLine(x + "\t" + more + "\n" + rest) == (x + "\t" + more, rest)
  {
    hide NextLine, IsField;
    var s := more + "\n" + rest;
    LineOf(x, "\t" + s);
    TabThen(s);
    Regroup(x, more, rest);
  }

  lemma TabThen(s: string)
    ensures NextLine("\t" + s) == ("\t" + NextLine(s).0, NextLine(s).1)
  {
    var t := "\t" + s;
    LineStep(t);
    assert t[..1] == "\t" && t[1..] == s;
    hide NextLine;
  }

  lemma Regroup(x: string, more: string, rest: string)
    ensures x + "\t" + more + "\n" + rest == x + ("\t" + (more + "\n" + rest))
    ensures x + ("\t" + more) == x + "\t" + more
  {
  }

  lemma StoredOne(nul: Option<string>, row: seq<Cell>, c: nat)
    requires c < |row| && EncCell(nul, row[c]).Ok?
    ensures StoredCell(nul, row[c]) == Ok(DecCell(EncCell(nul, row[c]).value))
    ensures StoredFrom(nul, row, c + 1).Ok? ==>
            StoredFrom(nul, row, c) == Ok([StoredCell(nul, row[c]).value] + StoredFrom(nul, row, c + 1).value)
  {
    CellRoundTrip(nul, row[c]);
    hide DecCell;
  }

  lemma DecOne(line: string, x: string, more: string, last: bool)
    requires IsField(x) && line == if last then x else x + "\t" + more
    ensures DecRow(line) == [DecCell(x)] + if last then [] else DecRow(more)
  {
    FieldsOf(x, more);
    hide Fields, DecCell, IsField;
  }

  lemma NotFooter(line: string, x: string)
    requires IsField(x) && (line == x || (|line| > |x| && line[..|x|] == x && line[|x|] == '\t'))
    ensures line != "\\."
  {
    assert !IsField("\\.") && !IsField("\\");
    assert |x| == 1 && x[0] == '\\' ==> x == "\\";
  }

  /** Main result: for every table with at least one column, and every configuration
      under which it can be written, what the server decodes from the rows and the
      footer is the table, with NUL characters replaced as configured. */
  lemma {:induction false} TextRoundTrip(nul: Option<string>, rows: seq<seq<Cell>>)
    requires EncRows(nul, rows).Ok? && forall r | r in rows :: r != []
    ensures StoredRows(nul, rows) == Ok(Decode(EncRows(nul, rows).value + FOOTER))
  {
    var s := EncRows(nul, rows).value + FOOTER;
    if rows == [] {
      FooterEnds();
      assert s == FOOTER;
    } else {
      assert rows[0] in rows && forall r | r in rows[1..] :: r in rows;
      TextRoundTrip(nul, rows[1..]);
      var line, rest := Tail(nul, rows[0], 0), EncRows(nul, rows[1..]).value + FOOTER;
      assert s == line + "\n" + rest;
      RowDecodes(nul, rows[0], 0, rest);
      DecodeStep(s, line, rest);
      hide EncRow, EncCells, StoredFrom, DecRow, NextLine, Decode, Tail;
    }
  }

  lemma FooterEnds()
    ensures Decode(FOOTER) == []
  {
    LineStep(FOOTER);
    assert FOOTER[..2] == "\\." && FOOTER[2..] == "\n" && "\n"[1..] == "" && "\\." + "" == "\\.";
  }

  lemma DecodeStep(s: string, line: string, rest: string)
    requires s != "" && NextLine(s) == (line, rest) && line != "\\."
    ensures Decode(s) == [DecRow(line)] + Decode(rest)
  {
    hide DecRow, NextLine;
  }

  function JoinTexts(ps: seq<string>, sep: string): string {
    if ps == [] then "" else if |ps| == 1 then ps[0] else ps[0] + sep + JoinTexts(ps[1..], sep)
  }

  /** What a replacement does: pieces of text joined by NULs are stored as the pieces
      joined by it. */
  lemma {:induction false} StoredPieces(subst: string, ps: seq<string>)
    requires forall p | p in ps :: NUL !in p
    ensures Stored(Some(subst), JoinTexts(ps, [NUL])) == Ok(JoinTexts(ps, subst))
  {
    var nul := Some(subst);
    if |ps| == 1 {
      assert ps[0] in ps;
      TextKept(nul, ps[0]);
    } else if |ps| > 1 {
      var rest := JoinTexts(ps[1..], [NUL]);
      assert ps[0] in ps && forall p | p in ps[1..] :: p in ps;
      StoredPieces(subst, ps[1..]);
      TextKept(nul, ps[0]);
      OneStored(nul, NUL);
      StoredNul(subst);
      hide Stored;
      StoredAppend(nul, ps[0] + [NUL], rest);
      StoredAppend(nul, ps[0], [NUL]);
    }
  }

  lemma StoredNul(subst: string)
    ensures Stored(Some(subst), [NUL]) == Ok(subst)
  {
    assert [NUL][1..] == "" && subst + "" == subst;
  }

  /** Without NUL characters nothing is refused and nothing replaced ... */
  lemma {:induction false} NothingReplaced(nul: Option<string>, rows: seq<seq<Cell>>)
    requires forall r | r in rows :: forall v | v in r :: v.Some? ==> NUL !in v.value
    ensures EncRows(nul, rows).Ok? && StoredRows(nul, rows) == Ok(rows)
  {
    if rows != [] {
      assert rows[0] in rows && forall r | r in rows[1..] :: r in rows;
      NothingReplaced(nul, rows[1..]);
      CellsKept(nul, rows[0], 0);
      assert [rows[0]] + rows[1..] == rows && rows[0][0..] == rows[0];
    }
  }

  /** ... so that COPY text is uniquely decodable. */
  lemma UniquelyDecodable(nul: Option<string>, rows: seq<seq<Cell>>)
    requires forall r | r in rows :: r != [] && forall v | v in r :: v.Some? ==> NUL !in v.value
    ensures EncRows(nul, rows).Ok? && Decode(EncRows(nul, rows).value + FOOTER) == rows
  {
    NothingReplaced(nul, rows);
    TextRoundTrip(nul, rows);
  }

  lemma {:induction false} CellsKept(nul: Option<string>, row: seq<Cell>, c: nat)
    requires c <= |row| && forall v | v in row :: v.Some? ==> NUL !in v.value
    ensures EncCells(nul, row, c).Ok? && StoredFrom(nul, row, c) == Ok(row[c..])
    decreases |row| - c
  {
    if c == |row| {
      assert row[c..] == [];
    } else {
      CellsKept(nul, row, c + 1);
      assert row[c] in row && [row[c]] + row[c + 1..] == row[c..];
      if row[c].Some? {
        TextKept(nul, row[c].value);
      }
    }
  }

  lemma {:induction false} TextKept(nul: Option<string>, s: string)
    requires NUL !in s
    ensures Stored(nul, s) == Ok(s)
  {
    if s != "" {
      TextKept(nul, s[1..]);
      assert [s[0]] + s[1..] == s;
    }
  }

  /** Whatever is stored has no NUL left, since a usable replacement has none. */
  lemma {:induction false} StoredHasNoNul(nul: Option<string>, s: string)
    requires Usable(nul) && Stored(nul, s).Ok?
    ensures NUL !in Stored(nul, s).value
  {
    if s != "" {
      StoredHasNoNul(nul, s[1..]);
    }
  }
}
