/** Array and composite literals in text form: written by src/postgres_copy_to.cpp,
    read by ParsePostgresNested in src/postgres_text_reader.cpp. A value written and
    read back is the same value exactly when no unquoted text looks like NULL and, in
    composites, no field is NULL. */
module ArrayLiteral {
  import opened Wrappers
  import opened Characters

  // ------------------------------------------------------------------- writing

  predicate IsSpecial(c: char) {
    c == '"' || c == '\\' || c == '{' || c == '}' || c == '(' || c == ')' || c == ','
  }

  predicate NeedsQuotes(s: string) {
    s == "" || IsSpace(s[0]) || IsSpace(s[|s| - 1]) || exists c | c in s :: IsSpecial(c)
  }

  function Escape(s: string): string {
    if s == "" then "" else (if s[0] == '"' || s[0] == '\\' then "\\" else "") + [s[0]] + Escape(s[1..])
  }

  function Quote(s: string): string {
    if NeedsQuotes(s) then "\"" + Escape(s) + "\"" else s
  }

  function Join(parts: seq<string>): string {
    if parts == [] then "" else if |parts| == 1 then parts[0] else parts[0] + "," + Join(parts[1..])
  }

  /** An element of an array literal; dimensions of nested lists are not quoted. */
  function ListPart(e: Option<string>, skipQuoting: bool): string {
    match e
    case None => "NULL"
    case Some(s) => if skipQuoting then s else Quote(s)
  }

  /** A field of a composite literal: NULL is written as nothing at all. */
  function StructPart(e: Option<string>): string {
    match e
    case None => ""
    case Some(s) => Quote(s)
  }

  function ListParts(es: seq<Option<string>>, skipQuoting: bool): (r: seq<string>)
    ensures |r| == |es|
  {
    seq(|es|, i requires 0 <= i < |es| => ListPart(es[i], skipQuoting))
  }

  function StructParts(es: seq<Option<string>>): (r: seq<string>)
    ensures |r| == |es|
  {
    seq(|es|, i requires 0 <= i < |es| => StructPart(es[i]))
  }

  function ListText(es: seq<Option<string>>, skipQuoting: bool): string {
    "{" + Join(ListParts(es, skipQuoting)) + "}"
  }

  function StructText(es: seq<Option<string>>): string {
    "(" + Join(StructParts(es)) + ")"
  }

  /** NeedsQuotes, the scan. */
  method CheckNeedsQuotes(s: string) returns (r: bool)
    ensures r == NeedsQuotes(s)
  {
    if |s| <= 0 || IsSpace(s[0]) || IsSpace(s[|s| - 1]) {
      return true;
    }
    var c := 0;
    while c < |s|
      invariant 0 <= c <= |s| && forall d | d in s[..c] :: !IsSpecial(d)
    {
      if IsSpecial(s[c]) {
        assert s[c] in s;
        return true;
      }
      c := c + 1;
    }
    assert s[..c] == s;
    r := false;
  }

  /** EscapeQuotes appends to the result. */
  method EscapeQuotes(s: string, result: string) returns (r: string)
    ensures r == result + Escape(s)
  {
    r := result;
    var c := 0;
    while c < |s|
      invariant 0 <= c <= |s| && r + Escape(s[c..]) == result + Escape(s)
    {
      if s[c] == '"' || s[c] == '\\' {
        r := r + "\\";
      }
      r := r + [s[c]];
      assert s[c..][1..] == s[c + 1..];
      c := c + 1;
    }
  }

  method QuoteAndEscapeIfNeeded(s: string, result: string) returns (r: string)
    ensures r == result + Quote(s)
  {
    var quote := CheckNeedsQuotes(s);
    if !quote {
      return result + s;
    }
    r := EscapeQuotes(s, result + "\"");
    r := r + "\"";
    assert r == result + ("\"" + Escape(s) + "\"");
  }

  /** The loop that joins the parts has written the first i of them. */
  predicate Rendered(whole: string, result: string, parts: seq<string>, i: nat)
    requires i <= |parts|
  {
    whole == result + (if 0 < i < |parts| then "," else "") + Join(parts[i..])
  }

  lemma RenderStart(parts: seq<string>, open: string)
    ensures Rendered(open + Join(parts), open, parts, 0)
  {
    assert parts[0..] == parts;
    assert open + "" == open;
  }

  lemma RenderStep(whole: string, result: string, parts: seq<string>, i: nat)
    requires i < |parts| && Rendered(whole, result, parts, i)
    ensures Rendered(whole, result + (if i > 0 then "," else "") + parts[i], parts, i + 1)
  {
    assert parts[i..][1..] == parts[i + 1..];
    assert i + 1 == |parts| ==> parts[i + 1..] == [];
  }

  lemma RenderEnd(whole: string, result: string, parts: seq<string>)
    requires Rendered(whole, result, parts, |parts|)
    ensures whole == result
  {
    assert parts[|parts|..] == [];
  }

  /** CastListToPostgresArray for one row. */
  method CastListToPostgresArray(es: seq<Option<string>>, skipQuoting: bool) returns (result: string)
    ensures result == ListText(es, skipQuoting)
  {
    ghost var parts := ListParts(es, skipQuoting);
    ghost var whole := "{" + Join(parts);
    result := "{";
    RenderStart(parts, "{");
    hide Join, Quote, Rendered;
    var i := 0;
    while i < |es|
      invariant 0 <= i <= |es| && Rendered(whole, result, parts, i)
    {
      RenderStep(whole, result, parts, i);
      if i > 0 {
        result := result + ",";
      } else {
        assert result + "" == result;
      }
      match es[i] {
        case None => result := result + "NULL";
        case Some(s) =>
          if skipQuoting {
            result := result + s;
          } else {
            result := QuoteAndEscapeIfNeeded(s, result);
          }
      }
      i := i + 1;
    }
    RenderEnd(whole, result, parts);
    result := result + "}";
  }

  /** CastStructToPostgres for one row. */
  method CastStructToPostgres(es: seq<Option<string>>) returns (result: string)
    ensures result == StructText(es)
  {
    ghost var parts := StructParts(es);
    ghost var whole := "(" + Join(parts);
    result := "(";
    RenderStart(parts, "(");
    hide Join, Quote, Rendered;
    var i := 0;
    while i < |es|
      invariant 0 <= i <= |es| && Rendered(whole, result, parts, i)
    {
      RenderStep(whole, result, parts, i);
      if i > 0 {
        result := result + ",";
      } else {
        assert result + "" == result;
      }
      match es[i] {
        case None => assert result + "" == result;
        case Some(s) => result := QuoteAndEscapeIfNeeded(s, result);
      }
      i := i + 1;
    }
    RenderEnd(whole, result, parts);
    result := result + ")";
  }

  // ------------------------------------------------------------------- reading

  /** The variables of ParsePostgresNested's loop, and the strings added so far. */
  datatype Scan = Scan(quoted: bool, wasQuoted: bool, delims: seq<char>, current: string, added: seq<Option<string>>)

  /** The two parsers ParsePostgresNested is instantiated with: a list of any length,
      a composite of so many columns. */
  datatype Kind = OfList | OfStruct(columns: nat)

  function Start(): Scan {
    Scan(false, false, [], "", [])
  }

  function Element(s: string, quoted: bool): Option<string> {
    if !quoted && s == "NULL" then None else Some(s)
  }

  /** AddString. Only the list parser resets the quoted flag. */
  function Add(k: Kind, st: Scan): Result<Scan> {
    match k
    case OfList => Ok(st.(added := st.added + [Element(st.current, st.wasQuoted)], wasQuoted := false))
    case OfStruct(n) =>
      if |st.added| >= n then Err(Mismatch)
      else Ok(st.(added := st.added + [Element(st.current, st.wasQuoted)]))
  }

  /** The end of an element: nothing is added for one that is empty and unquoted. */
  function AddIfAny(k: Kind, st: Scan): Result<Scan> {
    if st.current == "" && !st.wasQuoted then Ok(st) else Add(k, st)
  }

  /** One character of the loop's switch, outside an escape. */
  function Char(k: Kind, st: Scan, c: char): Result<Scan> {
    if st.quoted then
      Ok(if c == '"' then st.(quoted := false) else st.(current := st.current + [c]))
    else if c == '{' then Ok(st.(delims := st.delims + ['}'], current := st.current + [c]))
    else if c == '(' then Ok(st.(delims := st.delims + [')'], current := st.current + [c]))
    else if c == '}' || c == ')' then
      if st.delims == [] || st.delims[|st.delims| - 1] != c then Err(BadFormat)
      else Ok(st.(delims := st.delims[..|st.delims| - 1], current := st.current + [c]))
    else if c == '"' then Ok(st.(quoted := true, wasQuoted := true))
    else if c == ',' && st.delims == [] then
      var t :- AddIfAny(k, st);
      Ok(t.(current := ""))
    else Ok(st.(current := st.current + [c]))
  }

  /** The loop from the characters s on, the last of which is the closing bracket. */
  function Loop(k: Kind, s: string, st: Scan): Result<Scan> {
    if |s| <= 1 then Ok(st)
    else if st.quoted && s[0] == '\\' then Loop(k, s[2..], st.(current := st.current + [s[1]]))
    else
      var t :- Char(k, st, s[0]);
      Loop(k, s[1..], t)
  }

  /** ParsePostgresNested as a function. */
  function Parse(k: Kind, s: string): (r: Result<seq<Option<string>>>)
    ensures r.Ok? && k.OfStruct? ==> |r.value| == k.columns
  {
    var open, close := if k.OfList? then '{' else '(', if k.OfList? then '}' else ')';
    if |s| == 0 || s[0] != open || s[|s| - 1] != close then Err(BadFormat)
    else
      var added :- Added(k, s[1..], Start());
      if k.OfStruct? && |added| != k.columns then Err(Mismatch) else Ok(added)
  }

  /** The loop, and the element it ends in. */
  function Added(k: Kind, s: string, st: Scan): Result<seq<Option<string>>> {
    var all :- Loop(k, s, st);
    var t :- AddIfAny(k, all);
    Ok(t.added)
  }

  /** PostgresListParser and PostgresStructParser. */
  class NestedParser {
    const kind: Kind
    var added: seq<Option<string>>

    constructor (kind: Kind)
      ensures this.kind == kind && added == []
    {
      this.kind := kind;
      added := [];
    }

    method AddString(s: string, quoted: bool) returns (r: Result<bool>)
      modifies this
      ensures forall st: Scan | st.current == s && st.wasQuoted == quoted && st.added == old(added) ::
                match Add(kind, st)
                case Ok(t) => r == Ok(t.wasQuoted) && added == t.added
                case Err(e) => r == Err(e)
    {
      if kind.OfStruct? && |added| >= kind.columns {
        return Err(Mismatch);
      }
      added := added + [if !quoted && s == "NULL" then None else Some(s)];
      r := Ok(quoted && kind.OfStruct?);
    }

    method Finish() returns (o: Outcome)
      ensures o == if kind.OfStruct? && |added| != kind.columns then Fail(Mismatch) else Pass
    {
      o := if kind.OfStruct? && |added| != kind.columns then Fail(Mismatch) else Pass;
    }
  }

  /** if (!current_string.empty() || was_quoted) parser.AddString(...) */
  method AddElement(parser: NestedParser, current: string, wasQuoted: bool, ghost st: Scan) returns (r: Result<bool>)
    requires st.current == current && st.wasQuoted == wasQuoted && st.added == parser.added
    modifies parser
    ensures AddIfAny(parser.kind, st).Err? ==> r == Err(AddIfAny(parser.kind, st).error)
    ensures AddIfAny(parser.kind, st).Ok? ==>
            r.Ok? && AddIfAny(parser.kind, st).value == st.(wasQuoted := r.value, added := parser.added)
  {
    r := Ok(wasQuoted);
    if current != "" || wasQuoted {
      r := parser.AddString(current, wasQuoted);
    }
  }

  lemma LoopStep(k: Kind, s: string, st: Scan)
    ensures |s| <= 1 ==> Loop(k, s, st) == Ok(st)
    ensures |s| > 1 && st.quoted && s[0] == '\\' ==> Loop(k, s, st) == Loop(k, s[2..], st.(current := st.current + [s[1]]))
    ensures |s| > 1 && !(st.quoted && s[0] == '\\') ==>
            Loop(k, s, st) == if Char(k, st, s[0]).Err? then Err(Char(k, st, s[0]).error) else Loop(k, s[1..], Char(k, st, s[0]).value)
  {
    hide Char;
  }

  lemma AddedCases(k: Kind, s: string, st: Scan)
    ensures Loop(k, s, st).Err? ==> Added(k, s, st) == Err(Loop(k, s, st).error)
    ensures Loop(k, s, st).Ok? ==>
            Added(k, s, st) == if AddIfAny(k, Loop(k, s, st).value).Err? then Err(AddIfAny(k, Loop(k, s, st).value).error)
                               else Ok(AddIfAny(k, Loop(k, s, st).value).value.added)
  {
    hide Loop, AddIfAny;
  }

  method ParsePostgresNested(k: Kind, s: string) returns (r: Result<seq<Option<string>>>)
    ensures r == Parse(k, s)
  {
    var open, close := if k.OfList? then '{' else '(', if k.OfList? then '}' else ')';
    if |s| == 0 || s[0] != open || s[|s| - 1] != close {
      return Err(BadFormat);
    }
    var parser := new NestedParser(k);
    var quoted, wasQuoted, delims: seq<char>, current := false, false, [], "";
    ghost var all := Loop(k, s[1..], Start());
    AddedCases(k, s[1..], Start());
    hide Loop, Added;
    var i := 1;
    while i < |s| - 1
      invariant 1 <= i <= |s| && fresh(parser) && parser.kind == k
      invariant all == Loop(k, s[i..], Scan(quoted, wasQuoted, delims, current, parser.added))
      decreases |s| - i
    {
      LoopStep(k, s[i..], Scan(quoted, wasQuoted, delims, current, parser.added));
      assert s[i..][1..] == s[i + 1..];
      var c := s[i];
      if quoted {
        if c == '"' {
          quoted := false;
        } else if c == '\\' {
          current := current + [s[i + 1]];
          assert s[i..][2..] == s[i + 2..];
          i := i + 1;
        } else {
          current := current + [c];
        }
      } else if c == '{' || c == '(' {
        delims := delims + [if c == '{' then '}' else ')'];
        current := current + [c];
      } else if c == '}' || c == ')' {
        if delims == [] || delims[|delims| - 1] != c {
          return Err(BadFormat);
        }
        delims := delims[..|delims| - 1];
        current := current + [c];
      } else if c == '"' {
        quoted, wasQuoted := true, true;
      } else if c == ',' && delims == [] {
        ghost var st := Scan(quoted, wasQuoted, delims, current, parser.added);
        var w := AddElement(parser, current, wasQuoted, st);
        if w.Err? {
          return Err(w.error);
        }
        wasQuoted, current := w.value, "";
      } else {
        current := current + [c];
      }
      i := i + 1;
    }
    LoopStep(k, s[i..], Scan(quoted, wasQuoted, delims, current, parser.added));
    ghost var st := Scan(quoted, wasQuoted, delims, current, parser.added);
    var w := AddElement(parser, current, wasQuoted, st);
    if w.Err? {
      return Err(w.error);
    }
    var o := parser.Finish();
    r := if o.Pass? then Ok(parser.added) else Err(o.error);
  }

  // --------------------------------------------------------- reading what was written

  /** Inside quotes, an escaped string is read back verbatim. */
  lemma {:induction false} EscapedRun(k: Kind, x: string, tail: string, st: Scan)
    requires st.quoted && |tail| >= 1
    ensures Loop(k, Escape(x) + "\"" + tail, st) == Loop(k, tail, st.(quoted := false, current := st.current + x))
    decreases |x|
  {
    var s := Escape(x) + "\"" + tail;
    if x == "" {
      assert s == "\"" + tail && s[1..] == tail && st.current + x == st.current;
    } else {
      var rest := Escape(x[1..]) + "\"" + tail;
      var t := st.(current := st.current + [x[0]]);
      EscapedRun(k, x[1..], tail, t);
      assert st.current + [x[0]] + x[1..] == st.current + x;
      if x[0] == '"' || x[0] == '\\' {
        assert s == ['\\', x[0]] + rest && s[2..] == rest;
      } else {
        assert s == [x[0]] + rest && s[1..] == rest;
      }
    }
  }

  /** The brackets open after s, from those open before it; none where s has a quote,
      a comma outside brackets or a bracket that does not match. */
  function Brackets(s: string, open: seq<char>): Option<seq<char>> {
    if s == "" then Some(open)
    else
      var c := s[0];
      if c == '"' || (c == ',' && open == []) then None
      else if c == '{' then Brackets(s[1..], open + ['}'])
      else if c == '(' then Brackets(s[1..], open + [')'])
      else if c == '}' || c == ')' then
        if open == [] || open[|open| - 1] != c then None else Brackets(s[1..], open[..|open| - 1])
      else Brackets(s[1..], open)
  }

  /** Outside quotes, such a string is read verbatim. */
  lemma {:induction false} PlainRun(k: Kind, x: string, tail: string, st: Scan)
    requires !st.quoted && Brackets(x, st.delims).Some? && |tail| >= 1
    ensures Loop(k, x + tail, st) == Loop(k, tail, st.(delims := Brackets(x, st.delims).value, current := st.current + x))
    decreases |x|
  {
    if x == "" {
      assert x + tail == tail && st.current + x == st.current;
    } else {
      var t := Char(k, st, x[0]).value;
      assert (x + tail)[1..] == x[1..] + tail;
      PlainRun(k, x[1..], tail, t);
      assert st.current + [x[0]] + x[1..] == st.current + x;
    }
  }

  lemma {:induction false} UnquotedIsPlain(x: string, open: seq<char>)
    requires forall c | c in x :: !IsSpecial(c)
    ensures Brackets(x, open) == Some(open)
  {
    if x != "" {
      assert x[0] in x;
      UnquotedIsPlain(x[1..], open);
    }
  }

  /** One quoted-if-needed element: its text, without the quotes. */
  lemma ElementRun(k: Kind, x: string, tail: string, st: Scan)
    requires !st.quoted && |tail| >= 1
    ensures Loop(k, Quote(x) + tail, st) ==
            Loop(k, tail, st.(current := st.current + x, wasQuoted := st.wasQuoted || NeedsQuotes(x)))
  {
    if NeedsQuotes(x) {
      var s := Quote(x) + tail;
      assert s[0] == '"' && s[1..] == Escape(x) + "\"" + tail;
      EscapedRun(k, x, tail, st.(quoted := true, wasQuoted := true));
    } else {
      UnquotedIsPlain(x, st.delims);
      PlainRun(k, x, tail, st);
    }
  }

  lemma NullRun(k: Kind, tail: string, st: Scan)
    requires !st.quoted && |tail| >= 1
    ensures Loop(k, "NULL" + tail, st) == Loop(k, tail, st.(current := st.current + "NULL"))
  {
    UnquotedIsPlain("NULL", st.delims);
    PlainRun(k, "NULL", tail, st);
  }

  lemma CommaRun(k: Kind, tail: string, st: Scan)
    requires !st.quoted && st.delims == [] && |tail| >= 1
    ensures AddIfAny(k, st).Err? ==> Loop(k, "," + tail, st) == Err(AddIfAny(k, st).error)
    ensures AddIfAny(k, st).Ok? ==> Loop(k, "," + tail, st) == Loop(k, tail, AddIfAny(k, st).value.(current := ""))
  {
    assert ("," + tail)[1..] == tail;
  }

  lemma BracketEnds(k: Kind, close: string, st: Scan)
    requires |close| == 1
    ensures Loop(k, close, st) == Ok(st)
  {
  }

  // --------------------------------------------------------------------- lists

  /** What a list parser makes of an element that was written. */
  function ListSeen(e: Option<string>): Option<string> {
    if e == Some("NULL") then None else e
  }

  /** An element whose text a parser reads back verbatim at the outer level. */
  predicate Readable(e: Option<string>, skipQuoting: bool) {
    skipQuoting && e.Some? ==> e.value != "" && Brackets(e.value, []) == Some([])
  }

  function ListSeenAll(es: seq<Option<string>>): (r: seq<Option<string>>)
    ensures |r| == |es|
  {
    seq(|es|, i requires 0 <= i < |es| => ListSeen(es[i]))
  }

  lemma NullAndEmpty()
    ensures !NeedsQuotes("NULL") && NeedsQuotes("")
  {
    assert forall c | c in "NULL" :: c == 'N' || c == 'U' || c == 'L';
  }

  /** One list element and the addition that ends it. */
  lemma ListElement(e: Option<string>, skipQuoting: bool, tail: string, added: seq<Option<string>>) returns (t: Scan)
    requires Readable(e, skipQuoting) && |tail| >= 1
    ensures Loop(OfList, ListPart(e, skipQuoting) + tail, Scan(false, false, [], "", added)) == Loop(OfList, tail, t)
    ensures !t.quoted && t.delims == []
    ensures AddIfAny(OfList, t) == Ok(Scan(false, false, [], t.current, added + [ListSeen(e)]))
  {
    hide Loop, NeedsQuotes, Quote, Brackets;
    NullAndEmpty();
    var st := Scan(false, false, [], "", added);
    match e {
      case None =>
        NullRun(OfList, tail, st);
        assert "" + "NULL" == "NULL";
        t := st.(current := "NULL");
      case Some(x) =>
        if skipQuoting {
          PlainRun(OfList, x, tail, st);
          assert "" + x == x;
          t := st.(current := x);
        } else {
          ElementRun(OfList, x, tail, st);
          assert "" + x == x;
          t := st.(current := x, wasQuoted := NeedsQuotes(x));
        }
    }
  }

  lemma {:induction false} ListRun(es: seq<Option<string>>, skipQuoting: bool, added: seq<Option<string>>)
    requires forall e | e in es :: Readable(e, skipQuoting)
    ensures Added(OfList, Join(ListParts(es, skipQuoting)) + "}", Scan(false, false, [], "", added)) == Ok(added + ListSeenAll(es))
    decreases |es|
  {
    hide Loop, Brackets, Quote, ListPart, AddIfAny;
    var st := Scan(false, false, [], "", added);
    var parts := ListParts(es, skipQuoting);
    if es == [] {
      assert added + ListSeenAll(es) == added;
      assert "" + "}" == "}";
      BracketEnds(OfList, "}", st);
      NothingAdded(OfList, st);
    } else {
      var more := added + [ListSeen(es[0])];
      assert es[0] in es;
      if |es| == 1 {
        var t := ListElement(es[0], skipQuoting, "}", added);
        BracketEnds(OfList, "}", t);
        assert more == added + ListSeenAll(es);
      } else {
        var rest := Join(ListParts(es[1..], skipQuoting)) + "}";
        assert parts[1..] == ListParts(es[1..], skipQuoting);
        assert Join(parts) + "}" == ListPart(es[0], skipQuoting) + ("," + rest);
        var t := ListElement(es[0], skipQuoting, "," + rest, added);
        CommaRun(OfList, rest, t);
        ListRun(es[1..], skipQuoting, more);
        assert more + ListSeenAll(es[1..]) == added + ListSeenAll(es);
      }
    }
  }

  lemma NothingAdded(k: Kind, st: Scan)
    requires st.current == "" && !st.wasQuoted
    ensures AddIfAny(k, st) == Ok(st)
  {
  }

  lemma ListParses(es: seq<Option<string>>, skipQuoting: bool)
    requires forall e | e in es :: Readable(e, skipQuoting)
    ensures Parse(OfList, ListText(es, skipQuoting)) == Ok(ListSeenAll(es))
  {
    var s := ListText(es, skipQuoting);
    assert s[1..] == Join(ListParts(es, skipQuoting)) + "}";
    ListRun(es, skipQuoting, []);
    assert [] + ListSeenAll(es) == ListSeenAll(es);
  }

  /** Main result on lists: every array literal parses, to the elements it was made
      of exactly if no element is the text NULL. */
  lemma ListRoundTrip(es: seq<Option<string>>)
    ensures Parse(OfList, ListText(es, false)).Ok?
    ensures Parse(OfList, ListText(es, false)) == Ok(es) <==> Some("NULL") !in es
  {
    ListParses(es, false);
    if Some("NULL") in es {
      var i :| 0 <= i < |es| && es[i] == Some("NULL");
      assert ListSeenAll(es)[i] != es[i];
    } else {
      assert ListSeenAll(es) == es;
    }
  }

  // ---------------------------------------------------------------- composites

  /** What the composite parser makes of fields that were written, once a field has
      been quoted (w) or not: the flag sticks, so later empty fields become empty
      strings and later NULL texts stay texts. */
  function StructSeen(fs: seq<Option<string>>, w: bool): (r: seq<Option<string>>)
    ensures |r| <= |fs|
  {
    if fs == [] then []
    else SeenField(fs[0], w) + StructSeen(fs[1..], w || (fs[0].Some? && NeedsQuotes(fs[0].value)))
  }

  function SeenField(e: Option<string>, w: bool): (r: seq<Option<string>>)
    ensures |r| <= 1
  {
    match e
    case None => if w then [Some("")] else []
    case Some(x) => [Element(x, w || NeedsQuotes(x))]
  }

  /** One field and the addition that ends it, if any. */
  lemma StructElement(n: nat, e: Option<string>, tail: string, w: bool, added: seq<Option<string>>) returns (t: Scan, v: bool)
    requires |tail| >= 1
    ensures Loop(OfStruct(n), StructPart(e) + tail, Scan(false, w, [], "", added)) == Loop(OfStruct(n), tail, t)
    ensures !t.quoted && t.delims == []
    ensures v == (w || (e.Some? && NeedsQuotes(e.value)))
    ensures AddIfAny(OfStruct(n), t) ==
            if |added| + |SeenField(e, w)| > n && SeenField(e, w) != [] then Err(Mismatch)
            else Ok(Scan(false, v, [], t.current, added + SeenField(e, w)))
  {
    hide Loop, NeedsQuotes, Quote, Brackets;
    NullAndEmpty();
    var st := Scan(false, w, [], "", added);
    match e {
      case None =>
        assert "" + tail == tail && added + [] == added;
        t, v := st, w;
      case Some(x) =>
        ElementRun(OfStruct(n), x, tail, st);
        assert "" + x == x;
        v := w || NeedsQuotes(x);
        t := st.(current := x, wasQuoted := v);
    }
  }

  /** Fields appended one by one to a composite of n columns. */
  function Appended(n: nat, added: seq<Option<string>>, more: seq<Option<string>>): Result<seq<Option<string>>> {
    if |added| + |more| > n && more != [] then Err(Mismatch) else Ok(added + more)
  }

  lemma AppendedTwice(n: nat, added: seq<Option<string>>, a: seq<Option<string>>, b: seq<Option<string>>)
    requires |a| <= 1
    ensures Appended(n, added, a + b) == if |added| + |a| > n && a != [] then Err(Mismatch) else Appended(n, added + a, b)
  {
    assert added + a + b == added + (a + b);
  }

  lemma FieldsJoined(fs: seq<Option<string>>)
    requires fs != []
    ensures Join(StructParts(fs)) + ")"
            == StructPart(fs[0]) + if |fs| == 1 then ")" else "," + (Join(StructParts(fs[1..])) + ")")
  {
    var parts := StructParts(fs);
    hide Quote;
    if |fs| == 1 {
      assert parts == [StructPart(fs[0])];
    } else {
      assert parts[1..] == StructParts(fs[1..]);
    }
  }

  lemma {:induction false} StructRun(n: nat, fs: seq<Option<string>>, w: bool, added: seq<Option<string>>)
    requires fs != []
    ensures Added(OfStruct(n), Join(StructParts(fs)) + ")", Scan(false, w, [], "", added))
            == Appended(n, added, StructSeen(fs, w))
    decreases |fs|
  {
    hide Loop, Quote, StructPart, AddIfAny, NeedsQuotes, SeenField, Join, StructParts, Appended;
    FieldsJoined(fs);
    var k, seen := OfStruct(n), SeenField(fs[0], w);
    var rest := Join(StructParts(fs[1..])) + ")";
    var t, v := StructElement(n, fs[0], if |fs| == 1 then ")" else "," + rest, w, added);
    AppendedTwice(n, added, seen, StructSeen(fs[1..], v));
    assert StructSeen(fs, w) == seen + StructSeen(fs[1..], v);
    if |fs| == 1 {
      BracketEnds(k, ")", t);
      NothingAppended(n, added + seen);
      assert StructSeen(fs[1..], v) == [];
    } else {
      CommaRun(k, rest, t);
      if AddIfAny(k, t).Ok? {
        StructRun(n, fs[1..], v, added + seen);
      }
    }
  }

  lemma NothingAppended(n: nat, added: seq<Option<string>>)
    ensures Appended(n, added, []) == Ok(added)
  {
    assert added + [] == added;
  }

  lemma StructParses(fs: seq<Option<string>>, n: nat)
    ensures Parse(OfStruct(n), StructText(fs)) == if |StructSeen(fs, false)| == n then Ok(StructSeen(fs, false)) else Err(Mismatch)
  {
    var s := StructText(fs);
    assert s[1..] == Join(StructParts(fs)) + ")";
    if fs == [] {
      assert s[1..] == ")";
      BracketEnds(OfStruct(n), ")", Start());
    } else {
      StructRun(n, fs, false, []);
      assert [] + StructSeen(fs, false) == StructSeen(fs, false);
    }
  }

  /** Every field is there, and one that is the text NULL comes behind a quoted one. */
  predicate FieldsReadable(fs: seq<Option<string>>, w: bool) {
    forall i | 0 <= i < |fs| ::
      && fs[i].Some?
      && (fs[i].value == "NULL" ==> w || exists j | 0 <= j < i :: fs[j].Some? && NeedsQuotes(fs[j].value))
  }

  lemma ReadableCons(fs: seq<Option<string>>, w: bool)
    requires fs != []
    ensures FieldsReadable(fs, w) <==>
            && fs[0].Some? && (fs[0].value == "NULL" ==> w)
            && FieldsReadable(fs[1..], w || (fs[0].Some? && NeedsQuotes(fs[0].value)))
  {
    hide NeedsQuotes;
    var v := w || (fs[0].Some? && NeedsQuotes(fs[0].value));
    assert forall j | 0 <= j < |fs| - 1 :: fs[1..][j] == fs[j + 1];
    if FieldsReadable(fs, w) {
      forall i | 0 <= i < |fs| - 1
        ensures fs[1..][i].Some?
        ensures fs[1..][i].value == "NULL" ==> v || exists j | 0 <= j < i :: fs[1..][j].Some? && NeedsQuotes(fs[1..][j].value)
      {
        if fs[i + 1].value == "NULL" && !v {
          var j :| 0 <= j < i + 1 && fs[j].Some? && NeedsQuotes(fs[j].value);
          assert fs[1..][j - 1].Some? && NeedsQuotes(fs[1..][j - 1].value);
        }
      }
    }
    if fs[0].Some? && (fs[0].value == "NULL" ==> w) && FieldsReadable(fs[1..], v) {
      forall i | 0 < i < |fs|
        ensures fs[i].Some?
        ensures fs[i].value == "NULL" ==> w || exists j | 0 <= j < i :: fs[j].Some? && NeedsQuotes(fs[j].value)
      {
        assert fs[i] == fs[1..][i - 1];
        if fs[i].value == "NULL" && !w {
          if v {
            assert fs[0].Some? && NeedsQuotes(fs[0].value);
          } else {
            var j :| 0 <= j < i - 1 && fs[1..][j].Some? && NeedsQuotes(fs[1..][j].value);
            assert fs[j + 1].Some? && NeedsQuotes(fs[j + 1].value);
          }
        }
      }
    }
  }

  lemma {:induction false} FieldsSeen(fs: seq<Option<string>>, w: bool)
    ensures StructSeen(fs, w) == fs <==> FieldsReadable(fs, w)
  {
    if fs != [] {
      var v := w || (fs[0].Some? && NeedsQuotes(fs[0].value));
      ReadableCons(fs, w);
      FieldsSeen(fs[1..], v);
      hide FieldsReadable, NeedsQuotes;
      assert fs == [fs[0]] + fs[1..];
      assert fs[0].Some? ==> StructSeen(fs, w) == [Element(fs[0].value, v)] + StructSeen(fs[1..], v);
      assert fs[0].Some? && fs[0].value == "NULL" ==> v == w by {
        NullAndEmpty();
      }
    }
  }

  /** Main result on composites: a literal parses to its fields exactly if none is
      NULL and each that is the text NULL has a field in front of it that needs
      quotes. */
  lemma StructRoundTrip(fs: seq<Option<string>>)
    ensures Parse(OfStruct(|fs|), StructText(fs)) == Ok(fs) <==> FieldsReadable(fs, false)
  {
    StructParses(fs, |fs|);
    FieldsSeen(fs, false);
  }

  /** Two composites that do not: a NULL field disappears, so that the literal has too
      few columns, and the text NULL turns into a NULL. */
  lemma FieldsLost()
    ensures Parse(OfStruct(2), StructText([Some("a"), None])) == Err(Mismatch)
    ensures Parse(OfStruct(1), StructText([Some("NULL")])) == Ok([None])
  {
    hide Parse, StructText;
    var two, one: seq<Option<string>> := [Some("a"), None], [Some("NULL")];
    StructParses(two, 2);
    StructParses(one, 1);
    assert two[1..] == [None] && one[1..] == [] && two[1..][1..] == [];
    assert StructSeen(two[1..], false) == [] && |StructSeen(two, false)| == 1;
    assert StructSeen(one, false) == [None];
  }
}
