/** Literals with arbitrary texts between their commas, as the parser of nested
    literals meets them once an outer level has taken quotes off: which pieces it
    reads as one element each, and what it makes of them. */
module TextPieces {
  import opened Wrappers
  import opened ArrayLiteral
  import opened Subtexts

  // ------------------------------------------------------------- quotes, on and off

  /** The scan is outside quotes, inside, or behind a backslash inside. */
  datatype Mode = Plain | Quoted | Escaped

  function Next(c: char, m: Mode): Mode {
    match m
    case Plain => if c == '"' then Quoted else Plain
    case Quoted => if c == '"' then Plain else if c == '\\' then Escaped else Quoted
    case Escaped => Quoted
  }

  predicate Keeps(c: char, m: Mode) {
    m.Escaped? || !(c == '"' || (m.Quoted? && c == '\\'))
  }

  function Ends(x: string, m: Mode): Mode {
    if x == "" then m else Ends(x[1..], Next(x[0], m))
  }

  /** The text without the quotes and escapes the scan takes off. */
  function Strip(x: string, m: Mode): string {
    if x == "" then ""
    else if Keeps(x[0], m) then [x[0]] + Strip(x[1..], Next(x[0], m))
    else Strip(x[1..], Next(x[0], m))
  }

  /** The brackets open behind a character outside quotes; none if it does not match
      or ends the element. */
  function Bracket(c: char, open: seq<char>): Option<seq<char>> {
    if c == ',' && open == [] then None
    else if c == '{' then Some(open + ['}'])
    else if c == '(' then Some(open + [')'])
    else if c == '}' || c == ')' then
      if open == [] || open[|open| - 1] != c then None else Some(open[..|open| - 1])
    else Some(open)
  }

  /** The same behind a text. */
  function Balance(x: string, m: Mode, open: seq<char>): Option<seq<char>> {
    if x == "" then Some(open)
    else if !m.Plain? then Balance(x[1..], Next(x[0], m), open)
    else
      match Bracket(x[0], open)
      case None => None
      case Some(o) => Balance(x[1..], Next(x[0], m), o)
  }

  lemma {:induction false} StripAppend(a: string, b: string, m: Mode)
    ensures Ends(a + b, m) == Ends(b, Ends(a, m))
    ensures Strip(a + b, m) == Strip(a, m) + Strip(b, Ends(a, m))
  {
    if a == "" {
      assert a + b == b;
    } else {
      assert (a + b)[1..] == a[1..] + b;
      StripAppend(a[1..], b, Next(a[0], m));
    }
  }

  lemma {:induction false} BalanceAppend(a: string, b: string, m: Mode, open: seq<char>)
    requires Balance(a, m, open).Some?
    ensures Balance(a + b, m, open) == Balance(b, Ends(a, m), Balance(a, m, open).value)
    decreases |a|
  {
    if a == "" {
      assert a + b == b;
    } else {
      assert (a + b)[1..] == a[1..] + b;
      BalanceAppend(a[1..], b, Next(a[0], m), if m.Plain? then Bracket(a[0], open).value else open);
    }
  }

  /** Stripping loses quotes and escapes only ... */
  lemma {:induction false} StripTally(x: string, m: Mode)
    ensures Tally(Strip(x, m), false) == Tally(x, false)
    ensures Tally(Strip(x, m), true) <= Tally(x, true)
  {
    if x != "" {
      StripTally(x[1..], Next(x[0], m));
      if Keeps(x[0], m) {
        assert Strip(x, m)[1..] == Strip(x[1..], Next(x[0], m));
      }
    }
  }

  /** ... and does lose any quote that is not behind a backslash. */
  lemma {:induction false} StripShrinks(x: string, m: Mode)
    requires '"' in x && !m.Escaped?
    ensures Tally(Strip(x, m), true) < Tally(x, true)
    decreases |x|
  {
    var n := Next(x[0], m);
    if Keeps(x[0], m) {
      assert Strip(x, m)[1..] == Strip(x[1..], n);
      StripShrinks(x[1..], n);
    } else {
      StripTally(x[1..], n);
    }
  }

  /** Without quotes a text is read verbatim. */
  lemma {:induction false} Verbatim(x: string)
    requires '"' !in x
    ensures Strip(x, Plain) == x && Ends(x, Plain) == Plain
  {
    if x != "" {
      StripHead(x, Plain);
      HeadAndTail(x);
      assert x[0] in x;
      hide Strip;
      assert '"' !in x[1..];
      Verbatim(x[1..]);
    }
  }

  /** The state of the parser's loop behind x. */
  function Behind(x: string, m: Mode, st: Scan): Scan
    requires Balance(x, m, st.delims).Some?
  {
    Scan(Ends(x, m).Quoted?, st.wasQuoted || '"' in x, Balance(x, m, st.delims).value, st.current + Strip(x, m), st.added)
  }

  /** The state behind its first character. */
  function Stepped(c: char, m: Mode, st: Scan): Scan
    requires m.Plain? ==> Bracket(c, st.delims).Some?
  {
    Scan(Next(c, m).Quoted?, st.wasQuoted || c == '"', if m.Plain? then Bracket(c, st.delims).value else st.delims,
         if Keeps(c, m) then st.current + [c] else st.current, st.added)
  }

  lemma StripHead(x: string, m: Mode)
    requires x != ""
    ensures Strip(x, m) == if Keeps(x[0], m) then [x[0]] + Strip(x[1..], Next(x[0], m)) else Strip(x[1..], Next(x[0], m))
  {
    hide Keeps, Next;
  }

  lemma StripCons(before: string, x: string, m: Mode)
    requires x != ""
    ensures before + Strip(x, m) == (if Keeps(x[0], m) then before + [x[0]] else before) + Strip(x[1..], Next(x[0], m))
  {
    hide *;
    StripHead(x, m);
    Regrouped(before, [x[0]], Strip(x[1..], Next(x[0], m)));
  }

  lemma QuoteIn(x: string)
    requires x != ""
    ensures '"' in x <==> x[0] == '"' || '"' in x[1..]
  {
  }

  lemma BehindCons(x: string, m: Mode, st: Scan)
    requires x != "" && Balance(x, m, st.delims).Some?
    ensures m.Plain? ==> Bracket(x[0], st.delims).Some?
    ensures Balance(x[1..], Next(x[0], m), Stepped(x[0], m, st).delims).Some?
    ensures Behind(x[1..], Next(x[0], m), Stepped(x[0], m, st)) == Behind(x, m, st)
  {
    hide Bracket, Balance, Strip, Ends, Keeps, Next;
    BalanceNext(x, m, st.delims);
    BalanceCons(x, m, st.delims);
    StripCons(st.current, x, m);
    QuoteIn(x);
  }

  lemma BalanceNext(x: string, m: Mode, open: seq<char>)
    requires x != "" && Balance(x, m, open).Some?
    ensures m.Plain? ==> Bracket(x[0], open).Some?
  {
    hide Bracket;
  }

  lemma CharStep(k: Kind, m: Mode, st: Scan, c: char)
    requires !m.Escaped? && st.quoted == m.Quoted? && (st.quoted ==> st.wasQuoted && c != '\\')
    requires m.Plain? ==> Bracket(c, st.delims).Some?
    ensures Char(k, st, c) == Ok(Stepped(c, m, st))
  {
  }

  /** The parser's loop over x, in these terms. */
  lemma {:induction false} Through(k: Kind, x: string, m: Mode, tail: string, st: Scan)
    requires !m.Escaped? && st.quoted == m.Quoted? && (st.quoted ==> st.wasQuoted) && |tail| >= 1
    requires Balance(x, m, st.delims).Some? && !Ends(x, m).Escaped?
    ensures Loop(k, x + tail, st) == Loop(k, tail, Behind(x, m, st))
    decreases |x|
  {
    hide Loop, Char, Bracket, Balance, Strip;
    if x == "" {
      NothingBehind(m, st);
      assert x + tail == tail;
    } else {
      var s := x + tail;
      assert s[0] == x[0] && s[1..] == x[1..] + tail;
      BehindCons(x, m, st);
      LoopStep(k, s, st);
      if m.Quoted? && x[0] == '\\' {
        var t := Stepped(x[0], m, st);
        BehindCons(x[1..], Escaped, t);
        assert s[2..] == x[1..][1..] + tail;
        Through(k, x[1..][1..], Quoted, tail, Stepped(x[1], Escaped, t));
      } else {
        CharStep(k, m, st, x[0]);
        Through(k, x[1..], Next(x[0], m), tail, Stepped(x[0], m, st));
      }
    }
  }

  lemma NothingBehind(m: Mode, st: Scan)
    requires !m.Escaped? && st.quoted == m.Quoted?
    ensures Balance("", m, st.delims).Some? && Behind("", m, st) == st
  {
    assert st.current + "" == st.current;
  }

  // -------------------------------------------------------------------- no more text

  /** The text an element was read from. */
  function Source(e: Option<string>): string {
    if e.None? then "NULL" else e.value
  }

  /** The elements' texts, a comma behind each. */
  function Terminated(es: seq<Option<string>>): string {
    if es == [] then "" else Source(es[0]) + "," + Terminated(es[1..])
  }

  lemma {:induction false} TerminatedLast(es: seq<Option<string>>, e: Option<string>)
    ensures Terminated(es + [e]) == Terminated(es) + Source(e) + ","
  {
    if es == [] {
      assert es + [e] == [e] && [e][1..] == [];
    } else {
      assert (es + [e])[1..] == es[1..] + [e];
      TerminatedLast(es[1..], e);
      var a, b := Source(es[0]) + ",", Terminated(es[1..]);
      assert a + (b + Source(e) + ",") == a + b + Source(e) + ",";
    }
  }

  /** What a scan had added, had in hand and had before it, but the closing bracket. */
  function InHand(s: string, st: Scan): string
    requires s != ""
  {
    Terminated(st.added) + st.current + s[..|s| - 1] + ","
  }

  lemma InHandStep(s: string, st: Scan, t: Scan)
    requires |s| >= 2
    ensures t.added == st.added && t.current == st.current + [s[0]] ==> InHand(s[1..], t) == InHand(s, st)
    ensures t.added == st.added && t.current == st.current ==> forall x | Sub(x, InHand(s[1..], t)) :: Sub(x, InHand(s, st))
    ensures s[0] == ',' && t.added == st.added + [Element(st.current, st.wasQuoted)] && t.current == "" ==>
            InHand(s[1..], t) == InHand(s, st)
  {
    hide Sub, Terminated;
    var a, rest := Terminated(st.added) + st.current, s[1..][..|s| - 2];
    assert s[..|s| - 1] == [s[0]] + rest && rest == s[1..][..|s[1..]| - 1];
    assert a + s[..|s| - 1] + "," == a + [s[0]] + (rest + ",");
    if t.added == st.added && t.current == st.current + [s[0]] {
      assert Terminated(st.added) + (st.current + [s[0]]) + rest + "," == a + [s[0]] + (rest + ",");
    }
    if t.added == st.added && t.current == st.current {
      forall x | Sub(x, InHand(s[1..], t)) ensures Sub(x, InHand(s, st)) {
        assert a + rest + "," == a + (rest + ",");
        SubInsert(x, a, [s[0]], rest + ",");
      }
    }
    if s[0] == ',' && t.added == st.added + [Element(st.current, st.wasQuoted)] && t.current == "" {
      TerminatedLast(st.added, Element(st.current, st.wasQuoted));
      assert Terminated(t.added) + "" + rest + "," == a + [s[0]] + (rest + ",");
    }
  }

  lemma InHandEnds(s: string, st: Scan)
    requires |s| == 1
    ensures Sub(Terminated(st.added + [Element(st.current, st.wasQuoted)]), InHand(s, st))
    ensures Sub(Terminated(st.added), InHand(s, st))
  {
    var a := Terminated(st.added);
    TerminatedLast(st.added, Element(st.current, st.wasQuoted));
    assert s[..0] == "";
    assert a + st.current + "" + "," == a + st.current + ",";
    SubSame(a + st.current + ",");
    SubSame(a);
    SubConcat(a, a, "", st.current + ",");
    assert a + "" == a && a + (st.current + ",") == a + st.current + ",";
  }

  /** A backslash before the closing bracket adds that bracket to the last element. */
  lemma InHandEscapes(s: string, st: Scan, t: Scan)
    requires |s| == 2 && IsClosing(s[1]) && t == st.(current := st.current + [s[1]])
    ensures Sub(Terminated(t.added + [Element(t.current, t.wasQuoted)]), InHand(s, st))
    ensures Sub(Terminated(t.added), InHand(s, st))
  {
    var a := Terminated(st.added) + st.current;
    var c := [s[1]];
    InHandEnds(c, t);
    assert c[..0] == "" && s[..1] == [s[0]];
    assert Terminated(st.added) + (st.current + c) + "" + "," == a + c + ",";
    assert c[1..] == "";
    SubSame(a);
    SubSame(",");
    SubConcat(a, a, c, [s[0]]);
    SubConcat(a + c, a + [s[0]], ",", ",");
    SubTrans(Terminated(t.added + [Element(t.current, t.wasQuoted)]), InHand(c, t), InHand(s, st));
    SubTrans(Terminated(t.added), InHand(c, t), InHand(s, st));
  }

  /** Where the loops agree, so do the results. */
  lemma AddedAt(k: Kind, s: string, r: string, st: Scan, t: Scan)
    requires Loop(k, s, st) == Loop(k, r, t)
    ensures Added(k, s, st) == Added(k, r, t)
  {
    hide Loop, AddIfAny;
  }

  lemma AddedLast(k: Kind, s: string, st: Scan)
    requires |s| <= 1
    ensures Added(k, s, st) == if AddIfAny(k, st).Err? then Err(AddIfAny(k, st).error) else Ok(AddIfAny(k, st).value.added)
  {
  }

  /** The ways a step of the loop goes on. */
  lemma CharCases(k: Kind, st: Scan, c: char)
    requires Char(k, st, c).Ok?
    ensures var t := Char(k, st, c).value;
            || (t.added == st.added && t.current == st.current + [c])
            || (t.added == st.added && t.current == st.current)
            || (c == ',' && t.added == st.added + [Element(st.current, st.wasQuoted)] && t.current == "")
  {
  }

  lemma AddCases(k: Kind, st: Scan)
    requires AddIfAny(k, st).Ok?
    ensures var out := AddIfAny(k, st).value.added;
            out == st.added || out == st.added + [Element(st.current, st.wasQuoted)]
  {
  }

  /** What was added stays, the next element starts with what is in hand, and all
      elements together come from the text. */
  predicate Grown(out: seq<Option<string>>, s: string, st: Scan)
    requires s != ""
  {
    && st.added <= out && (|out| > |st.added| ==> st.current <= Source(out[|st.added|]))
    && Sub(Terminated(out), InHand(s, st))
  }

  lemma {:induction false} ReadTogether(k: Kind, s: string, st: Scan, out: seq<Option<string>>)
    requires |s| >= 1 && IsClosing(s[|s| - 1]) && Added(k, s, st) == Ok(out)
    ensures Grown(out, s, st)
    decreases |s|
  {
    hide Loop, Added, Char, AddIfAny, Sub, InHand, Terminated;
    AddedCases(k, s, st);
    LoopStep(k, s, st);
    if |s| == 1 {
      AddCases(k, st);
      InHandEnds(s, st);
    } else if st.quoted && s[0] == '\\' {
      var t := st.(current := st.current + [s[1]]);
      AddedAt(k, s, s[2..], st, t);
      if |s| == 2 {
        AddedLast(k, s[2..], t);
        AddCases(k, t);
        InHandEscapes(s, st, t);
      } else {
        ReadTogether(k, s[2..], t, out);
        InHandStep(s, st, st);
        InHandStep(s[1..], st, t);
        assert s[1..][1..] == s[2..];
      }
    } else {
      var t := Char(k, st, s[0]).value;
      CharCases(k, st, s[0]);
      AddedAt(k, s, s[1..], st, t);
      ReadTogether(k, s[1..], t, out);
      InHandStep(s, st, t);
    }
  }

  // ---------------------------------------------------------------- whole pieces

  /** The characters in hand, and one for the end of the last element. */
  function Hold(s: string, st: Scan): nat
    requires s != ""
  {
    Tally(Terminated(st.added), false) + Tally(st.current, false) + Tally(s[..|s| - 1], false) + 1
  }

  lemma HoldInHand(s: string, st: Scan)
    requires s != ""
    ensures Tally(InHand(s, st), false) == Hold(s, st)
  {
    var a, b := Terminated(st.added), s[..|s| - 1];
    hide Terminated, Tally;
    TallyAppend(a + st.current + b, ",", false);
    TallyAppend(a + st.current, b, false);
    TallyAppend(a, st.current, false);
    TallyOne(',', false);
  }

  lemma HoldStep(s: string, st: Scan, t: Scan)
    requires |s| >= 2
    ensures t.added == st.added && t.current == st.current + [s[0]] ==> Hold(s[1..], t) == Hold(s, st)
    ensures t.added == st.added && t.current == st.current ==> Hold(s[1..], t) + Tally([s[0]], false) == Hold(s, st)
    ensures s[0] == ',' && t.added == st.added + [Element(st.current, st.wasQuoted)] && t.current == "" ==>
            Hold(s[1..], t) == Hold(s, st)
  {
    var rest := s[1..][..|s[1..]| - 1];
    assert s[..|s| - 1] == [s[0]] + rest;
    hide Terminated, Tally;
    TallyAppend([s[0]], rest, false);
    TallyAppend(st.current, [s[0]], false);
    if s[0] == ',' && t.added == st.added + [Element(st.current, st.wasQuoted)] && t.current == "" {
      TerminatedLast(st.added, Element(st.current, st.wasQuoted));
      TallyAppend(Terminated(st.added) + st.current, ",", false);
      TallyAppend(Terminated(st.added), st.current, false);
      assert [s[0]] == ",";
      assert Tally("", false) == 0 by {
        TallyAppend("", "", false);
      }
    }
  }

  /** Nothing in hand has been lost. */
  predicate Tight(out: seq<Option<string>>, s: string, st: Scan)
    requires s != ""
  {
    Tally(Terminated(out), false) == Hold(s, st)
  }

  lemma StaysTight(out: seq<Option<string>>, s: string, st: Scan, r: string, t: Scan)
    requires s != "" && r != "" && Grown(out, r, t) && Tight(out, s, st) && Hold(r, t) <= Hold(s, st)
    ensures Tight(out, r, t) && Hold(r, t) == Hold(s, st)
  {
    SubTally(Terminated(out), InHand(r, t), false);
    HoldInHand(r, t);
    hide Hold, InHand;
  }

  /** What follows a piece: a comma and more, or the end of the literal. */
  predicate IsRest(rest: string) {
    && rest != "" && IsClosing(rest[|rest| - 1])
    && (|rest| == 1 || rest[0] == ',')
  }

  /** The next element will have the characters in hand and those of x. */
  predicate OneLeft(x: string, rest: string, st: Scan, out: seq<Option<string>>) {
    && IsRest(rest) && Tight(out, x + rest, st) && |out| > |st.added|
    && Tally(Source(out[|st.added|]), false) == Tally(st.current, false) + Tally(x, false)
    && (|rest| == 1 && x != "" && x[|x| - 1] == '\\' ==>
          Source(out[|st.added|]) != "" && !IsClosing(Source(out[|st.added|])[|Source(out[|st.added|])| - 1]))
  }

  lemma OneLeftStep(x: string, rest: string, st: Scan, t: Scan, out: seq<Option<string>>)
    requires OneLeft(x, rest, st, out) && x != "" && t.added == st.added
    requires t.current == st.current + [x[0]] || (t.current == st.current && Tally([x[0]], false) == 0)
    ensures OneLeft(x[1..], rest, t, out)
  {
    var s := x + rest;
    assert s[0] == x[0] && s[1..] == x[1..] + rest;
    hide Hold, Terminated, Tally;
    HoldStep(s, st, t);
    TallyAppend([x[0]], x[1..], false);
    TallyAppend(st.current, [x[0]], false);
    assert [x[0]] + x[1..] == x;
  }

  lemma OneLeftEscape(x: string, rest: string, st: Scan, t: Scan, out: seq<Option<string>>)
    requires OneLeft(x, rest, st, out) && |x| >= 2 && x[0] == '\\'
    requires t.added == st.added && t.current == st.current + [x[1]]
    ensures OneLeft(x[2..], rest, t, out)
  {
    hide OneLeft;
    TallyOne('\\', false);
    OneLeftStep(x, rest, st, st, out);
    OneLeftStep(x[1..], rest, st, t, out);
    assert x[1..][1..] == x[2..];
  }

  /** An escape cannot reach beyond the piece: it would take in a comma, or the closing
      bracket. */
  lemma EscapeStays(k: Kind, rest: string, st: Scan, out: seq<Option<string>>)
    requires st.quoted && Added(k, "\\" + rest, st) == Ok(out)
    ensures !OneLeft("\\", rest, st, out)
  {
    if OneLeft("\\", rest, st, out) {
      var s := "\\" + rest;
      var t := st.(current := st.current + [rest[0]]);
      assert s[1] == rest[0] && s[2..] == rest[1..];
      hide Tight;
      LoopStep(k, s, st);
      AddedAt(k, s, s[2..], st, t);
      TallyOne('\\', false);
      hide Added, Tally, Loop, AddIfAny;
      if |rest| == 1 {
        AddedLast(k, s[2..], t);
        AddCases(k, t);
      } else {
        ReadTogether(k, s[2..], t, out);
        TallyPrefix(t.current, Source(out[|st.added|]), false);
        TallyAppend(st.current, ",", false);
        TallyOne(',', false);
      }
    }
  }

  /** Neither can a comma outside quotes and brackets end it: the element would be too
      short, or dropped. */
  lemma CommaStays(k: Kind, x: string, rest: string, st: Scan, out: seq<Option<string>>)
    requires Added(k, x + rest, st) == Ok(out)
    requires x != "" && x[0] == ',' && !st.quoted && st.delims == []
    ensures !OneLeft(x, rest, st, out)
  {
    if OneLeft(x, rest, st, out) {
      var s, r := x + rest, x[1..] + rest;
      assert s[1..] == r && s[0] == ',';
      LoopStep(k, s, st);
      AddedCases(k, s, st);
      hide Added, Loop, AddIfAny, Tally, Grown, Tight, Hold;
      CommaAdds(k, st);
      assert AddIfAny(k, st).Ok?;
      var t := AddIfAny(k, st).value.(current := "");
      AddedAt(k, s, r, st, t);
      AddCases(k, st);
      ReadTogether(k, r, t, out);
      TallyAppend([','], x[1..], false);
      TallyOne(',', false);
      assert [','] + x[1..] == x;
      if t.added == st.added {
        NothingDropped(k, st);
        HoldStep(s, st, t);
        StaysTight(out, s, st, r, t);
      } else {
        GrownKeeps(out, r, t, st);
      }
    }
  }

  lemma CommaAdds(k: Kind, st: Scan)
    requires !st.quoted && st.delims == []
    ensures Char(k, st, ',') == if AddIfAny(k, st).Err? then Err(AddIfAny(k, st).error)
                                else Ok(AddIfAny(k, st).value.(current := ""))
  {
  }

  lemma NothingDropped(k: Kind, st: Scan)
    requires AddIfAny(k, st).Ok? && AddIfAny(k, st).value.added == st.added
    ensures st.current == ""
  {
    assert |st.added + [Element(st.current, st.wasQuoted)]| > |st.added|;
  }

  lemma GrownKeeps(out: seq<Option<string>>, s: string, t: Scan, st: Scan)
    requires s != "" && Grown(out, s, t) && t.added == st.added + [Element(st.current, st.wasQuoted)]
    ensures |out| > |st.added| && Source(out[|st.added|]) == st.current
  {
    hide Sub, InHand;
    assert out[|st.added|] == t.added[|st.added|];
  }

  /** One character, not an escape, of such a piece. */
  lemma StaysWhole(k: Kind, x: string, m: Mode, rest: string, st: Scan, out: seq<Option<string>>)
    requires !m.Escaped? && st.quoted == m.Quoted? && x != "" && (st.quoted ==> st.wasQuoted && x[0] != '\\')
    requires OneLeft(x, rest, st, out) && Added(k, x + rest, st) == Ok(out)
    ensures m.Plain? ==> Bracket(x[0], st.delims).Some?
    ensures var t := Stepped(x[0], m, st); Added(k, x[1..] + rest, t) == Ok(out) && OneLeft(x[1..], rest, t, out)
  {
    var s := x + rest;
    LengthOf(x, rest, st, out);
    assert s[0] == x[0] && s[1..] == x[1..] + rest;
    hide OneLeft, Added, Bracket, Loop, Char;
    LoopStep(k, s, st);
    AddedCases(k, s, st);
    if m.Plain? && Bracket(x[0], st.delims).None? {
      BracketFails(k, st, x[0]);
      CommaStays(k, x, rest, st, out);
    }
    CharStep(k, m, st, x[0]);
    AddedAt(k, s, s[1..], st, Stepped(x[0], m, st));
    TallyOne(x[0], false);
    OneLeftStep(x, rest, st, Stepped(x[0], m, st), out);
  }

  lemma EscapeWhole(k: Kind, x: string, rest: string, st: Scan, t: Scan, out: seq<Option<string>>)
    requires st.quoted && OneLeft(x, rest, st, out) && x != "" && x[0] == '\\' && Added(k, x + rest, st) == Ok(out)
    requires |x| >= 2 ==> t == st.(current := st.current + [x[1]])
    ensures |x| >= 2 && Added(k, x[2..] + rest, t) == Ok(out) && OneLeft(x[2..], rest, t, out)
  {
    var s := x + rest;
    LengthOf(x, rest, st, out);
    hide OneLeft, Added, Loop, Char;
    if |x| == 1 {
      assert x == "\\";
      EscapeStays(k, rest, st, out);
    }
    assert s[0] == x[0] && s[2..] == x[2..] + rest && s[1] == x[1];
    LoopStep(k, s, st);
    AddedAt(k, s, s[2..], st, t);
    OneLeftEscape(x, rest, st, t, out);
  }

  /** A piece that yields an element with all its characters is read as a whole. */
  lemma {:induction false} PieceIsOne(k: Kind, x: string, m: Mode, rest: string, st: Scan, out: seq<Option<string>>)
    requires !m.Escaped? && st.quoted == m.Quoted? && (st.quoted ==> st.wasQuoted)
    requires OneLeft(x, rest, st, out) && Added(k, x + rest, st) == Ok(out)
    ensures Balance(x, m, st.delims).Some? && !Ends(x, m).Escaped?
    decreases |x|
  {
    if x != "" {
      hide OneLeft, Added, Bracket, Balance, Ends, Loop, Char;
      if m.Quoted? && x[0] == '\\' {
        var t := if |x| >= 2 then st.(current := st.current + [x[1]]) else st;
        EscapeWhole(k, x, rest, st, t, out);
        PieceIsOne(k, x[2..], Quoted, rest, t, out);
        EscapedPair(x, st.delims);
      } else {
        StaysWhole(k, x, m, rest, st, out);
        PieceIsOne(k, x[1..], Next(x[0], m), rest, Stepped(x[0], m, st), out);
        BalanceCons(x, m, st.delims);
      }
    }
  }

  lemma LengthOf(x: string, rest: string, st: Scan, out: seq<Option<string>>)
    requires OneLeft(x, rest, st, out)
    ensures |rest| >= 1
  {
    hide Tight;
  }

  lemma BalanceCons(x: string, m: Mode, open: seq<char>)
    requires x != "" && (m.Plain? ==> Bracket(x[0], open).Some?)
    ensures Balance(x, m, open) == Balance(x[1..], Next(x[0], m), if m.Plain? then Bracket(x[0], open).value else open)
    ensures Ends(x, m) == Ends(x[1..], Next(x[0], m))
  {
    hide Bracket;
  }

  lemma EscapedPair(x: string, open: seq<char>)
    requires |x| >= 2 && x[0] == '\\'
    ensures Balance(x, Quoted, open) == Balance(x[2..], Quoted, open) && Ends(x, Quoted) == Ends(x[2..], Quoted)
  {
    assert x[1..][1..] == x[2..];
    BalanceCons(x, Quoted, open);
    BalanceCons(x[1..], Escaped, open);
  }

  lemma BracketFails(k: Kind, st: Scan, c: char)
    requires !st.quoted && Bracket(c, st.delims).None?
    ensures (c == ',' && st.delims == []) || Char(k, st, c).Err?
  {
  }

  // ------------------------------------------------------------------- whole literals

  /** The literal with these pieces between its commas. */
  function Literal(k: Kind, ps: seq<string>): string {
    if k.OfList? then "{" + Join(ps) + "}" else "(" + Join(ps) + ")"
  }

  function Close(k: Kind): string {
    if k.OfList? then "}" else ")"
  }

  /** What the parser makes of the pieces, one element each; in composites the quoted
      flag w sticks. */
  function Outs(k: Kind, ps: seq<string>, w: bool): (r: seq<Option<string>>)
    ensures |r| == |ps|
  {
    if ps == [] then []
    else
      var v := w || '"' in ps[0];
      [Element(Strip(ps[0], Plain), v)] + Outs(k, ps[1..], k.OfStruct? && v)
  }

  /** It does make one element of each: no comma outside quotes and brackets, no bracket
      out of place, nothing empty unless quoted; only the last may leave something open. */
  predicate Clean(k: Kind, ps: seq<string>, w: bool) {
    ps == [] ||
    var v := w || '"' in ps[0];
    && Balance(ps[0], Plain, []).Some? && !Ends(ps[0], Plain).Escaped?
    && (Strip(ps[0], Plain) != "" || v)
    && (|ps| > 1 ==> Balance(ps[0], Plain, []) == Some([]) && Ends(ps[0], Plain).Plain?)
    && Clean(k, ps[1..], k.OfStruct? && v)
  }

  /** What follows the first piece. */
  function Rest(k: Kind, ps: seq<string>): string
    requires ps != []
  {
    if |ps| == 1 then Close(k) else "," + (Join(ps[1..]) + Close(k))
  }

  lemma LiteralCons(k: Kind, ps: seq<string>)
    requires ps != []
    ensures Join(ps) + Close(k) == ps[0] + Rest(k, ps) && IsRest(Rest(k, ps))
  {
  }

  lemma ParseLiteral(k: Kind, ps: seq<string>)
    ensures var a := Added(k, Join(ps) + Close(k), Start());
            Parse(k, Literal(k, ps)) == if a.Ok? && k.OfStruct? && |a.value| != k.columns then Err(Mismatch) else a
  {
    assert Literal(k, ps)[1..] == Join(ps) + Close(k);
    hide Added, Join;
  }

  lemma AddAdds(k: Kind, st: Scan)
    requires st.current != "" || st.wasQuoted
    requires k.OfStruct? ==> |st.added| < k.columns
    ensures AddIfAny(k, st) == Ok(st.(added := st.added + [Element(st.current, st.wasQuoted)], wasQuoted := k.OfStruct? && st.wasQuoted))
  {
  }

  lemma CleanCons(k: Kind, ps: seq<string>, w: bool)
    requires ps != [] && Clean(k, ps, w)
    ensures var v, x := w || '"' in ps[0], Strip(ps[0], Plain);
            && Balance(ps[0], Plain, []).Some? && !Ends(ps[0], Plain).Escaped? && (x != "" || v)
            && (|ps| > 1 ==> Balance(ps[0], Plain, []) == Some([]) && Ends(ps[0], Plain).Plain?)
            && Clean(k, ps[1..], k.OfStruct? && v)
            && Outs(k, ps, w) == [Element(x, v)] + Outs(k, ps[1..], k.OfStruct? && v)
  {
    hide Balance, Ends, Strip, Element;
  }

  lemma CleanFirst(k: Kind, ps: seq<string>, w: bool, added: seq<Option<string>>)
    requires ps != [] && Clean(k, ps, w) && (k.OfStruct? ==> |added| < k.columns)
    ensures Balance(ps[0], Plain, []).Some?
    ensures var st := Scan(false, w, [], "", added);
            var t := Behind(ps[0], Plain, st);
            && Added(k, Join(ps) + Close(k), st) == Added(k, Rest(k, ps), t)
            && AddIfAny(k, t) == Ok(t.(added := added + [Outs(k, ps, w)[0]], wasQuoted := k.OfStruct? && t.wasQuoted))
  {
    LiteralCons(k, ps);
    CleanCons(k, ps, w);
    hide Added, Loop, Join, Balance, Ends, Strip, AddIfAny, Literal, Outs, Clean;
    var st := Scan(false, w, [], "", added);
    var t := Behind(ps[0], Plain, st);
    assert "" + Strip(ps[0], Plain) == Strip(ps[0], Plain);
    Through(k, ps[0], Plain, Rest(k, ps), st);
    AddedAt(k, ps[0] + Rest(k, ps), Rest(k, ps), st, t);
    AddAdds(k, t);
  }

  /** Behind the first piece: the end, or the comma and the other pieces. */
  lemma CleanNext(k: Kind, ps: seq<string>, t: Scan)
    requires ps != [] && AddIfAny(k, t).Ok? && !t.quoted
    ensures |ps| == 1 ==> Added(k, Rest(k, ps), t) == Ok(AddIfAny(k, t).value.added)
    ensures |ps| > 1 && t.delims == [] ==>
            Added(k, Rest(k, ps), t) == Added(k, Join(ps[1..]) + Close(k), AddIfAny(k, t).value.(current := ""))
  {
    hide Added, Loop, Join, AddIfAny;
    if |ps| == 1 {
      AddedLast(k, Close(k), t);
    } else if t.delims == [] {
      var tail := Join(ps[1..]) + Close(k);
      CommaRun(k, tail, t);
      AddedAt(k, "," + tail, tail, t, AddIfAny(k, t).value.(current := ""));
    }
  }

  lemma LastAnyway(k: Kind, ps: seq<string>, t: Scan)
    requires |ps| == 1 && AddIfAny(k, t).Ok?
    ensures Added(k, Rest(k, ps), t) == Ok(AddIfAny(k, t).value.added)
  {
    hide Loop, AddIfAny;
    AddedLast(k, Close(k), t);
  }

  lemma CleanAddsLast(k: Kind, ps: seq<string>, w: bool, added: seq<Option<string>>)
    requires |ps| == 1 && Clean(k, ps, w) && (k.OfStruct? ==> |added| < k.columns)
    ensures Added(k, Join(ps) + Close(k), Scan(false, w, [], "", added)) == Ok(added + Outs(k, ps, w))
  {
    var outs := Outs(k, ps, w);
    hide *;
    CleanFirst(k, ps, w, added);
    LastAnyway(k, ps, Behind(ps[0], Plain, Scan(false, w, [], "", added)));
    assert |outs| == 1 ==> outs == [outs[0]];
  }

  /** The state behind the first piece and its comma. */
  function Follow(k: Kind, ps: seq<string>, w: bool, added: seq<Option<string>>): Scan
    requires ps != []
  {
    Scan(false, k.OfStruct? && (w || '"' in ps[0]), [], "", added + [Outs(k, ps, w)[0]])
  }

  lemma CleanAddsMore(k: Kind, ps: seq<string>, w: bool, added: seq<Option<string>>)
    requires |ps| > 1 && Clean(k, ps, w) && (k.OfStruct? ==> |added| < k.columns)
    ensures Added(k, Join(ps) + Close(k), Scan(false, w, [], "", added)) == Added(k, Join(ps[1..]) + Close(k), Follow(k, ps, w, added))
  {
    var st := Scan(false, w, [], "", added);
    CleanFirst(k, ps, w, added);
    CleanCons(k, ps, w);
    assert !Behind(ps[0], Plain, st).quoted && Behind(ps[0], Plain, st).delims == [];
    hide Added, Join, Balance, Ends, Strip, AddIfAny, Outs, Clean, Rest;
    CleanNext(k, ps, Behind(ps[0], Plain, st));
  }

  lemma OutsCons(k: Kind, ps: seq<string>, w: bool)
    requires ps != []
    ensures Outs(k, ps, w) == [Outs(k, ps, w)[0]] + Outs(k, ps[1..], k.OfStruct? && (w || '"' in ps[0]))
  {
    hide Strip, Element;
  }

  lemma CleanTail(k: Kind, ps: seq<string>, w: bool)
    requires ps != [] && Clean(k, ps, w)
    ensures Clean(k, ps[1..], k.OfStruct? && (w || '"' in ps[0]))
  {
    hide Strip, Element, Balance, Ends;
  }

  lemma {:induction false} CleanAdds(k: Kind, ps: seq<string>, w: bool, added: seq<Option<string>>)
    requires ps != [] && Clean(k, ps, w) && (k.OfStruct? ==> |added| + |ps| <= k.columns)
    ensures Added(k, Join(ps) + Close(k), Scan(false, w, [], "", added)) == Ok(added + Outs(k, ps, w))
    decreases |ps|
  {
    if |ps| == 1 {
      CleanAddsLast(k, ps, w, added);
    } else {
      var v := k.OfStruct? && (w || '"' in ps[0]);
      assert Follow(k, ps, w, added) == Scan(false, v, [], "", added + [Outs(k, ps, w)[0]]);
      hide *;
      CleanAddsMore(k, ps, w, added);
      CleanTail(k, ps, w);
      OutsCons(k, ps, w);
      CleanAdds(k, ps[1..], v, added + [Outs(k, ps, w)[0]]);
      Regrouped(added, [Outs(k, ps, w)[0]], Outs(k, ps[1..], v));
    }
  }

  /** Sufficiency: clean pieces are read as one element each. */
  lemma CleanParses(k: Kind, ps: seq<string>)
    requires Clean(k, ps, false) && (k.OfStruct? ==> k.columns == |ps|)
    ensures Parse(k, Literal(k, ps)) == Ok(Outs(k, ps, false))
  {
    ParseLiteral(k, ps);
    hide Added, Clean, Outs;
    if ps == [] {
      assert "" + Close(k) == Close(k);
      AddedLast(k, Close(k), Start());
      assert Outs(k, ps, false) == [];
    } else {
      CleanAdds(k, ps, false, []);
      assert [] + Outs(k, ps, false) == Outs(k, ps, false);
    }
  }

  /** The elements have the characters of their pieces, quotes and escapes aside, and
      the last does not take in the closing bracket behind a backslash. */
  predicate Accounted(ps: seq<string>, out: seq<Option<string>>) {
    && |out| == |ps|
    && (forall i | 0 <= i < |ps| :: Tally(Source(out[i]), false) == Tally(ps[i], false))
    && (ps != [] ==> var p, e := ps[|ps| - 1], Source(out[|ps| - 1]);
                     p != "" && p[|p| - 1] == '\\' ==> e != "" && !IsClosing(e[|e| - 1]))
  }

  lemma AccountedCons(ps: seq<string>, out: seq<Option<string>>)
    requires Accounted(ps, out) && ps != []
    ensures Accounted(ps[1..], out[1..])
  {
    hide Tally;
    assert forall i | 0 <= i < |ps| - 1 :: ps[1..][i] == ps[i + 1] && out[1..][i] == out[i + 1];
  }

  lemma {:induction false} TerminatedAppend(a: seq<Option<string>>, b: seq<Option<string>>)
    ensures Tally(Terminated(a + b), false) == Tally(Terminated(a), false) + Tally(Terminated(b), false)
  {
    if b == [] {
      assert a + b == a;
      NoTally();
    } else {
      var c, e := b[..|b| - 1], b[|b| - 1];
      assert b == c + [e] && a + b == (a + c) + [e];
      TerminatedAppend(a, c);
      hide Terminated, Tally;
      TerminatedLast(a + c, e);
      TerminatedLast(c, e);
      assert Terminated(a + c) + Source(e) + "," == Terminated(a + c) + (Source(e) + ",");
      assert Terminated(c) + Source(e) + "," == Terminated(c) + (Source(e) + ",");
      TallyAppend(Terminated(a + c), Source(e) + ",", false);
      TallyAppend(Terminated(c), Source(e) + ",", false);
    }
  }

  lemma {:induction false} AccountedJoin(ps: seq<string>, out: seq<Option<string>>)
    requires ps != [] && Accounted(ps, out)
    ensures Tally(Terminated(out), false) == Tally(Join(ps), false) + 1
    decreases |ps|
  {
    AccountedCons(ps, out);
    AccountedFirst(ps, out);
    TallyOne(',', false);
    NoTally();
    var a, b := Source(out[0]), Terminated(out[1..]);
    assert Terminated(out) == a + ("," + b);
    hide Tally, Accounted;
    TallyAppend(a, "," + b, false);
    TallyAppend(",", b, false);
    if |ps| == 1 {
      JoinOne(ps);
      assert out[1..] == [];
    } else {
      AccountedJoin(ps[1..], out[1..]);
      JoinMore(ps);
      hide Join;
      TallyAppend(ps[0], "," + Join(ps[1..]), false);
      TallyAppend(",", Join(ps[1..]), false);
    }
  }

  lemma AccountedTight(k: Kind, ps: seq<string>, added: seq<Option<string>>, out: seq<Option<string>>, w: bool)
    requires ps != [] && Accounted(ps, out)
    ensures Tight(added + out, Join(ps) + Close(k), Scan(false, w, [], "", added))
  {
    hide Accounted, Join, Terminated, Tally;
    var s := Join(ps) + Close(k);
    assert s[..|s| - 1] == Join(ps);
    AccountedJoin(ps, out);
    TerminatedAppend(added, out);
    NoTally();
  }

  lemma AccountedFirst(ps: seq<string>, out: seq<Option<string>>)
    requires Accounted(ps, out) && ps != []
    ensures out != [] && Tally(Source(out[0]), false) == Tally(ps[0], false)
  {
  }

  lemma NoTally()
    ensures Tally("", false) == 0 && Tally("", true) == 0
  {
  }

  lemma JoinOne(ps: seq<string>)
    requires |ps| == 1
    ensures Join(ps) == ps[0]
  {
  }

  lemma JoinMore(ps: seq<string>)
    requires |ps| > 1
    ensures Join(ps) == ps[0] + ("," + Join(ps[1..]))
  {
  }

  lemma HoldBehind(x: string, m: Mode, rest: string, st: Scan)
    requires rest != "" && Balance(x, m, st.delims).Some?
    ensures Hold(rest, Behind(x, m, st)) == Hold(x + rest, st)
    ensures Tally(Behind(x, m, st).current, false) == Tally(st.current, false) + Tally(x, false)
  {
    hide Tally, Balance, Terminated, Ends, Strip;
    var s, tail := x + rest, rest[..|rest| - 1];
    assert s[..|s| - 1] == x + tail;
    StripTally(x, m);
    TallyAppend(st.current, Strip(x, m), false);
    TallyAppend(x, tail, false);
  }

  /** Behind the piece only what is in hand is left. */
  lemma OneLeftBehind(x: string, m: Mode, rest: string, st: Scan, out: seq<Option<string>>)
    requires OneLeft(x, rest, st, out) && Balance(x, m, st.delims).Some?
    ensures OneLeft("", rest, Behind(x, m, st), out)
  {
    hide Tally, Balance, Hold, Ends, Strip;
    assert "" + rest == rest;
    HoldBehind(x, m, rest, st);
    NoTally();
  }

  /** An element complete at a comma is added there. */
  lemma CommaEnds(k: Kind, tail: string, t: Scan, out: seq<Option<string>>)
    requires OneLeft("", "," + tail, t, out) && Added(k, "," + tail, t) == Ok(out)
    requires |tail| >= 1
    ensures !t.quoted && t.delims == [] && (t.current != "" || t.wasQuoted)
    ensures k.OfStruct? ==> |t.added| < k.columns
  {
    var rest := "," + tail;
    assert rest[0] == ',' && rest[1..] == tail;
    OneLeftFacts(tail, t, out);
    TallyOne(',', false);
    hide *;
    LoopStep(k, rest, t);
    AddedCases(k, rest, t);
    var u := Char(k, t, ',').value;
    AddedAt(k, rest, tail, t, u);
    ReadTogether(k, tail, u, out);
    CommaKeeps(k, t, u);
    if t.quoted || t.delims != [] {
      TallyAppend(t.current, [','], false);
      CurrentFits(out, tail, u);
    } else if t.current == "" && !t.wasQuoted {
      HoldStep(rest, t, u);
      StaysTight(out, rest, t, tail, u);
    }
  }

  lemma OneLeftFacts(tail: string, t: Scan, out: seq<Option<string>>)
    requires OneLeft("", "," + tail, t, out) && |tail| >= 1
    ensures Tight(out, "," + tail, t) && |out| > |t.added| && IsClosing(tail[|tail| - 1])
    ensures Tally(Source(out[|t.added|]), false) == Tally(t.current, false)
  {
    hide Tight, Tally;
    var rest := "," + tail;
    assert "" + rest == rest && rest[|rest| - 1] == tail[|tail| - 1];
    NoTally();
  }

  lemma CommaKeeps(k: Kind, t: Scan, u: Scan)
    requires Char(k, t, ',') == Ok(u)
    ensures t.quoted || t.delims != [] ==> u.added == t.added && u.current == t.current + [',']
    ensures !(t.quoted || t.delims != []) && t.current == "" && !t.wasQuoted ==> u.added == t.added && u.current == t.current
    ensures k.OfStruct? && !(t.quoted || t.delims != []) && (t.current != "" || t.wasQuoted) ==> |t.added| < k.columns
  {
  }

  lemma CurrentFits(out: seq<Option<string>>, s: string, st: Scan)
    requires s != "" && Grown(out, s, st) && |out| > |st.added|
    ensures Tally(st.current, false) <= Tally(Source(out[|st.added|]), false)
  {
    TallyPrefix(st.current, Source(out[|st.added|]), false);
  }

  /** The first piece, read as a whole. */
  lemma FirstWhole(k: Kind, ps: seq<string>, w: bool, added: seq<Option<string>>, out: seq<Option<string>>)
    requires ps != [] && Accounted(ps, out)
    requires Added(k, Join(ps) + Close(k), Scan(false, w, [], "", added)) == Ok(added + out)
    ensures Balance(ps[0], Plain, []).Some? && !Ends(ps[0], Plain).Escaped?
    ensures var t := Behind(ps[0], Plain, Scan(false, w, [], "", added));
            Added(k, Rest(k, ps), t) == Ok(added + out) && OneLeft("", Rest(k, ps), t, added + out)
  {
    var st, all, rest := Scan(false, w, [], "", added), added + out, Rest(k, ps);
    LiteralCons(k, ps);
    AccountedTight(k, ps, added, out, w);
    assert OneLeft(ps[0], rest, st, all) by {
      hide Tight, Tally, Join;
      NoTally();
      assert all[|added|] == out[0];
    }
    hide *;
    PieceIsOne(k, ps[0], Plain, rest, st, all);
    Through(k, ps[0], Plain, rest, st);
    AddedAt(k, ps[0] + rest, rest, st, Behind(ps[0], Plain, st));
    OneLeftBehind(ps[0], Plain, rest, st, all);
  }

  lemma {:induction false} CleanOnlyAdds(k: Kind, ps: seq<string>, w: bool, added: seq<Option<string>>, out: seq<Option<string>>)
    requires ps != [] && Accounted(ps, out)
    requires Added(k, Join(ps) + Close(k), Scan(false, w, [], "", added)) == Ok(added + out)
    ensures Clean(k, ps, w) && out == Outs(k, ps, w)
    decreases |ps|
  {
    FirstWhole(k, ps, w, added, out);
    AccountedCons(ps, out);
    AccountedFirst(ps, out);
    var t := Behind(ps[0], Plain, Scan(false, w, [], "", added));
    var v := k.OfStruct? && t.wasQuoted;
    assert t.wasQuoted == (w || '"' in ps[0]) && t.added == added && t.current == Strip(ps[0], Plain) by {
      assert "" + Strip(ps[0], Plain) == Strip(ps[0], Plain);
    }
    assert |ps| > 1 ==> Rest(k, ps) == "," + (Join(ps[1..]) + Close(k));
    assert t.quoted == Ends(ps[0], Plain).Quoted? && t.delims == Balance(ps[0], Plain, []).value;
    hide Added, Loop, Join, Balance, Ends, Strip, AddIfAny, OneLeft, Accounted, Behind, Rest, Clean, Outs;
    if |ps| == 1 {
      assert AddIfAny(k, t).Ok? && AddIfAny(k, t).value.added == added + out by {
        LastOk(k, ps, t, added + out);
      }
      LastAdded(k, t, added, out);
      NothingCleanAt(k, ps[1..], v);
    } else {
      var u := CommaNext(k, Join(ps[1..]) + Close(k), t, added, out);
      CleanOnlyAdds(k, ps[1..], v, u.added, out[1..]);
    }
    CleanFromCons(k, ps, w, out);
  }

  lemma LastOk(k: Kind, ps: seq<string>, t: Scan, all: seq<Option<string>>)
    requires |ps| == 1 && Added(k, Rest(k, ps), t) == Ok(all)
    ensures AddIfAny(k, t).Ok? && AddIfAny(k, t).value.added == all
  {
    hide Loop, AddIfAny;
    AddedLast(k, Close(k), t);
  }

  lemma NothingCleanAt(k: Kind, ps: seq<string>, w: bool)
    requires ps == []
    ensures Clean(k, ps, w) && Outs(k, ps, w) == []
  {
  }

  lemma CleanFromCons(k: Kind, ps: seq<string>, w: bool, out: seq<Option<string>>)
    requires ps != [] && |out| == |ps|
    requires var v, x := w || '"' in ps[0], Strip(ps[0], Plain);
             && Balance(ps[0], Plain, []).Some? && !Ends(ps[0], Plain).Escaped? && (x != "" || v)
             && (|ps| > 1 ==> Balance(ps[0], Plain, []) == Some([]) && Ends(ps[0], Plain).Plain?)
             && Clean(k, ps[1..], k.OfStruct? && v)
             && out[0] == Element(x, v) && out[1..] == Outs(k, ps[1..], k.OfStruct? && v)
    ensures Clean(k, ps, w) && out == Outs(k, ps, w)
  {
    hide Balance, Ends, Strip, Element;
    assert out == [out[0]] + out[1..];
  }

  lemma CommaNext(k: Kind, tail: string, t: Scan, added: seq<Option<string>>, out: seq<Option<string>>) returns (u: Scan)
    requires OneLeft("", "," + tail, t, added + out) && Added(k, "," + tail, t) == Ok(added + out)
    requires |tail| >= 1 && out != [] && t.added == added
    ensures !t.quoted && t.delims == [] && (t.current != "" || t.wasQuoted)
    ensures u == Scan(false, k.OfStruct? && t.wasQuoted, [], "", added + [out[0]])
    ensures out[0] == Element(t.current, t.wasQuoted)
    ensures u.added + out[1..] == added + out && Added(k, tail, u) == Ok(u.added + out[1..])
  {
    var e, all := Element(t.current, t.wasQuoted), added + out;
    LastCloses(tail, t, all);
    hide *;
    CommaEnds(k, tail, t, all);
    AddAdds(k, t);
    CommaRun(k, tail, t);
    u := Scan(false, k.OfStruct? && t.wasQuoted, [], "", added + [e]);
    AddedAt(k, "," + tail, tail, t, u);
    ReadTogether(k, tail, u, all);
    GrownHas(all, tail, u, added, e);
    assert all[|added|] == out[0];
    HeadAndTail(out);
    Regrouped(added, [out[0]], out[1..]);
  }

  lemma LastCloses(tail: string, t: Scan, out: seq<Option<string>>)
    requires OneLeft("", "," + tail, t, out) && |tail| >= 1
    ensures IsClosing(tail[|tail| - 1])
  {
    hide Tight, Tally;
  }

  lemma GrownHas(out: seq<Option<string>>, s: string, st: Scan, added: seq<Option<string>>, e: Option<string>)
    requires s != "" && Grown(out, s, st) && st.added == added + [e]
    ensures |out| > |added| && out[|added|] == e
  {
    hide Sub, InHand;
    assert out[|added|] == st.added[|added|];
  }

  lemma LastAdded(k: Kind, t: Scan, added: seq<Option<string>>, out: seq<Option<string>>)
    requires AddIfAny(k, t).Ok? && AddIfAny(k, t).value.added == added + out && out != [] && t.added == added
    ensures (t.current != "" || t.wasQuoted) && out == [Element(t.current, t.wasQuoted)]
  {
    var e := Element(t.current, t.wasQuoted);
    assert |added + out| > |added|;
    assert (added + [e])[|added|..] == [e] && (added + out)[|added|..] == out;
  }

  /** Main result: a literal of arbitrary pieces is read as accountable elements exactly
      if the pieces are clean, and the elements are then determined. */
  lemma LiteralParses(k: Kind, ps: seq<string>, out: seq<Option<string>>)
    requires Accounted(ps, out) && (k.OfStruct? ==> k.columns == |ps|)
    ensures Parse(k, Literal(k, ps)) == Ok(out) <==> Clean(k, ps, false) && out == Outs(k, ps, false)
  {
    hide Parse, Clean, Outs, Accounted;
    if Clean(k, ps, false) {
      CleanParses(k, ps);
    }
    if Parse(k, Literal(k, ps)) == Ok(out) {
      ParseLiteral(k, ps);
      if ps == [] {
        NothingClean(k);
        AccountedLength(ps, out);
      } else {
        assert [] + out == out;
        CleanOnlyAdds(k, ps, false, [], out);
      }
    }
  }

  lemma NothingClean(k: Kind)
    ensures Clean(k, [], false) && Outs(k, [], false) == []
  {
  }

  lemma AccountedLength(ps: seq<string>, out: seq<Option<string>>)
    requires Accounted(ps, out)
    ensures |out| == |ps|
  {
  }

  function Sources(es: seq<Option<string>>): (r: seq<string>)
    ensures |r| == |es|
  {
    seq(|es|, i requires 0 <= i < |es| => Source(es[i]))
  }

  lemma {:induction false} SourcesJoin(es: seq<Option<string>>)
    requires es != []
    ensures Terminated(es) == Join(Sources(es)) + ","
    decreases |es|
  {
    var ps := Sources(es);
    if |es| == 1 {
      assert es[1..] == [];
      assert Source(es[0]) + "," + "" == Source(es[0]) + ",";
    } else {
      SourcesJoin(es[1..]);
      assert ps[1..] == Sources(es[1..]);
      var a, b := ps[0] + ",", Join(ps[1..]);
      assert a + (b + ",") == a + b + ",";
    }
  }

  /** No parse invents characters: the elements, put together again, are found in the
      text in order, closing brackets aside. */
  lemma ParseKeeps(k: Kind, s: string, out: seq<Option<string>>)
    requires Parse(k, s) == Ok(out)
    ensures Sub(Literal(k, Sources(out)), s)
  {
    var open, close := if k.OfList? then "{" else "(", Close(k);
    var body := ParseBody(k, s, out);
    var inner := Join(Sources(out));
    hide *;
    if out == [] {
      NothingJoined();
      SubNothing(body);
    } else {
      SourcesJoin(out);
      SubLast(inner, body, ',');
    }
    SubSame(open);
    SubSame(close);
    SubConcat(open, open, inner, body);
    SubConcat(open + inner, open + body, close, close);
    LiteralIs(k, Sources(out));
  }

  lemma ParseBody(k: Kind, s: string, out: seq<Option<string>>) returns (body: string)
    requires Parse(k, s) == Ok(out)
    ensures s == (if k.OfList? then "{" else "(") + body + Close(k)
    ensures Sub(Terminated(out), body + ",") && (out == [] ==> Sources(out) == [])
  {
    hide Added, Sub, Join;
    assert |s| >= 2;
    body := s[1..|s| - 1];
    assert s[1..] == body + [s[|s| - 1]];
    ReadTogether(k, s[1..], Start(), out);
    assert InHand(s[1..], Start()) == body + ",";
  }

  lemma LiteralIs(k: Kind, ps: seq<string>)
    ensures Literal(k, ps) == (if k.OfList? then "{" else "(") + Join(ps) + Close(k)
  {
    hide Join;
  }

  lemma NothingJoined()
    ensures Join(Sources([])) == ""
  {
  }

  lemma SubNothing(a: string)
    ensures Sub("", a)
  {
  }

  // ------------------------------------------------------------- pieces that are quoted

  lemma EscapeCons(x: string)
    requires x != ""
    ensures Escape(x) == (if IsNoise(x[0]) then "\\" else "") + [x[0]] + Escape(x[1..])
  {
  }

  lemma EscapeRegroup(slash: string, c: char, e: string)
    ensures slash + [c] + e + "\"" == slash + ([c] + (e + "\""))
    ensures slash == "" ==> slash + ([c] + (e + "\"")) == [c] + (e + "\"")
  {
  }

  lemma KeptCons(c: char, rest: string, m: Mode)
    ensures Strip([c] + rest, m) == (if Keeps(c, m) then [c] else "") + Strip(rest, Next(c, m))
    ensures Ends([c] + rest, m) == Ends(rest, Next(c, m))
    ensures !m.Plain? ==> forall open :: Balance([c] + rest, m, open) == Balance(rest, Next(c, m), open)
  {
    assert ([c] + rest)[1..] == rest;
    assert "" + Strip(rest, Next(c, m)) == Strip(rest, Next(c, m));
  }

  lemma {:induction false} EscapeStrips(x: string)
    ensures Strip(Escape(x) + "\"", Quoted) == x && Ends(Escape(x) + "\"", Quoted) == Plain
    ensures forall open :: Balance(Escape(x) + "\"", Quoted, open) == Some(open)
    ensures Tally(Escape(x), false) == Tally(x, false)
    decreases |x|
  {
    if x == "" {
      assert Escape(x) + "\"" == "\"" && "\""[1..] == "";
    } else {
      var rest := Escape(x[1..]) + "\"";
      EscapeStrips(x[1..]);
      EscapeCons(x);
      assert x == [x[0]] + x[1..];
      hide Strip, Ends, Balance, Escape, Tally;
      KeptCons(x[0], rest, Quoted);
      KeptCons(x[0], rest, Escaped);
      KeptCons('\\', [x[0]] + rest, Quoted);
      var slash := if IsNoise(x[0]) then "\\" else "";
      EscapeRegroup(slash, x[0], Escape(x[1..]));
      TallyAppend(slash + [x[0]], Escape(x[1..]), false);
      TallyAppend(slash, [x[0]], false);
      TallyAppend([x[0]], x[1..], false);
      TallyOne('\\', false);
      NoTally();
    }
  }

  /** Scanning a text quoted where needed gives the text, whatever is open around it. */
  lemma QuoteStrips(x: string)
    ensures Strip(Quote(x), Plain) == x && Ends(Quote(x), Plain) == Plain
    ensures forall open :: Balance(Quote(x), Plain, open) == Some(open)
    ensures Tally(Quote(x), false) == Tally(x, false) && ('"' in Quote(x) <==> NeedsQuotes(x))
  {
    EscapeStrips(x);
    if NeedsQuotes(x) {
      var s := Quote(x);
      assert s[0] == '"' && s[1..] == Escape(x) + "\"";
      TallyAppend(Escape(x), "\"", false);
      TallyOne('"', false);
    } else {
      assert forall c | c in x :: !IsSpecial(c);
      Verbatim(x);
      UnquotedBalance(x);
    }
  }

  lemma {:induction false} UnquotedBalance(x: string)
    requires forall c | c in x :: !IsSpecial(c)
    ensures forall open :: Balance(x, Plain, open) == Some(open)
  {
    if x != "" {
      assert x[0] in x && forall c | c in x[1..] :: c in x;
      UnquotedBalance(x[1..]);
    }
  }
}
