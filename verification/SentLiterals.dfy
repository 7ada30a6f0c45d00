/** Literals as the server sends them (its output routines, sections 8.15.6 and 8.16.6 of
    the PostgreSQL manual), read by ParsePostgresNested (src/postgres_text_reader.cpp).
    The server quotes by its own rules: brackets of the other kind stay bare, and in
    composites a quote is doubled. */
module SentLiterals {
  import opened Wrappers
  import opened Characters
  import opened ArrayLiteral
  import opened Subtexts
  import opened TextPieces
  import opened NestedRoundTrip
  import opened ListsOfLists

  // ---------------------------------------------------------------------- arrays

  predicate ArrayQuotes(x: string) {
    x == "" || SameLetters(x, "null") || exists c | c in x :: c in "\"\\{}," || IsSpace(c)
  }

  function ArraySentPart(e: Option<string>): string {
    match e
    case None => "NULL"
    case Some(x) => if ArrayQuotes(x) then "\"" + (Escape(x) + "\"") else x
  }

  function ArraySentParts(es: seq<Option<string>>): (ps: seq<string>)
    ensures |ps| == |es|
  {
    seq(|es|, i requires 0 <= i < |es| => ArraySentPart(es[i]))
  }

  function ArraySent(es: seq<Option<string>>): string {
    "{" + Join(ArraySentParts(es)) + "}"
  }

  /** Bare elements have their round brackets in order; only the last may leave some open. */
  predicate BareInOrder(es: seq<Option<string>>) {
    forall i | 0 <= i < |es| && es[i].Some? && !ArrayQuotes(es[i].value) ::
      Brackets(es[i].value, []).Some? && (i + 1 < |es| ==> Brackets(es[i].value, []) == Some([]))
  }

  lemma BareInOrderCons(es: seq<Option<string>>)
    requires es != []
    ensures BareInOrder(es) <==>
            && BareInOrder(es[1..])
            && (es[0].Some? && !ArrayQuotes(es[0].value) ==>
                  Brackets(es[0].value, []).Some? && (|es| > 1 ==> Brackets(es[0].value, []) == Some([])))
  {
    hide Brackets, ArrayQuotes;
    assert forall i | 0 <= i < |es| - 1 :: es[1..][i] == es[i + 1];
    if BareInOrder(es) {
      forall i | 0 <= i < |es| - 1 && es[1..][i].Some? && !ArrayQuotes(es[1..][i].value)
        ensures Brackets(es[1..][i].value, []).Some? && (i + 2 < |es| ==> Brackets(es[1..][i].value, []) == Some([]))
      {
        assert es[i + 1].Some?;
      }
    }
    if BareInOrder(es[1..]) {
      forall i | 0 < i < |es| && es[i].Some? && !ArrayQuotes(es[i].value)
        ensures Brackets(es[i].value, []).Some? && (i + 1 < |es| ==> Brackets(es[i].value, []) == Some([]))
      {
        assert es[1..][i - 1].Some?;
      }
    }
  }

  /** Text in quotes, scanned. */
  lemma InQuotes(x: string)
    ensures var p := "\"" + (Escape(x) + "\"");
            && Strip(p, Plain) == x && Ends(p, Plain) == Plain && Balance(p, Plain, []) == Some([])
            && Tally(p, false) == Tally(x, false) && '"' in p && p[|p| - 1] == '"'
  {
    var rest := Escape(x) + "\"";
    var p := "\"" + rest;
    EscapeStrips(x);
    assert p[0] == '"' && p[1..] == rest && ['"'] + rest == p;
    assert Bracket('"', []) == Some([]);
    hide Escape, Strip, Ends, Balance, Tally;
    StripHead(p, Plain);
    KeptCons('"', rest, Plain);
    BalanceCons(p, Plain, []);
    TallyAppend("\"", rest, false);
    TallyAppend(Escape(x), "\"", false);
    TallyOne('"', false);
  }

  lemma ArrayPartScans(e: Option<string>)
    ensures var p := ArraySentPart(e);
            && Strip(p, Plain) == Source(e) && Ends(p, Plain) == Plain && Tally(p, false) == Tally(Source(e), false)
            && p != "" && p[|p| - 1] != '\\' && Element(Source(e), '"' in p) == e && (Source(e) != "" || '"' in p)
            && Balance(p, Plain, []) == if e.Some? && !ArrayQuotes(e.value) then Brackets(e.value, []) else Some([])
  {
    match e
    case None =>
      Verbatim("NULL");
      UnquotedBalance("NULL");
    case Some(x) =>
      if ArrayQuotes(x) {
        InQuotes(x);
      } else {
        assert forall c | c in x :: c != '"' && c != '\\';
        Verbatim(x);
        BracketsAre(x, []);
        assert x[|x| - 1] in x;
        assert x == "NULL" ==> SameLetters(x, "null");
      }
  }

  lemma {:induction false} ArrayClean(es: seq<Option<string>>)
    ensures Clean(OfList, ArraySentParts(es), false) && Outs(OfList, ArraySentParts(es), false) == es <==> BareInOrder(es)
    decreases |es|
  {
    if es != [] {
      var ps := ArraySentParts(es);
      assert ps[1..] == ArraySentParts(es[1..]);
      ArrayClean(es[1..]);
      BareInOrderCons(es);
      ArrayPartScans(es[0]);
      hide Strip, Ends, Balance, Brackets, ArrayQuotes, ArraySentPart, BareInOrder, Tally;
      assert Outs(OfList, ps, false) == [Element(Strip(ps[0], Plain), '"' in ps[0])] + Outs(OfList, ps[1..], false);
      assert es == [es[0]] + es[1..];
    }
  }

  /** Main result on arrays sent by the server: an array of texts is read as its elements
      exactly if the round brackets of its bare elements are in order. */
  lemma SentArrayRead(es: seq<Option<string>>)
    ensures Parse(OfList, ArraySent(es)) == Ok(es) <==> BareInOrder(es)
  {
    var ps := ArraySentParts(es);
    forall i | 0 <= i < |es|
      ensures Tally(Source(es[i]), false) == Tally(ps[i], false) && ps[i] != "" && ps[i][|ps[i]| - 1] != '\\'
    {
      ArrayPartScans(es[i]);
    }
    hide Tally, Parse, BareInOrder, ArraySentPart;
    LiteralParses(OfList, ps, es);
    ArrayClean(es);
  }

  /** One that is not: the text ":)" needs no quotes for the server. */
  lemma SmileLost()
    ensures Parse(OfList, ArraySent([Some(":)")])) != Ok([Some(":)")])
  {
    var es := [Some(":)")];
    assert ":)"[1..] == ")" && Brackets(":)", []) == Brackets(")", []) == None;
    assert !ArrayQuotes(":)") by {
      assert forall c | c in ":)" :: c == ':' || c == ')';
    }
    SentArrayRead(es);
    assert !BareInOrder(es) by {
      assert es[0].Some?;
    }
  }

  // ------------------------------------------------------------------- composites

  predicate RowQuotes(x: string) {
    x == "" || exists c | c in x :: c in "\"\\()," || IsSpace(c)
  }

  /** Quotes and backslashes doubled. */
  function Double(x: string): string {
    if x == "" then "" else (if x[0] == '"' || x[0] == '\\' then [x[0]] else "") + [x[0]] + Double(x[1..])
  }

  function RowSentPart(e: Option<string>): string {
    match e
    case None => ""
    case Some(x) => if RowQuotes(x) then "\"" + (Double(x) + "\"") else x
  }

  function RowSentParts(fs: seq<Option<string>>): (ps: seq<string>)
    ensures |ps| == |fs|
  {
    seq(|fs|, i requires 0 <= i < |fs| => RowSentPart(fs[i]))
  }

  function RowSent(fs: seq<Option<string>>): string {
    "(" + Join(RowSentParts(fs)) + ")"
  }

  function WithoutQuotes(x: string): string {
    if x == "" then "" else (if x[0] == '"' then "" else [x[0]]) + WithoutQuotes(x[1..])
  }

  lemma {:induction false} NoQuotesLost(x: string)
    ensures |WithoutQuotes(x)| <= |x|
    ensures WithoutQuotes(x) == x <==> '"' !in x
    ensures '"' in x ==> |WithoutQuotes(x)| < |x|
  {
    if x != "" {
      NoQuotesLost(x[1..]);
      assert [x[0]] + x[1..] == x;
    }
  }

  /** The parser takes both quotes of a pair for quotes. */
  lemma {:induction false} DoubleStrips(x: string)
    ensures Strip(Double(x) + "\"", Quoted) == WithoutQuotes(x) && Ends(Double(x) + "\"", Quoted) == Plain
    ensures forall open :: Balance(Double(x) + "\"", Quoted, open) == Some(open)
    ensures Tally(Double(x), false) == Tally(x, false)
    decreases |x|
  {
    if x == "" {
      assert Double(x) + "\"" == "\"" && "\""[1..] == "";
    } else {
      var rest := Double(x[1..]) + "\"";
      var twice := if x[0] == '"' || x[0] == '\\' then [x[0]] else "";
      DoubleStrips(x[1..]);
      DoubleCons(x);
      assert x == [x[0]] + x[1..] && WithoutQuotes(x) == (if x[0] == '"' then "" else [x[0]]) + WithoutQuotes(x[1..]);
      assert Bracket('"', []) == Some([]);
      hide Strip, Ends, Double, Tally, WithoutQuotes;
      TwoQuotes(x[0], rest);
      TallyAppend(twice + [x[0]], Double(x[1..]), false);
      TallyAppend(twice, [x[0]], false);
      TallyAppend([x[0]], x[1..], false);
      TallyOne(x[0], false);
      NoTally();
    }
  }

  lemma DoubleCons(x: string)
    requires x != ""
    ensures var twice := if x[0] == '"' || x[0] == '\\' then [x[0]] else "";
            && Double(x) == twice + [x[0]] + Double(x[1..])
            && Double(x) + "\"" == if twice != "" then [x[0]] + ([x[0]] + (Double(x[1..]) + "\"")) else [x[0]] + (Double(x[1..]) + "\"")
  {
    DoubleRegroup(x[0], Double(x[1..]));
  }

  lemma DoubleRegroup(c: char, e: string)
    ensures "" + [c] + e + "\"" == [c] + (e + "\"")
    ensures [c] + [c] + e + "\"" == [c] + ([c] + (e + "\""))
  {
    var q := e + "\"";
    assert [c] + e + "\"" == [c] + q;
    assert "" + [c] == [c];
    assert [c] + [c] + e + "\"" == [c] + [c] + q;
    assert [c] + [c] + q == [c] + ([c] + q);
  }

  lemma TwoQuotes(c: char, rest: string)
    requires forall open :: Balance(rest, Quoted, open) == Some(open)
    ensures var s := if c == '"' || c == '\\' then [c] + ([c] + rest) else [c] + rest;
            && Strip(s, Quoted) == (if c == '"' then "" else [c]) + Strip(rest, Quoted)
            && Ends(s, Quoted) == Ends(rest, Quoted)
            && forall open :: Balance(s, Quoted, open) == Some(open)
  {
    hide Strip, Ends, Balance;
    KeptCons(c, rest, Quoted);
    KeptCons(c, [c] + rest, Quoted);
    KeptCons(c, rest, Escaped);
    KeptCons(c, rest, Plain);
    if c == '"' {
      assert "" + ("" + Strip(rest, Quoted)) == "" + Strip(rest, Quoted);
      forall open ensures Balance([c] + rest, Plain, open) == Some(open) {
        assert ([c] + rest)[1..] == rest;
        BalanceCons([c] + rest, Plain, open);
      }
    } else {
      assert "" + ([c] + Strip(rest, Quoted)) == [c] + Strip(rest, Quoted);
    }
  }

  lemma RowPartScans(x: string)
    ensures var p := RowSentPart(Some(x));
            && Strip(p, Plain) == (if RowQuotes(x) then WithoutQuotes(x) else x) && Ends(p, Plain) == Plain
            && Tally(p, false) == Tally(x, false) && p != "" && p[|p| - 1] != '\\'
            && ('"' in p <==> RowQuotes(x)) && (x != "" || RowQuotes(x)) && (!RowQuotes(x) ==> '"' !in x)
            && Balance(p, Plain, []) == if RowQuotes(x) then Some([]) else Brackets(x, [])
  {
    if RowQuotes(x) {
      var rest := Double(x) + "\"";
      var p := "\"" + rest;
      DoubleStrips(x);
      assert p[0] == '"' && p[1..] == rest && ['"'] + rest == p;
      assert Bracket('"', []) == Some([]);
      hide Double, Strip, Ends, Balance, Tally, WithoutQuotes;
      StripHead(p, Plain);
      KeptCons('"', rest, Plain);
      BalanceCons(p, Plain, []);
      TallyAppend("\"", rest, false);
      TallyAppend(Double(x), "\"", false);
      TallyOne('"', false);
    } else {
      assert forall c | c in x :: c != '"' && c != '\\';
      Verbatim(x);
      BracketsAre(x, []);
      assert x[|x| - 1] in x;
    }
  }

  /** The fields that come back from the server: none NULL, none with a quote, the text
      NULL only behind a quoted field, and curly brackets in order in bare ones. */
  predicate SentReadable(fs: seq<Option<string>>, w: bool) {
    fs == [] || (
      && fs[0].Some?
      && var x := fs[0].value;
         && '"' !in x && (x == "NULL" ==> w)
         && (!RowQuotes(x) ==> Brackets(x, []).Some? && (|fs| > 1 ==> Brackets(x, []) == Some([])))
         && SentReadable(fs[1..], w || RowQuotes(x)))
  }

  lemma {:induction false} RowClean(n: nat, fs: seq<Option<string>>, w: bool)
    requires forall f | f in fs :: f.Some?
    ensures Clean(OfStruct(n), RowSentParts(fs), w) && Outs(OfStruct(n), RowSentParts(fs), w) == fs <==> SentReadable(fs, w)
    decreases |fs|
  {
    if fs != [] {
      var k, ps := OfStruct(n), RowSentParts(fs);
      var x := fs[0].value;
      var v := w || '"' in ps[0];
      assert fs[0] in fs && forall f | f in fs[1..] :: f in fs;
      assert ps[1..] == RowSentParts(fs[1..]) && ps[0] == RowSentPart(Some(x));
      RowPartScans(x);
      NoQuotesLost(x);
      RowClean(n, fs[1..], v);
      NullRowQuotes();
      hide Strip, Ends, Balance, Brackets, RowQuotes, RowSentPart, Tally, WithoutQuotes;
      assert Outs(k, ps, w) == [Element(Strip(ps[0], Plain), v)] + Outs(k, ps[1..], v);
      assert Outs(k, ps, w)[0] == Element(Strip(ps[0], Plain), v) && Outs(k, ps, w)[1..] == Outs(k, ps[1..], v);
      assert fs == [fs[0]] + fs[1..];
      hide RowSentParts, Outs;
    }
  }

  lemma NullRowQuotes()
    ensures !RowQuotes("NULL")
  {
    assert forall c | c in "NULL" :: c == 'N' || c == 'U' || c == 'L';
  }

  /** A NULL field leaves the literal too short for the text NULL it would be read from. */
  lemma NullTooShort(fs: seq<Option<string>>, i: nat)
    requires i < |fs| && fs[i].None?
    ensures Parse(OfStruct(|fs|), RowSent(fs)) != Ok(fs)
  {
    var k, ps := OfStruct(|fs|), RowSentParts(fs);
    NoTally();
    TallyNull();
    forall j | 0 <= j < |fs| ensures Tally(Sources(fs)[j], false) >= Tally(ps[j], false) {
      if fs[j].Some? {
        RowPartScans(fs[j].value);
      }
    }
    hide Parse, Tally, Sub, Literal, Join;
    assert Tally(Sources(fs)[i], false) != Tally(ps[i], false);
    LiteralsTally(k, Sources(fs), ps);
    LiteralIs(k, ps);
    if Parse(k, RowSent(fs)) == Ok(fs) {
      ParseKeeps(k, RowSent(fs), fs);
      SubTally(Literal(k, Sources(fs)), Literal(k, ps), false);
    }
  }

  lemma TallyNull()
    ensures Tally("NULL", false) == 4
  {
    assert "NULL"[1..] == "ULL" && "ULL"[1..] == "LL" && "LL"[1..] == "L" && "L"[1..] == "";
  }

  lemma {:induction false} ReadableHasNoNull(fs: seq<Option<string>>, w: bool)
    requires SentReadable(fs, w)
    ensures forall f | f in fs :: f.Some?
    decreases |fs|
  {
    if fs != [] {
      ReadableHasNoNull(fs[1..], w || RowQuotes(fs[0].value));
      assert fs == [fs[0]] + fs[1..];
    }
  }

  lemma RowPartsKeep(fs: seq<Option<string>>, i: nat)
    requires i < |fs| && fs[i].Some?
    ensures var p := RowSentParts(fs)[i];
            Tally(Source(fs[i]), false) == Tally(p, false) && p != "" && p[|p| - 1] != '\\'
  {
    RowPartScans(fs[i].value);
  }

  lemma FullRowRead(fs: seq<Option<string>>)
    requires forall f | f in fs :: f.Some?
    ensures Parse(OfStruct(|fs|), RowSent(fs)) == Ok(fs) <==> SentReadable(fs, false)
  {
    var k, ps := OfStruct(|fs|), RowSentParts(fs);
    hide Tally, Parse, SentReadable, RowSentParts;
    forall i | 0 <= i < |fs|
      ensures Tally(Source(fs[i]), false) == Tally(ps[i], false) && ps[i] != "" && ps[i][|ps[i]| - 1] != '\\'
    {
      assert fs[i] in fs;
      RowPartsKeep(fs, i);
    }
    LiteralParses(k, ps, fs);
    RowClean(|fs|, fs, false);
  }

  /** Main result on composites sent by the server. */
  lemma SentRowRead(fs: seq<Option<string>>)
    ensures Parse(OfStruct(|fs|), RowSent(fs)) == Ok(fs) <==> SentReadable(fs, false)
  {
    hide Parse, SentReadable, RowSent;
    if forall f | f in fs :: f.Some? {
      FullRowRead(fs);
    } else {
      var i :| 0 <= i < |fs| && fs[i].None?;
      assert fs[i] in fs;
      NullTooShort(fs, i);
      if SentReadable(fs, false) {
        ReadableHasNoNull(fs, false);
      }
    }
  }

  /** A quote in a field is lost. */
  lemma QuoteLost()
    ensures Parse(OfStruct(1), RowSent([Some("a\"b")])) != Ok([Some("a\"b")])
  {
    assert "a\"b"[1] == '"';
    SentRowRead([Some("a\"b")]);
  }
}
