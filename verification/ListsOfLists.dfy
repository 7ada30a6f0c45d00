/** The condition for nested values to come back, in plainer terms where it has them:
    outermost lists and composites, and lists directly inside lists, whose texts go
    without quotes. */
module ListsOfLists {
  import opened Wrappers
  import opened ArrayLiteral
  import opened NestedLiteral
  import opened Subtexts
  import opened TextPieces
  import opened NestedRoundTrip

  // ------------------------------------------------------------ with quotes in place

  /** Pieces each complete in themselves. */
  lemma {:induction false} CompleteClean(ps: seq<string>)
    requires forall i | 0 <= i < |ps| ::
               Balance(ps[i], Plain, []) == Some([]) && Ends(ps[i], Plain) == Plain && (Strip(ps[i], Plain) != "" || '"' in ps[i])
    ensures Clean(OfList, ps, false)
    decreases |ps|
  {
    hide Balance, Ends, Strip;
    if ps != [] {
      CompleteClean(ps[1..]);
    }
  }

  lemma {:induction false} ListOutsAt(ps: seq<string>, i: nat)
    requires i < |ps|
    ensures Outs(OfList, ps, false)[i] == Element(Strip(ps[i], Plain), '"' in ps[i])
    decreases |ps|
  {
    hide Strip;
    if i > 0 {
      ListOutsAt(ps[1..], i - 1);
      assert ps[1..][i - 1] == ps[i];
    }
  }

  /** Only the text NULL is written like NULL. */
  lemma NullSeen(n: nat, t: Shape, v: Tree)
    requires Fits(t, v) && !v.Nil?
    ensures Seen(n, t, v) == "NULL" <==> v == Text("NULL")
    ensures !v.Text? ==> Seen(n, t, v)[..1] == if v.Items? then "{" else "("
  {
    hide Join, Pieces;
    var x := Seen(n, t, v);
    assert v.Items? ==> x[0] == '{' && x[..1] == "{";
    assert v.Row? ==> x[0] == '(' && x[..1] == "(";
    assert "NULL"[0] == 'N';
  }

  /** An outermost list is kept exactly if none of its elements is the text NULL. */
  lemma QuotedListKept(e: Shape, vs: seq<Tree>)
    requires !e.ListOf? && forall x | x in vs :: Fits(e, x)
    ensures AllFit(Each(e, vs), vs)
    ensures Kept(OfList, Pieces(OfList, 0, Each(e, vs), vs), vs) <==> Text("NULL") !in vs
  {
    var ps := Pieces(OfList, 0, Each(e, vs), vs);
    hide Strip, Ends, Balance, Quote, Seen, Clean, Outs;
    forall i | 0 <= i < |vs|
      ensures Balance(ps[i], Plain, []) == Some([]) && Ends(ps[i], Plain) == Plain && (Strip(ps[i], Plain) != "" || '"' in ps[i])
      ensures Outs(OfList, ps, false)[i].None? <==> vs[i].Nil? || vs[i] == Text("NULL")
    {
      ListOutsAt(ps, i);
      NullAndEmpty();
      if vs[i].Nil? {
        Verbatim("NULL");
        UnquotedBalance("NULL");
      } else {
        QuoteStrips(Seen(0, e, vs[i]));
        NullSeen(0, e, vs[i]);
      }
    }
    CompleteClean(ps);
  }

  /** An outermost composite is kept exactly if its fields are readable. */
  lemma QuotedRowKept(ts: seq<Shape>, vs: seq<Tree>)
    requires AllFit(ts, vs)
    ensures Kept(OfStruct(|vs|), Pieces(OfStruct(|vs|), 0, ts, vs), vs) <==> FieldsReadable(WriteFields(ts, vs), false)
  {
    var fs := WriteFields(ts, vs);
    forall i | 0 <= i < |vs| ensures Pieces(OfStruct(|vs|), 0, ts, vs)[i] == StructParts(fs)[i] {
      if !vs[i].Nil? {
        WriteIsSeen(ts[i], vs[i]);
      }
    }
    assert Pieces(OfStruct(|vs|), 0, ts, vs) == StructParts(fs);
    FieldsKept(|vs|, fs, false);
  }

  lemma {:induction false} FieldsKept(n: nat, fs: seq<Option<string>>, w: bool)
    ensures Clean(OfStruct(n), StructParts(fs), w) && (forall i | 0 <= i < |fs| :: Outs(OfStruct(n), StructParts(fs), w)[i].None? <==> fs[i].None?)
            <==> FieldsReadable(fs, w)
    decreases |fs|
  {
    if fs != [] {
      var k, ps := OfStruct(n), StructParts(fs);
      var v := w || '"' in ps[0];
      hide Strip, Ends, Balance, Quote, FieldsReadable, NeedsQuotes;
      assert ps[1..] == StructParts(fs[1..]);
      NullAndEmpty();
      Verbatim("");
      if fs[0].Some? {
        QuoteStrips(fs[0].value);
      }
      FieldsKept(n, fs[1..], v);
      ReadableCons(fs, w);
      var a, b := Outs(k, ps, w), Outs(k, ps[1..], v);
      assert a == [Element(Strip(ps[0], Plain), v)] + b;
      assert forall i | 0 < i < |fs| :: a[i] == b[i - 1] && fs[i] == fs[1..][i - 1];
      assert (forall i | 0 <= i < |fs| :: a[i].None? <==> fs[i].None?) <==>
             (a[0].None? <==> fs[0].None?) && (forall i | 0 <= i < |fs| - 1 :: b[i].None? <==> fs[1..][i].None?) by {
        if (a[0].None? <==> fs[0].None?) && (forall i | 0 <= i < |fs| - 1 :: b[i].None? <==> fs[1..][i].None?) {
          forall i | 0 <= i < |fs| ensures a[i].None? <==> fs[i].None? {
            assert i > 0 ==> (b[i - 1].None? <==> fs[1..][i - 1].None?);
          }
        }
        if forall i | 0 <= i < |fs| :: a[i].None? <==> fs[i].None? {
          forall i | 0 <= i < |fs| - 1 ensures b[i].None? <==> fs[1..][i].None? {
            assert a[i + 1].None? <==> fs[i + 1].None?;
          }
        }
      }
    }
  }

  lemma {:induction false} JoinBalance(ps: seq<string>, open: seq<char>)
    requires open != [] && forall p | p in ps :: Balance(p, Plain, open) == Some(open) && Ends(p, Plain) == Plain
    ensures Balance(Join(ps), Plain, open) == Some(open) && Ends(Join(ps), Plain) == Plain
  {
    hide Ends;
    if |ps| == 0 {
      NothingStripped(Plain);
    } else if |ps| == 1 {
      assert ps[0] in ps;
    } else {
      var rest := Join(ps[1..]);
      assert ps[0] in ps && forall p | p in ps[1..] :: p in ps;
      JoinBalance(ps[1..], open);
      JoinMore(ps);
      KeptCons(',', rest, Plain);
      assert [','] + rest == "," + rest && ("," + rest)[1..] == rest;
      assert Balance("," + rest, Plain, open) == Balance(rest, Plain, open);
      hide Balance;
      BalanceAppend(ps[0], "," + rest, Plain, open);
      StripAppend(ps[0], "," + rest, Plain);
    }
  }

  lemma LiteralBalance(k: Kind, ps: seq<string>, open: seq<char>)
    requires var inner := open + Close(k); forall p | p in ps :: Balance(p, Plain, inner) == Some(inner) && Ends(p, Plain) == Plain
    ensures Balance(Literal(k, ps), Plain, open) == Some(open) && Ends(Literal(k, ps), Plain) == Plain
  {
    var c, inner := if k.OfList? then '{' else '(', open + Close(k);
    var rest := Join(ps) + Close(k);
    JoinBalance(ps, inner);
    CloseBalance(k, open);
    assert Literal(k, ps) == [c] + rest && ([c] + rest)[1..] == rest;
    assert Bracket(c, open) == Some(inner) && Next(c, Plain) == Plain;
    hide Balance, Ends, Join, Close, Literal, Bracket;
    BalanceAppend(Join(ps), Close(k), Plain, inner);
    StripAppend(Join(ps), Close(k), Plain);
    BalanceCons([c] + rest, Plain, open);
  }

  lemma CloseBalance(k: Kind, open: seq<char>)
    ensures Balance(Close(k), Plain, open + Close(k)) == Some(open) && Ends(Close(k), Plain) == Plain
  {
    var inner := open + Close(k);
    assert Close(k)[1..] == "" && inner[..|inner| - 1] == open;
  }

  /** The literal of a list is complete in itself: all its elements that need quotes have
      them, at whatever depth. */
  lemma {:induction false} SeenBalance(e: Shape, v: Tree, open: seq<char>)
    requires Fits(ListOf(e), v) && v.Items?
    ensures Balance(Seen(0, ListOf(e), v), Plain, open) == Some(open) && Ends(Seen(0, ListOf(e), v), Plain) == Plain
    decreases v
  {
    var vs, ps := v.items, Pieces(OfList, 0, Each(e, v.items), v.items);
    var inner := open + ['}'];
    forall i | 0 <= i < |vs| ensures Balance(ps[i], Plain, inner) == Some(inner) && Ends(ps[i], Plain) == Plain {
      if vs[i].Nil? {
        Verbatim("NULL");
        UnquotedBalance("NULL");
      } else if e.ListOf? {
        SeenBalance(e.elem, vs[i], inner);
      } else {
        QuoteStrips(Seen(0, e, vs[i]));
      }
    }
    assert Close(OfList) == ['}'];
    LiteralBalance(OfList, ps, open);
  }

  /** Lists directly in an outermost list are always kept. */
  lemma OutermostKept(e: Shape, vs: seq<Tree>)
    requires e.ListOf? && forall x | x in vs :: Fits(e, x)
    ensures AllFit(Each(e, vs), vs)
    ensures Kept(OfList, Pieces(OfList, 0, Each(e, vs), vs), vs)
  {
    var ps := Pieces(OfList, 0, Each(e, vs), vs);
    forall i | 0 <= i < |vs|
      ensures Balance(ps[i], Plain, []) == Some([]) && Ends(ps[i], Plain) == Plain && (Strip(ps[i], Plain) != "" || '"' in ps[i])
      ensures Outs(OfList, ps, false)[i].None? <==> vs[i].Nil?
    {
      hide Strip, Ends, Balance, Quote, Seen, Clean, Outs;
      ListOutsAt(ps, i);
      if vs[i].Nil? {
        Verbatim("NULL");
        UnquotedBalance("NULL");
      } else {
        SeenBalance(e.elem, vs[i], []);
        NullSeen(0, e, vs[i]);
        StartsWithBracket(ps[i]);
      }
    }
    hide Strip, Ends, Balance, Pieces, Outs;
    CompleteClean(ps);
  }

  lemma StartsWithBracket(p: string)
    requires p[..if p == "" then 0 else 1] == "{"
    ensures Strip(p, Plain) != "" && Strip(p, Plain)[0] == '{'
  {
  }

  // -------------------------------------------------------- lists directly in lists

  /** The texts of an inner list read back without quotes: none is empty or NULL, none
      has a quote, a comma outside brackets or a bracket out of place, and only the
      last may leave brackets open. */
  predicate ReadsBare(es: seq<Option<string>>) {
    forall i | 0 <= i < |es| && es[i].Some? ::
      && es[i].value != "" && es[i].value != "NULL"
      && Brackets(es[i].value, []).Some?
      && (i + 1 < |es| ==> Brackets(es[i].value, []) == Some([]))
  }

  lemma ReadsBareCons(es: seq<Option<string>>)
    requires es != []
    ensures ReadsBare(es) <==>
            && ReadsBare(es[1..])
            && (es[0].Some? ==> es[0].value != "" && es[0].value != "NULL" && Brackets(es[0].value, []).Some?
                                && (|es| > 1 ==> Brackets(es[0].value, []) == Some([])))
  {
    hide Brackets;
    assert forall i | 0 <= i < |es| - 1 :: es[1..][i] == es[i + 1];
    if ReadsBare(es) {
      forall i | 0 <= i < |es| - 1 && es[1..][i].Some?
        ensures es[1..][i].value != "" && es[1..][i].value != "NULL" && Brackets(es[1..][i].value, []).Some?
                && (i + 2 < |es| ==> Brackets(es[1..][i].value, []) == Some([]))
      {
        assert es[i + 1].Some?;
      }
    }
    if ReadsBare(es[1..]) {
      forall i | 0 < i < |es| && es[i].Some?
        ensures es[i].value != "" && es[i].value != "NULL" && Brackets(es[i].value, []).Some?
                && (i + 1 < |es| ==> Brackets(es[i].value, []) == Some([]))
      {
        assert es[1..][i - 1].Some?;
      }
    }
  }

  lemma {:induction false} BracketsAre(x: string, open: seq<char>)
    ensures '"' !in x ==> Balance(x, Plain, open) == Brackets(x, open)
    ensures '"' in x ==> Brackets(x, open).None?
    decreases |x|
  {
    if x != "" {
      var o := Bracket(x[0], open);
      if o.Some? {
        BracketsAre(x[1..], o.value);
      }
      if '"' in x && x[0] != '"' {
        assert '"' in x[1..];
      }
    }
  }

  lemma {:induction false} BareClean(es: seq<Option<string>>)
    ensures Clean(OfList, Sources(es), false) && Outs(OfList, Sources(es), false) == es <==> ReadsBare(es)
    decreases |es|
  {
    if es != [] {
      var ps := Sources(es);
      var x := ps[0];
      assert ps[1..] == Sources(es[1..]);
      BareClean(es[1..]);
      ReadsBareCons(es);
      BracketsAre(x, []);
      StripTally(x, Plain);
      if '"' in x {
        StripShrinks(x, Plain);
      } else {
        Verbatim(x);
      }
      NullUnquoted();
      hide Balance, Ends, Strip, Brackets, ReadsBare, Tally;
      assert es == [es[0]] + es[1..];
      assert Outs(OfList, ps, false) == [Element(Strip(x, Plain), '"' in x)] + Outs(OfList, ps[1..], false);
    }
  }

  lemma NullUnquoted()
    ensures '"' !in "NULL" && Brackets("NULL", []) == Some([])
  {
    UnquotedIsPlain("NULL", []);
  }

  /** A list written without quotes parses to its texts exactly if they read bare. */
  lemma BareParses(es: seq<Option<string>>)
    ensures Parse(OfList, ListText(es, true)) == Ok(es) <==> ReadsBare(es)
  {
    var ps := Sources(es);
    assert ListParts(es, true) == ps;
    hide Tally, Parse, ReadsBare;
    assert Accounted(ps, es);
    LiteralParses(OfList, ps, es);
    BareClean(es);
  }

  // --------------------------------------------------------------- lists of lists of texts

  function Texts(v: Tree): seq<Option<string>>
    requires Fits(ListOf(Leaf), v) && v.Items?
  {
    WriteAll(Leaf, v.items)
  }

  lemma BarePieces(v: Tree)
    requires Fits(ListOf(Leaf), v) && v.Items?
    ensures AllFit(Each(Leaf, v.items), v.items)
    ensures Pieces(OfList, 1, Each(Leaf, v.items), v.items) == Sources(Texts(v))
    ensures forall i | 0 <= i < |v.items| :: v.items[i] == if Texts(v)[i].None? then Nil else Text(Texts(v)[i].value)
  {
    forall i | 0 <= i < |v.items|
      ensures Pieces(OfList, 1, Each(Leaf, v.items), v.items)[i] == Sources(Texts(v))[i]
      ensures v.items[i] == if Texts(v)[i].None? then Nil else Text(Texts(v)[i].value)
    {
      assert v.items[i] in v.items;
      assert Fits(Leaf, v.items[i]);
      assert v.items[i].Nil? || v.items[i].Text?;
      assert Texts(v)[i] == Write(Leaf, v.items[i]);
    }
  }

  lemma BareKept(v: Tree)
    requires Fits(ListOf(Leaf), v) && v.Items?
    ensures AllFit(Each(Leaf, v.items), v.items)
    ensures Kept(OfList, Pieces(OfList, 1, Each(Leaf, v.items), v.items), v.items) && QuoteFree(v) <==> ReadsBare(Texts(v))
  {
    var vs, es := v.items, Texts(v);
    var ps := Sources(es);
    BarePieces(v);
    BareClean(es);
    hide Clean, Outs, ReadsBare, Strip, Pieces, Fits, Write;
    if ReadsBare(es) {
      forall x | x in vs ensures QuoteFree(x) {
        var i :| 0 <= i < |vs| && vs[i] == x;
        if es[i].Some? {
          BareHasNoQuote(es, i);
        }
      }
    }
    if Kept(OfList, ps, vs) && QuoteFree(v) {
      forall i | 0 <= i < |vs| ensures Outs(OfList, ps, false)[i] == es[i] {
        assert vs[i] in vs && QuoteFree(vs[i]);
        ListOutsAt(ps, i);
        NullUnquoted();
        Verbatim(ps[i]);
      }
      assert Outs(OfList, ps, false) == es;
    }
  }

  lemma BareHasNoQuote(es: seq<Option<string>>, i: nat)
    requires ReadsBare(es) && i < |es| && es[i].Some?
    ensures '"' !in es[i].value
  {
    BracketsAre(es[i].value, []);
  }

  /** The inner lists survive exactly if their texts read bare. */
  lemma BareSurvives(vs: seq<Tree>)
    requires forall x | x in vs :: Fits(ListOf(Leaf), x)
    ensures Survives(1, ListOf(Leaf), vs) <==> forall x | x in vs && x.Items? :: ReadsBare(Texts(x))
    ensures Survives(1, ListOf(Leaf), vs) ==> forall x | x in vs :: QuoteFree(x)
  {
    FlatFits(Leaf, vs);
    ItemsFit(Leaf, vs);
    hide Kept, Pieces, ReadsBare, Flat;
    forall x | x in vs && x.Items?
      ensures Kept(OfList, Pieces(OfList, 1, Each(Leaf, x.items), x.items), x.items) && QuoteFree(x) <==> ReadsBare(Texts(x))
    {
      BareKept(x);
    }
    if Survives(1, ListOf(Leaf), vs) {
      SurvivorsQuoteFree(1, ListOf(Leaf), vs);
    }
  }

  lemma FlatOne(v: Tree)
    requires v.Items?
    ensures Flat([v]) == v.items
  {
    assert ItemLists([v]) == [v.items] && [v.items][..0] == [];
    assert Concat([v.items]) == Concat([v.items][..0]) + v.items == [] + v.items;
  }

  /** The condition for a single list, and for a single composite. */
  lemma OneListSurvives(n: nat, e: Shape, v: Tree)
    requires Fits(ListOf(e), v) && v.Items?
    ensures (forall x | x in v.items :: Fits(e, x)) && AllFit(Each(e, v.items), v.items)
    ensures Survives(n, ListOf(e), [v]) <==>
            && Kept(OfList, Pieces(OfList, n, Each(e, v.items), v.items), v.items)
            && (Level(OfList, n, e) > 0 ==> QuoteFree(v))
            && Survives(Level(OfList, n, e), e, v.items)
  {
    FlatOne(v);
    FlatFits(e, [v]);
    ItemsFit(e, [v]);
    assert v in [v];
    hide Kept, Pieces, Flat, QuoteFree;
  }

  lemma OneRowSurvives(n: nat, ts: seq<Shape>, v: Tree)
    requires Fits(RowOf(ts), v) && v.Row?
    ensures AllFit(ts, v.fields)
    ensures Survives(n, RowOf(ts), [v]) <==>
            && Kept(OfStruct(|ts|), Pieces(OfStruct(|ts|), n, ts, v.fields), v.fields)
            && (n > 0 ==> QuoteFree(v))
            && forall c | 0 <= c < |ts| :: Survives(n, ts[c], [v.fields[c]])
  {
    FieldsFit(ts, [v]);
    assert v in [v] && NilsLast([v]);
    forall c | 0 <= c < |ts| ensures FieldColumn([v], c) == [v.fields[c]] {
    }
    hide Kept, Pieces, QuoteFree;
    forall c | 0 <= c < |ts| ensures (ColumnFits(ts, [v], c); Survives(n, ts[c], FieldColumn([v], c))) <==> Survives(n, ts[c], [v.fields[c]]) {
      ColumnFits(ts, [v], c);
    }
  }

  /** A single list of lists: the outermost literal needs no condition. */
  lemma OutermostSurvives(e: Shape, v: Tree)
    requires Fits(ListOf(ListOf(e)), v) && v.Items?
    ensures forall x | x in v.items :: Fits(ListOf(e), x)
    ensures Survives(0, ListOf(ListOf(e)), [v]) <==> QuoteFree(v) && Survives(1, ListOf(e), v.items)
  {
    OutermostKept(ListOf(e), v.items);
    hide Kept, Pieces, QuoteFree, Survives;
    OneListSurvives(0, ListOf(e), v);
  }

  /** A list of lists of texts comes back exactly if the texts of every inner list read
      back without their quotes. */
  lemma ListsOfListsRoundTrip(v: Tree)
    requires Fits(ListOf(ListOf(Leaf)), v) && v.Items?
    ensures var t := ListOf(ListOf(Leaf));
            Convert(t, [Write(t, v)]) == Ok([v]) <==> forall x | x in v.items && x.Items? :: ReadsBare(Texts(x))
  {
    var t := ListOf(ListOf(Leaf));
    assert WriteAll(t, [v]) == [Write(t, v)];
    TreesRoundTrip(t, [v]);
    OutermostSurvives(Leaf, v);
    BareSurvives(v.items);
    hide Survives, ReadsBare, Convert, Write;
  }

  // ------------------------------------------------------------------------- examples

  /** A list of lists that does not: the comma of its only text loses its quotes. */
  lemma CommaSplits()
    ensures var t, v := ListOf(ListOf(Leaf)), Items([Items([Text("x,y")])]);
            Fits(t, v) && Convert(t, [Write(t, v)]) != Ok([v])
  {
    var inner := Items([Text("x,y")]);
    var v := Items([inner]);
    assert inner in v.items && Texts(inner) == [Some("x,y")];
    assert Brackets("x,y", []) == Brackets(",y", []) == None;
    assert !ReadsBare(Texts(inner)) by {
      assert Texts(inner)[0].Some? && Brackets(Texts(inner)[0].value, []).None?;
    }
    ListsOfListsRoundTrip(v);
  }

  /** A composite in a list in a list that does: its comma is inside brackets. */
  lemma RowsInLists()
    ensures var t, v := ListOf(ListOf(RowOf([Leaf, Leaf]))), Items([Items([Row([Text("1"), Text("2")])])]);
            Fits(t, v) && Convert(t, [Write(t, v)]) == Ok([v])
  {
    var row, ts := Row([Text("1"), Text("2")]), [Leaf, Leaf];
    var inner := Items([row]);
    var t, v := ListOf(ListOf(RowOf(ts))), Items([inner]);
    assert row in inner.items && inner in v.items && Fits(RowOf(ts), row);
    assert WriteAll(t, [v]) == [Write(t, v)];
    TreesRoundTrip(t, [v]);
    OutermostSurvives(RowOf(ts), v);
    RowInListSurvives();
  }

  lemma RowInListSurvives()
    ensures var ts, row := [Leaf, Leaf], Row([Text("1"), Text("2")]);
            (forall x | x in [Items([row])] :: Fits(ListOf(RowOf(ts)), x)) && Survives(1, ListOf(RowOf(ts)), [Items([row])])
  {
    var ts, row := [Leaf, Leaf], Row([Text("1"), Text("2")]);
    var inner := Items([row]);
    assert row in inner.items && Fits(RowOf(ts), row) && Fits(ListOf(RowOf(ts)), inner);
    assert QuoteFree(row) && QuoteFree(inner);
    assert forall c | 0 <= c < 2 :: Survives(1, ts[c], [row.fields[c]]);
    RowPieces();
    RowKept();
    hide Kept, Pieces, Literal, Survives, QuoteFree;
    OneRowSurvives(1, ts, row);
    OneListSurvives(1, RowOf(ts), inner);
  }

  lemma RowPieces()
    ensures var ts, row := [Leaf, Leaf], Row([Text("1"), Text("2")]);
            && Fits(RowOf(ts), row) && AllFit(ts, row.fields)
            && Pieces(OfStruct(2), 1, ts, row.fields) == ["1", "2"]
            && Pieces(OfList, 1, Each(RowOf(ts), [row]), [row]) == [Literal(OfStruct(2), ["1", "2"])]
  {
    var ts, row := [Leaf, Leaf], Row([Text("1"), Text("2")]);
    assert Pieces(OfStruct(2), 1, ts, row.fields) == ["1", "2"];
    Digits();
    assert Pieces(OfStruct(2), 0, ts, row.fields) == ["1", "2"];
    assert Seen(0, RowOf(ts), row) == Literal(OfStruct(2), ["1", "2"]);
    hide Literal, Quote;
    assert Pieces(OfList, 1, Each(RowOf(ts), [row]), [row]) == [Literal(OfStruct(2), ["1", "2"])];
  }

  lemma Digits()
    ensures (forall c | c in "1" :: !IsSpecial(c)) && (forall c | c in "2" :: !IsSpecial(c))
    ensures Quote("1") == "1" && Quote("2") == "2"
  {
    assert forall c | c in "1" :: c == '1';
    assert forall c | c in "2" :: c == '2';
  }

  lemma RowKept()
    ensures Kept(OfList, [Literal(OfStruct(2), ["1", "2"])], [Row([Text("1"), Text("2")])])
    ensures Kept(OfStruct(2), ["1", "2"], [Text("1"), Text("2")])
  {
    var ps := ["1", "2"];
    var p := Literal(OfStruct(2), ps);
    Digits();
    UnquotedBalance("1");
    UnquotedBalance("2");
    Verbatim("1");
    Verbatim("2");
    LiteralBalance(OfStruct(2), ps, []);
    StripLiteral(OfStruct(2), ps, ps);
    assert p[0] == '(';
    CompleteClean([p]);
    ListOutsAt([p], 0);
    assert ps[1..] == ["2"] && ["2"][1..] == [];
    hide Balance, Ends, Strip, Literal;
    assert Outs(OfStruct(2), ["2"], false) == [Some("2")];
    assert Outs(OfStruct(2), ps, false) == [Some("1"), Some("2")];
    assert Clean(OfStruct(2), [], false) && Clean(OfStruct(2), ["2"], false);
  }

  /** A NULL composite in front of another in the same list: the second is written to
      the row of the first, and its own row is never written. */
  lemma NullRowShifts()
    ensures var t, v := ListOf(RowOf([Leaf])), Items([Nil, Row([Text("a")])]);
            Fits(t, v) && Convert(t, [Write(t, v)]) != Ok([v])
  {
    var t, v := ListOf(RowOf([Leaf])), Items([Nil, Row([Text("a")])]);
    ShiftFits();
    FlatOne(v);
    assert WriteAll(t, [v]) == [Write(t, v)];
    hide *;
    NilsGoLast([Leaf], [v], 0);
  }

  /** The same across the lists of a vector, whose elements are one vector. */
  lemma NullRowShiftsLists()
    ensures var t, v, w := ListOf(RowOf([Leaf])), Items([Nil]), Items([Row([Text("a")])]);
            Fits(t, v) && Fits(t, w) && Convert(t, [Write(t, v), Write(t, w)]) != Ok([v, w])
  {
    var t, v, w := ListOf(RowOf([Leaf])), Items([Nil]), Items([Row([Text("a")])]);
    ShiftFits();
    FlatTwo(v, w);
    assert v.items + w.items == [Nil, Row([Text("a")])];
    assert WriteAll(t, [v, w]) == [Write(t, v), Write(t, w)];
    hide *;
    NilsGoLast([Leaf], [v, w], 0);
  }

  lemma ShiftFits()
    ensures var t, row := ListOf(RowOf([Leaf])), Row([Text("a")]);
            Fits(t, Items([Nil, row])) && Fits(t, Items([Nil])) && Fits(t, Items([row]))
  {
    assert Fits(RowOf([Leaf]), Row([Text("a")]));
  }

  lemma FlatTwo(v: Tree, w: Tree)
    requires v.Items? && w.Items?
    ensures Flat([v, w]) == v.items + w.items
  {
    FlatOne(v);
    assert ItemLists([v, w]) == ItemLists([v]) + [w.items];
    ConcatStep(ItemLists([v]), w.items);
  }

  /** No vector of lists comes back with a NULL in front of a composite among all its
      elements. */
  lemma NilsGoLast(ts: seq<Shape>, vs: seq<Tree>, i: nat)
    requires ts != [] && (forall v | v in vs :: Fits(ListOf(RowOf(ts)), v)) && i + 1 < |Flat(vs)|
    ensures Flat(vs)[i].Nil? && !Flat(vs)[i + 1].Nil? ==> Convert(ListOf(RowOf(ts)), WriteAll(ListOf(RowOf(ts)), vs)) != Ok(vs)
  {
    hide Convert, Write, Kept, Pieces, Flat;
    TreesRoundTrip(ListOf(RowOf(ts)), vs);
    FlatFits(RowOf(ts), vs);
  }

  /** In the column of a chunk, likewise, nothing is defined. */
  lemma NullRowUnwritten()
    ensures Convert(RowOf([Leaf]), [None, Write(RowOf([Leaf]), Row([Text("a")]))]) == Err(Unmodelled)
  {
    var es: seq<Option<string>> := [None, Some(StructText([Some("a")]))];
    assert WriteFields([Leaf], [Text("a")]) == [Some("a")];
    assert FieldsReadable([Some("a")], false);
    StructRoundTrip([Some("a")]);
    ParseEachAt(OfStruct(1), es);
    assert es[0].None? && es[1].Some?;
    hide Parse, StructText, Convert, ParseEach;
    NullsInFront([Leaf], es);
  }
}
