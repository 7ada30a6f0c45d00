/** Which vectors of nested values come back from their text. Each list written directly
    into a list goes without quotes of its own, so its parser meets texts from which the
    parsers outside have already taken the quotes off; the condition says what must hold
    of those. */
module NestedRoundTrip {
  import opened Wrappers
  import opened ArrayLiteral
  import opened NestedLiteral
  import opened Subtexts
  import opened TextPieces

  // ---------------------------------------------------------- texts without their quotes

  /** The text of a value as a parser meets it once n levels of quotes are off. */
  function Seen(n: nat, t: Shape, v: Tree): string
    requires Fits(t, v) && !v.Nil?
    decreases v, 0
  {
    match v
    case Text(s) => s
    case Items(vs) => Literal(OfList, Pieces(OfList, n, Each(t.elem, vs), vs))
    case Row(vs) => Literal(OfStruct(|vs|), Pieces(OfStruct(|vs|), n, t.columns, vs))
  }

  function Each(t: Shape, vs: seq<Tree>): (ts: seq<Shape>)
    ensures |ts| == |vs| && forall i | 0 <= i < |vs| :: ts[i] == t
  {
    seq(|vs|, i requires 0 <= i < |vs| => t)
  }

  /** Values of these shapes, side by side. */
  predicate AllFit(ts: seq<Shape>, vs: seq<Tree>) {
    |ts| == |vs| && forall i | 0 <= i < |vs| :: Fits(ts[i], vs[i])
  }

  /** What stands between the commas. Only a list in a list has no quotes of its own. */
  function Pieces(k: Kind, n: nat, ts: seq<Shape>, vs: seq<Tree>): (ps: seq<string>)
    requires AllFit(ts, vs)
    ensures |ps| == |vs|
    decreases vs, 1
  {
    seq(|vs|, i requires 0 <= i < |vs| =>
      if vs[i].Nil? then (if k.OfList? then "NULL" else "")
      else if k.OfList? && ts[i].ListOf? then Seen(n, ts[i], vs[i])
      else if n == 0 then Quote(Seen(0, ts[i], vs[i]))
      else Seen(n - 1, ts[i], vs[i]))
  }

  /** How many levels of quotes an element has lost when its own parser meets it. */
  function Level(k: Kind, n: nat, t: Shape): nat {
    if k.OfList? && t.ListOf? then n + 1 else n
  }

  /** No text of the value has a quote. */
  predicate QuoteFree(v: Tree) {
    match v
    case Nil => true
    case Text(s) => '"' !in s
    case Items(vs) => forall x | x in vs :: QuoteFree(x)
    case Row(vs) => forall x | x in vs :: QuoteFree(x)
  }

  /** The pieces of a literal are read as one element each, NULL where the value is. */
  predicate Kept(k: Kind, ps: seq<string>, vs: seq<Tree>)
    requires |ps| == |vs|
  {
    Clean(k, ps, false) && forall i | 0 <= i < |vs| :: Outs(k, ps, false)[i].None? <==> vs[i].Nil?
  }

  predicate NilsLast(vs: seq<Tree>) {
    forall i, j | 0 <= i < j < |vs| && vs[i].Nil? :: vs[j].Nil?
  }

  /** The exact condition for the values of a vector to come back, from texts that have
      lost n levels of quotes: every literal is read as its pieces, no NULL composite is
      in front of another in the same vector, and texts that end up without quotes have
      none of their own. */
  predicate Survives(n: nat, t: Shape, vs: seq<Tree>)
    requires forall v | v in vs :: Fits(t, v)
    decreases t
  {
    match t
    case Leaf => true
    case ListOf(e) =>
      FlatFits(e, vs);
      ItemsFit(e, vs);
      && (forall v | v in vs && v.Items? ::
            && Kept(OfList, Pieces(OfList, n, Each(e, v.items), v.items), v.items)
            && (Level(OfList, n, e) > 0 ==> QuoteFree(v)))
      && Survives(Level(OfList, n, e), e, Flat(vs))
    case RowOf(ts) =>
      FieldsFit(ts, vs);
      && (ts != [] ==> NilsLast(vs))
      && (forall v | v in vs && v.Row? ::
            && Kept(OfStruct(|ts|), Pieces(OfStruct(|ts|), n, ts, v.fields), v.fields)
            && (n > 0 ==> QuoteFree(v)))
      && forall c | 0 <= c < |ts| :: (ColumnFits(ts, vs, c); Survives(n, ts[c], FieldColumn(vs, c)))
  }

  lemma ItemsFit(e: Shape, vs: seq<Tree>)
    requires forall v | v in vs :: Fits(ListOf(e), v)
    ensures forall v | v in vs && v.Items? :: AllFit(Each(e, v.items), v.items)
  {
  }

  lemma {:induction false} FlatFits(e: Shape, vs: seq<Tree>)
    requires forall v | v in vs :: Fits(ListOf(e), v)
    ensures forall x | x in Flat(vs) :: Fits(e, x)
    decreases |vs|
  {
    if vs != [] {
      var n := |vs| - 1;
      assert ItemLists(vs)[..n] == ItemLists(vs[..n]);
      FlatFits(e, vs[..n]);
      assert vs[n] in vs;
    }
  }

  lemma FieldsFit(ts: seq<Shape>, vs: seq<Tree>)
    requires forall v | v in vs :: Fits(RowOf(ts), v)
    ensures forall v | v in vs && v.Row? :: |v.fields| == |ts| && AllFit(ts, v.fields)
  {
  }

  lemma ColumnFits(ts: seq<Shape>, vs: seq<Tree>, c: nat)
    requires c < |ts| && forall v | v in vs :: Fits(RowOf(ts), v)
    ensures forall v | v in vs && v.Row? :: c < |v.fields|
    ensures forall x | x in FieldColumn(vs, c) :: Fits(ts[c], x)
  {
    FieldsFit(ts, vs);
    forall i | 0 <= i < |vs| ensures Fits(ts[c], FieldColumn(vs, c)[i]) {
      assert vs[i] in vs;
    }
  }

  // ------------------------------------------------------------------- joined pieces

  lemma {:induction false} StripJoin(ps: seq<string>, qs: seq<string>)
    requires |ps| == |qs| && forall i | 0 <= i < |ps| :: Strip(ps[i], Plain) == qs[i] && Ends(ps[i], Plain) == Plain
    ensures Strip(Join(ps), Plain) == Join(qs) && Ends(Join(ps), Plain) == Plain
    decreases |ps|
  {
    hide Strip, Ends;
    if |ps| == 0 {
      assert Strip("", Plain) == "" && Ends("", Plain) == Plain by {
        NothingStripped(Plain);
      }
    } else if |ps| > 1 {
      StripJoin(ps[1..], qs[1..]);
      JoinMore(ps);
      JoinMore(qs);
      KeptCons(',', Join(ps[1..]), Plain);
      assert [','] + Join(ps[1..]) == "," + Join(ps[1..]);
      StripAppend(ps[0], "," + Join(ps[1..]), Plain);
    }
  }

  lemma NothingStripped(m: Mode)
    ensures Strip("", m) == "" && Ends("", m) == m
  {
  }

  lemma StripLiteral(k: Kind, ps: seq<string>, qs: seq<string>)
    requires |ps| == |qs| && forall i | 0 <= i < |ps| :: Strip(ps[i], Plain) == qs[i] && Ends(ps[i], Plain) == Plain
    ensures Strip(Literal(k, ps), Plain) == Literal(k, qs) && Ends(Literal(k, ps), Plain) == Plain
  {
    StripJoin(ps, qs);
    hide Strip, Ends, Join;
    var c, d := if k.OfList? then '{' else '(', if k.OfList? then '}' else ')';
    KeptCons(c, Join(ps) + [d], Plain);
    StripAppend(Join(ps), [d], Plain);
    KeptCons(d, "", Plain);
    NothingStripped(Plain);
    assert [d] + "" == [d] && Close(k) == [d];
    assert Literal(k, ps) == [c] + (Join(ps) + [d]) && Literal(k, qs) == [c] + (Join(qs) + [d]);
  }

  /** The pieces as a scan that starts in some mode leaves them, and where each starts. */
  function StripParts(ps: seq<string>, m: Mode): (zs: seq<string>)
    ensures |zs| == |ps|
  {
    if ps == [] then [] else [Strip(ps[0], m)] + StripParts(ps[1..], Next(',', Ends(ps[0], m)))
  }

  lemma {:induction false} StripPartsAt(ps: seq<string>, m: Mode, i: nat) returns (q: Mode)
    requires i < |ps| && !m.Escaped?
    ensures !q.Escaped? && StripParts(ps, m)[i] == Strip(ps[i], q)
    decreases i
  {
    hide Strip, Ends;
    if i == 0 {
      q := m;
    } else {
      q := StripPartsAt(ps[1..], Next(',', Ends(ps[0], m)), i - 1);
      assert ps[1..][i - 1] == ps[i];
    }
  }

  lemma {:induction false} StripPartsJoin(ps: seq<string>, m: Mode)
    ensures Strip(Join(ps), m) == Join(StripParts(ps, m))
    decreases |ps|
  {
    hide Strip, Ends;
    if |ps| == 0 {
      NothingStripped(m);
    } else if |ps| == 1 {
      assert StripParts(ps[1..], Next(',', Ends(ps[0], m))) == [];
    } else {
      var q := Ends(ps[0], m);
      StripPartsJoin(ps[1..], Next(',', q));
      JoinMore(ps);
      JoinMore(StripParts(ps, m));
      assert StripParts(ps, m)[1..] == StripParts(ps[1..], Next(',', q));
      KeptCons(',', Join(ps[1..]), q);
      assert [','] + Join(ps[1..]) == "," + Join(ps[1..]);
      StripAppend(ps[0], "," + Join(ps[1..]), m);
    }
  }

  lemma StripPartsLiteral(k: Kind, ps: seq<string>, m: Mode)
    requires !m.Escaped?
    ensures Strip(Literal(k, ps), m) == Literal(k, StripParts(ps, m))
  {
    StripPartsJoin(ps, m);
    hide Strip, Ends, Join, StripParts;
    var c, d := if k.OfList? then '{' else '(', if k.OfList? then '}' else ')';
    KeptCons(c, Join(ps) + [d], m);
    StripAppend(Join(ps), [d], m);
    KeptCons(d, "", Ends(Join(ps), m));
    NothingStripped(Next(d, Ends(Join(ps), m)));
    assert [d] + "" == [d] && Close(k) == [d];
    assert Literal(k, ps) == [c] + (Join(ps) + [d]) && Literal(k, StripParts(ps, m)) == [c] + (Join(StripParts(ps, m)) + [d]);
  }

  // --------------------------------------------------------------- pieces compared

  lemma {:induction false} SubJoin(a: seq<string>, b: seq<string>)
    requires |a| == |b| && forall i | 0 <= i < |a| :: Sub(a[i], b[i])
    ensures Sub(Join(a), Join(b))
    decreases |a|
  {
    hide Sub;
    if |a| == 0 {
      SubNothing("");
    } else if |a| > 1 {
      SubJoin(a[1..], b[1..]);
      JoinMore(a);
      JoinMore(b);
      SubSame(",");
      SubConcat(",", ",", Join(a[1..]), Join(b[1..]));
      SubConcat(a[0], b[0], "," + Join(a[1..]), "," + Join(b[1..]));
    }
  }

  lemma SubLiteral(k: Kind, a: seq<string>, b: seq<string>)
    requires |a| == |b| && forall i | 0 <= i < |a| :: Sub(a[i], b[i])
    ensures Sub(Literal(k, a), Literal(k, b))
  {
    SubJoin(a, b);
    hide Sub, Join;
    var open := if k.OfList? then "{" else "(";
    SubSame(open);
    SubSame(Close(k));
    SubConcat(open, open, Join(a), Join(b));
    SubConcat(open + Join(a), open + Join(b), Close(k), Close(k));
  }

  lemma LiteralTally(k: Kind, a: seq<string>)
    ensures Tally(Literal(k, a), false) == 1 + Tally(Join(a), false)
  {
    hide Join, Tally;
    var open, close := if k.OfList? then "{" else "(", Close(k);
    TallyAppend(open + Join(a), close, false);
    TallyAppend(open, Join(a), false);
    TallyOne(open[0], false);
    TallyOne(close[0], false);
    assert [open[0]] == open && [close[0]] == close;
  }

  lemma JoinTally(a: seq<string>)
    requires |a| > 1
    ensures Tally(Join(a), false) == Tally(a[0], false) + 1 + Tally(Join(a[1..]), false)
  {
    JoinMore(a);
    hide Join, Tally;
    TallyAppend(a[0], "," + Join(a[1..]), false);
    TallyAppend(",", Join(a[1..]), false);
    TallyOne(',', false);
  }

  /** Pieces that have at least the characters of others each, and together no more, have
      the same. */
  lemma {:induction false} TallyParts(a: seq<string>, b: seq<string>)
    requires |a| == |b| && forall i | 0 <= i < |a| :: Tally(a[i], false) >= Tally(b[i], false)
    ensures Tally(Join(a), false) >= Tally(Join(b), false)
    ensures Tally(Join(a), false) <= Tally(Join(b), false) ==> forall i | 0 <= i < |a| :: Tally(a[i], false) == Tally(b[i], false)
    decreases |a|
  {
    hide Tally;
    if |a| > 1 {
      TallyParts(a[1..], b[1..]);
      JoinTally(a);
      JoinTally(b);
      assert forall i | 0 < i < |a| :: a[i] == a[1..][i - 1] && b[i] == b[1..][i - 1];
    }
  }

  /** One literal in order within another, piece for piece. */
  lemma SubParts(k: Kind, a: seq<string>, b: seq<string>)
    requires |a| == |b| && Sub(Literal(k, a), Literal(k, b))
    requires forall i | 0 <= i < |a| :: Tally(a[i], false) == Tally(b[i], false)
    ensures forall i | 0 <= i < |a| :: Sub(a[i], b[i])
  {
    var open, close := if k.OfList? then '{' else '(', if k.OfList? then '}' else ')';
    TallyParts(a, b);
    TallyParts(b, a);
    hide Sub, Join, Tally;
    assert Literal(k, a) == [open] + Join(a) + [close] && Literal(k, b) == [open] + Join(b) + [close];
    SubLast([open] + Join(a), [open] + Join(b), close);
    SubHead(open, Join(a), Join(b));
    SubJoinParts(a, b);
  }

  lemma {:induction false} SubJoinParts(a: seq<string>, b: seq<string>)
    requires |a| == |b| && Sub(Join(a), Join(b))
    requires forall i | 0 <= i < |a| :: Tally(a[i], false) == Tally(b[i], false)
    ensures forall i | 0 <= i < |a| :: Sub(a[i], b[i])
    decreases |a|
  {
    hide Sub, Tally;
    if |a| > 1 {
      JoinMore(a);
      JoinMore(b);
      TallyParts(a[1..], b[1..]);
      TallyParts(b[1..], a[1..]);
      assert a[0] + ("," + Join(a[1..])) == a[0] + "," + Join(a[1..]);
      assert b[0] + ("," + Join(b[1..])) == b[0] + "," + Join(b[1..]);
      SubSplit(a[0], Join(a[1..]), b[0], Join(b[1..]));
      SubJoinParts(a[1..], b[1..]);
      assert forall i | 0 < i < |a| :: a[i] == a[1..][i - 1] && b[i] == b[1..][i - 1];
    }
  }

  // --------------------------------------------------------------- one more level off

  /** The texts that stand in Seen(n, t, v) without quotes have none of their own. */
  predicate RawFree(n: nat, t: Shape, v: Tree)
    requires Fits(t, v)
    decreases v, 0
  {
    match v
    case Nil => true
    case Text(s) => '"' !in s
    case Items(vs) => PiecesRawFree(OfList, n, Each(t.elem, vs), vs)
    case Row(vs) => PiecesRawFree(OfStruct(|vs|), n, t.columns, vs)
  }

  predicate PiecesRawFree(k: Kind, n: nat, ts: seq<Shape>, vs: seq<Tree>)
    requires AllFit(ts, vs)
    decreases vs, 1
  {
    forall i | 0 <= i < |vs| ::
      if k.OfList? && ts[i].ListOf? then RawFree(n, ts[i], vs[i]) else n > 0 ==> RawFree(n - 1, ts[i], vs[i])
  }

  lemma {:induction false} QuoteFreeIsRawFree(n: nat, t: Shape, v: Tree)
    requires Fits(t, v) && QuoteFree(v)
    ensures RawFree(n, t, v)
    decreases v
  {
    if v.Items? {
      forall i | 0 <= i < |v.items| ensures RawFree(n, t.elem, v.items[i]) && (n > 0 ==> RawFree(n - 1, t.elem, v.items[i])) {
        assert v.items[i] in v.items;
        QuoteFreeIsRawFree(n, t.elem, v.items[i]);
        if n > 0 {
          QuoteFreeIsRawFree(n - 1, t.elem, v.items[i]);
        }
      }
    } else if v.Row? {
      forall i | 0 <= i < |v.fields| ensures n > 0 ==> RawFree(n - 1, t.columns[i], v.fields[i]) {
        if n > 0 {
          assert v.fields[i] in v.fields;
          QuoteFreeIsRawFree(n - 1, t.columns[i], v.fields[i]);
        }
      }
    }
  }

  /** Scanned, a piece becomes the text its own parser meets. */
  lemma {:induction false} PieceStrips(k: Kind, n: nat, ts: seq<Shape>, vs: seq<Tree>, i: nat)
    requires AllFit(ts, vs) && i < |vs|
    requires if k.OfList? && ts[i].ListOf? then RawFree(n, ts[i], vs[i]) else n > 0 ==> RawFree(n - 1, ts[i], vs[i])
    ensures var p := Pieces(k, n, ts, vs)[i];
            Ends(p, Plain) == Plain && Strip(p, Plain) == if vs[i].Nil? then p else Seen(Level(k, n, ts[i]), ts[i], vs[i])
    decreases vs, 1
  {
    hide Strip, Ends, RawFree;
    if vs[i].Nil? {
      Verbatim("NULL");
      Verbatim("");
    } else if k.OfList? && ts[i].ListOf? {
      SeenStrips(n, ts[i], vs[i]);
    } else if n == 0 {
      QuoteStrips(Seen(0, ts[i], vs[i]));
    } else {
      SeenStrips(n - 1, ts[i], vs[i]);
    }
  }

  lemma {:induction false} SeenStrips(n: nat, t: Shape, v: Tree)
    requires Fits(t, v) && !v.Nil? && RawFree(n, t, v)
    ensures Strip(Seen(n, t, v), Plain) == Seen(n + 1, t, v) && Ends(Seen(n, t, v), Plain) == Plain
    decreases v, 0
  {
    match v
    case Text(s) => Verbatim(s);
    case Items(vs) => PiecesStrip(OfList, n, Each(t.elem, vs), vs);
    case Row(vs) => PiecesStrip(OfStruct(|vs|), n, t.columns, vs);
  }

  lemma {:induction false} PiecesStrip(k: Kind, n: nat, ts: seq<Shape>, vs: seq<Tree>)
    requires AllFit(ts, vs) && PiecesRawFree(k, n, ts, vs)
    ensures Strip(Literal(k, Pieces(k, n, ts, vs)), Plain) == Literal(k, Pieces(k, n + 1, ts, vs))
    ensures Ends(Literal(k, Pieces(k, n, ts, vs)), Plain) == Plain
    decreases vs, 2
  {
    var ps, qs := Pieces(k, n, ts, vs), Pieces(k, n + 1, ts, vs);
    hide Strip, Ends, RawFree, Literal, Quote, Seen;
    forall i | 0 <= i < |vs| ensures Strip(ps[i], Plain) == qs[i] && Ends(ps[i], Plain) == Plain {
      PieceStrips(k, n, ts, vs, i);
    }
    StripLiteral(k, ps, qs);
  }

  // ----------------------------------------------------------- what a value needs at least

  /** The text of a value without any quotes. */
  function Bare(v: Tree): string
    decreases v, 0
  {
    match v
    case Nil => "NULL"
    case Text(s) => s
    case Items(vs) => Literal(OfList, Bares(vs))
    case Row(vs) => Literal(OfStruct(|vs|), Bares(vs))
  }

  function Bares(vs: seq<Tree>): (r: seq<string>)
    ensures |r| == |vs|
    decreases vs, 1
  {
    seq(|vs|, i requires 0 <= i < |vs| => Bare(vs[i]))
  }

  lemma {:induction false} SeenTally(n: nat, t: Shape, v: Tree)
    requires Fits(t, v) && !v.Nil?
    ensures Tally(Seen(n, t, v), false) <= Tally(Bare(v), false)
    decreases v, 0
  {
    match v
    case Text(s) =>
    case Items(vs) =>
      hide Tally;
      PiecesTally(OfList, n, Each(t.elem, vs), vs);
      LiteralsTally(OfList, Bares(vs), Pieces(OfList, n, Each(t.elem, vs), vs));
    case Row(vs) =>
      hide Tally;
      PiecesTally(OfStruct(|vs|), n, t.columns, vs);
      LiteralsTally(OfStruct(|vs|), Bares(vs), Pieces(OfStruct(|vs|), n, t.columns, vs));
  }

  lemma {:induction false} PiecesTally(k: Kind, n: nat, ts: seq<Shape>, vs: seq<Tree>)
    requires AllFit(ts, vs)
    ensures forall i | 0 <= i < |vs| :: Tally(Pieces(k, n, ts, vs)[i], false) <= Tally(Bares(vs)[i], false)
    decreases vs, 1
  {
    hide Tally, Quote;
    NoTally();
    forall i | 0 <= i < |vs| ensures Tally(Pieces(k, n, ts, vs)[i], false) <= Tally(Bares(vs)[i], false) {
      if !vs[i].Nil? {
        SeenTally(n, ts[i], vs[i]);
        if n == 0 {
          QuoteStrips(Seen(0, ts[i], vs[i]));
        } else {
          SeenTally(n - 1, ts[i], vs[i]);
        }
      }
    }
  }

  lemma LiteralsTally(k: Kind, a: seq<string>, b: seq<string>)
    requires |a| == |b| && forall i | 0 <= i < |a| :: Tally(a[i], false) >= Tally(b[i], false)
    ensures Tally(Literal(k, a), false) >= Tally(Literal(k, b), false)
    ensures Tally(Literal(k, a), false) <= Tally(Literal(k, b), false) ==> forall i | 0 <= i < |a| :: Tally(a[i], false) == Tally(b[i], false)
  {
    hide Tally, Join;
    TallyParts(a, b);
    LiteralTally(k, a);
    LiteralTally(k, b);
  }

  /** If nothing of a value is missing after a scan, no quote was its own. */
  lemma {:induction false} NothingMissing(n: nat, t: Shape, v: Tree, m: Mode)
    requires Fits(t, v) && !v.Nil? && !m.Escaped?
    requires Sub(Bare(v), Strip(Seen(n, t, v), m)) && Tally(Bare(v), false) == Tally(Seen(n, t, v), false)
    ensures RawFree(n, t, v)
    decreases v, 0
  {
    match v
    case Text(s) =>
      SubTally(s, Strip(s, m), true);
      if '"' in s {
        StripShrinks(s, m);
      }
    case Items(vs) => PiecesMissNothing(OfList, n, Each(t.elem, vs), vs, m);
    case Row(vs) => PiecesMissNothing(OfStruct(|vs|), n, t.columns, vs, m);
  }

  lemma {:induction false} PiecesMissNothing(k: Kind, n: nat, ts: seq<Shape>, vs: seq<Tree>, m: Mode)
    requires AllFit(ts, vs) && !m.Escaped?
    requires var s := Literal(k, Pieces(k, n, ts, vs));
             Sub(Literal(k, Bares(vs)), Strip(s, m)) && Tally(Literal(k, Bares(vs)), false) == Tally(s, false)
    ensures PiecesRawFree(k, n, ts, vs)
    decreases vs, 1
  {
    var ps, bs := Pieces(k, n, ts, vs), Bares(vs);
    var zs := StripParts(ps, m);
    hide Tally, Strip, Literal, Sub, StripParts, Quote, RawFree;
    StripPartsLiteral(k, ps, m);
    PiecesTally(k, n, ts, vs);
    LiteralsTally(k, bs, ps);
    forall i | 0 <= i < |vs| ensures Tally(bs[i], false) == Tally(zs[i], false) {
      var q := StripPartsAt(ps, m, i);
      StripTally(ps[i], q);
    }
    SubParts(k, bs, zs);
    forall i | 0 <= i < |vs|
      ensures if k.OfList? && ts[i].ListOf? then RawFree(n, ts[i], vs[i]) else n > 0 ==> RawFree(n - 1, ts[i], vs[i])
    {
      if vs[i].Nil? {
        NilIsRawFree(n, ts[i]);
        if n > 0 {
          NilIsRawFree(n - 1, ts[i]);
        }
      } else if (k.OfList? && ts[i].ListOf?) || n > 0 {
        var q := StripPartsAt(ps, m, i);
        NothingMissing(if k.OfList? && ts[i].ListOf? then n else n - 1, ts[i], vs[i], q);
      }
    }
  }

  lemma NilIsRawFree(n: nat, t: Shape)
    ensures RawFree(n, t, Nil)
  {
  }

  // ----------------------------------------------------------------- one literal

  /** The texts the elements' own parsers meet. */
  function Inner(k: Kind, n: nat, ts: seq<Shape>, vs: seq<Tree>): (r: seq<Option<string>>)
    requires AllFit(ts, vs)
    ensures |r| == |vs|
  {
    seq(|vs|, i requires 0 <= i < |vs| => if vs[i].Nil? then None else Some(Seen(Level(k, n, ts[i]), ts[i], vs[i])))
  }

  lemma {:induction false} OutsAt(k: Kind, ps: seq<string>, w: bool, i: nat) returns (v: bool)
    requires i < |ps|
    ensures Outs(k, ps, w)[i] == Element(Strip(ps[i], Plain), v)
    decreases i
  {
    hide Strip;
    v := w || '"' in ps[0];
    if i > 0 {
      v := OutsAt(k, ps[1..], k.OfStruct? && v, i - 1);
      assert ps[1..][i - 1] == ps[i];
    }
  }

  /** Sufficiency for one literal. */
  lemma LiteralReads(k: Kind, n: nat, ts: seq<Shape>, vs: seq<Tree>)
    requires AllFit(ts, vs) && (k.OfStruct? ==> k.columns == |vs|) && PiecesRawFree(k, n, ts, vs)
    requires Kept(k, Pieces(k, n, ts, vs), vs)
    ensures Parse(k, Literal(k, Pieces(k, n, ts, vs))) == Ok(Inner(k, n, ts, vs))
  {
    var ps, inner := Pieces(k, n, ts, vs), Inner(k, n, ts, vs);
    hide Strip, Ends, RawFree, Literal, Quote, Seen, Parse, Clean, Outs, Pieces;
    CleanParses(k, ps);
    forall i | 0 <= i < |vs| ensures Outs(k, ps, false)[i] == inner[i] {
      var w := OutsAt(k, ps, false, i);
      PieceStrips(k, n, ts, vs, i);
    }
    assert Outs(k, ps, false) == inner;
  }

  lemma QuoteEnds(x: string)
    ensures Quote(x) != "" && Quote(x)[|Quote(x)| - 1] != '\\'
  {
    hide Escape;
    if !NeedsQuotes(x) {
      assert x[|x| - 1] in x;
    }
  }

  lemma SeenEnds(n: nat, t: Shape, v: Tree)
    requires Fits(t, v) && (v.Items? || v.Row?)
    ensures Seen(n, t, v) != "" && IsClosing(Seen(n, t, v)[|Seen(n, t, v)| - 1])
  {
    hide Join, Pieces;
  }

  /** A piece that ends in a backslash is a text, read verbatim. */
  lemma EndsInBackslash(k: Kind, n: nat, ts: seq<Shape>, vs: seq<Tree>, i: nat)
    requires AllFit(ts, vs) && i < |vs|
    ensures var p := Pieces(k, n, ts, vs)[i];
            p == "" || p[|p| - 1] != '\\' || (vs[i].Text? && p == vs[i].text)
  {
    if !vs[i].Nil? {
      if k.OfList? && ts[i].ListOf? {
        SeenEnds(n, ts[i], vs[i]);
      } else if n == 0 {
        QuoteEnds(Seen(0, ts[i], vs[i]));
      } else if !vs[i].Text? {
        SeenEnds(n - 1, ts[i], vs[i]);
      }
    }
  }

  /** The elements read are enough for the values, and texts are themselves. */
  predicate Enough(vs: seq<Tree>, out: seq<Option<string>>) {
    |out| == |vs| && forall i | 0 <= i < |vs| ::
      && (out[i].None? <==> vs[i].Nil?) && Sub(Bare(vs[i]), Source(out[i]))
      && (vs[i].Text? ==> out[i] == Some(vs[i].text))
  }

  lemma EnoughTallies(k: Kind, n: nat, ts: seq<Shape>, vs: seq<Tree>, out: seq<Option<string>>)
    requires AllFit(ts, vs) && Enough(vs, out) && Parse(k, Literal(k, Pieces(k, n, ts, vs))) == Ok(out)
    ensures forall i | 0 <= i < |vs| :: Tally(Source(out[i]), false) == Tally(Pieces(k, n, ts, vs)[i], false) == Tally(Bare(vs[i]), false)
  {
    var ps := Pieces(k, n, ts, vs);
    hide Parse, Literal, Tally, Sub, Pieces, Bare;
    ParseKeeps(k, Literal(k, ps), out);
    SubTally(Literal(k, Sources(out)), Literal(k, ps), false);
    PiecesTally(k, n, ts, vs);
    forall i | 0 <= i < |vs| ensures Tally(Sources(out)[i], false) >= Tally(Bares(vs)[i], false) >= Tally(ps[i], false) {
      SubTally(Bare(vs[i]), Source(out[i]), false);
    }
    LiteralsTally(k, Sources(out), ps);
  }

  lemma EnoughAccounted(k: Kind, n: nat, ts: seq<Shape>, vs: seq<Tree>, out: seq<Option<string>>)
    requires AllFit(ts, vs) && Enough(vs, out)
    requires forall i | 0 <= i < |vs| :: Tally(Source(out[i]), false) == Tally(Pieces(k, n, ts, vs)[i], false)
    ensures Accounted(Pieces(k, n, ts, vs), out)
  {
    var ps := Pieces(k, n, ts, vs);
    hide Tally, Sub, Pieces, Bare;
    if vs != [] {
      EndsInBackslash(k, n, ts, vs, |vs| - 1);
    }
  }

  /** Necessity for one literal. */
  lemma LiteralReadsOnly(k: Kind, n: nat, ts: seq<Shape>, vs: seq<Tree>, out: seq<Option<string>>)
    requires AllFit(ts, vs) && (k.OfStruct? ==> k.columns == |vs|) && Enough(vs, out)
    requires Parse(k, Literal(k, Pieces(k, n, ts, vs))) == Ok(out)
    ensures Kept(k, Pieces(k, n, ts, vs), vs) && out == Inner(k, n, ts, vs) && PiecesRawFree(k, n, ts, vs)
  {
    var ps := Pieces(k, n, ts, vs);
    hide Parse, Literal, Tally, Sub, Pieces, Bare, Clean, Outs, Accounted, RawFree, Strip, Ends, Seen;
    EnoughTallies(k, n, ts, vs, out);
    EnoughAccounted(k, n, ts, vs, out);
    LiteralParses(k, ps, out);
    forall i | 0 <= i < |vs|
      ensures if k.OfList? && ts[i].ListOf? then RawFree(n, ts[i], vs[i]) else n > 0 ==> RawFree(n - 1, ts[i], vs[i])
      ensures out[i] == Inner(k, n, ts, vs)[i]
    {
      var w := OutsAt(k, ps, false, i);
      PieceRawFree(k, n, ts, vs, out, i, w);
      PieceStrips(k, n, ts, vs, i);
    }
  }

  lemma PieceRawFree(k: Kind, n: nat, ts: seq<Shape>, vs: seq<Tree>, out: seq<Option<string>>, i: nat, w: bool)
    requires AllFit(ts, vs) && i < |vs| && Enough(vs, out)
    requires var p := Pieces(k, n, ts, vs)[i]; out[i] == Element(Strip(p, Plain), w) && Tally(p, false) == Tally(Bare(vs[i]), false)
    ensures if k.OfList? && ts[i].ListOf? then RawFree(n, ts[i], vs[i]) else n > 0 ==> RawFree(n - 1, ts[i], vs[i])
  {
    hide Literal, Tally, Sub, Bare, RawFree, Strip, Seen;
    if vs[i].Nil? {
      NilIsRawFree(n, ts[i]);
      if n > 0 {
        NilIsRawFree(n - 1, ts[i]);
      }
    } else if (k.OfList? && ts[i].ListOf?) || n > 0 {
      NothingMissing(if k.OfList? && ts[i].ListOf? then n else n - 1, ts[i], vs[i], Plain);
    }
  }

  // ------------------------------------------------------ what any conversion needs

  lemma CutAt<T>(all: seq<T>, at: nat, xs: seq<T>)
    requires at + |xs| <= |all| && all[at..][..|xs|] == xs
    ensures forall j | 0 <= j < |xs| :: all[at + j] == xs[j]
  {
    assert forall j | 0 <= j < |xs| :: all[at..][..|xs|][j] == all[at + j];
  }

  /** Where list i of a vector is in the flattened child. */
  lemma ListInFlat(vs: seq<Tree>, lists: seq<seq<Option<string>>>, i: nat)
    requires |vs| == |lists| && i < |vs| && vs[i].Items? && |vs[i].items| == |lists[i]|
    requires forall j | 0 <= j < |vs| :: |ItemsOf(vs[j])| == |lists[j]|
    ensures var at := Offset(lists, i);
            && |Flat(vs)| == |Concat(lists)| && at + |lists[i]| <= |Flat(vs)|
            && forall j | 0 <= j < |lists[i]| :: Flat(vs)[at + j] == vs[i].items[j] && Concat(lists)[at + j] == lists[i][j]
  {
    hide Concat;
    assert forall j | 0 <= j < |vs| :: |ItemLists(vs)[j]| == |lists[j]|;
    SameOffsets(ItemLists(vs), lists);
    EntriesFit(ItemLists(vs));
    EntriesFit(lists);
    var at := Offset(lists, i);
    assert at == Offset(ItemLists(vs), i) && ItemLists(vs)[i] == vs[i].items;
    CutAt(Flat(vs), at, vs[i].items);
    CutAt(Concat(lists), at, lists[i]);
    hide Offset, Flat;
  }

  /** The texts of lists that came out of a conversion, element by element. */
  lemma ListsConverted(e: Shape, es: seq<Option<string>>, vs: seq<Tree>) returns (lists: seq<seq<Option<string>>>)
    requires Convert(ListOf(e), es) == Ok(vs)
    ensures |vs| == |es| == |lists| && Convert(e, Concat(lists)) == Ok(Flat(vs))
    ensures forall i | 0 <= i < |es| :: if es[i].None? then vs[i].Nil? && lists[i] == []
                                        else vs[i].Items? && |vs[i].items| == |lists[i]| && Parse(OfList, es[i].value) == Ok(lists[i])
    ensures forall i | 0 <= i < |vs| :: |ItemsOf(vs[i])| == |lists[i]|
  {
    ConvertedLists(e, es, vs);
    ParseEachAt(OfList, es);
    hide Parse, Convert, ParseEach, Concat, Flat;
    lists := ParseEach(OfList, es).value;
    assert forall i | 0 <= i < |es| :: ParsedAs(OfList, es[i]) == Ok(lists[i]);
  }

  lemma RowsConverted(ts: seq<Shape>, es: seq<Option<string>>, vs: seq<Tree>) returns (rows: seq<seq<Option<string>>>)
    requires Convert(RowOf(ts), es) == Ok(vs) && forall v | v in vs :: Fits(RowOf(ts), v)
    ensures |vs| == |es| == |rows| && (ts != [] ==> NullsLast(es))
    ensures forall i | 0 <= i < |es| :: if es[i].None? then vs[i].Nil?
                                        else vs[i].Row? && |rows[i]| == |vs[i].fields| == |ts| && Parse(OfStruct(|ts|), es[i].value) == Ok(rows[i])
    ensures forall v | v in vs && v.Row? :: |v.fields| == |ts|
    ensures forall c | 0 <= c < |ts| :: Convert(ts[c], RowColumn(es, rows, c)) == Ok(FieldColumn(vs, c))
  {
    FieldsFit(ts, vs);
    ConvertedRows(ts, es, vs);
    ParseEachAt(OfStruct(|ts|), es);
    hide Parse, Convert, ParseEach;
    rows := ParseEach(OfStruct(|ts|), es).value;
    assert forall i | 0 <= i < |es| :: ParsedAs(OfStruct(|ts|), es[i]) == Ok(rows[i]);
  }

  /** Whatever texts a vector is converted from, they have all characters of its values. */
  lemma {:induction false} ConversionKeeps(t: Shape, es: seq<Option<string>>, vs: seq<Tree>)
    requires Convert(t, es) == Ok(vs) && forall v | v in vs :: Fits(t, v)
    ensures |vs| == |es| && Enough(vs, es)
    decreases t
  {
    ConvertedNulls(t, es, vs);
    match t
    case Leaf =>
      forall i | 0 <= i < |vs| ensures Sub(Bare(vs[i]), Source(es[i])) {
        SubSame(Source(es[i]));
      }
    case ListOf(e) =>
      var lists := ListsConverted(e, es, vs);
      FlatFits(e, vs);
      ConversionKeeps(e, Concat(lists), Flat(vs));
      hide Parse, Convert, Concat, Flat, Sub;
      forall i | 0 <= i < |vs| ensures Sub(Bare(vs[i]), Source(es[i])) && !vs[i].Text? {
        if es[i].None? {
          SubSame("NULL");
        } else {
          ListInFlat(vs, lists, i);
          ElementsKept(OfList, vs[i].items, lists[i], es[i].value);
        }
      }
    case RowOf(ts) =>
      var rows := RowsConverted(ts, es, vs);
      forall c | 0 <= c < |ts| ensures Enough(FieldColumn(vs, c), RowColumn(es, rows, c)) {
        ColumnFits(ts, vs, c);
        ConversionKeeps(ts[c], RowColumn(es, rows, c), FieldColumn(vs, c));
      }
      hide Parse, Convert, Sub;
      forall i | 0 <= i < |vs| ensures Sub(Bare(vs[i]), Source(es[i])) && !vs[i].Text? {
        if es[i].None? {
          SubSame("NULL");
        } else {
          forall c | 0 <= c < |ts| ensures Sub(Bare(vs[i].fields[c]), Source(rows[i][c])) {
            assert FieldColumn(vs, c)[i] == vs[i].fields[c] && RowColumn(es, rows, c)[i] == rows[i][c];
          }
          ElementsKept(OfStruct(|ts|), vs[i].fields, rows[i], es[i].value);
        }
      }
  }

  lemma ElementsKept(k: Kind, vs: seq<Tree>, out: seq<Option<string>>, s: string)
    requires |vs| == |out| && Parse(k, s) == Ok(out) && forall i | 0 <= i < |vs| :: Sub(Bare(vs[i]), Source(out[i]))
    ensures Sub(Literal(k, Bares(vs)), s)
  {
    hide Parse, Sub, Literal, Bare;
    SubLiteral(k, Bares(vs), Sources(out));
    ParseKeeps(k, s, out);
    SubTrans(Literal(k, Bares(vs)), Literal(k, Sources(out)), s);
  }

  // ----------------------------------------------------------- one vector at a time

  function SeenAll(n: nat, t: Shape, vs: seq<Tree>): (r: seq<Option<string>>)
    requires forall v | v in vs :: Fits(t, v)
    ensures |r| == |vs|
  {
    seq(|vs|, i requires 0 <= i < |vs| => if vs[i].Nil? then None else Some(Seen(n, t, vs[i])))
  }

  /** The literals of these lists are read as their pieces. */
  ghost predicate ListsRead(n: nat, e: Shape, vs: seq<Tree>)
    requires forall v | v in vs :: Fits(ListOf(e), v)
  {
    ItemsFit(e, vs);
    forall v | v in vs && v.Items? ::
      && Kept(OfList, Pieces(OfList, n, Each(e, v.items), v.items), v.items)
      && PiecesRawFree(OfList, n, Each(e, v.items), v.items)
  }

  lemma {:induction false} FlatSeen(m: nat, e: Shape, vs: seq<Tree>, lists: seq<seq<Option<string>>>)
    requires |vs| == |lists| && forall v | v in vs :: Fits(ListOf(e), v)
    requires forall i | 0 <= i < |vs| && Fits(ListOf(e), vs[i]) :: lists[i] == SeenAll(m, e, ItemsOf(vs[i]))
    ensures (forall x | x in Flat(vs) :: Fits(e, x)) && Concat(lists) == SeenAll(m, e, Flat(vs))
    decreases |vs|
  {
    FlatFits(e, vs);
    hide Seen, Fits, SeenAll;
    if vs == [] {
      SeenNothing(m, e);
    } else {
      var l := |vs| - 1;
      FlatLast(vs);
      FlatFits(e, vs[..l]);
      FlatSeen(m, e, vs[..l], lists[..l]);
      assert vs[l] in vs && forall x | x in ItemsOf(vs[l]) :: x in Flat(vs);
      SeenAppend(m, e, Flat(vs[..l]), ItemsOf(vs[l]));
    }
  }

  lemma SeenNothing(n: nat, t: Shape)
    ensures SeenAll(n, t, []) == []
  {
  }

  lemma SeenAppend(n: nat, t: Shape, a: seq<Tree>, b: seq<Tree>)
    requires forall v | v in a + b :: Fits(t, v)
    ensures (forall v | v in a :: v in a + b) && (forall v | v in b :: v in a + b)
    ensures SeenAll(n, t, a + b) == SeenAll(n, t, a) + SeenAll(n, t, b)
  {
    hide Seen;
    assert forall v | v in a :: v in a + b;
    assert forall v | v in b :: v in a + b;
  }

  lemma FlatLast(vs: seq<Tree>)
    requires vs != []
    ensures Flat(vs) == Flat(vs[..|vs| - 1]) + ItemsOf(vs[|vs| - 1])
  {
    assert ItemLists(vs)[..|vs| - 1] == ItemLists(vs[..|vs| - 1]);
  }

  /** The pieces of one list that was converted. */
  lemma ListRead(n: nat, e: Shape, vs: seq<Tree>, lists: seq<seq<Option<string>>>, i: nat)
    requires |vs| == |lists| && i < |vs| && vs[i].Items? && forall v | v in vs :: Fits(ListOf(e), v)
    requires forall j | 0 <= j < |vs| :: |ItemsOf(vs[j])| == |lists[j]|
    requires vs[i] in vs && Parse(OfList, Seen(n, ListOf(e), vs[i])) == Ok(lists[i])
    requires Enough(Flat(vs), Concat(lists))
    ensures var ts := Each(e, vs[i].items);
            && Kept(OfList, Pieces(OfList, n, ts, vs[i].items), vs[i].items) && PiecesRawFree(OfList, n, ts, vs[i].items)
            && lists[i] == SeenAll(Level(OfList, n, e), e, vs[i].items)
  {
    var items, ts := vs[i].items, Each(e, vs[i].items);
    ListInFlat(vs, lists, i);
    assert Seen(n, ListOf(e), vs[i]) == Literal(OfList, Pieces(OfList, n, ts, items));
    hide Parse, Concat, Flat, Sub, Literal, Pieces, Bare, Kept;
    var at := Offset(lists, i);
    assert Enough(items, lists[i]) by {
      forall j | 0 <= j < |items|
        ensures (lists[i][j].None? <==> items[j].Nil?) && Sub(Bare(items[j]), Source(lists[i][j]))
        ensures items[j].Text? ==> lists[i][j] == Some(items[j].text)
      {
        assert Flat(vs)[at + j] == items[j] && Concat(lists)[at + j] == lists[i][j];
      }
    }
    LiteralReadsOnly(OfList, n, ts, items, lists[i]);
    hide PiecesRawFree, Enough;
    assert Inner(OfList, n, ts, items) == SeenAll(Level(OfList, n, e), e, items);
  }

  /** A vector of lists comes back exactly if each literal is read as its pieces and the
      vector of all elements comes back. */
  lemma ListBatch(n: nat, e: Shape, vs: seq<Tree>)
    requires forall v | v in vs :: Fits(ListOf(e), v)
    ensures forall x | x in Flat(vs) :: Fits(e, x)
    ensures Convert(ListOf(e), SeenAll(n, ListOf(e), vs)) == Ok(vs) <==>
            ListsRead(n, e, vs) && Convert(e, SeenAll(Level(OfList, n, e), e, Flat(vs))) == Ok(Flat(vs))
  {
    FlatFits(e, vs);
    if Convert(ListOf(e), SeenAll(n, ListOf(e), vs)) == Ok(vs) {
      ListBatchOnly(n, e, vs);
    }
    if ListsRead(n, e, vs) && Convert(e, SeenAll(Level(OfList, n, e), e, Flat(vs))) == Ok(Flat(vs)) {
      ListBatchBack(n, e, vs);
    }
  }

  lemma ListBatchOnly(n: nat, e: Shape, vs: seq<Tree>)
    requires forall v | v in vs :: Fits(ListOf(e), v)
    requires Convert(ListOf(e), SeenAll(n, ListOf(e), vs)) == Ok(vs)
    ensures forall x | x in Flat(vs) :: Fits(e, x)
    ensures ListsRead(n, e, vs) && Convert(e, SeenAll(Level(OfList, n, e), e, Flat(vs))) == Ok(Flat(vs))
  {
    var m, es := Level(OfList, n, e), SeenAll(n, ListOf(e), vs);
    FlatFits(e, vs);
    var lists := ListsConverted(e, es, vs);
    ConversionKeeps(e, Concat(lists), Flat(vs));
    hide Parse, Concat, Flat, Convert, Enough, Seen, Kept, PiecesRawFree;
    forall i | 0 <= i < |vs|
      ensures vs[i] in vs && lists[i] == SeenAll(m, e, ItemsOf(vs[i]))
      ensures vs[i].Items? ==> Kept(OfList, Pieces(OfList, n, Each(e, vs[i].items), vs[i].items), vs[i].items)
                               && PiecesRawFree(OfList, n, Each(e, vs[i].items), vs[i].items)
    {
      if vs[i].Items? {
        ListRead(n, e, vs, lists, i);
      } else {
        assert SeenAll(m, e, []) == [];
      }
    }
    FlatSeen(m, e, vs, lists);
  }

  lemma ListBatchBack(n: nat, e: Shape, vs: seq<Tree>)
    requires (forall v | v in vs :: Fits(ListOf(e), v)) && (forall x | x in Flat(vs) :: Fits(e, x))
    requires ListsRead(n, e, vs) && Convert(e, SeenAll(Level(OfList, n, e), e, Flat(vs))) == Ok(Flat(vs))
    ensures Convert(ListOf(e), SeenAll(n, ListOf(e), vs)) == Ok(vs)
  {
    var m, es := Level(OfList, n, e), SeenAll(n, ListOf(e), vs);
    forall i | 0 <= i < |vs|
      ensures vs[i] in vs && ParsedAs(OfList, es[i]) == Ok(SeenAll(m, e, ItemsOf(vs[i])))
      ensures if es[i].None? then vs[i].Nil? else vs[i].Items?
    {
      assert Fits(ListOf(e), vs[i]);
      if vs[i].Items? {
        var items, ts := vs[i].items, Each(e, vs[i].items);
        LiteralReads(OfList, n, ts, items);
        assert Seen(n, ListOf(e), vs[i]) == Literal(OfList, Pieces(OfList, n, ts, items));
        hide Parse, Literal, Pieces, Seen;
        assert Inner(OfList, n, ts, items) == SeenAll(m, e, items);
      } else {
        assert SeenAll(m, e, []) == [];
      }
    }
    ParseEachAt(OfList, es);
    hide Parse, Concat, Flat, Convert, Seen, ListsRead, ParsedAs;
    FlatSeen(m, e, vs, ParseEach(OfList, es).value);
    ConvertedLists(e, es, vs);
  }

  ghost predicate RowsRead(n: nat, ts: seq<Shape>, vs: seq<Tree>)
    requires forall v | v in vs :: Fits(RowOf(ts), v)
  {
    FieldsFit(ts, vs);
    forall v | v in vs && v.Row? ::
      && Kept(OfStruct(|ts|), Pieces(OfStruct(|ts|), n, ts, v.fields), v.fields)
      && PiecesRawFree(OfStruct(|ts|), n, ts, v.fields)
  }

  /** Every column comes back. */
  ghost predicate ColumnsBack(n: nat, ts: seq<Shape>, vs: seq<Tree>)
    requires forall v | v in vs :: Fits(RowOf(ts), v)
  {
    forall c | 0 <= c < |ts| :: ColumnBack(n, ts, vs, c)
  }

  ghost predicate ColumnBack(n: nat, ts: seq<Shape>, vs: seq<Tree>, c: nat)
    requires c < |ts| && forall v | v in vs :: Fits(RowOf(ts), v)
  {
    ColumnFits(ts, vs, c);
    Convert(ts[c], SeenAll(n, ts[c], FieldColumn(vs, c))) == Ok(FieldColumn(vs, c))
  }

  /** The columns hold what the fields' own parsers meet. */
  lemma ColumnSeen(n: nat, ts: seq<Shape>, es: seq<Option<string>>, rows: seq<seq<Option<string>>>, vs: seq<Tree>, c: nat)
    requires c < |ts| && |es| == |rows| == |vs| && forall v | v in vs :: Fits(RowOf(ts), v)
    requires forall i | 0 <= i < |vs| ::
               if es[i].None? then vs[i].Nil?
               else vs[i].Row? && AllFit(ts, vs[i].fields) && rows[i] == Inner(OfStruct(|ts|), n, ts, vs[i].fields)
    ensures forall v | v in vs && v.Row? :: c < |v.fields|
    ensures forall x | x in FieldColumn(vs, c) :: Fits(ts[c], x)
    ensures forall i | 0 <= i < |vs| && es[i].Some? :: c < |rows[i]|
    ensures RowColumn(es, rows, c) == SeenAll(n, ts[c], FieldColumn(vs, c))
  {
    ColumnFits(ts, vs, c);
    hide Seen;
    forall i | 0 <= i < |vs| ensures RowColumn(es, rows, c)[i] == SeenAll(n, ts[c], FieldColumn(vs, c))[i] {
    }
  }

  /** The same for a vector of composites: each literal is read as its pieces, no NULL is
      in front of another composite, and every column comes back. */
  lemma RowBatch(n: nat, ts: seq<Shape>, vs: seq<Tree>)
    requires forall v | v in vs :: Fits(RowOf(ts), v)
    ensures Convert(RowOf(ts), SeenAll(n, RowOf(ts), vs)) == Ok(vs) <==>
            (ts != [] ==> NilsLast(vs)) && RowsRead(n, ts, vs) && ColumnsBack(n, ts, vs)
  {
    hide Convert, RowsRead, ColumnsBack;
    if Convert(RowOf(ts), SeenAll(n, RowOf(ts), vs)) == Ok(vs) {
      RowBatchOnly(n, ts, vs);
    }
    if (ts != [] ==> NilsLast(vs)) && RowsRead(n, ts, vs) && ColumnsBack(n, ts, vs) {
      RowBatchBack(n, ts, vs);
    }
  }

  /** The pieces of one composite that was converted. */
  lemma RowRead(n: nat, ts: seq<Shape>, v: Tree, row: seq<Option<string>>)
    requires v.Row? && Fits(RowOf(ts), v) && |row| == |ts|
    requires Parse(OfStruct(|ts|), Seen(n, RowOf(ts), v)) == Ok(row)
    requires Enough(v.fields, row)
    ensures AllFit(ts, v.fields) && row == Inner(OfStruct(|ts|), n, ts, v.fields)
    ensures Kept(OfStruct(|ts|), Pieces(OfStruct(|ts|), n, ts, v.fields), v.fields)
    ensures PiecesRawFree(OfStruct(|ts|), n, ts, v.fields)
  {
    RowLiteral(n, ts, v);
    hide *;
    LiteralReadsOnly(OfStruct(|ts|), n, ts, v.fields, row);
  }

  lemma FieldsEnough(ts: seq<Shape>, es: seq<Option<string>>, rows: seq<seq<Option<string>>>, vs: seq<Tree>, i: nat)
    requires |es| == |rows| == |vs| && i < |vs| && vs[i].Row? && es[i].Some? && |vs[i].fields| == |rows[i]| == |ts|
    requires forall j | 0 <= j < |es| && es[j].Some? :: |rows[j]| == |ts|
    requires forall v | v in vs && v.Row? :: |v.fields| == |ts|
    requires forall c | 0 <= c < |ts| :: Enough(FieldColumn(vs, c), RowColumn(es, rows, c))
    ensures Enough(vs[i].fields, rows[i])
  {
    var fields := vs[i].fields;
    hide Sub, Bare;
    forall c | 0 <= c < |ts|
      ensures (rows[i][c].None? <==> fields[c].Nil?) && Sub(Bare(fields[c]), Source(rows[i][c]))
      ensures fields[c].Text? ==> rows[i][c] == Some(fields[c].text)
    {
      assert FieldColumn(vs, c)[i] == fields[c] && RowColumn(es, rows, c)[i] == rows[i][c];
    }
  }

  lemma RowBatchOnly(n: nat, ts: seq<Shape>, vs: seq<Tree>)
    requires forall v | v in vs :: Fits(RowOf(ts), v)
    requires Convert(RowOf(ts), SeenAll(n, RowOf(ts), vs)) == Ok(vs)
    ensures (ts != [] ==> NilsLast(vs)) && RowsRead(n, ts, vs) && ColumnsBack(n, ts, vs)
  {
    var k, es := OfStruct(|ts|), SeenAll(n, RowOf(ts), vs);
    FieldsFit(ts, vs);
    var rows := RowsConverted(ts, es, vs);
    hide Parse, Convert, Kept, PiecesRawFree, Enough, Seen, Pieces, Fits;
    forall c | 0 <= c < |ts| ensures Enough(FieldColumn(vs, c), RowColumn(es, rows, c)) {
      ColumnFits(ts, vs, c);
      ConversionKeeps(ts[c], RowColumn(es, rows, c), FieldColumn(vs, c));
    }
    forall i | 0 <= i < |vs| && vs[i].Row?
      ensures AllFit(ts, vs[i].fields) && rows[i] == Inner(k, n, ts, vs[i].fields)
      ensures Kept(k, Pieces(k, n, ts, vs[i].fields), vs[i].fields) && PiecesRawFree(k, n, ts, vs[i].fields)
    {
      assert vs[i] in vs && es[i].Some?;
      FieldsEnough(ts, es, rows, vs, i);
      RowRead(n, ts, vs[i], rows[i]);
    }
    forall c | 0 <= c < |ts| ensures ColumnBack(n, ts, vs, c) {
      ColumnSeen(n, ts, es, rows, vs, c);
    }
  }

  lemma RowLiteral(n: nat, ts: seq<Shape>, v: Tree)
    requires v.Row? && Fits(RowOf(ts), v)
    ensures |v.fields| == |ts| && AllFit(ts, v.fields)
    ensures Seen(n, RowOf(ts), v) == Literal(OfStruct(|ts|), Pieces(OfStruct(|ts|), n, ts, v.fields))
  {
  }

  lemma RowBatchBack(n: nat, ts: seq<Shape>, vs: seq<Tree>)
    requires forall v | v in vs :: Fits(RowOf(ts), v)
    requires (ts != [] ==> NilsLast(vs)) && RowsRead(n, ts, vs) && ColumnsBack(n, ts, vs)
    ensures Convert(RowOf(ts), SeenAll(n, RowOf(ts), vs)) == Ok(vs)
  {
    var k, es := OfStruct(|ts|), SeenAll(n, RowOf(ts), vs);
    FieldsFit(ts, vs);
    hide Parse, Convert, Kept, PiecesRawFree, Seen;
    forall i | 0 <= i < |vs|
      ensures if es[i].None? then vs[i].Nil?
              else vs[i].Row? && AllFit(ts, vs[i].fields) && ParsedAs(k, es[i]) == Ok(Inner(k, n, ts, vs[i].fields))
      ensures ParsedAs(k, es[i]).Ok?
    {
      assert vs[i] in vs && Fits(RowOf(ts), vs[i]);
      if vs[i].Row? {
        RowLiteral(n, ts, vs[i]);
        LiteralReads(k, n, ts, vs[i].fields);
      }
    }
    ParseEachAt(k, es);
    var rows := ParseEach(k, es).value;
    forall c | 0 <= c < |ts| ensures Convert(ts[c], RowColumn(es, rows, c)) == Ok(FieldColumn(vs, c)) {
      ColumnSeen(n, ts, es, rows, vs, c);
      assert ColumnBack(n, ts, vs, c);
    }
    hide ParsedAs, RowsRead, ColumnsBack;
    ConvertedRows(ts, es, vs);
  }

  // ------------------------------------------------------------------ main results

  /** Behind the first level lost, survivors have no quotes of their own. */
  lemma SurvivorsQuoteFree(n: nat, t: Shape, vs: seq<Tree>)
    requires n > 0 && !t.Leaf? && (forall v | v in vs :: Fits(t, v)) && Survives(n, t, vs)
    ensures forall v | v in vs :: QuoteFree(v)
  {
    forall v | v in vs ensures QuoteFree(v) {
      assert Fits(t, v);
    }
  }

  lemma InFlat(vs: seq<Tree>, v: Tree, x: Tree)
    requires v in vs && v.Items? && x in v.items
    ensures x in Flat(vs)
  {
    var i :| 0 <= i < |vs| && vs[i] == v;
    var j :| 0 <= j < |v.items| && v.items[j] == x;
    assert ItemLists(vs)[i] == v.items;
    EntriesFit(ItemLists(vs));
    CutAt(Flat(vs), Offset(ItemLists(vs), i), v.items);
    assert Flat(vs)[Offset(ItemLists(vs), i) + j] == x;
  }

  /** Given that the elements survive, a list has no raw quotes exactly if it has none. */
  lemma ListQuotes(n: nat, e: Shape, vs: seq<Tree>, v: Tree)
    requires (forall w | w in vs :: Fits(ListOf(e), w)) && (forall x | x in Flat(vs) :: Fits(e, x))
    requires v in vs && v.Items? && Survives(Level(OfList, n, e), e, Flat(vs))
    ensures AllFit(Each(e, v.items), v.items)
    ensures PiecesRawFree(OfList, n, Each(e, v.items), v.items) <==> (Level(OfList, n, e) > 0 ==> QuoteFree(v))
  {
    var m, ts := Level(OfList, n, e), Each(e, v.items);
    assert Fits(ListOf(e), v);
    if m > 0 && PiecesRawFree(OfList, n, ts, v.items) {
      if !e.Leaf? {
        SurvivorsQuoteFree(m, e, Flat(vs));
      }
      forall i | 0 <= i < |v.items| ensures QuoteFree(v.items[i]) {
        InFlat(vs, v, v.items[i]);
        if e.Leaf? {
          assert RawFree(n - 1, ts[i], v.items[i]);
        }
      }
    }
    if m > 0 && QuoteFree(v) {
      forall i | 0 <= i < |v.items| ensures RawFree(n, e, v.items[i]) && (n > 0 ==> RawFree(n - 1, e, v.items[i])) {
        assert v.items[i] in v.items;
        QuoteFreeIsRawFree(n, e, v.items[i]);
        if n > 0 {
          QuoteFreeIsRawFree(n - 1, e, v.items[i]);
        }
      }
    }
  }

  lemma RowQuotes(n: nat, ts: seq<Shape>, vs: seq<Tree>, v: Tree)
    requires forall w | w in vs :: Fits(RowOf(ts), w)
    requires v in vs && v.Row? && forall c | 0 <= c < |ts| :: (ColumnFits(ts, vs, c); Survives(n, ts[c], FieldColumn(vs, c)))
    ensures AllFit(ts, v.fields)
    ensures PiecesRawFree(OfStruct(|ts|), n, ts, v.fields) <==> (n > 0 ==> QuoteFree(v))
  {
    assert Fits(RowOf(ts), v);
    if n > 0 && PiecesRawFree(OfStruct(|ts|), n, ts, v.fields) {
      forall c | 0 <= c < |ts| ensures QuoteFree(v.fields[c]) {
        if ts[c].Leaf? {
          assert RawFree(n - 1, ts[c], v.fields[c]);
        } else {
          ColumnFits(ts, vs, c);
          SurvivorsQuoteFree(n, ts[c], FieldColumn(vs, c));
          var i :| 0 <= i < |vs| && vs[i] == v;
          assert FieldColumn(vs, c)[i] == v.fields[c];
        }
      }
    }
    if n > 0 && QuoteFree(v) {
      forall c | 0 <= c < |ts| ensures RawFree(n - 1, ts[c], v.fields[c]) {
        assert v.fields[c] in v.fields;
        QuoteFreeIsRawFree(n - 1, ts[c], v.fields[c]);
      }
    }
  }

  /** A vector comes back from texts that lost n levels of quotes exactly if it survives. */
  lemma {:induction false} SeenRoundTrip(n: nat, t: Shape, vs: seq<Tree>)
    requires forall v | v in vs :: Fits(t, v)
    ensures Convert(t, SeenAll(n, t, vs)) == Ok(vs) <==> Survives(n, t, vs)
    decreases t
  {
    match t
    case Leaf =>
      forall i | 0 <= i < |vs| ensures Convert(t, SeenAll(n, t, vs)).value[i] == vs[i] {
        assert Fits(t, vs[i]);
      }
      assert Convert(t, SeenAll(n, t, vs)).value == vs;
    case ListOf(e) =>
      ListBatch(n, e, vs);
      SeenRoundTrip(Level(OfList, n, e), e, Flat(vs));
      ItemsFit(e, vs);
      hide Convert, Kept, QuoteFree, PiecesRawFree;
      if Survives(Level(OfList, n, e), e, Flat(vs)) {
        forall v | v in vs && v.Items?
          ensures PiecesRawFree(OfList, n, Each(e, v.items), v.items) <==> (Level(OfList, n, e) > 0 ==> QuoteFree(v))
        {
          ListQuotes(n, e, vs, v);
        }
      }
    case RowOf(ts) =>
      RowBatch(n, ts, vs);
      FieldsFit(ts, vs);
      forall c | 0 <= c < |ts| ensures ColumnBack(n, ts, vs, c) <==> (ColumnFits(ts, vs, c); Survives(n, ts[c], FieldColumn(vs, c))) {
        ColumnFits(ts, vs, c);
        SeenRoundTrip(n, ts[c], FieldColumn(vs, c));
      }
      hide Convert, Kept, QuoteFree, PiecesRawFree, ColumnBack;
      if ColumnsBack(n, ts, vs) {
        forall v | v in vs && v.Row?
          ensures PiecesRawFree(OfStruct(|ts|), n, ts, v.fields) <==> (n > 0 ==> QuoteFree(v))
        {
          RowQuotes(n, ts, vs, v);
        }
      }
  }

  lemma {:induction false} WriteIsSeen(t: Shape, v: Tree)
    requires Fits(t, v) && !v.Nil?
    ensures Write(t, v) == Some(Seen(0, t, v))
    decreases v
  {
    match v
    case Text(_) =>
    case Items(vs) =>
      var ps := Pieces(OfList, 0, Each(t.elem, vs), vs);
      forall i | 0 <= i < |vs| ensures ListParts(WriteAll(t.elem, vs), t.elem.ListOf?)[i] == ps[i] {
        if !vs[i].Nil? {
          WriteIsSeen(t.elem, vs[i]);
        }
      }
      assert ListParts(WriteAll(t.elem, vs), t.elem.ListOf?) == ps;
    case Row(vs) =>
      var ps := Pieces(OfStruct(|vs|), 0, t.columns, vs);
      forall i | 0 <= i < |vs| ensures StructParts(WriteFields(t.columns, vs))[i] == ps[i] {
        if !vs[i].Nil? {
          WriteIsSeen(t.columns[i], vs[i]);
        }
      }
      assert StructParts(WriteFields(t.columns, vs)) == ps;
  }

  /** Main result on nested values: the rows of a column, lists and composites nested in
      any way, come back from their text exactly if they survive. */
  lemma TreesRoundTrip(t: Shape, vs: seq<Tree>)
    requires forall v | v in vs :: Fits(t, v)
    ensures Convert(t, WriteAll(t, vs)) == Ok(vs) <==> Survives(0, t, vs)
  {
    forall i | 0 <= i < |vs| ensures WriteAll(t, vs)[i] == SeenAll(0, t, vs)[i] {
      assert vs[i] in vs;
      if !vs[i].Nil? {
        WriteIsSeen(t, vs[i]);
      }
    }
    assert WriteAll(t, vs) == SeenAll(0, t, vs);
    SeenRoundTrip(0, t, vs);
  }
}
