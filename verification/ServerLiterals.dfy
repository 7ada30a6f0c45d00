/** Array and composite literals as the server reads them, by sections 8.15.6 and 8.16.6
    of the PostgreSQL manual, against what the connector writes. */
module ServerLiterals {
  import opened Wrappers
  import opened Characters
  import opened ArrayLiteral
  import opened NestedLiteral

  // ---------------------------------------------------------- arrays as the server reads

  /** The elements of an array of any number of dimensions. */
  datatype Dims = Element(text: Option<string>) | Elements(items: seq<Dims>)

  /** Behind an opening quote; a backslash protects the next character. */
  function QuotedElement(s: string, text: string): (r: Result<(string, string)>)
    ensures r.Ok? ==> |r.value.1| < |s|
    decreases |s|
  {
    if s == "" then Err(BadFormat)
    else if s[0] == '"' then Ok((text, s[1..]))
    else if s[0] == '\\' then if |s| == 1 then Err(BadFormat) else QuotedElement(s[2..], text + [s[1]])
    else QuotedElement(s[1..], text + [s[0]])
  }

  /** An element without quotes. White space behind its last solid character is dropped,
      and the bare word NULL, in any case of letters, is the null element. */
  function BareElement(s: string, text: string, solid: nat, escaped: bool): (r: Result<(Option<string>, string)>)
    requires solid <= |text|
    ensures r.Ok? ==> |r.value.1| <= |s|
    decreases |s|
  {
    if s == "" || s[0] == '"' || s[0] == '{' then Err(BadFormat)
    else if s[0] == ',' || s[0] == '}' then
      if solid == 0 then Err(BadFormat)
      else Ok((if !escaped && SameLetters(text[..solid], "null") then None else Some(text[..solid]), s))
    else if s[0] == '\\' then if |s| == 1 then Err(BadFormat) else BareElement(s[2..], text + [s[1]], |text| + 1, true)
    else BareElement(s[1..], text + [s[0]], if IsSpace(s[0]) then solid else |text| + 1, escaped)
  }

  function ServerElement(s: string): (r: Result<(Option<string>, string)>)
    ensures r.Ok? ==> |r.value.1| <= |s|
  {
    var t := SkipSpace(s);
    if t != "" && t[0] == '"' then
      var (x, rest) :- QuotedElement(t[1..], "");
      Ok((Some(x), SkipSpace(rest)))
    else BareElement(t, "", 0, false)
  }

  /** A list of d dimensions, and what follows it. */
  function ServerList(d: nat, s: string): (r: Result<(Dims, string)>)
    requires d >= 1
    ensures r.Ok? ==> |r.value.1| < |s|
    decreases |s|, 1
  {
    var t := SkipSpace(s);
    if t == "" || t[0] != '{' then Err(BadFormat)
    else
      var u := SkipSpace(t[1..]);
      if u != "" && u[0] == '}' then Ok((Elements([]), SkipSpace(u[1..])))
      else
        var (xs, rest) :- ServerItems(d, t[1..]);
        Ok((Elements(xs), rest))
  }

  function ServerItems(d: nat, s: string): (r: Result<(seq<Dims>, string)>)
    requires d >= 1
    ensures r.Ok? ==> |r.value.1| <= |s|
    decreases |s|, 2
  {
    var first := if d == 1 then
                   (match ServerElement(s) case Ok((e, rest)) => Ok((Element(e), rest)) case Err(e) => Err(e))
                 else ServerList(d - 1, s);
    var (x, rest) :- first;
    if rest == "" then Err(BadFormat)
    else if rest[0] == '}' then Ok(([x], SkipSpace(rest[1..])))
    else if rest[0] == ',' then
      var (xs, more) :- ServerItems(d, rest[1..]);
      Ok(([x] + xs, more))
    else Err(BadFormat)
  }

  /** The array literal as a whole. */
  function ServerArray(d: nat, s: string): Result<Dims>
    requires d >= 1
  {
    var (x, rest) :- ServerList(d, s);
    if rest == "" then Ok(x) else Err(BadFormat)
  }

  // ----------------------------------------------------------------- what it makes of them

  predicate Ends(tail: string) {
    tail != "" && (tail[0] == ',' || tail[0] == '}')
  }

  /** The bare word NULL, in any case of letters, never has quotes. */
  function SeenElement(e: Option<string>): Option<string> {
    if e.Some? && SameLetters(e.value, "null") then None else e
  }

  lemma {:induction false} BareRead(x: string, tail: string, text: string, solid: nat)
    requires x != "" && !IsSpace(x[|x| - 1]) && (forall c | c in x :: !IsSpecial(c)) && Ends(tail) && solid <= |text|
    ensures BareElement(x + tail, text, solid, false) == Ok((SeenElement(Some(text + x)), tail))
    decreases |x|
  {
    var s, more, n := x + tail, text + [x[0]], if IsSpace(x[0]) then solid else |text| + 1;
    assert x[0] in x && s[0] == x[0] && s[1..] == x[1..] + tail;
    assert BareElement(s, text, solid, false) == BareElement(x[1..] + tail, more, n, false);
    if |x| == 1 {
      assert x[1..] + tail == tail && more == text + x && more[..|more|] == more;
      assert BareElement(tail, more, |more|, false) == Ok((SeenElement(Some(more)), tail));
    } else {
      assert more + x[1..] == text + x && forall c | c in x[1..] :: c in x;
      BareRead(x[1..], tail, more, n);
    }
  }

  lemma {:induction false} QuotedRead(x: string, tail: string, text: string)
    ensures QuotedElement(Escape(x) + "\"" + tail, text) == Ok((text + x, tail))
    decreases |x|
  {
    var s := Escape(x) + "\"" + tail;
    if x == "" {
      assert s == "\"" + tail && s[1..] == tail && text + x == text;
    } else {
      var rest := Escape(x[1..]) + "\"" + tail;
      QuotedRead(x[1..], tail, text + [x[0]]);
      assert text + [x[0]] + x[1..] == text + x;
      if x[0] == '"' || x[0] == '\\' {
        assert s == ['\\', x[0]] + rest && s[2..] == rest;
      } else {
        assert s == [x[0]] + rest && s[1..] == rest;
      }
    }
  }

  lemma NoSkip(s: string)
    requires s == "" || !IsSpace(s[0])
    ensures SkipSpace(s) == s
  {
  }

  /** One element as CastListToPostgresArray writes it. */
  lemma ElementRead(e: Option<string>, tail: string)
    requires Ends(tail)
    ensures ServerElement(ListPart(e, false) + tail) == Ok((SeenElement(e), tail))
    ensures ListPart(e, false) != "" && !IsSpace(ListPart(e, false)[0]) && ListPart(e, false)[0] != '}'
  {
    match e
    case None =>
      NullRead(tail);
    case Some(x) =>
      if NeedsQuotes(x) {
        QuotedPartRead(x, tail);
      } else {
        assert x[0] in x && "" + x == x;
        NoSkip(x + tail);
        BareRead(x, tail, "", 0);
      }
  }

  lemma NullRead(tail: string)
    requires Ends(tail)
    ensures ServerElement("NULL" + tail) == Ok((None, tail))
  {
    NoSkip("NULL" + tail);
    assert !IsSpecial('N') && !IsSpecial('U') && !IsSpecial('L');
    assert forall c | c in "NULL" :: c == 'N' || c == 'U' || c == 'L';
    assert "" + "NULL" == "NULL" && "NULL"[3] == 'L' && SameLetters("NULL", "null");
    BareRead("NULL", tail, "", 0);
  }

  lemma QuotedPartRead(x: string, tail: string)
    requires NeedsQuotes(x) && Ends(tail)
    ensures ServerElement("\"" + Escape(x) + "\"" + tail) == Ok((SeenElement(Some(x)), tail))
  {
    var rest := Escape(x) + "\"" + tail;
    Regrouped("\"", Escape(x), "\"");
    Regrouped("\"", Escape(x) + "\"", tail);
    NullHasNoQuotes(x);
    EmptyAdded(x);
    QuotedRead(x, tail, "");
    hide Escape, NeedsQuotes, QuotedElement, BareElement, SameLetters;
    var s := "\"" + rest;
    assert s[0] == '"' && s[1..] == rest;
    NoSkip(s);
    NoSkip(tail);
  }

  lemma NullHasNoQuotes(x: string)
    ensures SameLetters(x, "null") ==> !NeedsQuotes(x)
  {
    if SameLetters(x, "null") {
      assert |x| == 4 && Lower(x[0]) == 'n' && Lower(x[1]) == 'u' && Lower(x[2]) == 'l' && Lower(x[3]) == 'l';
      assert forall c | c in x :: !IsSpecial(c) && !IsSpace(c);
    }
  }

  /** The dimensions of a list type, and a value of it as the server should see it. */
  function Levels(t: Shape): nat {
    if t.ListOf? then 1 + Levels(t.elem) else 0
  }

  function DimsOf(t: Shape, v: Tree): Dims
    requires Fits(t, v)
    decreases v
  {
    if t.ListOf? && v.Items? then Elements(seq(|v.items|, i requires 0 <= i < |v.items| => DimsOf(t.elem, v.items[i])))
    else Element(Write(t, v))
  }

  /** The same with elements that read as NULL. */
  function SeenDims(t: Shape, v: Tree): Dims
    requires Fits(t, v)
    decreases v
  {
    if t.ListOf? && v.Items? then Elements(seq(|v.items|, i requires 0 <= i < |v.items| => SeenDims(t.elem, v.items[i])))
    else Element(SeenElement(Write(t, v)))
  }

  /** An array has no NULL among its inner lists. */
  predicate HasLevels(t: Shape, v: Tree)
    requires Fits(t, v)
    decreases v
  {
    t.ListOf? ==> v.Items? && forall x | x in v.items :: HasLevels(t.elem, x)
  }

  /** No element that is not a list is the word NULL. */
  predicate NoNullWord(t: Shape, v: Tree)
    requires Fits(t, v)
    decreases v
  {
    if t.ListOf? && v.Items? then forall x | x in v.items :: NoNullWord(t.elem, x)
    else Write(t, v) == SeenElement(Write(t, v))
  }

  /** The text of a list from its i-th item on. */
  function TextFrom(e: Shape, vs: seq<Tree>): string
    requires forall x | x in vs :: Fits(e, x)
  {
    Join(ListParts(WriteAll(e, vs), e.ListOf?)) + "}"
  }

  lemma TextCons(e: Shape, vs: seq<Tree>)
    requires vs != [] && forall x | x in vs :: Fits(e, x)
    ensures forall x | x in vs[1..] :: Fits(e, x)
    ensures TextFrom(e, vs) == ListPart(Write(e, vs[0]), e.ListOf?) + if |vs| == 1 then "}" else "," + TextFrom(e, vs[1..])
  {
    var ps := ListParts(WriteAll(e, vs), e.ListOf?);
    assert WriteAll(e, vs)[1..] == WriteAll(e, vs[1..]);
    assert ps[1..] == ListParts(WriteAll(e, vs[1..]), e.ListOf?) && ps[0] == ListPart(Write(e, vs[0]), e.ListOf?);
    hide Write, WriteAll, ListPart, ListParts;
    if |vs| > 1 {
      Regrouped(ps[0] + ",", Join(ps[1..]), "}");
      Regrouped(ps[0], ",", Join(ps[1..]) + "}");
    }
  }

  lemma TextSplits(e: Shape, vs: seq<Tree>, tail: string) returns (rest: string)
    requires vs != [] && forall x | x in vs :: Fits(e, x)
    ensures TextFrom(e, vs) + tail == ListPart(Write(e, vs[0]), e.ListOf?) + rest
    ensures rest != "" && Ends(rest) && rest[0] == (if |vs| == 1 then '}' else ',')
    ensures rest == [rest[0]] + rest[1..] && rest[1..] == if |vs| == 1 then tail else TextFrom(e, vs[1..]) + tail
  {
    TextCons(e, vs);
    hide ListPart, TextFrom, Write, Fits;
    var part := ListPart(Write(e, vs[0]), e.ListOf?);
    if |vs| == 1 {
      rest := "}" + tail;
      Regrouped(part, "}", tail);
    } else {
      rest := "," + (TextFrom(e, vs[1..]) + tail);
      Regrouped(part, "," + TextFrom(e, vs[1..]), tail);
      Regrouped(",", TextFrom(e, vs[1..]), tail);
    }
  }

  predicate Begins(s: string) {
    s != "" && !IsSpace(s[0]) && s[0] != '}'
  }

  lemma WrittenText(t: Shape, v: Tree)
    requires t.ListOf? && Fits(t, v) && v.Items?
    ensures Write(t, v) == Some("{" + TextFrom(t.elem, v.items))
  {
    hide ListParts, WriteAll, Join;
    Regrouped("{", Join(ListParts(WriteAll(t.elem, v.items), t.elem.ListOf?)), "}");
  }

  /** One item of a list, and what follows it. */
  lemma {:induction false} ItemRead(e: Shape, v: Tree, tail: string)
    requires Fits(e, v) && Ends(tail)
    ensures var s := ListPart(Write(e, v), e.ListOf?) + tail;
            && Begins(s)
            && (if Levels(e) == 0 then ServerElement(s) == Ok((SeenElement(Write(e, v)), tail))
                else ServerList(Levels(e), s) == if HasLevels(e, v) then Ok((SeenDims(e, v), tail)) else Err(BadFormat))
    decreases v, 1
  {
    if Levels(e) == 0 {
      ElementRead(Write(e, v), tail);
    } else if v.Items? {
      ListRead(e.elem, v.items, tail);
      NoSkip(tail);
      WrittenText(e, v);
    } else {
      assert ("NULL" + tail)[0] == 'N';
      NoSkip("NULL" + tail);
    }
  }

  lemma {:induction false} ListRead(e: Shape, vs: seq<Tree>, tail: string)
    requires (forall x | x in vs :: Fits(e, x)) && (tail == "" || !IsSpace(tail[0]))
    ensures var s := "{" + TextFrom(e, vs) + tail;
            && Begins(s)
            && ServerList(1 + Levels(e), s) ==
               if HasLevels(ListOf(e), Items(vs)) then Ok((SeenDims(ListOf(e), Items(vs)), tail)) else Err(BadFormat)
    decreases vs, 3
  {
    var inner := TextFrom(e, vs) + tail;
    var s := "{" + TextFrom(e, vs) + tail;
    assert s[0] == '{' && s[1..] == inner;
    NoSkip(s);
    if vs == [] {
      assert WriteAll(e, vs) == [] && ListParts([], e.ListOf?) == [] && TextFrom(e, vs) == "}";
      assert inner[0] == '}' && inner[1..] == tail;
      NoSkip(inner);
      NoSkip(tail);
      assert SeenDims(ListOf(e), Items(vs)) == Elements([]);
    } else {
      ItemsRead(e, vs, tail);
      NoSkip(inner);
      HasLevelsAll(e, vs);
      hide ServerItems, TextFrom, SeenDims, HasLevels;
      assert SeenDims(ListOf(e), Items(vs)) == Elements(SeenAllDims(e, vs)) by {
        SeenDimsAll(e, vs);
      }
    }
  }

  function SeenAllDims(e: Shape, vs: seq<Tree>): (r: seq<Dims>)
    requires forall x | x in vs :: Fits(e, x)
    ensures |r| == |vs|
  {
    seq(|vs|, i requires 0 <= i < |vs| => SeenDims(e, vs[i]))
  }

  lemma SeenDimsAll(e: Shape, vs: seq<Tree>)
    requires forall x | x in vs :: Fits(e, x)
    ensures SeenDims(ListOf(e), Items(vs)) == Elements(SeenAllDims(e, vs))
  {
  }

  lemma HasLevelsAll(e: Shape, vs: seq<Tree>)
    requires forall x | x in vs :: Fits(e, x)
    ensures HasLevels(ListOf(e), Items(vs)) <==> forall x | x in vs :: HasLevels(e, x)
  {
  }

  lemma {:induction false} ItemsRead(e: Shape, vs: seq<Tree>, tail: string)
    requires vs != [] && (forall x | x in vs :: Fits(e, x)) && (tail == "" || !IsSpace(tail[0]))
    ensures Begins(TextFrom(e, vs) + tail)
    ensures ServerItems(1 + Levels(e), TextFrom(e, vs) + tail) ==
            if forall x | x in vs :: HasLevels(e, x) then Ok((SeenAllDims(e, vs), tail)) else Err(BadFormat)
    decreases vs, 2
  {
    var s, part := TextFrom(e, vs) + tail, ListPart(Write(e, vs[0]), e.ListOf?);
    TextCons(e, vs);
    assert vs[0] in vs;
    hide *;
    var rest := TextSplits(e, vs, tail);
    ItemRead(e, vs[0], rest);
    NoSkip(tail);
    if |vs| == 1 {
      ItemsLast(e, vs, s, rest, tail);
    } else {
      ItemsRead(e, vs[1..], tail);
      ItemsMore(e, vs, s, rest, tail);
    }
  }

  lemma FirstIs(d: nat, s: string)
    requires d >= 1
    ensures d == 1 && ServerElement(s).Err? ==> ServerItems(d, s) == Err(ServerElement(s).error)
    ensures d > 1 && ServerList(d - 1, s).Err? ==> ServerItems(d, s) == Err(ServerList(d - 1, s).error)
    ensures (d == 1 && ServerElement(s).Ok?) || (d > 1 && ServerList(d - 1, s).Ok?) ==>
            var (x, rest) := if d == 1 then (Element(ServerElement(s).value.0), ServerElement(s).value.1) else ServerList(d - 1, s).value;
            |rest| <= |s| &&
            ServerItems(d, s) ==
            if rest == "" then Err(BadFormat)
            else if rest[0] == '}' then Ok(([x], SkipSpace(rest[1..])))
            else if rest[0] == ',' then
              (match ServerItems(d, rest[1..]) case Ok((xs, more)) => Ok(([x] + xs, more)) case Err(err) => Err(err))
            else Err(BadFormat)
  {
    hide ServerElement, ServerList;
  }

  lemma ItemsLast(e: Shape, vs: seq<Tree>, s: string, rest: string, tail: string)
    requires |vs| == 1 && Fits(e, vs[0]) && rest == "}" + tail && rest[1..] == tail && SkipSpace(tail) == tail
    requires if Levels(e) == 0 then ServerElement(s) == Ok((SeenElement(Write(e, vs[0])), rest))
             else ServerList(Levels(e), s) == if HasLevels(e, vs[0]) then Ok((SeenDims(e, vs[0]), rest)) else Err(BadFormat)
    ensures ServerItems(1 + Levels(e), s) ==
            if forall x | x in vs :: HasLevels(e, x) then Ok((SeenAllDims(e, vs), tail)) else Err(BadFormat)
  {
    FirstIs(1 + Levels(e), s);
    FlatLevels(e, vs[0]);
    assert SeenAllDims(e, vs) == [SeenDims(e, vs[0])];
    hide ServerItems, ServerElement, ServerList, SeenDims, HasLevels;
  }

  lemma FlatLevels(e: Shape, v: Tree)
    requires Fits(e, v)
    ensures Levels(e) == 0 ==> HasLevels(e, v) && SeenDims(e, v) == Element(SeenElement(Write(e, v)))
  {
  }

  lemma ItemsMore(e: Shape, vs: seq<Tree>, s: string, rest: string, tail: string)
    requires |vs| > 1 && (forall x | x in vs :: Fits(e, x)) && rest != "" && rest[0] == ','
    requires if Levels(e) == 0 then ServerElement(s) == Ok((SeenElement(Write(e, vs[0])), rest))
             else ServerList(Levels(e), s) == if HasLevels(e, vs[0]) then Ok((SeenDims(e, vs[0]), rest)) else Err(BadFormat)
    requires ServerItems(1 + Levels(e), rest[1..]) ==
             if forall x | x in vs[1..] :: HasLevels(e, x) then Ok((SeenAllDims(e, vs[1..]), tail)) else Err(BadFormat)
    ensures ServerItems(1 + Levels(e), s) ==
            if forall x | x in vs :: HasLevels(e, x) then Ok((SeenAllDims(e, vs), tail)) else Err(BadFormat)
  {
    hide ServerItems, ServerElement, ServerList, SeenDims, HasLevels;
    FirstIs(1 + Levels(e), s);
    FlatLevels(e, vs[0]);
    assert SeenAllDims(e, vs) == [SeenDims(e, vs[0])] + SeenAllDims(e, vs[1..]);
    assert (forall x | x in vs :: HasLevels(e, x)) <==> HasLevels(e, vs[0]) && forall x | x in vs[1..] :: HasLevels(e, x) by {
      assert vs == [vs[0]] + vs[1..];
    }
  }

  lemma {:induction false} SeenIsMeant(t: Shape, v: Tree)
    requires Fits(t, v)
    ensures SeenDims(t, v) == DimsOf(t, v) <==> NoNullWord(t, v)
    decreases v
  {
    if t.ListOf? && v.Items? {
      var a, b := SeenDims(t, v).items, DimsOf(t, v).items;
      forall i | 0 <= i < |v.items| ensures a[i] == b[i] <==> NoNullWord(t.elem, v.items[i]) {
        SeenIsMeant(t.elem, v.items[i]);
      }
      if NoNullWord(t, v) {
        assert a == b;
      }
      if a == b {
        forall x | x in v.items ensures NoNullWord(t.elem, x) {
          var i :| 0 <= i < |v.items| && v.items[i] == x;
          assert a[i] == b[i];
        }
      }
    }
  }

  /** Main result on arrays: what the connector writes for a value of any number of
      dimensions the server reads as that value exactly if no inner list is NULL and no
      element is the word NULL, in any case of letters. */
  lemma ServerReadsArray(t: Shape, v: Tree)
    requires t.ListOf? && Fits(t, v) && v.Items?
    ensures ServerArray(Levels(t), Write(t, v).value) == Ok(DimsOf(t, v)) <==> HasLevels(t, v) && NoNullWord(t, v)
    ensures HasLevels(t, v) ==> ServerArray(Levels(t), Write(t, v).value) == Ok(SeenDims(t, v))
  {
    hide Write, ServerList, TextFrom, SeenDims, DimsOf, HasLevels, NoNullWord;
    var s := "{" + TextFrom(t.elem, v.items);
    WrittenText(t, v);
    assert s + "" == s;
    ListRead(t.elem, v.items, "");
    SeenIsMeant(t, v);
  }

  function Leaves(es: seq<Option<string>>): (vs: seq<Tree>)
    ensures |vs| == |es| && forall v | v in vs :: Fits(Leaf, v)
  {
    seq(|es|, i requires 0 <= i < |es| => if es[i].None? then Nil else Text(es[i].value))
  }

  /** In one dimension: every text but the bare word arrives, white space at its ends
      included. */
  lemma ServerReadsList(es: seq<Option<string>>)
    ensures ServerArray(1, ListText(es, false)) == Ok(Elements(seq(|es|, i requires 0 <= i < |es| => Element(es[i]))))
            <==> forall e | e in es && e.Some? :: !SameLetters(e.value, "null")
  {
    var t, v := ListOf(Leaf), Items(Leaves(es));
    LeavesMean(es);
    LeavesWords(es);
    hide ServerArray, ListText, Write, DimsOf, NoNullWord, HasLevels, SeenDims;
    ServerReadsArray(t, v);
  }

  lemma LeavesMean(es: seq<Option<string>>)
    ensures var t, v := ListOf(Leaf), Items(Leaves(es));
            Write(t, v) == Some(ListText(es, false)) && HasLevels(t, v)
            && DimsOf(t, v) == Elements(seq(|es|, i requires 0 <= i < |es| => Element(es[i])))
  {
    var t, vs := ListOf(Leaf), Leaves(es);
    forall i | 0 <= i < |es| ensures vs[i] in vs && Write(Leaf, vs[i]) == es[i] {
    }
    hide ListText;
    assert WriteAll(Leaf, vs) == es;
    assert DimsOf(t, Items(vs)).items == seq(|es|, i requires 0 <= i < |es| => Element(es[i]));
    assert forall x | x in vs :: HasLevels(Leaf, x);
  }

  lemma LeavesWords(es: seq<Option<string>>)
    ensures NoNullWord(ListOf(Leaf), Items(Leaves(es))) <==> forall e | e in es && e.Some? :: !SameLetters(e.value, "null")
  {
    var t, vs := ListOf(Leaf), Leaves(es);
    hide SameLetters;
    if NoNullWord(t, Items(vs)) {
      forall e | e in es && e.Some? ensures !SameLetters(e.value, "null") {
        var i :| 0 <= i < |es| && es[i] == e;
        assert NoNullWord(Leaf, vs[i]);
      }
    }
    if forall e | e in es && e.Some? :: !SameLetters(e.value, "null") {
      forall x | x in vs ensures NoNullWord(Leaf, x) {
        var i :| 0 <= i < |vs| && vs[i] == x;
        assert es[i] in es;
      }
    }
  }

  // ------------------------------------------------------- composites as the server reads

  /** A field up to a comma or the closing bracket outside quotes. A doubled quote inside
      quotes is one quote. */
  function ServerField(s: string, quoted: bool, text: string): (r: Result<(string, string)>)
    ensures r.Ok? ==> |r.value.1| <= |s|
    decreases |s|
  {
    if s == "" then Err(BadFormat)
    else if !quoted && (s[0] == ',' || s[0] == ')') then Ok((text, s))
    else if s[0] == '\\' then if |s| == 1 then Err(BadFormat) else ServerField(s[2..], quoted, text + [s[1]])
    else if s[0] == '"' then
      if quoted && |s| > 1 && s[1] == '"' then ServerField(s[2..], true, text + ['"']) else ServerField(s[1..], !quoted, text)
    else ServerField(s[1..], quoted, text + [s[0]])
  }

  /** n fields, each but the first behind a comma; an empty one is NULL. */
  function ServerFields(n: nat, first: bool, s: string): (r: Result<(seq<Option<string>>, string)>)
    ensures r.Ok? ==> |r.value.0| == n
  {
    if n == 0 then Ok(([], s))
    else if !first && (s == "" || s[0] != ',') then Err(BadFormat)
    else
      var t := if first then s else s[1..];
      if t != "" && (t[0] == ',' || t[0] == ')') then
        var (xs, rest) :- ServerFields(n - 1, false, t);
        Ok(([None] + xs, rest))
      else
        var (x, more) :- ServerField(t, false, "");
        var (xs, rest) :- ServerFields(n - 1, false, more);
        Ok(([Some(x)] + xs, rest))
  }

  /** A composite of n columns. */
  function ServerRow(n: nat, s: string): Result<seq<Option<string>>> {
    var t := SkipSpace(s);
    if t == "" || t[0] != '(' then Err(BadFormat)
    else
      var (xs, rest) :- ServerFields(n, true, t[1..]);
      if rest == "" || rest[0] != ')' || SkipSpace(rest[1..]) != "" then Err(BadFormat) else Ok(xs)
  }

  predicate EndsField(tail: string) {
    tail != "" && (tail[0] == ',' || tail[0] == ')')
  }

  lemma {:induction false} QuotedField(x: string, tail: string, text: string)
    requires EndsField(tail)
    ensures ServerField(Escape(x) + "\"" + tail, true, text) == Ok((text + x, tail))
    decreases |x|
  {
    var s := Escape(x) + "\"" + tail;
    if x == "" {
      assert s == "\"" + tail && s[1..] == tail && s[1] == tail[0] && text + x == text;
      assert ServerField(tail, false, text) == Ok((text, tail));
    } else {
      var rest := Escape(x[1..]) + "\"" + tail;
      QuotedField(x[1..], tail, text + [x[0]]);
      assert text + [x[0]] + x[1..] == text + x;
      if x[0] == '"' || x[0] == '\\' {
        assert s == ['\\', x[0]] + rest && s[2..] == rest;
      } else {
        assert s == [x[0]] + rest && s[1..] == rest;
      }
    }
  }

  lemma {:induction false} BareField(x: string, tail: string, text: string)
    requires (forall c | c in x :: !IsSpecial(c)) && EndsField(tail)
    ensures ServerField(x + tail, false, text) == Ok((text + x, tail))
    decreases |x|
  {
    var s := x + tail;
    if x == "" {
      assert s == tail && text + x == text;
    } else {
      assert x[0] in x && s[0] == x[0] && s[1..] == x[1..] + tail && text + [x[0]] + x[1..] == text + x;
      assert forall c | c in x[1..] :: c in x;
      BareField(x[1..], tail, text + [x[0]]);
    }
  }

  lemma QuoteRead(x: string, tail: string)
    requires EndsField(tail)
    ensures ServerField(Quote(x) + tail, false, "") == Ok((x, tail))
    ensures Quote(x) != "" && Quote(x)[0] != ',' && Quote(x)[0] != ')'
  {
    assert "" + x == x;
    if NeedsQuotes(x) {
      var t := Quote(x) + tail;
      assert t[0] == '"' && t[1..] == Escape(x) + "\"" + tail;
      hide Escape, NeedsQuotes;
      QuotedField(x, tail, "");
    } else {
      assert x[0] in x;
      BareField(x, tail, "");
    }
  }

  lemma FieldRead(e: Option<string>, tail: string)
    requires EndsField(tail)
    ensures var t := StructPart(e) + tail;
            if e.None? then t == tail
            else t != "" && t[0] != ',' && t[0] != ')' && ServerField(t, false, "") == Ok((e.value, tail))
  {
    hide ServerField, Quote;
    if e.Some? {
      QuoteRead(e.value, tail);
      assert (StructPart(e) + tail)[0] == StructPart(e)[0];
    } else {
      assert "" + tail == tail;
    }
  }

  lemma FieldsStep(n: nat, first: bool, s: string, t: string, e: Option<string>, rest: string, xs: seq<Option<string>>, tail: string)
    requires n > 0 && (if first then s == t else s == "," + t)
    requires if e.None? then t == rest && EndsField(rest)
             else t != "" && t[0] != ',' && t[0] != ')' && ServerField(t, false, "") == Ok((e.value, rest))
    requires ServerFields(n - 1, false, rest) == Ok((xs, tail))
    ensures ServerFields(n, first, s) == Ok(([e] + xs, tail))
  {
    hide ServerField;
    assert !first ==> s[0] == ',' && s[1..] == t;
  }

  /** The text of fields, those that are not the first behind a comma. */
  function FieldsText(fs: seq<Option<string>>, first: bool, tail: string): string {
    var t := Join(StructParts(fs)) + tail;
    if first || fs == [] then t else "," + t
  }

  lemma {:induction false} FieldsRead(fs: seq<Option<string>>, first: bool, tail: string)
    requires EndsField(tail)
    ensures ServerFields(|fs|, first, FieldsText(fs, first, tail)) == Ok((fs, tail))
    decreases |fs|
  {
    if fs == [] {
      assert "" + tail == tail;
    } else {
      var rest := FieldsText(fs[1..], false, tail);
      hide *;
      FieldsRead(fs[1..], false, tail);
      FieldsCons(fs, first, tail);
      FieldRead(fs[0], rest);
      HeadAndTail(fs);
      FieldsStep(|fs|, first, FieldsText(fs, first, tail), StructPart(fs[0]) + rest, fs[0], rest, fs[1..], tail);
    }
  }

  lemma FieldsCons(fs: seq<Option<string>>, first: bool, tail: string)
    requires fs != [] && EndsField(tail)
    ensures var rest := FieldsText(fs[1..], false, tail);
            EndsField(rest) && FieldsText(fs, first, tail) == (if first then StructPart(fs[0]) + rest else "," + (StructPart(fs[0]) + rest))
  {
    var ps := StructParts(fs);
    assert ps[1..] == StructParts(fs[1..]) && ps[0] == StructPart(fs[0]);
    hide StructPart, StructParts;
    if |fs| > 1 {
      Regrouped(ps[0], "," + Join(ps[1..]), tail);
      Regrouped(",", Join(ps[1..]), tail);
      Regrouped(ps[0], ",", Join(ps[1..]));
    } else {
      EmptyAdded(tail);
    }
  }

  /** Main result on composites: the server reads every composite back, NULL fields and
      the text NULL included. */
  lemma ServerReadsRow(fs: seq<Option<string>>)
    ensures ServerRow(|fs|, StructText(fs)) == Ok(fs)
  {
    var s := StructText(fs);
    FieldsRead(fs, true, ")");
    assert s[0] == '(' && s[1..] == FieldsText(fs, true, ")") && ")"[1..] == "";
    NoSkip(s);
    NoSkip("");
    hide ServerFields, Join, StructParts;
  }
}
