/** Values of lists and composites nested in each other: written as text by
    CastToPostgresVarchar (src/postgres_copy_to.cpp), and converted from text a vector
    at a time by ConvertList and ConvertStruct (src/postgres_text_reader.cpp), which
    flatten the lists of a vector into one child vector and the composites into
    columns. */
module NestedLiteral {
  import opened Wrappers
  import opened ArrayLiteral

  datatype Shape = Leaf | ListOf(elem: Shape) | RowOf(columns: seq<Shape>)

  datatype Tree = Nil | Text(text: string) | Items(items: seq<Tree>) | Row(fields: seq<Tree>)

  predicate Fits(t: Shape, v: Tree)
    decreases v
  {
    match v
    case Nil => true
    case Text(_) => t.Leaf?
    case Items(vs) => t.ListOf? && forall x | x in vs :: Fits(t.elem, x)
    case Row(vs) => t.RowOf? && |vs| == |t.columns| && forall i | 0 <= i < |vs| :: Fits(t.columns[i], vs[i])
  }

  // ------------------------------------------------------------------- writing

  /** The text of a value, or none for NULL. */
  function Write(t: Shape, v: Tree): (r: Option<string>)
    requires Fits(t, v)
    ensures r.None? <==> v.Nil?
    decreases v, 0
  {
    match v
    case Nil => None
    case Text(s) => Some(s)
    case Items(vs) => Some(ListText(WriteAll(t.elem, vs), t.elem.ListOf?))
    case Row(vs) => Some(StructText(WriteFields(t.columns, vs)))
  }

  function WriteAll(t: Shape, vs: seq<Tree>): (r: seq<Option<string>>)
    requires forall x | x in vs :: Fits(t, x)
    ensures |r| == |vs|
    decreases vs, 1
  {
    seq(|vs|, i requires 0 <= i < |vs| => Write(t, vs[i]))
  }

  function WriteFields(ts: seq<Shape>, vs: seq<Tree>): (r: seq<Option<string>>)
    requires |ts| == |vs| && forall i | 0 <= i < |vs| :: Fits(ts[i], vs[i])
    ensures |r| == |vs|
    decreases vs, 1
  {
    seq(|vs|, i requires 0 <= i < |vs| => Write(ts[i], vs[i]))
  }

  // ----------------------------------------------------- converting a vector of texts

  /** The texts of a vector, each parsed; nothing for NULL. */
  function ParseEach(k: Kind, es: seq<Option<string>>): (r: Result<seq<seq<Option<string>>>>)
    ensures r.Ok? ==> |r.value| == |es|
    ensures r.Ok? && k.OfStruct? ==> forall i | 0 <= i < |es| && es[i].Some? :: |r.value[i]| == k.columns
  {
    if es == [] then Ok([])
    else
      var e := es[|es| - 1];
      var ps :- ParseEach(k, es[..|es| - 1]);
      var p :- if e.None? then Ok([]) else Parse(k, e.value);
      Ok(ps + [p])
  }

  function Concat<T>(xss: seq<seq<T>>): seq<T> {
    if xss == [] then [] else Concat(xss[..|xss| - 1]) + xss[|xss| - 1]
  }

  /** PostgresStructParser's rows: the composites that are not NULL, one behind the
      other, since row_offset advances for those only. */
  function Slots(es: seq<Option<string>>, rows: seq<seq<Option<string>>>): (r: seq<seq<Option<string>>>)
    requires |rows| == |es|
    ensures |r| <= |es|
  {
    if es == [] then []
    else
      var n := |es| - 1;
      Slots(es[..n], rows[..n]) + if es[n].Some? then [rows[n]] else []
  }

  /** Every composite that is not NULL finds something written at its own row. */
  predicate Written(es: seq<Option<string>>, slots: seq<seq<Option<string>>>) {
    forall i | 0 <= i < |es| && es[i].Some? :: i < |slots|
  }

  /** One column of the composites, NULL where the composite is. */
  function ColumnTexts(es: seq<Option<string>>, slots: seq<seq<Option<string>>>, c: nat): (r: seq<Option<string>>)
    requires Written(es, slots) && forall s | s in slots :: c < |s|
    ensures |r| == |es|
  {
    seq(|es|, i requires 0 <= i < |es| => if es[i].None? then None else slots[i][c])
  }

  lemma {:induction false} SlotsFull(n: nat, es: seq<Option<string>>, rows: seq<seq<Option<string>>>)
    requires |rows| == |es| && forall i | 0 <= i < |es| && es[i].Some? :: |rows[i]| == n
    ensures forall s | s in Slots(es, rows) :: |s| == n
    decreases |es|
  {
    if es != [] {
      SlotsFull(n, es[..|es| - 1], rows[..|es| - 1]);
    }
  }

  /** ConvertVector: the trees a vector of texts is converted to. A composite that
      reads a row nobody has written is outside defined behaviour. */
  function Convert(t: Shape, es: seq<Option<string>>): (r: Result<seq<Tree>>)
    ensures r.Ok? ==> |r.value| == |es|
    decreases t, 1
  {
    match t
    case Leaf => Ok(seq(|es|, i requires 0 <= i < |es| => if es[i].None? then Nil else Text(es[i].value)))
    case ListOf(e) =>
      var lists :- ParseEach(OfList, es);
      var child :- Convert(e, Concat(lists));
      Ok(ListTrees(es, lists, child))
    case RowOf(ts) =>
      var rows :- ParseEach(OfStruct(|ts|), es);
      SlotsFull(|ts|, es, rows);
      var cols :- ConvertSlots(ts, es, Slots(es, rows));
      Ok(RowTrees(es, cols))
  }

  function ConvertSlots(ts: seq<Shape>, es: seq<Option<string>>, slots: seq<seq<Option<string>>>): (r: Result<seq<seq<Tree>>>)
    requires forall s | s in slots :: |s| == |ts|
    ensures r.Ok? ==> |r.value| == |ts| && forall c | c in r.value :: |c| == |es|
    decreases ts, 1
  {
    if ts != [] && !Written(es, slots) then Err(Unmodelled)
    else ConvertColumns(ts, seq(|ts|, c requires 0 <= c < |ts| => ColumnTexts(es, slots, c)))
  }

  function ConvertColumns(ts: seq<Shape>, cols: seq<seq<Option<string>>>): (r: Result<seq<seq<Tree>>>)
    requires |ts| == |cols|
    ensures r.Ok? ==> |r.value| == |ts| && forall c | 0 <= c < |ts| :: |r.value[c]| == |cols[c]|
    decreases ts, 0
  {
    if ts == [] then Ok([])
    else
      var n := |ts| - 1;
      var vs :- ConvertColumns(ts[..n], cols[..n]);
      var v :- Convert(ts[n], cols[n]);
      Ok(vs + [v])
  }

  /** The lists of a list vector: entry i starts where the lists before it end. */
  function ListTrees(es: seq<Option<string>>, lists: seq<seq<Option<string>>>, child: seq<Tree>): (r: seq<Tree>)
    requires |lists| == |es| && |child| == |Concat(lists)|
    ensures |r| == |es|
  {
    EntriesFit(lists);
    seq(|es|, i requires 0 <= i < |es| => if es[i].None? then Nil else Items(child[Offset(lists, i)..][..|lists[i]|]))
  }

  function Offset<T>(xss: seq<seq<T>>, i: nat): nat
    requires i <= |xss|
  {
    |Concat(xss[..i])|
  }

  lemma {:induction false} EntriesFit<T>(xss: seq<seq<T>>)
    ensures forall i | 0 <= i < |xss| :: Offset(xss, i) + |xss[i]| <= |Concat(xss)| && Concat(xss)[Offset(xss, i)..][..|xss[i]|] == xss[i]
    decreases |xss|
  {
    if xss != [] {
      var n := |xss| - 1;
      var front := xss[..n];
      EntriesFit(front);
      forall i | 0 <= i < |xss|
        ensures Offset(xss, i) + |xss[i]| <= |Concat(xss)| && Concat(xss)[Offset(xss, i)..][..|xss[i]|] == xss[i]
      {
        if i < n {
          assert front[..i] == xss[..i] && front[i] == xss[i];
          assert Concat(xss)[Offset(xss, i)..][..|xss[i]|] == Concat(front)[Offset(xss, i)..][..|xss[i]|];
        }
      }
    }
  }

  function RowTrees(es: seq<Option<string>>, cols: seq<seq<Tree>>): (r: seq<Tree>)
    requires forall c | c in cols :: |c| == |es|
    ensures |r| == |es|
  {
    seq(|es|, i requires 0 <= i < |es| =>
      if es[i].None? then Nil else Row(seq(|cols|, c requires 0 <= c < |cols| => cols[c][i])))
  }

  // ------------------------------------------------------------- the vectors, in place

  /** An error in front is an error of the whole. */
  lemma {:induction false} ParseEachFails(k: Kind, es: seq<Option<string>>, i: nat)
    requires i <= |es| && ParseEach(k, es[..i]).Err?
    ensures ParseEach(k, es) == Err(ParseEach(k, es[..i]).error)
    decreases |es|
  {
    if i < |es| {
      assert es[..|es| - 1][..i] == es[..i];
      ParseEachFails(k, es[..|es| - 1], i);
    } else {
      assert es[..i] == es;
    }
  }

  lemma ParseEachStep(k: Kind, es: seq<Option<string>>, i: nat)
    requires i < |es| && ParseEach(k, es[..i]).Ok?
    ensures es[i].None? ==> ParseEach(k, es[..i + 1]) == Ok(ParseEach(k, es[..i]).value + [[]])
    ensures es[i].Some? ==>
            ParseEach(k, es[..i + 1]) == (match Parse(k, es[i].value)
                                          case Ok(p) => Ok(ParseEach(k, es[..i]).value + [p])
                                          case Err(e) => Err(e))
  {
    var front := es[..i + 1];
    assert front[..|front| - 1] == es[..i] && front[|front| - 1] == es[i];
  }

  lemma ConcatStep<T>(xss: seq<seq<T>>, xs: seq<T>)
    ensures Concat(xss + [xs]) == Concat(xss) + xs
  {
    assert (xss + [xs])[..|xss + [xs]| - 1] == xss;
  }

  lemma {:induction false} NothingConverted(t: Shape)
    ensures Convert(t, []) == Ok([])
    decreases t, 1
  {
    match t
    case Leaf =>
    case ListOf(e) => NothingConverted(e);
    case RowOf(ts) =>
      var cols: seq<seq<Option<string>>> := seq(|ts|, c requires 0 <= c < |ts| => ColumnTexts([], [], c));
      NothingInColumns(ts, cols);
  }

  lemma {:induction false} NothingInColumns(ts: seq<Shape>, cols: seq<seq<Option<string>>>)
    requires |ts| == |cols| && forall c | 0 <= c < |cols| :: cols[c] == []
    ensures ConvertColumns(ts, cols).Ok?
    decreases ts, 0
  {
    if ts != [] {
      NothingInColumns(ts[..|ts| - 1], cols[..|ts| - 1]);
      NothingConverted(ts[|ts| - 1]);
    }
  }

  /** ConvertVector. */
  method ConvertVector(t: Shape, source: seq<Option<string>>) returns (r: Result<seq<Tree>>)
    ensures r == Convert(t, source)
    decreases t, 2
  {
    match t {
      case Leaf => r := Ok(seq(|source|, i requires 0 <= i < |source| => if source[i].None? then Nil else Text(source[i].value)));
      case ListOf(e) => r := ConvertList(e, source);
      case RowOf(ts) => r := ConvertStruct(ts, source);
    }
  }

  datatype Entry = Entry(offset: nat, length: nat)

  /** The trees of a list vector: its entries, none for NULL, over its child. */
  function ReadLists(entries: seq<Option<Entry>>, child: seq<Tree>): seq<Tree>
    requires forall i | 0 <= i < |entries| && entries[i].Some? :: entries[i].value.offset + entries[i].value.length <= |child|
  {
    seq(|entries|, i requires 0 <= i < |entries| =>
      if entries[i].None? then Nil else Items(child[entries[i].value.offset..][..entries[i].value.length]))
  }

  /** ConvertList's loop has parsed the first i texts. */
  ghost predicate Collected(source: seq<Option<string>>, i: nat, entries: seq<Option<Entry>>, elements: seq<Option<string>>,
                            lists: seq<seq<Option<string>>>)
  {
    && |entries| == |lists| == i <= |source|
    && ParseEach(OfList, source[..i]) == Ok(lists) && elements == Concat(lists)
    && forall j | 0 <= j < i :: entries[j] == if source[j].None? then None else Some(Entry(Offset(lists, j), |lists[j]|))
  }

  lemma CollectStep(source: seq<Option<string>>, i: nat, entries: seq<Option<Entry>>, elements: seq<Option<string>>,
                    lists: seq<seq<Option<string>>>, more: seq<Option<string>>)
    requires Collected(source, i, entries, elements, lists) && i < |source|
    requires if source[i].None? then more == [] else Parse(OfList, source[i].value) == Ok(more)
    ensures Collected(source, i + 1, entries + [if source[i].None? then None else Some(Entry(|elements|, |more|))],
                      elements + more, lists + [more])
  {
    hide Parse, Concat;
    ParseEachStep(OfList, source, i);
    ConcatStep(lists, more);
    forall j | 0 <= j <= i ensures (lists + [more])[..j] == lists[..j] {
    }
    assert lists[..i] == lists;
    hide ParseEach;
  }

  lemma CollectedTrees(source: seq<Option<string>>, entries: seq<Option<Entry>>, elements: seq<Option<string>>,
                       lists: seq<seq<Option<string>>>, child: seq<Tree>)
    requires Collected(source, |source|, entries, elements, lists) && |child| == |elements|
    ensures |lists| == |source|
    ensures forall i | 0 <= i < |entries| && entries[i].Some? :: entries[i].value.offset + entries[i].value.length <= |child|
    ensures ReadLists(entries, child) == ListTrees(source, lists, child)
  {
    hide ParseEach, Concat;
    EntriesFit(lists);
  }

  lemma CollectedAll(source: seq<Option<string>>, entries: seq<Option<Entry>>, elements: seq<Option<string>>,
                     lists: seq<seq<Option<string>>>)
    requires Collected(source, |source|, entries, elements, lists)
    ensures ParseEach(OfList, source) == Ok(lists) && elements == Concat(lists)
  {
    assert source[..|source|] == source;
  }

  /** ConvertList: one parser collects the elements of all lists, the entries say which
      are whose. */
  method ConvertList(e: Shape, source: seq<Option<string>>) returns (r: Result<seq<Tree>>)
    ensures r == Convert(ListOf(e), source)
    decreases e, 3
  {
    var entries: seq<Option<Entry>>, elements: seq<Option<string>> := [], [];
    ghost var lists: seq<seq<Option<string>>> := [];
    NothingConverted(e);
    ConvertListIs(e, source);
    hide Parse, Convert, Collected, ReadLists;
    assert Collected(source, 0, entries, elements, lists) by {
      NothingCollected(source);
    }
    var i := 0;
    while i < |source|
      invariant 0 <= i <= |source| && Collected(source, i, entries, elements, lists)
    {
      var entry: Option<Entry> := None;
      ghost var more: seq<Option<string>> := [];
      if source[i].Some? {
        var p := ParsePostgresNested(OfList, source[i].value);
        if p.Err? {
          CollectFails(source, i, entries, elements, lists);
          return Err(p.error);
        }
        more := p.value;
        entry := Some(Entry(|elements|, |p.value|));
        CollectStep(source, i, entries, elements, lists, more);
        elements := elements + p.value;
      } else {
        CollectStep(source, i, entries, elements, lists, more);
        assert elements + [] == elements;
      }
      entries, lists := entries + [entry], lists + [more];
      i := i + 1;
    }
    CollectedAll(source, entries, elements, lists);
    var child: seq<Tree> := [];
    if |elements| > 0 {
      child :- ConvertVector(e, elements);
    }
    CollectedTrees(source, entries, elements, lists, child);
    r := Ok(ReadLists(entries, child));
  }

  lemma ConvertListIs(e: Shape, es: seq<Option<string>>)
    ensures ParseEach(OfList, es).Err? ==> Convert(ListOf(e), es) == Err(ParseEach(OfList, es).error)
    ensures ParseEach(OfList, es).Ok? ==>
            var lists := ParseEach(OfList, es).value;
            var child := Convert(e, Concat(lists));
            Convert(ListOf(e), es) == if child.Err? then Err(child.error) else Ok(ListTrees(es, lists, child.value))
  {
  }

  lemma NothingCollected(source: seq<Option<string>>)
    ensures Collected(source, 0, [], [], [])
  {
  }

  lemma CollectFails(source: seq<Option<string>>, i: nat, entries: seq<Option<Entry>>, elements: seq<Option<string>>,
                     lists: seq<seq<Option<string>>>)
    requires Collected(source, i, entries, elements, lists) && i < |source| && source[i].Some? && Parse(OfList, source[i].value).Err?
    ensures ParseEach(OfList, source) == Err(Parse(OfList, source[i].value).error)
  {
    ParseEachStep(OfList, source, i);
    ParseEachFails(OfList, source, i + 1);
  }

  lemma SlotsStep(es: seq<Option<string>>, rows: seq<seq<Option<string>>>, e: Option<string>, row: seq<Option<string>>)
    requires |rows| == |es|
    ensures Slots(es + [e], rows + [row]) == Slots(es, rows) + if e.Some? then [row] else []
  {
    assert (es + [e])[..|es|] == es && (rows + [row])[..|es|] == rows;
  }

  /** ConvertStruct's loop has parsed the first i texts into the first rowOffset of the
      parser's rows. */
  ghost predicate Filled(n: nat, source: seq<Option<string>>, i: nat, data: seq<Option<seq<Option<string>>>>, rowOffset: nat,
                         rows: seq<seq<Option<string>>>)
  {
    && i <= |source| == |data| && |rows| == i
    && ParseEach(OfStruct(n), source[..i]) == Ok(rows) && rowOffset == |Slots(source[..i], rows)| <= i
    && forall j | 0 <= j < |data| :: data[j] == if j < rowOffset then Some(Slots(source[..i], rows)[j]) else None
  }

  lemma FillStep(n: nat, source: seq<Option<string>>, i: nat, data: seq<Option<seq<Option<string>>>>, rowOffset: nat,
                 rows: seq<seq<Option<string>>>, row: seq<Option<string>>)
    requires Filled(n, source, i, data, rowOffset, rows) && i < |source|
    requires if source[i].None? then row == [] else Parse(OfStruct(n), source[i].value) == Ok(row)
    ensures source[i].None? ==> Filled(n, source, i + 1, data, rowOffset, rows + [row])
    ensures source[i].Some? ==> Filled(n, source, i + 1, data[rowOffset := Some(row)], rowOffset + 1, rows + [row])
  {
    hide Parse, Slots;
    ParseEachStep(OfStruct(n), source, i);
    assert source[..i + 1] == source[..i] + [source[i]];
    SlotsStep(source[..i], rows, source[i], row);
    assert source[i].None? ==> Slots(source[..i + 1], rows + [row]) == Slots(source[..i], rows);
    hide ParseEach;
  }

  lemma FillFails(n: nat, source: seq<Option<string>>, i: nat, data: seq<Option<seq<Option<string>>>>, rowOffset: nat,
                  rows: seq<seq<Option<string>>>)
    requires Filled(n, source, i, data, rowOffset, rows) && i < |source| && source[i].Some? && Parse(OfStruct(n), source[i].value).Err?
    ensures ParseEach(OfStruct(n), source) == Err(Parse(OfStruct(n), source[i].value).error)
  {
    ParseEachStep(OfStruct(n), source, i);
    ParseEachFails(OfStruct(n), source, i + 1);
  }

  lemma NothingFilled(n: nat, source: seq<Option<string>>, data: seq<Option<seq<Option<string>>>>)
    requires |data| == |source| && forall j | 0 <= j < |data| :: data[j].None?
    ensures Filled(n, source, 0, data, 0, [])
  {
    assert source[..0] == [];
  }

  lemma FilledSlots(n: nat, source: seq<Option<string>>, data: seq<Option<seq<Option<string>>>>, rowOffset: nat,
                    rows: seq<seq<Option<string>>>)
    requires Filled(n, source, |source|, data, rowOffset, rows)
    ensures ParseEach(OfStruct(n), source) == Ok(rows) && |data| == |source| && rowOffset == |Slots(source, rows)|
    ensures forall s | s in Slots(source, rows) :: |s| == n
    ensures forall j | 0 <= j < |data| :: data[j] == if j < rowOffset then Some(Slots(source, rows)[j]) else None
  {
    assert source[..|source|] == source;
    SlotsFull(n, source, rows);
    hide ParseEach;
  }

  /** ConvertStruct: one parser for all rows, whose row_offset moves on only behind a
      composite that is not NULL. */
  method ConvertStruct(ts: seq<Shape>, source: seq<Option<string>>) returns (r: Result<seq<Tree>>)
    ensures r == Convert(RowOf(ts), source)
    decreases ts, 3
  {
    // the parser's rows: nothing is written in them at first
    var data: seq<Option<seq<Option<string>>>> := seq(|source|, _ => None);
    var rowOffset, i := 0, 0;
    ghost var rows: seq<seq<Option<string>>> := [];
    NothingFilled(|ts|, source, data);
    ConvertStructIs(ts, source);
    hide Parse, Convert, Filled, ConvertColumns;
    while i < |source|
      invariant 0 <= i <= |source| == |data| && rowOffset <= i && Filled(|ts|, source, i, data, rowOffset, rows)
    {
      if source[i].Some? {
        var p := ParsePostgresNested(OfStruct(|ts|), source[i].value);
        if p.Err? {
          FillFails(|ts|, source, i, data, rowOffset, rows);
          return Err(p.error);
        }
        FillStep(|ts|, source, i, data, rowOffset, rows, p.value);
        data, rowOffset := data[rowOffset := Some(p.value)], rowOffset + 1;
        rows := rows + [p.value];
      } else {
        FillStep(|ts|, source, i, data, rowOffset, rows, []);
        rows := rows + [[]];
      }
      i := i + 1;
    }
    FilledSlots(|ts|, source, data, rowOffset, rows);
    hide Slots, ParseEach;
    var cols :- ConvertFields(ts, source, data, Slots(source, rows));
    r := Ok(RowTrees(source, cols));
  }

  lemma ConvertStructIs(ts: seq<Shape>, es: seq<Option<string>>)
    ensures ParseEach(OfStruct(|ts|), es).Err? ==> Convert(RowOf(ts), es) == Err(ParseEach(OfStruct(|ts|), es).error)
    ensures ParseEach(OfStruct(|ts|), es).Ok? ==>
            var slots := Slots(es, ParseEach(OfStruct(|ts|), es).value);
            && (forall s | s in slots :: |s| == |ts|)
            && var cols := ConvertSlots(ts, es, slots);
               Convert(RowOf(ts), es) == if cols.Err? then Err(cols.error) else Ok(RowTrees(es, cols.value))
  {
    if ParseEach(OfStruct(|ts|), es).Ok? {
      SlotsFull(|ts|, es, ParseEach(OfStruct(|ts|), es).value);
    }
  }

  /** The columns of the composites, from the rows of the parser. */
  method ConvertFields(ts: seq<Shape>, source: seq<Option<string>>, data: seq<Option<seq<Option<string>>>>,
                       ghost slots: seq<seq<Option<string>>>) returns (r: Result<seq<seq<Tree>>>)
    requires |data| == |source| >= |slots| && forall s | s in slots :: |s| == |ts|
    requires forall j | 0 <= j < |data| :: data[j] == if j < |slots| then Some(slots[j]) else None
    ensures r == ConvertSlots(ts, source, slots)
    decreases ts, 2
  {
    var cols: seq<seq<Tree>>, c := [], 0;
    var k := 0;
    while k < |source| && |ts| > 0
      invariant 0 <= k <= |source| && (|ts| > 0 ==> forall j | 0 <= j < k && source[j].Some? :: j < |slots|)
    {
      if source[k].Some? && data[k].None? {
        return Err(Unmodelled);
      }
      k := k + 1;
    }
    assert ts == [] || Written(source, slots);
    ghost var texts := seq(|ts|, d requires 0 <= d < |ts| => ColumnTexts(source, slots, d));
    assert ts[..0] == [] && texts[..0] == [];
    assert ConvertSlots(ts, source, slots) == ConvertColumns(ts, texts);
    assert ConvertColumns(ts[..0], texts[..0]) == Ok([]);
    hide Convert, ConvertSlots, ConvertColumns;
    while c < |ts|
      invariant 0 <= c <= |ts| && ConvertColumns(ts[..c], texts[..c]) == Ok(cols)
    {
      var column := seq(|source|, j requires 0 <= j < |source| =>
        if source[j].None? then None else data[j].value[c]);
      assert column == ColumnTexts(source, slots, c) == texts[c];
      var v := ConvertVector(ts[c], column);
      ColumnsStep(ts, texts, c);
      if v.Err? {
        ColumnsFail(ts, texts, c + 1);
        return Err(v.error);
      }
      cols := cols + [v.value];
      c := c + 1;
    }
    assert ts[..c] == ts && texts[..c] == texts;
    r := Ok(cols);
  }

  lemma ColumnsStep(ts: seq<Shape>, cols: seq<seq<Option<string>>>, c: nat)
    requires |ts| == |cols| && c < |ts| && ConvertColumns(ts[..c], cols[..c]).Ok?
    ensures ConvertColumns(ts[..c + 1], cols[..c + 1]) ==
            match Convert(ts[c], cols[c])
            case Err(x) => Err(x)
            case Ok(v) => Ok(ConvertColumns(ts[..c], cols[..c]).value + [v])
  {
    hide Convert;
    assert ts[..c + 1][..c] == ts[..c] && cols[..c + 1][..c] == cols[..c];
  }

  lemma {:induction false} ColumnsFail(ts: seq<Shape>, cols: seq<seq<Option<string>>>, c: nat)
    requires |ts| == |cols| && c <= |ts| && ConvertColumns(ts[..c], cols[..c]).Err?
    ensures ConvertColumns(ts, cols) == Err(ConvertColumns(ts[..c], cols[..c]).error)
    decreases |ts|
  {
    if c < |ts| {
      var n := |ts| - 1;
      assert ts[..n][..c] == ts[..c] && cols[..n][..c] == cols[..c];
      ColumnsFail(ts[..n], cols[..n], c);
    } else {
      assert ts[..c] == ts && cols[..c] == cols;
    }
  }

  // -------------------------------------------------------- a vector of lists, exactly

  function ParsedAs(k: Kind, e: Option<string>): Result<seq<Option<string>>> {
    if e.None? then Ok([]) else Parse(k, e.value)
  }

  lemma {:induction false} ParseEachAt(k: Kind, es: seq<Option<string>>)
    ensures ParseEach(k, es).Ok? <==> forall i | 0 <= i < |es| :: ParsedAs(k, es[i]).Ok?
    ensures ParseEach(k, es).Ok? ==> forall i | 0 <= i < |es| :: ParsedAs(k, es[i]) == Ok(ParseEach(k, es).value[i])
    decreases |es|
  {
    hide Parse;
    if es != [] {
      var n := |es| - 1;
      ParseEachAt(k, es[..n]);
      assert forall i | 0 <= i < n :: es[..n][i] == es[i];
      if forall i | 0 <= i < |es| :: ParsedAs(k, es[i]).Ok? {
        assert ParsedAs(k, es[n]).Ok?;
      }
    }
  }

  function ItemsOf(v: Tree): seq<Tree> {
    if v.Items? then v.items else []
  }

  function ItemLists(vs: seq<Tree>): (r: seq<seq<Tree>>)
    ensures |r| == |vs|
  {
    seq(|vs|, i requires 0 <= i < |vs| => ItemsOf(vs[i]))
  }

  /** The items of all lists of a vector. */
  function Flat(vs: seq<Tree>): seq<Tree> {
    Concat(ItemLists(vs))
  }

  lemma {:induction false} SameOffsets<A, B>(xss: seq<seq<A>>, yss: seq<seq<B>>)
    requires |xss| == |yss| && forall i | 0 <= i < |xss| :: |xss[i]| == |yss[i]|
    ensures |Concat(xss)| == |Concat(yss)|
    ensures forall i | 0 <= i < |xss| :: Offset(xss, i) == Offset(yss, i)
    decreases |xss|
  {
    if xss != [] {
      var n := |xss| - 1;
      SameOffsets(xss[..n], yss[..n]);
      forall i | 0 <= i < |xss| ensures Offset(xss, i) == Offset(yss, i) {
        assert xss[..n][..i] == xss[..i] && yss[..n][..i] == yss[..i];
        assert i < n ==> Offset(xss[..n], i) == Offset(yss[..n], i);
        assert i == n ==> xss[..i] == xss[..n] && yss[..i] == yss[..n];
      }
    }
  }

  lemma ConcatUpTo<T>(xss: seq<seq<T>>, n: nat)
    requires n < |xss|
    ensures Concat(xss[..n + 1]) == Concat(xss[..n]) + xss[n]
  {
    assert xss[..n + 1] == xss[..n] + [xss[n]];
    ConcatStep(xss[..n], xss[n]);
  }

  lemma CutStep<A>(all: seq<A>, at: nat, n: nat)
    requires at + n <= |all|
    ensures all[..at] + all[at..][..n] == all[..at + n]
  {
  }

  /** Pieces cut at the entries are determined by what they were cut from. */
  lemma {:induction false} CutsConcat<A, B>(xss: seq<seq<A>>, all: seq<A>, yss: seq<seq<B>>, m: nat)
    requires |xss| == |yss| && m <= |yss|
    requires forall i | 0 <= i < |yss| :: Offset(yss, i) + |yss[i]| <= |all| && xss[i] == all[Offset(yss, i)..][..|yss[i]|]
    ensures |Concat(yss[..m])| <= |all| && Concat(xss[..m]) == all[..|Concat(yss[..m])|]
  {
    if m > 0 {
      var n := m - 1;
      CutsConcat(xss, all, yss, n);
      var xs, ys, at := xss[n], yss[n], Offset(yss, n);
      assert at + |ys| <= |all| && xs == all[at..][..|ys|];
      assert at == |Concat(yss[..n])|;
      hide Concat, Offset;
      ConcatUpTo(xss, n);
      ConcatUpTo(yss, n);
      CutStep(all, at, |ys|);
    }
  }

  lemma ListTreesBack(es: seq<Option<string>>, lists: seq<seq<Option<string>>>, child: seq<Tree>, vs: seq<Tree>)
    requires |lists| == |es| == |vs| && |child| == |Concat(lists)| && forall i | 0 <= i < |es| && es[i].None? :: lists[i] == []
    ensures ListTrees(es, lists, child) == vs <==>
            && (forall i | 0 <= i < |es| :: if es[i].None? then vs[i].Nil? else vs[i].Items? && |vs[i].items| == |lists[i]|)
            && Flat(vs) == child
  {
    EntriesFit(lists);
    hide Concat;
    if ListTrees(es, lists, child) == vs {
      forall i | 0 <= i < |es|
        ensures ItemLists(vs)[i] == child[Offset(lists, i)..][..|lists[i]|]
        ensures if es[i].None? then vs[i].Nil? else vs[i].Items? && |vs[i].items| == |lists[i]|
      {
        assert vs[i] == ListTrees(es, lists, child)[i];
      }
      CutsConcat(ItemLists(vs), child, lists, |lists|);
      assert lists[..|lists|] == lists && ItemLists(vs)[..|lists|] == ItemLists(vs);
    }
    if (forall i | 0 <= i < |es| :: if es[i].None? then vs[i].Nil? else vs[i].Items? && |vs[i].items| == |lists[i]|)
       && Flat(vs) == child
    {
      forall i | 0 <= i < |es| ensures |ItemLists(vs)[i]| == |lists[i]| {
      }
      SameOffsets(ItemLists(vs), lists);
      EntriesFit(ItemLists(vs));
      forall i | 0 <= i < |es| ensures ListTrees(es, lists, child)[i] == vs[i] {
        assert es[i].Some? ==> ItemLists(vs)[i] == vs[i].items;
      }
    }
  }

  /** The lists come out of a conversion as the vector's elements do. */
  lemma ConvertedLists(e: Shape, es: seq<Option<string>>, vs: seq<Tree>)
    ensures Convert(ListOf(e), es) == Ok(vs) <==>
            && |vs| == |es| && ParseEach(OfList, es).Ok?
            && (forall i | 0 <= i < |es| ::
                  if es[i].None? then vs[i].Nil? else vs[i].Items? && |vs[i].items| == |ParseEach(OfList, es).value[i]|)
            && Convert(e, Concat(ParseEach(OfList, es).value)) == Ok(Flat(vs))
  {
    ConvertListIs(e, es);
    ParseEachAt(OfList, es);
    hide Parse, Convert, ParseEach, Concat, ListTrees, Flat;
    if ParseEach(OfList, es).Ok? && |vs| == |es| {
      var lists := ParseEach(OfList, es).value;
      assert forall i | 0 <= i < |es| && es[i].None? :: ParsedAs(OfList, es[i]) == Ok(lists[i]);
      if Convert(e, Concat(lists)).Ok? {
        ListTreesBack(es, lists, Convert(e, Concat(lists)).value, vs);
      }
    }
  }

  // --------------------------------------------------- a vector of composites, exactly

  /** No NULL in front of anything else. */
  predicate NullsLast(es: seq<Option<string>>) {
    forall i, j | 0 <= i < j < |es| && es[i].None? :: es[j].None?
  }

  lemma {:induction false} SlotsMissing(es: seq<Option<string>>, rows: seq<seq<Option<string>>>)
    requires |rows| == |es|
    ensures |Slots(es, rows)| == |es| <==> forall i | 0 <= i < |es| :: es[i].Some?
    ensures |Slots(es, rows)| == |es| ==> Slots(es, rows) == rows
    decreases |es|
  {
    if es != [] {
      var n := |es| - 1;
      SlotsMissing(es[..n], rows[..n]);
      assert forall i | 0 <= i < n :: es[..n][i] == es[i];
      assert rows == rows[..n] + [rows[n]];
    }
  }

  /** Each composite has its own row written, and with its own fields, exactly if no NULL
      comes before it. */
  lemma {:induction false} SlotsAligned(es: seq<Option<string>>, rows: seq<seq<Option<string>>>)
    requires |rows| == |es|
    ensures Written(es, Slots(es, rows)) <==> NullsLast(es)
    ensures NullsLast(es) ==> forall i | 0 <= i < |es| && es[i].Some? :: i < |Slots(es, rows)| && Slots(es, rows)[i] == rows[i]
    decreases |es|
  {
    if es != [] {
      var n := |es| - 1;
      SlotsAligned(es[..n], rows[..n]);
      SlotsMissing(es, rows);
      assert forall i | 0 <= i < n :: es[..n][i] == es[i] && rows[..n][i] == rows[i];
      if es[n].Some? {
        if NullsLast(es) {
          assert forall i | 0 <= i < n :: es[i].Some?;
        }
        if Written(es, Slots(es, rows)) {
          assert n < |Slots(es, rows)|;
        }
      } else {
        assert Slots(es, rows) == Slots(es[..n], rows[..n]);
        assert NullsLast(es) <==> NullsLast(es[..n]);
        assert Written(es, Slots(es, rows)) <==> Written(es[..n], Slots(es[..n], rows[..n]));
      }
    }
  }

  lemma {:induction false} ConvertColumnsAt(ts: seq<Shape>, cols: seq<seq<Option<string>>>, vals: seq<seq<Tree>>)
    requires |ts| == |cols|
    ensures ConvertColumns(ts, cols) == Ok(vals) <==> |vals| == |ts| && forall c | 0 <= c < |ts| :: Convert(ts[c], cols[c]) == Ok(vals[c])
    decreases |ts|
  {
    hide Convert;
    if ts != [] {
      var n := |ts| - 1;
      if |vals| == |ts| {
        ConvertColumnsAt(ts[..n], cols[..n], vals[..n]);
        assert vals == vals[..n] + [vals[n]];
        if ConvertColumns(ts, cols) == Ok(vals) {
          assert ConvertColumns(ts[..n], cols[..n]) == Ok(vals[..n]);
          forall c | 0 <= c < |ts| ensures Convert(ts[c], cols[c]) == Ok(vals[c]) {
            assert c < n ==> ts[..n][c] == ts[c] && cols[..n][c] == cols[c] && vals[..n][c] == vals[c];
          }
        }
        if forall c | 0 <= c < |ts| :: Convert(ts[c], cols[c]) == Ok(vals[c]) {
          assert forall c | 0 <= c < n :: ts[..n][c] == ts[c] && cols[..n][c] == cols[c] && vals[..n][c] == vals[c];
        }
      }
    }
  }

  /** Column c of composites that each have their own row. */
  function RowColumn(es: seq<Option<string>>, rows: seq<seq<Option<string>>>, c: nat): (r: seq<Option<string>>)
    requires |rows| == |es| && forall i | 0 <= i < |es| && es[i].Some? :: c < |rows[i]|
    ensures |r| == |es|
  {
    seq(|es|, i requires 0 <= i < |es| => if es[i].None? then None else rows[i][c])
  }

  function FieldColumn(vs: seq<Tree>, c: nat): (r: seq<Tree>)
    requires forall v | v in vs && v.Row? :: c < |v.fields|
    ensures |r| == |vs|
  {
    seq(|vs|, i requires 0 <= i < |vs| => if vs[i].Row? then vs[i].fields[c] else Nil)
  }

  /** Main result on one call of ConvertStruct: the rows come back exactly if no NULL row
      is in front of a row that is not, each row parses, and each column converts. */
  lemma ConvertedRows(ts: seq<Shape>, es: seq<Option<string>>, vs: seq<Tree>)
    requires forall v | v in vs && v.Row? :: |v.fields| == |ts|
    ensures Convert(RowOf(ts), es) == Ok(vs) <==>
            && |vs| == |es| && ParseEach(OfStruct(|ts|), es).Ok? && (ts != [] ==> NullsLast(es))
            && (forall i | 0 <= i < |es| :: if es[i].None? then vs[i].Nil? else vs[i].Row?)
            && forall c | 0 <= c < |ts| ::
                 Convert(ts[c], RowColumn(es, ParseEach(OfStruct(|ts|), es).value, c)) == Ok(FieldColumn(vs, c))
  {
    ConvertStructIs(ts, es);
    hide Parse, Convert, ParseEach, ConvertColumns;
    if ParseEach(OfStruct(|ts|), es).Ok? && |vs| == |es| {
      var rows := ParseEach(OfStruct(|ts|), es).value;
      var slots := Slots(es, rows);
      SlotsAligned(es, rows);
      hide Slots;
      if ts == [] || NullsLast(es) {
        var cols := seq(|ts|, c requires 0 <= c < |ts| => ColumnTexts(es, slots, c));
        forall c | 0 <= c < |ts| ensures cols[c] == RowColumn(es, rows, c) {
        }
        RowsFromColumns(ts, es, cols, vs);
      }
    }
  }

  /** With a NULL in front, a composite's own row is never written. */
  lemma NullsInFront(ts: seq<Shape>, es: seq<Option<string>>)
    requires ts != [] && ParseEach(OfStruct(|ts|), es).Ok? && !NullsLast(es)
    ensures Convert(RowOf(ts), es) == Err(Unmodelled)
  {
    ConvertStructIs(ts, es);
    SlotsAligned(es, ParseEach(OfStruct(|ts|), es).value);
    hide Slots, ParseEach, Convert;
  }

  lemma RowsFromColumns(ts: seq<Shape>, es: seq<Option<string>>, cols: seq<seq<Option<string>>>, vs: seq<Tree>)
    requires |ts| == |cols| && |vs| == |es| && (forall c | c in cols :: |c| == |es|)
    requires forall c | 0 <= c < |cols| :: forall i | 0 <= i < |es| && es[i].None? :: cols[c][i].None?
    requires forall v | v in vs && v.Row? :: |v.fields| == |ts|
    ensures ConvertColumns(ts, cols).Ok? ==> forall c | c in ConvertColumns(ts, cols).value :: |c| == |es|
    ensures (ConvertColumns(ts, cols).Ok? && RowTrees(es, ConvertColumns(ts, cols).value) == vs) <==>
            && (forall i | 0 <= i < |es| :: if es[i].None? then vs[i].Nil? else vs[i].Row?)
            && forall c | 0 <= c < |ts| :: Convert(ts[c], cols[c]) == Ok(FieldColumn(vs, c))
  {
    var fields := seq(|ts|, c requires 0 <= c < |ts| => FieldColumn(vs, c));
    ConvertColumnsAt(ts, cols, fields);
    if ConvertColumns(ts, cols).Ok? {
      var vals := ConvertColumns(ts, cols).value;
      ConvertColumnsAt(ts, cols, vals);
      forall c | 0 <= c < |ts| ensures forall i | 0 <= i < |es| && es[i].None? :: vals[c][i].Nil? {
        ConvertedNulls(ts[c], cols[c], vals[c]);
      }
      hide Convert, ConvertColumns;
      if RowTrees(es, vals) == vs {
        TreesToColumns(es, vals, vs);
        forall c | 0 <= c < |ts| ensures Convert(ts[c], cols[c]) == Ok(FieldColumn(vs, c)) {
        }
      }
    }
    hide Convert, ConvertColumns;
    if (forall i | 0 <= i < |es| :: if es[i].None? then vs[i].Nil? else vs[i].Row?)
       && forall c | 0 <= c < |ts| :: Convert(ts[c], cols[c]) == Ok(FieldColumn(vs, c))
    {
      ColumnsToTrees(es, fields, vs);
    }
  }

  lemma TreesToColumns(es: seq<Option<string>>, vals: seq<seq<Tree>>, vs: seq<Tree>)
    requires (forall c | c in vals :: |c| == |es|) && RowTrees(es, vals) == vs
    requires forall v | v in vs && v.Row? :: |v.fields| == |vals|
    requires forall c | 0 <= c < |vals| :: forall i | 0 <= i < |es| && es[i].None? :: vals[c][i].Nil?
    ensures forall c | 0 <= c < |vals| :: vals[c] == FieldColumn(vs, c)
    ensures forall i | 0 <= i < |es| :: if es[i].None? then vs[i].Nil? else vs[i].Row?
  {
    forall c | 0 <= c < |vals| ensures vals[c] == FieldColumn(vs, c) {
      assert vals[c] in vals;
      forall i | 0 <= i < |es| ensures vals[c][i] == FieldColumn(vs, c)[i] {
        assert vs[i] == RowTrees(es, vals)[i];
      }
    }
  }

  lemma ColumnsToTrees(es: seq<Option<string>>, fields: seq<seq<Tree>>, vs: seq<Tree>)
    requires |vs| == |es| && (forall c | c in fields :: |c| == |es|) && forall v | v in vs && v.Row? :: |v.fields| == |fields|
    requires forall c | 0 <= c < |fields| :: fields[c] == FieldColumn(vs, c)
    requires forall i | 0 <= i < |es| :: if es[i].None? then vs[i].Nil? else vs[i].Row?
    ensures RowTrees(es, fields) == vs
  {
    forall i | 0 <= i < |es| ensures RowTrees(es, fields)[i] == vs[i] {
      assert vs[i] in vs;
      if es[i].Some? {
        assert vs[i].fields == seq(|fields|, c requires 0 <= c < |fields| => fields[c][i]);
      }
    }
  }

  /** NULLs are converted to NULLs, and nothing else is. */
  lemma {:induction false} ConvertedNulls(t: Shape, es: seq<Option<string>>, vs: seq<Tree>)
    requires Convert(t, es) == Ok(vs)
    ensures |vs| == |es| && forall i | 0 <= i < |es| :: es[i].None? <==> vs[i].Nil?
  {
    hide Parse;
  }
}
