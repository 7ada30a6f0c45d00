/** Every text that is read as an hstore value, and what it means: the syntax of hstore
    (section F.17.1 of the PostgreSQL manual), as far as ParseHstore reads it. */
module HstoreSyntax {
  import opened Wrappers
  import opened Characters
  import opened Hstore

  // -------------------------------------------------------------------- renderings

  /** A character of a token, with or without a backslash in front. */
  datatype Letter = Letter(c: char, escaped: bool)

  datatype Token = Token(letters: seq<Letter>, quoted: bool)

  /** A key, an arrow and a value with the white space around them. */
  datatype Entry = Entry(front: string, key: Token, beforeArrow: string, behindArrow: string, value: Option<Token>, behind: string)

  datatype Rendering =
    | Nothing(gap: string)
    | Last(entry: Entry)
    | More(entry: Entry, rest: Rendering)

  function Written(ls: seq<Letter>): string {
    if ls == [] then "" else (if ls[0].escaped then ['\\', ls[0].c] else [ls[0].c]) + Written(ls[1..])
  }

  function Letters(ls: seq<Letter>): string {
    if ls == [] then "" else [ls[0].c] + Letters(ls[1..])
  }

  function TokenText(t: Token): string {
    if t.quoted then "\"" + Written(t.letters) + "\"" else Written(t.letters)
  }

  function ValueText(v: Option<Token>): string {
    if v.None? then "" else TokenText(v.value)
  }

  function EntryTail(e: Entry): string {
    e.beforeArrow + ("=>" + (e.behindArrow + (ValueText(e.value) + e.behind)))
  }

  function EntryText(e: Entry): string {
    e.front + (TokenText(e.key) + EntryTail(e))
  }

  function Text(r: Rendering): string {
    match r
    case Nothing(gap) => gap
    case Last(e) => EntryText(e)
    case More(e, rest) => EntryText(e) + ("," + Text(rest))
  }

  predicate Gap(s: string) {
    forall c | c in s :: IsSpace(c)
  }

  /** In quotes, quotes and backslashes are escaped; a bare token escapes white space,
      its terminator, backslashes and a quote in front. */
  predicate TokenOk(t: Token, terminator: char) {
    if t.quoted then
      forall l | l in t.letters :: !l.escaped ==> l.c != '"' && l.c != '\\'
    else
      && (forall l | l in t.letters :: !l.escaped ==> !IsSpace(l.c) && l.c != terminator && l.c != '\\')
      && (t.letters != [] && !t.letters[0].escaped ==> t.letters[0].c != '"')
  }

  /** A bare key is not empty, and neither is a bare value, unless a comma is behind it.
      At the end of the text a value may be missing. */
  predicate EntryOk(e: Entry, last: bool) {
    && Gap(e.front) && Gap(e.beforeArrow) && Gap(e.behindArrow) && Gap(e.behind)
    && TokenOk(e.key, '=') && (e.key.letters == [] ==> e.key.quoted)
    && if e.value.None? then last
       else TokenOk(e.value.value, ',') && (last && e.value.value.letters == [] ==> e.value.value.quoted)
  }

  predicate Legal(r: Rendering) {
    match r
    case Nothing(gap) => Gap(gap)
    case Last(e) => EntryOk(e, true)
    case More(e, rest) => EntryOk(e, false) && Legal(rest)
  }

  /** A missing value and the bare word null in any case of its letters are NULL. */
  function ValueOf(v: Option<Token>): Option<string> {
    if v.None? || (!v.value.quoted && SameLetters(Letters(v.value.letters), "null")) then None
    else Some(Letters(v.value.letters))
  }

  function PairOf(e: Entry): Pair {
    Pair(Letters(e.key.letters), ValueOf(e.value))
  }

  function Meaning(r: Rendering): seq<Pair> {
    match r
    case Nothing(_) => []
    case Last(e) => [PairOf(e)]
    case More(e, rest) => [PairOf(e)] + Meaning(rest)
  }

  // -------------------------------------------------- a rendering is read as its pairs

  lemma {:induction false} GapSkipped(gap: string, s: string)
    requires Gap(gap)
    ensures SkipWhitespace(gap + s) == SkipWhitespace(s)
    decreases |gap|
  {
    if gap == "" {
      assert gap + s == s;
    } else {
      assert gap[0] in gap && (gap + s)[0] == gap[0] && (gap + s)[1..] == gap[1..] + s;
      GapSkipped(gap[1..], s);
    }
  }

  lemma WrittenHead(ls: seq<Letter>, tail: string)
    requires ls != []
    ensures Written(ls) + tail == (if ls[0].escaped then ['\\', ls[0].c] else [ls[0].c]) + (Written(ls[1..]) + tail)
    ensures Letters(ls) == [ls[0].c] + Letters(ls[1..]) && ls == [ls[0]] + ls[1..]
  {
  }

  lemma {:induction false} QuotedRead(ls: seq<Letter>, tail: string, text: string)
    requires TokenOk(Token(ls, true), ',')
    ensures Quoted(Written(ls) + ("\"" + tail), text) == Ok((text + Letters(ls), tail))
    decreases |ls|
  {
    var s := Written(ls) + ("\"" + tail);
    if ls == [] {
      assert s == "\"" + tail && s[1..] == tail && text + "" == text;
    } else {
      var rest := Written(ls[1..]) + ("\"" + tail);
      WrittenHead(ls, "\"" + tail);
      assert ls[0] in ls && forall l | l in ls[1..] :: l in ls;
      QuotedRead(ls[1..], tail, text + [ls[0].c]);
      assert text + [ls[0].c] + Letters(ls[1..]) == text + ([ls[0].c] + Letters(ls[1..]));
      hide Written, Letters;
      assert if ls[0].escaped then s[2..] == rest else s[1..] == rest;
    }
  }

  lemma {:induction false} BareRead(ls: seq<Letter>, terminator: char, tail: string, text: string)
    requires forall l | l in ls :: !l.escaped ==> !IsSpace(l.c) && l.c != terminator && l.c != '\\'
    requires tail == "" || IsSpace(tail[0]) || tail[0] == terminator
    requires terminator != '\\'
    ensures Unquoted(Written(ls) + tail, terminator, text) == Ok((text + Letters(ls), tail))
    decreases |ls|
  {
    var s := Written(ls) + tail;
    if ls == [] {
      assert s == tail && text + "" == text;
    } else {
      var rest := Written(ls[1..]) + tail;
      WrittenHead(ls, tail);
      assert ls[0] in ls && forall l | l in ls[1..] :: l in ls;
      BareRead(ls[1..], terminator, tail, text + [ls[0].c]);
      assert text + [ls[0].c] + Letters(ls[1..]) == text + ([ls[0].c] + Letters(ls[1..]));
      hide Written, Letters;
      assert if ls[0].escaped then s[2..] == rest else s[1..] == rest;
    }
  }

  lemma NullWord(x: string)
    ensures IsNullLiteral(x) <==> SameLetters(x, "null")
  {
    assert "null"[0] == 'n' && "null"[1] == 'u' && "null"[2] == 'l' && "null"[3] == 'l';
    assert Lower('n') == 'n' && Lower('u') == 'u' && Lower('l') == 'l';
    if |x| == 4 {
      assert Lower(x[0]) == 'n' <==> x[0] == 'n' || x[0] == 'N';
      assert Lower(x[1]) == 'u' <==> x[1] == 'u' || x[1] == 'U';
      assert Lower(x[2]) == 'l' <==> x[2] == 'l' || x[2] == 'L';
      assert Lower(x[3]) == 'l' <==> x[3] == 'l' || x[3] == 'L';
    }
  }

  /** What a token is read as. */
  function TokenValue(t: Token, isKey: bool): Option<string> {
    if !isKey && !t.quoted && SameLetters(Letters(t.letters), "null") then None else Some(Letters(t.letters))
  }

  lemma TokenStarts(t: Token, terminator: char, tail: string)
    requires TokenOk(t, terminator) && (t.letters != [] || t.quoted)
    ensures var s := TokenText(t) + tail; s != "" && !IsSpace(s[0]) && (s[0] == '"' <==> t.quoted)
  {
    if !t.quoted {
      WrittenHead(t.letters, tail);
      assert t.letters[0] in t.letters;
    }
  }

  lemma TokenRead(t: Token, isKey: bool, gap: string, tail: string)
    requires TokenOk(t, if isKey then '=' else ',') && Gap(gap)
    requires t.letters != [] || t.quoted
    requires t.quoted || tail == "" || IsSpace(tail[0]) || tail[0] == if isKey then '=' else ','
    ensures ReadToken(gap + (TokenText(t) + tail), isKey) == Ok((TokenValue(t, isKey), tail))
  {
    var s := TokenText(t) + tail;
    GapSkipped(gap, s);
    TokenStarts(t, if isKey then '=' else ',', tail);
    NullWord(Letters(t.letters));
    assert SkipWhitespace(s) == s;
    assert "" + Letters(t.letters) == Letters(t.letters);
    if t.quoted {
      QuotedRead(t.letters, tail, "");
      assert s == "\"" + (Written(t.letters) + ("\"" + tail)) && s[1..] == Written(t.letters) + ("\"" + tail);
    } else {
      BareRead(t.letters, if isKey then '=' else ',', tail, "");
      WrittenHead(t.letters, tail);
    }
  }

  /** Where a value may end: behind it, only white space up to a comma or the end. */
  predicate ValueEnds(tail: string) {
    var t := SkipWhitespace(tail);
    t == "" || t[0] == ','
  }

  lemma SkippedOnce(s: string)
    ensures SkipWhitespace(SkipWhitespace(s)) == SkipWhitespace(s)
  {
  }

  /** A missing value, and an empty one in front of a comma. */
  lemma NoLetters(gap: string, tail: string)
    requires Gap(gap) && ValueEnds(tail)
    ensures ReadToken(gap + tail, false) == Ok((if SkipWhitespace(tail) == "" then None else Some(""), SkipWhitespace(tail)))
  {
    GapSkipped(gap, tail);
  }

  lemma ValueRead(v: Option<Token>, gap: string, tail: string)
    requires Gap(gap) && ValueEnds(tail)
    requires v.None? ==> SkipWhitespace(tail) == ""
    requires v.Some? ==> TokenOk(v.value, ',') && (v.value.letters != [] || v.value.quoted || SkipWhitespace(tail) != "")
    ensures var r := ReadToken(gap + (ValueText(v) + tail), false);
            r.Ok? && r.value.0 == ValueOf(v) && SkipWhitespace(r.value.1) == SkipWhitespace(tail)
  {
    SkippedOnce(tail);
    if v.Some? && (v.value.letters != [] || v.value.quoted) {
      assert tail == "" || IsSpace(tail[0]) || tail[0] == ',';
      hide ReadToken, TokenOk, TokenText, SameLetters, Letters;
      TokenRead(v.value, false, gap, tail);
    } else {
      assert ValueText(v) + tail == tail;
      NoLetters(gap, tail);
    }
  }

  lemma ArrowRead(gap: string, tail: string)
    requires Gap(gap)
    ensures ExpectArrow(gap + ("=>" + tail)) == Ok(tail)
  {
    GapSkipped(gap, "=>" + tail);
    assert ("=>" + tail)[2..] == tail;
  }

  /** One entry and what is behind it. */
  lemma EntryRead(e: Entry, tail: string)
    requires EntryOk(e, tail == "") && (tail == "" || tail[0] == ',')
    ensures var s := SkipWhitespace(EntryText(e) + tail);
            s != "" && !IsSpace(s[0]) && ReadPair(s) == Ok((PairOf(e), tail))
  {
    var r3 := e.behind + tail;
    var r2 := e.behindArrow + (ValueText(e.value) + r3);
    var r1 := e.beforeArrow + ("=>" + r2);
    var s := TokenText(e.key) + r1;
    EntryRegrouped(e, tail);
    GapSkipped(e.front, s);
    GapSkipped(e.behind, tail);
    TokenStarts(e.key, '=', r1);
    assert r1[0] == '=' || IsSpace(r1[0]) by {
      assert e.beforeArrow != "" ==> e.beforeArrow[0] in e.beforeArrow;
    }
    assert "" + s == s;
    TailStays(tail);
    hide ReadToken, ExpectArrow, SkipWhitespace, TokenOk, TokenText, ValueText, ValueOf, EntryText, Letters, SameLetters;
    TokenRead(e.key, true, "", r1);
    ArrowRead(e.beforeArrow, r2);
    ValueRead(e.value, e.behindArrow, r3);
  }

  lemma TailStays(tail: string)
    requires tail == "" || tail[0] == ','
    ensures SkipWhitespace(tail) == tail
  {
  }

  lemma EntryRegrouped(e: Entry, tail: string)
    ensures EntryText(e) + tail ==
            e.front + (TokenText(e.key) + (e.beforeArrow + ("=>" + (e.behindArrow + (ValueText(e.value) + (e.behind + tail))))))
  {
    hide TokenText, ValueText;
    var a := ValueText(e.value) + e.behind;
    var b := "=>" + (e.behindArrow + a);
    assert a + tail == ValueText(e.value) + (e.behind + tail);
    assert b + tail == "=>" + (e.behindArrow + (a + tail));
    assert EntryTail(e) + tail == e.beforeArrow + (b + tail);
    assert EntryText(e) + tail == e.front + (TokenText(e.key) + (EntryTail(e) + tail));
  }

  lemma {:induction false} PairsRead(r: Rendering)
    requires Legal(r)
    ensures Pairs(SkipWhitespace(Text(r))) == Ok(Meaning(r))
    decreases r
  {
    hide ReadPair, EntryOk, EntryText, PairOf, SkipWhitespace;
    match r
    case Nothing(gap) =>
      GapSkipped(gap, "");
      assert gap + "" == gap && SkipWhitespace("") == "" by { TailStays(""); }
      NoPairs();
    case Last(e) =>
      EntryRead(e, "");
      assert EntryText(e) + "" == EntryText(e);
      PairsStep(SkipWhitespace(Text(r)));
    case More(e, rest) =>
      EntryRead(e, "," + Text(rest));
      PairsRead(rest);
      PairsStep(SkipWhitespace(Text(r)));
      assert ("," + Text(rest))[1..] == Text(rest);
  }

  // ------------------------------------------------ what is read is a rendering

  lemma {:induction false} SkipSplit(s: string) returns (gap: string)
    ensures Gap(gap) && s == gap + SkipWhitespace(s)
    decreases |s|
  {
    if s != "" && IsSpace(s[0]) {
      var more := SkipSplit(s[1..]);
      gap := [s[0]] + more;
      assert s == [s[0]] + s[1..];
    } else {
      gap := "";
      assert "" + s == s;
    }
  }

  lemma LetterInFront(l: Letter, more: seq<Letter>, tail: string, text: string)
    ensures Written([l] + more) + tail == (if l.escaped then ['\\', l.c] else [l.c]) + (Written(more) + tail)
    ensures text + Letters([l] + more) == text + [l.c] + Letters(more)
  {
    var ls := [l] + more;
    assert ls[1..] == more;
    WrittenHead(ls, tail);
    hide Written, Letters;
    assert text + ([l.c] + Letters(more)) == text + [l.c] + Letters(more);
  }

  lemma {:induction false} QuotedWritten(s: string, text: string) returns (ls: seq<Letter>)
    requires Quoted(s, text).Ok?
    ensures forall l | l in ls :: !l.escaped ==> l.c != '"' && l.c != '\\'
    ensures var (x, tail) := Quoted(s, text).value; s == Written(ls) + ("\"" + tail) && x == text + Letters(ls)
    decreases |s|
  {
    ghost var tail := "\"" + Quoted(s, text).value.1;
    if s[0] == '"' {
      ls := [];
      assert s == "" + ("\"" + s[1..]) && text + "" == text;
    } else if s[0] == '\\' {
      var l := Letter(s[1], true);
      var more := QuotedWritten(s[2..], text + [s[1]]);
      ls := [l] + more;
      LetterInFront(l, more, tail, text);
      assert s == ['\\', s[1]] + s[2..];
    } else {
      var l := Letter(s[0], false);
      var more := QuotedWritten(s[1..], text + [s[0]]);
      ls := [l] + more;
      LetterInFront(l, more, tail, text);
      assert s == [s[0]] + s[1..];
    }
  }

  lemma {:induction false} BareWritten(s: string, terminator: char, text: string) returns (ls: seq<Letter>)
    requires Unquoted(s, terminator, text).Ok?
    ensures forall l | l in ls :: !l.escaped ==> !IsSpace(l.c) && l.c != terminator && l.c != '\\'
    ensures ls != [] && !ls[0].escaped ==> s != "" && ls[0].c == s[0]
    ensures var (x, tail) := Unquoted(s, terminator, text).value;
            && s == Written(ls) + tail && x == text + Letters(ls)
            && (tail == "" || IsSpace(tail[0]) || tail[0] == terminator)
    decreases |s|
  {
    ghost var tail := Unquoted(s, terminator, text).value.1;
    if s == "" || IsSpace(s[0]) || s[0] == terminator {
      ls := [];
      assert s == "" + s && text + "" == text;
    } else if s[0] == '\\' {
      var l := Letter(s[1], true);
      var more := BareWritten(s[2..], terminator, text + [s[1]]);
      ls := [l] + more;
      LetterInFront(l, more, tail, text);
      assert s == ['\\', s[1]] + s[2..];
    } else {
      var l := Letter(s[0], false);
      var more := BareWritten(s[1..], terminator, text + [s[0]]);
      ls := [l] + more;
      LetterInFront(l, more, tail, text);
      assert s == [s[0]] + s[1..];
    }
  }

  lemma TokenWritten(s: string, isKey: bool) returns (gap: string, t: Token)
    requires SkipWhitespace(s) != "" && ReadToken(s, isKey).Ok?
    ensures var (x, tail) := ReadToken(s, isKey).value;
            && s == gap + (TokenText(t) + tail) && x == TokenValue(t, isKey)
            && (t.letters == [] && !t.quoted ==> !isKey && tail != "" && SkipWhitespace(tail) == tail)
    ensures Gap(gap) && TokenOk(t, if isKey then '=' else ',')
  {
    gap := SkipSplit(s);
    var word := SkipWhitespace(s);
    var tail := ReadToken(s, isKey).value.1;
    var ls;
    if word[0] == '"' {
      ls := QuotedWritten(word[1..], "");
      assert word == "\"" + word[1..];
      hide Quoted, SkipWhitespace;
      assert "\"" + (Written(ls) + ("\"" + tail)) == "\"" + Written(ls) + "\"" + tail;
    } else {
      ls := BareWritten(word, if isKey then '=' else ',', "");
      SkippedOnce(s);
      assert ls == [] ==> "" + tail == tail;
    }
    t := Token(ls, word[0] == '"');
    NullWord(Letters(ls));
    assert "" + Letters(ls) == Letters(ls);
  }

  lemma ValueWritten(s: string) returns (gap: string, v: Option<Token>)
    requires ReadToken(s, false).Ok?
    ensures var (x, tail) := ReadToken(s, false).value;
            && s == gap + (ValueText(v) + tail) && x == ValueOf(v)
            && (v.None? ==> tail == "")
            && (v.Some? && v.value.letters == [] && !v.value.quoted ==> tail != "" && SkipWhitespace(tail) == tail)
    ensures Gap(gap) && (v.Some? ==> TokenOk(v.value, ','))
  {
    if SkipWhitespace(s) == "" {
      gap := SkipSplit(s);
      v := None;
      assert gap + "" == gap + ("" + "");
    } else {
      var t;
      gap, t := TokenWritten(s, false);
      v := Some(t);
    }
  }

  lemma ArrowWritten(s: string) returns (gap: string)
    requires ExpectArrow(s).Ok?
    ensures Gap(gap) && s == gap + ("=>" + ExpectArrow(s).value)
  {
    gap := SkipSplit(s);
    var t := SkipWhitespace(s);
    assert t == "=>" + t[2..];
  }

  lemma EntryWritten(s: string) returns (e: Entry)
    requires s != "" && !IsSpace(s[0]) && ReadPair(s).Ok?
    ensures var (p, rest) := ReadPair(s).value;
            s == EntryText(e) + rest && p == PairOf(e) && EntryOk(e, rest == "") && e.front == ""
  {
    var r1 := ReadToken(s, true).value.1;
    var r2 := ExpectArrow(r1).value;
    var r3 := ReadToken(r2, false).value.1;
    TailNotSpace(s);
    var front, key := TokenWritten(s, true);
    var beforeArrow := ArrowWritten(r1);
    var behindArrow, value := ValueWritten(r2);
    var behind := SkipSplit(r3);
    GapInFront(front, TokenText(key) + r1);
    e := Entry("", key, beforeArrow, behindArrow, value, behind);
    EntryRegrouped(e, SkipWhitespace(r3));
    assert SkipWhitespace("") == "";
  }

  lemma GapInFront(gap: string, s: string)
    requires Gap(gap)
    ensures gap != "" ==> IsSpace((gap + s)[0])
  {
    if gap != "" {
      assert gap[0] in gap;
    }
  }

  lemma TailNotSpace(s: string)
    requires s != "" && !IsSpace(s[0])
    ensures SkipWhitespace(s) == s
  {
  }

  function Fronted(gap: string, r: Rendering): Rendering {
    match r
    case Nothing(g) => Nothing(gap + g)
    case Last(e) => Last(e.(front := gap + e.front))
    case More(e, rest) => More(e.(front := gap + e.front), rest)
  }

  lemma FrontedText(gap: string, r: Rendering)
    requires Gap(gap) && Legal(r)
    ensures Legal(Fronted(gap, r)) && Text(Fronted(gap, r)) == gap + Text(r) && Meaning(Fronted(gap, r)) == Meaning(r)
  {
    match r
    case Nothing(g) =>
    case Last(e) =>
      EntryFronted(gap, e, true);
    case More(e, rest) =>
      EntryFronted(gap, e, false);
      hide EntryText, EntryOk;
      Regrouped(gap, EntryText(e), "," + Text(rest));
  }

  lemma EntryFronted(gap: string, e: Entry, last: bool)
    requires Gap(gap) && EntryOk(e, last)
    ensures var f := e.(front := gap + e.front);
            EntryText(f) == gap + EntryText(e) && EntryOk(f, last) && PairOf(f) == PairOf(e)
  {
    assert EntryTail(e.(front := gap + e.front)) == EntryTail(e);
    hide TokenText, EntryTail, TokenOk;
    Regrouped(gap, e.front, TokenText(e.key) + EntryTail(e));
  }

  lemma {:induction false} PairsWritten(s: string) returns (r: Rendering)
    requires s != "" ==> !IsSpace(s[0])
    requires Pairs(s).Ok?
    ensures Legal(r) && Text(r) == s && Meaning(r) == Pairs(s).value
    decreases |s|
  {
    hide ReadPair, EntryOk, EntryText, PairOf, SkipWhitespace;
    if s == "" {
      r := Nothing("");
    } else {
      PairsStep(s);
      var (p, rest) := ReadPair(s).value;
      var e := EntryWritten(s);
      if rest == "" {
        r := Last(e);
        assert EntryText(e) + "" == EntryText(e);
      } else {
        var gap := SkipSplit(rest[1..]);
        var more := PairsWritten(SkipWhitespace(rest[1..]));
        FrontedText(gap, more);
        r := More(e, Fronted(gap, more));
        assert rest == "," + rest[1..];
      }
    }
  }

  /** Main result on parsing: a text is read as a list of pairs exactly if it is a rendering
      of them. */
  lemma ReadAsRendered(s: string, ps: seq<Pair>)
    ensures Parse(s) == Ok(ps) <==> exists r :: Legal(r) && Text(r) == s && Meaning(r) == ps
  {
    if Parse(s) == Ok(ps) {
      var gap := SkipSplit(s);
      var r := PairsWritten(SkipWhitespace(s));
      FrontedText(gap, r);
      var f := Fronted(gap, r);
      assert Legal(f) && Text(f) == s && Meaning(f) == ps;
    }
    if r :| Legal(r) && Text(r) == s && Meaning(r) == ps {
      PairsRead(r);
    }
  }
}
