/** hstore values (src/postgres_hstore.cpp): parsed from their text form, looked up,
    and turned into JSON. */
module Hstore {
  import opened Wrappers
  import opened Characters
  import opened ArrayLiteral

  datatype Pair = Pair(key: string, value: Option<string>)

  // ------------------------------------------------------------------- parsing

  function SkipWhitespace(s: string): (r: string)
    ensures |r| <= |s| && (r != "" ==> !IsSpace(r[0]))
  {
    if s != "" && IsSpace(s[0]) then SkipWhitespace(s[1..]) else s
  }

  predicate IsNullLiteral(s: string) {
    && |s| == 4
    && (s[0] == 'n' || s[0] == 'N') && (s[1] == 'u' || s[1] == 'U')
    && (s[2] == 'l' || s[2] == 'L') && (s[3] == 'l' || s[3] == 'L')
  }

  /** Behind an opening quote: the text so far, up to the closing one. */
  function Quoted(s: string, text: string): (r: Result<(string, string)>)
    ensures r.Ok? ==> |r.value.1| < |s|
    decreases |s|
  {
    if s == "" then Err(BadFormat)
    else if s[0] == '"' then Ok((text, s[1..]))
    else if s[0] == '\\' then if |s| == 1 then Err(BadFormat) else Quoted(s[2..], text + [s[1]])
    else Quoted(s[1..], text + [s[0]])
  }

  function Unquoted(s: string, terminator: char, text: string): (r: Result<(string, string)>)
    ensures r.Ok? ==> |r.value.1| <= |s|
    decreases |s|
  {
    if s == "" || IsSpace(s[0]) || s[0] == terminator then Ok((text, s))
    else if s[0] == '\\' then if |s| == 1 then Err(BadFormat) else Unquoted(s[2..], terminator, text + [s[1]])
    else Unquoted(s[1..], terminator, text + [s[0]])
  }

  /** ReadToken: a key, or a value that may be NULL, and the text behind it. */
  function ReadToken(s: string, isKey: bool): (r: Result<(Option<string>, string)>)
    ensures r.Ok? ==> |r.value.1| <= |s|
    ensures r.Ok? && isKey && SkipWhitespace(s) != "" ==> r.value.0.Some?
  {
    var t := SkipWhitespace(s);
    if t == "" then Ok((None, ""))
    else if t[0] == '"' then
      var (x, rest) :- Quoted(t[1..], "");
      Ok((Some(x), rest))
    else
      var (x, rest) :- Unquoted(t, if isKey then '=' else ',', "");
      if isKey && x == "" then Err(BadFormat)
      else Ok((if !isKey && IsNullLiteral(x) then None else Some(x), rest))
  }

  function ExpectArrow(s: string): (r: Result<string>)
    ensures r.Ok? ==> |r.value| + 2 <= |s|
  {
    var t := SkipWhitespace(s);
    if |t| < 2 || t[0] != '=' || t[1] != '>' then Err(BadFormat) else Ok(t[2..])
  }

  /** One pair, and the text behind it. */
  function ReadPair(s: string): (r: Result<(Pair, string)>)
    requires s != "" && !IsSpace(s[0])
    ensures r.Ok? ==> |r.value.1| < |s|
  {
    var (key, r1) :- ReadToken(s, true);
    var r2 :- ExpectArrow(r1);
    var (value, r3) :- ReadToken(r2, false);
    Ok((Pair(key.value, value), SkipWhitespace(r3)))
  }

  /** The loop of ParseHstore. */
  function Pairs(s: string): Result<seq<Pair>>
    requires s != "" ==> !IsSpace(s[0])
    decreases |s|
  {
    if s == "" then Ok([])
    else
      var (p, rest) :- ReadPair(s);
      if rest == "" then Ok([p])
      else if rest[0] != ',' then Err(BadFormat)
      else
        var more :- Pairs(SkipWhitespace(rest[1..]));
        Ok([p] + more)
  }

  function Parse(s: string): Result<seq<Pair>> {
    Pairs(SkipWhitespace(s))
  }

  method Skip(input: string, pos: nat) returns (p: nat)
    requires pos <= |input|
    ensures pos <= p <= |input| && input[p..] == SkipWhitespace(input[pos..])
  {
    p := pos;
    while p < |input| && IsSpace(input[p])
      invariant pos <= p <= |input| && SkipWhitespace(input[p..]) == SkipWhitespace(input[pos..])
    {
      assert input[p..][1..] == input[p + 1..];
      p := p + 1;
    }
  }

  method ReadQuoted(input: string, pos: nat) returns (r: Result<string>, p: nat)
    requires pos <= |input|
    ensures pos <= p <= |input|
    ensures var want := Quoted(input[pos..], "");
            if want.Ok? then r == Ok(want.value.0) && input[p..] == want.value.1 else r == Err(want.error)
  {
    var result := "";
    p := pos;
    while p < |input|
      invariant pos <= p <= |input| && Quoted(input[p..], result) == Quoted(input[pos..], "")
    {
      var c := input[p];
      assert input[p..][1..] == input[p + 1..];
      p := p + 1;
      if c == '"' {
        return Ok(result), p;
      }
      if c == '\\' {
        if p >= |input| {
          break;
        }
        assert input[p - 1..][2..] == input[p + 1..];
        result := result + [input[p]];
        p := p + 1;
      } else {
        result := result + [c];
      }
    }
    r := Err(BadFormat);
  }

  method ReadUnquoted(input: string, pos: nat, terminator: char) returns (r: Result<string>, p: nat)
    requires pos <= |input|
    ensures pos <= p <= |input|
    ensures var want := Unquoted(input[pos..], terminator, "");
            if want.Ok? then r == Ok(want.value.0) && input[p..] == want.value.1 else r == Err(want.error)
  {
    var result := "";
    p := pos;
    while p < |input|
      invariant pos <= p <= |input| && Unquoted(input[p..], terminator, result) == Unquoted(input[pos..], terminator, "")
    {
      var c := input[p];
      if IsSpace(c) || c == terminator {
        break;
      }
      assert input[p..][1..] == input[p + 1..];
      if c == '\\' {
        if p + 1 >= |input| {
          return Err(BadFormat), p;
        }
        assert input[p..][2..] == input[p + 2..];
        p := p + 1;
        result := result + [input[p]];
      } else {
        result := result + [c];
      }
      p := p + 1;
    }
    r := Ok(result);
  }

  method ReadTokenAt(input: string, pos: nat, isKey: bool) returns (r: Result<Option<string>>, p: nat)
    requires pos <= |input|
    ensures pos <= p <= |input|
    ensures var want := ReadToken(input[pos..], isKey);
            if want.Ok? then r == Ok(want.value.0) && input[p..] == want.value.1 else r == Err(want.error)
  {
    p := Skip(input, pos);
    if p >= |input| {
      return Ok(None), p;
    }
    hide Quoted, Unquoted, SkipWhitespace, IsNullLiteral;
    var t;
    if input[p] == '"' {
      assert input[p..][1..] == input[p + 1..];
      t, p := ReadQuoted(input, p + 1);
      r := if t.Ok? then Ok(Some(t.value)) else Err(t.error);
      return;
    }
    t, p := ReadUnquoted(input, p, if isKey then '=' else ',');
    if t.Err? {
      return Err(t.error), p;
    }
    if isKey && t.value == "" {
      return Err(BadFormat), p;
    }
    r := Ok(if !isKey && IsNullLiteral(t.value) then None else Some(t.value));
  }

  method ExpectArrowAt(input: string, pos: nat) returns (o: Outcome, p: nat)
    requires pos <= |input|
    ensures pos <= p <= |input|
    ensures var want := ExpectArrow(input[pos..]);
            if want.Ok? then o == Pass && input[p..] == want.value else o == Fail(want.error)
  {
    p := Skip(input, pos);
    if p + 1 >= |input| || input[p] != '=' || input[p + 1] != '>' {
      return Fail(BadFormat), p;
    }
    assert input[p..][2..] == input[p + 2..];
    p := p + 2;
    o := Pass;
  }

  /** ParseHstore. */
  method ParseHstore(input: string) returns (r: Result<seq<Pair>>)
    ensures r == Parse(input)
  {
    hide ReadToken, ExpectArrow, SkipWhitespace;
    var pairs: seq<Pair> := [];
    assert input[0..] == input;
    var pos := Skip(input, 0);
    ghost var all := Pairs(SkipWhitespace(input));
    assert all.Ok? ==> [] + all.value == all.value;
    while pos < |input|
      invariant pos <= |input| && (pos < |input| ==> !IsSpace(input[pos]))
      invariant all == Before(pairs, Pairs(input[pos..]))
      decreases |input| - pos
    {
      PairsStep(input[pos..]);
      ghost var start := pos;
      var key, value, o;
      key, pos := ReadTokenAt(input, pos, true);
      if key.Err? {
        return Err(key.error);
      }
      o, pos := ExpectArrowAt(input, pos);
      if o.Fail? {
        return Err(o.error);
      }
      value, pos := ReadTokenAt(input, pos, false);
      if value.Err? {
        return Err(value.error);
      }
      ghost var before := pairs;
      var p := Pair(key.value.value, value.value);
      pairs := pairs + [p];
      pos := Skip(input, pos);
      assert ReadPair(input[start..]) == Ok((p, input[pos..]));
      if pos >= |input| {
        return Ok(pairs);
      }
      if input[pos] != ',' {
        return Err(BadFormat);
      }
      assert input[pos..][1..] == input[pos + 1..];
      pos := Skip(input, pos + 1);
      BeforeBefore(before, p, Pairs(input[pos..]));
    }
    assert pairs + [] == pairs;
    r := Ok(pairs);
  }

  lemma BeforeBefore(pairs: seq<Pair>, p: Pair, rest: Result<seq<Pair>>)
    ensures Before(pairs, Before([p], rest)) == Before(pairs + [p], rest)
  {
    assert rest.Ok? ==> pairs + ([p] + rest.value) == pairs + [p] + rest.value;
  }

  function Before(pairs: seq<Pair>, rest: Result<seq<Pair>>): Result<seq<Pair>> {
    match rest case Ok(more) => Ok(pairs + more) case Err(e) => Err(e)
  }

  lemma PairsStep(s: string)
    requires s != "" && !IsSpace(s[0])
    ensures SkipWhitespace(s) == s
    ensures ReadPair(s).Err? ==> Pairs(s) == Err(ReadPair(s).error)
    ensures ReadPair(s).Ok? ==>
            var (p, rest) := ReadPair(s).value;
            Pairs(s) == if rest == "" then Ok([p]) else if rest[0] != ',' then Err(BadFormat)
                        else Before([p], Pairs(SkipWhitespace(rest[1..])))
  {
    hide ReadPair;
  }

  // ---------------------------------------------------------- the canonical form

  /** hstore's own output form. */
  function Canonical(p: Pair): string {
    "\"" + Escape(p.key) + "\"=>" + if p.value.None? then "NULL" else "\"" + Escape(p.value.value) + "\""
  }

  function CanonicalText(ps: seq<Pair>): string {
    if ps == [] then "" else if |ps| == 1 then Canonical(ps[0]) else Canonical(ps[0]) + ", " + CanonicalText(ps[1..])
  }

  lemma {:induction false} QuotedEscaped(x: string, tail: string, text: string)
    ensures Quoted(Escape(x) + "\"" + tail, text) == Ok((text + x, tail))
    decreases |x|
  {
    var s := Escape(x) + "\"" + tail;
    if x == "" {
      assert s == "\"" + tail && s[1..] == tail && text + x == text;
    } else {
      var rest := Escape(x[1..]) + "\"" + tail;
      QuotedEscaped(x[1..], tail, text + [x[0]]);
      assert text + [x[0]] + x[1..] == text + x;
      if x[0] == '"' || x[0] == '\\' {
        assert s == ['\\', x[0]] + rest && s[2..] == rest;
      } else {
        assert s == [x[0]] + rest && s[1..] == rest;
      }
    }
  }

  lemma QuotedToken(x: string, tail: string, isKey: bool)
    ensures ReadToken("\"" + Escape(x) + "\"" + tail, isKey) == Ok((Some(x), tail))
  {
    var s := "\"" + Escape(x) + "\"" + tail;
    assert s[0] == '"' && s[1..] == Escape(x) + "\"" + tail && "" + x == x;
    QuotedEscaped(x, tail, "");
    hide Quoted;
  }

  /** Where a value may end: the end of the text or a comma. */
  predicate Ends(tail: string) {
    tail == "" || tail[0] == ','
  }

  lemma NullToken(tail: string)
    requires Ends(tail)
    ensures ReadToken("NULL" + tail, false) == Ok((None, tail))
  {
    var s := "NULL" + tail;
    assert s[0] == 'N' && s[1] == 'U' && s[2] == 'L' && s[3] == 'L' && s[4..] == tail;
    assert s[1..][1..] == s[2..] && s[2..][1..] == s[3..] && s[3..][1..] == s[4..];
    var t := s[1..];
    assert t[0] == 'U' && s[2..][0] == 'L' && s[3..][0] == 'L';
    assert Unquoted(s[4..], ',', "NULL") == Ok(("NULL", tail));
    assert "NUL" + ['L'] == "NULL" && "NU" + ['L'] == "NUL" && "N" + ['U'] == "NU" && "" + ['N'] == "N";
    assert Unquoted(s[3..], ',', "NUL") == Ok(("NULL", tail));
    assert Unquoted(s[2..], ',', "NU") == Ok(("NULL", tail));
    assert Unquoted(s[1..], ',', "N") == Ok(("NULL", tail));
  }

  lemma ArrowThen(tail: string)
    ensures ExpectArrow("=>" + tail) == Ok(tail)
  {
    var s := "=>" + tail;
    assert s[0] == '=' && s[1] == '>' && s[2..] == tail;
  }

  lemma CanonicalPair(p: Pair, tail: string)
    requires Ends(tail)
    ensures var s := Canonical(p) + tail;
            s != "" && s[0] == '"' && ReadPair(s) == Ok((p, tail))
  {
    hide ReadToken, Escape, ExpectArrow, SkipWhitespace;
    var s := Canonical(p) + tail;
    var value := if p.value.None? then "NULL" else "\"" + Escape(p.value.value) + "\"";
    assert s == "\"" + Escape(p.key) + "\"" + ("=>" + (value + tail)) && s[0] == '"';
    QuotedToken(p.key, "=>" + (value + tail), true);
    ArrowThen(value + tail);
    if p.value.None? {
      NullToken(tail);
    } else {
      QuotedToken(p.value.value, tail, false);
    }
    NoSkip(tail);
  }

  lemma NoSkip(s: string)
    requires s == "" || !IsSpace(s[0])
    ensures SkipWhitespace(s) == s && SkipWhitespace(" " + s) == s
  {
    assert (" " + s)[1..] == s;
  }

  lemma {:induction false} CanonicalPairs(ps: seq<Pair>)
    ensures var s := CanonicalText(ps);
            (s != "" ==> s[0] == '"') && Pairs(s) == Ok(ps)
    decreases |ps|
  {
    hide ReadPair, Canonical, Pairs, SkipWhitespace;
    NoPairs();
    if ps == [] {
    } else {
      var s, rest := CanonicalText(ps), CanonicalText(ps[1..]);
      CanonicalPairs(ps[1..]);
      if |ps| == 1 {
        CanonicalPair(ps[0], "");
        assert Canonical(ps[0]) + "" == s && ps == [ps[0]];
      } else {
        var tail := ", " + rest;
        CanonicalPair(ps[0], tail);
        assert s == Canonical(ps[0]) + tail && tail[0] == ',' && tail[1..] == " " + rest;
        NoSkip(rest);
        assert [ps[0]] + ps[1..] == ps;
      }
      PairsStep(s);
    }
  }

  lemma NoPairs()
    ensures Pairs("") == Ok([])
  {
  }

  /** Main result on parsing: the canonical form of any list of pairs parses back to it. */
  lemma HstoreRoundTrip(ps: seq<Pair>)
    ensures Parse(CanonicalText(ps)) == Ok(ps)
  {
    CanonicalPairs(ps);
    NoSkip(CanonicalText(ps));
  }

  // -------------------------------------------------------------------- lookup

  /** postgres_hstore_get: the last binding of the key decides. */
  method Get(hstore: string, key: string) returns (r: Result<Option<string>>)
    ensures Parse(hstore).Err? ==> r == Err(Parse(hstore).error)
    ensures Parse(hstore).Ok? ==>
            var ps := Parse(hstore).value;
            r.Ok? &&
            if forall i | 0 <= i < |ps| :: ps[i].key != key then r.value == None
            else exists i | 0 <= i < |ps| :: ps[i].key == key && r.value == ps[i].value && forall j | i < j < |ps| :: ps[j].key != key
  {
    hide Parse;
    var pairs := ParseHstore(hstore);
    if pairs.Err? {
      return Err(pairs.error);
    }
    var ps := pairs.value;
    var i := |ps|;
    while i > 0
      invariant 0 <= i <= |ps| && forall j | i <= j < |ps| :: ps[j].key != key
    {
      i := i - 1;
      if ps[i].key == key {
        return Ok(ps[i].value);
      }
    }
    r := Ok(None);
  }
}
