/** hstore values as JSON objects (src/postgres_hstore.cpp), and what a reader of
    RFC 8259 makes of them. */
module HstoreJson {
  import opened Wrappers
  import opened Characters
  import opened Hstore

  // ------------------------------------------------------------------- writing

  function JsonChar(c: char): string {
    if c == '"' then "\\\""
    else if c == '\\' then "\\\\"
    else if c == BS then "\\b"
    else if c == FF then "\\f"
    else if c == '\n' then "\\n"
    else if c == '\r' then "\\r"
    else if c == '\t' then "\\t"
    else if (c as int) < 0x20 then "\\u00" + [HexDigit(c as int / 16), HexDigit(c as int % 16)]
    else [c]
  }

  function JsonText(s: string): string {
    if s == "" then "" else JsonChar(s[0]) + JsonText(s[1..])
  }

  function JsonString(s: string): string {
    "\"" + JsonText(s) + "\""
  }

  function JsonValue(v: Option<string>): string {
    if v.None? then "null" else JsonString(v.value)
  }

  function JsonPair(p: Pair): string {
    JsonString(p.key) + ": " + JsonValue(p.value)
  }

  function JsonPairs(ps: seq<Pair>): string {
    if ps == [] then "" else if |ps| == 1 then JsonPair(ps[0]) else JsonPair(ps[0]) + ", " + JsonPairs(ps[1..])
  }

  function Json(ps: seq<Pair>): string {
    "{" + JsonPairs(ps) + "}"
  }

  /** JsonEscapeString appends to the output. */
  method JsonEscapeString(out: string, s: string) returns (r: string)
    ensures r == out + JsonString(s)
  {
    r := out + "\"";
    var c := 0;
    hide JsonChar;
    while c < |s|
      invariant 0 <= c <= |s| && r + JsonText(s[c..]) == out + "\"" + JsonText(s)
    {
      assert s[c..][1..] == s[c + 1..];
      r := r + JsonChar(s[c]);
      c := c + 1;
    }
    assert s[c..] == "" && r + "" == r;
    r := r + "\"";
    assert r == out + ("\"" + JsonText(s) + "\"");
  }

  /** postgres_hstore_to_json. */
  method ToJson(hstore: string) returns (r: Result<string>)
    ensures Parse(hstore).Err? ==> r == Err(Parse(hstore).error)
    ensures Parse(hstore).Ok? ==> r == Ok(Json(Parse(hstore).value))
  {
    hide Parse;
    var pairs := ParseHstore(hstore);
    if pairs.Err? {
      return Err(pairs.error);
    }
    var ps := pairs.value;
    ghost var whole := "{" + JsonPairs(ps);
    MembersStart(ps);
    hide JsonPair, Members;
    var json, i, first := "{", 0, true;
    while i < |ps|
      invariant 0 <= i <= |ps| && first == (i == 0) && Members(whole, json, ps, i)
    {
      MembersStep(whole, json, ps, i);
      if !first {
        json := json + ", ";
      } else {
        assert json + "" == json;
      }
      first := false;
      json := WritePair(json, ps[i]);
      i := i + 1;
    }
    MembersEnd(whole, json, ps);
    r := Ok(json + "}");
  }

  /** The first i members are written, the others still to come. */
  predicate Members(whole: string, json: string, ps: seq<Pair>, i: nat)
    requires i <= |ps|
  {
    whole == json + (if 0 < i < |ps| then ", " else "") + JsonPairs(ps[i..])
  }

  lemma MembersStart(ps: seq<Pair>)
    ensures Members("{" + JsonPairs(ps), "{", ps, 0)
  {
    assert ps[0..] == ps && "{" + "" == "{";
  }

  lemma MembersStep(whole: string, json: string, ps: seq<Pair>, i: nat)
    requires i < |ps| && Members(whole, json, ps, i)
    ensures Members(whole, json + (if i > 0 then ", " else "") + JsonPair(ps[i]), ps, i + 1)
  {
    hide JsonPair;
    assert ps[i..][1..] == ps[i + 1..];
    assert i + 1 == |ps| ==> ps[i + 1..] == [];
  }

  lemma MembersEnd(whole: string, json: string, ps: seq<Pair>)
    requires Members(whole, json, ps, |ps|)
    ensures whole == json
  {
    assert ps[|ps|..] == [];
  }

  /** One member of the object. */
  method WritePair(json: string, p: Pair) returns (r: string)
    ensures r == json + JsonPair(p)
  {
    r := JsonEscapeString(json, p.key);
    r := r + ": ";
    if p.value.Some? {
      r := JsonEscapeString(r, p.value.value);
    } else {
      r := r + "null";
    }
    hide JsonString;
    assert r == json + (JsonString(p.key) + ": " + JsonValue(p.value));
  }

  // ------------------------------------------------- JSON, read back (RFC 8259)

  function JsonSpace(s: string): (r: string)
    ensures |r| <= |s|
  {
    if s != "" && (s[0] == ' ' || s[0] == '\t' || s[0] == '\n' || s[0] == '\r') then JsonSpace(s[1..]) else s
  }

  /** The character of a \u escape, if it is one by itself. */
  function CodePoint(a: char, b: char, c: char, d: char): Option<char> {
    if !(IsHex(a) && IsHex(b) && IsHex(c) && IsHex(d)) then None
    else
      var n := ((HexValue(a) * 16 + HexValue(b)) * 16 + HexValue(c)) * 16 + HexValue(d);
      if 0xD800 <= n < 0xE000 then None else Some(n as char)
  }

  /** A JSON string behind its opening quote (RFC 8259 section 7): control characters
      must be escaped. */
  function ReadJsonText(s: string): (r: Result<(string, string)>)
    ensures r.Ok? ==> |r.value.1| < |s|
    decreases |s|
  {
    if s == "" then Err(BadFormat)
    else if s[0] == '"' then Ok(("", s[1..]))
    else if (s[0] as int) < 0x20 then Err(BadFormat)
    else if s[0] != '\\' then
      var (x, rest) :- ReadJsonText(s[1..]);
      Ok(([s[0]] + x, rest))
    else if |s| < 2 then Err(BadFormat)
    else if s[1] == 'u' then
      if |s| < 6 || CodePoint(s[2], s[3], s[4], s[5]).None? then Err(BadFormat)
      else
        var (x, rest) :- ReadJsonText(s[6..]);
        Ok(([CodePoint(s[2], s[3], s[4], s[5]).value] + x, rest))
    else if s[1] !in "\"\\/bfnrt" then Err(BadFormat)
    else
      var (x, rest) :- ReadJsonText(s[2..]);
      Ok(([JsonEscape(s[1])] + x, rest))
  }

  function JsonEscape(c: char): char {
    match c
    case 'b' => BS
    case 'f' => FF
    case 'n' => '\n'
    case 'r' => '\r'
    case 't' => '\t'
    case _ => c
  }

  /** A value: null or a string. */
  function ReadJsonValue(s: string): (r: Result<(Option<string>, string)>)
    ensures r.Ok? ==> |r.value.1| < |s|
  {
    if |s| >= 4 && s[..4] == "null" then Ok((None, s[4..]))
    else if s == "" || s[0] != '"' then Err(BadFormat)
    else
      var (x, rest) :- ReadJsonText(s[1..]);
      Ok((Some(x), rest))
  }

  /** One member: a string, a colon, and a value. */
  function ReadMember(s: string): (r: Result<(Pair, string)>)
    ensures r.Ok? ==> |r.value.1| < |s|
  {
    if s == "" || s[0] != '"' then Err(BadFormat)
    else
      var (key, r1) :- ReadJsonText(s[1..]);
      var r2 := JsonSpace(r1);
      if r2 == "" || r2[0] != ':' then Err(BadFormat)
      else
        var (value, r3) :- ReadJsonValue(JsonSpace(r2[1..]));
        Ok((Pair(key, value), JsonSpace(r3)))
  }

  /** The members of an object up to its closing brace. */
  function ReadMembers(s: string): Result<seq<Pair>>
    decreases |s|
  {
    var (p, rest) :- ReadMember(s);
    if rest == "}" then Ok([p])
    else if rest == "" || rest[0] != ',' then Err(BadFormat)
    else
      var more :- ReadMembers(JsonSpace(rest[1..]));
      Ok([p] + more)
  }

  /** An object of strings and nulls. */
  function ReadObject(s: string): Result<seq<Pair>> {
    if s == "" || s[0] != '{' then Err(BadFormat)
    else
      var t := JsonSpace(s[1..]);
      if t == "}" then Ok([]) else ReadMembers(t)
  }

  /** What one escaped character reads back as. */
  lemma JsonOne(c: char, rest: string)
    ensures ReadJsonText(JsonChar(c) + rest) ==
            match ReadJsonText(rest) case Ok(v) => Ok(([c] + v.0, v.1)) case Err(e) => Err(e)
  {
    var e := JsonChar(c);
    var s := e + rest;
    assert s[|e|..] == rest && s[0] == e[0];
    if |e| == 2 {
      assert s[1] == e[1];
    } else if |e| == 6 {
      assert s[1] == e[1] && s[2] == e[2] && s[3] == e[3] && s[4] == e[4] && s[5] == e[5];
      assert CodePoint(s[2], s[3], s[4], s[5]) == Some(c);
    }
  }

  lemma {:induction false} JsonTextReads(x: string, tail: string)
    ensures ReadJsonText(JsonText(x) + "\"" + tail) == Ok((x, tail))
    decreases |x|
  {
    hide ReadJsonText, JsonChar;
    var s := JsonText(x) + "\"" + tail;
    JsonEnds(tail);
    if x == "" {
      assert s == "\"" + tail;
    } else {
      var rest := JsonText(x[1..]) + "\"" + tail;
      JsonTextReads(x[1..], tail);
      JsonOne(x[0], rest);
      assert s == JsonChar(x[0]) + rest && [x[0]] + x[1..] == x;
    }
  }

  lemma JsonEnds(tail: string)
    ensures ReadJsonText("\"" + tail) == Ok(("", tail))
  {
    assert ("\"" + tail)[1..] == tail;
  }

  /** White space is what a text does not start with. */
  predicate Solid(s: string) {
    s != "" && s[0] != ' ' && s[0] != '\t' && s[0] != '\n' && s[0] != '\r'
  }

  lemma NoSpace(s: string)
    requires Solid(s)
    ensures JsonSpace(s) == s && JsonSpace(" " + s) == s
  {
    assert (" " + s)[1..] == s;
  }

  lemma ValueReads(v: Option<string>, tail: string)
    ensures Solid(JsonValue(v) + tail) && ReadJsonValue(JsonValue(v) + tail) == Ok((v, tail))
  {
    hide ReadJsonText, JsonText;
    var s := JsonValue(v) + tail;
    if v.None? {
      assert s[..4] == "null" && s[4..] == tail && s[0] == 'n';
    } else {
      JsonTextReads(v.value, tail);
      assert s == "\"" + (JsonText(v.value) + "\"" + tail) && s[0] == '"' && s[1..] == JsonText(v.value) + "\"" + tail;
      assert |s| >= 4 ==> s[..4][0] == '"';
    }
  }

  lemma MemberReads(p: Pair, tail: string)
    requires Solid(tail)
    ensures var s := JsonPair(p) + tail; s != "" && s[0] == '"' && ReadMember(s) == Ok((p, tail))
  {
    hide ReadJsonText, ReadJsonValue, JsonText, JsonSpace, JsonValue, Solid;
    var s, v := JsonPair(p) + tail, JsonValue(p.value) + tail;
    var r1 := ":" + (" " + v);
    assert s == "\"" + (JsonText(p.key) + "\"" + r1) && s[0] == '"' && s[1..] == JsonText(p.key) + "\"" + r1;
    JsonTextReads(p.key, r1);
    ColonSolid(r1);
    NoSpace(r1);
    assert r1[0] == ':' && r1[1..] == " " + v;
    ValueReads(p.value, tail);
    NoSpace(v);
    NoSpace(tail);
  }

  lemma ColonSolid(s: string)
    requires s != "" && s[0] in ":,}\""
    ensures Solid(s)
  {
  }

  lemma {:induction false} MembersRead(ps: seq<Pair>)
    requires ps != []
    ensures var s := JsonPairs(ps) + "}"; s != "" && s[0] == '"' && ReadMembers(s) == Ok(ps)
    decreases |ps|
  {
    hide JsonPair, ReadMember, JsonSpace, Solid;
    var s := JsonPairs(ps) + "}";
    if |ps| == 1 {
      ColonSolid("}");
      MemberReads(ps[0], "}");
      assert [ps[0]] == ps;
    } else {
      var rest := JsonPairs(ps[1..]) + "}";
      var tail := ", " + rest;
      assert s == JsonPair(ps[0]) + tail && tail[0] == ',' && tail[1..] == " " + rest;
      MembersRead(ps[1..]);
      ColonSolid(tail);
      MemberReads(ps[0], tail);
      ColonSolid(rest);
      NoSpace(rest);
      MemberThen(s, ps[0], tail);
      assert [ps[0]] + ps[1..] == ps;
    }
  }

  lemma MemberThen(s: string, p: Pair, tail: string)
    requires ReadMember(s) == Ok((p, tail)) && tail != "" && tail[0] == ',' && ReadMembers(JsonSpace(tail[1..])).Ok?
    ensures ReadMembers(s) == Ok([p] + ReadMembers(JsonSpace(tail[1..])).value)
  {
    hide ReadMember, JsonSpace;
  }

  /** Main result on JSON: decoding the object written for any pairs gives the same
      pairs in the same order, duplicates and NULLs included. */
  lemma JsonRoundTrip(ps: seq<Pair>)
    ensures ReadObject(Json(ps)) == Ok(ps)
  {
    hide ReadMembers, JsonPairs, JsonSpace, Solid;
    var s := Json(ps);
    assert s[1..] == JsonPairs(ps) + "}";
    if ps != [] {
      MembersRead(ps);
      ColonSolid(s[1..]);
      NoSpace(s[1..]);
    } else {
      EmptyObject();
      assert s[1..] == "}";
    }
  }

  lemma EmptyObject()
    ensures JsonPairs([]) == "" && JsonSpace("}") == "}"
  {
  }
}
