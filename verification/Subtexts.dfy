/** What reading a literal can at most make of its text: characters disappear, but
    none is invented, except that an escape at the very end lets the last element take
    the closing bracket with it. Closing brackets are therefore not counted. */
module Subtexts {

  predicate IsClosing(c: char) {
    c == '}' || c == ')'
  }

  /** The characters quoting adds to a text. */
  predicate IsNoise(c: char) {
    c == '"' || c == '\\'
  }

  /** The characters of a text but closing brackets, with or without quotes and escapes. */
  function Tally(x: string, noise: bool): nat {
    if x == "" then 0
    else (if IsClosing(x[0]) || (!noise && IsNoise(x[0])) then 0 else 1) + Tally(x[1..], noise)
  }

  lemma {:induction false} TallyAppend(a: string, b: string, noise: bool)
    ensures Tally(a + b, noise) == Tally(a, noise) + Tally(b, noise)
  {
    if a == "" {
      assert a + b == b;
    } else {
      assert (a + b)[1..] == a[1..] + b;
      TallyAppend(a[1..], b, noise);
    }
  }

  lemma TallyOne(c: char, noise: bool)
    ensures Tally([c], noise) == if IsClosing(c) || (!noise && IsNoise(c)) then 0 else 1
  {
    assert [c][1..] == "";
  }

  /** b has all characters of a, in order, but perhaps closing brackets. */
  predicate Sub(a: string, b: string)
    decreases |a| + |b|
  {
    || a == ""
    || (IsClosing(a[0]) && Sub(a[1..], b))
    || (b != "" && ((a[0] == b[0] && Sub(a[1..], b[1..])) || Sub(a, b[1..])))
  }

  lemma {:induction false} SubTally(a: string, b: string, noise: bool)
    requires Sub(a, b)
    ensures Tally(a, noise) <= Tally(b, noise)
    decreases |a| + |b|
  {
    if a != "" {
      if IsClosing(a[0]) && Sub(a[1..], b) {
        SubTally(a[1..], b, noise);
      } else if a[0] == b[0] && Sub(a[1..], b[1..]) {
        SubTally(a[1..], b[1..], noise);
      } else {
        SubTally(a, b[1..], noise);
      }
    }
  }

  lemma {:induction false} SubSame(a: string)
    ensures Sub(a, a)
  {
    if a != "" {
      SubSame(a[1..]);
    }
  }

  lemma {:induction false} SubConcat(a: string, b: string, c: string, d: string)
    requires Sub(a, b) && Sub(c, d)
    ensures Sub(a + c, b + d)
    decreases |a| + |b|
  {
    if a == "" && b == "" {
      assert a + c == c && b + d == d;
    } else if a == "" {
      assert (b + d)[1..] == b[1..] + d && b + d != "";
      SubConcat(a, b[1..], c, d);
    } else {
      assert (a + c)[1..] == a[1..] + c && (a + c)[0] == a[0];
      if IsClosing(a[0]) && Sub(a[1..], b) {
        SubConcat(a[1..], b, c, d);
      } else {
        assert (b + d)[1..] == b[1..] + d && (b + d)[0] == b[0];
        if a[0] == b[0] && Sub(a[1..], b[1..]) {
          SubConcat(a[1..], b[1..], c, d);
        } else {
          SubConcat(a, b[1..], c, d);
        }
      }
    }
  }

  lemma {:induction false} SubTrans(a: string, b: string, c: string)
    requires Sub(a, b) && Sub(b, c)
    ensures Sub(a, c)
    decreases |a| + |b| + |c|
  {
    if a != "" {
      if IsClosing(a[0]) && Sub(a[1..], b) {
        SubTrans(a[1..], b, c);
      } else if IsClosing(b[0]) && Sub(b[1..], c) {
        SubTrans(a, b[1..], c);
      } else if Sub(b, c[1..]) {
        SubTrans(a, b, c[1..]);
      } else if a[0] == b[0] && Sub(a[1..], b[1..]) {
        SubTrans(a[1..], b[1..], c[1..]);
      } else {
        SubTrans(a, b[1..], c[1..]);
      }
    }
  }

  /** More text in the middle. */
  lemma SubInsert(x: string, a: string, mid: string, b: string)
    requires Sub(x, a + b)
    ensures Sub(x, a + mid + b)
  {
    SubSame(a);
    SubSame(b);
    SubConcat(a, a, "", mid);
    assert a + "" == a;
    SubConcat(a, a + mid, b, b);
    SubTrans(x, a + b, a + mid + b);
  }

  lemma {:induction false} SubEmpty(a: string)
    requires Tally(a, true) == 0
    ensures Sub(a, "")
  {
    if a != "" {
      SubEmpty(a[1..]);
    }
  }

  lemma {:induction false} SubLast(a: string, b: string, c: char)
    requires Sub(a + [c], b + [c])
    ensures Sub(a, b)
    decreases |a| + |b|
  {
    if a == "" {
    } else if b == "" {
      SubTally(a + [c], b + [c], true);
      TallyAppend(a, [c], true);
      assert b + [c] == [c];
      SubEmpty(a);
    } else {
      assert (a + [c])[1..] == a[1..] + [c] && (b + [c])[1..] == b[1..] + [c];
      if IsClosing(a[0]) && Sub(a[1..] + [c], b + [c]) {
        SubLast(a[1..], b, c);
      } else if a[0] == b[0] && Sub(a[1..] + [c], b[1..] + [c]) {
        SubLast(a[1..], b[1..], c);
      } else {
        SubLast(a, b[1..], c);
      }
    }
  }

  /** Where the characters but quoting agree in number on both sides of a comma, the
      comma of one is the comma of the other. */
  lemma {:induction false} SubSplit(a: string, c: string, b: string, d: string)
    requires Sub(a + "," + c, b + "," + d)
    requires Tally(a, false) == Tally(b, false) && Tally(c, false) == Tally(d, false)
    ensures Sub(a, b) && Sub(c, d)
    decreases |a| + |b|
  {
    var s, t := a + "," + c, b + "," + d;
    TallyAppend(a + ",", c, false);
    TallyAppend(a, ",", false);
    TallyAppend(b + ",", d, false);
    TallyAppend(b, ",", false);
    TallyOne(',', false);
    assert s[0] == if a == "" then ',' else a[0];
    assert a != "" ==> s[1..] == a[1..] + "," + c;
    assert b != "" ==> t[1..] == b[1..] + "," + d;
    assert a == "" ==> s[1..] == c;
    assert b == "" ==> t[1..] == d;
    assert Tally(s, false) == Tally(t, false);
    if IsClosing(s[0]) && Sub(s[1..], t) {
      SubSplit(a[1..], c, b, d);
    } else if s[0] == t[0] && Sub(s[1..], t[1..]) {
      if a != "" && b != "" {
        SubSplit(a[1..], c, b[1..], d);
      }
    } else {
      assert Sub(s, t[1..]);
      SubTally(s, t[1..], false);
      if b != "" {
        SubSplit(a, c, b[1..], d);
      }
    }
  }

  /** The same behind the opening bracket. */
  lemma SubHead(c: char, a: string, b: string)
    requires Sub([c] + a, [c] + b) && !IsClosing(c) && !IsNoise(c)
    requires Tally(a, false) == Tally(b, false)
    ensures Sub(a, b)
  {
    var s, t := [c] + a, [c] + b;
    assert s[1..] == a && t[1..] == b && s[0] == t[0] == c;
    if !Sub(a, b) {
      SubTally(s, b, false);
    }
  }

  lemma TallyPrefix(a: string, b: string, noise: bool)
    requires a <= b
    ensures Tally(a, noise) <= Tally(b, noise)
  {
    TallyAppend(a, b[|a|..], noise);
    assert a + b[|a|..] == b;
  }
}
