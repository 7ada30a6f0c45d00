/** The binary and the text writer treat NUL bytes alike. */
module NulReplacement {
  import opened Wrappers
  import opened Characters
  import opened Bytes
  import opened NestedLists
  import opened WireFormat
  import CopyText

  predicate IsText(s: string) {
    forall c | c in s :: c as int < 256
  }

  function BytesOf(s: string): (b: seq<byte>)
    requires IsText(s)
    ensures |b| == |s| && forall i | 0 <= i < |s| :: b[i] == s[i] as int
  {
    if s == "" then []
    else
      assert s[0] in s && forall c | c in s[1..] :: c in s;
      [s[0] as int] + BytesOf(s[1..])
  }

  function SettingOf(nul: Option<string>): Option<seq<byte>>
    requires nul.Some? ==> IsText(nul.value)
  {
    match nul case None => None case Some(s) => Some(BytesOf(s))
  }

  lemma BytesAppend(a: string, b: string)
    requires IsText(a) && IsText(b)
    ensures IsText(a + b) && BytesOf(a + b) == BytesOf(a) + BytesOf(b)
  {
    forall i | 0 <= i < |a + b| ensures BytesOf(a + b)[i] == (BytesOf(a) + BytesOf(b))[i] {
    }
  }

  lemma {:induction false} SameReplaced(nul: Option<string>, s: string)
    requires IsText(s) && nul.Some? && IsText(nul.value)
    ensures CopyText.Stored(nul, s).Ok? && IsText(CopyText.Stored(nul, s).value)
    ensures BytesOf(CopyText.Stored(nul, s).value) == ReplaceNul(BytesOf(nul.value), BytesOf(s))
  {
    if s != "" {
      var head := if s[0] != NUL then [s[0]] else nul.value;
      assert s[0] in s && forall c | c in s[1..] :: c in s;
      assert IsText(head);
      assert BytesOf(s)[0] == s[0] as int && BytesOf(s)[1..] == BytesOf(s[1..]);
      SameReplaced(nul, s[1..]);
      BytesAppend(head, CopyText.Stored(nul, s[1..]).value);
      assert s[0] != NUL ==> BytesOf(head) == [BytesOf(s)[0]];
    }
  }

  /** Main result: for the same setting both writers store the same text, or both refuse
      it. */
  lemma SameStored(nul: Option<string>, s: string)
    requires IsText(s) && (nul.Some? ==> IsText(nul.value))
    ensures HasType(Varchar, StrV(BytesOf(s)))
    ensures var text, binary := CopyText.Stored(nul, s), EncScalar(SettingOf(nul), Varchar, StrV(BytesOf(s)));
            if text.Ok? then IsText(text.value) && binary == Ok(BytesOf(text.value)) else binary == text.PropagateFailure()
  {
    var b := BytesOf(s);
    assert 0 in b <==> NUL in s by {
      if NUL in s {
        var i :| 0 <= i < |s| && s[i] == NUL;
        assert b[i] == 0;
      }
      if 0 in b {
        var i :| 0 <= i < |b| && b[i] == 0;
        assert s[i] == NUL;
      }
    }
    if NUL !in s {
      CopyText.TextKept(nul, s);
    } else if nul.Some? {
      SameReplaced(nul, s);
    }
  }
}
