/** Which texts the base64 decoder accepts, character by character. */
module Base64Accepts {
  import opened Wire
  import opened Base64Spec

  /**
   * A space stands before another space, a line end or the end of the text, a carriage return before a line
   * feed, and everything else is a line feed or a character of the alphabet or '='.
   */
  predicate CharOk(s: seq<Byte>, i: nat)
    requires i < |s|
  {
    if s[i] as char == ' ' then
      i + 1 == |s| || s[i + 1] as char in {' ', '\n'} ||
      (s[i + 1] as char == '\r' && i + 2 < |s| && s[i + 2] as char == '\n')
    else if s[i] as char == '\r' then i + 1 < |s| && s[i + 1] as char == '\n'
    else s[i] as char == '\n' || Letter(s[i] as char) || s[i] as char == '='
  }

  predicate Letter(c: char) {
    'A' <= c <= 'Z' || 'a' <= c <= 'z' || '0' <= c <= '9' || c == '+' || c == '/'
  }

  predicate TextOk(s: seq<Byte>) {
    forall i :: 0 <= i < |s| ==> CharOk(s, i)
  }

  lemma TextOkTail(s: seq<Byte>)
    requires |s| > 0
    ensures TextOk(s) <==> CharOk(s, 0) && TextOk(s[1..])
  {
    forall i | 0 <= i < |s| - 1
      ensures CharOk(s[1..], i) == CharOk(s, i + 1)
    {}
    if CharOk(s, 0) && TextOk(s[1..]) {
      forall i | 0 <= i < |s|
        ensures CharOk(s, i)
      {
        if i > 0 { assert CharOk(s[1..], i - 1); }
      }
    }
  }

  lemma ScanOfSpace(s: seq<Byte>, pads: nat)
    requires |s| > 0 && s[0] == SPACE
    ensures Scan(s, pads) == if CharOk(s, 0) then Scan(s[1..], pads) else Invalid
  {
    var k := Spaces(s[1..]);
    assert Spaces(s) == k + 1;
    if k + 1 < |s| {
      assert s[1..][k] == s[k + 1] && s[1..][k + 1..] == s[k + 2..];
      ScanUnfold(s, k + 1, pads);
      ScanUnfold(s[1..], k, pads);
      hide Scan;
    }
  }

  lemma SignificantHead(s: seq<Byte>)
    requires |s| > 0
    ensures Significant(s) ==
            (if Letter(s[0] as char) || s[0] as char == '=' then [DecodeChar(s[0])] else []) + Significant(s[1..])
    ensures DecodeChar(s[0]) == NONE <==> !Letter(s[0] as char) && s[0] as char != '='
    ensures DecodeChar(s[0]) == PAD <==> s[0] as char == '='
  {
    LetterCode(s[0]);
    hide Letter, DecodeChar;
  }

  lemma LetterCode(c: Byte)
    ensures DecodeChar(c) == NONE <==> !Letter(c as char) && c as char != '='
    ensures DecodeChar(c) == PAD <==> c as char == '='
    ensures c == SPACE || c == CR || c == LF ==> !Letter(c as char) && c as char != '='
  {}

  lemma PadsOkHead(v: Symbol, rest: seq<Symbol>, pads: nat)
    ensures PadsOk([v] + rest, pads) ==
            if v == PAD then pads < 2 && PadsOk(rest, pads + 1) else pads == 0 && PadsOk(rest, 0)
  {
    assert ([v] + rest)[1..] == rest;
  }

  /**
   * A text is accepted exactly when all its characters are in order and its '=' are at most two, counting
   * earlier ones, and followed by '=' only.
   */
  lemma {:induction false} AcceptedIff(s: seq<Byte>, pads: nat)
    requires pads <= 2
    ensures Scan(s, pads).Symbols? <==> TextOk(s) && PadsOk(Significant(s), pads)
    decreases |s|
  {
    if |s| > 0 {
      var c, rest := s[0], s[1..];
      TextOkTail(s);
      SignificantHead(s);
      if c == SPACE {
        ScanOfSpace(s, pads);
        AcceptedIff(rest, pads);
      } else {
        assert s == [c] + rest;
        ScanHead(c, rest, pads);
        hide Scan, Significant, TextOk, PadsOk, Letter, DecodeChar;
        var v := DecodeChar(c);
        var pads' := if v == PAD then pads + 1 else pads;
        if AtBreak(c, rest) {
          AcceptedIff(rest, pads);
        } else if v != NONE {
          PadsOkHead(v, Significant(rest), pads);
          if pads' <= 2 { AcceptedIff(rest, pads'); }
        }
      }
    }
  }
}
