/** jsmn.c over a parser object and a token array, without strict mode and without parent links. */
module Jsmn {
  import opened JsmnSpec

  const ERROR_NOMEM := -1
  const ERROR_INVAL := -2
  const ERROR_PART := -3

  function CodeInt(c: Code): int {
    match c
    case Count(n) => n
    case NoMem => ERROR_NOMEM
    case Inval => ERROR_INVAL
    case Part => ERROR_PART
  }

  class Parser {
    var pos: nat
    var toknext: nat
    var toksuper: int

    /** jsmn_init */
    constructor ()
      ensures pos == 0 && toknext == 0 && toksuper == -1
    {
      pos, toknext, toksuper := 0, 0, -1;
    }

    ghost predicate Fits(tokens: array<Token>)
      reads this
    {
      toknext <= tokens.Length && -1 <= toksuper < toknext
    }

    /** The state that parser and array represent. */
    ghost function Abs(tokens: array<Token>): State
      requires Fits(tokens)
      reads this, tokens
    {
      State(pos, toksuper, tokens[..toknext])
    }

    /** jsmn_alloc_token: the index of the new token, or -1. */
    method AllocToken(tokens: array<Token>, num_tokens: nat) returns (i: int)
      requires Fits(tokens) && num_tokens <= tokens.Length
      modifies `toknext, tokens
      ensures old(toknext) >= num_tokens ==> i == -1 && toknext == old(toknext) && tokens[..] == old(tokens[..])
      ensures old(toknext) < num_tokens ==> i == old(toknext) && toknext == i + 1
      ensures old(toknext) < num_tokens ==>
                tokens[..] == old(tokens[..])[i := old(tokens[i]).(start := -1, end := -1, size := 0)]
    {
      if toknext >= num_tokens { return -1; }
      i := toknext;
      toknext := toknext + 1;
      tokens[i] := tokens[i].(start := -1, end := -1, size := 0);
    }

    /** Allocating and filling a string or primitive token. */
    method NewToken(tokens: array<Token>, num_tokens: nat, kind: TokenType, start: nat, end: nat)
      returns (ok: bool)
      requires Fits(tokens) && num_tokens <= tokens.Length
      modifies `toknext, tokens
      ensures ok <==> old(toknext) < num_tokens
      ensures !ok ==> toknext == old(toknext) && tokens[..] == old(tokens[..])
      ensures ok ==> toknext == old(toknext) + 1
      ensures ok ==> tokens[..] == old(tokens[..])[old(toknext) := Token(kind, start, end, 0)]
    {
      var i := AllocToken(tokens, num_tokens);
      ok := i != -1;
      if ok { tokens[i] := Token(kind, start, end, 0); }
    }

    /** The position where the primitive at pos ends; pos comes back unchanged on an error. */
    method ScanPrimitive(js: string) returns (ok: bool)
      modifies `pos
      ensures var e := PrimitiveEnd(js, old(pos));
              if ok then e == Done(pos) else e == Bad && pos == old(pos)
    {
      var start := pos;
      while pos < |js| && js[pos] != '\0' && !Delimiter(js[pos])
        invariant PrimitiveEnd(js, start) == PrimitiveEnd(js, pos)
        decreases |js| - pos
      {
        if js[pos] < ' ' || js[pos] >= 127 as char {
          pos := start;
          return false;
        }
        pos := pos + 1;
      }
      ok := true;
    }

    /** Up to four hexadecimal digits after `\u`. */
    method ScanHex(js: string) returns (ok: bool)
      modifies `pos
      ensures ok <==> HexRun(js, old(pos), 4).Done?
      ensures ok ==> HexRun(js, old(pos), 4) == Done(pos)
    {
      var i: nat := 0;
      while i < 4 && pos < |js| && js[pos] != '\0'
        invariant i <= 4 && HexRun(js, old(pos), 4) == HexRun(js, pos, 4 - i)
      {
        if !HexDigit(js[pos]) { return false; }
        pos := pos + 1;
        i := i + 1;
      }
      ok := true;
    }

    /** The closing quote of the string whose opening quote is at pos. */
    method ScanString(js: string) returns (code: int)
      requires pos < |js|
      modifies `pos
      ensures var e := StringEnd(js, old(pos) + 1);
              && (code == 0 <==> e.Done?)
              && (e.Done? ==> pos == e.pos)
              && (!e.Done? ==> pos == old(pos) && code == CodeInt(ScanError(e)))
    {
      var start := pos;
      pos := pos + 1;
      while pos < |js| && js[pos] != '\0'
        invariant start < pos && StringEnd(js, start + 1) == StringEnd(js, pos)
        decreases |js| - pos
      {
        if js[pos] == '"' { return 0; }
        if js[pos] == '\\' && pos + 1 < |js| {
          pos := pos + 1;
          if Escapable(js[pos]) {
          } else if js[pos] == 'u' {
            pos := pos + 1;
            var ok := ScanHex(js);
            if !ok {
              pos := start;
              return ERROR_INVAL;
            }
            pos := pos - 1;
          } else {
            pos := start;
            return ERROR_INVAL;
          }
        }
        pos := pos + 1;
      }
      pos := start;
      code := ERROR_PART;
    }

    /** jsmn_parse_primitive; on success pos is left on the last character of the primitive. */
    method ParsePrimitive(js: string, tokens: array?<Token>, num_tokens: nat) returns (r: int)
      requires pos < |js| && !AtEnd(js, pos) && !Delimiter(js[pos])
      requires tokens != null ==> Fits(tokens) && num_tokens <= tokens.Length
      modifies `pos, `toknext, tokens
      ensures var e := PrimitiveEnd(js, old(pos));
              && (!e.Done? ==> r == CodeInt(ScanError(e)))
              && (e.Done? && tokens != null && old(toknext) >= num_tokens ==> r == ERROR_NOMEM)
              && (e.Done? && (tokens == null || old(toknext) < num_tokens) ==> r == 0 && pos + 1 == e.pos)
              && (r == 0 && tokens != null ==>
                    toknext == old(toknext) + 1 && toknext <= num_tokens &&
                    tokens[..] == old(tokens[..])[old(toknext) := Token(Primitive, old(pos), e.pos, 0)])
      ensures r != 0 ==> r < 0 && pos == old(pos)
      ensures r != 0 || tokens == null ==> toknext == old(toknext)
      ensures r != 0 && tokens != null ==> tokens[..] == old(tokens[..])
    {
      var start := pos;
      var ok := ScanPrimitive(js);
      if !ok { return ERROR_INVAL; }
      if tokens != null {
        ok := NewToken(tokens, num_tokens, Primitive, start, pos);
        if !ok {
          pos := start;
          return ERROR_NOMEM;
        }
      }
      pos := pos - 1;
      r := 0;
    }

    /** jsmn_parse_string; on success pos is left on the closing quote. */
    method ParseString(js: string, tokens: array?<Token>, num_tokens: nat) returns (r: int)
      requires pos < |js|
      requires tokens != null ==> Fits(tokens) && num_tokens <= tokens.Length
      modifies `pos, `toknext, tokens
      ensures var e := StringEnd(js, old(pos) + 1);
              && (!e.Done? ==> r == CodeInt(ScanError(e)))
              && (e.Done? && tokens != null && old(toknext) >= num_tokens ==> r == ERROR_NOMEM)
              && (e.Done? && (tokens == null || old(toknext) < num_tokens) ==> r == 0 && pos == e.pos)
              && (r == 0 && tokens != null ==>
                    toknext == old(toknext) + 1 && toknext <= num_tokens &&
                    tokens[..] == old(tokens[..])[old(toknext) := Token(String, old(pos) + 1, e.pos, 0)])
      ensures r != 0 ==> r < 0 && pos == old(pos)
      ensures r != 0 || tokens == null ==> toknext == old(toknext)
      ensures r != 0 && tokens != null ==> tokens[..] == old(tokens[..])
    {
      var start := pos;
      r := ScanString(js);
      if r != 0 { return; }
      if tokens != null {
        var ok := NewToken(tokens, num_tokens, String, start + 1, pos);
        if !ok {
          pos := start;
          return ERROR_NOMEM;
        }
      }
    }

    /** The superior token, when there is one, has one more child. */
    method CountInSuper(tokens: array<Token>)
      requires Fits(tokens)
      modifies tokens
      ensures tokens[..toknext] == Bump(old(tokens[..toknext]), toksuper)
      ensures tokens[toknext..] == old(tokens[toknext..])
    {
      if toksuper != -1 {
        tokens[toksuper] := tokens[toksuper].(size := tokens[toksuper].size + 1);
      }
    }

    /** The case of an opening bracket; the main loop moves past it. */
    method OpenCase(c: char, tokens: array<Token>, num_tokens: nat) returns (r: int)
      requires Fits(tokens) && num_tokens <= tokens.Length
      modifies `toknext, `toksuper, tokens
      ensures var t := OpenBracket(old(Abs(tokens)), c, num_tokens);
              if t.Stop? then r == CodeInt(t.code) < 0 && toknext == old(toknext) && toksuper == old(toksuper) &&
                              tokens[..] == old(tokens[..])
              else r == 0 && Fits(tokens) && t.s == Abs(tokens).(pos := pos + 1) && toknext == old(toknext) + 1
      ensures toknext <= tokens.Length && old(toknext) <= toknext
      ensures tokens[toknext..] == old(tokens[..])[toknext..]
    {
      ghost var before := tokens[..];
      var i := AllocToken(tokens, num_tokens);
      if i == -1 { return ERROR_NOMEM; }
      ghost var mid := tokens[..];
      CountInSuper(tokens);
      BumpInner(before, mid, tokens[..], i, toksuper);
      tokens[i] := tokens[i].(kind := BracketKind(c), start := pos);
      toksuper := toknext - 1;
      r := 0;
      assert tokens[..toknext] == Bump(before[..i] + [Token(BracketKind(c), pos, -1, 0)], old(toksuper));
    }

    /** The case of a closing bracket. */
    method CloseCase(c: char, tokens: array<Token>) returns (r: int)
      requires Fits(tokens)
      modifies `toksuper, tokens
      ensures var t := CloseBracket(old(Abs(tokens)), c);
              if t.Stop? then r == CodeInt(t.code) < 0 && toksuper == old(toksuper) && tokens[..] == old(tokens[..])
              else r == 0 && Fits(tokens) && t.s == Abs(tokens).(pos := pos + 1)
      ensures tokens[toknext..] == old(tokens[toknext..])
    {
      ghost var toks := tokens[..toknext];
      var i := FindOpen(tokens, toknext);
      if i == -1 || tokens[i].kind != BracketKind(c) { return ERROR_INVAL; }
      tokens[i] := tokens[i].(end := pos + 1);
      assert tokens[..toknext] == toks[i := toks[i].(end := pos + 1)];
      toksuper := FindOpen(tokens, i + 1);
      r := 0;
    }

    /** The downward scan for an open token below n. */
    method FindOpen(tokens: array<Token>, n: nat) returns (i: int)
      requires n <= toknext <= tokens.Length
      ensures i == LastOpen(tokens[..toknext], n)
    {
      i := n - 1;
      while i >= 0 && !Open(tokens[i])
        invariant -1 <= i < n && LastOpen(tokens[..toknext], n) == LastOpen(tokens[..toknext], i + 1)
      {
        i := i - 1;
      }
    }

    /** The case of a comma: back from a key to the enclosing container. */
    method CommaCase(tokens: array<Token>)
      requires Fits(tokens)
      modifies `toksuper
      ensures Fits(tokens) && Comma(old(Abs(tokens))) == Next(Abs(tokens).(pos := pos + 1))
    {
      if toksuper != -1 && !Container(tokens[toksuper]) {
        var i: int := toknext - 1;
        while i >= 0 && !(Container(tokens[i]) && Open(tokens[i]))
          invariant -1 <= i < toknext
          invariant LastContainer(tokens[..toknext], toknext) == LastContainer(tokens[..toknext], i + 1)
        {
          i := i - 1;
        }
        if i >= 0 { toksuper := i; }
      }
    }

    /** A string or primitive, and its place in the superior token. */
    method LeafCase(js: string, tokens: array<Token>, num_tokens: nat) returns (r: int)
      requires Fits(tokens) && num_tokens <= tokens.Length && !AtEnd(js, pos)
      requires js[pos] == '"' || !Delimiter(js[pos])
      modifies `pos, `toknext, tokens
      ensures var t := if js[old(pos)] == '"' then Quoted(old(Abs(tokens)), js, num_tokens)
                       else Bare(old(Abs(tokens)), js, num_tokens);
              if t.Stop? then r == CodeInt(t.code) < 0 && pos == old(pos) && toknext == old(toknext) &&
                              tokens[..] == old(tokens[..])
              else r == 0 && Fits(tokens) && t.s == Abs(tokens).(pos := pos + 1) && toknext == old(toknext) + 1
      ensures toknext <= tokens.Length && old(toknext) <= toknext
      ensures tokens[toknext..] == old(tokens[..])[toknext..]
    {
      ghost var before, p := tokens[..], pos;
      if js[pos] == '"' {
        r := ParseString(js, tokens, num_tokens);
      } else {
        r := ParsePrimitive(js, tokens, num_tokens);
      }
      if r < 0 { return; }
      ghost var t := tokens[toknext - 1];
      assert tokens[..toknext] == before[..toknext - 1] + [t];
      CountInSuper(tokens);
    }

    /** The body of the main loop with a token array; n counts on from count as tokens are allocated. */
    method FillChar(js: string, tokens: array<Token>, num_tokens: nat, count: nat) returns (r: int, n: nat)
      requires Fits(tokens) && num_tokens <= tokens.Length && !AtEnd(js, pos)
      modifies `pos, `toknext, `toksuper, tokens
      ensures var t := StepAt(js, old(Abs(tokens)), num_tokens);
              if t.Stop? then r == CodeInt(t.code) < 0 && Fits(tokens) && Abs(tokens) == old(Abs(tokens))
              else r == 0 && Fits(tokens) && t.s == Abs(tokens).(pos := pos + 1)
      ensures toknext <= tokens.Length && old(toknext) <= toknext
      ensures tokens[toknext..] == old(tokens[..])[toknext..]
      ensures r == 0 ==> n - count == toknext - old(toknext)
    {
      hide OpenBracket, CloseBracket, Quoted, Bare, Comma;
      var c := js[pos];
      r, n := 0, count;
      if c == '{' || c == '[' {
        n := n + 1;
        r := OpenCase(c, tokens, num_tokens);
      } else if c == '}' || c == ']' {
        r := CloseCase(c, tokens);
      } else if Blank(c) {
      } else if c == ':' {
        toksuper := toknext - 1;
      } else if c == ',' {
        CommaCase(tokens);
      } else {
        r := LeafCase(js, tokens, num_tokens);
        if r < 0 { return; }
        n := n + 1;
      }
    }

    /** jsmn_parse with a token array. */
    method Fill(js: string, tokens: array<Token>, num_tokens: nat) returns (r: int)
      requires Fits(tokens) && num_tokens <= tokens.Length
      modifies this, tokens
      ensures Fits(tokens)
      ensures (Abs(tokens), r) == (Run(js, old(Abs(tokens)), num_tokens).0,
                                   CodeInt(Run(js, old(Abs(tokens)), num_tokens).1))
      ensures old(toknext) <= toknext && tokens[toknext..] == old(tokens[..])[toknext..]
    {
      hide StepAt;
      var count: nat := toknext;
      while pos < |js| && js[pos] != '\0'
        invariant Fits(tokens) && old(toknext) <= toknext == count
        invariant Run(js, old(Abs(tokens)), num_tokens) == Run(js, Abs(tokens), num_tokens)
        invariant tokens[toknext..] == old(tokens[..])[toknext..]
        decreases |js| - pos
      {
        ghost var s := Abs(tokens);
        r, count := FillChar(js, tokens, num_tokens, count);
        if r < 0 { return; }
        StepAdvances(js, s, num_tokens);
        pos := pos + 1;
      }
      var i := FindOpen(tokens, toknext);
      if i >= 0 { return ERROR_PART; }
      r := count;
    }

    /** jsmn_parse without a token array: it only counts, and toksuper follows the colons. */
    method CountOnly(js: string) returns (r: int)
      modifies this
      ensures toknext == old(toknext)
      ensures (pos, r) == (CountRun(js, old(pos), toknext).0, CodeInt(CountRun(js, old(pos), toknext).1))
      ensures toksuper == old(toksuper) || toksuper == toknext - 1
    {
      var count: nat := toknext;
      while pos < |js| && js[pos] != '\0'
        invariant toknext == old(toknext)
        invariant CountRun(js, old(pos), toknext) == CountRun(js, pos, count)
        invariant toksuper == old(toksuper) || toksuper == toknext - 1
        decreases |js| - pos
      {
        var c := js[pos];
        ghost var p := pos;
        if c == '{' || c == '[' {
          count := count + 1;
        } else if c == '}' || c == ']' || Blank(c) || c == ',' {
        } else if c == ':' {
          toksuper := toknext - 1;
        } else {
          if c == '"' {
            r := ParseString(js, null, 0);
          } else {
            if PrimitiveEnd(js, p).Done? { assert PrimitiveEnd(js, p) == PrimitiveEnd(js, p + 1); }
            r := ParsePrimitive(js, null, 0);
          }
          if r < 0 { return; }
          count := count + 1;
        }
        pos := pos + 1;
      }
      r := count;
    }

    /** jsmn_parse */
    method Parse(js: string, tokens: array?<Token>, num_tokens: nat) returns (r: int)
      requires tokens != null ==> Fits(tokens) && num_tokens <= tokens.Length
      modifies this, tokens
      ensures tokens != null ==>
                Fits(tokens) && Abs(tokens) == Run(js, old(Abs(tokens)), num_tokens).0 &&
                r == CodeInt(Run(js, old(Abs(tokens)), num_tokens).1)
      ensures tokens == null ==>
                pos == CountRun(js, old(pos), old(toknext)).0 && toknext == old(toknext) &&
                r == CodeInt(CountRun(js, old(pos), old(toknext)).1)
    {
      if tokens != null {
        r := Fill(js, tokens, num_tokens);
      } else {
        r := CountOnly(js);
      }
    }
  }

  /** One more child of a token in the old part of an array whose entry i is new. */
  lemma BumpInner(before: seq<Token>, mid: seq<Token>, after: seq<Token>, i: nat, super: int)
    requires -1 <= super < i < |before| == |mid| == |after|
    requires mid == before[i := before[i].(start := -1, end := -1, size := 0)]
    requires after[..i + 1] == Bump(mid[..i + 1], super)
    ensures after[i] == mid[i] && after[..i] == Bump(before[..i], super)
  {
    assert after[i] == after[..i + 1][i];
    assert after[..i] == after[..i + 1][..i];
  }
}
