/** The characters of the tokenizer, by their codes, and what short documents give. */
module JsmnExamples {
  import opened JsmnSpec
  import Jsmn

  /** After a backslash exactly the eight characters " / \ b f r n t make the string go on; u is apart. */
  lemma EscapedCharacters(c: char)
    ensures c != 'u' ==>
              StringEnd(['\\', c, '"'], 0) ==
              if c as int in {34, 47, 92, 98, 102, 110, 114, 116} then Done(2) else Bad
  {
    var js := ['\\', c, '"'];
    assert StringEnd(js, 2) == Done(2);
  }

  /** After \u four hexadecimal digits make the string go on; any other character that is not NUL is refused. */
  lemma UnicodeDigits(a: char, b: char, c: char, d: char)
    requires '\0' !in {a, b, c, d}
    ensures StringEnd(['\\', 'u', a, b, c, d, '"'], 0) ==
            if HexCode(a) && HexCode(b) && HexCode(c) && HexCode(d) then Done(6) else Bad
  {
    var js := ['\\', 'u', a, b, c, d, '"'];
    assert HexRun(js, 6, 0) == Done(6) && StringEnd(js, 6) == Done(6);
    assert HexRun(js, 5, 1) == if HexCode(d) then Done(6) else Bad;
    assert HexRun(js, 4, 2) == if HexCode(c) && HexCode(d) then Done(6) else Bad;
    assert HexRun(js, 3, 3) == if HexCode(b) && HexCode(c) && HexCode(d) then Done(6) else Bad;
    assert HexRun(js, 2, 4) == if HexCode(a) && HexCode(b) && HexCode(c) && HexCode(d) then Done(6) else Bad;
    hide HexRun, HexCode;
  }

  predicate HexCode(c: char) {
    48 <= c as int <= 57 || 65 <= c as int <= 70 || 97 <= c as int <= 102
  }

  /** A primitive ends at the end of the input and before : , ] } and the four blanks; 32 to 126 may be in it. */
  lemma PrimitiveCharacters(c: char)
    ensures PrimitiveEnd([c], 0) ==
            if c as int in {0, 9, 10, 13, 32, 44, 58, 93, 125} then Done(0)
            else if 33 <= c as int <= 126 then Done(1)
            else Bad
  {
    assert PrimitiveEnd([c], 1) == Done(1);
  }

  /** What each document of one character gives. */
  lemma OneCharacter(c: char, cap: nat)
    ensures Run([c], INIT, cap).1 ==
            if c as int in {0, 9, 10, 13, 32, 44, 58} then Count(0)
            else if c as int in {93, 125} then Inval
            else if c as int == 34 then Part
            else if c as int in {91, 123} then (if cap == 0 then NoMem else Part)
            else if 33 <= c as int <= 126 then (if cap == 0 then NoMem else Count(1))
            else Inval
  {
    var js := [c];
    PrimitiveCharacters(c);
    assert StringEnd(js, 1) == Short;
    if c as int in {91, 123} && cap > 0 {
      var t := OpenBracket(INIT, c, cap).s;
      assert t.toks == [Token(BracketKind(c), 0, -1, 0)];
      assert Run(js, t, cap) == (t, Part);
    } else if c != '\0' && StepAt(js, INIT, cap).Next? {
      var t := StepAt(js, INIT, cap).s;
      assert t.pos == 1;
      assert |t.toks| <= 1 && (|t.toks| == 1 ==> !Open(t.toks[0]));
      assert Run(js, t, cap) == (t, Count(|t.toks|));
    }
  }

  /** The numbers that calls return: too few tokens, a wrong character, an unfinished document, one token. */
  lemma NumbersReturned(cap: nat)
    ensures Jsmn.CodeInt(Run("[", INIT, 0).1) == -1
    ensures Jsmn.CodeInt(Run("]", INIT, cap).1) == -2
    ensures Jsmn.CodeInt(Run("[", INIT, cap + 1).1) == -3
    ensures Jsmn.CodeInt(Run("1", INIT, cap + 1).1) == 1
  {
    hide Run;
    OneCharacter('[', 0);
    OneCharacter(']', cap);
    OneCharacter('[', cap + 1);
    OneCharacter('1', cap + 1);
  }

  /** A bracket is closed by its own kind only. */
  lemma TwoBrackets(a: char, b: char, cap: nat)
    requires a in {'[', '{'} && b in {']', '}'} && cap > 0
    ensures Run([a, b], INIT, cap).1 == if (a == '[' && b == ']') || (a == '{' && b == '}') then Count(1) else Inval
    ensures Run([a, b], INIT, cap).1 == Count(1) ==>
              Run([a, b], INIT, cap).0.toks == [Token(if a == '[' then Array else Object, 0, 2, 0)]
  {
    var js := [a, b];
    var t := OpenBracket(INIT, a, cap).s;
    assert t.toks == [Token(BracketKind(a), 0, -1, 0)];
    assert Run(js, INIT, cap) == Run(js, t, cap);
    if BracketKind(a) == BracketKind(b) {
      var u := CloseBracket(t, b).s;
      assert u.toks == [Token(BracketKind(a), 0, 2, 0)];
      assert Run(js, t, cap) == Run(js, u, cap) == (u, Count(1));
    }
  }

  /** A string with one escaped character: one token when the escape is allowed. */
  lemma EscapeInDocument(c: char, cap: nat)
    requires c != 'u' && cap > 0
    ensures Run(['"', 'a', '\\', c, 'b', '"'], INIT, cap).1 ==
            if c in {'"', '/', '\\', 'b', 'f', 'r', 'n', 't'} then Count(1) else Inval
    ensures Run("\"a\\nb\"", INIT, cap) == (State(6, -1, [Token(String, 1, 5, 0)]), Count(1))
  {
    OneEscape(c, cap);
    OneEscape('n', cap);
    assert "\"a\\nb\"" == ['"', 'a', '\\', 'n', 'b', '"'];
  }

  lemma OneEscape(c: char, cap: nat)
    requires c != 'u' && cap > 0
    ensures Run(['"', 'a', '\\', c, 'b', '"'], INIT, cap) ==
            if c in {'"', '/', '\\', 'b', 'f', 'r', 'n', 't'}
            then (State(6, -1, [Token(String, 1, 5, 0)]), Count(1)) else (INIT, Inval)
  {
    var js := ['"', 'a', '\\', c, 'b', '"'];
    assert StringEnd(js, 4) == StringEnd(js, 5) == Done(5);
    assert StringEnd(js, 1) == StringEnd(js, 2);
    hide StringEnd;
    if StepAt(js, INIT, cap).Next? {
      var t := StepAt(js, INIT, cap).s;
      assert t == State(6, -1, [Token(String, 1, 5, 0)]);
      assert Run(js, t, cap) == (t, Count(1));
    }
  }
}
