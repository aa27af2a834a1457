/** The jsmn tokenizer as functions: scanners, one step, and a whole run. */
module JsmnSpec {

  datatype TokenType = Undefined | Object | Array | String | Primitive

  datatype Token = Token(kind: TokenType, start: int, end: int, size: nat)

  /** A container whose closing bracket has not been seen. */
  predicate Open(t: Token) {
    t.start != -1 && t.end == -1
  }

  predicate Container(t: Token) {
    t.kind == Object || t.kind == Array
  }

  /** JSMN_ERROR_NOMEM, JSMN_ERROR_INVAL, JSMN_ERROR_PART, or the number of tokens. */
  datatype Code = Count(n: nat) | NoMem | Inval | Part

  /** Parser position, superior token and the tokens allocated so far. */
  datatype State = State(pos: nat, super: int, toks: seq<Token>)

  const INIT := State(0, -1, [])

  predicate Valid(s: State) {
    -1 <= s.super < |s.toks|
  }

  predicate AtEnd(js: string, p: nat) {
    p >= |js| || js[p] == '\0'
  }

  // ---- scanners ----

  datatype Scan = Done(pos: nat) | Bad | Short

  predicate HexDigit(c: char) {
    '0' <= c <= '9' || 'A' <= c <= 'F' || 'a' <= c <= 'f'
  }

  predicate Escapable(c: char) {
    c in {'"', '/', '\\', 'b', 'f', 'r', 'n', 't'}
  }

  /** Up to n hexadecimal digits; the input may end early. */
  function HexRun(js: string, p: nat, n: nat): (r: Scan)
    ensures !r.Short? && (r.Done? ==> p <= r.pos)
    ensures r.Done? && p <= |js| ==> r.pos <= |js|
    decreases n
  {
    if n == 0 || AtEnd(js, p) then Done(p)
    else if !HexDigit(js[p]) then Bad
    else HexRun(js, p + 1, n - 1)
  }

  /** The position of the quote that ends a string whose inside starts at p. */
  function StringEnd(js: string, p: nat): (r: Scan)
    ensures r.Done? ==> p <= r.pos < |js|
    decreases |js| - p
  {
    if AtEnd(js, p) then Short
    else if js[p] == '"' then Done(p)
    else if js[p] == '\\' && p + 1 < |js| then
      if Escapable(js[p + 1]) then StringEnd(js, p + 2)
      else if js[p + 1] == 'u' then
        var h := HexRun(js, p + 2, 4);
        if h.Bad? then Bad else StringEnd(js, h.pos)
      else Bad
    else StringEnd(js, p + 1)
  }

  predicate Delimiter(c: char) {
    c in {':', '\t', '\r', '\n', ' ', ',', ']', '}'}
  }

  /** The position after a primitive, with the character set of the non-strict mode. */
  function PrimitiveEnd(js: string, p: nat): (r: Scan)
    ensures !r.Short? && (r.Done? ==> p <= r.pos)
    ensures r.Done? && p <= |js| ==> r.pos <= |js|
    decreases |js| - p
  {
    if AtEnd(js, p) || Delimiter(js[p]) then Done(p)
    else if js[p] < ' ' || js[p] >= 127 as char then Bad
    else PrimitiveEnd(js, p + 1)
  }

  // ---- one step ----

  /** The innermost open token below n, or -1: the downward scan for brackets. */
  function LastOpen(toks: seq<Token>, n: nat): (i: int)
    requires n <= |toks|
    ensures -1 <= i < n
    ensures i >= 0 ==> Open(toks[i])
    ensures forall k :: i < k < n ==> !Open(toks[k])
  {
    if n == 0 then -1
    else if Open(toks[n - 1]) then n - 1
    else LastOpen(toks, n - 1)
  }

  /** The innermost open container below n, or -1: the scan at a comma. */
  function LastContainer(toks: seq<Token>, n: nat): (i: int)
    requires n <= |toks|
    ensures -1 <= i < n
    ensures i >= 0 ==> Open(toks[i]) && Container(toks[i])
    ensures forall k :: i < k < n ==> !(Open(toks[k]) && Container(toks[k]))
  {
    if n == 0 then -1
    else if Open(toks[n - 1]) && Container(toks[n - 1]) then n - 1
    else LastContainer(toks, n - 1)
  }

  /** One more child of the superior token, unless there is none. */
  function Bump(toks: seq<Token>, super: int): (r: seq<Token>)
    requires -1 <= super < |toks| || super == -1
    ensures |r| == |toks|
  {
    if super == -1 then toks else toks[super := toks[super].(size := toks[super].size + 1)]
  }

  function BracketKind(c: char): TokenType {
    if c == '{' || c == '}' then Object else Array
  }

  datatype Step = Next(s: State) | Stop(code: Code)

  function OpenBracket(s: State, c: char, cap: nat): (r: Step)
    requires Valid(s)
    ensures r.Next? ==> Valid(r.s)
  {
    if |s.toks| >= cap then Stop(NoMem)
    else Next(State(s.pos + 1, |s.toks|,
                    Bump(s.toks + [Token(BracketKind(c), s.pos, -1, 0)], s.super)))
  }

  function CloseBracket(s: State, c: char): (r: Step)
    requires Valid(s)
    ensures r.Next? ==> Valid(r.s)
  {
    var i := LastOpen(s.toks, |s.toks|);
    if i == -1 || s.toks[i].kind != BracketKind(c) then Stop(Inval)
    else
      var toks := s.toks[i := s.toks[i].(end := s.pos + 1)];
      Next(State(s.pos + 1, LastOpen(toks, i + 1), toks))
  }

  /** A string or primitive token, counted in its superior token. */
  function Leaf(s: State, kind: TokenType, start: nat, end: nat, next: nat, cap: nat): (r: Step)
    requires Valid(s)
    ensures r.Next? ==> Valid(r.s)
  {
    if |s.toks| >= cap then Stop(NoMem)
    else Next(State(next, s.super, Bump(s.toks + [Token(kind, start, end, 0)], s.super)))
  }

  function ScanError(r: Scan): Code
    requires !r.Done?
  {
    if r.Bad? then Inval else Part
  }

  function Quoted(s: State, js: string, cap: nat): (r: Step)
    requires Valid(s) && s.pos < |js|
    ensures r.Next? ==> Valid(r.s)
  {
    var e := StringEnd(js, s.pos + 1);
    if !e.Done? then Stop(ScanError(e)) else Leaf(s, String, s.pos + 1, e.pos, e.pos + 1, cap)
  }

  function Bare(s: State, js: string, cap: nat): (r: Step)
    requires Valid(s) && s.pos < |js|
    ensures r.Next? ==> Valid(r.s)
  {
    var e := PrimitiveEnd(js, s.pos);
    if !e.Done? then Stop(ScanError(e)) else Leaf(s, Primitive, s.pos, e.pos, e.pos, cap)
  }

  function Comma(s: State): (r: Step)
    requires Valid(s)
    ensures r.Next? && Valid(r.s)
  {
    var i := LastContainer(s.toks, |s.toks|);
    if s.super != -1 && !Container(s.toks[s.super]) && i >= 0 then Next(s.(pos := s.pos + 1, super := i))
    else Next(s.(pos := s.pos + 1))
  }

  predicate Blank(c: char) {
    c in {'\t', '\r', '\n', ' '}
  }

  /** The body of the main loop on the character at the current position. */
  function StepAt(js: string, s: State, cap: nat): (r: Step)
    requires Valid(s) && !AtEnd(js, s.pos)
    ensures r.Next? ==> Valid(r.s)
  {
    var c := js[s.pos];
    if c == '{' || c == '[' then OpenBracket(s, c, cap)
    else if c == '}' || c == ']' then CloseBracket(s, c)
    else if c == '"' then Quoted(s, js, cap)
    else if Blank(c) then Next(s.(pos := s.pos + 1))
    else if c == ':' then Next(s.(pos := s.pos + 1, super := |s.toks| - 1))
    else if c == ',' then Comma(s)
    else Bare(s, js, cap)
  }

  /** Every step moves forward and stays inside the input. */
  lemma StepAdvances(js: string, s: State, cap: nat)
    requires Valid(s) && !AtEnd(js, s.pos) && StepAt(js, s, cap).Next?
    ensures s.pos < StepAt(js, s, cap).s.pos <= |js|
  {
    var c := js[s.pos];
    if c !in {'{', '[', '}', ']', '"', ':', ','} && !Blank(c) {
      assert PrimitiveEnd(js, s.pos) == PrimitiveEnd(js, s.pos + 1);
    }
  }

  // ---- a whole run ----

  /** Where a call of jsmn_parse leaves the parser, and what it returns. */
  function Run(js: string, s: State, cap: nat): (r: (State, Code))
    requires Valid(s)
    ensures Valid(r.0)
    decreases |js| - s.pos
  {
    if AtEnd(js, s.pos) then
      (s, if LastOpen(s.toks, |s.toks|) >= 0 then Part else Count(|s.toks|))
    else
      var t := StepAt(js, s, cap);
      if t.Stop? then (s, t.code)
      else StepAdvances(js, s, cap); Run(js, t.s, cap)
  }

  /** The position and the running count of a call without a token array. */
  function CountRun(js: string, p: nat, n: nat): (r: (nat, Code))
    decreases |js| - p
  {
    if AtEnd(js, p) then (p, Count(n))
    else
      var c := js[p];
      if c == '{' || c == '[' then CountRun(js, p + 1, n + 1)
      else if c == '"' then
        var e := StringEnd(js, p + 1);
        if !e.Done? then (p, ScanError(e)) else CountRun(js, e.pos + 1, n + 1)
      else if c in {'}', ']', ':', ','} || Blank(c) then CountRun(js, p + 1, n)
      else
        var e := PrimitiveEnd(js, p);
        if !e.Done? then (p, ScanError(e))
        else assert PrimitiveEnd(js, p) == PrimitiveEnd(js, p + 1); CountRun(js, e.pos, n + 1)
  }
}
