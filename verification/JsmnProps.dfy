/** What every run of the tokenizer keeps, and what a successful run delivers. */
module JsmnProps {
  import opened JsmnSpec

  // ---- placement and nesting ----

  predicate Placed(t: Token, pos: nat) {
    0 <= t.start < pos && (if Open(t) then Container(t) else t.start <= t.end <= pos)
  }

  /** The later token u lies after the closed token t or inside it. */
  predicate AfterOrInside(t: Token, u: Token) {
    t.end <= u.start || (!Open(u) && u.end <= t.end)
  }

  ghost predicate Shape(s: State) {
    (forall i :: 0 <= i < |s.toks| ==> Placed(s.toks[i], s.pos)) &&
    (forall i, j :: 0 <= i < j < |s.toks| ==> s.toks[i].start < s.toks[j].start) &&
    (forall i, j :: 0 <= i < j < |s.toks| && !Open(s.toks[i]) ==> AfterOrInside(s.toks[i], s.toks[j]))
  }

  /** Only sizes differ. */
  ghost predicate SameSpans(a: seq<Token>, b: seq<Token>) {
    |a| == |b| && forall i :: 0 <= i < |a| ==> a[i] == b[i].(size := a[i].size)
  }

  lemma BumpSpans(toks: seq<Token>, super: int)
    requires super == -1 || 0 <= super < |toks|
    ensures SameSpans(Bump(toks, super), toks)
  {}

  lemma ShapeOfSpans(p: nat, q: nat, s: int, t: int, a: seq<Token>, b: seq<Token>)
    requires SameSpans(a, b) && Shape(State(p, s, b)) && p <= q
    ensures Shape(State(q, t, a))
  {}

  lemma AppendShape(s: State, t: Token, next: nat)
    requires Shape(s) && s.pos <= t.start && Placed(t, next) && s.pos <= next
    ensures Shape(State(next, s.super, s.toks + [t]))
  {
    var toks := s.toks + [t];
    forall i, j | 0 <= i < j < |toks| && !Open(toks[i])
      ensures AfterOrInside(toks[i], toks[j])
    {
      assert Placed(s.toks[i], s.pos);
    }
  }

  lemma CloseShape(s: State, c: char)
    requires Valid(s) && Shape(s) && CloseBracket(s, c).Next?
    ensures Shape(CloseBracket(s, c).s)
  {
    var i := LastOpen(s.toks, |s.toks|);
    var toks := s.toks[i := s.toks[i].(end := s.pos + 1)];
    assert Placed(s.toks[i], s.pos);
    forall j | i < j < |toks|
      ensures AfterOrInside(toks[i], toks[j])
    {
      assert Placed(s.toks[j], s.pos);
    }
  }

  lemma LeafShape(s: State, kind: TokenType, start: nat, end: nat, next: nat, cap: nat)
    requires Valid(s) && Shape(s) && s.pos <= start <= end <= next && start < next
    requires Leaf(s, kind, start, end, next, cap).Next?
    ensures Shape(Leaf(s, kind, start, end, next, cap).s)
  {
    var t := Token(kind, start, end, 0);
    AppendShape(s, t, next);
    BumpSpans(s.toks + [t], s.super);
    ShapeOfSpans(next, next, s.super, s.super, Bump(s.toks + [t], s.super), s.toks + [t]);
  }

  lemma OpenShape(s: State, c: char, cap: nat)
    requires Valid(s) && Shape(s) && OpenBracket(s, c, cap).Next?
    ensures Shape(OpenBracket(s, c, cap).s)
  {
    var t := Token(BracketKind(c), s.pos, -1, 0);
    AppendShape(s, t, s.pos + 1);
    BumpSpans(s.toks + [t], s.super);
    ShapeOfSpans(s.pos + 1, s.pos + 1, s.super, |s.toks|, Bump(s.toks + [t], s.super), s.toks + [t]);
  }

  lemma StepKeepsShape(js: string, s: State, cap: nat)
    requires Valid(s) && !AtEnd(js, s.pos) && Shape(s) && StepAt(js, s, cap).Next?
    ensures Shape(StepAt(js, s, cap).s)
  {
    hide Shape;
    var c := js[s.pos];
    StepAdvances(js, s, cap);
    if c == '{' || c == '[' {
      OpenShape(s, c, cap);
    } else if c == '}' || c == ']' {
      CloseShape(s, c);
    } else if c == '"' {
      var e := StringEnd(js, s.pos + 1).pos;
      LeafShape(s, String, s.pos + 1, e, e + 1, cap);
    } else if Blank(c) || c == ':' || c == ',' {
      ShapeOfSpans(s.pos, s.pos + 1, s.super, StepAt(js, s, cap).s.super, s.toks, s.toks);
    } else {
      var e := PrimitiveEnd(js, s.pos).pos;
      LeafShape(s, Primitive, s.pos, e, e, cap);
    }
  }

  // ---- sizes ----

  function SizeSum(toks: seq<Token>): nat {
    if |toks| == 0 then 0 else SizeSum(toks[..|toks| - 1]) + toks[|toks| - 1].size
  }

  lemma SizeAppend(toks: seq<Token>, t: Token)
    ensures SizeSum(toks + [t]) == SizeSum(toks) + t.size
  {
    assert (toks + [t])[..|toks|] == toks;
  }

  lemma {:induction false} SizeUpdate(toks: seq<Token>, i: nat, t: Token)
    requires i < |toks|
    ensures SizeSum(toks[i := t]) == SizeSum(toks) + t.size - toks[i].size
  {
    var n := |toks| - 1;
    if i == n {
      assert toks[i := t][..n] == toks[..n];
    } else {
      assert toks[i := t][..n] == toks[..n][i := t];
      SizeUpdate(toks[..n], i, t);
    }
  }

  /** The tokens that one step creates without a superior token: 0 or 1. */
  function NewRoots(s: State, t: State): nat {
    if |t.toks| > |s.toks| && s.super == -1 then 1 else 0
  }

  lemma BumpSizes(toks: seq<Token>, super: int)
    requires super == -1 || 0 <= super < |toks|
    ensures SizeSum(Bump(toks, super)) == SizeSum(toks) + if super == -1 then 0 else 1
  {
    if super != -1 { SizeUpdate(toks, super, toks[super].(size := toks[super].size + 1)); }
  }

  lemma StepCountsSizes(js: string, s: State, cap: nat)
    requires Valid(s) && !AtEnd(js, s.pos) && StepAt(js, s, cap).Next?
    ensures var t := StepAt(js, s, cap).s;
            SizeSum(t.toks) + NewRoots(s, t) == SizeSum(s.toks) + (|t.toks| - |s.toks|)
    ensures |s.toks| <= |StepAt(js, s, cap).s.toks|
  {
    hide SizeSum;
    var c, t := js[s.pos], StepAt(js, s, cap).s;
    if c == '}' || c == ']' {
      var i := LastOpen(s.toks, |s.toks|);
      SizeUpdate(s.toks, i, s.toks[i].(end := s.pos + 1));
    } else if !(Blank(c) || c == ':' || c == ',') {
      var u := if c == '{' || c == '[' then Token(BracketKind(c), s.pos, -1, 0)
               else if c == '"' then Token(String, s.pos + 1, StringEnd(js, s.pos + 1).pos, 0)
               else Token(Primitive, s.pos, PrimitiveEnd(js, s.pos).pos, 0);
      assert t.toks == Bump(s.toks + [u], s.super);
      SizeAppend(s.toks, u);
      BumpSizes(s.toks + [u], s.super);
    }
  }

  /** Tokens created with no superior token over a whole run. */
  function Roots(js: string, s: State, cap: nat): nat
    requires Valid(s)
    decreases |js| - s.pos
  {
    if AtEnd(js, s.pos) || StepAt(js, s, cap).Stop? then 0
    else
      StepAdvances(js, s, cap);
      NewRoots(s, StepAt(js, s, cap).s) + Roots(js, StepAt(js, s, cap).s, cap)
  }

  // ---- what a token denotes ----

  predicate PlainChars(js: string, a: nat, b: nat)
    requires a <= b <= |js|
  {
    forall k :: a <= k < b ==> !Delimiter(js[k]) && ' ' <= js[k] < 127 as char
  }

  /** The characters at the ends of a token's span. */
  predicate Denotes(js: string, t: Token) {
    0 <= t.start < |js| &&
    match t.kind
    case Undefined => false
    case Object => js[t.start] == '{' && (!Open(t) ==> t.start < t.end <= |js| && js[t.end - 1] == '}')
    case Array => js[t.start] == '[' && (!Open(t) ==> t.start < t.end <= |js| && js[t.end - 1] == ']')
    case String => 0 < t.start <= t.end < |js| && js[t.start - 1] == '"' && js[t.end] == '"'
    case Primitive =>
      t.start < t.end <= |js| && PlainChars(js, t.start, t.end) && (AtEnd(js, t.end) || Delimiter(js[t.end]))
  }

  ghost predicate AllDenote(js: string, toks: seq<Token>) {
    forall i :: 0 <= i < |toks| ==> Denotes(js, toks[i])
  }

  lemma {:induction false} StringEndQuote(js: string, p: nat)
    requires StringEnd(js, p).Done?
    ensures js[StringEnd(js, p).pos] == '"'
    decreases |js| - p
  {
    if js[p] == '"' {
    } else if js[p] == '\\' && p + 1 < |js| {
      if Escapable(js[p + 1]) {
        StringEndQuote(js, p + 2);
      } else {
        StringEndQuote(js, HexRun(js, p + 2, 4).pos);
      }
    } else {
      StringEndQuote(js, p + 1);
    }
  }

  lemma {:induction false} PrimitiveEndPlain(js: string, p: nat)
    requires PrimitiveEnd(js, p).Done? && p <= |js|
    ensures PlainChars(js, p, PrimitiveEnd(js, p).pos)
    ensures AtEnd(js, PrimitiveEnd(js, p).pos) || Delimiter(js[PrimitiveEnd(js, p).pos])
    decreases |js| - p
  {
    if !(AtEnd(js, p) || Delimiter(js[p])) {
      PrimitiveEndPlain(js, p + 1);
    }
  }

  lemma BumpDenotes(js: string, toks: seq<Token>, super: int)
    requires (super == -1 || 0 <= super < |toks|) && AllDenote(js, toks)
    ensures AllDenote(js, Bump(toks, super))
  {}

  lemma StepKeepsDenotation(js: string, s: State, cap: nat)
    requires Valid(s) && !AtEnd(js, s.pos) && AllDenote(js, s.toks) && Shape(s) && StepAt(js, s, cap).Next?
    ensures AllDenote(js, StepAt(js, s, cap).s.toks)
  {
    var c := js[s.pos];
    if c == '}' || c == ']' {
      var i := LastOpen(s.toks, |s.toks|);
      assert Placed(s.toks[i], s.pos);
    } else if c == '{' || c == '[' {
      BumpDenotes(js, s.toks + [Token(BracketKind(c), s.pos, -1, 0)], s.super);
    } else if c == '"' {
      StringEndQuote(js, s.pos + 1);
      BumpDenotes(js, s.toks + [Token(String, s.pos + 1, StringEnd(js, s.pos + 1).pos, 0)], s.super);
    } else if !(Blank(c) || c == ':' || c == ',') {
      StepAdvances(js, s, cap);
      PrimitiveEndPlain(js, s.pos);
      BumpDenotes(js, s.toks + [Token(Primitive, s.pos, PrimitiveEnd(js, s.pos).pos, 0)], s.super);
    }
  }

  // ---- whole runs ----

  lemma {:induction false} RunKeeps(js: string, s: State, cap: nat)
    requires Valid(s) && Shape(s) && AllDenote(js, s.toks)
    ensures var t := Run(js, s, cap).0;
            Shape(t) && AllDenote(js, t.toks) &&
            SizeSum(t.toks) + Roots(js, s, cap) == SizeSum(s.toks) + (|t.toks| - |s.toks|)
    ensures Run(js, s, cap).1.Count? ==> AtEnd(js, Run(js, s, cap).0.pos)
    decreases |js| - s.pos
  {
    hide Shape, AllDenote, SizeSum, NewRoots;
    if !AtEnd(js, s.pos) && StepAt(js, s, cap).Next? {
      StepAdvances(js, s, cap);
      StepKeepsShape(js, s, cap);
      StepCountsSizes(js, s, cap);
      StepKeepsDenotation(js, s, cap);
      RunKeeps(js, StepAt(js, s, cap).s, cap);
    }
  }

  predicate NestedOrDisjoint(t: Token, u: Token) {
    t.end <= u.start || (t.start < u.start && u.end <= t.end)
  }

  /**
   * A successful call on a fresh parser: every token is closed and denotes its text, starts increase,
   * spans nest or are disjoint, and each token is counted once, in a size or as a root.
   */
  lemma SuccessfulParse(js: string, cap: nat)
    requires Run(js, INIT, cap).1.Count?
    ensures var (s, code) := Run(js, INIT, cap);
            && code.n == |s.toks| && AtEnd(js, s.pos)
            && (forall i :: 0 <= i < |s.toks| ==>
                  !Open(s.toks[i]) && 0 <= s.toks[i].start <= s.toks[i].end <= s.pos && Denotes(js, s.toks[i]))
            && (forall i, j :: 0 <= i < j < |s.toks| ==>
                  s.toks[i].start < s.toks[j].start && NestedOrDisjoint(s.toks[i], s.toks[j]))
            && SizeSum(s.toks) + Roots(js, INIT, cap) == code.n
  {
    RunKeeps(js, INIT, cap);
    RunFinish(js, INIT, cap);
    var s := Run(js, INIT, cap).0;
    forall i | 0 <= i < |s.toks|
      ensures !Open(s.toks[i]) && Placed(s.toks[i], s.pos) && Denotes(js, s.toks[i])
    {}
  }

  lemma {:induction false} RunFinish(js: string, s: State, cap: nat)
    requires Valid(s) && Run(js, s, cap).1.Count?
    ensures var (t, code) := Run(js, s, cap);
            code.n == |t.toks| && forall i :: 0 <= i < |t.toks| ==> !Open(t.toks[i])
    decreases |js| - s.pos
  {
    if AtEnd(js, s.pos) {
      assert LastOpen(s.toks, |s.toks|) == -1;
    } else {
      StepAdvances(js, s, cap);
      RunFinish(js, StepAt(js, s, cap).s, cap);
    }
  }

  // ---- counting, and running out of tokens ----

  /** Counting and filling agree as long as filling goes on. */
  lemma {:induction false} CountFollowsRun(js: string, s: State, cap: nat)
    requires Valid(s)
    ensures var (t, code) := Run(js, s, cap);
            var (p, n) := CountRun(js, s.pos, |s.toks|);
            && (code.Count? ==> p == t.pos && n == code)
            && (code.NoMem? && n.Count? ==> cap < n.n)
            && (n.Count? ==> |s.toks| <= n.n)
    decreases |js| - s.pos
  {
    if AtEnd(js, s.pos) {
    } else if StepAt(js, s, cap).Next? {
      StepAdvances(js, s, cap);
      CountStep(js, s, cap);
      CountFollowsRun(js, StepAt(js, s, cap).s, cap);
    } else {
      CountGrows(js, s.pos, |s.toks|);
      if StepAt(js, s, cap) == Stop(NoMem) { CountPastStop(js, s, cap); }
    }
  }

  lemma CountStep(js: string, s: State, cap: nat)
    requires Valid(s) && !AtEnd(js, s.pos) && StepAt(js, s, cap).Next?
    ensures var t := StepAt(js, s, cap).s;
            CountRun(js, s.pos, |s.toks|) == CountRun(js, t.pos, |t.toks|)
    ensures |s.toks| <= |StepAt(js, s, cap).s.toks|
  {
    var c := js[s.pos];
    if c !in {'{', '[', '}', ']', '"', ':', ','} && !Blank(c) {
      assert PrimitiveEnd(js, s.pos) == PrimitiveEnd(js, s.pos + 1);
    }
  }

  lemma {:induction false} CountGrows(js: string, p: nat, n: nat)
    ensures CountRun(js, p, n).1.Count? ==> n <= CountRun(js, p, n).1.n
    decreases |js| - p
  {
    if !AtEnd(js, p) {
      var c := js[p];
      if c == '{' || c == '[' {
        CountGrows(js, p + 1, n + 1);
      } else if c == '"' {
        var e := StringEnd(js, p + 1);
        if e.Done? { CountGrows(js, e.pos + 1, n + 1); }
      } else if c in {'}', ']', ':', ','} || Blank(c) {
        CountGrows(js, p + 1, n);
      } else {
        var e := PrimitiveEnd(js, p);
        if e.Done? {
          assert e == PrimitiveEnd(js, p + 1);
          CountGrows(js, e.pos, n + 1);
        }
      }
    }
  }

  /** A step that finds no free token would have been counted. */
  lemma CountPastStop(js: string, s: State, cap: nat)
    requires Valid(s) && !AtEnd(js, s.pos) && StepAt(js, s, cap) == Stop(NoMem)
    ensures CountRun(js, s.pos, |s.toks|).1.Count? ==> cap < CountRun(js, s.pos, |s.toks|).1.n
  {
    var c, p, n := js[s.pos], s.pos, |s.toks|;
    if c == '{' || c == '[' {
      CountGrows(js, p + 1, n + 1);
    } else if c == '"' {
      CountGrows(js, StringEnd(js, p + 1).pos + 1, n + 1);
    } else {
      assert PrimitiveEnd(js, p) == PrimitiveEnd(js, p + 1);
      CountGrows(js, PrimitiveEnd(js, p).pos, n + 1);
    }
  }

  /** The count of a first pass is exactly the number of tokens a second pass needs. */
  lemma TwoPasses(js: string, cap: nat)
    requires CountRun(js, 0, 0).1.Count?
    ensures var n := CountRun(js, 0, 0).1.n;
            var code := Run(js, INIT, cap).1;
            && (n <= cap ==> !code.NoMem?)
            && (code.Count? ==> code.n == n <= cap)
  {
    CountFollowsRun(js, INIT, cap);
    RunWithinCapacity(js, INIT, cap);
  }

  lemma {:induction false} RunWithinCapacity(js: string, s: State, cap: nat)
    requires Valid(s) && |s.toks| <= cap
    ensures |Run(js, s, cap).0.toks| <= cap
    ensures Run(js, s, cap).1.Count? ==> Run(js, s, cap).1.n == |Run(js, s, cap).0.toks|
    decreases |js| - s.pos
  {
    if !AtEnd(js, s.pos) && StepAt(js, s, cap).Next? {
      StepAdvances(js, s, cap);
      RunWithinCapacity(js, StepAt(js, s, cap).s, cap);
    }
  }

  lemma StepWithMore(js: string, s: State, cap: nat, more: nat)
    requires Valid(s) && !AtEnd(js, s.pos) && cap <= more && StepAt(js, s, cap) != Stop(NoMem)
    ensures StepAt(js, s, more) == StepAt(js, s, cap)
  {}

  /**
   * Going on with a longer array after JSMN_ERROR_NOMEM ends exactly where one run with the
   * longer array ends; a run that did not run out would not have noticed the difference.
   */
  lemma {:induction false} ResumeAfterNoMem(js: string, s: State, cap: nat, more: nat)
    requires Valid(s) && cap <= more
    ensures var (t, code) := Run(js, s, cap);
            Run(js, s, more) == if code.NoMem? then Run(js, t, more) else (t, code)
    decreases |js| - s.pos
  {
    if !AtEnd(js, s.pos) && StepAt(js, s, cap) != Stop(NoMem) {
      StepWithMore(js, s, cap, more);
      if StepAt(js, s, cap).Next? {
        StepAdvances(js, s, cap);
        ResumeAfterNoMem(js, StepAt(js, s, cap).s, cap, more);
      }
    }
  }

  // ---- the bracket stack kept in the flat array ----

  /** The indices of the open tokens, outermost first. */
  function OpenStack(toks: seq<Token>): seq<nat> {
    if |toks| == 0 then []
    else
      var n := |toks| - 1;
      OpenStack(toks[..n]) + if Open(toks[n]) then [n] else []
  }

  lemma {:induction false} OpenStackOf(a: seq<Token>, b: seq<Token>)
    requires |a| == |b| && forall i :: 0 <= i < |a| ==> (Open(a[i]) <==> Open(b[i]))
    ensures OpenStack(a) == OpenStack(b)
  {
    if |a| > 0 { OpenStackOf(a[..|a| - 1], b[..|b| - 1]); }
  }

  /** The downward scan finds the top of the stack. */
  lemma {:induction false} ScanFindsTop(toks: seq<Token>, n: nat)
    requires n <= |toks|
    ensures var st := OpenStack(toks[..n]);
            LastOpen(toks, n) == if |st| == 0 then -1 else st[|st| - 1]
  {
    if n > 0 {
      assert toks[..n][..n - 1] == toks[..n - 1];
      ScanFindsTop(toks, n - 1);
    }
  }

  lemma OpenStackPush(toks: seq<Token>, t: Token)
    ensures OpenStack(toks + [t]) == OpenStack(toks) + if Open(t) then [|toks|] else []
  {
    assert (toks + [t])[..|toks|] == toks;
  }

  lemma {:induction false} OpenStackPop(toks: seq<Token>, i: nat, t: Token)
    requires i < |toks| && Open(toks[i]) && !Open(t) && (forall k :: i < k < |toks| ==> !Open(toks[k]))
    ensures OpenStack(toks) == OpenStack(toks[i := t]) + [i]
  {
    var n := |toks| - 1;
    if i == n {
      assert toks[i := t][..n] == toks[..n];
    } else {
      assert toks[i := t][..n] == toks[..n][i := t];
      OpenStackPop(toks[..n], i, t);
    }
  }

  /**
   * The array works as a stack: an opening bracket pushes its token, a closing bracket pops the top
   * and makes the new top superior, and no other character changes the stack.
   */
  lemma StepIsStackStep(js: string, s: State, cap: nat)
    requires Valid(s) && !AtEnd(js, s.pos) && StepAt(js, s, cap).Next?
    ensures var c, t := js[s.pos], StepAt(js, s, cap).s;
            var st, st' := OpenStack(s.toks), OpenStack(t.toks);
            if c == '{' || c == '[' then st' == st + [|s.toks|]
            else if c == '}' || c == ']' then
              |st| > 0 && st' == st[..|st| - 1] &&
              t.super == if |st'| == 0 then -1 else st'[|st'| - 1]
            else st' == st
  {
    hide OpenStack;
    var c, t := js[s.pos], StepAt(js, s, cap).s;
    if c == '{' || c == '[' {
      PushToken(s, Token(BracketKind(c), s.pos, -1, 0));
    } else if c == '}' || c == ']' {
      PopToken(s, c);
    } else if c == '"' {
      PushToken(s, Token(String, s.pos + 1, StringEnd(js, s.pos + 1).pos, 0));
    } else if !(Blank(c) || c == ':' || c == ',') {
      PushToken(s, Token(Primitive, s.pos, PrimitiveEnd(js, s.pos).pos, 0));
    }
  }

  lemma PushToken(s: State, u: Token)
    requires Valid(s)
    ensures OpenStack(Bump(s.toks + [u], s.super)) == OpenStack(s.toks) + if Open(u) then [|s.toks|] else []
  {
    hide OpenStack;
    OpenStackPush(s.toks, u);
    OpenStackOf(Bump(s.toks + [u], s.super), s.toks + [u]);
  }

  lemma PopToken(s: State, c: char)
    requires Valid(s) && CloseBracket(s, c).Next?
    ensures var t := CloseBracket(s, c).s;
            var st, st' := OpenStack(s.toks), OpenStack(t.toks);
            |st| > 0 && st' == st[..|st| - 1] &&
            t.super == if |st'| == 0 then -1 else st'[|st'| - 1]
  {
    hide OpenStack;
    var t, i := CloseBracket(s, c).s, LastOpen(s.toks, |s.toks|);
    OpenStackPop(s.toks, i, t.toks[i]);
    ScanFindsTop(t.toks, |t.toks|);
    assert t.toks[..|t.toks|] == t.toks;
    ScanBelow(t.toks, i + 1);
  }

  /** Starting the scan above n changes nothing when all tokens there are closed. */
  lemma {:induction false} ScanBelow(toks: seq<Token>, n: nat)
    requires n <= |toks| && forall k :: n <= k < |toks| ==> !Open(toks[k])
    ensures LastOpen(toks, |toks|) == LastOpen(toks, n)
  {
    var m := |toks|;
    while m > n
      invariant n <= m <= |toks| && LastOpen(toks, |toks|) == LastOpen(toks, m)
    {
      m := m - 1;
    }
  }
}
