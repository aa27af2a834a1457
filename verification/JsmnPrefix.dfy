/** Documents that arrive in pieces: what a cut gives, and when a later call goes on as if there had been none. */
module JsmnPrefix {
  import opened JsmnSpec
  import opened JsmnProps
  import opened JsmnRender
  import opened Slices

  // ---- the scanners on a cut input ----

  lemma {:induction false} HexCut(js: string, p: nat, n: nat, m: nat)
    requires p <= m <= |js|
    ensures var g, h := HexRun(js[..m], p, n), HexRun(js, p, n);
            (g.Bad? ==> h.Bad?) && (g.Done? ==> g.pos <= m && (g.pos < m ==> h == g))
    decreases n
  {
    if n > 0 && p < m && js[p] != '\0' && HexDigit(js[p]) { HexCut(js, p + 1, n - 1, m); }
  }

  /** A string is found too short, or as in the whole input. */
  lemma {:induction false} StringCut(js: string, p: nat, m: nat)
    requires p <= m <= |js|
    ensures StringEnd(js[..m], p).Short? || StringEnd(js[..m], p) == StringEnd(js, p)
    decreases m - p
  {
    if p < m && js[p] != '\0' && js[p] != '"' {
      if js[p] != '\\' {
        StringCut(js, p + 1, m);
      } else if p + 1 == m {
        assert StringEnd(js[..m], m).Short?;
      } else if Escapable(js[p + 1]) {
        StringCut(js, p + 2, m);
      } else if js[p + 1] == 'u' {
        HexCut(js, p + 2, 4, m);
        var g := HexRun(js[..m], p + 2, 4);
        if g.Done? { StringCut(js, g.pos, m); }
        assert g.Done? && g.pos == m ==> StringEnd(js[..m], m).Short?;
      }
    }
  }

  /** The input does not end at m, and nothing that ends a primitive is there. */
  predicate GoesOn(js: string, m: nat) {
    !AtEnd(js, m) && !Delimiter(js[m])
  }

  /** A primitive is found as in the whole input, or cut where it goes on. */
  lemma {:induction false} PrimitiveCut(js: string, p: nat, m: nat)
    requires p <= m <= |js|
    ensures var g, h := PrimitiveEnd(js[..m], p), PrimitiveEnd(js, p);
            g == h || (g == Done(m) && GoesOn(js, m) && (h.Done? ==> h.pos > m))
    decreases m - p
  {
    if p < m {
      if js[p] != '\0' && !Delimiter(js[p]) && ' ' <= js[p] < 127 as char { PrimitiveCut(js, p + 1, m); }
    } else if GoesOn(js, m) && PrimitiveEnd(js, m).Done? {
      assert PrimitiveEnd(js, m) == PrimitiveEnd(js, m + 1);
    }
  }

  // ---- one step on a cut input ----

  /** The step made a token of the part of a primitive before the cut. */
  predicate CutStep(js: string, s: State, m: nat, c: Step, t: Step) {
    var k := |s.toks|;
    c.Next? && c.s.pos == m && GoesOn(js, m) &&
    |c.s.toks| == k + 1 && c.s.toks[k].kind == Primitive && c.s.toks[k].end == m >= c.s.toks[k].start >= 0 &&
    (forall i :: 0 <= i < k && Open(s.toks[i]) ==> Open(c.s.toks[i])) &&
    (t.Next? ==> |t.s.toks| == k + 1 && !Open(t.s.toks[k]) && t.s.toks[k].end > m)
  }

  lemma StepCut(js: string, s: State, cap: nat, m: nat)
    requires Valid(s) && s.pos < m <= |js| && js[s.pos] != '\0'
    ensures var c, t := StepAt(js[..m], s, cap), StepAt(js, s, cap);
            c == t || c == Stop(Part) || (c.Stop? && t.Stop?) || CutStep(js, s, m, c, t)
  {
    var c := js[s.pos];
    assert js[..m][s.pos] == c;
    hide StringEnd, PrimitiveEnd;
    if c == '"' {
      StringCut(js, s.pos + 1, m);
    } else if c !in {'{', '[', '}', ']', ':', ','} && !Blank(c) {
      PrimitiveCut(js, s.pos, m);
    }
  }

  /** What closing or counting never changes: the kind and the place of a token that is not open. */
  predicate SamePlace(a: Token, b: Token) {
    a.kind == b.kind && a.start == b.start && a.end == b.end
  }

  lemma StepKeepsPlaces(js: string, s: State, cap: nat)
    requires Valid(s) && !AtEnd(js, s.pos) && StepAt(js, s, cap).Next?
    ensures var t := StepAt(js, s, cap).s;
            |s.toks| <= |t.toks| && forall k :: 0 <= k < |s.toks| && !Open(s.toks[k]) ==> SamePlace(t.toks[k], s.toks[k])
  {
    hide StringEnd, PrimitiveEnd;
  }

  lemma {:induction false} RunKeepsPlaces(js: string, s: State, cap: nat)
    requires Valid(s)
    ensures var t := Run(js, s, cap).0;
            |s.toks| <= |t.toks| && forall k :: 0 <= k < |s.toks| && !Open(s.toks[k]) ==> SamePlace(t.toks[k], s.toks[k])
    decreases |js| - s.pos
  {
    if !AtEnd(js, s.pos) && StepAt(js, s, cap).Next? {
      StepAdvances(js, s, cap);
      StepKeepsPlaces(js, s, cap);
      RunKeepsPlaces(js, StepAt(js, s, cap).s, cap);
    }
  }

  // ---- going on after a cut ----

  /** Every primitive ends where the input ends or a delimiter follows. */
  predicate PrimitivesEnd(js: string, toks: seq<Token>) {
    forall k :: 0 <= k < |toks| && toks[k].kind == Primitive ==> toks[k].end >= 0 && !GoesOn(js, toks[k].end)
  }

  lemma StepEndsPrimitives(js: string, s: State, cap: nat)
    requires Valid(s) && !AtEnd(js, s.pos) && PrimitivesEnd(js, s.toks) && StepAt(js, s, cap).Next?
    ensures PrimitivesEnd(js, StepAt(js, s, cap).s.toks)
  {
    hide StringEnd, PrimitiveEnd;
    if PrimitiveEnd(js, s.pos).Done? { PrimitiveEndPlain(js, s.pos); }
  }

  /** The last token is a primitive that was cut off at m. */
  predicate InPrimitive(js: string, m: nat, toks: seq<Token>) {
    GoesOn(js, m) && toks != [] && toks[|toks| - 1].kind == Primitive && toks[|toks| - 1].end == m
  }

  /**
   * A call on the first m characters and then one on the whole input leave what a single call leaves exactly
   * when the first call did not end inside a primitive: its tokens and the character at the cut tell.
   */
  lemma {:induction false} ResumeAfterCut(js: string, s: State, cap: nat, m: nat)
    requires Valid(s) && m <= |js| && PrimitivesEnd(js, s.toks)
    ensures var u := Run(js[..m], s, cap).0;
            Run(js, u, cap) == Run(js, s, cap) <==> !InPrimitive(js, m, u.toks)
    decreases |js| - s.pos
  {
    hide Run, StepAt;
    OneStep(js[..m], s, cap);
    if s.pos < m && js[s.pos] != '\0' {
      OneStep(js, s, cap);
      StepCut(js, s, cap, m);
      var c, t := StepAt(js[..m], s, cap), StepAt(js, s, cap);
      if c.Next? && c == t {
        StepAdvances(js, s, cap);
        StepEndsPrimitives(js, s, cap);
        ResumeAfterCut(js, t.s, cap, m);
      } else if c.Next? {
        OneStep(js[..m], c.s, cap);
        CutDiffers(js, s, cap, m, c.s);
      }
    }
  }

  lemma OneStep(js: string, s: State, cap: nat)
    requires Valid(s)
    ensures AtEnd(js, s.pos) ==> Run(js, s, cap).0 == s
    ensures !AtEnd(js, s.pos) ==>
              var t := StepAt(js, s, cap);
              Run(js, s, cap) == if t.Next? then Run(js, t.s, cap) else (s, t.code)
  {}

  lemma CutDiffers(js: string, s: State, cap: nat, m: nat, u: State)
    requires Valid(s) && Valid(u) && !AtEnd(js, s.pos) && CutStep(js, s, m, Next(u), StepAt(js, s, cap))
    ensures Run(js, u, cap) != Run(js, s, cap) && InPrimitive(js, m, u.toks)
  {
    hide Run, StepAt;
    var k := |s.toks|;
    RunKeepsPlaces(js, u, cap);
    assert !Open(u.toks[k]);
    OneStep(js, s, cap);
    if StepAt(js, s, cap).Next? { RunKeepsPlaces(js, StepAt(js, s, cap).s, cap); }
  }

  /** Calls on longer and longer parts of the input, and at last on all of it. */
  function InPieces(js: string, s: State, cuts: seq<nat>, cap: nat): (State, Code)
    requires Valid(s) && forall i :: 0 <= i < |cuts| ==> cuts[i] <= |js|
    decreases |cuts|
  {
    if cuts == [] then Run(js, s, cap) else InPieces(js, Run(js[..cuts[0]], s, cap).0, cuts[1..], cap)
  }

  lemma {:induction false} RunEndsPrimitives(js: string, s: State, cap: nat, m: nat)
    requires Valid(s) && m <= |js| && PrimitivesEnd(js, s.toks) && !GoesOn(js, m)
    ensures PrimitivesEnd(js, Run(js[..m], s, cap).0.toks)
    decreases |js| - s.pos
  {
    hide Run, StepAt;
    OneStep(js[..m], s, cap);
    if s.pos < m && js[s.pos] != '\0' {
      StepCut(js, s, cap, m);
      var t := StepAt(js, s, cap);
      if StepAt(js[..m], s, cap).Next? {
        StepAdvances(js, s, cap);
        StepEndsPrimitives(js, s, cap);
        RunEndsPrimitives(js, t.s, cap, m);
      }
    }
  }

  /** However many pieces there are: cuts before delimiters leave no trace. */
  lemma {:induction false} PiecesLeaveNoTrace(js: string, s: State, cuts: seq<nat>, cap: nat)
    requires Valid(s) && PrimitivesEnd(js, s.toks)
    requires forall i :: 0 <= i < |cuts| ==> cuts[i] <= |js| && !GoesOn(js, cuts[i])
    ensures InPieces(js, s, cuts, cap) == Run(js, s, cap)
    decreases |cuts|
  {
    hide Run;
    if cuts != [] {
      var u := Run(js[..cuts[0]], s, cap).0;
      ResumeAfterCut(js, s, cap, cuts[0]);
      RunEndsPrimitives(js, s, cap, cuts[0]);
      PiecesLeaveNoTrace(js, u, cuts[1..], cap);
    }
  }

  lemma WordEnds()
    ensures PrimitiveEnd("true", 0) == PrimitiveEnd("true", 2) == Done(4) && PrimitiveEnd("tr", 0) == Done(2)
  {
    assert PrimitiveEnd("true", 0) == PrimitiveEnd("true", 1) == PrimitiveEnd("true", 2) == PrimitiveEnd("true", 3) ==
           PrimitiveEnd("true", 4) == Done(4);
    assert PrimitiveEnd("tr", 0) == PrimitiveEnd("tr", 1) == PrimitiveEnd("tr", 2) == Done(2);
  }

  /** The word "true" cut in the middle: two tokens instead of one. */
  lemma CutWord()
    ensures Run("true", INIT, 2) == (State(4, -1, [Token(Primitive, 0, 4, 0)]), Count(1))
    ensures InPieces("true", INIT, [2], 2) ==
            (State(4, -1, [Token(Primitive, 0, 2, 0), Token(Primitive, 2, 4, 0)]), Count(2))
  {
    var js := "true";
    assert js[..2] == "tr";
    hide PrimitiveEnd;
    WordEnds();
    var a, b := State(4, -1, [Token(Primitive, 0, 4, 0)]), State(2, -1, [Token(Primitive, 0, 2, 0)]);
    var c := State(4, -1, [Token(Primitive, 0, 2, 0), Token(Primitive, 2, 4, 0)]);
    hide StringEnd, LastOpen;
    assert StepAt(js, INIT, 2) == Next(a) && StepAt("tr", INIT, 2) == Next(b) && StepAt(js, b, 2) == Next(c);
    hide StepAt;
    RunEnds(js, a, 2);
    RunEnds("tr", b, 2);
    RunEnds(js, c, 2);
    OneStep(js, INIT, 2);
    OneStep("tr", INIT, 2);
    OneStep(js, b, 2);
    hide Run;
    assert InPieces(js, b, [], 2) == Run(js, b, 2);
    assert [2][1..] == [];
  }

  // ---- what a cut document gives ----

  /** While the outermost container is open at the cut, more input is asked for. */
  lemma {:induction false} OpenAtCut(js: string, s: State, cap: nat, m: nat)
    requires Valid(s) && m <= |js| && s.toks != [] && Open(s.toks[0]) && Run(js, s, cap).1.Count?
    requires |Run(js, s, cap).0.toks| > 0 && Run(js, s, cap).0.toks[0].end > m
    ensures Run(js[..m], s, cap).1 == Part
    decreases |js| - s.pos
  {
    hide StepAt, LastOpen;
    if s.pos < m && js[s.pos] != '\0' {
      StepCut(js, s, cap, m);
      var c, t := StepAt(js[..m], s, cap), StepAt(js, s, cap);
      assert t.Next?;
      if c.Next? {
        if c == t {
          StepAdvances(js, s, cap);
          OuterStays(js, s, cap);
          if !Open(t.s.toks[0]) { RunKeepsPlaces(js, t.s, cap); }
          OpenAtCut(js, t.s, cap, m);
        }
      }
    }
  }

  lemma OuterStays(js: string, s: State, cap: nat)
    requires Valid(s) && !AtEnd(js, s.pos) && StepAt(js, s, cap).Next? && s.toks != [] && Open(s.toks[0])
    ensures var t := StepAt(js, s, cap).s;
            t.toks != [] && (Open(t.toks[0]) || t.toks[0].end == s.pos + 1)
  {
    hide StringEnd, PrimitiveEnd;
  }

  lemma BlankPrefix(js: string, pre: string, cap: nat, m: nat)
    requires Blanks(pre) && At(js, 0, pre) && m <= |pre|
    ensures Run(js[..m], INIT, cap).1 == Count(0)
  {
    hide Run;
    var w := pre[..m];
    assert js[..m] == w by { assert js[..|pre|] == pre; }
    assert At(w, 0, w);
    RunBlanks(w, INIT, cap, w);
    RunEnds(w, State(m, -1, []), cap);
  }

  /** A string that is cut off. */
  lemma CutString(js: string, p: nat, ps: seq<Piece>, cap: nat, m: nat)
    requires PiecesOk(ps) && At(js, p, StrText(ps)) && p < m < p + |StrText(ps)|
    ensures Run(js[..m], State(p, -1, []), cap).1 == Part
  {
    hide PiecesText, StringEnd, PieceOk;
    var body := PiecesText(ps) + ['"'];
    assert StrText(ps) == ['"'] + body;
    AtSplit(js, p, ['"'], body);
    AtChar(js, p, '"');
    ScanPieces(js, p + 1, ps);
    StringCut(js, p + 1, m);
  }

  /** A container that is cut off. */
  lemma CutContainer(js: string, p: nat, v: Json, cap: nat, m: nat)
    requires (v.Arr? || v.Obj?) && At(js, p, Text(v)) && p < m < p + |Text(v)|
    requires Run(js, State(p, -1, []), cap).1.Count? && |Run(js, State(p, -1, []), cap).0.toks| > 0
    requires Run(js, State(p, -1, []), cap).0.toks[0].end > m
    ensures Run(js[..m], State(p, -1, []), cap).1 == Part
  {
    var s, c := State(p, -1, []), Text(v)[0];
    assert c in {'{', '['};
    hide Text, LastOpen, Run;
    AtIndex(js, p, Text(v), 0);
    assert StepAt(js, s, cap) == OpenBracket(s, c, cap) == StepAt(js[..m], s, cap);
    OneStep(js, s, cap);
    OneStep(js[..m], s, cap);
    var t := OpenBracket(s, c, cap).s;
    assert t.toks == [Token(BracketKind(c), p, -1, 0)];
    OpenAtCut(js, t, cap, m);
  }

  lemma FirstToken(v: Json, p: nat)
    requires v.Arr? || v.Obj?
    ensures |Tokens(v, p)| > 0 && Tokens(v, p)[0].end == p + |Text(v)|
  {
    hide Text;
  }

  /**
   * A string, array or object that is cut anywhere asks for more input, before its first character there
   * is nothing to parse, and behind its last one it has been parsed.
   */
  lemma CutDocument(v: Json, pre: string, post: string, cap: nat, m: nat)
    requires Ok(v) && !v.Prim? && Blanks(pre) && Blanks(post) && |Tokens(v, |pre|)| <= cap
    requires m <= |pre| + |Text(v)| + |post|
    ensures Run((pre + Text(v) + post)[..m], INIT, cap).1 ==
            if m <= |pre| then Count(0) else if m < |pre| + |Text(v)| then Part else Count(|Tokens(v, |pre|)|)
  {
    hide Run, Text, Tokens, Ok, Blanks;
    var js, p := pre + Text(v) + post, |pre|;
    assert js == pre + (Text(v) + post);
    assert At(js, 0, pre) && At(js, p, Text(v));
    if m <= p {
      BlankPrefix(js, pre, cap, m);
    } else if m < p + |Text(v)| {
      assert At(js[..m], 0, pre);
      RunBlanks(js[..m], INIT, cap, pre);
      RunBlanks(js, INIT, cap, pre);
      ParseRendered(v, pre, post, cap);
      CutInside(js, p, v, cap, m);
    } else {
      AllBlanks(post, m - p - |Text(v)|);
      assert js[..m] == pre + Text(v) + post[..m - p - |Text(v)|];
      ParseRendered(v, pre, post[..m - p - |Text(v)|], cap);
    }
  }

  lemma AllBlanks(w: string, n: nat)
    requires Blanks(w) && n <= |w|
    ensures Blanks(w[..n])
  {}

  lemma CutInside(js: string, p: nat, v: Json, cap: nat, m: nat)
    requires Ok(v) && !v.Prim? && At(js, p, Text(v)) && p < m < p + |Text(v)|
    requires Run(js, State(p, -1, []), cap).1.Count? && Run(js, State(p, -1, []), cap).0.toks == Tokens(v, p)
    ensures Run(js[..m], State(p, -1, []), cap).1 == Part
  {
    hide Run, Tokens;
    if v.Str? {
      assert Text(v) == StrText(v.ps);
      CutString(js, p, v.ps, cap, m);
    } else {
      FirstToken(v, p);
      CutContainer(js, p, v, cap, m);
    }
  }
}
