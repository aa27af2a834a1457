/** Parsing a written document gives back its structure. */
module JsmnRender {
  import opened JsmnSpec
  import opened JsmnProps
  import opened Slices

  // ---- documents and their text ----

  datatype Piece = Plain(c: char) | Escape(c: char) | Unicode(h: string)

  /** A JSON value with the blanks that may be written inside it. */
  datatype Json =
    | Prim(text: string)
    | Str(ps: seq<Piece>)
    | Arr(ws: string, items: Items)
    | Obj(ws: string, fields: Fields)

  datatype Items = NoItems | Item(pre: string, head: Json, post: string, tail: Items)

  datatype Fields =
    | NoFields
    | Field(pre: string, key: seq<Piece>, mid: string, gap: string, value: Json, post: string, tail: Fields)

  predicate Blanks(w: string) {
    forall k :: 0 <= k < |w| ==> Blank(w[k])
  }

  predicate PieceOk(p: Piece) {
    match p
    case Plain(c) => c !in {'"', '\\', '\0'}
    case Escape(c) => Escapable(c)
    case Unicode(h) => |h| == 4 && forall k :: 0 <= k < 4 ==> HexDigit(h[k])
  }

  predicate PiecesOk(ps: seq<Piece>) {
    forall k :: 0 <= k < |ps| ==> PieceOk(ps[k])
  }

  /** Words of printable characters that no other case of the tokenizer claims. */
  predicate PrimOk(t: string) {
    |t| > 0 && t[0] !in {'{', '[', '"'} &&
    forall k :: 0 <= k < |t| ==> !Delimiter(t[k]) && ' ' <= t[k] < 127 as char
  }

  predicate Ok(v: Json) {
    match v
    case Prim(t) => PrimOk(t)
    case Str(ps) => PiecesOk(ps)
    case Arr(ws, items) => Blanks(ws) && ItemsOk(items)
    case Obj(ws, fields) => Blanks(ws) && FieldsOk(fields)
  }

  predicate ItemsOk(x: Items) {
    match x
    case NoItems => true
    case Item(pre, head, post, tail) => Blanks(pre) && Ok(head) && Blanks(post) && ItemsOk(tail)
  }

  predicate FieldsOk(x: Fields) {
    match x
    case NoFields => true
    case Field(pre, key, mid, gap, value, post, tail) =>
      Blanks(pre) && PiecesOk(key) && Blanks(mid) && Blanks(gap) && Ok(value) && Blanks(post) && FieldsOk(tail)
  }

  function PieceText(p: Piece): string {
    match p
    case Plain(c) => [c]
    case Escape(c) => ['\\', c]
    case Unicode(h) => ['\\', 'u'] + h
  }

  function PiecesText(ps: seq<Piece>): string {
    if |ps| == 0 then "" else PieceText(ps[0]) + PiecesText(ps[1..])
  }

  function StrText(ps: seq<Piece>): string {
    ['"'] + PiecesText(ps) + ['"']
  }

  function Text(v: Json): string {
    match v
    case Prim(t) => t
    case Str(ps) => StrText(ps)
    case Arr(ws, items) => ['['] + ws + ItemsText(items) + [']']
    case Obj(ws, fields) => ['{'] + ws + FieldsText(fields) + ['}']
  }

  function ItemsText(x: Items): string {
    match x
    case NoItems => ""
    case Item(pre, head, post, tail) =>
      pre + Text(head) + post + (if tail.NoItems? then "" else [','] + ItemsText(tail))
  }

  function FieldsText(x: Fields): string {
    match x
    case NoFields => ""
    case Field(pre, key, mid, gap, value, post, tail) =>
      pre + StrText(key) + mid + [':'] + gap + Text(value) + post +
      (if tail.NoFields? then "" else [','] + FieldsText(tail))
  }

  // ---- the tokens a document should give ----

  function ItemCount(x: Items): nat {
    match x
    case NoItems => 0
    case Item(_, _, _, tail) => 1 + ItemCount(tail)
  }

  function FieldCount(x: Fields): nat {
    match x
    case NoFields => 0
    case Field(_, _, _, _, _, _, tail) => 1 + FieldCount(tail)
  }

  function StrToken(ps: seq<Piece>, p: nat, size: nat): Token {
    Token(String, p + 1, p + 1 + |PiecesText(ps)|, size)
  }

  /** Preorder; a container counts its members and a key counts its value. */
  function Tokens(v: Json, p: nat): seq<Token> {
    match v
    case Prim(t) => [Token(Primitive, p, p + |t|, 0)]
    case Str(ps) => [StrToken(ps, p, 0)]
    case Arr(ws, items) =>
      [Token(Array, p, p + |Text(v)|, ItemCount(items))] + ItemsTokens(items, p + 1 + |ws|)
    case Obj(ws, fields) =>
      [Token(Object, p, p + |Text(v)|, FieldCount(fields))] + FieldsTokens(fields, p + 1 + |ws|)
  }

  function ItemsTokens(x: Items, p: nat): seq<Token> {
    match x
    case NoItems => []
    case Item(pre, head, post, tail) =>
      Tokens(head, p + |pre|) + ItemsTokens(tail, p + |pre| + |Text(head)| + |post| + 1)
  }

  function FieldsTokens(x: Fields, p: nat): seq<Token> {
    match x
    case NoFields => []
    case Field(pre, key, mid, gap, value, post, tail) =>
      var q := p + |pre|;
      var r := q + |StrText(key)| + |mid| + 1 + |gap|;
      [StrToken(key, q, 1)] + Tokens(value, r) + FieldsTokens(tail, r + |Text(value)| + |post| + 1)
  }

  // ---- finding the text in the input ----

  lemma AtChar(js: string, p: nat, c: char)
    requires At(js, p, [c])
    ensures p < |js| && js[p] == c
  {
    assert js[p..p + 1][0] == c;
  }

  // ---- the scanners on written text ----

  lemma {:induction false} ScanPlain(js: string, p: nat, t: string)
    requires At(js, p, t) && (forall k :: 0 <= k < |t| ==> !Delimiter(t[k]) && ' ' <= t[k] < 127 as char)
    requires AtEnd(js, p + |t|) || Delimiter(js[p + |t|])
    ensures PrimitiveEnd(js, p) == Done(p + |t|)
    decreases |t|
  {
    if |t| > 0 {
      AtIndex(js, p, t, 0);
      assert t == [t[0]] + t[1..];
      AtSplit(js, p, [t[0]], t[1..]);
      ScanPlain(js, p + 1, t[1..]);
    }
  }

  lemma {:induction false} ScanHexRun(js: string, p: nat, h: string)
    requires At(js, p, h) && forall k :: 0 <= k < |h| ==> HexDigit(h[k])
    ensures HexRun(js, p, |h|) == Done(p + |h|)
    decreases |h|
  {
    if |h| > 0 {
      AtIndex(js, p, h, 0);
      assert h == [h[0]] + h[1..];
      AtSplit(js, p, [h[0]], h[1..]);
      ScanHexRun(js, p + 1, h[1..]);
    }
  }

  lemma ScanPiece(js: string, p: nat, piece: Piece)
    requires PieceOk(piece) && At(js, p, PieceText(piece))
    ensures StringEnd(js, p) == StringEnd(js, p + |PieceText(piece)|)
  {
    AtIndex(js, p, PieceText(piece), 0);
    if !piece.Plain? {
      AtIndex(js, p, PieceText(piece), 1);
      if piece.Unicode? {
        AtSplit(js, p, ['\\', 'u'], piece.h);
        ScanHexRun(js, p + 2, piece.h);
      }
    }
  }

  lemma {:induction false} ScanPieces(js: string, p: nat, ps: seq<Piece>)
    requires PiecesOk(ps) && At(js, p, PiecesText(ps) + ['"'])
    ensures StringEnd(js, p) == Done(p + |PiecesText(ps)|)
    decreases |ps|
  {
    hide PieceText, PieceOk, StringEnd, At;
    AtSplit(js, p, PiecesText(ps), ['"']);
    if |ps| == 0 {
      QuoteEnds(js, p);
    } else {
      var first, rest := PieceText(ps[0]), PiecesText(ps[1..]);
      assert PiecesText(ps) + ['"'] == first + (rest + ['"']);
      AtSplit(js, p, first, rest + ['"']);
      ScanPiece(js, p, ps[0]);
      ScanPieces(js, p + |first|, ps[1..]);
    }
  }

  lemma QuoteEnds(js: string, p: nat)
    requires At(js, p, ['"'])
    ensures StringEnd(js, p) == Done(p)
  {
    AtChar(js, p, '"');
  }

  // ---- running over written text ----

  lemma RunStep(js: string, s: State, cap: nat)
    requires Valid(s) && !AtEnd(js, s.pos) && StepAt(js, s, cap).Next?
    ensures Run(js, s, cap) == Run(js, StepAt(js, s, cap).s, cap)
  {}

  lemma {:induction false} RunBlanks(js: string, s: State, cap: nat, w: string)
    requires Valid(s) && Blanks(w) && At(js, s.pos, w)
    ensures Run(js, s, cap) == Run(js, s.(pos := s.pos + |w|), cap)
    decreases |w|
  {
    if |w| == 0 {
      assert s.(pos := s.pos + |w|) == s;
    } else {
      AtIndex(js, s.pos, w, 0);
      assert w == [w[0]] + w[1..];
      AtSplit(js, s.pos, [w[0]], w[1..]);
      RunStep(js, s, cap);
      RunBlanks(js, s.(pos := s.pos + 1), cap, w[1..]);
    }
  }

  lemma BumpAppend(a: seq<Token>, b: seq<Token>, super: int)
    requires super == -1 || 0 <= super < |a|
    ensures Bump(a + b, super) == Bump(a, super) + b
  {}

  /** The character after a value: the input ends or a delimiter follows. */
  predicate Followed(js: string, p: nat) {
    AtEnd(js, p) || Delimiter(js[p])
  }

  lemma RunPrim(js: string, s: State, cap: nat, t: string)
    requires Valid(s) && PrimOk(t) && At(js, s.pos, t) && Followed(js, s.pos + |t|) && |s.toks| < cap
    ensures Run(js, s, cap) == Run(js, State(s.pos + |t|, s.super,
              Bump(s.toks, s.super) + [Token(Primitive, s.pos, s.pos + |t|, 0)]), cap)
  {
    hide Run;
    AtIndex(js, s.pos, t, 0);
    ScanPlain(js, s.pos, t);
    BumpAppend(s.toks, [Token(Primitive, s.pos, s.pos + |t|, 0)], s.super);
    RunStep(js, s, cap);
  }

  lemma RunStr(js: string, s: State, cap: nat, ps: seq<Piece>)
    requires Valid(s) && PiecesOk(ps) && At(js, s.pos, StrText(ps)) && |s.toks| < cap
    ensures Run(js, s, cap) == Run(js, State(s.pos + |StrText(ps)|, s.super,
              Bump(s.toks, s.super) + [StrToken(ps, s.pos, 0)]), cap)
  {
    hide Run, StepAt;
    StepStr(js, s, cap, ps);
    RunStep(js, s, cap);
  }

  lemma StepStr(js: string, s: State, cap: nat, ps: seq<Piece>)
    requires Valid(s) && PiecesOk(ps) && At(js, s.pos, StrText(ps)) && |s.toks| < cap
    ensures !AtEnd(js, s.pos)
    ensures StepAt(js, s, cap) == Next(State(s.pos + |StrText(ps)|, s.super,
              Bump(s.toks, s.super) + [StrToken(ps, s.pos, 0)]))
  {
    hide StringEnd, PiecesText, PieceOk;
    var body := PiecesText(ps) + ['"'];
    assert StrText(ps) == ['"'] + body;
    AtSplit(js, s.pos, ['"'], body);
    AtChar(js, s.pos, '"');
    ScanPieces(js, s.pos + 1, ps);
    BumpAppend(s.toks, [StrToken(ps, s.pos, 0)], s.super);
  }

  predicate AllClosed(toks: seq<Token>) {
    forall k :: 0 <= k < |toks| ==> !Open(toks[k])
  }

  /** Token k is an open container and everything after it is closed. */
  ghost predicate InBody(toks: seq<Token>, k: int) {
    0 <= k < |toks| && Open(toks[k]) && Container(toks[k]) &&
    forall j :: k < j < |toks| ==> !Open(toks[j])
  }

  lemma {:induction false} BodyScans(toks: seq<Token>, k: int, n: nat)
    requires InBody(toks, k) && k < n <= |toks|
    ensures LastOpen(toks, n) == k == LastContainer(toks, n)
    decreases n
  {
    if n - 1 > k { BodyScans(toks, k, n - 1); }
  }

  /** Where the run stands after a value. */
  function After(v: Json, s: State): State
    requires Valid(s)
  {
    State(s.pos + |Text(v)|,
          if v.Arr? || v.Obj? then LastOpen(s.toks, |s.toks|) else s.super,
          Bump(s.toks, s.super) + Tokens(v, s.pos))
  }

  /** Only sizes changed and closed tokens were added: the bracket scan finds the same token. */
  lemma {:induction false} LastOpenSame(a: seq<Token>, b: seq<Token>, n: nat)
    requires n <= |a| && n <= |b| && forall k :: 0 <= k < n ==> (Open(a[k]) <==> Open(b[k]))
    ensures LastOpen(a, n) == LastOpen(b, n)
  {
    if n > 0 { LastOpenSame(a, b, n - 1); }
  }

  /** An opening bracket and the blanks after it. */
  lemma EnterContainer(js: string, s: State, cap: nat, c: char, ws: string)
    requires Valid(s) && c in {'{', '['} && Blanks(ws) && At(js, s.pos, [c] + ws) && |s.toks| < cap
    ensures Run(js, s, cap) == Run(js, State(s.pos + 1 + |ws|, |s.toks|,
              Bump(s.toks, s.super) + [Token(BracketKind(c), s.pos, -1, 0)]), cap)
  {
    hide Run;
    AtSplit(js, s.pos, [c], ws);
    AtChar(js, s.pos, c);
    var t := Token(BracketKind(c), s.pos, -1, 0);
    BumpAppend(s.toks, [t], s.super);
    RunStep(js, s, cap);
    RunBlanks(js, State(s.pos + 1, |s.toks|, Bump(s.toks, s.super) + [t]), cap, ws);
  }

  /** The closing bracket of the container that base + [t] + inner has open. */
  lemma LeaveContainer(js: string, s: State, cap: nat, c: char, base: seq<Token>, t: Token, inner: seq<Token>)
    requires Valid(s) && c in {'}', ']'} && At(js, s.pos, [c]) && s.toks == base + [t] + inner
    requires Open(t) && t.kind == BracketKind(c) && AllClosed(inner)
    ensures Run(js, s, cap) == Run(js, State(s.pos + 1, LastOpen(base, |base|),
              base + [t.(end := s.pos + 1)] + inner), cap)
  {
    hide Run;
    AtChar(js, s.pos, c);
    var k := |base|;
    assert InBody(s.toks, k);
    BodyScans(s.toks, k, |s.toks|);
    var toks := s.toks[k := t.(end := s.pos + 1)];
    assert toks == base + [t.(end := s.pos + 1)] + inner;
    assert LastOpen(toks, k + 1) == LastOpen(toks, k);
    LastOpenSame(toks, base, k);
    RunStep(js, s, cap);
  }

  lemma {:induction false} TokensClosed(v: Json, p: nat)
    ensures AllClosed(Tokens(v, p)) && |Tokens(v, p)| >= 1
    decreases v
  {
    match v
    case Prim(_) =>
    case Str(_) =>
    case Arr(ws, items) => ItemsClosed(items, p + 1 + |ws|);
    case Obj(ws, fields) => FieldsClosed(fields, p + 1 + |ws|);
  }

  lemma {:induction false} ItemsClosed(x: Items, p: nat)
    ensures AllClosed(ItemsTokens(x, p))
    decreases x
  {
    match x
    case NoItems =>
    case Item(pre, head, post, tail) =>
      TokensClosed(head, p + |pre|);
      ItemsClosed(tail, p + |pre| + |Text(head)| + |post| + 1);
  }

  lemma {:induction false} FieldsClosed(x: Fields, p: nat)
    ensures AllClosed(FieldsTokens(x, p))
    decreases x
  {
    match x
    case NoFields =>
    case Field(pre, key, mid, gap, value, post, tail) =>
      var r := p + |pre| + |StrText(key)| + |mid| + 1 + |gap|;
      TokensClosed(value, r);
      FieldsClosed(tail, r + |Text(value)| + |post| + 1);
  }

  /** What follows a member: blanks, then a comma or the closing bracket. */
  lemma MemberFollowed(js: string, p: nat, post: string)
    requires Blanks(post) && At(js, p, post) && Followed(js, p + |post|)
    ensures Followed(js, p)
  {
    if |post| > 0 { AtIndex(js, p, post, 0); }
  }

  /** Adding n members to the container k. */
  function Grow(toks: seq<Token>, k: nat, n: nat): seq<Token>
    requires k < |toks|
  {
    toks[k := toks[k].(size := toks[k].size + n)]
  }

  lemma {:induction false} RunValue(js: string, s: State, cap: nat, v: Json)
    requires Valid(s) && Ok(v) && At(js, s.pos, Text(v)) && Followed(js, s.pos + |Text(v)|)
    requires |s.toks| + |Tokens(v, s.pos)| <= cap
    ensures Run(js, s, cap) == Run(js, After(v, s), cap)
    decreases v, 1
  {
    hide Run;
    TokensClosed(v, s.pos);
    match v
    case Prim(t) => RunPrim(js, s, cap, t);
    case Str(ps) => RunStr(js, s, cap, ps);
    case Arr(ws, items) => RunArray(js, s, cap, ws, items);
    case Obj(ws, fields) => RunObject(js, s, cap, ws, fields);
  }

  /** A value with blanks around it; the bracket scan after it finds what it found before. */
  lemma {:induction false} RunPadded(js: string, s: State, cap: nat, pre: string, v: Json, post: string)
    requires Valid(s) && Blanks(pre) && Ok(v) && Blanks(post) && At(js, s.pos, pre + Text(v) + post)
    requires Followed(js, s.pos + |pre| + |Text(v)| + |post|)
    requires |s.toks| + |Tokens(v, s.pos + |pre|)| <= cap
    ensures Run(js, s, cap) ==
            Run(js, State(s.pos + |pre| + |Text(v)| + |post|, After(v, s).super,
                Bump(s.toks, s.super) + Tokens(v, s.pos + |pre|)), cap)
    decreases v, 2
  {
    hide Run, Text, Tokens, Ok, Bump;
    AtSplit(js, s.pos, pre + Text(v), post);
    AtSplit(js, s.pos, pre, Text(v));
    RunBlanks(js, s, cap, pre);
    var s1 := s.(pos := s.pos + |pre|);
    MemberFollowed(js, s1.pos + |Text(v)|, post);
    RunValue(js, s1, cap, v);
    RunBlanks(js, After(v, s1), cap, post);
  }

  /** A comma makes the enclosing container superior again. */
  lemma RunComma(js: string, s: State, cap: nat, k: nat)
    requires Valid(s) && At(js, s.pos, [',']) && InBody(s.toks, k)
    requires s.super == k || (s.super != -1 && !Container(s.toks[s.super]))
    ensures Run(js, s, cap) == Run(js, State(s.pos + 1, k, s.toks), cap)
  {
    hide Run;
    AtChar(js, s.pos, ',');
    BodyScans(s.toks, k, |s.toks|);
    RunStep(js, s, cap);
  }

  lemma RunColon(js: string, s: State, cap: nat)
    requires Valid(s) && At(js, s.pos, [':'])
    ensures Run(js, s, cap) == Run(js, State(s.pos + 1, |s.toks| - 1, s.toks), cap)
  {
    hide Run;
    AtChar(js, s.pos, ':');
    RunStep(js, s, cap);
  }

  lemma BodyGrows(toks: seq<Token>, k: nat, inner: seq<Token>)
    requires InBody(toks, k) && AllClosed(inner)
    ensures InBody(Bump(toks, k) + inner, k) && Bump(toks, k) == Grow(toks, k, 1)
  {}

  lemma GrowTwice(toks: seq<Token>, k: nat, inner: seq<Token>, n: nat)
    requires k < |toks|
    ensures Grow(Grow(toks, k, 1) + inner, k, n) == Grow(toks, k, 1 + n) + inner
  {}

  lemma NoItemsText(x: Items, p: nat)
    ensures x.NoItems? ==> ItemsText(x) == "" && ItemsTokens(x, p) == [] && ItemCount(x) == 0
  {}

  lemma BumpOpen(toks: seq<Token>, super: int)
    requires -1 <= super < |toks|
    ensures LastOpen(Bump(toks, super), |toks|) == LastOpen(toks, |toks|)
  {
    hide LastOpen;
    LastOpenSame(Bump(toks, super), toks, |toks|);
  }

  /** The first member of an array and what follows it. */
  lemma ItemParts(js: string, p: nat, x: Items)
    requires x.Item? && At(js, p, ItemsText(x)) && Followed(js, p + |ItemsText(x)|)
    ensures var w := x.pre + Text(x.head) + x.post;
            var q := p + |w|;
            var inner := Tokens(x.head, p + |x.pre|);
            && At(js, p, w) && Followed(js, q)
            && (if x.tail.Item? then
                  At(js, q, [',']) && At(js, q + 1, ItemsText(x.tail)) &&
                  |ItemsText(x)| == |w| + 1 + |ItemsText(x.tail)| &&
                  ItemsTokens(x, p) == inner + ItemsTokens(x.tail, q + 1)
                else
                  |ItemsText(x)| == |w| && ItemsTokens(x, p) == inner)
  {
    hide Text, Tokens;
    var tail := x.tail;
    var w := x.pre + Text(x.head) + x.post;
    var rest := if tail.NoItems? then "" else [','] + ItemsText(tail);
    assert ItemsText(x) == w + rest;
    AtSplit(js, p, w, rest);
    var q := p + |w|;
    assert ItemsTokens(x, p) == Tokens(x.head, p + |x.pre|) + ItemsTokens(tail, q + 1);
    if tail.Item? {
      AtIndex(js, q, rest, 0);
      AtSplit(js, q, [','], ItemsText(tail));
    }
  }

  /** The members of an array, the array's token being k and superior. */
  lemma {:induction false} RunItems(js: string, s: State, cap: nat, x: Items, k: nat)
    requires x.Item? && ItemsOk(x) && At(js, s.pos, ItemsText(x)) && Followed(js, s.pos + |ItemsText(x)|)
    requires Valid(s) && s.super == k && InBody(s.toks, k) && |s.toks| + |ItemsTokens(x, s.pos)| <= cap
    ensures Run(js, s, cap) == Run(js, State(s.pos + |ItemsText(x)|, k,
              Grow(s.toks, k, ItemCount(x)) + ItemsTokens(x, s.pos)), cap)
    decreases x, 3
  {
    hide Run, Text, Tokens, ItemsText, ItemsTokens, Ok, Bump, Grow, InBody, At, Followed, LastOpen;
    var v, tail := x.head, x.tail;
    ItemParts(js, s.pos, x);
    var q := s.pos + |x.pre + Text(v) + x.post|;
    var inner := Tokens(v, s.pos + |x.pre|);
    RunPadded(js, s, cap, x.pre, v, x.post);
    TokensClosed(v, s.pos + |x.pre|);
    BodyGrows(s.toks, k, inner);
    BodyScans(s.toks, k, |s.toks|);
    var toks := Grow(s.toks, k, 1) + inner;
    GrownSize(s.toks, k, inner);
    if tail.Item? {
      var tailToks := ItemsTokens(tail, q + 1);
      RunComma(js, State(q, k, toks), cap, k);
      RunItems(js, State(q + 1, k, toks), cap, tail, k);
      GrownJoin(s.toks, k, inner, ItemCount(tail), tailToks);
    }
  }

  /** The tokens and the position that close an array or an object. */
  lemma {:induction false} RunArray(js: string, s: State, cap: nat, ws: string, items: Items)
    requires var v := Arr(ws, items);
             Valid(s) && Ok(v) && At(js, s.pos, Text(v)) && |s.toks| + |Tokens(v, s.pos)| <= cap
    ensures Run(js, s, cap) == Run(js, After(Arr(ws, items), s), cap)
    decreases Arr(ws, items), 0
  {
    hide Run, ItemsText, ItemsTokens, LastOpen, Bump;
    var it, p := ItemsText(items), s.pos + 1 + |ws|;
    AtSplit(js, s.pos, ['['] + ws + it, [']']);
    AtSplit(js, s.pos, ['['] + ws, it);
    EnterContainer(js, s, cap, '[', ws);
    var base, t := Bump(s.toks, s.super), Token(Array, s.pos, -1, 0);
    var k := |s.toks|;
    AtChar(js, p + |it|, ']');
    var inner, n := ItemsTokens(items, p), ItemCount(items);
    ItemsClosed(items, p);
    var s1 := State(p, k, base + [t]);
    var s2 := State(p + |it|, k, base + [t.(size := n)] + inner);
    assert Run(js, s1, cap) == Run(js, s2, cap) by {
      NoItemsText(items, p);
      if items.Item? {
        RunItems(js, s1, cap, items, k);
        assert Grow(base + [t], k, n) == base + [t.(size := n)];
      } else {
        assert s1 == s2;
      }
    }
    LeaveContainer(js, s2, cap, ']', base, t.(size := n), inner);
    BumpOpen(s.toks, s.super);
    CloseText(Arr(ws, items), s, base, t.(size := n, end := p + |it| + 1), inner);
  }

  lemma CloseText(v: Json, s: State, base: seq<Token>, t: Token, inner: seq<Token>)
    requires Valid(s) && (v.Arr? || v.Obj?) && base == Bump(s.toks, s.super)
    requires Tokens(v, s.pos) == [t] + inner && t.end == s.pos + |Text(v)|
    ensures After(v, s) == State(t.end, LastOpen(s.toks, |s.toks|), base + [t] + inner)
  {
    hide Tokens, Text, LastOpen, Bump;
    assert base + ([t] + inner) == base + [t] + inner;
  }

  lemma NoFieldsText(x: Fields, p: nat)
    ensures x.NoFields? ==> FieldsText(x) == "" && FieldsTokens(x, p) == [] && FieldCount(x) == 0
  {}

  /** A state after a member of the object k: its superior token is k or a key. */
  ghost predicate AfterMember(s: State, k: nat) {
    Valid(s) && InBody(s.toks, k) && (s.super == k || (s.super != -1 && !Container(s.toks[s.super])))
  }

  /** The key of a member and its colon: the key is counted in the object and becomes superior. */
  lemma RunKey(js: string, s: State, cap: nat, pre: string, key: seq<Piece>, mid: string)
    requires Valid(s) && s.super >= 0 && Blanks(pre) && PiecesOk(key) && Blanks(mid) && |s.toks| < cap
    requires At(js, s.pos, pre + StrText(key) + mid + [':'])
    ensures Run(js, s, cap) == Run(js, State(s.pos + |pre| + |StrText(key)| + |mid| + 1, |s.toks|,
              Bump(s.toks, s.super) + [StrToken(key, s.pos + |pre|, 0)]), cap)
  {
    hide Run, StrText, PiecesText, PiecesOk, Bump;
    var st := StrText(key);
    AtSplit(js, s.pos, pre + st + mid, [':']);
    AtSplit(js, s.pos, pre + st, mid);
    AtSplit(js, s.pos, pre, st);
    var q := s.pos + |pre|;
    RunBlanks(js, s, cap, pre);
    RunStr(js, State(q, s.super, s.toks), cap, key);
    var toks := Bump(s.toks, s.super) + [StrToken(key, q, 0)];
    RunBlanks(js, State(q + |st|, s.super, toks), cap, mid);
    RunColon(js, State(q + |st| + |mid|, s.super, toks), cap);
  }

  /** The value is counted in its key. */
  lemma KeySizes(toks: seq<Token>, k: nat, key: Token, inner: seq<Token>)
    requires InBody(toks, k) && !Open(key) && key.size == 0 && AllClosed(inner)
    ensures var t := Bump(toks, k) + [key];
            |t| == |toks| + 1 && LastOpen(t, |t|) == k &&
            Bump(t, |toks|) + inner == Grow(toks, k, 1) + ([key.(size := 1)] + inner)
    ensures InBody(Grow(toks, k, 1) + ([key.(size := 1)] + inner), k)
  {
    var t := Bump(toks, k) + [key];
    BodyGrows(toks, k, [key]);
    BodyScans(t, k, |t|);
    BodyGrows(toks, k, [key.(size := 1)] + inner);
  }

  /** One member of an object: the key is counted in the object, the value in the key. */
  lemma {:induction false} RunField(js: string, s: State, cap: nat, x: Fields, k: nat) returns (t: State)
    requires x.Field? && FieldsOk(x) && Valid(s) && s.super == k && InBody(s.toks, k)
    requires At(js, s.pos, x.pre + StrText(x.key) + x.mid + [':'] + x.gap + Text(x.value) + x.post)
    requires var r := s.pos + |x.pre| + |StrText(x.key)| + |x.mid| + 1 + |x.gap|;
             Followed(js, r + |Text(x.value)| + |x.post|) && |s.toks| + 1 + |Tokens(x.value, r)| <= cap
    ensures var r := s.pos + |x.pre| + |StrText(x.key)| + |x.mid| + 1 + |x.gap|;
            t.pos == r + |Text(x.value)| + |x.post| &&
            t.toks == Grow(s.toks, k, 1) + ([StrToken(x.key, s.pos + |x.pre|, 1)] + Tokens(x.value, r))
    ensures AfterMember(t, k) && Run(js, s, cap) == Run(js, t, cap)
    decreases x, 2
  {
    hide Run, Text, Tokens, Ok, InBody, StrText, PiecesText, PiecesOk, Grow, Bump, LastOpen;
    var v := x.value;
    var head := x.pre + StrText(x.key) + x.mid + [':'];
    assert head + (x.gap + Text(v) + x.post) == head + x.gap + Text(v) + x.post;
    AtSplit(js, s.pos, head, x.gap + Text(v) + x.post);
    RunKey(js, s, cap, x.pre, x.key, x.mid);
    var key := StrToken(x.key, s.pos + |x.pre|, 0);
    var u := State(s.pos + |head|, |s.toks|, Bump(s.toks, k) + [key]);
    RunPadded(js, u, cap, x.gap, v, x.post);
    var inner := Tokens(v, u.pos + |x.gap|);
    t := State(u.pos + |x.gap| + |Text(v)| + |x.post|, After(v, u).super, Bump(u.toks, |s.toks|) + inner);
    TokensClosed(v, u.pos + |x.gap|);
    KeySizes(s.toks, k, key, inner);
    KeyIsSuper(t, k, s.toks, key.(size := 1), inner);
  }

  lemma KeyIsSuper(t: State, k: nat, toks: seq<Token>, key: Token, inner: seq<Token>)
    requires k < |toks| && InBody(t.toks, k) && t.toks == Grow(toks, k, 1) + ([key] + inner)
    requires key.kind == String && (t.super == k || t.super == |toks|)
    ensures AfterMember(t, k)
  {}

  function FieldText(x: Fields): string
    requires x.Field?
  {
    x.pre + StrText(x.key) + x.mid + [':'] + x.gap + Text(x.value) + x.post
  }

  function FieldTokens(x: Fields, p: nat): seq<Token>
    requires x.Field?
  {
    [StrToken(x.key, p + |x.pre|, 1)] +
    Tokens(x.value, p + |x.pre| + |StrText(x.key)| + |x.mid| + 1 + |x.gap|)
  }

  /** The first member of an object and what follows it. */
  lemma FieldParts(js: string, p: nat, x: Fields)
    requires x.Field? && At(js, p, FieldsText(x)) && Followed(js, p + |FieldsText(x)|)
    ensures var q := p + |FieldText(x)|;
            && At(js, p, FieldText(x)) && Followed(js, q)
            && (if x.tail.Field? then
                  At(js, q, [',']) && At(js, q + 1, FieldsText(x.tail)) &&
                  |FieldsText(x)| == |FieldText(x)| + 1 + |FieldsText(x.tail)| &&
                  FieldsTokens(x, p) == FieldTokens(x, p) + FieldsTokens(x.tail, q + 1)
                else
                  |FieldsText(x)| == |FieldText(x)| && FieldsTokens(x, p) == FieldTokens(x, p))
  {
    hide Text, StrText, Tokens, StrToken;
    var tail := x.tail;
    var rest := if tail.NoFields? then "" else [','] + FieldsText(tail);
    assert FieldsText(x) == FieldText(x) + rest;
    AtSplit(js, p, FieldText(x), rest);
    var q := p + |FieldText(x)|;
    assert FieldsTokens(x, p) == FieldTokens(x, p) + FieldsTokens(tail, q + 1);
    if tail.Field? {
      AtIndex(js, q, rest, 0);
      AtSplit(js, q, [','], FieldsText(tail));
    }
  }

  /** The members of an object, the object's token being k and superior. */
  lemma {:induction false} RunFields(js: string, s: State, cap: nat, x: Fields, k: nat) returns (t: State)
    requires x.Field? && FieldsOk(x) && At(js, s.pos, FieldsText(x)) && Followed(js, s.pos + |FieldsText(x)|)
    requires Valid(s) && s.super == k && InBody(s.toks, k) && |s.toks| + |FieldsTokens(x, s.pos)| <= cap
    ensures t.pos == s.pos + |FieldsText(x)| && AfterMember(t, k)
    ensures t.toks == Grow(s.toks, k, FieldCount(x)) + FieldsTokens(x, s.pos)
    ensures Run(js, s, cap) == Run(js, t, cap)
    decreases x, 3
  {
    hide Run, Text, Tokens, FieldsText, FieldsTokens, Ok, Bump, Grow, InBody, AfterMember, StrText, StrToken, PiecesOk, At, Followed;
    FieldParts(js, s.pos, x);
    t := RunField(js, s, cap, x, k);
    assert t.pos == s.pos + |FieldText(x)|;
    if x.tail.Field? {
      AfterComma(js, t, cap, k);
      var inner := FieldTokens(x, s.pos);
      GrownSize(s.toks, k, inner);
      var tailToks := FieldsTokens(x.tail, t.pos + 1);
      t := RunFields(js, State(t.pos + 1, k, t.toks), cap, x.tail, k);
      GrownJoin(s.toks, k, inner, FieldCount(x.tail), tailToks);
    }
  }

  lemma AfterComma(js: string, t: State, cap: nat, k: nat)
    requires AfterMember(t, k) && At(js, t.pos, [','])
    ensures InBody(t.toks, k) && Run(js, t, cap) == Run(js, State(t.pos + 1, k, t.toks), cap)
  {
    hide Run, At, InBody;
    RunComma(js, t, cap, k);
  }

  lemma GrownSize(toks: seq<Token>, k: nat, inner: seq<Token>)
    requires k < |toks|
    ensures |Grow(toks, k, 1) + inner| == |toks| + |inner|
  {}

  lemma GrownJoin(toks: seq<Token>, k: nat, inner: seq<Token>, n: nat, rest: seq<Token>)
    requires k < |toks|
    ensures Grow(Grow(toks, k, 1) + inner, k, n) + rest == Grow(toks, k, 1 + n) + (inner + rest)
  {
    hide Grow;
    GrowTwice(toks, k, inner, n);
    assert Grow(toks, k, 1 + n) + inner + rest == Grow(toks, k, 1 + n) + (inner + rest);
  }

  lemma {:induction false} RunObject(js: string, s: State, cap: nat, ws: string, fields: Fields)
    requires var v := Obj(ws, fields);
             Valid(s) && Ok(v) && At(js, s.pos, Text(v)) && |s.toks| + |Tokens(v, s.pos)| <= cap
    ensures Run(js, s, cap) == Run(js, After(Obj(ws, fields), s), cap)
    decreases Obj(ws, fields), 0
  {
    hide Run, FieldsText, FieldsTokens, LastOpen, Bump;
    var ft, p := FieldsText(fields), s.pos + 1 + |ws|;
    AtSplit(js, s.pos, ['{'] + ws + ft, ['}']);
    AtSplit(js, s.pos, ['{'] + ws, ft);
    EnterContainer(js, s, cap, '{', ws);
    var base, t := Bump(s.toks, s.super), Token(Object, s.pos, -1, 0);
    var k := |s.toks|;
    AtChar(js, p + |ft|, '}');
    var inner, n := FieldsTokens(fields, p), FieldCount(fields);
    FieldsClosed(fields, p);
    var s1 := State(p, k, base + [t]);
    var s2 := s1;
    NoFieldsText(fields, p);
    if fields.Field? {
      s2 := RunFields(js, s1, cap, fields, k);
    }
    assert s2.toks == base + [t.(size := n)] + inner by {
      assert Grow(base + [t], k, n) == base + [t.(size := n)];
    }
    LeaveContainer(js, s2, cap, '}', base, t.(size := n), inner);
    BumpOpen(s.toks, s.super);
    CloseText(Obj(ws, fields), s, base, t.(size := n, end := p + |ft| + 1), inner);
  }

  /**
   * Parsing the text of any document, with blanks before and after it, succeeds when the array is
   * large enough and delivers exactly the document's tokens: kinds, spans, order and sizes.
   */
  lemma ParseRendered(v: Json, pre: string, post: string, cap: nat)
    requires Ok(v) && Blanks(pre) && Blanks(post) && |Tokens(v, |pre|)| <= cap
    ensures var (s, code) := Run(pre + Text(v) + post, INIT, cap);
            s.toks == Tokens(v, |pre|) && code == Count(|Tokens(v, |pre|)|)
  {
    hide Run, Text, Tokens, Ok, Bump;
    var js := pre + Text(v) + post;
    assert At(js, 0, js);
    RunPadded(js, INIT, cap, pre, v, post);
    TokensClosed(v, |pre|);
    var s := State(|js|, After(v, INIT).super, Tokens(v, |pre|));
    assert Bump([], -1) + Tokens(v, |pre|) == s.toks by { BumpNothing(s.toks); }
    RunEnds(js, s, cap);
  }

  lemma BumpNothing(toks: seq<Token>)
    ensures Bump([], -1) + toks == toks
  {}

  lemma RunEnds(js: string, s: State, cap: nat)
    requires Valid(s) && s.pos == |js| && AllClosed(s.toks)
    ensures Run(js, s, cap) == (s, Count(|s.toks|))
  {}
}
