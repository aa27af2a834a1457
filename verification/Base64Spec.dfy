/** Base64 as values: symbols, groups, and the texts the decoder accepts (section 5.2 of RFC 1521). */
module Base64Spec {
  import opened Arith
  import opened Wire

  const PAD: nat := 64
  const NONE: nat := 127

  type Symbol = v: int | 0 <= v <= 64

  /** The encoding table, with '=' for the padding symbol. */
  function EncodeChar(v: Symbol): Byte {
    if v < 26 then 65 + v
    else if v < 52 then 97 + (v - 26)
    else if v < 62 then 48 + (v - 52)
    else if v == 62 then 43
    else if v == 63 then 47
    else 61
  }

  /** The decoding table; NONE stands for every other character, also those above 127. */
  function DecodeChar(c: Byte): nat {
    if 65 <= c <= 90 then c - 65
    else if 97 <= c <= 122 then c - 97 + 26
    else if 48 <= c <= 57 then c - 48 + 52
    else if c == 43 then 62
    else if c == 47 then 63
    else if c == 61 then PAD
    else NONE
  }

  lemma TablesInverse(v: Symbol, c: Byte)
    ensures DecodeChar(EncodeChar(v)) == v
    ensures DecodeChar(c) != NONE ==> DecodeChar(c) <= 64 && EncodeChar(DecodeChar(c)) == c
  {}

  /** The alphabet of RFC 1521, table 1. */
  const UPPER := "ABCDEFGHIJKLMNOPQRSTUVWXYZ"
  const LOWER := "abcdefghijklmnopqrstuvwxyz"
  const DIGITS := "0123456789"

  lemma TableIsAlphabet(v: Symbol)
    ensures EncodeChar(v) as char ==
            if v < 26 then UPPER[v] else if v < 52 then LOWER[v - 26] else if v < 62 then DIGITS[v - 52]
            else if v == 62 then '+' else if v == 63 then '/' else '='
  {}

  // ---- encoding ----

  function First(a: Byte): Symbol { a / 4 }
  function Second(a: Byte, b: Byte): Symbol { a % 4 * 16 + b / 16 }
  function Third(b: Byte, c: Byte): Symbol { b % 16 * 4 + c / 64 }
  function Fourth(c: Byte): Symbol { c % 64 }

  /** Three bytes are four symbols; the last group is filled with padding. */
  function EncodeSymbols(src: seq<Byte>): seq<Symbol> {
    if |src| == 0 then []
    else if |src| == 1 then [First(src[0]), Second(src[0], 0), PAD, PAD]
    else if |src| == 2 then [First(src[0]), Second(src[0], src[1]), Third(src[1], 0), PAD]
    else [First(src[0]), Second(src[0], src[1]), Third(src[1], src[2]), Fourth(src[2])] + EncodeSymbols(src[3..])
  }

  function Chars(syms: seq<Symbol>): (r: seq<Byte>)
    ensures |r| == |syms| && forall i :: 0 <= i < |syms| ==> r[i] == EncodeChar(syms[i])
  {
    seq(|syms|, i requires 0 <= i < |syms| => EncodeChar(syms[i]))
  }

  function Encoded(src: seq<Byte>): seq<Byte> {
    Chars(EncodeSymbols(src))
  }

  lemma {:induction false} EncodedSize(src: seq<Byte>)
    ensures |EncodeSymbols(src)| == (|src| + 2) / 3 * 4
    decreases |src|
  {
    if |src| >= 3 { EncodedSize(src[3..]); }
  }

  // ---- decoding symbols ----

  /** The six bits of a symbol; padding counts as zero. */
  function Bits(c: Symbol): (r: nat)
    ensures r < 64
  {
    if c == PAD then 0 else c
  }

  function FirstByte(a: Symbol, b: Symbol): Byte { Bits(a) * 4 + Bits(b) / 16 }
  function SecondByte(b: Symbol, c: Symbol): Byte { Bits(b) % 16 * 16 + Bits(c) / 4 }
  function ThirdByte(c: Symbol, d: Symbol): Byte { Bits(c) % 4 * 64 + Bits(d) }

  /** The bytes of a full group; fewer when padding was met. */
  function Output(j: nat, g: seq<Symbol>): (r: seq<Byte>)
    requires |g| == 4
    ensures |r| == if j < 3 then j else 3
  {
    (if j > 0 then [FirstByte(g[0], g[1])] else []) +
    (if j > 1 then [SecondByte(g[1], g[2])] else []) +
    (if j > 2 then [ThirdByte(g[2], g[3])] else [])
  }

  function Pad(c: Symbol): nat {
    if c == PAD then 1 else 0
  }

  function Pads(syms: seq<Symbol>): (r: nat)
    ensures r <= |syms|
  {
    if |syms| == 0 then 0 else Pad(syms[0]) + Pads(syms[1..])
  }

  /** At most two padding symbols, given `before` earlier ones, and nothing else after them. */
  predicate PadsOk(syms: seq<Symbol>, before: nat) {
    |syms| == 0 ||
    (if syms[0] == PAD then before < 2 && PadsOk(syms[1..], before + 1) else before == 0 && PadsOk(syms[1..], 0))
  }

  lemma {:induction false} PadsOnly(syms: seq<Symbol>, before: nat)
    requires before > 0 && PadsOk(syms, before)
    ensures Pads(syms) == |syms| && |syms| + before <= if |syms| == 0 then before else 2
    decreases |syms|
  {
    if |syms| > 0 { PadsOnly(syms[1..], before + 1); }
  }

  /** j is 3 less the padding so far, g holds the symbols of the unfinished group. */
  function Pour(syms: seq<Symbol>, j: nat, g: seq<Symbol>): seq<Byte>
    requires |g| < 4
    decreases |syms|
  {
    if |syms| == 0 then []
    else
      var c := syms[0];
      var j' := if c == PAD && j > 0 then j - 1 else j;
      if |g| == 3 then Output(j', g + [c]) + Pour(syms[1..], j', []) else Pour(syms[1..], j', g + [c])
  }

  /** How many bytes k symbols with p padding symbols give, when j counts down from 3. */
  function PouredSize(k: nat, p: nat, j: nat): int {
    var g, r := k / 4, k % 4;
    if g == 0 then 0 else 3 * (g - 1) + j - if p > r then p - r else 0
  }

  /** One symbol inside a group, and one that completes a group. */
  lemma SizeInside(k: nat, p: nat, j: nat, pad: nat)
    requires pad <= 1 && (pad == 1 ==> 1 <= j && (k < 4 || (k == 4 && p == 1)))
    ensures PouredSize(k, p + pad, j) == PouredSize(k, p, j - pad)
  {}

  lemma SizeCompleted(k: nat, p: nat, j: nat, pad: nat)
    requires p <= k && pad <= 1 <= j <= 3
    requires if pad == 1 then k <= 1 && p == k else j == 3
    ensures PouredSize(k + 4, p + pad, j) == j - pad + PouredSize(k, p, j - pad)
  {}

  lemma PourStep(syms: seq<Symbol>, j: nat, g: seq<Symbol>)
    requires |syms| > 0 && |g| < 4 && j > 0
    ensures var c, j' := syms[0], j - Pad(syms[0]);
            Pour(syms, j, g) ==
            if |g| == 3 then Output(j', g + [c]) + Pour(syms[1..], j', []) else Pour(syms[1..], j', g + [c])
  {}

  lemma PadsStep(syms: seq<Symbol>, before: nat)
    requires |syms| > 0 && PadsOk(syms, before)
    ensures PadsOk(syms[1..], before + Pad(syms[0])) && Pads(syms) == Pad(syms[0]) + Pads(syms[1..])
    ensures syms[0] == PAD ==> before < 2
  {}

  lemma {:induction false} PourSize(syms: seq<Symbol>, j: nat, g: seq<Symbol>)
    requires |g| < 4 && 1 <= j <= 3 && PadsOk(syms, 3 - j)
    ensures |Pour(syms, j, g)| == PouredSize(|g| + |syms|, Pads(syms), j)
    decreases |syms|
  {
    hide *;
    if |syms| > 0 {
      var c, rest := syms[0], syms[1..];
      PadsStep(syms, 3 - j);
      PadsShape(syms, j);
      PourStep(syms, j, g);
      var j' := j - Pad(c);
      if |g| == 3 {
        PourSize(rest, j', []);
        SizeCompleted(|rest|, Pads(rest), j, Pad(c));
      } else {
        PourSize(rest, j', g + [c]);
        SizeInside(|g| + 1 + |rest|, Pads(rest), j, Pad(c));
      }
    } else {
      NoSymbols(j, g);
    }
  }

  lemma NoSymbols(j: nat, g: seq<Symbol>)
    requires |g| < 4
    ensures Pour([], j, g) == [] && Pads([]) == 0 && PouredSize(|g|, 0, j) == 0
  {}

  /** What follows a padding symbol, and what follows earlier padding. */
  lemma PadsShape(syms: seq<Symbol>, j: nat)
    requires |syms| > 0 && 1 <= j <= 3 && PadsOk(syms, 3 - j)
    ensures Pad(syms[0]) == 1 ==> j > 1 && |syms| <= 2 && Pads(syms[1..]) == |syms| - 1
    ensures Pad(syms[0]) == 0 ==> j == 3
    ensures Pads(syms[1..]) <= |syms| - 1 && Pad(syms[0]) <= 1 && 0 <= j - Pad(syms[0])
    ensures PadsOk(syms[1..], 3 - (j - Pad(syms[0])))
  {
    if syms[0] == PAD { PadsOnly(syms[1..], 4 - j); }
  }

  /** The length that the first pass computes from k symbols with p padding symbols. */
  function FirstPassLength(k: nat, p: nat): int {
    (k * 6 + 7) / 8 - p
  }

  /**
   * The first pass never announces less than the second pass writes, and announces exactly that
   * when the symbols beyond the last full group are all padding.
   */
  lemma AnnouncedLength(syms: seq<Symbol>)
    requires PadsOk(syms, 0)
    ensures var written := |Pour(syms, 3, [])|;
            FirstPassLength(|syms|, Pads(syms)) >= written &&
            (FirstPassLength(|syms|, Pads(syms)) == written <==> |syms| % 4 <= Pads(syms))
  {
    PourSize(syms, 3, []);
    PadsBelow(syms, 0);
    hide Pour, Pads, PadsOk, PouredSize, FirstPassLength;
    SizeCompare(|syms|, Pads(syms));
  }

  lemma SizeCompare(k: nat, p: nat)
    requires p <= 2 && p <= k
    ensures FirstPassLength(k, p) >= PouredSize(k, p, 3)
    ensures FirstPassLength(k, p) == PouredSize(k, p, 3) <==> k % 4 <= p
  {
    var g, r := k / 4, k % 4;
    DivUnique(k * 6 + 7, 8, 3 * g + r, 7 - 2 * r);
  }

  lemma {:induction false} PadsBelow(syms: seq<Symbol>, before: nat)
    requires before <= 2 && PadsOk(syms, before)
    ensures Pads(syms) + before <= 2
    decreases |syms|
  {
    if |syms| > 0 {
      if syms[0] == PAD { PadsBelow(syms[1..], before + 1); } else { PadsBelow(syms[1..], 0); }
    }
  }

  // ---- the round trip on symbols ----

  /** Four symbols at the start of a group. */
  lemma PourGroup(a: Symbol, b: Symbol, c: Symbol, d: Symbol, rest: seq<Symbol>)
    requires a != PAD && b != PAD && (c == PAD ==> d == PAD)
    ensures var j := 3 - Pad(c) - Pad(d);
            Pour([a, b, c, d] + rest, 3, []) == Output(j, [a, b, c, d]) + Pour(rest, j, [])
  {
    hide Pour, Output;
    Drops(a, [b, c, d] + rest);
    assert [a, b, c, d] + rest == [a] + ([b, c, d] + rest);
    PourStep([a] + ([b, c, d] + rest), 3, []);
    Drops(b, [c, d] + rest);
    assert [b, c, d] + rest == [b] + ([c, d] + rest) && [] + [a] == [a];
    PourStep([b] + ([c, d] + rest), 3, [a]);
    Drops(c, [d] + rest);
    assert [c, d] + rest == [c] + ([d] + rest) && [a] + [b] == [a, b];
    PourStep([c] + ([d] + rest), 3, [a, b]);
    Drops(d, rest);
    assert [a, b] + [c] == [a, b, c];
    PourStep([d] + rest, 3 - Pad(c), [a, b, c]);
    assert [a, b, c] + [d] == [a, b, c, d];
  }

  lemma Drops(a: Symbol, rest: seq<Symbol>)
    ensures ([a] + rest)[0] == a && ([a] + rest)[1..] == rest
  {}

  /** The symbols of three bytes give the bytes back. */
  lemma GroupOf(a: Byte, b: Byte, c: Byte)
    ensures First(a) != PAD && Second(a, b) != PAD && Third(b, c) != PAD && Fourth(c) != PAD
    ensures FirstByte(First(a), Second(a, b)) == a
    ensures SecondByte(Second(a, b), Third(b, c)) == b
    ensures ThirdByte(Third(b, c), Fourth(c)) == c
  {
    var a0: int, a1: int, b0: int, b1: int, c0: int, c1: int := a / 4, a % 4, b / 16, b % 16, c / 64, c % 64;
    assert a0 < 64 && b0 < 16 && c0 < 4;
    DivUnique(a1 * 16 + b0, 16, a1, b0);
    DivUnique(b1 * 4 + c0, 4, b1, c0);
  }

  lemma {:induction false} PourEncoded(src: seq<Byte>)
    ensures PadsOk(EncodeSymbols(src), 0) && Pour(EncodeSymbols(src), 3, []) == src
    decreases |src|
  {
    if |src| == 0 {
    } else if |src| == 1 {
      OneByte(src[0], 0);
      assert src == [src[0]];
    } else if |src| == 2 {
      TwoBytes(src[0], src[1]);
      assert src == [src[0], src[1]];
    } else {
      PourEncoded(src[3..]);
      ThreeBytes(src[0], src[1], src[2], EncodeSymbols(src[3..]));
      assert src == [src[0], src[1], src[2]] + src[3..];
    }
  }

  lemma OutputCases(a: Symbol, b: Symbol, c: Symbol, d: Symbol)
    ensures Output(1, [a, b, c, d]) == [FirstByte(a, b)]
    ensures Output(2, [a, b, c, d]) == [FirstByte(a, b), SecondByte(b, c)]
    ensures Output(3, [a, b, c, d]) == [FirstByte(a, b), SecondByte(b, c), ThirdByte(c, d)]
    ensures d == PAD ==> Pad(d) == 1 && (c == PAD ==> Pad(c) == 1) && (c != PAD ==> Pad(c) == 0)
    ensures c != PAD && d != PAD ==> Pad(c) == Pad(d) == 0
  {
    hide FirstByte, SecondByte, ThirdByte;
  }

  lemma OneByte(a: Byte, zero: Byte)
    requires zero == 0
    ensures var syms := [First(a), Second(a, zero), PAD, PAD];
            PadsOk(syms, 0) && Pour(syms, 3, []) == [a]
  {
    assert PAD <= 64;
    hide *;
    var x, y := First(a), Second(a, zero);
    assert x != PAD && y != PAD && FirstByte(x, y) == a by { GroupOf(a, zero, zero); }
    assert Output(1, [x, y, PAD, PAD]) == [FirstByte(x, y)] && Pad(PAD) == 1 by { OutputCases(x, y, PAD, PAD); }
    LastGroup(x, y, PAD, PAD);
  }

  lemma TwoBytes(a: Byte, b: Byte)
    ensures var syms := [First(a), Second(a, b), Third(b, 0), PAD];
            PadsOk(syms, 0) && Pour(syms, 3, []) == [a, b]
  {
    assert PAD <= 64;
    hide *;
    GroupOf(a, b, 0);
    OutputCases(First(a), Second(a, b), Third(b, 0), PAD);
    LastGroup(First(a), Second(a, b), Third(b, 0), PAD);
  }

  lemma LastGroup(a: Symbol, b: Symbol, c: Symbol, d: Symbol)
    requires a != PAD && b != PAD && (c == PAD ==> d == PAD)
    ensures PadsOk([a, b, c, d], 0) && Pour([a, b, c, d], 3, []) == Output(3 - Pad(c) - Pad(d), [a, b, c, d])
  {
    PadsOkFour(a, b, c, d, []);
    hide Output;
    PourGroup(a, b, c, d, []);
    assert [a, b, c, d] + [] == [a, b, c, d];
  }

  lemma ThreeBytes(a: Byte, b: Byte, c: Byte, rest: seq<Symbol>)
    requires PadsOk(rest, 0)
    ensures var syms := [First(a), Second(a, b), Third(b, c), Fourth(c)];
            PadsOk(syms + rest, 0) && Pour(syms + rest, 3, []) == [a, b, c] + Pour(rest, 3, [])
  {
    GroupOf(a, b, c);
    OutputCases(First(a), Second(a, b), Third(b, c), Fourth(c));
    hide First, Second, Third, Fourth, FirstByte, SecondByte, ThirdByte, PadsOk, Pour, Output, Pad;
    PadsOkFour(First(a), Second(a, b), Third(b, c), Fourth(c), rest);
    PourGroup(First(a), Second(a, b), Third(b, c), Fourth(c), rest);
  }

  lemma PadsOkFour(a: Symbol, b: Symbol, c: Symbol, d: Symbol, rest: seq<Symbol>)
    requires a != PAD && b != PAD && (c == PAD ==> d == PAD) && PadsOk(rest, 0) && (d == PAD ==> rest == [])
    ensures PadsOk([a, b, c, d] + rest, 0)
  {
    var s := [a, b, c, d] + rest;
    assert s[1..][1..][1..][1..] == rest;
    assert PadsOk(s[1..][1..][1..], if c == PAD then 1 else 0);
    assert PadsOk(s[1..][1..], 0);
  }

  // ---- texts with blanks and line breaks ----

  const SPACE: Byte := 32
  const CR: Byte := 13
  const LF: Byte := 10

  datatype Scanned = Symbols(syms: seq<Symbol>) | Invalid

  function Spaces(s: seq<Byte>): (k: nat)
    ensures k <= |s| && (k < |s| ==> s[k] != SPACE)
    ensures forall i :: 0 <= i < k ==> s[i] == SPACE
  {
    if |s| == 0 || s[0] != SPACE then 0 else 1 + Spaces(s[1..])
  }

  function Before(got: seq<Symbol>, r: Scanned): Scanned {
    if r.Symbols? then Symbols(got + r.syms) else Invalid
  }

  /** A line end where the text stands: LF, or a CR that LF follows. */
  predicate AtBreak(c: Byte, rest: seq<Byte>) {
    c == LF || (c == CR && |rest| > 0 && rest[0] == LF)
  }

  /**
   * The first pass: spaces may stand before line ends and at the end of the text; there are at most two
   * padding characters and only they may follow one.
   */
  function Scan(s: seq<Byte>, pads: nat): Scanned
    decreases |s|
  {
    var k := Spaces(s);
    if k == |s| then Symbols([])
    else
      var c, rest := s[k], s[k + 1..];
      if AtBreak(c, rest) then Scan(rest, pads)
      else if k != 0 then Invalid
      else
        var v := DecodeChar(c);
        var pads' := if v == PAD then pads + 1 else pads;
        if v == NONE || pads' > 2 || (v < 64 && pads' != 0) then Invalid
        else Before([v], Scan(rest, pads'))
  }

  predicate IsBlank(c: Byte) {
    c == CR || c == LF || c == SPACE
  }

  /** What the second pass reads: everything but blanks. */
  function Significant(s: seq<Byte>): seq<Symbol> {
    if |s| == 0 then []
    else if IsBlank(s[0]) || DecodeChar(s[0]) == NONE then Significant(s[1..])
    else [DecodeChar(s[0])] + Significant(s[1..])
  }

  lemma {:induction false} SkipBlanks(s: seq<Byte>, k: nat)
    requires k <= |s| && forall i :: 0 <= i < k ==> IsBlank(s[i])
    ensures Significant(s) == Significant(s[k..])
  {
    if k > 0 {
      SkipBlanks(s[1..], k - 1);
      assert s[1..][k - 1..] == s[k..];
    } else {
      assert s[0..] == s;
    }
  }

  /** The second pass reads exactly the symbols that the first pass accepted. */
  lemma {:induction false} ScanIsSignificant(s: seq<Byte>, pads: nat)
    requires pads <= 2 && Scan(s, pads).Symbols?
    ensures Scan(s, pads).syms == Significant(s) && PadsOk(Significant(s), pads)
    decreases |s|
  {
    var k := Spaces(s);
    SkipBlanks(s, k);
    if k < |s| {
      var c, rest := s[k], s[k + 1..];
      assert s[k..][1..] == rest;
      if AtBreak(c, rest) {
        ScanIsSignificant(rest, pads);
      } else {
        var v := DecodeChar(c);
        assert s[k..] == s;
        ScanIsSignificant(rest, if v == PAD then pads + 1 else pads);
        assert ([v] + Significant(rest))[1..] == Significant(rest);
      }
    }
  }

  // ---- line breaks do not matter ----

  /** A piece of text: a symbol or one of the two line ends. */
  datatype Piece = Sym(v: Symbol) | Newline | CrLf

  function Text(ps: seq<Piece>): seq<Byte> {
    if |ps| == 0 then []
    else
      (match ps[0]
       case Sym(v) => [EncodeChar(v)]
       case Newline => [LF]
       case CrLf => [CR, LF]) + Text(ps[1..])
  }

  function SymbolsOf(ps: seq<Piece>): seq<Symbol> {
    if |ps| == 0 then []
    else if ps[0].Sym? then [ps[0].v] + SymbolsOf(ps[1..])
    else SymbolsOf(ps[1..])
  }

  lemma ScanHead(c: Byte, rest: seq<Byte>, pads: nat)
    requires c != SPACE
    ensures Scan([c] + rest, pads) ==
            if AtBreak(c, rest) then Scan(rest, pads)
            else
              var v := DecodeChar(c);
              var pads' := if v == PAD then pads + 1 else pads;
              if v == NONE || pads' > 2 || (v < 64 && pads' != 0) then Invalid
              else Before([v], Scan(rest, pads'))
  {
    assert ([c] + rest)[1..] == rest && Spaces([c] + rest) == 0;
  }

  lemma ScanBreak(rest: seq<Byte>, pads: nat)
    ensures Scan([LF] + rest, pads) == Scan(rest, pads) == Scan([CR, LF] + rest, pads)
  {
    hide Scan;
    ScanHead(LF, rest, pads);
    ScanHead(CR, [LF] + rest, pads);
    assert [CR, LF] + rest == [CR] + ([LF] + rest);
  }

  lemma ScanChar(v: Symbol, rest: seq<Byte>, pads: nat)
    requires if v == PAD then pads < 2 else pads == 0
    ensures Scan([EncodeChar(v)] + rest, pads) == Before([v], Scan(rest, if v == PAD then pads + 1 else 0))
  {
    TablesInverse(v, 0);
    hide Scan;
    ScanHead(EncodeChar(v), rest, pads);
  }

  /** Line ends anywhere among the symbols, any number of them, do not change what is read. */
  lemma {:induction false} BreaksAnywhere(ps: seq<Piece>, pads: nat)
    requires pads <= 2 && PadsOk(SymbolsOf(ps), pads)
    ensures Scan(Text(ps), pads) == Symbols(SymbolsOf(ps))
    decreases |ps|
  {
    if |ps| > 0 {
      hide Scan, EncodeChar;
      var rest := Text(ps[1..]);
      match ps[0]
      case Sym(v) =>
        assert SymbolsOf(ps)[1..] == SymbolsOf(ps[1..]);
        BreaksAnywhere(ps[1..], if v == PAD then pads + 1 else 0);
        ScanChar(v, rest, pads);
      case Newline =>
        BreaksAnywhere(ps[1..], pads);
        ScanBreak(rest, pads);
      case CrLf =>
        BreaksAnywhere(ps[1..], pads);
        ScanBreak(rest, pads);
    } else {
      assert Scan([], pads) == Symbols([]);
    }
  }

  function Pieces(syms: seq<Symbol>): (r: seq<Piece>)
    ensures |r| == |syms|
  {
    if |syms| == 0 then [] else [Sym(syms[0])] + Pieces(syms[1..])
  }

  lemma {:induction false} PlainText(syms: seq<Symbol>)
    ensures SymbolsOf(Pieces(syms)) == syms && Text(Pieces(syms)) == Chars(syms)
  {
    if |syms| > 0 {
      PlainText(syms[1..]);
      assert Pieces(syms)[1..] == Pieces(syms[1..]);
      assert Chars(syms) == [EncodeChar(syms[0])] + Chars(syms[1..]);
    }
  }

  /**
   * Decoding an encoded text, with any line breaks put into it, is accepted, is announced with the
   * length of the source, and gives the source back.
   */
  lemma DecodeOfEncode(src: seq<Byte>, ps: seq<Piece>)
    requires SymbolsOf(ps) == EncodeSymbols(src)
    ensures var t := EncodeSymbols(src);
            Scan(Text(ps), 0) == Symbols(t) && Scan(Encoded(src), 0) == Symbols(t) &&
            FirstPassLength(|t|, Pads(t)) == |src| && Pour(t, 3, []) == src
  {
    var t := EncodeSymbols(src);
    PourEncoded(src);
    EncodedSize(src);
    hide Scan, Pour, Text, SymbolsOf, EncodeSymbols, PadsOk, Chars, FirstPassLength, Pads;
    BreaksAnywhere(ps, 0);
    PlainText(t);
    BreaksAnywhere(Pieces(t), 0);
    AnnouncedLength(t);
  }

  lemma {:induction false} SpacesAre(s: seq<Byte>, k: nat)
    requires k <= |s| && (k < |s| ==> s[k] != SPACE) && forall i :: 0 <= i < k ==> s[i] == SPACE
    ensures Spaces(s) == k
  {
    if k > 0 { SpacesAre(s[1..], k - 1); }
  }

  /** The scan of a text that has k spaces and then c and the rest. */
  function ScanFrom(k: nat, c: Byte, rest: seq<Byte>, pads: nat): Scanned {
    if AtBreak(c, rest) then Scan(rest, pads)
    else if k != 0 then Invalid
    else
      var v := DecodeChar(c);
      var pads' := if v == PAD then pads + 1 else pads;
      if v == NONE || pads' > 2 || (v < 64 && pads' != 0) then Invalid
      else Before([v], Scan(rest, pads'))
  }

  lemma ScanUnfold(s: seq<Byte>, k: nat, pads: nat)
    requires k == Spaces(s) < |s|
    ensures Scan(s, pads) == ScanFrom(k, s[k], s[k + 1..], pads)
  {}

  /** Spaces in front of an accepted text could be dropped. */
  lemma DropSpaces(s: seq<Byte>, p: nat, pads: nat)
    requires p <= Spaces(s) && Scan(s, pads).Symbols?
    ensures Scan(s[p..], pads) == Scan(s, pads)
  {
    var k := Spaces(s);
    SpacesAre(s[p..], k - p);
    if k < |s| {
      hide Scan, Spaces;
      ScanUnfold(s, k, pads);
      ScanUnfold(s[p..], k - p, pads);
      assert s[p..][k - p] == s[k] && s[p..][k - p + 1..] == s[k + 1..];
      if k == 0 { assert s[p..] == s; }
    }
  }

  lemma BreakAmongSpaces(s: seq<Byte>, p: nat, crlf: bool, pads: nat)
    requires p <= Spaces(s) && Scan(s, pads).Symbols?
    ensures var b := if crlf then [CR, LF] else [LF];
            Scan(s[..p] + b + s[p..], pads) == Scan(s, pads)
  {
    var b: seq<Byte> := if crlf then [CR, LF] else [LF];
    var t := s[..p] + b + s[p..];
    DropSpaces(s, p, pads);
    ScanBreak(s[p..], pads);
    SpacesAre(t, p);
    assert t[p..] == b + s[p..];
    if crlf {
      assert t[p + 1..] == [LF] + s[p..];
    } else {
      assert t[p + 1..] == s[p..];
    }
  }

  lemma InsertTail(s: seq<Byte>, p: nat, k: nat, b: seq<Byte>)
    requires k < p <= |s| && k == Spaces(s)
    ensures var t := s[..p] + b + s[p..];
            Spaces(t) == k < |t| && t[k] == s[k] &&
            t[k + 1..] == s[k + 1..][..p - k - 1] + b + s[k + 1..][p - k - 1..]
  {
    var t := s[..p] + b + s[p..];
    SpacesAre(t, k);
    assert s[..p][k + 1..] == s[k + 1..][..p - k - 1] && s[p..] == s[k + 1..][p - k - 1..];
  }

  /** A line break put into an accepted text: fine everywhere, but CR LF not between a CR and its LF. */
  lemma {:induction false} InsertBreak(s: seq<Byte>, p: nat, crlf: bool, pads: nat)
    requires p <= |s| && Scan(s, pads).Symbols?
    ensures var b := if crlf then [CR, LF] else [LF];
            Scan(s[..p] + b + s[p..], pads) == if crlf && p > 0 && s[p - 1] == CR then Invalid else Scan(s, pads)
    decreases |s|
  {
    hide Scan, Spaces;
    var k := Spaces(s);
    var b: seq<Byte> := if crlf then [CR, LF] else [LF];
    if p <= k {
      BreakAmongSpaces(s, p, crlf, pads);
    } else {
      var t := s[..p] + b + s[p..];
      var c, rest, q := s[k], s[k + 1..], p - k - 1;
      var more := rest[..q] + b + rest[q..];
      InsertTail(s, p, k, b);
      ScanUnfold(s, k, pads);
      ScanUnfold(t, k, pads);
      InsertInside(c, rest, more, q, b);
      InsertBreak(rest, q, crlf, if AtBreak(c, rest) || DecodeChar(c) != PAD then pads else pads + 1);
      assert s[p - 1] == if q == 0 then c else rest[q - 1];
    }
  }

  lemma InsertInside(c: Byte, rest: seq<Byte>, more: seq<Byte>, q: nat, b: seq<Byte>)
    requires q <= |rest| && |b| > 0 && more == rest[..q] + b + rest[q..]
    ensures AtBreak(c, more) == if q > 0 then AtBreak(c, rest) else AtBreak(c, b)
  {}
}
