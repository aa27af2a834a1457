/** The base64 encoder and decoder as loops over a buffer. */
module Base64 {
  import opened Arith
  import opened Wire
  import opened Base64Spec

  /** The largest size_t. */
  const SIZE_MAX: nat := 0xFFFF_FFFF_FFFF_FFFF

  datatype Result = Ok | BufferTooSmall | InvalidCharacter

  /** The full groups. */
  method EncodeFull(dst: array<Byte>, src: seq<Byte>, ghost n: nat) returns (i: nat, p: nat, ghost done: seq<Symbol>)
    requires n == |EncodeSymbols(src)| < dst.Length
    modifies dst
    ensures i == |src| / 3 * 3 && p == |done| && p + |EncodeSymbols(src[i..])| == n
    ensures done + EncodeSymbols(src[i..]) == EncodeSymbols(src)
    ensures dst[..p] == Chars(done) && dst[n + 1..] == old(dst[n + 1..])
  {
    hide First, Second, Third, Fourth, EncodeSymbols, Chars;
    var full := |src| / 3 * 3;
    i, p, done := 0, 0, [];
    ghost var after := dst[n + 1..];
    assert src[0..] == src && [] + EncodeSymbols(src) == EncodeSymbols(src) && dst[..0] == Chars([]);
    while i < full
      invariant i % 3 == 0 && i <= full && p == |done| && p + |EncodeSymbols(src[i..])| == n
      invariant done + EncodeSymbols(src[i..]) == EncodeSymbols(src)
      invariant dst[..p] == Chars(done) && dst[n + 1..] == after
    {
      var c1, c2, c3 := src[i], src[i + 1], src[i + 2];
      FullStep(src, i);
      ghost var group := [First(c1), Second(c1, c2), Third(c2, c3), Fourth(c3)];
      p := WriteGroup(dst, p, First(c1), Second(c1, c2), Third(c2, c3), Fourth(c3), n, done);
      assert done + (group + EncodeSymbols(src[i + 3..])) == (done + group) + EncodeSymbols(src[i + 3..]);
      done := done + group;
      i := i + 3;
    }
  }

  /** Needs room for the text and a terminating zero. */
  method Encode(dst: array<Byte>, src: seq<Byte>) returns (r: Result, olen: nat)
    modifies dst
    ensures var n := |Encoded(src)|;
            if |src| == 0 then r == Ok && olen == 0 && dst[..] == old(dst[..])
            else if (|src| + 2) / 3 > (SIZE_MAX - 1) / 4 then
              r == BufferTooSmall && olen == SIZE_MAX && dst[..] == old(dst[..])
            else if dst.Length < n + 1 then r == BufferTooSmall && olen == n + 1 && dst[..] == old(dst[..])
            else r == Ok && olen == n && dst[..n] == Encoded(src) && dst[n] == 0 &&
                 dst[n + 1..] == old(dst[n + 1..])
  {
    hide First, Second, Third, Fourth, EncodeSymbols, Chars;
    if |src| == 0 { return Ok, 0; }
    EncodedSize(src);
    var n := |src| / 3 + if |src| % 3 != 0 then 1 else 0;
    if n > (SIZE_MAX - 1) / 4 { return BufferTooSmall, SIZE_MAX; }
    n := n * 4;
    if dst.Length < n + 1 { return BufferTooSmall, n + 1; }
    ghost var done;
    var i, p;
    i, p, done := EncodeFull(dst, src, n);
    if i < |src| {
      var c1 := src[i];
      var c2 := if i + 1 < |src| then src[i + 1] else 0;
      LastStep(src, i);
      var third := if i + 1 < |src| then Third(c2, 0) else PAD;
      p := WriteGroup(dst, p, First(c1), Second(c1, c2), third, PAD, n, done);
    } else {
      NoneLeft(src, i);
      assert done + [] == done;
    }
    ghost var text, after := dst[..n], dst[n + 1..];
    dst[p] := 0;
    assert dst[..n] == text && dst[n + 1..] == after;
    return Ok, p;
  }

  lemma NoneLeft(src: seq<Byte>, i: nat)
    requires i == |src|
    ensures EncodeSymbols(src[i..]) == []
  {}

  lemma FullStep(src: seq<Byte>, i: nat)
    requires i + 3 <= |src|
    ensures EncodeSymbols(src[i..]) ==
            [First(src[i]), Second(src[i], src[i + 1]), Third(src[i + 1], src[i + 2]), Fourth(src[i + 2])] +
            EncodeSymbols(src[i + 3..])
  {
    assert src[i..][3..] == src[i + 3..];
  }

  lemma LastStep(src: seq<Byte>, i: nat)
    requires i < |src| < i + 3
    ensures var c2 := if i + 1 < |src| then src[i + 1] else 0;
            EncodeSymbols(src[i..]) ==
            [First(src[i]), Second(src[i], c2), if i + 1 < |src| then Third(c2, 0) else PAD, PAD]
  {}

  method WriteGroup(dst: array<Byte>, p: nat, a: Symbol, b: Symbol, c: Symbol, d: Symbol,
                    ghost n: nat, ghost done: seq<Symbol>) returns (q: nat)
    requires p + 4 <= n < dst.Length && dst[..p] == Chars(done) && p == |done|
    modifies dst
    ensures q == p + 4 && dst[..q] == Chars(done + [a, b, c, d])
    ensures dst[n + 1..] == old(dst[n + 1..])
  {
    hide EncodeChar;
    dst[p] := EncodeChar(a);
    dst[p + 1] := EncodeChar(b);
    dst[p + 2] := EncodeChar(c);
    dst[p + 3] := EncodeChar(d);
    q := p + 4;
    assert forall i :: 0 <= i < p ==> dst[..p][i] == dst[i];
  }

  // ---- the first pass ----

  method SkipSpaces(src: seq<Byte>, i: nat) returns (k: nat)
    requires i <= |src|
    ensures i <= k <= |src| && k == i + Spaces(src[i..])
  {
    k := i;
    while k < |src| && src[k] == SPACE
      invariant i <= k <= |src| && forall m :: i <= m < k ==> src[m] == SPACE
    {
      k := k + 1;
    }
    SpacesAre(src[i..], k - i);
  }

  lemma TurnUnfold(src: seq<Byte>, i: nat, k: nat, pads: nat)
    requires i <= k < |src| && k == i + Spaces(src[i..])
    ensures var brk := src[k] == LF || (src[k] == CR && k + 1 < |src| && src[k + 1] == LF);
            var v := DecodeChar(src[k]);
            var pads' := if v == PAD then pads + 1 else pads;
            Scan(src[i..], pads) ==
            if brk then Scan(src[k + 1..], pads)
            else if k != i || v == NONE || pads' > 2 || (v < 64 && pads' != 0) then Invalid
            else Before([v], Scan(src[k + 1..], pads'))
  {
    hide Scan, Spaces;
    ScanUnfold(src[i..], k - i, pads);
    assert src[i..][k - i] == src[k] && src[i..][k - i + 1..] == src[k + 1..];
  }

  /** Checks every character and counts the symbols and the padding among them. */
  method CheckText(src: seq<Byte>) returns (r: Result, n: nat, pads: nat)
    ensures match Scan(src, 0)
            case Invalid => r == InvalidCharacter
            case Symbols(t) => r == Ok && n == |t| && pads == Pads(t)
  {
    hide Scan, Spaces, Pads, Before;
    var i := 0;
    n, pads := 0, 0;
    ghost var got: seq<Symbol> := [];
    assert src[0..] == src;
    PadsNone();
    BeforeNothing(Scan(src, 0));
    while i < |src|
      invariant 0 <= i <= |src| && n == |got| && pads == Pads(got) && pads <= 2
      invariant Scan(src, 0) == Before(got, Scan(src[i..], pads))
    {
      var k := SkipSpaces(src, i);
      var x := k - i;
      if k == |src| {
        ScanBlank(src[i..], pads);
        BeforeEnd(got);
        return Ok, n, pads;
      }
      TurnUnfold(src, i, k, pads);
      i := k;
      if |src| - i >= 2 && src[i] == CR && src[i + 1] == LF {
        i := i + 1;
        continue;
      }
      if src[i] == LF {
        i := i + 1;
        continue;
      }
      BeforeInvalid(got);
      if x != 0 { return InvalidCharacter, n, pads; }
      var c := DecodeChar(src[i]);
      if src[i] == 61 {
        pads := pads + 1;
        if pads > 2 { return InvalidCharacter, n, pads; }
      }
      if c == NONE { return InvalidCharacter, n, pads; }
      if c < 64 && pads != 0 { return InvalidCharacter, n, pads; }
      n := n + 1;
      TablesInverse(c, src[i]);
      BeforeTwice(got, c, Scan(src[i + 1..], pads));
      PadsAppend(got, c);
      got := got + [c];
      i := i + 1;
    }
    SpacesAre(src[i..], 0);
    ScanBlank(src[i..], pads);
    BeforeEnd(got);
    return Ok, n, pads;
  }

  lemma PadsNone()
    ensures Pads([]) == 0
  {}

  lemma BeforeEnd(got: seq<Symbol>)
    ensures Before(got, Symbols([])) == Symbols(got)
  {
    assert got + [] == got;
  }

  lemma BeforeInvalid(got: seq<Symbol>)
    ensures Before(got, Invalid) == Invalid
  {}

  lemma BeforeNothing(r: Scanned)
    ensures Before([], r) == r
  {}

  lemma BeforeTwice(got: seq<Symbol>, c: Symbol, r: Scanned)
    ensures Before(got, Before([c], r)) == Before(got + [c], r)
  {
    if r.Symbols? { assert got + ([c] + r.syms) == (got + [c]) + r.syms; }
  }

  lemma ScanBlank(s: seq<Byte>, pads: nat)
    requires Spaces(s) == |s|
    ensures Scan(s, pads) == Symbols([])
  {}

  lemma {:induction false} PadsAppend(syms: seq<Symbol>, c: Symbol)
    ensures Pads(syms + [c]) == Pads(syms) + Pad(c)
  {
    if |syms| > 0 {
      PadsAppend(syms[1..], c);
      assert (syms + [c])[1..] == syms[1..] + [c];
    } else {
      assert [c][1..] == [];
    }
  }

  // ---- the second pass ----

  lemma GroupPowers()
    ensures IPow(64, 0) == 1 && IPow(64, 1) == 64 && IPow(64, 2) == 4096 && IPow(64, 3) == 262144 && IPow(64, 4) == 0x100_0000
  {
    assert IPow(64, 2) == 64 * IPow(64, 1);
    assert IPow(64, 4) == 64 * IPow(64, 3);
  }

  /** The number that the symbols of a group make, first symbol highest. */
  function GroupNumber(g: seq<Symbol>): nat {
    if |g| == 0 then 0 else GroupNumber(g[..|g| - 1]) * 64 + Bits(g[|g| - 1])
  }

  lemma GroupAppend(g: seq<Symbol>, c: Symbol)
    ensures GroupNumber(g + [c]) == GroupNumber(g) * 64 + Bits(c)
  {
    assert (g + [c])[..|g|] == g;
  }

  /** The low 6n bits survive the 32-bit accumulator. */
  lemma LowBits(x: Uint32, n: nat, c: Symbol)
    requires n < 4
    ensures var y := (x * 64 + Bits(c)) % UINT32;
            y % IPow(64, n + 1) == x % IPow(64, n) * 64 + Bits(c)
  {
    GroupPowers();
    var m := IPow(64, n);
    assert m > 0 && IPow(64, n + 1) == 64 * m;
    var z := x * 64 + Bits(c);
    var w := UINT32 / (64 * m);
    assert w * (64 * m) == UINT32;
    var q, low := x / m, x % m;
    DivMod(x, m);
    assert low * 64 + Bits(c) < 64 * m;
    assert z == q * (64 * m) + (low * 64 + Bits(c)) by { Scale(q, m, low, Bits(c)); }
    ModOfMod(z, w, 64 * m, q, low * 64 + Bits(c));
  }

  lemma Scale(q: int, m: int, low: int, b: int)
    ensures (q * m + low) * 64 + b == q * (64 * m) + (low * 64 + b)
  {}

  lemma ModOfMod(z: nat, w: nat, d: nat, q: nat, r: nat)
    requires d > 0 && w > 0 && z == q * d + r && r < d
    ensures w * d > 0 && z % (w * d) % d == r
  {
    assert w * d > 0;
    var big := w * d;
    var t := z / big;
    DivMod(z, big);
    var y := z % big;
    assert y == (q - t * w) * d + r by { Rest(z, q, d, r, t, w); }
    DivUnique(y, d, q - t * w, r);
  }

  lemma Rest(z: int, q: int, d: int, r: int, t: int, w: int)
    requires z == q * d + r
    ensures z - t * (w * d) == (q - t * w) * d + r
  {
    assert t * (w * d) == t * w * d;
  }

  lemma FourSymbols(g: seq<Symbol>)
    requires |g| == 4
    ensures GroupNumber(g) == Bits(g[0]) * 262144 + Bits(g[1]) * 4096 + Bits(g[2]) * 64 + Bits(g[3])
  {
    hide GroupNumber, Bits;
    assert g == (([] + [g[0]]) + [g[1]] + [g[2]]) + [g[3]];
    GroupAppend(([] + [g[0]]) + [g[1]] + [g[2]], g[3]);
    GroupAppend(([] + [g[0]]) + [g[1]], g[2]);
    GroupAppend([] + [g[0]], g[1]);
    GroupAppend([], g[0]);
    assert GroupNumber([]) == 0 by { EmptyGroup(); }
  }

  lemma EmptyGroup()
    ensures GroupNumber([]) == 0
  {}

  /** The 24 bits of four symbols, cut into three bytes. */
  lemma GroupCut(g: seq<Symbol>)
    requires |g| == 4
    ensures GroupNumber(g) == FirstByte(g[0], g[1]) * 0x1_0000 + SecondByte(g[1], g[2]) * 0x100 + ThirdByte(g[2], g[3])
  {
    FourSymbols(g);
    var b0: int, b1: int, b2: int, b3: int := Bits(g[0]), Bits(g[1]), Bits(g[2]), Bits(g[3]);
    assert FirstByte(g[0], g[1]) == b0 * 4 + b1 / 16;
    assert SecondByte(g[1], g[2]) == b1 % 16 * 16 + b2 / 4;
    assert ThirdByte(g[2], g[3]) == b2 % 4 * 64 + b3;
    hide *;
    CutSum(b0, b1 / 16, b1 % 16, b1, b2 / 4, b2 % 4, b2, b3);
  }

  lemma CutSum(b0: int, h1: int, l1: int, b1: int, h2: int, l2: int, b2: int, b3: int)
    requires h1 == b1 / 16 && l1 == b1 % 16 && h2 == b2 / 4 && l2 == b2 % 4
    ensures b0 * 262144 + b1 * 4096 + b2 * 64 + b3 == (b0 * 4 + h1) * 0x1_0000 + (l1 * 16 + h2) * 0x100 + (l2 * 64 + b3)
  {
    DivMod(b1, 16);
    DivMod(b2, 4);
  }

  /** The three low bytes of a number, from the top of its 24 low bits. */
  lemma ThreeBytes(x: int, q: int, a: int, b: int, c: int)
    requires x == q * 0x100_0000 + a * 0x1_0000 + b * 0x100 + c && 0 <= a < 256 && 0 <= b < 256 && 0 <= c < 256
    ensures x / 0x1_0000 % 0x100 == a && x / 0x100 % 0x100 == b && x % 0x100 == c
  {
    DivUnique(x, 0x1_0000, q * 0x100 + a, b * 0x100 + c);
    DivUnique(q * 0x100 + a, 0x100, q, a);
    DivUnique(x, 0x100, q * 0x1_0000 + a * 0x100 + b, c);
    DivUnique(q * 0x1_0000 + a * 0x100 + b, 0x100, q * 0x100 + a, b);
  }

  /** The bytes taken from the accumulator are those of the group in its low 24 bits. */
  lemma GroupBytes(x: Uint32, g: seq<Symbol>)
    requires |g| == 4 && x % 0x100_0000 == GroupNumber(g)
    ensures x / 0x1_0000 % 0x100 == FirstByte(g[0], g[1])
    ensures x / 0x100 % 0x100 == SecondByte(g[1], g[2])
    ensures x % 0x100 == ThirdByte(g[2], g[3])
  {
    hide *;
    GroupCut(g);
    DivMod(x, 0x100_0000);
    ThreeBytes(x, x / 0x100_0000, FirstByte(g[0], g[1]), SecondByte(g[1], g[2]), ThirdByte(g[2], g[3]));
  }

  /** Writes what a full group gives. */
  method WriteBytes(dst: array<Byte>, p: nat, j: nat, x: Uint32, ghost g: seq<Symbol>, ghost done: seq<Byte>) returns (q: nat)
    requires j <= 3 && p + j <= dst.Length && dst[..p] == done && |g| == 4 && x % 0x100_0000 == GroupNumber(g)
    modifies dst
    ensures q == p + j && dst[..q] == done + Output(j, g)
    ensures dst[q..] == old(dst[q..])
  {
    GroupBytes(x, g);
    hide FirstByte, SecondByte, ThirdByte, GroupNumber;
    q := p;
    if j > 0 {
      dst[q] := x / 0x1_0000 % 0x100;
      q := q + 1;
    }
    if j > 1 {
      dst[q] := x / 0x100 % 0x100;
      q := q + 1;
    }
    if j > 2 {
      dst[q] := x % 0x100;
      q := q + 1;
    }
  }

  lemma SignificantStep(src: seq<Byte>, i: nat)
    requires i < |src|
    ensures Significant(src[i..]) ==
            if IsBlank(src[i]) || DecodeChar(src[i]) == NONE then Significant(src[i + 1..])
            else [DecodeChar(src[i])] + Significant(src[i + 1..])
  {
    assert src[i..][1..] == src[i + 1..];
  }

  /** Where the second pass stands: what is written and what the remaining symbols give make the whole. */
  ghost predicate Delivering(written: seq<Byte>, rest: seq<Symbol>, j: nat, g: seq<Symbol>, n: nat, x: Uint32, all: seq<Byte>) {
    1 <= j <= 3 && n == |g| < 4 && PadsOk(rest, 3 - j) && x % IPow(64, n) == GroupNumber(g) &&
    written + Pour(rest, j, g) == all
  }

  lemma DeliveringStep(written: seq<Byte>, c: Symbol, rest: seq<Symbol>, j: nat, g: seq<Symbol>, n: nat, x: Uint32, all: seq<Byte>)
    requires Delivering(written, [c] + rest, j, g, n, x, all)
    ensures var j', x', g' := j - Pad(c), (x * 64 + Bits(c)) % UINT32, g + [c];
            1 <= j' && (n < 3 ==> Delivering(written, rest, j', g', n + 1, x', all)) &&
            (n == 3 ==> |g'| == 4 && x' % 0x100_0000 == GroupNumber(g') && |written| + j' <= |all| &&
                        Delivering(written + Output(j', g'), rest, j', [], 0, x', all))
  {
    GroupPowers();
    EmptyGroup();
    var s := [c] + rest;
    assert s[0] == c && s[1..] == rest;
    hide IPow, Pour, Output, PadsOk, Pads, GroupNumber;
    PadsStep(s, 3 - j);
    PourStep(s, j, g);
    LowBits(x, n, c);
    GroupAppend(g, c);
    var j', g' := j - Pad(c), g + [c];
    if n == 3 {
      var out := Output(j', g');
      assert written + (out + Pour(rest, j', [])) == (written + out) + Pour(rest, j', []);
    }
  }

  /** One symbol of the second pass. */
  method TakeSymbol(dst: array<Byte>, p: nat, j: nat, n: nat, x: Uint32, c: Symbol,
                    ghost g: seq<Symbol>, ghost rest: seq<Symbol>, ghost all: seq<Byte>)
    returns (p': nat, j': nat, n': nat, x': Uint32, ghost g': seq<Symbol>)
    requires p <= |all| <= dst.Length && Delivering(dst[..p], [c] + rest, j, g, n, x, all)
    modifies dst
    ensures p <= p' <= |all| && Delivering(dst[..p'], rest, j', g', n', x', all)
    ensures dst[p'..] == old(dst[p'..])
  {
    assert 1 <= j <= 3 && n < 4;
    DeliveringStep(dst[..p], c, rest, j, g, n, x, all);
    hide Delivering, Output, GroupNumber;
    p', j', n', g' := p, j, n, g + [c];
    if c == PAD { j' := j' - 1; }
    x' := (x * 64 + c % 64) % UINT32;
    n' := n' + 1;
    if n' == 4 {
      n' := 0;
      p' := WriteBytes(dst, p, j', x', g', dst[..p]);
      g' := [];
    }
  }

  lemma DeliveringStarts(rest: seq<Symbol>)
    requires PadsOk(rest, 0)
    ensures Delivering([], rest, 3, [], 0, 0, Pour(rest, 3, []))
  {
    assert IPow(64, 0) == 1;
  }

  lemma DeliveringEnds(written: seq<Byte>, j: nat, g: seq<Symbol>, n: nat, x: Uint32, all: seq<Byte>)
    requires Delivering(written, [], j, g, n, x, all)
    ensures written == all
  {
    assert written + [] == written;
  }

  /** Delivers the symbols of an accepted text; the target has room for all that comes out. */
  method DeliverText(dst: array<Byte>, src: seq<Byte>) returns (p: nat)
    requires Scan(src, 0).Symbols? && |Pour(Significant(src), 3, [])| <= dst.Length
    modifies dst
    ensures p == |Pour(Significant(src), 3, [])| && dst[..p] == Pour(Significant(src), 3, [])
    ensures dst[p..] == old(dst[p..])
  {
    ScanIsSignificant(src, 0);
    AllSignificant(src, 0);
    ghost var all := Pour(Significant(src), 3, []);
    DeliveringStarts(Significant(src));
    assert src[0..] == src && dst[..0] == [];
    assert src[|src|..] == [] && Significant([]) == [];
    hide Scan, Significant, Pour, DecodeChar, PadsOk, Delivering;
    var j, n := 3, 0;
    var x: Uint32 := 0;
    ghost var g: seq<Symbol> := [];
    p := 0;
    for i := 0 to |src|
      invariant p <= |all| && Delivering(dst[..p], Significant(src[i..]), j, g, n, x, all)
      invariant dst[p..] == old(dst[p..])
    {
      SignificantStep(src, i);
      var ch := src[i];
      if ch == CR || ch == LF || ch == SPACE { continue; }
      var c := DecodeChar(ch);
      p, j, n, x, g := TakeSymbol(dst, p, j, n, x, c, g, Significant(src[i + 1..]), all);
    }
    DeliveringEnds(dst[..p], j, g, n, x, all);
  }

  /** In an accepted text every character that is not blank is a symbol. */
  lemma {:induction false} AllSignificant(src: seq<Byte>, pads: nat)
    requires Scan(src, pads).Symbols?
    ensures forall i :: 0 <= i < |src| ==> IsBlank(src[i]) || DecodeChar(src[i]) != NONE
    decreases |src|
  {
    hide Scan, Spaces;
    var k := Spaces(src);
    if k < |src| {
      ScanUnfold(src, k, pads);
      var rest := src[k + 1..];
      AllSignificant(rest, if AtBreak(src[k], rest) || DecodeChar(src[k]) != PAD then pads else pads + 1);
      assert forall i :: k < i < |src| ==> src[i] == rest[i - k - 1];
    }
  }

  /**
   * Refuses a text with a bad character, announces the length when the target is too small, and
   * otherwise delivers the bytes of the text; a text without symbols gives nothing.
   */
  method Decode(dst: array<Byte>, src: seq<Byte>) returns (r: Result, olen: nat)
    ensures match Scan(src, 0)
            case Invalid => r == InvalidCharacter && dst[..] == old(dst[..])
            case Symbols(t) =>
              var announced := FirstPassLength(|t|, Pads(t));
              if |t| > 0 && dst.Length < announced then
                r == BufferTooSmall && olen == announced && dst[..] == old(dst[..])
              else
                r == Ok && olen == |Pour(t, 3, [])| <= announced &&
                dst[..olen] == Pour(t, 3, []) && dst[olen..] == old(dst[olen..])
    modifies dst
  {
    olen := 0;
    var n, pads;
    r, n, pads := CheckText(src);
    if r != Ok { return; }
    ScanIsSignificant(src, 0);
    ghost var t := Significant(src);
    AnnouncedLength(t);
    if n == 0 {
      return Ok, 0;
    }
    n := (n * 6 + 7) / 8 - pads;
    if dst.Length < n { return BufferTooSmall, n; }
    olen := DeliverText(dst, src);
    return Ok, olen;
  }

  /** Encoding and then decoding with room for both gives the source back, byte for byte. */
  method RoundTrip(text: array<Byte>, bytes: array<Byte>, src: seq<Byte>) returns (r: Result, olen: nat)
    requires |src| <= bytes.Length && |Encoded(src)| < text.Length <= SIZE_MAX && text != bytes
    modifies text, bytes
    ensures r == Ok && olen == |src| && bytes[..olen] == src && bytes[olen..] == old(bytes[olen..])
  {
    hide EncodeSymbols, Scan, Pour, Pads, FirstPassLength, Pieces, SymbolsOf, Text, Chars;
    EncodedSize(src);
    PlainText(EncodeSymbols(src));
    DecodeOfEncode(src, Pieces(EncodeSymbols(src)));
    r, olen := Encode(text, src);
    r, olen := Decode(bytes, text[..olen]);
  }
}
