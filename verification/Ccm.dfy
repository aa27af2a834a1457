/** CCM as the code runs it: three 16-byte buffers updated in place. */
module Ccm {
  import opened Arith
  import opened Wire
  import opened CcmSpec

  datatype Mode = Encrypt | Decrypt

  datatype Result = Ok | BadInput | AuthFailed

  /** Fills b with s and zeros. */
  method Load(b: array<Byte>, s: seq<Byte>)
    requires b.Length == 16 && |s| <= 16
    modifies b
    ensures b[..] == s + ZeroBytes(16 - |s|)
  {
    for i := 0 to 16
      invariant forall k :: 0 <= k < i ==> b[k] == 0
    {
      b[i] := 0;
    }
    for i := 0 to |s|
      invariant forall k :: 0 <= k < i ==> b[k] == s[k]
      invariant forall k :: i <= k < 16 ==> b[k] == 0
    {
      b[i] := s[i];
    }
  }

  method Store(b: array<Byte>, w: Block)
    requires b.Length == 16
    modifies b
    ensures b[..] == w
  {
    for i := 0 to 16
      invariant forall k :: 0 <= k < i ==> b[k] == w[k]
    {
      b[i] := w[i];
    }
  }

  method UpdateCbcMac(E: Cipher, y: array<Byte>, b: array<Byte>)
    requires y.Length == 16 == b.Length && y != b
    modifies y
    ensures y[..] == E(Xor(old(y[..]), b[..]))
  {
    for i := 0 to 16
      invariant forall k :: 0 <= k < i ==> y[k] == XorByte(old(y[k]), b[k])
      invariant forall k :: i <= k < 16 ==> y[k] == old(y[k])
    {
      y[i] := XorByte(y[i], b[i]);
    }
    assert y[..] == Xor(old(y[..]), b[..]);
    Store(y, E(y[..]));
  }

  /** Encrypts or decrypts n bytes at `at`; source and target may be the same array. */
  method CtrCrypt(E: Cipher, ctr: array<Byte>, b: array<Byte>, src: array<Byte>, dst: array<Byte>, at: nat, n: nat)
    requires ctr.Length == 16 == b.Length && n <= 16 && at + n <= src.Length && at + n <= dst.Length
    requires b != src && b != dst && b != ctr && ctr != dst
    modifies b, dst
    ensures dst[at..at + n] == Xor(old(src[at..at + n]), E(ctr[..]))
    ensures dst[..at] == old(dst[..at]) && dst[at + n..] == old(dst[at + n..])
    ensures ctr[..] == old(ctr[..]) && (src != dst ==> src[..] == old(src[..]))
  {
    hide XorByte;
    Store(b, E(ctr[..]));
    ghost var out, was := b[..], old(src[..]);
    for j := at to at + n
      invariant b[..] == out
      invariant src != dst ==> src[..] == was
      invariant src == dst ==> src[j..] == was[j..]
      invariant forall k :: at <= k < j ==> dst[k] == XorByte(was[k], out[k - at])
      invariant dst[..at] == old(dst[..at]) && dst[at + n..] == old(dst[at + n..])
    {
      assert src[j] == was[j] by { if src == dst { assert src[j..][0] == was[j..][0]; } }
      ghost var tail := src[j + 1..];
      dst[j] := XorByte(src[j], b[j - at]);
      assert src == dst ==> src[j + 1..] == tail;
    }
    XorSlice(dst[..], was, out, at, n);
    assert dst[at..at + n] == dst[..][at..at + n] && src.Length == |was|;
  }

  lemma XorSlice(d: seq<Byte>, s: seq<Byte>, out: seq<Byte>, at: nat, n: nat)
    requires at + n <= |d| && at + n <= |s| && n <= |out|
    requires forall k :: at <= k < at + n ==> d[k] == XorByte(s[k], out[k - at])
    ensures d[at..at + n] == Xor(s[at..at + n], out)
  {
    hide XorByte;
  }

  // ---- the counter ----

  /** Adds one to the big-endian number in the last q bytes, modulo its width. */
  function Increment(s: seq<Byte>, q: nat): (r: seq<Byte>)
    requires q <= |s|
    ensures |r| == |s|
  {
    if q == 0 then s
    else
      var n := |s| - 1;
      if s[n] < 255 then s[..n] + [s[n] + 1] else Increment(s[..n], q - 1) + [0]
  }

  lemma {:induction false} IncrementBigEndian(pre: seq<Byte>, i: nat, q: nat)
    ensures Increment(pre + BigEndian(i, q), q) == pre + BigEndian(i + 1, q)
    decreases q
  {
    if q > 0 {
      var s := pre + BigEndian(i, q);
      var n := |s| - 1;
      assert s[..n] == pre + BigEndian(i / 256, q - 1) && s[n] == i % 256;
      if i % 256 < 255 {
        DivUnique(i + 1, 256, i / 256, i % 256 + 1);
      } else {
        DivUnique(i + 1, 256, i / 256 + 1, 0);
        IncrementBigEndian(pre, i / 256, q - 1);
      }
    }
  }

  /** After i carries: the last i bytes are zero and the rest is still to be incremented. */
  predicate Carrying(c: seq<Byte>, s: seq<Byte>, q: nat, i: nat)
    requires q <= |s|
  {
    i <= q && c == s[..|s| - i] + ZeroBytes(i) && Increment(s, q) == Increment(s[..|s| - i], q - i) + ZeroBytes(i)
  }

  lemma CarryStarts(s: seq<Byte>, q: nat)
    requires q <= |s|
    ensures Carrying(s, s, q, 0)
  {
    assert s[..|s|] == s;
    assert Increment(s, q) + ZeroBytes(0) == Increment(s, q);
  }

  lemma CarryStep(c: seq<Byte>, s: seq<Byte>, q: nat, i: nat)
    requires q <= |s| && Carrying(c, s, q, i) && i < q
    ensures var p := |s| - 1 - i;
            if c[p] < 255 then c[p := c[p] + 1] == Increment(s, q) else Carrying(c[p := 0], s, q, i + 1)
  {
    var p := |s| - 1 - i;
    var u := s[..p + 1];
    assert c[p] == u[p] && u[..p] == s[..p];
    var head := Increment(s[..p], q - i - 1);
    hide Increment;
    IncrementLast(u, q - i);
    if c[p] < 255 {
      ReplaceAt(u, p, c[p] + 1, ZeroBytes(i));
    } else {
      ReplaceAt(u, p, 0, ZeroBytes(i));
      ZerosMore(s[..p], i);
      ZerosMore(head, i);
    }
  }

  lemma IncrementLast(u: seq<Byte>, q: nat)
    requires 0 < q <= |u|
    ensures var n := |u| - 1;
            Increment(u, q) == if u[n] < 255 then u[..n] + [u[n] + 1] else Increment(u[..n], q - 1) + [0]
  {}

  lemma ReplaceAt(u: seq<Byte>, p: nat, x: Byte, z: seq<Byte>)
    requires |u| == p + 1
    ensures (u + z)[p := x] == u[..p] + [x] + z
  {}

  lemma ZerosMore(a: seq<Byte>, i: nat)
    ensures a + [0] + ZeroBytes(i) == a + ZeroBytes(i + 1)
  {}

  /** The carry loop on the last q bytes. */
  method IncrementCounter(ctr: array<Byte>, q: nat)
    requires ctr.Length == 16 && q <= 16
    modifies ctr
    ensures ctr[..] == Increment(old(ctr[..]), q)
  {
    hide Carrying, Increment;
    ghost var s := ctr[..];
    CarryStarts(s, q);
    var i := 0;
    var carry := true;
    while i < q && carry
      invariant 0 <= i <= q
      invariant if carry then Carrying(ctr[..], s, q, i) else ctr[..] == Increment(s, q)
      decreases q - i, carry
    {
      CarryStep(ctr[..], s, q, i);
      ghost var before: seq<int> := ctr[..];
      var next: int := ctr[15 - i];
      next := (next + 1) % 256;
      ctr[15 - i] := next;
      assert ctr[..] == before[15 - i := next];
      if next != 0 {
        carry := false;
      } else {
        i := i + 1;
      }
    }
    if carry { CarryEnds(ctr[..], s, q); }
  }

  lemma CarryEnds(c: seq<Byte>, s: seq<Byte>, q: nat)
    requires q <= |s| && Carrying(c, s, q, q)
    ensures c == Increment(s, q)
  {}

  /** The next counter block. */
  lemma NextCounter(iv: seq<Byte>, i: nat)
    requires NonceOk(iv)
    ensures Increment(CounterBlock(iv, i), Q(iv)) == CounterBlock(iv, i + 1)
  {
    IncrementBigEndian([Q(iv) - 1] + iv, i, Q(iv));
  }

  // ---- the first block ----

  /** Writes the low q bytes of the length from the end of the block; fails when more remain. */
  method WriteLength(b: array<Byte>, q: nat, length: nat) returns (ok: bool)
    requires b.Length == 16 && q <= 16
    modifies b
    ensures ok <==> length < IPow(256, q)
    ensures b[..] == old(b[..16 - q]) + BigEndian(length, q)
  {
    ghost var pre := b[..16 - q];
    var left: nat := length;
    for i := 0 to q
      invariant b[..16 - q] == pre
      invariant BigEndian(length, q) == BigEndian(left, q - i) + b[16 - i..]
      invariant length < IPow(256, q) <==> left < IPow(256, q - i)
    {
      LengthStep(left, q - i);
      ghost var tail := b[16 - i..];
      b[15 - i] := left % 256;
      left := left / 256;
      assert b[16 - (i + 1)..] == [b[15 - i]] + tail;
      assert BigEndian(left, q - i - 1) + [b[15 - i]] + tail == BigEndian(left, q - i - 1) + ([b[15 - i]] + tail);
    }
    ok := left == 0;
    assert b[..] == b[..16 - q] + b[16 - q..];
  }

  lemma LengthStep(n: nat, q: nat)
    requires q > 0
    ensures BigEndian(n, q) == BigEndian(n / 256, q - 1) + [n % 256]
    ensures n < IPow(256, q) <==> n / 256 < IPow(256, q - 1)
  {}

  method FirstBlock(b: array<Byte>, iv: seq<Byte>, addLen: nat, tagLen: nat, length: nat) returns (ok: bool)
    requires b.Length == 16 && NonceOk(iv) && TagOk(tagLen)
    modifies b
    ensures ok <==> length < IPow(256, Q(iv))
    ensures b[..] == B0(iv, addLen, length, tagLen)
  {
    var q := 15 - |iv|;
    var flags := 0;
    if addLen > 0 { flags := 64; }
    flags := flags + (tagLen - 2) / 2 * 8;
    flags := flags + q - 1;
    b[0] := flags;
    for i := 0 to |iv|
      invariant b[0] == flags && forall k :: 0 <= k < i ==> b[1 + k] == iv[k]
    {
      b[1 + i] := iv[i];
    }
    assert b[..16 - q] == [Flags(addLen, tagLen, q)] + iv;
    ok := WriteLength(b, q, length);
  }

  // ---- the CBC-MAC over headers and payload ----

  lemma MacStep(E: Cipher, y: Block, s: seq<Byte>)
    requires |s| > 0
    ensures Mac(E, y, Blocks(s)) == Mac(E, E(Xor(y, Padded(s))), Blocks(s[Head(s)..]))
  {
    assert Blocks(s)[1..] == Blocks(s[Head(s)..]);
  }

  method MacBlock(E: Cipher, y: array<Byte>, b: array<Byte>, ghost s: seq<Byte>, part: seq<Byte>)
    requires y.Length == 16 == b.Length && y != b && |s| > 0 && part == s[..Head(s)]
    modifies y, b
    ensures Mac(E, old(y[..]), Blocks(s)) == Mac(E, y[..], Blocks(s[Head(s)..]))
  {
    hide Mac, Blocks;
    MacStep(E, y[..], s);
    Load(b, part);
    assert b[..] == Padded(s);
    UpdateCbcMac(E, y, b);
  }

  method MacAdditional(E: Cipher, y: array<Byte>, b: array<Byte>, add: seq<Byte>)
    requires y.Length == 16 == b.Length && y != b && |add| <= 0xFF00
    modifies y, b
    ensures y[..] == Mac(E, old(y[..]), Blocks(AddText(add)))
  {
    ghost var text := AddText(add);
    if |add| > 0 {
      hide Mac, Blocks;
      var use := if |add| < 14 then |add| else 14;
      var first := [|add| / 256, |add| % 256] + add[..use];
      assert first == text[..Head(text)];
      MacBlock(E, y, b, text, first);
      while use < |add|
        invariant 0 < use <= |add|
        invariant Mac(E, old(y[..]), Blocks(text)) == Mac(E, y[..], Blocks(text[2 + use..]))
      {
        var n := if |add| - use > 16 then 16 else |add| - use;
        ghost var rest := text[2 + use..];
        assert add[use..use + n] == rest[..Head(rest)];
        assert rest[Head(rest)..] == text[2 + use + n..];
        MacBlock(E, y, b, rest, add[use..use + n]);
        use := use + n;
      }
      MacDone(E, y[..], text[2 + use..]);
    } else {
      MacDone(E, y[..], text);
    }
  }

  lemma MacDone(E: Cipher, y: Block, s: seq<Byte>)
    requires |s| == 0
    ensures Mac(E, y, Blocks(s)) == y
  {}

  lemma CryptStep(E: Cipher, iv: seq<Byte>, n: nat, s: seq<Byte>)
    requires NonceOk(iv) && |s| > 0
    ensures Crypt(E, iv, n, s) == Xor(s[..Head(s)], E(CounterBlock(iv, n))) + Crypt(E, iv, n + 1, s[Head(s)..])
  {}

  /** The text that is authenticated. */
  function Plain(E: Cipher, mode: Mode, iv: seq<Byte>, input: seq<Byte>): (r: seq<Byte>)
    requires NonceOk(iv)
    ensures |r| == |input|
  {
    if mode.Encrypt? then input else Crypt(E, iv, 1, input)
  }

  /** What is left to do when the loop stands at `at`. */
  ghost predicate Progress(E: Cipher, mode: Mode, iv: seq<Byte>, text: seq<Byte>, y0: Block,
                           at: nat, n: nat, done: seq<Byte>, y: Block)
    requires NonceOk(iv)
  {
    at == |done| <= |text| &&
    done + Crypt(E, iv, n, text[at..]) == Crypt(E, iv, 1, text) &&
    Mac(E, y0, Blocks(Plain(E, mode, iv, text))) == Mac(E, y, Blocks(Plain(E, mode, iv, text)[at..]))
  }

  lemma ProgressStep(E: Cipher, mode: Mode, iv: seq<Byte>, text: seq<Byte>, y0: Block,
                     at: nat, n: nat, done: seq<Byte>, y: Block)
    returns (h: nat, c: seq<Byte>, plain: seq<Byte>)
    requires NonceOk(iv) && Progress(E, mode, iv, text, y0, at, n, done, y) && at < |text|
    ensures h == (if |text| - at > 16 then 16 else |text| - at) && |plain| == h
    ensures c == Xor(text[at..at + h], E(CounterBlock(iv, n)))
    ensures plain == if mode.Encrypt? then text[at..at + h] else c
    ensures Progress(E, mode, iv, text, y0, at + h, n + 1, done + c, E(Xor(y, plain + ZeroBytes(16 - h))))
  {
    hide Mac, Blocks, Crypt;
    var rest, p := text[at..], Plain(E, mode, iv, text);
    h := Head(rest);
    CryptStep(E, iv, n, rest);
    assert rest[..h] == text[at..at + h] && rest[h..] == text[at + h..];
    c := Xor(rest[..h], E(CounterBlock(iv, n)));
    var tail := Crypt(E, iv, n + 1, text[at + h..]);
    assert done + (c + tail) == done + c + tail;
    assert (done + (c + tail))[at..] == c + tail;
    MacStep(E, y, p[at..]);
    plain := p[at..at + h];
    assert mode.Decrypt? ==> plain == (c + tail)[..h];
    assert p[at..][..h] == plain && p[at..][h..] == p[at + h..];
  }

  /** One block of the payload: encryption authenticates before, decryption after. */
  method CryptBlock(E: Cipher, mode: Mode, at: nat, use: nat,
                    input: array<Byte>, output: array<Byte>, y: array<Byte>, b: array<Byte>, ctr: array<Byte>)
    requires 0 < use <= 16 && at + use <= input.Length && at + use <= output.Length
    requires y.Length == 16 == b.Length && ctr.Length == 16 && y != b && y != ctr && b != ctr
    requires input != y && input != b && input != ctr && output != y && output != b && output != ctr
    modifies output, y, b
    ensures output[at..at + use] == Xor(old(input[at..at + use]), E(ctr[..]))
    ensures output[..at] == old(output[..at]) && output[at + use..] == old(output[at + use..])
    ensures input != output ==> input[..] == old(input[..])
    ensures ctr[..] == old(ctr[..])
    ensures var plain := if mode.Encrypt? then old(input[at..at + use]) else output[at..at + use];
            y[..] == E(Xor(old(y[..]), plain + ZeroBytes(16 - use)))
  {
    hide Xor, ZeroBytes;
    if mode == Encrypt {
      Load(b, input[at..at + use]);
      UpdateCbcMac(E, y, b);
    }
    CtrCrypt(E, ctr, b, input, output, at, use);
    if mode == Decrypt {
      Load(b, output[at..at + use]);
      UpdateCbcMac(E, y, b);
    }
  }

  /** One turn of the payload loop. */
  method CryptTurn(E: Cipher, mode: Mode, ghost iv: seq<Byte>, ghost text: seq<Byte>, ghost y0: Block, ghost n: nat,
                   at: nat, use: nat, length: nat,
                   input: array<Byte>, output: array<Byte>, y: array<Byte>, b: array<Byte>, ctr: array<Byte>)
    requires NonceOk(iv) && length <= input.Length && length <= output.Length && |text| == length
    requires at < length && use == if length - at > 16 then 16 else length - at
    requires y.Length == 16 == b.Length && ctr.Length == 16 && ctr[..] == CounterBlock(iv, n)
    requires y != b && y != ctr && b != ctr
    requires input != y && input != b && input != ctr && output != y && output != b && output != ctr
    requires input[at..length] == text[at..]
    requires Progress(E, mode, iv, text, y0, at, n, output[..at], y[..])
    modifies output, y, b
    ensures input[at + use..length] == text[at + use..]
    ensures output[length..] == old(output[length..]) && ctr[..] == old(ctr[..])
    ensures Progress(E, mode, iv, text, y0, at + use, n + 1, output[..at + use], y[..])
  {
    hide Progress, Crypt, Mac, Blocks, CounterBlock, Xor, ZeroBytes, Q, NonceOk;
    ghost var done := output[..at];
    ghost var h, c, plain := ProgressStep(E, mode, iv, text, y0, at, n, done, y[..]);
    Slices(input[at..length], text, at, use);
    assert input[at..length][..use] == input[at..at + use];
    ghost var rest, inRest := output[at + use..], input[at + use..length];
    assert inRest == input[at..length][use..];
    ghost var after := output[length..];
    CryptBlock(E, mode, at, use, input, output, y, b, ctr);
    Reaches(output[..], done, c, rest, at, use, length, after);
    assert input[at + use..length] == inRest by {
      if input == output {
        assert output[at + use..] == rest;
        assert input[at + use..length] == rest[..length - at - use];
      }
    }
  }

  /** The loop over the payload; input and output may be the same array. */
  method CryptPayload(E: Cipher, mode: Mode, ghost iv: seq<Byte>, q: nat, length: nat,
                      input: array<Byte>, output: array<Byte>, y: array<Byte>, b: array<Byte>, ctr: array<Byte>)
    returns (ghost n: nat)
    requires NonceOk(iv) && q == Q(iv) && length <= input.Length && length <= output.Length
    requires y.Length == 16 == b.Length && ctr.Length == 16 && ctr[..] == CounterBlock(iv, 1)
    requires y != b && y != ctr && b != ctr
    requires input != y && input != b && input != ctr && output != y && output != b && output != ctr
    modifies output, y, b, ctr
    ensures output[..length] == Crypt(E, iv, 1, old(input[..length]))
    ensures output[length..] == old(output[length..])
    ensures y[..] == Mac(E, old(y[..]), Blocks(Plain(E, mode, iv, old(input[..length]))))
    ensures ctr[..] == CounterBlock(iv, n)
  {
    ghost var text, y0, after := input[..length], y[..], output[length..];
    assert q <= 16 && text[0..] == text;
    hide Progress, Crypt, Mac, Blocks, CounterBlock, Increment, Xor, ZeroBytes, Q, NonceOk;
    n := 1;
    var at := 0;
    StartProgress(E, mode, iv, text, y0);
    assert output[..0] == [];
    while at < length
      invariant at <= length && output[length..] == after
      invariant input[at..length] == text[at..]
      invariant ctr[..] == CounterBlock(iv, n)
      invariant Progress(E, mode, iv, text, y0, at, n, output[..at], y[..])
    {
      var use := if length - at > 16 then 16 else length - at;
      CryptTurn(E, mode, iv, text, y0, n, at, use, length, input, output, y, b, ctr);
      NextCounter(iv, n);
      IncrementCounter(ctr, q);
      at := at + use;
      n := n + 1;
    }
    EndProgress(E, mode, iv, text, y0, n, output[..length], y[..]);
  }

  lemma Reaches(o: seq<Byte>, done: seq<Byte>, c: seq<Byte>, rest: seq<Byte>, at: nat, use: nat, length: nat, after: seq<Byte>)
    requires at + use <= length <= |o| && o[..at] == done && o[at..at + use] == c && o[at + use..] == rest
    requires length - at - use <= |rest| && rest[length - at - use..] == after
    ensures o[..at + use] == done + c && o[length..] == after
  {}

  lemma Slices(s: seq<Byte>, text: seq<Byte>, at: nat, use: nat)
    requires at + use <= |text| && s == text[at..]
    ensures s[..use] == text[at..at + use] && s[use..] == text[at + use..]
  {}

  lemma StartProgress(E: Cipher, mode: Mode, iv: seq<Byte>, text: seq<Byte>, y0: Block)
    requires NonceOk(iv)
    ensures Progress(E, mode, iv, text, y0, 0, 1, [], y0)
  {
    hide Crypt, Mac, Blocks;
    assert text[0..] == text && [] + Crypt(E, iv, 1, text) == Crypt(E, iv, 1, text);
    assert Plain(E, mode, iv, text)[0..] == Plain(E, mode, iv, text);
  }

  lemma EndProgress(E: Cipher, mode: Mode, iv: seq<Byte>, text: seq<Byte>, y0: Block, n: nat, done: seq<Byte>, y: Block)
    requires NonceOk(iv) && Progress(E, mode, iv, text, y0, |text|, n, done, y)
    ensures done == Crypt(E, iv, 1, text) && y == Mac(E, y0, Blocks(Plain(E, mode, iv, text)))
  {
    MacDone(E, y, Plain(E, mode, iv, text)[|text|..]);
    assert Crypt(E, iv, n, text[|text|..]) == [];
  }

  // ---- the three entry points ----

  /** The text s with w written at a position. */
  function Spliced(s: seq<Byte>, at: nat, w: seq<Byte>): (r: seq<Byte>)
    requires at + |w| <= |s|
    ensures |r| == |s| && r[at..at + |w|] == w && r[..at] == s[..at] && r[at + |w|..] == s[at + |w|..]
  {
    s[..at] + w + s[at + |w|..]
  }

  /** Masks the CBC-MAC with counter 0 and writes the first tagLen bytes. */
  method WriteTag(E: Cipher, iv: seq<Byte>, q: nat, ghost n: nat, y: array<Byte>, b: array<Byte>, ctr: array<Byte>,
                  tag: array<Byte>, tagAt: nat, tagLen: nat)
    requires NonceOk(iv) && q == Q(iv) && tagLen <= 16 && tagAt + tagLen <= tag.Length
    requires y.Length == 16 == b.Length && ctr.Length == 16 && ctr[..] == CounterBlock(iv, n)
    requires y != b && y != ctr && b != ctr && tag != y && tag != b && tag != ctr
    modifies y, b, ctr, tag
    ensures tag[..] == Spliced(old(tag[..]), tagAt, Xor(old(y[..]), E(CounterBlock(iv, 0)))[..tagLen])
  {
    hide Xor;
    ghost var pre := [Q(iv) - 1] + iv;
    assert ctr[..16 - q] == pre;
    for i := 0 to q
      invariant ctr[..16 - q] == pre && forall k :: 16 - i <= k < 16 ==> ctr[k] == 0
      invariant y[..] == old(y[..]) && tag[..] == old(tag[..])
    {
      ctr[15 - i] := 0;
    }
    BigEndianZero(q);
    assert ctr[..] == CounterBlock(iv, 0);
    ghost var masked := Xor(y[..], E(ctr[..]));
    assert y[0..16] == y[..];
    CtrCrypt(E, ctr, b, y, y, 0, 16);
    assert y[..] == y[0..16] == masked;
    hide *;
    CopyTag(y, tag, tagAt, tagLen);
  }

  method CopyTag(y: array<Byte>, tag: array<Byte>, tagAt: nat, tagLen: nat)
    requires tagLen <= y.Length && tagAt + tagLen <= tag.Length && tag != y
    modifies tag
    ensures tag[..] == Spliced(old(tag[..]), tagAt, y[..tagLen])
  {
    ghost var was := tag[..];
    for i := 0 to tagLen
      invariant forall k :: 0 <= k < tag.Length ==> tag[k] == if tagAt <= k < tagAt + i then y[k - tagAt] else was[k]
    {
      tag[tagAt + i] := y[i];
    }
  }

  lemma {:induction false} BigEndianZero(q: nat)
    ensures BigEndian(0, q) == ZeroBytes(q)
  {
    if q > 0 { BigEndianZero(q - 1); }
  }

  method FirstCounter(ctr: array<Byte>, iv: seq<Byte>)
    requires ctr.Length == 16 && NonceOk(iv)
    modifies ctr
    ensures ctr[..] == CounterBlock(iv, 1)
  {
    var q := 15 - |iv|;
    Load(ctr, [q - 1] + iv);
    ctr[15] := 1;
    BigEndianZero(q - 1);
    assert BigEndian(1, q) == ZeroBytes(q - 1) + [1];
    assert ctr[..] == [q - 1] + iv + (ZeroBytes(q - 1) + [1]);
  }

  /** The memory after a call: the output in place of the input's length, then the tag. */
  ghost predicate Delivered(out: seq<Byte>, c: seq<Byte>, tag: seq<Byte>, same: bool, tagAt: nat, t: seq<Byte>,
                            output': seq<Byte>, tag': seq<Byte>)
    requires |c| <= |out| && tagAt + |t| <= |tag| && (same ==> |tag| == |out|)
  {
    if same then output' == Spliced(Spliced(out, 0, c), tagAt, t)
    else output' == Spliced(out, 0, c) && tag' == Spliced(tag, tagAt, t)
  }

  /**
   * Refuses bad lengths with nothing written; otherwise the output is the input in counter mode and
   * the tag is the standard's tag of the plaintext. Input, output and tag may share memory: the tag
   * is written last.
   */
  method AuthCrypt(E: Cipher, mode: Mode, length: nat, iv: seq<Byte>, add: seq<Byte>,
                   input: array<Byte>, output: array<Byte>, tag: array<Byte>, tagAt: nat, tagLen: nat) returns (r: Result)
    requires length <= input.Length && length <= output.Length && tagAt + tagLen <= tag.Length
    modifies output, tag
    ensures r == if LengthsOk(length, iv, |add|, tagLen) then Ok else BadInput
    ensures r != Ok ==> output[..] == old(output[..]) && tag[..] == old(tag[..])
    ensures r == Ok ==>
              Delivered(old(output[..]), Crypt(E, iv, 1, old(input[..length])), old(tag[..]), tag == output, tagAt,
                        TagOf(E, iv, add, Plain(E, mode, iv, old(input[..length])), tagLen), output[..], tag[..])
  {
    if tagLen < 4 || tagLen > 16 || tagLen % 2 != 0 { return BadInput; }
    if |iv| < 7 || |iv| > 13 { return BadInput; }
    if |add| > 0xFF00 { return BadInput; }
    ghost var text := input[..length];
    ghost var plain := Plain(E, mode, iv, text);
    hide Mac, Blocks, Crypt, Xor, B0, CounterBlock, IPow, ZeroBytes, AddText, Spliced;
    var q := 15 - |iv|;
    var b := new Byte[16](_ => 0);
    var y := new Byte[16](_ => 0);
    var ctr := new Byte[16](_ => 0);
    var fits := FirstBlock(b, iv, |add|, tagLen, length);
    if !fits { return BadInput; }
    assert y[..] == ZeroBytes(16) by { AllZero(y[..]); }
    UpdateCbcMac(E, y, b);
    MacAdditional(E, y, b, add);
    FirstCounter(ctr, iv);
    ghost var n := CryptPayload(E, mode, iv, q, length, input, output, y, b, ctr);
    MacInParts(E, B0(iv, |add|, length, tagLen), Blocks(AddText(add)), Blocks(plain));
    assert y[..] == Mac(E, ZeroBytes(16), Formatted(iv, add, plain, tagLen));
    WholeOutput(old(output[..]), output[..], Crypt(E, iv, 1, text));
    WriteTag(E, iv, q, n, y, b, ctr, tag, tagAt, tagLen);
    return Ok;
  }

  lemma WholeOutput(was: seq<Byte>, now: seq<Byte>, c: seq<Byte>)
    requires |was| == |now| && |c| <= |was| && now[..|c|] == c && now[|c|..] == was[|c|..]
    ensures now == Spliced(was, 0, c)
  {
    assert now == now[..|c|] + now[|c|..];
  }

  lemma AllZero(s: seq<Byte>)
    requires |s| == 16 && forall k :: 0 <= k < 16 ==> s[k] == 0
    ensures s == ZeroBytes(16)
  {}

  lemma MacInParts(E: Cipher, b: Block, x: seq<Block>, z: seq<Block>)
    ensures Mac(E, ZeroBytes(16), [b] + x + z) == Mac(E, Mac(E, E(Xor(ZeroBytes(16), b)), x), z)
  {
    MacConcat(E, ZeroBytes(16), [b] + x, z);
    MacConcat(E, ZeroBytes(16), [b], x);
    assert [b][1..] == [];
  }

  /** Unless the tag is laid over the ciphertext, both can be read back from where they were put. */
  method EncryptAndTag(E: Cipher, length: nat, iv: seq<Byte>, add: seq<Byte>, input: array<Byte>, output: array<Byte>,
                       tag: array<Byte>, tagAt: nat, tagLen: nat) returns (r: Result)
    requires length <= input.Length && length <= output.Length && tagAt + tagLen <= tag.Length
    modifies output, tag
    ensures r == if LengthsOk(length, iv, |add|, tagLen) then Ok else BadInput
    ensures r == Ok && (tag == output ==> length <= tagAt) ==>
              output[..length] == Crypt(E, iv, 1, old(input[..length])) &&
              tag[tagAt..tagAt + tagLen] == TagOf(E, iv, add, old(input[..length]), tagLen)
    ensures r == Ok && tag == output && length <= tagAt ==>
              output[length..tagAt] == old(output[length..tagAt]) &&
              output[tagAt + tagLen..] == old(output[tagAt + tagLen..])
  {
    r := AuthCrypt(E, Encrypt, length, iv, add, input, output, tag, tagAt, tagLen);
    if r == Ok {
      ReadBack(old(output[..]), Crypt(E, iv, 1, old(input[..length])), old(tag[..]), tag == output, tagAt,
               TagOf(E, iv, add, old(input[..length]), tagLen), output[..], tag[..]);
    }
  }

  /** The comparison of tags: no byte may differ. */
  method TagsDiffer(tag: seq<Byte>, check: seq<Byte>) returns (diff: Byte)
    requires |tag| == |check|
    ensures diff == 0 <==> tag == check
  {
    hide XorByte, OrByte;
    diff := 0;
    for i := 0 to |tag|
      invariant diff == 0 <==> tag[..i] == check[..i]
    {
      var x := XorByte(tag[i], check[i]);
      XorByteTwice(tag[i], check[i]);
      OrByteZero(diff, x);
      diff := OrByte(diff, x);
      assert tag[..i + 1] == tag[..i] + [tag[i]] && check[..i + 1] == check[..i] + [check[i]];
    }
    assert tag[..|tag|] == tag && check[..|tag|] == check;
  }

  /** The tag that is compared: it is read after the output was written. */
  ghost function TagSeen(output: seq<Byte>, plain: seq<Byte>, tag: seq<Byte>, same: bool, tagAt: nat, tagLen: nat): seq<Byte>
    requires |plain| <= |output| && tagAt + tagLen <= |tag| && (same ==> |tag| == |output|)
  {
    (if same then Spliced(output, 0, plain) else tag)[tagAt..tagAt + tagLen]
  }

  /** The plaintext is delivered exactly when the tag is right; otherwise the output is wiped. */
  method AuthDecrypt(E: Cipher, length: nat, iv: seq<Byte>, add: seq<Byte>, input: array<Byte>, output: array<Byte>,
                     tag: array<Byte>, tagAt: nat, tagLen: nat) returns (r: Result)
    requires length <= input.Length && length <= output.Length && tagAt + tagLen <= tag.Length
    modifies output
    ensures r == BadInput <==> !LengthsOk(length, iv, |add|, tagLen)
    ensures r == BadInput ==> output[..] == old(output[..])
    ensures r != BadInput ==>
              var plain := Crypt(E, iv, 1, old(input[..length]));
              output[length..] == old(output[length..]) &&
              if TagSeen(old(output[..]), plain, old(tag[..]), tag == output, tagAt, tagLen) ==
                 TagOf(E, iv, add, plain, tagLen)
              then r == Ok && output[..length] == plain
              else r == AuthFailed && output[..length] == ZeroBytes(length)
  {
    hide Crypt, TagOf, ZeroBytes, IPow, LengthsOk;
    var checkTag := new Byte[if tagLen <= 16 then 16 else tagLen](_ => 0);
    r := AuthCrypt(E, Decrypt, length, iv, add, input, output, checkTag, 0, tagLen);
    if r != Ok { return; }
    var diff := TagsDiffer(tag[tagAt..tagAt + tagLen], checkTag[..tagLen]);
    if diff != 0 {
      Wipe(output, length);
      return AuthFailed;
    }
  }

  method Wipe(a: array<Byte>, length: nat)
    requires length <= a.Length
    modifies a
    ensures a[..length] == ZeroBytes(length) && a[length..] == old(a[length..])
  {
    hide ZeroBytes;
    for i := 0 to length
      invariant (forall k :: 0 <= k < i ==> a[k] == 0) && a[length..] == old(a[length..])
    {
      a[i] := 0;
    }
    WipedAll(a[..length]);
  }

  lemma ReadBack(out: seq<Byte>, c: seq<Byte>, tag: seq<Byte>, same: bool, tagAt: nat, t: seq<Byte>,
                 output': seq<Byte>, tag': seq<Byte>)
    requires |c| <= |out| && tagAt + |t| <= |tag| && (same ==> |tag| == |out| && output' == tag')
    requires Delivered(out, c, tag, same, tagAt, t, output', tag')
    ensures |output'| == |out| && |tag'| == |tag|
    ensures (same ==> |c| <= tagAt) ==> output'[..|c|] == c && tag'[tagAt..tagAt + |t|] == t
    ensures same && |c| <= tagAt ==> output'[|c|..tagAt] == out[|c|..tagAt] && output'[tagAt + |t|..] == out[tagAt + |t|..]
  {
    if same && |c| <= tagAt {
      var mid := Spliced(out, 0, c);
      assert output'[..|c|] == output'[..tagAt][..|c|] == mid[..tagAt][..|c|] == mid[..|c|];
      assert output'[|c|..tagAt] == output'[..tagAt][|c|..] == mid[..tagAt][|c|..] == mid[|c|..][..tagAt - |c|];
      assert mid[tagAt + |t|..] == mid[|c|..][tagAt + |t| - |c|..];
    }
  }

  lemma WipedAll(s: seq<Byte>)
    requires forall k :: 0 <= k < |s| ==> s[k] == 0
    ensures s == ZeroBytes(|s|)
  {}

  /**
   * Encrypting in place with the tag behind the ciphertext, and then decrypting with the same nonce,
   * data and tag length, returns the plaintext.
   */
  method RoundTrip(E: Cipher, iv: seq<Byte>, add: seq<Byte>, buf: array<Byte>, length: nat, tagLen: nat) returns (r: Result)
    requires LengthsOk(length, iv, |add|, tagLen) && length + tagLen <= buf.Length
    modifies buf
    ensures r == Ok && buf[..length] == old(buf[..length]) && buf[length + tagLen..] == old(buf[length + tagLen..])
  {
    hide Crypt, TagOf, LengthsOk, Spliced;
    LengthsMean(length, iv, |add|, tagLen);
    ghost var plain := buf[..length];
    r := EncryptAndTag(E, length, iv, add, buf, buf, buf, length, tagLen);
    ghost var sent := buf[..];
    DecryptOfEncrypt(E, iv, add, plain, tagLen);
    TagBehind(sent, plain, length, tagLen);
    r := AuthDecrypt(E, length, iv, add, buf, buf, buf, length, tagLen);
    assert buf[length + tagLen..] == buf[length..][tagLen..];
    assert sent[length + tagLen..] == sent[length..][tagLen..];
  }

  lemma TagBehind(s: seq<Byte>, plain: seq<Byte>, length: nat, tagLen: nat)
    requires |plain| == length && length + tagLen <= |s|
    ensures TagSeen(s, plain, s, true, length, tagLen) == s[length..length + tagLen]
  {
    assert Spliced(s, 0, plain)[length..length + tagLen] == Spliced(s, 0, plain)[length..][..tagLen];
  }
}
