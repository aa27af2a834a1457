/** CCM over an uninterpreted block function (section 6 and appendix A of NIST SP 800-38C). */
module CcmSpec {
  import opened Arith
  import opened Wire

  type Block = s: seq<Byte> | |s| == 16 witness seq(16, _ => 0)

  /** The block cipher under the current key. */
  type Cipher = Block -> Block

  // ---- exclusive or, bit by bit ----

  function XorBits(a: nat, b: nat, n: nat): (r: nat)
    ensures r < Pow2(n)
  {
    if n == 0 then 0 else (if a % 2 == b % 2 then 0 else 1) + 2 * XorBits(a / 2, b / 2, n - 1)
  }

  function OrBits(a: nat, b: nat, n: nat): (r: nat)
    ensures r < Pow2(n)
  {
    if n == 0 then 0 else (if a % 2 == 0 && b % 2 == 0 then 0 else 1) + 2 * OrBits(a / 2, b / 2, n - 1)
  }

  lemma {:induction false} XorBitsTwice(a: nat, b: nat, n: nat)
    requires a < Pow2(n)
    ensures XorBits(XorBits(a, b, n), b, n) == a
  {
    if n > 0 {
      var x := XorBits(a, b, n);
      assert x / 2 == XorBits(a / 2, b / 2, n - 1) && x % 2 == if a % 2 == b % 2 then 0 else 1;
      XorBitsTwice(a / 2, b / 2, n - 1);
    }
  }

  lemma {:induction false} XorBitsZero(a: nat, b: nat, n: nat)
    requires a < Pow2(n) && b < Pow2(n)
    ensures XorBits(a, b, n) == 0 <==> a == b
  {
    if n > 0 { XorBitsZero(a / 2, b / 2, n - 1); }
  }

  lemma {:induction false} OrBitsZero(a: nat, b: nat, n: nat)
    requires a < Pow2(n) && b < Pow2(n)
    ensures OrBits(a, b, n) == 0 <==> a == 0 && b == 0
  {
    if n > 0 { OrBitsZero(a / 2, b / 2, n - 1); }
  }

  lemma Pow2Eight()
    ensures Pow2(8) == 256
  {
    assert Pow2(4) == 16;
  }

  function XorByte(a: Byte, b: Byte): Byte {
    Pow2Eight();
    XorBits(a, b, 8)
  }

  function OrByte(a: Byte, b: Byte): Byte {
    Pow2Eight();
    OrBits(a, b, 8)
  }

  lemma XorByteTwice(a: Byte, b: Byte)
    ensures XorByte(XorByte(a, b), b) == a
    ensures XorByte(a, b) == 0 <==> a == b
  {
    Pow2Eight();
    XorBitsTwice(a, b, 8);
    XorBitsZero(a, b, 8);
  }

  lemma OrByteZero(a: Byte, b: Byte)
    ensures OrByte(a, b) == 0 <==> a == 0 && b == 0
  {
    Pow2Eight();
    OrBitsZero(a, b, 8);
  }

  function Xor(a: seq<Byte>, b: seq<Byte>): (r: seq<Byte>)
    requires |a| <= |b|
    ensures |r| == |a| && forall i :: 0 <= i < |a| ==> r[i] == XorByte(a[i], b[i])
  {
    seq(|a|, i requires 0 <= i < |a| => XorByte(a[i], b[i]))
  }

  lemma XorTwice(a: seq<Byte>, b: seq<Byte>)
    requires |a| <= |b|
    ensures Xor(Xor(a, b), b) == a
  {
    forall i | 0 <= i < |a|
      ensures Xor(Xor(a, b), b)[i] == a[i]
    {
      XorByteTwice(a[i], b[i]);
    }
  }

  // ---- blocks and the CBC-MAC ----

  function ZeroBytes(n: nat): (r: seq<Byte>)
    ensures |r| == n && forall i :: 0 <= i < n ==> r[i] == 0
  {
    seq(n, _ => 0)
  }

  function Head(s: seq<Byte>): nat {
    if |s| < 16 then |s| else 16
  }

  /** The first block of a byte string, filled up with zeros. */
  function Padded(s: seq<Byte>): Block {
    s[..Head(s)] + ZeroBytes(16 - Head(s))
  }

  function Blocks(s: seq<Byte>): seq<Block> {
    if |s| == 0 then [] else [Padded(s)] + Blocks(s[Head(s)..])
  }

  function Mac(E: Cipher, y: Block, bs: seq<Block>): Block
    decreases |bs|
  {
    if |bs| == 0 then y else Mac(E, E(Xor(y, bs[0])), bs[1..])
  }

  lemma {:induction false} MacConcat(E: Cipher, y: Block, a: seq<Block>, b: seq<Block>)
    ensures Mac(E, y, a + b) == Mac(E, Mac(E, y, a), b)
    decreases |a|
  {
    if |a| == 0 {
      assert a + b == b;
    } else {
      assert (a + b)[1..] == a[1..] + b;
      MacConcat(E, E(Xor(y, a[0])), a[1..], b);
    }
  }

  // ---- formatting ----

  /** The low q bytes of n, most significant first. */
  function BigEndian(n: nat, q: nat): (r: seq<Byte>)
    ensures |r| == q
  {
    if q == 0 then [] else BigEndian(n / 256, q - 1) + [n % 256]
  }

  predicate NonceOk(iv: seq<Byte>) {
    7 <= |iv| <= 13
  }

  /** Bytes left for the length and the counter. */
  function Q(iv: seq<Byte>): nat
    requires NonceOk(iv)
  {
    15 - |iv|
  }

  predicate TagOk(t: nat) {
    4 <= t <= 16 && t % 2 == 0
  }

  /** Flags: additional data present, (t - 2) / 2 and q - 1 in separate bits. */
  function Flags(a: nat, t: nat, q: nat): Byte
    requires TagOk(t) && 2 <= q <= 8
  {
    (if a > 0 then 64 else 0) + 8 * ((t - 2) / 2) + (q - 1)
  }

  function B0(iv: seq<Byte>, a: nat, length: nat, t: nat): Block
    requires NonceOk(iv) && TagOk(t)
  {
    [Flags(a, t, Q(iv))] + iv + BigEndian(length, Q(iv))
  }

  /** The additional data with its length in front. */
  function AddText(add: seq<Byte>): seq<Byte>
    requires |add| <= 0xFF00
  {
    if |add| == 0 then [] else [|add| / 256, |add| % 256] + add
  }

  /** The encoding of section A.2.2 of the standard for less than 2^32 bytes: two bytes only below 2^16 - 2^8. */
  function StandardAddText(add: seq<Byte>): seq<Byte>
    requires |add| < 0x1_0000_0000
  {
    if |add| == 0 then []
    else if |add| < 0xFF00 then BigEndian(|add|, 2) + add
    else [0xFF, 0xFE] + BigEndian(|add|, 4) + add
  }

  /** Of the lengths that pass the check, exactly the greatest is not encoded as the standard demands. */
  lemma AddTextIsStandard(add: seq<Byte>)
    requires |add| <= 0xFF00
    ensures AddText(add) == StandardAddText(add) <==> |add| < 0xFF00
    ensures |add| == 0xFF00 ==>
              AddText(add)[..2] == [0xFF, 0] && StandardAddText(add)[..6] == [0xFF, 0xFE, 0, 0, 0xFF, 0]
  {
    assert BigEndian(|add|, 2) == BigEndian(|add| / 256, 1) + [|add| % 256];
    assert BigEndian(|add| / 256, 1) == [|add| / 256 % 256];
    if |add| == 0xFF00 {
      Length65280();
      assert AddText(add)[1] == 0;
      assert StandardAddText(add)[1] == 0xFE;
    }
  }

  lemma Length65280()
    ensures BigEndian(0xFF00, 4) == [0, 0, 0xFF, 0]
  {
    assert BigEndian(0, 2) == BigEndian(0, 1) + [0];
    assert BigEndian(0xFF, 3) == BigEndian(0, 2) + [0xFF];
  }

  function Formatted(iv: seq<Byte>, add: seq<Byte>, payload: seq<Byte>, t: nat): seq<Block>
    requires NonceOk(iv) && TagOk(t) && |add| <= 0xFF00
  {
    [B0(iv, |add|, |payload|, t)] + Blocks(AddText(add)) + Blocks(payload)
  }

  function CounterBlock(iv: seq<Byte>, i: nat): Block
    requires NonceOk(iv)
  {
    [Q(iv) - 1] + iv + BigEndian(i, Q(iv))
  }

  /** Counter mode from counter i on. */
  function Crypt(E: Cipher, iv: seq<Byte>, i: nat, s: seq<Byte>): (r: seq<Byte>)
    requires NonceOk(iv)
    ensures |r| == |s|
    decreases |s|
  {
    if |s| == 0 then []
    else Xor(s[..Head(s)], E(CounterBlock(iv, i))) + Crypt(E, iv, i + 1, s[Head(s)..])
  }

  function TagOf(E: Cipher, iv: seq<Byte>, add: seq<Byte>, payload: seq<Byte>, t: nat): (r: seq<Byte>)
    requires NonceOk(iv) && TagOk(t) && |add| <= 0xFF00
    ensures |r| == t
  {
    Xor(Mac(E, ZeroBytes(16), Formatted(iv, add, payload, t)), E(CounterBlock(iv, 0)))[..t]
  }

  /** The checks on lengths; the payload's must fit its q bytes. */
  predicate LengthsOk(length: nat, iv: seq<Byte>, a: nat, t: nat) {
    TagOk(t) && NonceOk(iv) && a <= 0xFF00 && length < IPow(256, Q(iv))
  }

  // ---- what decryption undoes ----

  lemma {:induction false} CryptTwice(E: Cipher, iv: seq<Byte>, i: nat, s: seq<Byte>)
    requires NonceOk(iv)
    ensures Crypt(E, iv, i, Crypt(E, iv, i, s)) == s
    decreases |s|
  {
    if |s| > 0 {
      var h, k := Head(s), E(CounterBlock(iv, i));
      var c, rest := Xor(s[..h], k), Crypt(E, iv, i + 1, s[h..]);
      var out := Crypt(E, iv, i, s);
      assert out == c + rest && Head(out) == h;
      assert out[..h] == c && out[h..] == rest;
      XorTwice(s[..h], k);
      CryptTwice(E, iv, i + 1, s[h..]);
      assert s == s[..h] + s[h..];
    }
  }

  /** Decrypting what was encrypted gives the plaintext and the very tag that was sent. */
  lemma DecryptOfEncrypt(E: Cipher, iv: seq<Byte>, add: seq<Byte>, payload: seq<Byte>, t: nat)
    requires LengthsOk(|payload|, iv, |add|, t)
    ensures var c := Crypt(E, iv, 1, payload);
            LengthsOk(|c|, iv, |add|, t) && Crypt(E, iv, 1, c) == payload &&
            TagOf(E, iv, add, Crypt(E, iv, 1, c), t) == TagOf(E, iv, add, payload, t)
  {
    CryptTwice(E, iv, 1, payload);
  }

  // ---- counters and formatting are injective ----

  lemma {:induction false} BigEndianInjective(a: nat, b: nat, q: nat)
    requires a < IPow(256, q) && b < IPow(256, q) && BigEndian(a, q) == BigEndian(b, q)
    ensures a == b
  {
    if q > 0 {
      var x, y := BigEndian(a / 256, q - 1), BigEndian(b / 256, q - 1);
      assert (x + [a % 256])[..q - 1] == x && (y + [b % 256])[..q - 1] == y;
      assert (x + [a % 256])[q - 1] == a % 256 && (y + [b % 256])[q - 1] == b % 256;
      BigEndianInjective(a / 256, b / 256, q - 1);
    }
  }

  /** The payload has fewer blocks than there are counters, so no counter block is used twice. */
  lemma CountersDiffer(iv: seq<Byte>, length: nat, i: nat, j: nat)
    requires NonceOk(iv) && length < IPow(256, Q(iv)) && i < j <= (length + 15) / 16
    ensures CounterBlock(iv, i) != CounterBlock(iv, j)
  {
    var q := Q(iv);
    assert j < IPow(256, q) by { assert IPow(256, q) == 256 * IPow(256, q - 1); }
    var x, y := [q - 1] + iv, BigEndian(i, q);
    assert (x + y)[|x|..] == y && (x + BigEndian(j, q))[|x|..] == BigEndian(j, q);
    if CounterBlock(iv, i) == CounterBlock(iv, j) { BigEndianInjective(i, j, q); }
  }

  lemma {:induction false} BlocksCount(s: seq<Byte>)
    ensures |Blocks(s)| == (|s| + 15) / 16
    decreases |s|
  {
    if |s| > 0 { BlocksCount(s[Head(s)..]); }
  }

  lemma PaddedInjective(a: seq<Byte>, b: seq<Byte>)
    requires |a| == |b| && Padded(a) == Padded(b)
    ensures a[..Head(a)] == b[..Head(b)]
  {
    assert Padded(a)[..Head(a)] == a[..Head(a)] && Padded(b)[..Head(b)] == b[..Head(b)];
  }

  lemma {:induction false} BlocksInjective(a: seq<Byte>, b: seq<Byte>)
    requires |a| == |b| && Blocks(a) == Blocks(b)
    ensures a == b
    decreases |a|
  {
    if |a| > 0 {
      var x, y := Blocks(a), Blocks(b);
      assert x[0] == Padded(a) && y[0] == Padded(b);
      assert x[1..] == Blocks(a[Head(a)..]) && y[1..] == Blocks(b[Head(b)..]);
      PaddedInjective(a, b);
      BlocksInjective(a[Head(a)..], b[Head(b)..]);
      assert a == a[..Head(a)] + a[Head(a)..] && b == b[..Head(b)] + b[Head(b)..];
    }
  }

  lemma FlagsInjective(a: nat, t: nat, q: nat, a': nat, t': nat, q': nat)
    requires TagOk(t) && 2 <= q <= 8 && TagOk(t') && 2 <= q' <= 8 && Flags(a, t, q) == Flags(a', t', q')
    ensures t == t' && q == q' && (a > 0 <==> a' > 0)
  {
    var f, m, m' := Flags(a, t, q), (t - 2) / 2, (t' - 2) / 2;
    var x, x' := if a > 0 then 8 else 0, if a' > 0 then 8 else 0;
    assert t == 2 * m + 2 && t' == 2 * m' + 2;
    DivUnique(f, 8, x + m, q - 1);
    DivUnique(f, 8, x' + m', q' - 1);
  }

  lemma B0Injective(iv: seq<Byte>, a: nat, n: nat, t: nat, iv': seq<Byte>, a': nat, n': nat, t': nat)
    requires NonceOk(iv) && TagOk(t) && n < IPow(256, Q(iv)) && NonceOk(iv') && TagOk(t') && n' < IPow(256, Q(iv'))
    requires B0(iv, a, n, t) == B0(iv', a', n', t')
    ensures iv == iv' && n == n' && t == t' && (a > 0 <==> a' > 0)
  {
    var b, b' := B0(iv, a, n, t), B0(iv', a', n', t');
    assert b[0] == Flags(a, t, Q(iv)) && b'[0] == Flags(a', t', Q(iv'));
    FlagsInjective(a, t, Q(iv), a', t', Q(iv'));
    var k := |iv|;
    assert b[1..1 + k] == iv && b'[1..1 + k] == iv';
    assert b[1 + k..] == BigEndian(n, Q(iv)) && b'[1 + k..] == BigEndian(n', Q(iv'));
    BigEndianInjective(n, n', Q(iv));
  }

  lemma AddTextInjective(add: seq<Byte>, add': seq<Byte>, rest: seq<Block>, rest': seq<Block>)
    requires |add| <= 0xFF00 && |add'| <= 0xFF00 && (|add| > 0 <==> |add'| > 0)
    requires Blocks(AddText(add)) + rest == Blocks(AddText(add')) + rest'
    ensures add == add' && rest == rest'
  {
    var x, x' := Blocks(AddText(add)), Blocks(AddText(add'));
    if |add| > 0 {
      assert x[0] == (x + rest)[0] && x'[0] == (x' + rest')[0];
      assert x[0] == Padded(AddText(add)) && x'[0] == Padded(AddText(add'));
      assert x[0][0] == |add| / 256 && x[0][1] == |add| % 256 && x'[0][0] == |add'| / 256 && x'[0][1] == |add'| % 256;
      assert |add| == |add'|;
    }
    BlocksCount(AddText(add));
    BlocksCount(AddText(add'));
    assert x == (x + rest)[..|x|] && x' == (x' + rest')[..|x|];
    assert rest == (x + rest)[|x|..] && rest' == (x' + rest')[|x|..];
    BlocksInjective(AddText(add), AddText(add'));
    if |add| > 0 { assert add == AddText(add)[2..] && add' == AddText(add')[2..]; }
  }

  /**
   * The blocks that are authenticated determine nonce, additional data, payload and tag length
   * (the requirement on formatting functions in section 5.4 of the standard).
   */
  lemma FormattedInjective(iv: seq<Byte>, add: seq<Byte>, p: seq<Byte>, t: nat,
                           iv': seq<Byte>, add': seq<Byte>, p': seq<Byte>, t': nat)
    requires LengthsOk(|p|, iv, |add|, t) && LengthsOk(|p'|, iv', |add'|, t')
    requires Formatted(iv, add, p, t) == Formatted(iv', add', p', t')
    ensures iv == iv' && add == add' && p == p' && t == t'
  {
    hide Blocks, B0, AddText, LengthsOk, IPow;
    LengthsMean(|p|, iv, |add|, t);
    LengthsMean(|p'|, iv', |add'|, t');
    FormattedParts(iv, add, p, t);
    FormattedParts(iv', add', p', t');
    hide Formatted;
    B0Injective(iv, |add|, |p|, t, iv', |add'|, |p'|, t');
    AddTextInjective(add, add', Blocks(p), Blocks(p'));
    BlocksInjective(p, p');
  }

  lemma LengthsMean(length: nat, iv: seq<Byte>, a: nat, t: nat)
    requires LengthsOk(length, iv, a, t)
    ensures TagOk(t) && NonceOk(iv) && a <= 0xFF00 && length < IPow(256, Q(iv))
  {}

  lemma FormattedParts(iv: seq<Byte>, add: seq<Byte>, p: seq<Byte>, t: nat)
    requires NonceOk(iv) && TagOk(t) && |add| <= 0xFF00
    ensures var f := Formatted(iv, add, p, t);
            |f| > 0 && f[0] == B0(iv, |add|, |p|, t) && f[1..] == Blocks(AddText(add)) + Blocks(p)
  {
    hide Blocks, B0, AddText;
    Prepended(B0(iv, |add|, |p|, t), Blocks(AddText(add)), Blocks(p));
  }

  lemma Prepended(b: Block, x: seq<Block>, y: seq<Block>)
    ensures ([b] + x + y)[0] == b && ([b] + x + y)[1..] == x + y
  {}
}
