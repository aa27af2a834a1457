/** What CCM's formatted blocks hold, field by field and byte by byte (appendix A of NIST SP 800-38C). */
module CcmLayout {
  import opened Arith
  import opened Wire
  import opened CcmSpec

  // ---- the two kinds of blocks ----

  /** The fields of the flags: bit 7 unused, bit 6, bits 5 to 3 and bits 2 to 0. */
  lemma FlagFields(a: nat, t: nat, q: nat)
    requires TagOk(t) && 2 <= q <= 8
    ensures Flags(a, t, q) / 64 == (if a > 0 then 1 else 0)
    ensures Flags(a, t, q) / 8 % 8 == (t - 2) / 2
    ensures Flags(a, t, q) % 8 == q - 1
  {
    var f, m, present := Flags(a, t, q), (t - 2) / 2, if a > 0 then 1 else 0;
    assert f == 64 * present + 8 * m + (q - 1) && 1 <= m < 8;
    hide Flags;
    DivUnique(f, 8, 8 * present + m, q - 1);
    DivUnique(8 * present + m, 8, present, m);
    DivUnique(f, 64, present, 8 * m + (q - 1));
  }

  /** Section A.2.1: flags, nonce and payload length of the first block. */
  lemma FirstBlockFields(iv: seq<Byte>, a: nat, n: nat, t: nat)
    requires NonceOk(iv) && TagOk(t)
    ensures var b := B0(iv, a, n, t);
            b[0] / 64 == (if a > 0 then 1 else 0) && b[0] / 8 % 8 == (t - 2) / 2 && b[0] % 8 == 14 - |iv| &&
            b[1..1 + |iv|] == iv && BytesValue(b[1 + |iv|..]) == n % IPow(256, 15 - |iv|)
  {
    hide Flags, BytesValue, BigEndian, IPow;
    FlagFields(a, t, Q(iv));
    BigEndianValue(n, Q(iv));
    var b := B0(iv, a, n, t);
    assert b[1..1 + |iv|] == iv && b[1 + |iv|..] == BigEndian(n, Q(iv));
  }

  /** Section A.3: bits 7 to 3 of a counter block are zero and bits 2 to 0 as in the first block. */
  lemma CounterBlockFields(iv: seq<Byte>, i: nat)
    requires NonceOk(iv)
    ensures var b := CounterBlock(iv, i);
            b[0] == 14 - |iv| && b[1..1 + |iv|] == iv && BytesValue(b[1 + |iv|..]) == i % IPow(256, 15 - |iv|)
  {
    hide BytesValue, BigEndian, IPow;
    BigEndianValue(i, Q(iv));
    var b := CounterBlock(iv, i);
    assert b[1..1 + |iv|] == iv && b[1 + |iv|..] == BigEndian(i, Q(iv));
  }

  /** The number a byte string stands for, most significant byte first. */
  function BytesValue(s: seq<Byte>): nat {
    if |s| == 0 then 0 else 256 * BytesValue(s[..|s| - 1]) + s[|s| - 1]
  }

  lemma {:induction false} BigEndianValue(n: nat, q: nat)
    ensures BytesValue(BigEndian(n, q)) == n % IPow(256, q)
  {
    if q > 0 {
      var high, p := BigEndian(n / 256, q - 1), IPow(256, q - 1);
      assert BigEndian(n, q)[..q - 1] == high;
      BigEndianValue(n / 256, q - 1);
      LowDigit(n, p);
    }
  }

  /** The remainder modulo 256p, from the last digit and the remainder of the others. */
  lemma LowDigit(n: nat, p: int)
    requires p > 0
    ensures n % (256 * p) == 256 * (n / 256 % p) + n % 256
  {
    var h := n / 256;
    DivMod(h, p);
    var k, r := h / p, h % p;
    assert n == 256 * h + n % 256;
    assert 256 * (k * p) == k * (256 * p);
    assert 256 * r + n % 256 < 256 * p;
    DivUnique(n, 256 * p, k, 256 * r + n % 256);
  }

  /** Section A.2.3: byte k of block j is byte 16j + k of the text, or the zero that fills the last block. */
  lemma {:induction false} BlocksAt(s: seq<Byte>, j: nat, k: nat)
    requires 16 * j < |s| && k < 16
    ensures j < |Blocks(s)| && Blocks(s)[j][k] == if 16 * j + k < |s| then s[16 * j + k] else 0
    decreases j
  {
    BlocksCount(s);
    if j == 0 {
      assert Blocks(s)[0] == Padded(s);
    } else {
      assert Blocks(s)[j] == Blocks(s[16..])[j - 1];
      BlocksAt(s[16..], j - 1, k);
    }
  }

  // ---- exclusive or ----

  function Bit(a: nat, k: nat): nat {
    if k == 0 then a % 2 else Bit(a / 2, k - 1)
  }

  lemma {:induction false} XorBit(a: nat, b: nat, n: nat, k: nat)
    requires k < n
    ensures Bit(XorBits(a, b, n), k) == if Bit(a, k) == Bit(b, k) then 0 else 1
  {
    var x := XorBits(a, b, n);
    assert x % 2 == (if a % 2 == b % 2 then 0 else 1) && x / 2 == XorBits(a / 2, b / 2, n - 1);
    if k > 0 { XorBit(a / 2, b / 2, n - 1, k - 1); }
  }

  // ---- the chain and the counter mode ----

  /** Step 3 of section 6.1: each block is combined with the result so far and goes through the cipher. */
  lemma MacChain(E: Cipher, bs: seq<Block>, b: Block)
    ensures Mac(E, ZeroBytes(16), [b]) == E(b)
    ensures Mac(E, ZeroBytes(16), bs + [b]) == E(Xor(Mac(E, ZeroBytes(16), bs), b))
  {
    MacConcat(E, ZeroBytes(16), bs, [b]);
    MacOne(E, Mac(E, ZeroBytes(16), bs), b);
    MacOne(E, ZeroBytes(16), b);
    XorZero(b);
  }

  lemma MacOne(E: Cipher, y: Block, b: Block)
    ensures Mac(E, y, [b]) == E(Xor(y, b))
  {
    assert Mac(E, y, [b]) == Mac(E, E(Xor(y, b)), []);
  }

  lemma XorZero(b: Block)
    ensures Xor(ZeroBytes(16), b) == b
  {
    forall i | 0 <= i < 16
      ensures Xor(ZeroBytes(16), b)[i] == b[i]
    {
      Pow2Eight();
      XorBitsOfZero(b[i], 8);
    }
  }

  lemma {:induction false} XorBitsOfZero(b: nat, n: nat)
    requires b < Pow2(n)
    ensures XorBits(0, b, n) == b
  {
    if n > 0 { XorBitsOfZero(b / 2, n - 1); }
  }

  /** Byte k of the output is masked with byte k % 16 of the encrypted counter i + k / 16. */
  lemma {:induction false} CryptAt(E: Cipher, iv: seq<Byte>, i: nat, s: seq<Byte>, k: nat)
    requires NonceOk(iv) && k < |s|
    ensures Crypt(E, iv, i, s)[k] == XorByte(s[k], E(CounterBlock(iv, i + k / 16))[k % 16])
    decreases |s|
  {
    hide CounterBlock, XorByte;
    var h, rest := Head(s), s[Head(s)..];
    var first := Xor(s[..h], E(CounterBlock(iv, i)));
    assert Crypt(E, iv, i, s) == first + Crypt(E, iv, i + 1, rest);
    if k >= 16 {
      CryptAt(E, iv, i + 1, rest, k - 16);
      assert i + 1 + (k - 16) / 16 == i + k / 16 && (k - 16) % 16 == k % 16;
      assert Crypt(E, iv, i, s)[k] == Crypt(E, iv, i + 1, rest)[k - 16];
    }
  }

  /** Section 6.1 in one statement: counter 0 masks the tag, counter 1 + k / 16 masks byte k of the payload. */
  lemma CountersUsed(E: Cipher, iv: seq<Byte>, add: seq<Byte>, payload: seq<Byte>, t: nat)
    requires NonceOk(iv) && TagOk(t) && |add| <= 0xFF00
    ensures var y, mask := Mac(E, ZeroBytes(16), Formatted(iv, add, payload, t)), E(CounterBlock(iv, 0));
            forall k :: 0 <= k < t ==> TagOf(E, iv, add, payload, t)[k] == XorByte(y[k], mask[k])
    ensures forall k {:trigger payload[k]} :: 0 <= k < |payload| ==>
              Crypt(E, iv, 1, payload)[k] == XorByte(payload[k], E(CounterBlock(iv, 1 + k / 16))[k % 16])
  {
    hide CounterBlock, XorByte, Formatted, Mac, Crypt;
    forall k {:trigger payload[k]} | 0 <= k < |payload|
      ensures Crypt(E, iv, 1, payload)[k] == XorByte(payload[k], E(CounterBlock(iv, 1 + k / 16))[k % 16])
    {
      CryptAt(E, iv, 1, payload, k);
    }
  }

  /** Examples 1 to 3 of appendix C of the standard: 4, 16 and 24 bytes of payload with tags of 4, 6 and 8. */
  lemma StandardExamples(iv: seq<Byte>)
    requires |iv| in {7, 8, 12}
    ensures |iv| == 7 ==> B0(iv, 8, 4, 4) == [0x4F] + iv + [0, 0, 0, 0, 0, 0, 0, 4]
    ensures |iv| == 8 ==> B0(iv, 16, 16, 6) == [0x56] + iv + [0, 0, 0, 0, 0, 0, 16]
    ensures |iv| == 12 ==> B0(iv, 20, 24, 8) == [0x5A] + iv + [0, 0, 24]
    ensures |iv| == 7 ==> CounterBlock(iv, 1) == [7] + iv + [0, 0, 0, 0, 0, 0, 0, 1]
  {
    hide IPow;
    OneByte(4, Q(iv));
    OneByte(16, Q(iv));
    OneByte(24, Q(iv));
    OneByte(1, Q(iv));
    hide BigEndian;
  }

  /** What the checks let through: the tag lengths and nonce lengths of the standard, 65280 bytes of data, 8q bits. */
  lemma LengthsAccepted(length: nat, iv: seq<Byte>, a: nat, t: nat)
    ensures LengthsOk(length, iv, a, t) <==>
            t in {4, 6, 8, 10, 12, 14, 16} && |iv| in {7, 8, 9, 10, 11, 12, 13} && a <= 65280 &&
            length < Pow2(8 * (15 - |iv|))
  {
    hide IPow, Pow2;
    if NonceOk(iv) { BytesAreBits(Q(iv)); }
  }

  lemma {:induction false} BytesAreBits(q: nat)
    ensures IPow(256, q) == Pow2(8 * q)
  {
    if q > 0 {
      BytesAreBits(q - 1);
      Pow2Eight();
      Pow2Add(8, 8 * (q - 1));
      assert 8 + 8 * (q - 1) == 8 * q;
      hide Pow2;
    }
  }

  lemma OneByte(n: Byte, q: nat)
    requires q > 0
    ensures BigEndian(n, q) == ZeroBytes(q - 1) + [n]
  {
    NoBytes(q - 1);
  }

  lemma {:induction false} NoBytes(q: nat)
    ensures BigEndian(0, q) == ZeroBytes(q)
  {
    if q > 0 { NoBytes(q - 1); }
  }
}
