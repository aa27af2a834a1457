/** Byte-level encoders and decoders of MQTT packets (section 2.2.3 of MQTT 3.1.1). */
module Wire {
  import opened Arith

  type Byte = x: int | 0 <= x < 256

  /** The packet types, in the upper four bits of a packet's first byte. */
  const CONNECT: nat := 1
  const CONNACK: nat := 2
  const PUBLISH: nat := 3
  const PUBACK: nat := 4
  const PUBREC: nat := 5
  const PUBCOMP: nat := 7
  const SUBSCRIBE: nat := 8
  const SUBACK: nat := 9
  const UNSUBSCRIBE: nat := 10
  const UNSUBACK: nat := 11
  const PINGREQ: nat := 12
  const PINGRESP: nat := 13
  const DISCONNECT: nat := 14

  /** MAX_NO_OF_REMAINING_LENGTH_BYTES */
  const MAX_LENGTH_BYTES: nat := 4

  const MAX_REMAINING: nat := 0x1000_0000
  const UINT32: nat := 0x1_0000_0000

  type Uint16 = x: int | 0 <= x < 0x1_0000
  type Uint32 = x: int | 0 <= x < 0x1_0000_0000

  // ---- remaining length ----

  /** Base 128, least significant digit first, the top bit telling that more digits follow. */
  function EncodeLen(n: nat): (r: seq<Byte>)
    ensures |r| >= 1
  {
    if n < 128 then [n] else [n % 128 + 128] + EncodeLen(n / 128)
  }

  datatype Decoded = Done(value: nat, used: nat) | TooLong | Cut

  /** At most `budget` digits; Cut when the bytes end first. */
  function DecodeLen(s: seq<Byte>, budget: nat): (r: Decoded)
    ensures r.Done? ==> 1 <= r.used <= budget && r.used <= |s|
    decreases budget
  {
    if budget == 0 then TooLong
    else if |s| == 0 then Cut
    else if s[0] < 128 then Done(s[0], 1)
    else
      match DecodeLen(s[1..], budget - 1)
      case Done(v, u) => Done(s[0] - 128 + 128 * v, u + 1)
      case TooLong => TooLong
      case Cut => Cut
  }

  /** The digits fit exactly when the number is below 128^budget; then decoding gives it back. */
  lemma {:induction false} DecodeEncoded(n: nat, rest: seq<Byte>, budget: nat)
    requires budget > 0
    ensures var r := DecodeLen(EncodeLen(n) + rest, budget);
            if n < IPow(128, budget) then r == Done(n, |EncodeLen(n)|) else r == TooLong
    decreases budget
  {
    var s := EncodeLen(n) + rest;
    if n >= 128 {
      assert s[1..] == EncodeLen(n / 128) + rest;
      if budget > 1 {
        DecodeEncoded(n / 128, rest, budget - 1);
      }
    }
  }

  lemma LengthPowers()
    ensures IPow(128, 4) == MAX_REMAINING && IPow(128, 3) == 2097152 && IPow(128, 2) == 16384 && IPow(128, 1) == 128
  {
    assert IPow(128, 1) == 128 * IPow(128, 0);
    assert IPow(128, 2) == 128 * IPow(128, 1);
    assert IPow(128, 3) == 128 * IPow(128, 2);
  }

  /** Lengths survive the four-byte field exactly when they are below 2^28. */
  lemma LengthRoundTrip(n: nat, rest: seq<Byte>)
    ensures DecodeLen(EncodeLen(n) + rest, MAX_LENGTH_BYTES) == Done(n, |EncodeLen(n)|) <==> n < MAX_REMAINING
    ensures n >= MAX_REMAINING ==> DecodeLen(EncodeLen(n) + rest, MAX_LENGTH_BYTES) == TooLong
  {
    LengthPowers();
    DecodeEncoded(n, rest, MAX_LENGTH_BYTES);
  }

  /** A decoded length field is the encoder's own when it does not end in a superfluous zero. */
  lemma {:induction false} DecodedIsEncoded(s: seq<Byte>, budget: nat)
    requires DecodeLen(s, budget).Done?
    ensures var d := DecodeLen(s, budget);
            s[..d.used] == EncodeLen(d.value) <==> d.used == 1 || s[d.used - 1] != 0
    ensures var d := DecodeLen(s, budget);
            (d.used > 1 && s[d.used - 1] != 0) ==> d.value >= 128
    decreases budget
  {
    var d := DecodeLen(s, budget);
    if s[0] >= 128 {
      DecodedIsEncoded(s[1..], budget - 1);
      var e := DecodeLen(s[1..], budget - 1);
      assert s[1..][e.used - 1] == s[d.used - 1];
      assert s[..d.used] == [s[0]] + s[1..][..e.used];
      assert s[..d.used][1..] == s[1..][..e.used];
      if d.value < 128 {
        assert e.value == 0;
        assert |EncodeLen(d.value)| == 1;
      } else {
        assert d.value % 128 == s[0] - 128 && d.value / 128 == e.value;
        assert EncodeLen(d.value)[1..] == EncodeLen(e.value);
      }
    } else {
      assert s[..1] == [s[0]];
    }
  }

  lemma {:induction false} EncodeLenSize(n: nat, k: nat)
    requires k >= 1
    ensures |EncodeLen(n)| <= k <==> n < IPow(128, k)
    decreases k
  {
    if n >= 128 && k > 1 {
      EncodeLenSize(n / 128, k - 1);
    }
  }

  /** The buffer length that the serializers ask for, in 32-bit arithmetic. */
  function FinalLength(remLen: Uint32): Uint32 {
    var r := (remLen + 1) % UINT32;
    (if r < 128 then r + 1 else if r < 16384 then r + 2 else if r < 2097152 then r + 3 else r + 4) % UINT32
  }

  /** The length asked for holds header byte, length field and the rest exactly below 2^28. */
  lemma FinalLengthEnough(remLen: Uint32)
    ensures 1 + |EncodeLen(remLen)| + remLen <= FinalLength(remLen) <==> remLen < MAX_REMAINING
    ensures remLen < MAX_REMAINING ==>
              FinalLength(remLen) == 1 + |EncodeLen(remLen)| + remLen +
                if remLen in {127, 16383, 2097151} then 1 else 0
  {
    var n: nat := remLen;
    FieldSize(n);
    FinalLengthCases(n);
    hide EncodeLen, FinalLength;
  }

  /** The number of bytes of a length field. */
  lemma FieldSize(n: nat)
    ensures |EncodeLen(n)| == if n < 128 then 1 else if n < 16384 then 2 else if n < 2097152 then 3
                              else if n < MAX_REMAINING then 4 else |EncodeLen(n)|
    ensures n >= MAX_REMAINING ==> |EncodeLen(n)| >= 5
  {
    hide EncodeLen;
    LengthPowers();
    EncodeLenSize(n, 1);
    EncodeLenSize(n, 2);
    EncodeLenSize(n, 3);
    EncodeLenSize(n, 4);
  }

  lemma FinalLengthCases(n: Uint32)
    ensures n < UINT32 - 5 ==> FinalLength(n) == n + 1 + if n < 127 then 1 else if n < 16383 then 2 else if n < 2097151 then 3 else 4
    ensures n >= UINT32 - 5 ==> FinalLength(n) < n
  {}

  // ---- writing and reading through a moving pointer ----

  /** What a writer at p does to the memory a: the bytes w appear there and nothing else changes. */
  predicate Written(a: seq<Byte>, b: seq<Byte>, p: nat, w: seq<Byte>) {
    p + |w| <= |a| && b == a[..p] + w + a[p + |w|..]
  }

  lemma WrittenThen(a: seq<Byte>, b: seq<Byte>, c: seq<Byte>, p: nat, v: seq<Byte>, w: seq<Byte>)
    requires Written(a, b, p, v) && Written(b, c, p + |v|, w)
    ensures Written(a, c, p, v + w)
  {
    assert b[..p + |v|] == a[..p] + v;
    assert b[p + |v| + |w|..] == a[p + |v| + |w|..];
    assert a[..p] + v + w == a[..p] + (v + w);
  }

  lemma WrittenByte(a: seq<Byte>, p: nat, c: Byte)
    requires p < |a|
    ensures Written(a, a[p := c], p, [c])
  {}

  method WriteChar(buf: array<Byte>, p: nat, c: Byte) returns (q: nat)
    requires p < buf.Length
    modifies buf
    ensures q == p + 1 && Written(old(buf[..]), buf[..], p, [c])
  {
    WrittenByte(buf[..], p, c);
    buf[p] := c;
    assert buf[..] == old(buf[..])[p := c];
    q := p + 1;
  }

  method WriteLen(buf: array<Byte>, p: nat, length: nat) returns (q: nat)
    requires p + |EncodeLen(length)| <= buf.Length
    modifies buf
    ensures q == p + |EncodeLen(length)| && Written(old(buf[..]), buf[..], p, EncodeLen(length))
  {
    hide Written, EncodeLen;
    q := p;
    var n: nat, more := length, true;
    ghost var done: seq<Byte> := [];
    WrittenNothing(buf[..], p);
    while more
      invariant q == p + |done| && Written(old(buf[..]), buf[..], p, done)
      invariant done + (if more then EncodeLen(n) else []) == EncodeLen(length)
      decreases more, n
    {
      var next, encodedByte := NextDigit(n);
      ghost var before := buf[..];
      q := WriteChar(buf, q, encodedByte);
      WrittenThen(old(buf[..]), before, buf[..], p, done, [encodedByte]);
      assert done + ([encodedByte] + EncodeLen(next)) == done + [encodedByte] + EncodeLen(next);
      done := done + [encodedByte];
      n := next;
      more := n > 0;
    }
    assert done + [] == done;
  }

  /** The next digit, with the top bit set when more digits follow. */
  method NextDigit(n: nat) returns (next: nat, encodedByte: Byte)
    ensures EncodeLen(n) == [encodedByte] + if next > 0 then EncodeLen(next) else []
    ensures next > 0 ==> next < n
  {
    var digit: int := n % 128;
    next := n / 128;
    if next > 0 { digit := digit + 128; }
    encodedByte := digit;
  }

  lemma WrittenNothing(a: seq<Byte>, p: nat)
    requires p <= |a|
    ensures Written(a, a, p, [])
  {}

  datatype PacketStatus = Success | Failure | TxBufferTooShort | RxBufferTooShort | LengthError

  /** Combines digits already read with the value of the rest. */
  function Resume(read: nat, multiplier: nat, len: nat, rest: Decoded): Decoded {
    if rest.Done? then Done(read + multiplier * rest.value, len + rest.used) else rest
  }

  lemma ResumeStart(rest: Decoded)
    ensures Resume(0, 1, 0, rest) == rest && IPow(128, 0) == 1
  {}

  lemma ResumeStep(read: nat, multiplier: nat, len: nat, s: seq<Byte>, budget: nat)
    requires |s| > 0 && budget > 0
    ensures Resume(read, multiplier, len, DecodeLen(s, budget)) ==
            if s[0] < 128 then Done(read + multiplier * s[0], len + 1)
            else Resume(read + multiplier * (s[0] - 128), multiplier * 128, len + 1, DecodeLen(s[1..], budget - 1))
  {
    if s[0] >= 128 {
      var d := DecodeLen(s[1..], budget - 1);
      if d.Done? { Distribute(multiplier, s[0] - 128, d.value); }
    }
  }

  lemma Distribute(m: int, x: int, y: int)
    ensures m * (x + 128 * y) == m * x + m * 128 * y
  {}

  /** The reader trusts that the buffer goes on while continuation bits are set. */
  method ReadLen(buf: array<Byte>, p: nat) returns (status: PacketStatus, decodedLen: nat, readBytes: nat)
    requires p <= buf.Length && !DecodeLen(buf[p..], MAX_LENGTH_BYTES).Cut?
    ensures match DecodeLen(buf[p..], MAX_LENGTH_BYTES)
            case Done(v, u) => status == Success && decodedLen == v && readBytes == u
            case _ => status == LengthError
  {
    hide DecodeLen, Resume, IPow;
    var multiplier: int, len: int, more := 1, 0, true;
    decodedLen := 0;
    readBytes := 0;
    assert buf[p + 0..] == buf[p..];
    ResumeStart(DecodeLen(buf[p..], MAX_LENGTH_BYTES));
    while more
      invariant 0 <= len <= MAX_LENGTH_BYTES && p + len <= buf.Length && multiplier == IPow(128, len)
      invariant DecodeLen(buf[p..], MAX_LENGTH_BYTES) ==
                if more then Resume(decodedLen, multiplier, len, DecodeLen(buf[p + len..], MAX_LENGTH_BYTES - len))
                else Done(decodedLen, len)
      decreases more, MAX_LENGTH_BYTES - len
    {
      NextPower(len);
      if len + 1 > MAX_LENGTH_BYTES {
        assert DecodeLen(buf[p..], MAX_LENGTH_BYTES) == TooLong by { BudgetSpent(decodedLen, multiplier, buf[p + len..]); }
        return LengthError, decodedLen, readBytes;
      }
      assert p + len < buf.Length by { BytesRemain(decodedLen, multiplier, len, buf[p + len..], MAX_LENGTH_BYTES - len); }
      ghost var s := buf[p + len..];
      ResumeStep(decodedLen, multiplier, len, s, MAX_LENGTH_BYTES - len);
      assert s[1..] == buf[p + len + 1..];
      var encodedByte: int := buf[p + len];
      len := len + 1;
      ReadDigit(encodedByte, multiplier);
      decodedLen := decodedLen + (encodedByte % 128) * multiplier;
      multiplier := multiplier * 128;
      more := encodedByte >= 128;
    }
    return Success, decodedLen, len;
  }

  lemma NextPower(k: nat)
    ensures IPow(128, k + 1) == 128 * IPow(128, k)
  {}

  lemma ReadDigit(b: Byte, m: nat)
    ensures (b % 128) * m == if b < 128 then m * b else m * (b - 128)
  {
    assert b >= 128 ==> b % 128 == b - 128;
  }

  lemma BudgetSpent(read: nat, multiplier: nat, s: seq<Byte>)
    ensures Resume(read, multiplier, 4, DecodeLen(s, 0)) == TooLong
  {}

  lemma BytesRemain(read: nat, multiplier: nat, len: nat, s: seq<Byte>, budget: nat)
    requires budget > 0 && !Resume(read, multiplier, len, DecodeLen(s, budget)).Cut?
    ensures |s| > 0
  {}

  function EncodeUint16(n: Uint16): seq<Byte> {
    [n / 256, n % 256]
  }

  function DecodeUint16(a: Byte, b: Byte): Uint16 {
    b + 256 * a
  }

  method WriteUint16(buf: array<Byte>, p: nat, n: Uint16) returns (q: nat)
    requires p + 2 <= buf.Length
    modifies buf
    ensures q == p + 2 && Written(old(buf[..]), buf[..], p, EncodeUint16(n))
  {
    q := WriteChar(buf, p, n / 256);
    ghost var before := buf[..];
    q := WriteChar(buf, q, n % 256);
    WrittenThen(old(buf[..]), before, buf[..], p, [n / 256], [n % 256]);
    assert [n / 256] + [n % 256] == EncodeUint16(n);
  }

  method ReadUint16(buf: array<Byte>, p: nat) returns (n: Uint16, q: nat)
    requires p + 2 <= buf.Length
    ensures q == p + 2 && n == DecodeUint16(buf[p], buf[p + 1])
  {
    var first: int, second: int := buf[p], buf[p + 1];
    n := second + 256 * first;
    q := p + 2;
  }

  method CopyBytes(buf: array<Byte>, p: nat, w: seq<Byte>) returns (q: nat)
    requires p + |w| <= buf.Length
    modifies buf
    ensures q == p + |w| && Written(old(buf[..]), buf[..], p, w)
  {
    hide Written;
    WrittenNothing(buf[..], p);
    for i := 0 to |w|
      invariant Written(old(buf[..]), buf[..], p, w[..i])
    {
      ghost var before := buf[..];
      WrittenByte(before, p + i, w[i]);
      buf[p + i] := w[i];
      assert buf[..] == before[p + i := w[i]];
      WrittenThen(old(buf[..]), before, buf[..], p, w[..i], [w[i]]);
      assert w[..i + 1] == w[..i] + [w[i]];
    }
    assert w[..|w|] == w;
    q := p + |w|;
  }

  method WriteString(buf: array<Byte>, p: nat, w: seq<Byte>) returns (q: nat)
    requires |w| < 0x1_0000 && p + 2 + |w| <= buf.Length
    modifies buf
    ensures q == p + 2 + |w| && Written(old(buf[..]), buf[..], p, EncodeUint16(|w|) + w)
  {
    q := WriteUint16(buf, p, |w|);
    ghost var before := buf[..];
    if |w| > 0 {
      q := CopyBytes(buf, q, w);
    } else {
      WrittenNothing(before, q);
    }
    WrittenThen(old(buf[..]), before, buf[..], p, EncodeUint16(|w|), w);
  }

  // ---- the length read from the network ----

  /** The width of size_t, in which the length is added up. */
  const SIZE_T: nat := 0x1_0000_0000_0000_0000

  /** The digits up to the first one without a continuation bit, however many there are. */
  function Unlimited(s: seq<Byte>): (r: Decoded)
    ensures r.Done? ==> 1 <= r.used <= |s|
    ensures !r.TooLong?
  {
    if |s| == 0 then Cut
    else if s[0] < 128 then Done(s[0], 1)
    else
      match Unlimited(s[1..])
      case Done(v, u) => Done(s[0] - 128 + 128 * v, u + 1)
      case _ => Cut
  }

  /** What the digits of s add to digits already read. */
  function UnlimitedFrom(read: nat, multiplier: nat, len: nat, s: seq<Byte>): Decoded {
    Resume(read, multiplier, len, Unlimited(s))
  }

  lemma UnlimitedStep(read: nat, multiplier: nat, len: nat, s: seq<Byte>)
    requires |s| > 0
    ensures UnlimitedFrom(read, multiplier, len, s) ==
            if s[0] < 128 then Done(read + multiplier * s[0], len + 1)
            else UnlimitedFrom(read + multiplier * (s[0] - 128), multiplier * 128, len + 1, s[1..])
  {
    if s[0] >= 128 {
      var d := Unlimited(s[1..]);
      if d.Done? { Distribute(multiplier, s[0] - 128, d.value); }
    }
  }

  lemma UnlimitedEnd(read: nat, multiplier: nat, len: nat)
    ensures UnlimitedFrom(read, multiplier, len, []) == Cut && UnlimitedFrom(0, 1, 0, []) == Cut
  {}

  lemma UnlimitedStart(s: seq<Byte>)
    ensures UnlimitedFrom(0, 1, 0, s) == Unlimited(s)
  {}

  /** Wrapping sums and products agree with the true ones modulo the width. */
  lemma WrapSum(a: nat, d: nat, m: nat, w: nat)
    requires w > 0
    ensures (a % w + d * (m % w)) % w == (a + d * m) % w
  {
    var q, r, t := a / w, m / w, a % w + d * (m % w);
    DivMod(a, w);
    DivMod(m, w);
    DivMod(t, w);
    Distr(r * w, m % w, d);
    Assoc(d, r, w);
    Distr(q, d * r, w);
    Distr(q + d * r, t / w, w);
    DivUnique(a + d * m, w, q + d * r + t / w, t % w);
  }

  method AddNetworkDigit(b: Byte, remLen: nat, multiplier: nat, ghost value: nat, ghost weight: nat)
    returns (remLen': nat, multiplier': nat)
    requires remLen == value % SIZE_T && multiplier == weight % SIZE_T
    ensures remLen' == (value + weight * (if b < 128 then b else b - 128)) % SIZE_T
    ensures multiplier' == (weight * 128) % SIZE_T
  {
    DigitSum(b, value, weight, SIZE_T);
    remLen' := (remLen + (b % 128) * multiplier) % SIZE_T;
    multiplier' := (multiplier * 128) % SIZE_T;
  }

  lemma DigitSum(b: Byte, value: nat, weight: nat, w: nat)
    requires w > 0
    ensures (value % w + (b % 128) * (weight % w)) % w == (value + weight * (if b < 128 then b else b - 128)) % w
    ensures ((weight % w) * 128) % w == (weight * 128) % w
  {
    var digit: nat := if b < 128 then b else b - 128;
    assert digit == b % 128;
    WrapSum(value, digit, weight, w);
    WrapSum(0, 128, weight, w);
  }

  /**
   * Reads digits one by one while they continue; `bytes` is what the network gives before it fails. Every
   * successful read stores the number 1 of bytes read into the very variable that counts the digits, so
   * the limit of four is never reached.
   */
  method ReadNetworkLen(bytes: seq<Byte>) returns (status: PacketStatus, remLen: nat, used: nat)
    ensures match Unlimited(bytes)
            case Done(v, u) => status == Success && remLen == v % SIZE_T && used == u
            case _ => status == Failure
  {
    hide UnlimitedFrom, Unlimited, Resume;
    var multiplier: nat, len: nat, more := 1, 0, true;
    ghost var value: nat, weight: nat := 0, 1;
    remLen, used := 0, 0;
    UnlimitedStart(bytes);
    assert bytes[0..] == bytes;
    while more
      invariant len <= 1 && used <= |bytes| && remLen == value % SIZE_T && multiplier == weight % SIZE_T
      invariant Unlimited(bytes) == if more then UnlimitedFrom(value, weight, used, bytes[used..]) else Done(value, used)
      decreases more, |bytes| - used
    {
      len := len + 1;
      if len > MAX_LENGTH_BYTES { return LengthError, remLen, used; }
      if used == |bytes| {
        UnlimitedEnd(value, weight, used);
        return Failure, remLen, used;
      }
      UnlimitedStep(value, weight, used, bytes[used..]);
      assert bytes[used..][1..] == bytes[used + 1..];
      var encodedByte: int := bytes[used];
      len := 1;
      used := used + 1;
      remLen, multiplier := AddNetworkDigit(encodedByte, remLen, multiplier, value, weight);
      value, weight := value + weight * (if encodedByte < 128 then encodedByte else encodedByte - 128), weight * 128;
      more := encodedByte >= 128;
    }
    return Success, remLen, used;
  }

  /** The reader agrees with the decoder of lengths in a buffer exactly up to four digits. */
  lemma {:induction false} NetworkAgreesIff(s: seq<Byte>, budget: nat)
    requires Unlimited(s).Done?
    ensures DecodeLen(s, budget) == Unlimited(s) <==> Unlimited(s).used <= budget
    ensures Unlimited(s).used > budget ==> DecodeLen(s, budget) == TooLong
    decreases budget
  {
    if budget > 0 && s[0] >= 128 { NetworkAgreesIff(s[1..], budget - 1); }
  }

  /** Five digits, refused in a buffer and accepted from the network. */
  lemma FiveDigits()
    ensures var s: seq<Byte> := [0x80, 0x80, 0x80, 0x80, 1];
            DecodeLen(s, MAX_LENGTH_BYTES) == TooLong && Unlimited(s) == Done(MAX_REMAINING, 5)
  {
    var s: seq<Byte> := [0x80, 0x80, 0x80, 0x80, 1];
    assert s[1..] == [0x80, 0x80, 0x80, 1] && s[1..][1..] == [0x80, 0x80, 1] && s[1..][1..][1..] == [0x80, 1];
    assert Unlimited([1]) == Done(1, 1);
    assert Unlimited([0x80, 1]) == Done(128, 2) by { assert [0x80, 1][1..] == [1]; }
    assert Unlimited([0x80, 0x80, 1]) == Done(16384, 3) by { assert [0x80, 0x80, 1][1..] == [0x80, 1]; }
    assert Unlimited([0x80, 0x80, 0x80, 1]) == Done(2097152, 4) by { assert [0x80, 0x80, 0x80, 1][1..] == [0x80, 0x80, 1]; }
    NetworkAgreesIff(s, MAX_LENGTH_BYTES);
  }
}
