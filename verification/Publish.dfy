/** The PUBLISH packet: serializer and deserializer (sections 2.2 and 3.3 of MQTT 3.1.1). */
module Publish {
  import opened Wire
  import opened Slices
  import Arith

  /** What the publish call hands to the serializer; QoS is 0 or 1. */
  datatype Message = Message(dup: Byte, qos: nat, retained: Byte, packetId: Uint16,
                             topic: seq<Byte>, payload: seq<Byte>)

  function RemainingLength(m: Message): nat {
    |m.topic| + |m.payload| + 2 + if m.qos > 0 then 2 else 0
  }

  /** Lengths that fit their fields: two bytes for the topic, four for the rest of the packet. */
  predicate Sendable(m: Message) {
    m.qos <= 1 && |m.topic| < 0x1_0000 && RemainingLength(m) < MAX_REMAINING
  }

  // ---- the header byte ----

  function Bit(flag: Byte): Byte {
    if flag == 1 then 1 else 0
  }

  /** The header union: retain, QoS, DUP and type from the lowest bit up. */
  function PackHeader(messageType: nat, dup: Byte, qos: nat, retained: Byte): Byte
    requires messageType < 16 && qos <= 1
  {
    16 * messageType + 8 * Bit(dup) + 2 * qos + Bit(retained)
  }

  /** Any other message type is refused; any other QoS is sent as 0. */
  method InitHeader(messageType: int, qos: nat, dup: Byte, retained: Byte) returns (status: PacketStatus, header: Byte)
    ensures 1 <= messageType <= 14 ==>
              status == Success && header == PackHeader(messageType, dup, if qos == 1 then 1 else 0, retained)
    ensures !(1 <= messageType <= 14) ==> status == Failure
  {
    header := 0;
    if !(1 <= messageType <= 14) { return Failure, header; }
    var bits: int := 16 * messageType;
    if dup == 1 { bits := bits + 8; }
    if qos == 1 { bits := bits + 2; }
    if retained == 1 { bits := bits + 1; }
    return Success, bits;
  }

  function TypeOf(h: Byte): nat { h / 16 }
  function DupOf(h: Byte): nat { h / 8 % 2 }
  function QosOf(h: Byte): nat { h / 2 % 4 }
  function RetainOf(h: Byte): nat { h % 2 }

  lemma DivideBy(b: int, c: int, x: int, y: int)
    requires c > 0 && b == c * x + y && 0 <= y < c
    ensures b / c == x && b % c == y
  {
    Arith.DivUnique(b, c, x, y);
  }

  lemma HeaderFields(messageType: nat, dup: Byte, qos: nat, retained: Byte)
    requires messageType < 16 && qos <= 1
    ensures var h := PackHeader(messageType, dup, qos, retained);
            TypeOf(h) == messageType && DupOf(h) == Bit(dup) && QosOf(h) == qos && RetainOf(h) == Bit(retained)
  {
    var d: int, r: int := Bit(dup), Bit(retained);
    var h: int := PackHeader(messageType, dup, qos, retained);
    DivideBy(h, 16, messageType, 8 * d + 2 * qos + r);
    DivideBy(h, 8, 2 * messageType + d, 2 * qos + r);
    DivideBy(2 * messageType + d, 2, messageType, d);
    DivideBy(h, 2, 8 * messageType + 4 * d + qos, r);
    DivideBy(8 * messageType + 4 * d + qos, 4, 2 * messageType + d, qos);
  }

  lemma HeaderFromFields(h: Byte)
    requires QosOf(h) <= 1
    ensures h == PackHeader(TypeOf(h), DupOf(h), QosOf(h), RetainOf(h))
  {
    HeaderSum(h);
    hide TypeOf;
    BitOf(DupOf(h));
    BitOf(RetainOf(h));
  }

  lemma BitOf(b: Byte)
    requires b < 2
    ensures Bit(b) == b
  {}

  lemma HeaderSum(h: Byte)
    ensures TypeOf(h) < 16 && DupOf(h) < 2 && RetainOf(h) < 2
    ensures h == 16 * TypeOf(h) + 8 * DupOf(h) + 2 * QosOf(h) + RetainOf(h)
  {
    Arith.DivDiv(h, 2, 4);
    Arith.DivDiv(h, 8, 2);
    Arith.DivMod(h, 2);
    Arith.DivMod(h / 2, 4);
    Arith.DivMod(h / 8, 2);
  }

  // ---- serializing ----

  function PacketId(m: Message): seq<Byte> {
    if m.qos > 0 then EncodeUint16(m.packetId) else []
  }

  /** Everything after the length field. */
  function Body(m: Message): (r: seq<Byte>)
    requires Sendable(m)
    ensures |r| == RemainingLength(m)
  {
    EncodeUint16(|m.topic|) + m.topic + PacketId(m) + m.payload
  }

  function Packet(m: Message): (r: seq<Byte>)
    requires Sendable(m)
  {
    [PackHeader(PUBLISH, m.dup, m.qos, m.retained)] + EncodeLen(RemainingLength(m)) + Body(m)
  }

  /** Topic, packet id when there is one, and payload. */
  method WriteBody(buf: array<Byte>, p: nat, m: Message) returns (q: nat)
    requires Sendable(m) && p + RemainingLength(m) <= buf.Length
    modifies buf
    ensures q == p + RemainingLength(m) && Written(old(buf[..]), buf[..], p, Body(m))
  {
    SerializedSizes(m);
    PacketIdCases(m);
    hide Written, EncodeUint16, PacketId;
    q := WriteString(buf, p, m.topic);
    ghost var b1 := buf[..];
    if m.qos > 0 {
      q := WriteUint16(buf, q, m.packetId);
    } else {
      WrittenNothing(b1, q);
    }
    ghost var b2 := buf[..];
    var n := |m.topic|;
    WrittenThen(old(buf[..]), b1, b2, p, EncodeUint16(n) + m.topic, PacketId(m));
    q := CopyBytes(buf, q, m.payload);
    WrittenThen(old(buf[..]), b2, buf[..], p, EncodeUint16(n) + m.topic + PacketId(m), m.payload);
  }

  /** The remaining length as the serializer computes it, in 32 bits. */
  function WrappedLength(m: Message): Uint32 {
    RemainingLength(m) % UINT32
  }

  predicate CheckPasses(m: Message, bufLen: nat) {
    FinalLength(WrappedLength(m)) <= bufLen
  }

  /** The bytes that are written once the check has passed. */
  function WrittenSize(m: Message): nat {
    1 + |EncodeLen(WrappedLength(m))| + RemainingLength(m)
  }

  /** With a buffer below 2^28 bytes, what passes the check fits the buffer, and can be sent, iff no sum wrapped. */
  lemma CheckedFits(m: Message, bufLen: nat)
    requires m.qos <= 1 && |m.topic| < 0x1_0000 && bufLen < MAX_REMAINING && CheckPasses(m, bufLen)
    ensures WrittenSize(m) <= bufLen <==> RemainingLength(m) < UINT32 - 5
    ensures Sendable(m) <==> RemainingLength(m) < UINT32 - 5
  {
    hide EncodeLen, FinalLength;
    if RemainingLength(m) < UINT32 - 5 {
      FinalLengthCases(RemainingLength(m));
      FinalLengthEnough(RemainingLength(m));
    }
  }

  /** A topic of one byte and 2^32 bytes of payload ask for five bytes. */
  lemma WrappedCheckPasses()
    ensures var m := Message(0, 0, 0, 0, [97], seq(UINT32, _ => 0));
            CheckPasses(m, 5) && !Sendable(m) && WrittenSize(m) > UINT32
  {
    hide EncodeLen;
    var m := Message(0, 0, 0, 0, [97], seq(UINT32, _ => 0));
    assert WrappedLength(m) == 3;
  }

  method MeasureRemaining(m: Message) returns (remLen: Uint32)
    ensures remLen == WrappedLength(m)
  {
    var n: int := (|m.topic| + |m.payload| + 2) % UINT32;
    if m.qos > 0 { n := (n + 2) % UINT32; }
    remLen := n;
  }

  /** Header byte and length field. */
  method WriteHead(buf: array<Byte>, m: Message, remLen: nat) returns (p: nat)
    requires m.qos <= 1 && 1 + |EncodeLen(remLen)| <= buf.Length
    modifies buf
    ensures p == 1 + |EncodeLen(remLen)|
    ensures Written(old(buf[..]), buf[..], 0, [PackHeader(PUBLISH, m.dup, m.qos, m.retained)] + EncodeLen(remLen))
  {
    hide Written, EncodeLen, PackHeader;
    var status, header := InitHeader(PUBLISH, m.qos, m.dup, m.retained);
    p := WriteChar(buf, 0, header);
    ghost var before := buf[..];
    p := WriteLen(buf, p, remLen);
    WrittenThen(old(buf[..]), before, buf[..], 0, [header], EncodeLen(remLen));
  }

  /**
   * Either the whole packet is in the buffer, within the size that was asked for, or nothing is
   * written. The configured transmit buffer is far smaller than 2^28 bytes, and the bytes written
   * must stay inside it.
   */
  method SerializePublish(buf: array<Byte>, m: Message) returns (status: PacketStatus, serializedLen: nat)
    requires m.qos <= 1 && |m.topic| < 0x1_0000 && buf.Length < MAX_REMAINING
    requires CheckPasses(m, buf.Length) ==> WrittenSize(m) <= buf.Length
    modifies buf
    ensures status == (if CheckPasses(m, buf.Length) then Success else TxBufferTooShort)
    ensures status == Success ==>
              Sendable(m) && serializedLen == |Packet(m)| <= FinalLength(RemainingLength(m)) <= buf.Length &&
              Written(old(buf[..]), buf[..], 0, Packet(m))
    ensures status != Success ==> buf[..] == old(buf[..])
  {
    hide Written, EncodeLen, PackHeader, FinalLength, Body, RemainingLength;
    var remLen := MeasureRemaining(m);
    if FinalLength(remLen) > buf.Length { return TxBufferTooShort, 0; }
    PassedSizes(m, buf.Length);
    var ptr := WriteHead(buf, m, remLen);
    ghost var before := buf[..];
    ptr := WriteBody(buf, ptr, m);
    WrittenThen(old(buf[..]), before, buf[..], 0,
                [PackHeader(PUBLISH, m.dup, m.qos, m.retained)] + EncodeLen(remLen), Body(m));
    return Success, ptr;
  }

  lemma PassedSizes(m: Message, bufLen: nat)
    requires m.qos <= 1 && |m.topic| < 0x1_0000 && bufLen < MAX_REMAINING
    requires CheckPasses(m, bufLen) && WrittenSize(m) <= bufLen
    ensures Sendable(m) && WrappedLength(m) == RemainingLength(m)
    ensures |Packet(m)| == WrittenSize(m) <= FinalLength(RemainingLength(m)) <= bufLen
  {
    hide EncodeLen, FinalLength, Body, PackHeader;
    CheckedFits(m, bufLen);
    FinalLengthEnough(RemainingLength(m));
  }

  lemma SerializedSizes(m: Message)
    requires Sendable(m)
    ensures |EncodeUint16(|m.topic|)| == 2 && |PacketId(m)| == if m.qos > 0 then 2 else 0
    ensures |Packet(m)| == 1 + |EncodeLen(RemainingLength(m))| + RemainingLength(m)
  {}

  lemma PacketIdCases(m: Message)
    ensures PacketId(m) == if m.qos > 0 then EncodeUint16(m.packetId) else []
  {}

  // ---- deserializing ----

  /** Where the parts of a received packet lie in the buffer, or why it was refused. */
  datatype Parsed =
    | Parsed(dup: nat, qos: nat, retained: nat, packetId: Uint16,
             topicAt: nat, topicLen: nat, payloadAt: nat, payloadLen: nat)
    | Refused(status: PacketStatus)

  /** The deserializer as a function; the packet id of a QoS 0 packet is the caller's `id`. */
  function ParsePublish(s: seq<Byte>, id: Uint16): Parsed
    requires Readable(s)
  {
    if |s| < 4 then Refused(RxBufferTooShort)
    else if TypeOf(s[0]) != PUBLISH then Refused(Failure)
    else
      var d := DecodeLen(s[1..], MAX_LENGTH_BYTES);
      if !d.Done? then Refused(LengthError)
      else ParseBody(s, 1 + d.used, 1 + d.used + d.value, id)
  }

  function ParseBody(s: seq<Byte>, at: nat, end: nat, id: Uint16): Parsed
    requires 0 < |s| && at <= end && BodyReadable(s, at, end)
  {
    if end - at < 2 then Refused(Failure)
    else
      var n := DecodeUint16(s[at], s[at + 1]);
      var q := at + 2 + n;
      if q > end then Refused(Failure)
      else
        var r := if QosOf(s[0]) != 0 then q + 2 else q;
        Parsed(DupOf(s[0]), QosOf(s[0]), RetainOf(s[0]),
               if QosOf(s[0]) != 0 then DecodeUint16(s[q], s[q + 1]) else id,
               at + 2, n, r, if r <= end then end - r else SIZE_T + end - r)
  }

  /** The bytes that the deserializer reads without checking are in memory. */
  predicate BodyReadable(s: seq<Byte>, at: nat, end: nat)
    requires 0 < |s|
  {
    end <= |s| &&
    (end >= at + 2 ==>
       var q := at + 2 + DecodeUint16(s[at], s[at + 1]);
       q <= end && QosOf(s[0]) != 0 ==> q + 2 <= |s|)
  }

  predicate Readable(s: seq<Byte>) {
    |s| >= 4 && TypeOf(s[0]) == PUBLISH ==>
      var d := DecodeLen(s[1..], MAX_LENGTH_BYTES);
      !d.Cut? && (d.Done? ==> BodyReadable(s, 1 + d.used, 1 + d.used + d.value))
  }

  /** The first two bytes are the length; the string must end by `end`. */
  method ReadStringWithLen(buf: array<Byte>, p: nat, end: nat) returns (ok: bool, at: nat, len: nat, q: nat)
    requires p <= end <= buf.Length
    ensures ok <==> end - p >= 2 && p + 2 + DecodeUint16(buf[p], buf[p + 1]) <= end
    ensures ok ==> at == p + 2 && len == DecodeUint16(buf[p], buf[p + 1]) && q == at + len
  {
    ok, at, len, q := false, p, 0, p;
    if end - p > 1 {
      len, q := ReadUint16(buf, p);
      if q + len <= end {
        at := q;
        q := q + len;
        ok := true;
      }
    }
  }

  method DeserializePublish(buf: array<Byte>, id: Uint16) returns (r: Parsed)
    requires Readable(buf[..])
    ensures r == ParsePublish(buf[..], id)
  {
    hide DecodeLen, TypeOf, DupOf, QosOf, RetainOf, DecodeUint16;
    if buf.Length < 4 { return Refused(RxBufferTooShort); }
    var header := buf[0];
    if TypeOf(header) != PUBLISH { return Refused(Failure); }
    assert buf[..][1..] == buf[1..];
    var status, decodedLen, readBytes := ReadLen(buf, 1);
    if status != Success { return Refused(status); }
    var cur := 1 + readBytes;
    var end := cur + decodedLen;
    var ok, topicAt, topicLen, q := ReadStringWithLen(buf, cur, end);
    if !ok { return Refused(Failure); }
    cur := q;
    var packetId := id;
    if QosOf(header) != 0 {
      packetId, cur := ReadUint16(buf, cur);
    }
    var payloadLen := if cur <= end then end - cur else SIZE_T + end - cur;
    return Parsed(DupOf(header), QosOf(header), RetainOf(header), packetId, topicAt, topicLen, cur, payloadLen);
  }

  // ---- the round trips ----

  lemma DecodeUint16Encoded(n: Uint16)
    ensures DecodeUint16(EncodeUint16(n)[0], EncodeUint16(n)[1]) == n
  {}

  lemma AtUint16(s: seq<Byte>, p: nat, n: Uint16)
    requires At(s, p, EncodeUint16(n))
    ensures p + 2 <= |s| && DecodeUint16(s[p], s[p + 1]) == n
  {
    DecodeUint16Encoded(n);
    assert s[p..p + 2][0] == s[p] && s[p..p + 2][1] == s[p + 1];
  }

  /** Where the parts of a packet lie, in memory that goes on with `rest`. */
  lemma PacketParts(m: Message, s: seq<Byte>, rest: seq<Byte>)
    requires Sendable(m) && s == Packet(m) + rest
    ensures var at := 1 + |EncodeLen(RemainingLength(m))|;
            var q := at + 2 + |m.topic|;
            && s[0] == PackHeader(PUBLISH, m.dup, m.qos, m.retained)
            && s[1..] == EncodeLen(RemainingLength(m)) + (Body(m) + rest)
            && At(s, at, EncodeUint16(|m.topic|)) && At(s, at + 2, m.topic)
            && At(s, q, PacketId(m)) && At(s, q + |PacketId(m)|, m.payload)
  {
    SerializedSizes(m);
    BodyShape(m);
    hide *;
    var h, l := PackHeader(PUBLISH, m.dup, m.qos, m.retained), EncodeLen(RemainingLength(m));
    PacketShape(m, s, rest);
    HeadAndBody(s, h, l, Body(m), rest);
    FourParts(s, 1 + |l|, EncodeUint16(|m.topic|), m.topic, PacketId(m), m.payload);
  }

  lemma BodyShape(m: Message)
    requires Sendable(m)
    ensures |m.topic| < 0x1_0000 && Body(m) == EncodeUint16(|m.topic|) + m.topic + PacketId(m) + m.payload
  {}

  lemma PacketShape(m: Message, s: seq<Byte>, rest: seq<Byte>)
    requires Sendable(m) && s == Packet(m) + rest
    ensures s == [PackHeader(PUBLISH, m.dup, m.qos, m.retained)] + EncodeLen(RemainingLength(m)) + Body(m) + rest
  {}

  lemma HeadAndBody(s: seq<Byte>, h: Byte, l: seq<Byte>, body: seq<Byte>, rest: seq<Byte>)
    requires s == [h] + l + body + rest
    ensures s[0] == h && s[1..] == l + (body + rest) && At(s, 1 + |l|, body)
  {}

  lemma FourParts(s: seq<Byte>, p: nat, a: seq<Byte>, b: seq<Byte>, c: seq<Byte>, d: seq<Byte>)
    requires At(s, p, a + b + c + d)
    ensures At(s, p, a) && At(s, p + |a|, b) && At(s, p + |a| + |b|, c) && At(s, p + |a| + |b| + |c|, d)
  {
    hide At;
    AtSplit(s, p, a + b + c, d);
    AtSplit(s, p, a + b, c);
    AtSplit(s, p, a, b);
  }

  /** A packet with a good header and length field is parsed through its body. */
  lemma ParseThroughBody(s: seq<Byte>, d: Decoded, id: Uint16)
    requires |s| >= 4 && TypeOf(s[0]) == PUBLISH && d == DecodeLen(s[1..], MAX_LENGTH_BYTES) && d.Done?
    ensures Readable(s) <==> BodyReadable(s, 1 + d.used, 1 + d.used + d.value)
    ensures Readable(s) ==> ParsePublish(s, id) == ParseBody(s, 1 + d.used, 1 + d.used + d.value, id)
  {
    hide TypeOf, DecodeLen, BodyReadable, ParseBody;
  }

  /** A body whose topic and packet id fit before its end. */
  lemma ParsedBody(s: seq<Byte>, at: nat, end: nat, n: nat, id: Uint16)
    requires 0 < |s| && at + 2 + n <= end <= |s| && DecodeUint16(s[at], s[at + 1]) == n
    requires var q := at + 2 + n; QosOf(s[0]) != 0 ==> q + 2 <= end
    ensures var q := at + 2 + n;
            BodyReadable(s, at, end) &&
            ParseBody(s, at, end, id) ==
            if QosOf(s[0]) != 0
            then Parsed(DupOf(s[0]), QosOf(s[0]), RetainOf(s[0]), DecodeUint16(s[q], s[q + 1]), at + 2, n, q + 2, end - q - 2)
            else Parsed(DupOf(s[0]), QosOf(s[0]), RetainOf(s[0]), id, at + 2, n, q, end - q)
  {
    hide DecodeUint16, QosOf, DupOf, RetainOf;
  }

  /** The result of parsing a packet: its fields, and where its topic and payload lie. */
  function ParsedPacket(m: Message, id: Uint16): Parsed {
    var at := 1 + |EncodeLen(RemainingLength(m))|;
    Parsed(Bit(m.dup), m.qos, Bit(m.retained), if m.qos > 0 then m.packetId else id,
           at + 2, |m.topic|, at + 2 + |m.topic| + |PacketId(m)|, |m.payload|)
  }

  lemma ParseOfPacket(m: Message, s: seq<Byte>, rest: seq<Byte>, id: Uint16)
    requires Sendable(m) && s == Packet(m) + rest
    ensures Readable(s) && ParsePublish(s, id) == ParsedPacket(m, id)
  {
    hide *;
    PacketHead(m, s, rest);
    ParseOfBody(m, s, rest, id);
    ParseThroughBody(s, DecodeLen(s[1..], MAX_LENGTH_BYTES), id);
  }

  /** Type and length field of a packet in memory. */
  lemma PacketHead(m: Message, s: seq<Byte>, rest: seq<Byte>)
    requires Sendable(m) && s == Packet(m) + rest
    ensures |s| >= 4 && TypeOf(s[0]) == PUBLISH
    ensures DecodeLen(s[1..], MAX_LENGTH_BYTES) == Done(RemainingLength(m), |EncodeLen(RemainingLength(m))|)
  {
    assert PUBLISH < 16;
    hide *;
    SendableMeans(m);
    SerializedSizes(m);
    PacketParts(m, s, rest);
    HeaderFields(PUBLISH, m.dup, m.qos, m.retained);
    LengthRoundTrip(RemainingLength(m), Body(m) + rest);
  }

  /** Flags, topic length and packet id of a packet in memory. */
  lemma BodyPlaces(m: Message, s: seq<Byte>, rest: seq<Byte>)
    requires Sendable(m) && s == Packet(m) + rest
    ensures var at := 1 + |EncodeLen(RemainingLength(m))|;
            var q := at + 2 + |m.topic|;
            && at + RemainingLength(m) <= |s| && q <= at + RemainingLength(m)
            && DupOf(s[0]) == Bit(m.dup) && QosOf(s[0]) == m.qos && RetainOf(s[0]) == Bit(m.retained)
            && DecodeUint16(s[at], s[at + 1]) == |m.topic|
            && RemainingLength(m) == 2 + |m.topic| + |PacketId(m)| + |m.payload|
            && (if m.qos > 0 then |PacketId(m)| == 2 && DecodeUint16(s[q], s[q + 1]) == m.packetId
                else |PacketId(m)| == 0)
  {
    assert PUBLISH < 16;
    hide *;
    SendableMeans(m);
    SerializedSizes(m);
    PacketIdCases(m);
    PacketParts(m, s, rest);
    HeaderFields(PUBLISH, m.dup, m.qos, m.retained);
    AtUint16(s, 1 + |EncodeLen(RemainingLength(m))|, |m.topic|);
    if m.qos > 0 { AtUint16(s, 1 + |EncodeLen(RemainingLength(m))| + 2 + |m.topic|, m.packetId); }
  }

  lemma ParseOfBody(m: Message, s: seq<Byte>, rest: seq<Byte>, id: Uint16)
    requires Sendable(m) && s == Packet(m) + rest
    ensures var at, rem := 1 + |EncodeLen(RemainingLength(m))|, RemainingLength(m);
            BodyReadable(s, at, at + rem) && ParseBody(s, at, at + rem, id) == ParsedPacket(m, id)
  {
    hide *;
    var rem := RemainingLength(m);
    var at := 1 + |EncodeLen(rem)|;
    BodyPlaces(m, s, rest);
    ParsedBody(s, at, at + rem, |m.topic|, id);
    ParsedPacketFields(m, id);
  }

  lemma ParsedPacketFields(m: Message, id: Uint16)
    ensures var at := 1 + |EncodeLen(RemainingLength(m))|;
            ParsedPacket(m, id) ==
            Parsed(Bit(m.dup), m.qos, Bit(m.retained), if m.qos > 0 then m.packetId else id,
                   at + 2, |m.topic|, at + 2 + |m.topic| + |PacketId(m)|, |m.payload|)
  {}

  /** Deserializing what was serialized gives back every field. */
  lemma SerializedIsRecovered(m: Message, rest: seq<Byte>, id: Uint16)
    requires Sendable(m)
    ensures var s := Packet(m) + rest;
            Readable(s) &&
            var p := ParsePublish(s, id);
            && p.Parsed? && p.dup == Bit(m.dup) && p.qos == m.qos && p.retained == Bit(m.retained)
            && p.packetId == (if m.qos > 0 then m.packetId else id)
            && p.topicAt + p.topicLen <= p.payloadAt && p.payloadAt + p.payloadLen == |Packet(m)|
            && s[p.topicAt..p.topicAt + p.topicLen] == m.topic
            && s[p.payloadAt..p.payloadAt + p.payloadLen] == m.payload
  {
    hide *;
    var s, at := Packet(m) + rest, 1 + |EncodeLen(RemainingLength(m))|;
    SendableMeans(m);
    SerializedSizes(m);
    ParseOfPacket(m, s, rest, id);
    ParsedPacketFields(m, id);
    PacketParts(m, s, rest);
    AtMeans(s, at + 2, m.topic);
    AtMeans(s, at + 2 + |m.topic| + |PacketId(m)|, m.payload);
  }

  lemma SendableMeans(m: Message)
    requires Sendable(m)
    ensures m.qos <= 1 && |m.topic| < 0x1_0000 && RemainingLength(m) < MAX_REMAINING
    ensures RemainingLength(m) == 2 + |m.topic| + |PacketId(m)| + |m.payload|
  {}

  lemma AtMeans(s: seq<Byte>, p: nat, w: seq<Byte>)
    requires At(s, p, w)
    ensures p + |w| <= |s| && s[p..p + |w|] == w
  {}

  lemma Uint16FromBytes(a: Byte, b: Byte)
    ensures EncodeUint16(DecodeUint16(a, b)) == [a, b]
  {
    Arith.DivUnique(b + 256 * a, 256, a, b);
  }

  lemma Cuts(s: seq<Byte>, a: nat, b: nat, c: nat)
    requires a <= b <= c <= |s|
    ensures s[a..c] == s[a..b] + s[b..c]
  {}

  /** The message that a received packet carries. */
  function MessageOf(s: seq<Byte>, p: Parsed): Message
    requires p.Parsed? && p.dup < 256 && p.retained < 256
    requires p.topicAt + p.topicLen <= |s| && p.payloadAt + p.payloadLen <= |s|
  {
    Message(p.dup, p.qos, p.retained, p.packetId,
            s[p.topicAt..p.topicAt + p.topicLen], s[p.payloadAt..p.payloadAt + p.payloadLen])
  }

  lemma BodyOfReceived(s: seq<Byte>, at: nat, end: nat, id: Uint16)
    requires 0 < |s| && at <= end && end - at < MAX_REMAINING && BodyReadable(s, at, end)
    requires var p := ParseBody(s, at, end, id);
             p.Parsed? && p.qos <= 1 && p.payloadAt <= end
    ensures var p := ParseBody(s, at, end, id);
            p.dup < 2 && p.retained < 2 && p.topicAt + p.topicLen <= |s| && p.payloadAt + p.payloadLen <= |s| &&
            var m := MessageOf(s, p);
            Sendable(m) && RemainingLength(m) == end - at && Body(m) == s[at..end]
  {
    ParsedFields(s, at, end, id);
    var p := ParseBody(s, at, end, id);
    var q := at + 2 + p.topicLen;
    var m := MessageOf(s, p);
    hide ParseBody, BodyReadable, DupOf, RetainOf, QosOf, DecodeUint16;
    Uint16FromBytes(s[at], s[at + 1]);
    if p.qos > 0 { Uint16FromBytes(s[q], s[q + 1]); }
    assert EncodeUint16(|m.topic|) == s[at..at + 2];
    assert PacketId(m) == s[q..p.payloadAt];
    hide EncodeUint16, PacketId;
    Cuts(s, at, at + 2, q);
    Cuts(s, at, q, p.payloadAt);
    Cuts(s, at, p.payloadAt, end);
  }

  /** A parsed packet with QoS 0 or 1, a length field without a superfluous zero and room for its packet id. */
  predicate Canonical(s: seq<Byte>, id: Uint16) {
    |s| >= 4 && Readable(s) &&
    var p, d := ParsePublish(s, id), DecodeLen(s[1..], MAX_LENGTH_BYTES);
    p.Parsed? && p.qos <= 1 && (d.used > 1 ==> s[d.used] != 0) && p.payloadAt <= 1 + d.used + d.value
  }

  /** The other way round: a canonical packet is the serialization of what was parsed. */
  lemma ReceivedIsSerialized(s: seq<Byte>, id: Uint16)
    ensures Canonical(s, id) ==>
              var p, d := ParsePublish(s, id), DecodeLen(s[1..], MAX_LENGTH_BYTES);
              p.dup < 2 && p.retained < 2 && p.topicAt + p.topicLen <= |s| && p.payloadAt + p.payloadLen <= |s| &&
              var m := MessageOf(s, p);
              Sendable(m) && Packet(m) == s[..1 + d.used + d.value]
  {
    hide *;
    if Canonical(s, id) {
      CanonicalMeans(s, id);
      var d := DecodeLen(s[1..], MAX_LENGTH_BYTES);
      LengthField(s, d);
      ParseThroughBody(s, d, id);
      ReceivedThroughBody(s, 1 + d.used, 1 + d.used + d.value, id);
    }
  }

  lemma ReceivedThroughBody(s: seq<Byte>, at: nat, end: nat, id: Uint16)
    requires 0 < at <= end <= |s| && end - at < MAX_REMAINING && TypeOf(s[0]) == PUBLISH
    requires BodyReadable(s, at, end) && EncodeLen(end - at) == s[1..at]
    requires var p := ParseBody(s, at, end, id);
             p.Parsed? && p.qos <= 1 && p.payloadAt <= end
    ensures var p := ParseBody(s, at, end, id);
            p.dup < 2 && p.retained < 2 && p.topicAt + p.topicLen <= |s| && p.payloadAt + p.payloadLen <= |s| &&
            var m := MessageOf(s, p);
            Sendable(m) && Packet(m) == s[..end]
  {
    ParsedFields(s, at, end, id);
    HeaderFromFields(s[0]);
    hide TypeOf, QosOf, DupOf, RetainOf, EncodeLen, PackHeader, Body, ParseBody, BodyReadable, RemainingLength, Sendable, Packet;
    BodyOfReceived(s, at, end, id);
    ReceivedPacket(s, at, end, MessageOf(s, ParseBody(s, at, end, id)));
  }

  lemma CanonicalMeans(s: seq<Byte>, id: Uint16)
    ensures Canonical(s, id) ==>
              |s| >= 4 && Readable(s) && TypeOf(s[0]) == PUBLISH &&
              var p, d := ParsePublish(s, id), DecodeLen(s[1..], MAX_LENGTH_BYTES);
              d.Done? && 1 + d.used + d.value <= |s| && p.Parsed? && p.qos <= 1 &&
              (d.used > 1 ==> s[d.used] != 0) && p.payloadAt <= 1 + d.used + d.value
  {}

  lemma ReceivedPacket(s: seq<Byte>, at: nat, end: nat, m: Message)
    requires 0 < at <= end <= |s| && Sendable(m) && RemainingLength(m) == end - at
    requires s[0] == PackHeader(PUBLISH, m.dup, m.qos, m.retained)
    requires EncodeLen(end - at) == s[1..at] && Body(m) == s[at..end]
    ensures Packet(m) == s[..end]
  {
    hide EncodeLen, PackHeader, Body;
    assert s[..end] == [s[0]] + s[1..at] + s[at..end];
  }

  lemma LengthField(s: seq<Byte>, d: Decoded)
    requires |s| > 0 && d == DecodeLen(s[1..], MAX_LENGTH_BYTES) && d.Done? && (d.used > 1 ==> s[d.used] != 0)
    ensures EncodeLen(d.value) == s[1..1 + d.used] && d.value < MAX_REMAINING && s[0..1] == [s[0]]
  {
    DecodedIsEncoded(s[1..], MAX_LENGTH_BYTES);
    DecodedBound(s[1..], MAX_LENGTH_BYTES);
    LengthPowers();
    assert s[1..][d.used - 1] == s[d.used] && s[1..][..d.used] == s[1..1 + d.used];
  }

  /** What a parsed body says, field by field. */
  lemma ParsedFields(s: seq<Byte>, at: nat, end: nat, id: Uint16)
    requires 0 < |s| && at <= end && BodyReadable(s, at, end) && ParseBody(s, at, end, id).Parsed?
    ensures var p := ParseBody(s, at, end, id);
            var q := at + 2 + p.topicLen;
            && p.dup == DupOf(s[0]) < 2 && p.qos == QosOf(s[0]) && p.retained == RetainOf(s[0]) < 2
            && q <= end <= |s| && p.topicAt == at + 2 && p.topicLen == DecodeUint16(s[at], s[at + 1])
            && (if p.qos > 0 then q + 2 <= |s| && p.payloadAt == q + 2 && p.packetId == DecodeUint16(s[q], s[q + 1])
                else p.payloadAt == q && p.packetId == id)
            && (p.payloadAt <= end ==> p.payloadLen == end - p.payloadAt)
  {
    hide DecodeUint16, QosOf;
  }

  lemma {:induction false} DecodedBound(s: seq<Byte>, budget: nat)
    requires DecodeLen(s, budget).Done?
    ensures DecodeLen(s, budget).value < Arith.IPow(128, budget)
    decreases budget
  {
    if s[0] >= 128 {
      DecodedBound(s[1..], budget - 1);
    }
  }

  /** The reported payload lies in the buffer iff the packet id, when there is one, ends before the packet does. */
  lemma PayloadInside(s: seq<Byte>, at: nat, end: nat, id: Uint16)
    requires 0 < |s| < SIZE_T - 2 && at <= end && BodyReadable(s, at, end) && ParseBody(s, at, end, id).Parsed?
    ensures var p := ParseBody(s, at, end, id);
            p.payloadAt + p.payloadLen <= |s| <==> QosOf(s[0]) == 0 || p.topicAt + p.topicLen + 2 <= end
  {
    ParsedFields(s, at, end, id);
    hide DecodeUint16, QosOf, DupOf, RetainOf;
  }

  /** The same for whole packets. */
  lemma PayloadOfReceived(s: seq<Byte>, id: Uint16)
    ensures |s| < SIZE_T - 2 && Readable(s) && ParsePublish(s, id).Parsed? ==>
              var p, d := ParsePublish(s, id), DecodeLen(s[1..], MAX_LENGTH_BYTES);
              d.Done? && 0 < |s| &&
              (p.payloadAt + p.payloadLen <= |s| <==> QosOf(s[0]) == 0 || p.topicAt + p.topicLen + 2 <= 1 + d.used + d.value)
  {
    if |s| < SIZE_T - 2 && Readable(s) && ParsePublish(s, id).Parsed? {
      var d := DecodeLen(s[1..], MAX_LENGTH_BYTES);
      hide DecodeLen, QosOf, BodyReadable, ParseBody, TypeOf;
      PayloadInside(s, 1 + d.used, 1 + d.used + d.value, id);
    }
  }

  /** The topic lies in the buffer, behind header byte, length field and its own length. */
  lemma TopicInside(s: seq<Byte>, id: Uint16)
    requires Readable(s) && ParsePublish(s, id).Parsed?
    ensures var p := ParsePublish(s, id);
            4 <= p.topicAt && p.topicAt + p.topicLen <= |s| && p.packetId < 0x1_0000
  {
    var d := DecodeLen(s[1..], MAX_LENGTH_BYTES);
    hide DecodeLen, QosOf, BodyReadable, ParseBody, TypeOf;
    ParsedFields(s, 1 + d.used, 1 + d.used + d.value, id);
  }

  /** QoS 1, remaining length 2 and an empty topic: no room for the packet id, and a payload length of 2^64 - 2. */
  lemma PayloadOutside(id: Uint16)
    ensures var s: seq<Byte> := [0x32, 2, 0, 0, 0, 7];
            Readable(s) && ParsePublish(s, id) == Parsed(0, 1, 0, 7, 4, 0, 6, SIZE_T - 2)
  {
    var s: seq<Byte> := [0x32, 2, 0, 0, 0, 7];
    assert DecodeLen(s[1..], MAX_LENGTH_BYTES) == Done(2, 1);
    assert TypeOf(s[0]) == PUBLISH && QosOf(s[0]) == 1 && DupOf(s[0]) == 0 && RetainOf(s[0]) == 0;
    hide DecodeLen, QosOf, TypeOf, DupOf, RetainOf;
  }
}
