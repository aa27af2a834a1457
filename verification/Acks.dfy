/** The answers CONNACK, PUBACK, SUBACK and UNSUBACK: deserializers (sections 3.2, 3.4, 3.9 and 3.11 of MQTT 3.1.1). */
module Acks {
  import opened Wire
  import Publish

  /** What the deserializers look at without checking is in memory: the length field and up to four bytes behind it. */
  predicate Readable(s: seq<Byte>) {
    |s| > 0 &&
    var d := DecodeLen(s[1..], MAX_LENGTH_BYTES);
    !d.Cut? && (d.Done? ==> 1 + d.used + Least(d.value, 4) <= |s|)
  }

  function Least(a: nat, b: nat): nat {
    if a < b then a else b
  }

  datatype Answer = Answer(id: Uint16, codes: seq<Byte>) | Refused(status: PacketStatus)

  /** PUBACK, and UNSUBACK but for its type: at least two bytes, the first two being the packet id. */
  function ParseAck(s: seq<Byte>): Answer
    requires Readable(s)
  {
    if |s| < 4 then Refused(RxBufferTooShort)
    else
      var d := DecodeLen(s[1..], MAX_LENGTH_BYTES);
      if !d.Done? then Refused(LengthError)
      else if d.value < 2 then Refused(Failure)
      else Answer(DecodeUint16(s[1 + d.used], s[2 + d.used]), [])
  }

  function ParseUnsuback(s: seq<Byte>): Answer
    requires Readable(s)
  {
    var r := ParseAck(s);
    if r.Answer? && Publish.TypeOf(s[0]) != UNSUBACK then Refused(Failure) else r
  }

  /** At most two granted codes; none is needed. */
  function ParseSuback(s: seq<Byte>): Answer
    requires Readable(s)
  {
    if |s| < 5 then Refused(RxBufferTooShort)
    else if Publish.TypeOf(s[0]) != SUBACK then Refused(Failure)
    else
      var d := DecodeLen(s[1..], MAX_LENGTH_BYTES);
      if !d.Done? then Refused(LengthError)
      else if d.value < 2 || d.value > 4 then Refused(Failure)
      else Answer(DecodeUint16(s[1 + d.used], s[2 + d.used]), s[3 + d.used..1 + d.used + d.value])
  }

  /** Exactly two bytes: flags and the return code. */
  function ParseConnack(s: seq<Byte>): Answer
    requires Readable(s)
  {
    if |s| < 4 then Refused(RxBufferTooShort)
    else if Publish.TypeOf(s[0]) != CONNACK then Refused(Failure)
    else
      var d := DecodeLen(s[1..], MAX_LENGTH_BYTES);
      if !d.Done? || d.value != 2 then Refused(LengthError)
      else Answer(0, [s[2 + d.used]])
  }

  // ---- the deserializers ----

  method DeserializeAck(buf: array<Byte>) returns (r: Answer)
    requires Readable(buf[..])
    ensures r == ParseAck(buf[..])
  {
    hide DecodeLen, DecodeUint16;
    if buf.Length < 4 { return Refused(RxBufferTooShort); }
    assert buf[..][1..] == buf[1..];
    var status, decodedLen, readBytes := ReadLen(buf, 1);
    if status != Success { return Refused(status); }
    var cur := 1 + readBytes;
    var end := cur + decodedLen;
    if end - cur < 2 { return Refused(Failure); }
    var id;
    id, cur := ReadUint16(buf, cur);
    return Answer(id, []);
  }

  method DeserializeUnsuback(buf: array<Byte>) returns (r: Answer)
    requires Readable(buf[..])
    ensures r == ParseUnsuback(buf[..])
  {
    hide DecodeLen, DecodeUint16, Publish.TypeOf;
    r := DeserializeAck(buf);
    if r.Answer? && Publish.TypeOf(buf[0]) != UNSUBACK { r := Refused(Failure); }
  }

  /** The granted codes are read one by one, and the third is too many. */
  method DeserializeSuback(buf: array<Byte>) returns (r: Answer)
    requires Readable(buf[..])
    ensures r == ParseSuback(buf[..])
  {
    hide DecodeLen, DecodeUint16, Publish.TypeOf;
    if buf.Length < 5 { return Refused(RxBufferTooShort); }
    if Publish.TypeOf(buf[0]) != SUBACK { return Refused(Failure); }
    assert buf[..][1..] == buf[1..];
    var status, decodedLen, readBytes := ReadLen(buf, 1);
    if status != Success { return Refused(status); }
    var cur := 1 + readBytes;
    var end := cur + decodedLen;
    if end - cur < 2 { return Refused(Failure); }
    var id;
    id, cur := ReadUint16(buf, cur);
    ghost var first := cur;
    var codes: seq<Byte> := [];
    while cur < end
      invariant cur == first + |codes| <= end && |codes| <= 2 && cur <= buf.Length && codes == buf[first..cur]
    {
      if |codes| > 1 { return Refused(Failure); }
      codes := codes + [buf[cur]];
      cur := cur + 1;
    }
    return Answer(id, codes);
  }

  method DeserializeConnack(buf: array<Byte>) returns (r: Answer)
    requires Readable(buf[..])
    ensures r == ParseConnack(buf[..])
  {
    hide DecodeLen, Publish.TypeOf;
    if buf.Length < 4 { return Refused(RxBufferTooShort); }
    if Publish.TypeOf(buf[0]) != CONNACK { return Refused(Failure); }
    assert buf[..][1..] == buf[1..];
    var status, decodedLen, readBytes := ReadLen(buf, 1);
    if status != Success { return Refused(status); }
    var cur := 1 + readBytes;
    if decodedLen != 2 { return Refused(LengthError); }
    return Answer(0, [buf[cur + 1]]);
  }

  // ---- packets as the standard writes them ----

  /** A packet of that type that begins with a packet id. */
  function AnswerPacket(header: Byte, id: Uint16, codes: seq<Byte>): seq<Byte>
    requires |codes| <= 125
  {
    [header, 2 + |codes|] + EncodeUint16(id) + codes
  }

  lemma AnswerParts(header: Byte, id: Uint16, codes: seq<Byte>, rest: seq<Byte>)
    requires |codes| <= 125
    ensures var s := AnswerPacket(header, id, codes) + rest;
            Readable(s) && s[0] == header && DecodeLen(s[1..], MAX_LENGTH_BYTES) == Done(2 + |codes|, 1) &&
            DecodeUint16(s[2], s[3]) == id && s[4..4 + |codes|] == codes
  {
    var s := AnswerPacket(header, id, codes) + rest;
    assert s[1..][0] == 2 + |codes|;
    assert DecodeLen(s[1..], MAX_LENGTH_BYTES) == Done(2 + |codes|, 1);
    hide DecodeLen;
    assert s[2..4] == EncodeUint16(id);
    Publish.DecodeUint16Encoded(id);
  }

  /**
   * A SUBACK packet (first byte 0x90) in the buffer is accepted exactly when it has at most two granted
   * codes, whatever they are and whatever the packet id is: the code 0x80, a refusal (section 3.9.3 of
   * the standard), is accepted like a granted QoS.
   */
  lemma SubackAcceptedIff(id: Uint16, codes: seq<Byte>, rest: seq<Byte>)
    requires |codes| <= 125 && |codes| + |rest| > 0
    ensures var s := AnswerPacket(0x90, id, codes) + rest;
            Readable(s) && ParseSuback(s) == if |codes| <= 2 then Answer(id, codes) else Refused(Failure)
    ensures codes == [0x80] ==> ParseSuback(AnswerPacket(0x90, id, codes) + rest) == Answer(id, [0x80])
  {
    AnswerParts(0x90, id, codes, rest);
    hide DecodeLen, DecodeUint16, AnswerPacket;
  }

  /** PUBACK (0x40) and UNSUBACK (0xB0) are accepted with any packet id, and one is not taken for the other. */
  lemma AcksAccepted(id: Uint16, rest: seq<Byte>)
    ensures var puback, unsuback := AnswerPacket(0x40, id, []) + rest, AnswerPacket(0xB0, id, []) + rest;
            Readable(puback) && ParseAck(puback) == Answer(id, []) && ParseUnsuback(puback) == Refused(Failure) &&
            Readable(unsuback) && ParseUnsuback(unsuback) == Answer(id, [])
  {
    AnswerParts(0x40, id, [], rest);
    AnswerParts(0xB0, id, [], rest);
    hide DecodeLen, DecodeUint16, AnswerPacket;
  }

  /** CONNACK (0x20): the return code is the second of exactly two bytes. */
  lemma ConnackCode(flags: Byte, code: Byte, rest: seq<Byte>)
    ensures Readable([0x20, 2, flags, code] + rest) && ParseConnack([0x20, 2, flags, code] + rest) == Answer(0, [code])
  {
    var s := [0x20, 2, flags, code] + rest;
    assert DecodeLen(s[1..], MAX_LENGTH_BYTES) == Done(2, 1);
  }
}
