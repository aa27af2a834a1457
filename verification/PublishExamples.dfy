/** PUBLISH packets by their bytes: which are accepted, and what one packet looks like (section 3.3 of MQTT 3.1.1). */
module PublishExamples {
  import opened Wire
  import opened Slices
  import opened Publish

  /** A packet is accepted for any flags, QoS 2 and 3 among them, exactly when its topic fits the remaining length. */
  lemma AcceptedIff(s: seq<Byte>, id: Uint16)
    requires |s| >= 4 && Readable(s)
    ensures var d := DecodeLen(s[1..], MAX_LENGTH_BYTES);
            ParsePublish(s, id).Parsed? <==>
            48 <= s[0] < 64 && d.Done? && d.value >= 2 && 2 + 256 * s[1 + d.used] + s[2 + d.used] <= d.value
    ensures ParsePublish(s, id).Refused? ==>
              ParsePublish(s, id).status == if 48 <= s[0] < 64 && DecodeLen(s[1..], MAX_LENGTH_BYTES) == TooLong
                                            then LengthError else Failure
  {
    var d := DecodeLen(s[1..], MAX_LENGTH_BYTES);
    assert TypeOf(s[0]) == PUBLISH <==> 48 <= s[0] < 64;
    hide DecodeLen;
  }

  /** Flags of the first byte of a received packet. */
  lemma FlagsReceived(h: Byte)
    requires 48 <= h < 64
    ensures h == 48 + 8 * DupOf(h) + 2 * QosOf(h) + RetainOf(h) && DupOf(h) <= 1 && QosOf(h) <= 3 && RetainOf(h) <= 1
  {}

  /**
   * What is parsed from a packet with any flags: dup, QoS and retain from its first byte, a packet id behind
   * the topic for every QoS but 0, and the rest as payload.
   */
  lemma PacketParsed(h: Byte, topic: seq<Byte>, tail: seq<Byte>, rest: seq<Byte>, s: seq<Byte>, id: Uint16)
    requires 48 <= h < 64 && |topic| < 0x1_0000 && 2 + |topic| + |tail| < MAX_REMAINING
    requires QosOf(h) != 0 ==> |tail| >= 2
    requires s == [h] + EncodeLen(2 + |topic| + |tail|) + (EncodeUint16(|topic|) + topic + tail) + rest
    ensures var at, used := 3 + |EncodeLen(2 + |topic| + |tail|)|, if QosOf(h) != 0 then 2 else 0;
            Readable(s) &&
            ParsePublish(s, id) == Parsed(DupOf(h), QosOf(h), RetainOf(h),
                                          if QosOf(h) != 0 then DecodeUint16(tail[0], tail[1]) else id,
                                          at, |topic|, at + |topic| + used, |tail| - used)
  {
    var n, body := 2 + |topic| + |tail|, EncodeUint16(|topic|) + topic + tail;
    assert |body| == n;
    hide *;
    HeadParsed(h, n, body, rest, s);
    BodyParsed(s, 1 + |EncodeLen(n)|, topic, tail, id);
    ParseThroughBody(s, DecodeLen(s[1..], MAX_LENGTH_BYTES), id);
  }

  lemma HeadParsed(h: Byte, n: nat, body: seq<Byte>, rest: seq<Byte>, s: seq<Byte>)
    requires 48 <= h < 64 && |body| == n && 2 <= n < MAX_REMAINING && s == [h] + EncodeLen(n) + body + rest
    ensures |s| >= 4 && s[0] == h && TypeOf(h) == PUBLISH && At(s, 1 + |EncodeLen(n)|, body)
    ensures DecodeLen(s[1..], MAX_LENGTH_BYTES) == Done(n, |EncodeLen(n)|)
  {
    assert TypeOf(h) == PUBLISH;
    hide TypeOf, EncodeLen, DecodeLen, At;
    HeadAndBody(s, h, EncodeLen(n), body, rest);
    LengthRoundTrip(n, body + rest);
  }

  lemma BodyParsed(s: seq<Byte>, at: nat, topic: seq<Byte>, tail: seq<Byte>, id: Uint16)
    requires 0 < |s| && |topic| < 0x1_0000 && At(s, at, EncodeUint16(|topic|) + topic + tail)
    requires QosOf(s[0]) != 0 ==> |tail| >= 2
    ensures var end, used := at + 2 + |topic| + |tail|, if QosOf(s[0]) != 0 then 2 else 0;
            BodyReadable(s, at, end) &&
            ParseBody(s, at, end, id) ==
            Parsed(DupOf(s[0]), QosOf(s[0]), RetainOf(s[0]), if QosOf(s[0]) != 0 then DecodeUint16(tail[0], tail[1]) else id,
                   at + 2, |topic|, at + 2 + |topic| + used, |tail| - used)
  {
    assert |EncodeUint16(|topic|)| == 2;
    hide *;
    BodyParts(s, at, EncodeUint16(|topic|), topic, tail);
    AtUint16(s, at, |topic|);
    if QosOf(s[0]) != 0 { AtTwo(s, at + 2 + |topic|, tail); }
    ParsedBody(s, at, at + 2 + |topic| + |tail|, |topic|, id);
  }

  lemma BodyParts(s: seq<Byte>, p: nat, a: seq<Byte>, b: seq<Byte>, c: seq<Byte>)
    requires At(s, p, a + b + c)
    ensures p + |a| + |b| + |c| <= |s| && At(s, p, a) && At(s, p + |a|, b) && At(s, p + |a| + |b|, c)
  {
    AtSplit(s, p, a + b, c);
    AtSplit(s, p, a, b);
  }

  lemma AtTwo(s: seq<Byte>, p: nat, w: seq<Byte>)
    requires At(s, p, w) && |w| >= 2
    ensures p + 2 <= |s| && s[p] == w[0] && s[p + 1] == w[1]
  {
    assert s[p..p + |w|][0] == s[p] && s[p..p + |w|][1] == s[p + 1];
  }

  /** "hi" on the topic "a/b" with QoS 1 and packet id 258, then duplicated and retained, and with QoS 0. */
  lemma OnePacket()
    ensures var tail := [9, 0, 3, 97, 47, 98, 1, 2, 104, 105];
            && Packet(Message(0, 1, 0, 258, [97, 47, 98], [104, 105])) == [0x32] + tail
            && Packet(Message(1, 1, 0, 258, [97, 47, 98], [104, 105])) == [0x3A] + tail
            && Packet(Message(0, 1, 1, 258, [97, 47, 98], [104, 105])) == [0x33] + tail
    ensures Packet(Message(0, 0, 0, 258, [97, 47, 98], [104, 105])) == [0x30, 7, 0, 3, 97, 47, 98, 104, 105]
  {
    assert EncodeLen(9) == [9] && EncodeLen(7) == [7];
    assert EncodeUint16(258) == [1, 2] && EncodeUint16(3) == [0, 3];
    hide EncodeLen, EncodeUint16;
  }
}
