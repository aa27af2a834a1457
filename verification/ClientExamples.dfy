/** A message and an acknowledgement whose bytes meet in the read buffer. */
module ClientExamples {
  import opened Wire
  import opened ClientSpec
  import Publish
  import Acks
  import Topic

  /** A message on "a/b" with QoS 0, and a SUBACK whose granted QoS lands on the first byte of that topic. */
  const MESSAGE: seq<Byte> := [0x30, 5, 0, 3, 97, 47, 98]
  const SUBACK_PACKET: seq<Byte> := [0x90, 3, 0, 1, 0]
  const SPOILED: string := TextOf([0, 47, 98])

  lemma MessageParsed(memory: seq<Byte>)
    requires |memory| >= 16
    ensures Legal(memory, Read(SUCCESS, MESSAGE))
    ensures var m := Publish.ParsePublish(Overlay(memory, MESSAGE), 0);
            m.Parsed? && m.qos == 0 && m.topicAt == 4 && m.topicLen == 3
    ensures TextAt(Overlay(memory, MESSAGE), 4, 3) == "a/b"
    ensures Legal(Overlay(memory, MESSAGE), Read(SUCCESS, SUBACK_PACKET)) && Publish.TypeOf(SUBACK_PACKET[0]) == SUBACK
    ensures TextAt(Overlay(Overlay(memory, MESSAGE), SUBACK_PACKET), 4, 3) == SPOILED
  {
    var s := Overlay(memory, MESSAGE);
    assert s[1..][0] == 5;
    assert DecodeLen(s[1..], MAX_LENGTH_BYTES) == Done(5, 1);
    var t := Overlay(s, SUBACK_PACKET);
    assert t[4] == 0 && t[5] == s[5] && t[6] == s[6];
    hide DecodeLen;
    assert t[4..4 + 3] == [0, 47, 98];
  }

  lemma SpoiledTopicNotChosen()
    ensures Chosen(Handler("a/b", 1), "a/b") && !Chosen(Handler("a/b", 1), SPOILED)
  {
    assert Topic.Levels("a/b")[0] == "a";
    assert SPOILED == ['\0', '/', 'b'];
    assert Topic.Levels(SPOILED)[0] == ['\0'];
  }

  lemma SameFilterChosen(h: nat, h': nat, filter: string, text: string)
    ensures Chosen(Handler(filter, h), text) == Chosen(Handler(filter, h'), text)
  {}

  /**
   * A SUBACK for any packet id that carries the code 0x80, by which a server refuses the subscription, is a
   * success: the subscription is stored.
   */
  lemma RefusedSubscriptionSucceeds(memory: seq<Byte>, id: Uint16)
    requires |memory| >= 5
    ensures var s := Overlay(memory, Acks.AnswerPacket(0x90, id, [0x80]));
            Acks.Readable(s) && AnswerRc(SUBACK, s) == SUCCESS
  {
    Acks.SubackAcceptedIff(id, [0x80], memory[5..]);
    hide Acks.ParseSuback, Acks.Readable;
  }

  /** The code of a connect call for each return code of a CONNACK. */
  lemma ConnackCodes(memory: seq<Byte>, flags: Byte, code: Byte)
    requires |memory| >= 4
    ensures var s := Overlay(memory, [0x20, 2, flags, code]);
            Acks.Readable(s) && AnswerRc(CONNACK, s) == if code == 0 then 0 else if code <= 5 then -36 - code else -36
  {
    Acks.ConnackCode(flags, code, memory[4..]);
    hide Acks.ParseConnack, Acks.Readable;
  }

  /** A PUBACK for any packet id ends the wait of a publish with success: the id is not compared. */
  lemma AnyPubackSucceeds(memory: seq<Byte>, id: Uint16)
    requires |memory| >= 4
    ensures var s := Overlay(memory, Acks.AnswerPacket(0x40, id, []));
            Acks.Readable(s) && AnswerRc(PUBACK, s) == SUCCESS
  {
    Acks.AcksAccepted(id, memory[4..]);
    hide Acks.ParseAck, Acks.Readable;
  }

  /** Which calls a state lets through: connected states, states to connect from, and three with neither. */
  lemma StateKinds(s: ClientState)
    ensures Connected(s) <==>
            s !in {Invalid, Initialized, Connecting, Disconnecting, DisconnectedError, DisconnectedManually, PendingReconnect}
    ensures !Connected(s) && !ValidForConnect(s) <==> s in {Invalid, Connecting, Disconnecting}
    ensures Connected(s) ==> !ValidForConnect(s) && (MayCall(s) <==> s in {ConnectedIdle, WaitForCbReturn})
  {}
}
