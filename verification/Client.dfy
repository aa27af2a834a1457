/** The MQTT client: states, the calls that bracket them, message callbacks, and reconnecting. */
module Client {
  import opened Wire
  import opened ClientSpec
  import opened ClientExamples
  import Packet = Publish
  import Acks
  import Topic

  class Client {
    var state: ClientState
    var handlers: seq<Slot>
    var isPingOutstanding: bool
    var isAutoReconnectEnabled: bool
    /** currentReconnectWaitInterval, a 32-bit number that nothing initializes. */
    var interval: nat
    var nextPacketId: nat
    var disconnects: nat
    var readBuf: seq<Byte>
    ghost var trace: seq<Event>

    ghost predicate Valid()
      reads this
    {
      SlotsOk(handlers) && handlers == TableOf(trace) && readBuf == BufferOf(trace) && TraceOk(trace) &&
      interval < UINT32 && 1 <= nextPacketId <= MAX_PACKET_ID &&
      (FailedRounds(trace) >= 0 ==> FailedRounds(trace) <= 8 && interval == WaitAfter(FailedRounds(trace)))
    }

    /** What calls other than yield's own reconnecting leave alone; the trace only grows. */
    twostate predicate Steady()
      reads this
    {
      interval == old(interval) && disconnects == old(disconnects) &&
      isAutoReconnectEnabled == old(isAutoReconnectEnabled) &&
      old(trace) <= trace && FailedRounds(trace) == FailedRounds(old(trace)) && |readBuf| == |old(readBuf)|
    }

    constructor (autoReconnect: bool, uninitialized: nat, memory: seq<Byte>)
      requires uninitialized < UINT32
      ensures Valid() && state == Initialized && trace == [Started(memory)]
    {
      state := Initialized;
      handlers := seq(NUM_HANDLERS, _ => Free);
      isPingOutstanding := false;
      isAutoReconnectEnabled := autoReconnect;
      interval := uninitialized;
      nextPacketId := 1;
      disconnects := 0;
      readBuf := memory;
      trace := [Started(memory)];
      assert [Started(memory)][..0] == [];
    }

    ghost method RecordChange(e: Event)
      requires TraceOk(trace) && EventOk(trace, e) && (e.Stored? || e.Removed? || e.Lost? || e.RoundFailed?)
      modifies this`trace
      ensures TraceOk(trace) && trace == old(trace) + [e] && BufferOf(trace) == BufferOf(old(trace))
      ensures !e.Lost? && !e.RoundFailed? ==> FailedRounds(trace) == FailedRounds(old(trace))
      ensures e.Lost? ==> FailedRounds(trace) == 0
      ensures e.RoundFailed? ==>
                FailedRounds(trace) == FailedRounds(old(trace)) + if FailedRounds(old(trace)) >= 0 then 1 else 0
      ensures TableOf(trace) == match e
                                case Stored(index, slot) =>
                                  if index < NUM_HANDLERS then TableOf(old(trace))[index := slot] else TableOf(old(trace))
                                case Removed(filter) => Without(TableOf(old(trace)), filter)
                                case _ => TableOf(old(trace))
    {
      hide TraceOk, EventOk;
      TraceAppend(trace, e);
      assert (trace + [e])[..|trace|] == trace;
      trace := trace + [e];
    }

    ghost method Record(e: Event)
      requires Valid() && EventOk(trace, e) && Quiet(e)
      modifies this`trace
      ensures Valid() && trace == old(trace) + [e] && FailedRounds(trace) == FailedRounds(old(trace))
    {
      hide TraceOk, EventOk, Quiet, BufferOf, TableOf, FailedRounds, SlotsOk, WaitAfter;
      TraceAppend(trace, e);
      QuietAppend(trace, e);
      trace := trace + [e];
    }

    /** The bytes of a read appear at the buffer's start. */
    method TakeIn(read: Read)
      requires Valid() && |read.written| <= |readBuf|
      modifies this`readBuf, this`trace
      ensures Valid() && readBuf == Overlay(old(readBuf), read.written)
      ensures trace == old(trace) + [Received(read.rc, read.written)] && FailedRounds(trace) == FailedRounds(old(trace))
    {
      ReceivedAppend(trace, read.rc, read.written);
      hide TraceOk, EventOk, BufferOf, TableOf, FailedRounds, SlotsOk, WaitAfter;
      readBuf := Overlay(readBuf, read.written);
      trace := trace + [Received(read.rc, read.written)];
    }

    method SetState(expected: ClientState, next: ClientState) returns (rc: Rc)
      modifies this`state
      ensures rc == (if old(state) == expected then SUCCESS else UNEXPECTED_STATE)
      ensures state == (if old(state) == expected then next else old(state))
    {
      if expected == state {
        state := next;
        rc := SUCCESS;
      } else {
        rc := UNEXPECTED_STATE;
      }
    }

    method NextPacketId() returns (id: nat)
      modifies this`nextPacketId
      ensures id == nextPacketId == NextId(old(nextPacketId))
      ensures id == if old(nextPacketId) == 65535 then 1 else old(nextPacketId) + 1
    {
      nextPacketId := if nextPacketId == MAX_PACKET_ID then 1 else nextPacketId + 1;
      id := nextPacketId;
    }

    /** A packet is written to the network, which may fail; a packet that does not fit its buffer counts as one. */
    method SendPacket(packetType: nat, id: nat, topic: string) returns (rc: Rc)
      requires Valid()
      modifies this`trace
      ensures Valid() && FailedRounds(trace) == FailedRounds(old(trace))
      ensures rc in {SUCCESS, FAILURE, TX_BUFFER_TOO_SHORT} && trace == old(trace) + [Send(packetType, id, topic, rc)]
    {
      hide TraceOk, BufferOf, TableOf, FailedRounds, SlotsOk, WaitAfter;
      var sent, fits: bool := *, *;
      rc := if !fits then TX_BUFFER_TOO_SHORT else if sent then SUCCESS else FAILURE;
      Record(Send(packetType, id, topic, rc));
    }

    // ---- reading packets and running message handlers ----

    static predicate Accepted(api: Api) {
      api.Publishing? || api.Subscribing? || api.Unsubscribing?
    }

    /** A call that is refused inside a message handler. */
    method RefusedCall(api: Api, depth: nat) returns (rc: Rc)
      requires Valid() && state == WaitForCbReturn && !Accepted(api)
      modifies this
      ensures Valid() && state == WaitForCbReturn && Steady()
      ensures api == Yielding ==> rc == NOT_IDLE || rc == NULL_VALUE
      ensures api == Resubscribing ==> rc == NOT_IDLE
      ensures api in {ConnectAttempt, ReconnectAttempt} ==> rc == ALREADY_CONNECTED
      decreases depth, 12
    {
      hide TraceOk, BufferOf, TableOf, FailedRounds, SlotsOk, WaitAfter, FirstFree, ResentAt;
      if api == Resubscribing {
        ghost var marks;
        rc, marks := Resubscribe(depth);
      } else if api == ConnectAttempt {
        var prepared: Rc := *;
        rc := Connect(prepared, depth);
      } else if api == ReconnectAttempt {
        var prepared: Rc := *;
        ghost var resubscribed, connected, marks;
        rc, resubscribed, connected, marks := AttemptReconnect(prepared, depth);
      } else {
        var timeoutMs: nat := *;
        ghost var lastRead, lastState;
        rc, lastRead, lastState := Yield(timeoutMs, depth);
      }
    }

    /** A call that is accepted inside a message handler. */
    method AcceptedCall(api: Api, depth: nat) returns (rc: Rc)
      requires Valid() && state == WaitForCbReturn && Accepted(api)
      modifies this
      ensures Valid() && state == WaitForCbReturn && Steady()
      decreases depth, 12
    {
      assert Topic.WellFormed("#");
      hide TraceOk, BufferOf, TableOf, FailedRounds, SlotsOk, WaitAfter, FirstFree, Topic.WellFormed;
      var topic: string := *;
      if api == Publishing {
        var qos1: bool := *;
        rc := Publish(qos1, topic, depth);
      } else if api == Subscribing {
        var handler: nat := *;
        if !Topic.WellFormed(topic) { topic := "#"; }
        rc := Subscribe(topic, handler, depth);
      } else {
        rc := Unsubscribe(topic, depth);
      }
    }

    /** One call of the client from inside a message handler. */
    method CallBack(depth: nat)
      requires Valid() && state == WaitForCbReturn
      modifies this
      ensures Valid() && state == WaitForCbReturn && Steady()
      decreases depth, 13
    {
      hide TraceOk, BufferOf, TableOf, FailedRounds, SlotsOk, WaitAfter;
      var api: Api := *;
      var before, rc := state, SUCCESS;
      if Accepted(api) {
        rc := AcceptedCall(api, depth);
      } else {
        rc := RefusedCall(api, depth);
      }
      Record(HandlerCall(api, before, state, rc));
    }

    /** What an application's message handler may do: any calls but disconnecting and switching reconnecting on or off. */
    method RunHandler(id: nat, ghost text: string, depth: nat)
      requires Valid() && state == WaitForCbReturn && EventOk(trace, Ran(id, text))
      modifies this
      ensures Valid() && state == WaitForCbReturn && Steady() && old(trace) + [Ran(id, text)] <= trace
      ensures depth == 0 ==>
                handlers == old(handlers) && readBuf == old(readBuf) && trace == old(trace) + [Ran(id, text)]
      decreases depth, 0
    {
      hide TraceOk, EventOk, BufferOf, TableOf, FailedRounds, SlotsOk, WaitAfter;
      Record(Ran(id, text));
      if depth == 0 { return; }
      var calls: nat := *;
      while calls > 0
        invariant Valid() && state == WaitForCbReturn && Steady() && old(trace) + [Ran(id, text)] <= trace
        decreases calls
      {
        calls := calls - 1;
        CallBack(depth - 1);
      }
    }

    /**
     * One slot of the table is compared with what lies where the message's topic lay, and its handler
     * runs exactly when it is chosen.
     */
    method DeliverToSlot(itr: nat, at: nat, len: nat, depth: nat)
      requires itr < NUM_HANDLERS && at + len <= |readBuf| && Valid() && state == WaitForCbReturn
      modifies this
      ensures Valid() && state == WaitForCbReturn && Steady()
      ensures SlotDelivered(trace, itr, |old(trace)|, |trace|, at, len)
      ensures depth == 0 ==>
                handlers == old(handlers) && readBuf == old(readBuf) &&
                trace == old(trace) + SlotEvents(itr, old(handlers)[itr], TextAt(old(readBuf), at, len))
      decreases depth, 1
    {
      hide TraceOk, BufferOf, TableOf, FailedRounds, WaitAfter, TextAt, Topic.WellFormed, Selected;
      var name := TextAt(readBuf, at, len);
      ghost var past := trace;
      Record(Visit(itr, handlers[itr], name));
      if handlers[itr].Handler? {
        var slot := handlers[itr];
        var matched := Matches(slot.filter, name);
        if matched { RunHandler(slot.handler, name, depth); }
      }
      assert trace[..|past|] == past;
    }

    static method Matches(filter: string, name: string) returns (matched: bool)
      requires Topic.WellFormed(filter)
      ensures matched <==> Selected(filter, name)
    {
      hide Topic.WellFormed, Topic.ClientMatch, Topic.Levels;
      matched := name == filter;
      if !matched { matched := Topic.IsTopicMatched(filter, name); }
    }

    /** Every slot is looked at in turn, and its handler runs exactly when it is chosen. */
    method Deliver(at: nat, len: nat, depth: nat) returns (rc: Rc, ghost marks: seq<nat>)
      requires Valid() && at + len <= |readBuf|
      modifies this
      ensures Valid() && state == old(state) && Steady() && rc == SUCCESS
      ensures |marks| == NUM_HANDLERS && Delivered(trace, |old(trace)|, marks, at, len)
      ensures depth == 0 ==>
                handlers == old(handlers) && readBuf == old(readBuf) &&
                trace == old(trace) + Deliveries(old(handlers), NUM_HANDLERS, TextAt(old(readBuf), at, len))
      decreases depth, 2
    {
      hide TraceOk, BufferOf, TableOf, FailedRounds, SlotsOk, WaitAfter, TextAt, SlotEvents, SlotDelivered;
      var clientState := state;
      rc := SetState(clientState, WaitForCbReturn);
      marks := [];
      for itr := 0 to NUM_HANDLERS
        invariant Valid() && state == WaitForCbReturn && Steady()
        invariant |marks| == itr && Delivered(trace, |old(trace)|, marks, at, len)
        invariant depth == 0 ==>
                    handlers == old(handlers) && readBuf == old(readBuf) &&
                    trace == old(trace) + Deliveries(old(handlers), itr, TextAt(old(readBuf), at, len))
      {
        ghost var before := trace;
        DeliverToSlot(itr, at, len, depth);
        DeliveredMore(before, trace, |old(trace)|, marks, at, len);
        marks := marks + [|before|];
      }
      rc := SetState(WaitForCbReturn, clientState);
    }

    method HandleMessage(m: Packet.Parsed, depth: nat) returns (rc: Rc, ghost marks: seq<nat>)
      requires Valid() && m.Parsed? && m.topicAt + m.topicLen <= |readBuf|
      modifies this
      ensures Valid() && state == old(state) && Steady() && Handled(trace, |old(trace)|, marks, m, rc)
      ensures rc in {SUCCESS, FAILURE, TX_BUFFER_TOO_SHORT}
      ensures depth == 0 ==>
                handlers == old(handlers) && readBuf == old(readBuf) &&
                trace == old(trace) +
                         Deliveries(old(handlers), NUM_HANDLERS, TextAt(old(readBuf), m.topicAt, m.topicLen)) +
                         if m.qos > 0 then [Send(PUBACK, m.packetId, "", rc)] else []
      decreases depth, 3
    {
      hide TraceOk, BufferOf, TableOf, FailedRounds, SlotsOk, WaitAfter, TextAt, Delivered, Deliveries;
      rc, marks := Deliver(m.topicAt, m.topicLen, depth);
      if rc != SUCCESS { return; }
      if m.qos == 0 { return; }
      ghost var delivered := trace;
      rc := SendPacket(PUBACK, m.packetId, "");
      assert trace[..|trace| - 1] == delivered;
    }

    /**
     * The message in the buffer is delivered and then, when its QoS is above 0, answered by a PUBACK; one
     * that does not parse is dropped.
     */
    method HandlePublish(depth: nat) returns (rc: Rc, ghost marks: seq<nat>)
      requires Valid() && Packet.Readable(readBuf)
      modifies this
      ensures Valid() && state == old(state) && Steady()
      ensures var m := Packet.ParsePublish(old(readBuf), 0);
              if m.Parsed? then Handled(trace, |old(trace)|, marks, m, rc)
              else rc == CodeOf(m.status) && handlers == old(handlers) && readBuf == old(readBuf) && trace == old(trace)
      ensures rc != DISCONNECTED
      ensures depth == 0 ==> handlers == old(handlers) && readBuf == old(readBuf)
      ensures var m := Packet.ParsePublish(old(readBuf), 0);
              depth == 0 && m.Parsed? ==>
                m.topicAt + m.topicLen <= |old(readBuf)| &&
                trace == old(trace) +
                         Deliveries(old(handlers), NUM_HANDLERS, TextAt(old(readBuf), m.topicAt, m.topicLen)) +
                         if m.qos > 0 then [Send(PUBACK, m.packetId, "", rc)] else []
      decreases depth, 4, 0
    {
      var m := Packet.ParsePublish(readBuf, 0);
      hide TraceOk, BufferOf, TableOf, FailedRounds, SlotsOk, WaitAfter, TextAt, Handled, Deliveries,
        Packet.ParsePublish, Packet.Readable;
      marks := [];
      if m.Refused? { return CodeOf(m.status), marks; }
      Packet.TopicInside(readBuf, 0);
      rc, marks := HandleMessage(m, depth);
    }

    /** One packet, or none; acknowledgements are left to the caller through the packet type. */
    method CycleRead(read: Read, lastType: int, depth: nat) returns (rc: Rc, packetType: int, ghost marks: seq<nat>)
      requires Valid() && Legal(readBuf, read)
      modifies this
      ensures Valid() && state == old(state) && Steady() && old(trace) + [Received(read.rc, read.written)] <= trace
      ensures packetType == if read.rc != SUCCESS then lastType else Packet.TypeOf(read.written[0])
      ensures read.rc != SUCCESS ==>
                rc == (if read.rc == NOTHING_TO_READ then SUCCESS else read.rc) &&
                isPingOutstanding == old(isPingOutstanding)
      ensures read.rc == SUCCESS && packetType == PUBLISH ==>
                var m := Packet.ParsePublish(Overlay(old(readBuf), read.written), 0);
                if m.Parsed? then Handled(trace, |old(trace)| + 1, marks, m, rc)
                else rc == CodeOf(m.status) && trace == old(trace) + [Received(read.rc, read.written)]
      ensures read.rc != SUCCESS || packetType != PUBLISH ==>
                handlers == old(handlers) && readBuf == Overlay(old(readBuf), read.written) &&
                trace == old(trace) + [Received(read.rc, read.written)]
      ensures read.rc == SUCCESS && packetType != PUBLISH ==>
                rc == if packetType in {CONNACK, PUBACK, SUBACK, UNSUBACK, PUBREC, PUBCOMP, PINGRESP} then SUCCESS
                      else PACKET_TYPE_INVALID
      ensures read.rc == SUCCESS && packetType == PINGRESP ==> !isPingOutstanding
      ensures rc == DISCONNECTED <==> read.rc == DISCONNECTED
      ensures depth == 0 ==> handlers == old(handlers)
      decreases depth, 4, 1
    {
      hide TraceOk, BufferOf, TableOf, FailedRounds, SlotsOk, WaitAfter, Handled, Packet.ParsePublish, Packet.Readable,
        Packet.TypeOf;
      rc, packetType, marks := read.rc, lastType, [];
      TakeIn(read);
      if rc == NOTHING_TO_READ { return SUCCESS, packetType, marks; }
      if rc != SUCCESS { return; }
      packetType := Packet.TypeOf(readBuf[0]);
      if packetType in {CONNACK, PUBACK, SUBACK, UNSUBACK, PUBREC, PUBCOMP} {
      } else if packetType == PUBLISH {
        rc, marks := HandlePublish(depth);
      } else if packetType == PINGRESP {
        isPingOutstanding := false;
      } else {
        rc := PACKET_TYPE_INVALID;
      }
    }

    /** Anything the network may give. */
    method AnyRead() returns (read: Read)
      ensures Legal(readBuf, read)
    {
      read := *;
      if !Legal(readBuf, read) { read := Read(NOTHING_TO_READ, []); }
    }

    /**
     * Reads until the expected packet arrives, the network is gone or the timer, here a number of ticks,
     * runs out. A success means that the packet is in the buffer.
     */
    method WaitForRead(expected: nat, depth: nat) returns (rc: Rc)
      requires Valid() && expected in ANSWERS
      modifies this
      ensures Valid() && state == old(state) && Steady() && |old(trace)| < |trace|
      ensures Waited(trace, expected, rc)
      ensures depth == 0 ==> handlers == old(handlers)
      decreases depth, 5
    {
      hide TraceOk, BufferOf, TableOf, FailedRounds, SlotsOk, WaitAfter, Handled, Legal, Packet.ParsePublish,
        Packet.TypeOf, Acks.Readable;
      var ticks: nat := *;
      var readType := 0;
      rc := SUCCESS;
      var again := true;
      while again
        invariant Valid() && state == old(state) && Steady()
        invariant if again then readType != expected else |old(trace)| < |trace| && Waited(trace, expected, rc)
        invariant !again ==> rc == DISCONNECTED || readType == expected
        invariant depth == 0 ==> handlers == old(handlers)
        decreases ticks, again
      {
        if ticks == 0 {
          rc := REQUEST_TIMEOUT;
          Record(Expired);
          break;
        }
        ticks := ticks - 1;
        var read := AnyRead();
        AnswerReadable(readBuf, read);
        ghost var marks;
        rc, readType, marks := CycleRead(read, readType, depth);
        again := rc != DISCONNECTED && readType != expected;
      }
      if rc != REQUEST_TIMEOUT && rc != DISCONNECTED && readType != expected { return FAILURE; }
    }

    // ---- publish, subscribe, unsubscribe, resubscribe ----

    /** The packet is sent, and for QoS 1 its acknowledgement awaited; the id in that is not looked at. */
    method InternalPublish(qos1: bool, topic: string, depth: nat) returns (rc: Rc)
      requires Valid()
      modifies this
      ensures Valid() && state == old(state) && Steady()
      ensures Published(old(trace), trace, qos1, NextId(old(nextPacketId)), topic, rc)
      decreases depth, 6
    {
      hide TraceOk, BufferOf, TableOf, FailedRounds, SlotsOk, WaitAfter, ReadLast, Acks.Readable, AnswerRc;
      var id := 0;
      if qos1 { id := NextPacketId(); }
      rc := SendPacket(PUBLISH, id, topic);
      if rc != SUCCESS { return; }
      if qos1 {
        rc := WaitForRead(PUBACK, depth);
        if rc != SUCCESS { return; }
        rc := AnswerRc(PUBACK, readBuf);
      }
    }

    /** Accepted only between calls or inside a handler, and back in the same state whatever happens. */
    method Publish(qos1: bool, topic: string, depth: nat) returns (rc: Rc)
      requires Valid()
      modifies this
      ensures Valid() && state == old(state) && Steady()
      ensures !Connected(old(state)) ==> rc == DISCONNECTED && trace == old(trace)
      ensures Connected(old(state)) && !MayCall(old(state)) ==> rc == NOT_IDLE && trace == old(trace)
      ensures MayCall(old(state)) ==> Published(old(trace), trace, qos1, NextId(old(nextPacketId)), topic, rc)
      ensures rc == SUCCESS && qos1 ==> ReadLast(trace, PUBACK)
      decreases depth, 7
    {
      hide TraceOk, BufferOf, TableOf, FailedRounds, SlotsOk, WaitAfter, ReadLast, Acks.Readable, AnswerRc;
      if !Connected(state) { return DISCONNECTED; }
      var clientState := state;
      if clientState != ConnectedIdle && clientState != WaitForCbReturn { return NOT_IDLE; }
      rc := SetState(clientState, PublishInProgress);
      if rc != SUCCESS { return; }
      var pubRc := InternalPublish(qos1, topic, depth);
      rc := SetState(PublishInProgress, clientState);
      if pubRc == SUCCESS && rc != SUCCESS { pubRc := rc; }
      return pubRc;
    }

    method FreeIndex() returns (i: nat)
      requires Valid()
      ensures i == FirstFree(handlers)
    {
      i := 0;
      ghost var rest := handlers;
      while i < NUM_HANDLERS && handlers[i].Handler?
        invariant i <= NUM_HANDLERS && rest == handlers[i..] && FirstFree(handlers) == i + FirstFree(rest)
      {
        rest := rest[1..];
        i := i + 1;
      }
    }

    method Store(index: nat, slot: Slot)
      requires Valid() && index < NUM_HANDLERS && slot.Handler? && Topic.WellFormed(slot.filter)
      modifies this`handlers, this`trace
      ensures Valid() && handlers == old(handlers)[index := slot] && trace == old(trace) + [Stored(index, slot)]
      ensures FailedRounds(trace) == FailedRounds(old(trace))
    {
      hide TraceOk, BufferOf, TableOf, FailedRounds, WaitAfter, Topic.WellFormed;
      handlers := handlers[index := slot];
      RecordChange(Stored(index, slot));
    }

    /** The slot is chosen before the acknowledgement is awaited and written after it. */
    method InternalSubscribe(topic: string, handler: nat, depth: nat) returns (rc: Rc)
      requires Valid() && Topic.WellFormed(topic)
      modifies this
      ensures Valid() && state == old(state) && Steady()
      ensures FirstFree(old(handlers)) == NUM_HANDLERS ==> rc != SUCCESS && handlers == old(handlers)
      ensures rc == SUCCESS ==>
                StoredLast(trace, FirstFree(old(handlers)), Handler(topic, handler)) && |old(trace)| < |trace| &&
                handlers == TableOf(trace[..|trace| - 1])[FirstFree(old(handlers)) := Handler(topic, handler)]
      ensures rc == SUCCESS && depth == 0 ==>
                handlers == old(handlers)[FirstFree(old(handlers)) := Handler(topic, handler)]
      ensures Subscribed(old(trace), trace, old(handlers), NextId(old(nextPacketId)), topic, handler, rc)
      decreases depth, 6
    {
      hide TraceOk, BufferOf, TableOf, FailedRounds, WaitAfter, Topic.WellFormed, FirstFree, ReadLast, Acks.Readable,
        AnswerRc;
      var id := NextPacketId();
      var fits: bool := *;
      if !fits {
        Record(Send(SUBSCRIBE, id, topic, TX_BUFFER_TOO_SHORT));
        return TX_BUFFER_TOO_SHORT;
      }
      var index := FreeIndex();
      if NUM_HANDLERS <= index { return MAX_SUBSCRIPTIONS_REACHED; }
      rc := SendPacket(SUBSCRIBE, id, topic);
      if rc != SUCCESS { return; }
      rc := WaitForRead(SUBACK, depth);
      if rc != SUCCESS { return; }
      rc := AnswerRc(SUBACK, readBuf);
      if rc != SUCCESS { return; }
      ghost var waited := trace;
      Store(index, Handler(topic, handler));
      assert trace[..|trace| - 1] == waited;
    }

    /** Accepted only between calls or inside a handler, and back in the same state whatever happens. */
    method Subscribe(topic: string, handler: nat, depth: nat) returns (rc: Rc)
      requires Valid() && Topic.WellFormed(topic)
      modifies this
      ensures Valid() && state == old(state) && Steady()
      ensures !Connected(old(state)) ==> rc == DISCONNECTED && handlers == old(handlers) && trace == old(trace)
      ensures Connected(old(state)) && !MayCall(old(state)) ==>
                rc == NOT_IDLE && handlers == old(handlers) && trace == old(trace)
      ensures rc == SUCCESS ==>
                StoredLast(trace, FirstFree(old(handlers)), Handler(topic, handler)) && |old(trace)| < |trace| &&
                handlers == TableOf(trace[..|trace| - 1])[FirstFree(old(handlers)) := Handler(topic, handler)]
      ensures rc == SUCCESS && depth == 0 ==>
                handlers == old(handlers)[FirstFree(old(handlers)) := Handler(topic, handler)]
      ensures MayCall(old(state)) ==>
                Subscribed(old(trace), trace, old(handlers), NextId(old(nextPacketId)), topic, handler, rc)
      decreases depth, 7
    {
      hide TraceOk, BufferOf, TableOf, FailedRounds, WaitAfter, Topic.WellFormed, FirstFree, Subscribed;
      if !Connected(state) { return DISCONNECTED; }
      var clientState := state;
      if clientState != ConnectedIdle && clientState != WaitForCbReturn { return NOT_IDLE; }
      rc := SetState(clientState, SubscribeInProgress);
      if rc != SUCCESS { return; }
      var subRc := InternalSubscribe(topic, handler, depth);
      rc := SetState(SubscribeInProgress, clientState);
      if subRc == SUCCESS && rc != SUCCESS { subRc := rc; }
      return subRc;
    }

    method HasSubscription(filter: string) returns (found: bool)
      requires |handlers| == NUM_HANDLERS
      ensures found <==> Holds(handlers, filter)
    {
      found := false;
      for i := 0 to NUM_HANDLERS
        invariant found <==> exists k :: 0 <= k < i && handlers[k].Handler? && handlers[k].filter == filter
      {
        if handlers[i].Handler? && handlers[i].filter == filter { found := true; }
      }
    }

    method RemoveHandlers(filter: string)
      requires |handlers| == NUM_HANDLERS
      modifies this`handlers
      ensures handlers == Without(old(handlers), filter)
    {
      for i := 0 to NUM_HANDLERS
        invariant |handlers| == NUM_HANDLERS
        invariant forall k :: 0 <= k < i ==> handlers[k] == Without(old(handlers), filter)[k]
        invariant forall k :: i <= k < NUM_HANDLERS ==> handlers[k] == old(handlers)[k]
      {
        if handlers[i].Handler? && handlers[i].filter == filter {
          handlers := handlers[i := Free];
        }
      }
    }

    method InternalUnsubscribe(filter: string, depth: nat) returns (rc: Rc)
      requires Valid()
      modifies this
      ensures Valid() && state == old(state) && Steady()
      ensures if Holds(old(handlers), filter)
              then Unsubscribed(old(trace), trace, NextId(old(nextPacketId)), filter, rc)
              else rc == FAILURE && handlers == old(handlers) && trace == old(trace)
      ensures rc == SUCCESS ==>
                |old(trace)| < |trace| && trace[|trace| - 1] == Removed(filter) &&
                handlers == Without(TableOf(trace[..|trace| - 1]), filter)
      ensures rc == SUCCESS && depth == 0 ==> handlers == Without(old(handlers), filter)
      decreases depth, 6
    {
      hide TraceOk, BufferOf, TableOf, FailedRounds, WaitAfter, Topic.WellFormed, ReadLast, Acks.Readable, AnswerRc;
      var found := HasSubscription(filter);
      if !found { return FAILURE; }
      var id := NextPacketId();
      rc := SendPacket(UNSUBSCRIBE, id, filter);
      if rc != SUCCESS { return; }
      rc := WaitForRead(UNSUBACK, depth);
      if rc != SUCCESS { return; }
      rc := AnswerRc(UNSUBACK, readBuf);
      if rc != SUCCESS { return; }
      ghost var waited := trace;
      RemoveHandlers(filter);
      RecordChange(Removed(filter));
      assert trace[..|trace| - 1] == waited;
    }

    /** Accepted only between calls or inside a handler, and back in the same state whatever happens. */
    method Unsubscribe(filter: string, depth: nat) returns (rc: Rc)
      requires Valid()
      modifies this
      ensures Valid() && state == old(state) && Steady()
      ensures !Connected(old(state)) ==> rc == DISCONNECTED && handlers == old(handlers) && trace == old(trace)
      ensures Connected(old(state)) && !MayCall(old(state)) ==>
                rc == NOT_IDLE && handlers == old(handlers) && trace == old(trace)
      ensures rc == SUCCESS ==>
                |old(trace)| < |trace| && trace[|trace| - 1] == Removed(filter) &&
                handlers == Without(TableOf(trace[..|trace| - 1]), filter)
      ensures rc == SUCCESS && depth == 0 ==> handlers == Without(old(handlers), filter)
      ensures MayCall(old(state)) && Holds(old(handlers), filter) ==>
                Unsubscribed(old(trace), trace, NextId(old(nextPacketId)), filter, rc)
      ensures MayCall(old(state)) && !Holds(old(handlers), filter) ==> rc == FAILURE && trace == old(trace)
      decreases depth, 7
    {
      hide TraceOk, BufferOf, TableOf, FailedRounds, WaitAfter, Topic.WellFormed, Unsubscribed, Without, Holds;
      if !Connected(state) { return DISCONNECTED; }
      var clientState := state;
      if clientState != ConnectedIdle && clientState != WaitForCbReturn { return NOT_IDLE; }
      rc := SetState(clientState, UnsubscribeInProgress);
      if rc != SUCCESS { return; }
      var unsubRc := InternalUnsubscribe(filter, depth);
      rc := SetState(UnsubscribeInProgress, clientState);
      if unsubRc == SUCCESS && rc != SUCCESS { unsubRc := rc; }
      return unsubRc;
    }

    /** The subscription of one slot is requested again, whatever the slot holds by then. */
    method RequestAgain(itr: nat, depth: nat) returns (rc: Rc)
      requires Valid() && itr < NUM_HANDLERS
      modifies this
      ensures Valid() && state == old(state) && Steady()
      ensures |old(trace)| < |trace| && trace[|old(trace)|] == Resent(itr, old(handlers)[itr])
      ensures SlotRequested(trace, |old(trace)|, |trace|, rc) && rc != RECONNECTED
      ensures depth == 0 ==> handlers == old(handlers)
      decreases depth, 6
    {
      hide TraceOk, BufferOf, TableOf, FailedRounds, SlotsOk, WaitAfter, ReadLast, Acks.Readable, AnswerRc;
      var id := NextPacketId();
      var slot := handlers[itr];
      Record(Resent(itr, slot));
      ghost var past := trace;
      rc := SendPacket(SUBSCRIBE, id, FilterOf(slot));
      if rc == SUCCESS {
        rc := WaitForRead(SUBACK, depth);
        if rc == SUCCESS { rc := AnswerRc(SUBACK, readBuf); }
      }
      assert Exchange(past, trace, SUBSCRIBE, id, FilterOf(slot), SUBACK, rc);
      assert trace[..|past|] == past && trace[..|trace|] == trace;
    }

    /**
     * The subscriptions before the first free slot are requested again in order, up to the first
     * request that fails; a success has requested all of those.
     */
    method InternalResubscribe(depth: nat) returns (rc: Rc, ghost marks: seq<nat>)
      requires Valid()
      modifies this
      ensures Valid() && state == old(state) && Steady() && ResentAt(trace, marks)
      ensures Requested(trace, |old(trace)|, marks, rc) && (rc != SUCCESS ==> marks != []) && rc != RECONNECTED
      ensures |marks| <= FirstFree(old(handlers)) && (rc == SUCCESS ==> |marks| == FirstFree(old(handlers)))
      ensures depth == 0 ==> handlers == old(handlers) && ResentFrom(trace, marks, old(handlers))
      decreases depth, 7, 0
    {
      hide TraceOk, BufferOf, TableOf, FailedRounds, SlotsOk, WaitAfter, FirstFree, ResentAt, SlotRequested;
      ResentNone(trace);
      var count := FreeIndex();
      rc, marks := SUCCESS, [];
      var itr := 0;
      while itr < count
        invariant itr == |marks| <= count && Valid() && state == old(state) && Steady() && rc == SUCCESS
        invariant ResentAt(trace, marks) && Requested(trace, |old(trace)|, marks, SUCCESS)
        invariant depth == 0 ==> handlers == old(handlers) && ResentFrom(trace, marks, old(handlers))
      {
        ghost var before := trace;
        rc := RequestAgain(itr, depth);
        ResentMore(before, trace, marks);
        RequestedMore(before, trace, |old(trace)|, marks, rc);
        marks := marks + [|before|];
        if rc != SUCCESS { return; }
        itr := itr + 1;
      }
    }

    /** Accepted only between calls, and back there whatever happens. */
    method Resubscribe(depth: nat) returns (rc: Rc, ghost marks: seq<nat>)
      requires Valid()
      modifies this
      ensures Valid() && state == old(state) && Steady() && ResentAt(trace, marks) && rc != RECONNECTED
      ensures !Connected(old(state)) ==> rc == DISCONNECTED && trace == old(trace)
      ensures Connected(old(state)) && old(state) != ConnectedIdle ==> rc == NOT_IDLE && trace == old(trace)
      ensures old(state) == ConnectedIdle ==>
                Requested(trace, |old(trace)|, marks, rc) && (rc != SUCCESS ==> marks != [])
      ensures |marks| <= FirstFree(old(handlers)) && (rc == SUCCESS ==> |marks| == FirstFree(old(handlers)))
      ensures depth == 0 ==> handlers == old(handlers) && ResentFrom(trace, marks, old(handlers))
      decreases depth, 7, 1
    {
      hide TraceOk, BufferOf, TableOf, FailedRounds, SlotsOk, WaitAfter, FirstFree, Requested;
      marks := [];
      if !Connected(state) { return DISCONNECTED, marks; }
      if state != ConnectedIdle { return NOT_IDLE, marks; }
      rc := SetState(ConnectedIdle, ResubscribeInProgress);
      if rc != SUCCESS { return; }
      var resubRc;
      resubRc, marks := InternalResubscribe(depth);
      rc := SetState(ResubscribeInProgress, ConnectedIdle);
      if resubRc == SUCCESS && rc != SUCCESS { resubRc := rc; }
      return resubRc, marks;
    }

    // ---- connect, disconnect, reconnect ----

    /** `prepared` is the code of everything before the CONNECT packet is sent: parameters, network and serializer. */
    method InternalConnect(prepared: Rc, depth: nat) returns (rc: Rc)
      requires Valid()
      modifies this
      ensures Valid() && state == old(state) && Steady()
      ensures prepared != SUCCESS ==> rc == prepared && trace == old(trace)
      ensures prepared == SUCCESS ==> Exchange(old(trace), trace, CONNECT, 0, "", CONNACK, rc)
      ensures rc == SUCCESS ==> !isPingOutstanding
      ensures depth == 0 ==> handlers == old(handlers)
      decreases depth, 6
    {
      hide TraceOk, BufferOf, TableOf, FailedRounds, SlotsOk, WaitAfter, ReadLast, Acks.Readable, AnswerRc;
      if prepared != SUCCESS { return prepared; }
      rc := SendPacket(CONNECT, 0, "");
      if rc != SUCCESS { return; }
      rc := WaitForRead(CONNACK, depth);
      if rc != SUCCESS { return; }
      rc := AnswerRc(CONNACK, readBuf);
      if rc != SUCCESS { return; }
      isPingOutstanding := false;
    }

    /** Connecting ends idle on success and in the error state otherwise. */
    method Connect(prepared: Rc, depth: nat) returns (rc: Rc)
      requires Valid()
      modifies this
      ensures Valid() && Steady()
      ensures !ValidForConnect(old(state)) ==> rc == ALREADY_CONNECTED && state == old(state) && trace == old(trace)
      ensures ValidForConnect(old(state)) ==>
                state == if rc == SUCCESS then ConnectedIdle else DisconnectedError
      ensures ValidForConnect(old(state)) ==>
                if prepared != SUCCESS then rc == prepared && trace == old(trace)
                else Exchange(old(trace), trace, CONNECT, 0, "", CONNACK, rc)
      ensures ValidForConnect(old(state)) && rc == SUCCESS ==> !isPingOutstanding
      ensures depth == 0 ==> handlers == old(handlers)
      decreases depth, 7
    {
      hide TraceOk, BufferOf, TableOf, FailedRounds, SlotsOk, WaitAfter, Exchange;
      var clientState := state;
      if !ValidForConnect(clientState) { return ALREADY_CONNECTED; }
      var setRc := SetState(clientState, Connecting);
      rc := InternalConnect(prepared, depth);
      if rc != SUCCESS {
        setRc := SetState(Connecting, DisconnectedError);
      } else {
        setRc := SetState(Connecting, ConnectedIdle);
      }
    }

    /** `destroyed` says that the network gives up its connection without an error. */
    method Disconnect(destroyed: bool) returns (rc: Rc)
      requires Valid()
      modifies this`state, this`trace
      ensures Valid() && FailedRounds(trace) == FailedRounds(old(trace))
      ensures !Connected(old(state)) ==> rc == DISCONNECTED && state == old(state) && trace == old(trace)
      ensures Connected(old(state)) ==>
                state == (if rc == SUCCESS then DisconnectedManually else old(state)) &&
                LeaveSent(old(trace), trace) &&
                rc == if trace[|old(trace)|].rc == SUCCESS && !destroyed then FAILURE else trace[|old(trace)|].rc
    {
      hide TraceOk, BufferOf, TableOf, FailedRounds, SlotsOk, WaitAfter;
      var clientState := state;
      if !Connected(state) { return DISCONNECTED; }
      rc := SetState(clientState, Disconnecting);
      if rc != SUCCESS { return; }
      rc := SendPacket(DISCONNECT, 0, "");
      if rc == SUCCESS && !destroyed { rc := FAILURE; }
      if rc != SUCCESS {
        state := clientState;
      } else {
        state := DisconnectedManually;
      }
    }

    /**
     * One attempt with the last parameters. One that does not connect leaves the client pending, and
     * one that does requests the subscriptions again; `connected` is where the history stands in between.
     */
    method AttemptReconnect(prepared: Rc, depth: nat)
      returns (rc: Rc, ghost resubscribed: bool, ghost connected: nat, ghost marks: seq<nat>)
      requires Valid()
      modifies this
      ensures Valid() && Steady()
      ensures Connected(old(state)) ==> rc == ALREADY_CONNECTED && state == old(state) && trace == old(trace)
      ensures !Connected(old(state)) && !ValidForConnect(old(state)) ==>
                rc == ATTEMPTING_RECONNECT && state == old(state) && trace == old(trace)
      ensures ValidForConnect(old(state)) ==>
                (state == PendingReconnect && rc == ATTEMPTING_RECONNECT) || state == ConnectedIdle
      ensures ValidForConnect(old(state)) && state == PendingReconnect ==>
                Attempted(old(trace), trace, prepared, false)
      ensures ValidForConnect(old(state)) && state == ConnectedIdle ==>
                |old(trace)| <= connected <= |trace| && Attempted(old(trace), trace[..connected], prepared, true) &&
                Requested(trace, connected, marks, if resubscribed then SUCCESS else rc) && ResentAt(trace, marks)
      ensures ValidForConnect(old(state)) && state == ConnectedIdle ==>
                |marks| <= FirstFree(TableOf(trace[..connected])) &&
                if resubscribed then rc == RECONNECTED && |marks| == FirstFree(TableOf(trace[..connected]))
                else rc != SUCCESS && |marks| > 0
      ensures (rc == RECONNECTED <==> resubscribed) && (rc == RECONNECTED ==> state == ConnectedIdle)
      ensures resubscribed && depth == 0 ==>
                |marks| == FirstFree(old(handlers)) && ResentFrom(trace, marks, old(handlers))
      decreases depth, 8
    {
      hide TraceOk, BufferOf, TableOf, FailedRounds, SlotsOk, WaitAfter, FirstFree, Exchange, Requested;
      resubscribed, connected, marks := false, |trace|, [];
      if Connected(state) { return ALREADY_CONNECTED, false, connected, marks; }
      rc := Connect(prepared, depth);
      if state != ConnectedIdle {
        rc := SetState(DisconnectedError, PendingReconnect);
        return ATTEMPTING_RECONNECT, false, connected, marks;
      }
      connected := |trace|;
      ghost var before := trace;
      rc, marks := Resubscribe(depth);
      assert trace[..connected] == before;
      if rc != SUCCESS { return; }
      return RECONNECTED, true, connected, marks;
    }

    // ---- yield ----

    /** The connection is given up; the client is left in the error state. */
    method HandleDisconnect() returns (rc: Rc)
      requires Valid()
      modifies this`state, this`trace
      ensures Valid() && FailedRounds(trace) == FailedRounds(old(trace))
      ensures state == DisconnectedError && rc == DISCONNECTED
      ensures if Connected(old(state)) then LeaveSent(old(trace), trace) else trace == old(trace)
    {
      hide TraceOk, BufferOf, TableOf, FailedRounds, SlotsOk, WaitAfter, LeaveSent;
      var destroyed: bool := *;
      rc := Disconnect(destroyed);
      if rc != SUCCESS { state := DisconnectedError; }
      state := DisconnectedError;
      return DISCONNECTED;
    }

    method FailRound()
      requires Valid() && interval <= MAX_WAIT
      modifies this`interval, this`trace
      ensures Valid() && interval == 2 * old(interval) && trace == old(trace) + [RoundFailed]
      ensures FailedRounds(trace) == FailedRounds(old(trace)) + if FailedRounds(old(trace)) >= 0 then 1 else 0
    {
      hide TraceOk, BufferOf, TableOf, FailedRounds, SlotsOk, WaitAfter;
      if FailedRounds(trace) >= 0 { WaitDoubles(FailedRounds(trace)); }
      interval := (2 * interval) % UINT32;
      RecordChange(RoundFailed);
    }

    /**
     * Nothing happens before the timer expires. Then a round begins: with the line up, as `line` tells, it
     * tries to connect, and unless it ends with the client reconnected it fails and doubles the wait.
     */
    method HandleReconnect(expired: bool, line: Rc, prepared: Rc, depth: nat) returns (rc: Rc)
      requires Valid() && state == PendingReconnect && interval <= MAX_WAIT
      modifies this
      ensures Valid() && old(trace) <= trace && disconnects == old(disconnects)
      ensures isAutoReconnectEnabled == old(isAutoReconnectEnabled)
      ensures state in {PendingReconnect, ConnectedIdle, YieldInProgress}
      ensures !expired ==> rc == ATTEMPTING_RECONNECT && state == PendingReconnect && trace == old(trace) &&
                           interval == old(interval)
      ensures expired ==> old(trace) + [Round(old(interval))] <= trace
      ensures expired && line != PHYSICAL_LAYER_CONNECTED ==>
                state == PendingReconnect && trace == old(trace) + [Round(old(interval)), RoundFailed] &&
                rc == if interval > MAX_WAIT then RECONNECT_TIMED_OUT else line
      ensures expired && line == PHYSICAL_LAYER_CONNECTED && prepared == SUCCESS ==>
                |old(trace)| + 1 < |trace| && trace[|old(trace)| + 1].Send? &&
                trace[|old(trace)| + 1].packetType == CONNECT
      ensures state == YieldInProgress ==> rc == RECONNECTED && interval == old(interval) &&
                                           FailedRounds(trace) == FailedRounds(old(trace))
      ensures expired && state != YieldInProgress ==>
                interval == 2 * old(interval) && trace[|trace| - 1] == RoundFailed &&
                FailedRounds(trace) == FailedRounds(old(trace)) + (if FailedRounds(old(trace)) >= 0 then 1 else 0) &&
                (interval > MAX_WAIT ==> rc == RECONNECT_TIMED_OUT)
      decreases depth, 9
    {
      hide TraceOk, BufferOf, TableOf, FailedRounds, SlotsOk, WaitAfter, Requested, ResentAt, ResentFrom, FirstFree;
      if !expired { return ATTEMPTING_RECONNECT; }
      Record(Round(interval));
      rc := line;
      if rc == PHYSICAL_LAYER_CONNECTED {
        ghost var resubscribed, connected, marks;
        rc, resubscribed, connected, marks := AttemptReconnect(prepared, depth);
        if rc == RECONNECTED {
          rc := SetState(ConnectedIdle, YieldInProgress);
          if rc != SUCCESS { return; }
          return RECONNECTED;
        }
      }
      FailRound();
      if MAX_WAIT < interval { return RECONNECT_TIMED_OUT; }
    }

    /**
     * `due` says that keep-alive is on and the ping timer has expired, `fits` that the ping fits its
     * buffer, and `sent` that the network takes it. The client is given up exactly when a ping is due
     * while one is outstanding or while none can be sent.
     */
    method KeepAlive(due: bool, fits: bool, sent: bool) returns (rc: Rc)
      requires Valid()
      modifies this`state, this`isPingOutstanding, this`trace
      ensures Valid() && old(trace) <= trace && FailedRounds(trace) == FailedRounds(old(trace))
      ensures if due && (old(isPingOutstanding) || (fits && !sent)) then state == DisconnectedError &&
          rc == DISCONNECTED
              else state == old(state) && rc == if due && !fits then TX_BUFFER_TOO_SHORT else SUCCESS
      ensures isPingOutstanding == (old(isPingOutstanding) || (due && fits && sent))
      ensures var ping := if due && fits && !old(isPingOutstanding)
                          then [Send(PINGREQ, 0, "", if sent then SUCCESS else FAILURE)] else [];
              if state == old(state) then trace == old(trace) + ping
              else if Connected(old(state)) then LeaveSent(old(trace) + ping, trace) else trace == old(trace) + ping
    {
      hide TraceOk, BufferOf, TableOf, FailedRounds, SlotsOk, WaitAfter;
      if !due { return SUCCESS; }
      if isPingOutstanding {
        rc := HandleDisconnect();
        return;
      }
      if !fits { return TX_BUFFER_TOO_SHORT; }
      Record(Send(PINGREQ, 0, "", if sent then SUCCESS else FAILURE));
      if !sent {
        rc := HandleDisconnect();
        return;
      }
      isPingOutstanding := true;
      return SUCCESS;
    }

    /** What came of a read in the yield loop that yield cannot account for. */
    static predicate Unexpected(read: Rc, autoReconnect: bool) {
      read == ATTEMPTING_RECONNECT || (read == DISCONNECTED && !autoReconnect)
    }

    /** The connection is lost: it is counted, and with reconnecting on a wait of the least length starts. */
    method CountLoss(code: Rc) returns (rc: Rc, leave: bool)
      requires Valid()
      modifies this
      ensures Valid() && disconnects == (old(disconnects) + 1) % UINT32
      ensures isAutoReconnectEnabled == old(isAutoReconnectEnabled) && old(trace) <= trace
      ensures if isAutoReconnectEnabled && old(state) == DisconnectedError
              then !leave && rc == ATTEMPTING_RECONNECT && state == PendingReconnect && interval == MIN_WAIT &&
                   trace == old(trace) + [Lost]
              else leave && state == old(state) && interval == old(interval) && trace == old(trace) &&
                   rc == if isAutoReconnectEnabled then UNEXPECTED_STATE else code
    {
      hide TraceOk, BufferOf, TableOf, FailedRounds, SlotsOk, WaitAfter;
      disconnects := (disconnects + 1) % UINT32;
      if !isAutoReconnectEnabled { return code, true; }
      rc := SetState(DisconnectedError, PendingReconnect);
      if rc != SUCCESS { return rc, true; }
      WaitStart();
      interval := MIN_WAIT;
      RecordChange(Lost);
      return ATTEMPTING_RECONNECT, false;
    }

    /** The read errors after which the connection is given up, and those that only say so. */
    static predicate Terminal(read: Rc) {
      read == SSL_READ || read == SSL_READ_TIMEOUT || read == SSL_WRITE || read == SSL_WRITE_TIMEOUT
    }

    /**
     * One reading turn of the yield loop, in a state that counts as connected: `read` is the code of reading and
     * handling a packet, `pinged` whether a ping is outstanding by then, and `leave` says that the loop ends here.
     */
    method YieldRead(input: Read, due: bool, fits: bool, sent: bool, depth: nat)
      returns (rc: Rc, leave: bool, ghost read: Rc, ghost pinged: bool)
      requires Valid() && state in {YieldInProgress, ConnectedIdle} && Legal(readBuf, input)
      modifies this
      ensures Valid() && isAutoReconnectEnabled == old(isAutoReconnectEnabled)
      ensures old(trace) + [Received(input.rc, input.written)] <= trace
      ensures input.rc != SUCCESS ==> read == if input.rc == NOTHING_TO_READ then SUCCESS else input.rc
      ensures input.rc != SUCCESS ==> pinged == old(isPingOutstanding)
      ensures var lost := Terminal(read) || (read == SUCCESS && due && (pinged || (fits && !sent)));
              if lost then
                if isAutoReconnectEnabled then
                  state == PendingReconnect && !leave && rc == ATTEMPTING_RECONNECT && interval == MIN_WAIT &&
                  trace[|trace| - 1] == Lost && disconnects == (old(disconnects) + 1) % UINT32
                else state == DisconnectedError && leave && rc == DISCONNECTED &&
                     disconnects == (old(disconnects) + 1) % UINT32
              else
                state == old(state) && interval == old(interval) &&
                rc == (if read == SUCCESS && due && !fits then TX_BUFFER_TOO_SHORT
                       else if read == DISCONNECTED && isAutoReconnectEnabled then UNEXPECTED_STATE else read) &&
                (leave <==> rc != SUCCESS) &&
                disconnects == (if read == DISCONNECTED then (old(disconnects) + 1) % UINT32 else old(disconnects)) &&
                (read == SUCCESS && due && fits ==>
                   isPingOutstanding && trace[|trace| - 1] == Send(PINGREQ, 0, "", SUCCESS))
      ensures state == old(state) ==>
                (rc in {DISCONNECTED, ATTEMPTING_RECONNECT} <==> Unexpected(read, isAutoReconnectEnabled))
      decreases depth, 9
    {
      hide TraceOk, BufferOf, TableOf, FailedRounds, SlotsOk, WaitAfter, Handled, Legal, Packet.ParsePublish,
        Packet.TypeOf;
      var packetType;
      ghost var marks;
      rc, packetType, marks := CycleRead(input, 0, depth);
      read, pinged := rc, isPingOutstanding;
      if rc == SUCCESS {
        rc := KeepAlive(due, fits, sent);
      } else if rc in {SSL_READ, SSL_READ_TIMEOUT, SSL_WRITE, SSL_WRITE_TIMEOUT} {
        rc := HandleDisconnect();
      }
      if rc == DISCONNECTED {
        rc, leave := CountLoss(rc);
        return rc, leave, read, pinged;
      }
      return rc, rc != SUCCESS, read, pinged;
    }

    /** The yield loop; the timer is a number of ticks. The last read and the state it was made in are reported. */
    method InternalYield(depth: nat) returns (rc: Rc, ghost lastRead: Rc, ghost lastState: ClientState)
      requires Valid() && state in {YieldInProgress, PendingReconnect}
      modifies this
      ensures Valid() && old(trace) <= trace && isAutoReconnectEnabled == old(isAutoReconnectEnabled)
      ensures state in {YieldInProgress, PendingReconnect, ConnectedIdle, DisconnectedError}
      ensures (state == YieldInProgress && rc in {DISCONNECTED, ATTEMPTING_RECONNECT}) <==>
              (lastState == YieldInProgress && Unexpected(lastRead, isAutoReconnectEnabled))
      ensures old(state) == PendingReconnect && old(interval) > MAX_WAIT ==>
                rc == RECONNECT_TIMED_OUT && state == PendingReconnect && interval == old(interval) &&
                trace == old(trace) && handlers == old(handlers)
      ensures old(state) == YieldInProgress ==> |old(trace)| < |trace| && trace[|old(trace)|].Received?
      ensures state == DisconnectedError ==> rc == DISCONNECTED
      ensures state == PendingReconnect && LostLast(trace) ==> rc == ATTEMPTING_RECONNECT
      decreases depth, 10
    {
      hide TraceOk, BufferOf, TableOf, FailedRounds, SlotsOk, WaitAfter;
      var ticks: nat := *;
      rc := SUCCESS;
      lastRead, lastState := SUCCESS, ConnectedIdle;
      ghost var first := true;
      var again := true;
      while again
        invariant Valid() && old(trace) <= trace && isAutoReconnectEnabled == old(isAutoReconnectEnabled)
        invariant state in {YieldInProgress, PendingReconnect, ConnectedIdle}
        invariant lastState == YieldInProgress ==> lastRead !in {ATTEMPTING_RECONNECT, DISCONNECTED}
        invariant state == YieldInProgress ==> rc in {SUCCESS, RECONNECTED}
        invariant !first && state == PendingReconnect && LostLast(trace) ==> rc == ATTEMPTING_RECONNECT
        invariant if first then again && state == old(state) && interval == old(interval) &&
                                trace == old(trace) && handlers == old(handlers)
                  else !(old(state) == PendingReconnect && old(interval) > MAX_WAIT) &&
                       (old(state) == YieldInProgress ==> |old(trace)| < |trace| && trace[|old(trace)|].Received?)
        decreases ticks, again
      {
        if state == PendingReconnect {
          if MAX_WAIT < interval {
            NoLossAtMost(trace);
            return RECONNECT_TIMED_OUT, lastRead, lastState;
          }
          var expired: bool, line: Rc, prepared: Rc := *, *, *;
          rc := HandleReconnect(expired, line, prepared, depth);
        } else {
          lastState := state;
          var input := AnyRead();
          var due, fits, sent: bool := *, *, *;
          var leave;
          ghost var pinged;
          rc, leave, lastRead, pinged := YieldRead(input, due, fits, sent, depth);
          if leave { return; }
        }
        first := false;
        again := ticks > 0;
        if again { ticks := ticks - 1; }
      }
    }

    /**
     * Refused, with nothing changed, unless the client is idle or waiting to reconnect. When it is
     * accepted the client ends idle, waiting to reconnect or disconnected, and it stays in the yield
     * state exactly when the last read was unexpected.
     */
    method Yield(timeoutMs: nat, depth: nat) returns (rc: Rc, ghost lastRead: Rc, ghost lastState: ClientState)
      requires Valid()
      modifies this
      ensures Valid() && old(trace) <= trace && isAutoReconnectEnabled == old(isAutoReconnectEnabled)
      ensures var refusal := if timeoutMs == 0 then NULL_VALUE
                             else if old(state) == DisconnectedManually then MANUALLY_DISCONNECTED
                             else if old(state) == PendingReconnect then SUCCESS
                             else if !Connected(old(state)) then DISCONNECTED
                             else if old(state) != ConnectedIdle then NOT_IDLE else SUCCESS;
              if refusal != SUCCESS then
                rc == refusal && state == old(state) && handlers == old(handlers) && Steady()
              else
                state in {YieldInProgress, PendingReconnect, ConnectedIdle, DisconnectedError} &&
                (state == YieldInProgress <==>
                 lastState == YieldInProgress && Unexpected(lastRead, isAutoReconnectEnabled))
      ensures timeoutMs > 0 && old(state) == PendingReconnect && old(interval) > MAX_WAIT ==>
                rc == RECONNECT_TIMED_OUT && state == PendingReconnect && interval == old(interval) &&
                trace == old(trace) && handlers == old(handlers)
      ensures timeoutMs > 0 && old(state) == ConnectedIdle ==>
                |old(trace)| < |trace| && trace[|old(trace)|].Received?
      ensures timeoutMs > 0 && old(state) in {ConnectedIdle, PendingReconnect} ==>
                (rc == SUCCESS ==> state == ConnectedIdle) && (state == DisconnectedError ==> rc == DISCONNECTED) &&
                (state == PendingReconnect && LostLast(trace) ==> rc == ATTEMPTING_RECONNECT)
      decreases depth, 11
    {
      hide TraceOk, BufferOf, TableOf, FailedRounds, SlotsOk, WaitAfter;
      lastRead, lastState := SUCCESS, ConnectedIdle;
      if timeoutMs == 0 { return NULL_VALUE, lastRead, lastState; }
      var clientState := state;
      if clientState == DisconnectedManually { return MANUALLY_DISCONNECTED, lastRead, lastState; }
      if clientState != PendingReconnect {
        if !Connected(state) { return DISCONNECTED, lastRead, lastState; }
        if clientState != ConnectedIdle { return NOT_IDLE, lastRead, lastState; }
        rc := SetState(ConnectedIdle, YieldInProgress);
        if rc != SUCCESS { return; }
      }
      var yieldRc;
      yieldRc, lastRead, lastState := InternalYield(depth);
      if yieldRc != DISCONNECTED && yieldRc != ATTEMPTING_RECONNECT {
        rc := SetState(YieldInProgress, ConnectedIdle);
        if yieldRc == SUCCESS && rc != SUCCESS { yieldRc := rc; }
      }
      return yieldRc, lastRead, lastState;
    }

    // ---- whole runs ----

    /**
     * The steps of a delivery in the order in which the client makes them: two slots hold "a/b", a
     * message on "a/b" arrives and slot 0's handler runs; the SUBACK that a subscribe call of this
     * handler waits for is read; slot 1 is then compared with another text and its handler does not run.
     */
    static method SubackSpoilsTopic(memory: seq<Byte>) returns (c: Client)
      requires |memory| >= 16
      ensures c.Valid()
      ensures c.trace == [Started(memory), Stored(0, Handler("a/b", 0)), Stored(1, Handler("a/b", 1)),
                          Received(SUCCESS, MESSAGE), Visit(0, Handler("a/b", 0), "a/b"), Ran(0, "a/b"), Received(SUCCESS, SUBACK_PACKET),
                          Visit(1, Handler("a/b", 1), SPOILED)]
    {
      MessageParsed(memory);
      c := TwoSubscribers(memory);
      hide TraceOk, BufferOf, TableOf, FailedRounds, SlotsOk, WaitAfter, Handled, Legal, Chosen, Overlay, TextAt, TextOf,
        Packet.ParsePublish, Packet.TypeOf;
      c.ReadThenFirstSlot();
      c.ReadThenSecondSlot();
    }

    method ReadThenFirstSlot()
      requires Valid() && |readBuf| >= 16 && handlers[0] == Handler("a/b", 0)
      requires TextAt(Overlay(readBuf, MESSAGE), 4, 3) == "a/b"
      modifies this
      ensures Valid() && state == WaitForCbReturn && handlers == old(handlers) && readBuf == Overlay(old(readBuf), MESSAGE)
      ensures trace == old(trace) + [Received(SUCCESS, MESSAGE), Visit(0, Handler("a/b", 0), "a/b"), Ran(0, "a/b")]
    {
      hide TraceOk, BufferOf, TableOf, FailedRounds, SlotsOk, WaitAfter, Chosen, Overlay, TextAt, TextOf;
      TakeIn(Read(SUCCESS, MESSAGE));
      state := WaitForCbReturn;
      DeliverToSlot(0, 4, 3, 0);
      SpoiledTopicNotChosen();
      SameFilterChosen(0, 1, "a/b", "a/b");
    }

    method ReadThenSecondSlot()
      requires Valid() && state == WaitForCbReturn && |readBuf| >= 16 && handlers[1] == Handler("a/b", 1)
      requires Legal(readBuf, Read(SUCCESS, SUBACK_PACKET)) && Packet.TypeOf(SUBACK_PACKET[0]) == SUBACK
      requires TextAt(Overlay(readBuf, SUBACK_PACKET), 4, 3) == SPOILED
      modifies this
      ensures Valid() && trace == old(trace) + [Received(SUCCESS, SUBACK_PACKET), Visit(1, Handler("a/b", 1), SPOILED)]
    {
      hide TraceOk, BufferOf, TableOf, FailedRounds, SlotsOk, WaitAfter, Handled, Legal, Chosen, Overlay, TextAt, TextOf,
        Packet.ParsePublish, Packet.TypeOf;
      LegalMeans(readBuf, Read(SUCCESS, SUBACK_PACKET));
      ghost var marks;
      var rc, packetType;
      rc, packetType, marks := CycleRead(Read(SUCCESS, SUBACK_PACKET), 0, 0);
      DeliverToSlot(1, 4, 3, 0);
      SpoiledTopicNotChosen();
    }

    static method TwoSubscribers(memory: seq<Byte>) returns (c: Client)
      ensures c.Valid() && c.readBuf == memory && fresh(c)
      ensures c.handlers[0] == Handler("a/b", 0) && c.handlers[1] == Handler("a/b", 1)
      ensures c.trace == [Started(memory), Stored(0, Handler("a/b", 0)), Stored(1, Handler("a/b", 1))]
    {
      assert Topic.WellFormed("a/b");
      hide TraceOk, BufferOf, TableOf, FailedRounds, WaitAfter, Topic.WellFormed;
      c := new Client(false, 0, memory);
      c.Store(0, Handler("a/b", 0));
      c.Store(1, Handler("a/b", 1));
    }

    /**
     * Any sequence of calls by a single thread: between calls the client rests in one of five states,
     * unless a yield met an unexpected read.
     */
    method Session(calls: nat, depth: nat) returns (ghost unexpected: bool)
      requires Valid() && Resting(state)
      modifies this
      ensures Valid() && old(trace) <= trace
      ensures !unexpected ==> Resting(state)
    {
      hide TraceOk, BufferOf, TableOf, FailedRounds, SlotsOk, WaitAfter;
      unexpected := false;
      for i := 0 to calls
        invariant Valid() && old(trace) <= trace && (!unexpected ==> Resting(state))
      {
        var choice: nat := *;
        var topic: string, handler: nat, qos1: bool, timeoutMs: nat, prepared: Rc, destroyed: bool := *, *, *, *, *, *;
        var rc;
        if choice == 0 {
          rc := Connect(prepared, depth);
        } else if choice == 1 {
          rc := Disconnect(destroyed);
        } else if choice == 2 {
          ghost var resubscribed, connected, marks;
          rc, resubscribed, connected, marks := AttemptReconnect(prepared, depth);
        } else if choice == 3 {
          rc := Publish(qos1, topic, depth);
        } else if choice == 4 {
          if !Topic.WellFormed(topic) { topic := "#"; }
          rc := Subscribe(topic, handler, depth);
        } else if choice == 5 {
          rc := Unsubscribe(topic, depth);
        } else if choice == 6 {
          ghost var marks;
          rc, marks := Resubscribe(depth);
        } else if choice == 7 {
          isAutoReconnectEnabled := !isAutoReconnectEnabled;
        } else {
          ghost var lastRead, lastState;
          rc, lastRead, lastState := Yield(timeoutMs, depth);
          if lastState == YieldInProgress && Unexpected(lastRead, isAutoReconnectEnabled) { unexpected := true; }
        }
      }
    }
  }
}
