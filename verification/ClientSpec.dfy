/** What the MQTT client does, as a history of events, and what follows from the rules that histories keep. */
module ClientSpec {
  import opened Arith
  import opened Wire
  import Publish
  import Acks
  import Topic

  datatype ClientState =
    | Invalid | Initialized | Connecting | ConnectedIdle | YieldInProgress | PublishInProgress
    | SubscribeInProgress | UnsubscribeInProgress | ResubscribeInProgress | WaitForCbReturn
    | Disconnecting | DisconnectedError | DisconnectedManually | PendingReconnect

  /** Return codes by their numbers in the error enumeration. */
  type Rc = int

  const PHYSICAL_LAYER_CONNECTED: Rc := 6
  const MANUALLY_DISCONNECTED: Rc := 5
  const ATTEMPTING_RECONNECT: Rc := 4
  const RECONNECTED: Rc := 3
  const NOTHING_TO_READ: Rc := 2
  const SUCCESS: Rc := 0
  const FAILURE: Rc := -1
  const NULL_VALUE: Rc := -2
  const SSL_WRITE: Rc := -7
  const SSL_WRITE_TIMEOUT: Rc := -10
  const SSL_READ_TIMEOUT: Rc := -11
  const SSL_READ: Rc := -12
  const DISCONNECTED: Rc := -13
  const RECONNECT_TIMED_OUT: Rc := -14
  const ALREADY_CONNECTED: Rc := -15
  const REQUEST_TIMEOUT: Rc := -28
  const UNEXPECTED_STATE: Rc := -29
  const NOT_IDLE: Rc := -30
  const PACKET_TYPE_INVALID: Rc := -31
  const RX_BUFFER_TOO_SHORT: Rc := -32
  const TX_BUFFER_TOO_SHORT: Rc := -33
  const MAX_SUBSCRIPTIONS_REACHED: Rc := -34
  const DECODE_LENGTH_ERROR: Rc := -35
  const CONNACK_UNKNOWN: Rc := -36
  const CONNACK_UNACCEPTABLE_PROTOCOL_VERSION: Rc := -37
  const CONNACK_IDENTIFIER_REJECTED: Rc := -38
  const CONNACK_SERVER_UNAVAILABLE: Rc := -39
  const CONNACK_BAD_USERDATA: Rc := -40
  const CONNACK_NOT_AUTHORIZED: Rc := -41

  const NUM_HANDLERS: nat := 100
  const MIN_WAIT: nat := 1000
  const MAX_WAIT: nat := 128000
  const MAX_PACKET_ID: nat := 65535

  /** A message handler slot; the handler is known by a number. */
  datatype Slot = Free | Handler(filter: string, handler: nat)

  datatype Api = Publishing | Subscribing | Unsubscribing | Resubscribing | ConnectAttempt | ReconnectAttempt | Yielding

  /** What happened, in order. */
  datatype Event =
    | Started(memory: seq<Byte>)                   // the client was set up, its read buffer holding anything
    | Received(rc: Rc, written: seq<Byte>)         // a read with that code wrote these bytes to the buffer's start
    | Send(packetType: nat, id: nat, topic: string, rc: Rc)  // a packet went to the network, or failed with that code
    | Expired                                      // the timer of a call that waits for an answer ran out
    | HandlerCall(api: Api, before: ClientState, after: ClientState, rc: Rc)  // a message handler called the client
    | Visit(index: nat, slot: Slot, text: string)  // a slot was compared with the text where the message's topic lay
    | Ran(handler: nat, text: string)              // a message handler started to run, that text being there
    | Stored(index: nat, slot: Slot)               // a subscription was written into a slot
    | Removed(filter: string)                      // the subscriptions to a filter were freed
    | Resent(index: nat, slot: Slot)               // a subscription was requested again
    | Lost                                         // the connection was lost and reconnecting began
    | Round(interval: nat)                         // a reconnect round began after a wait of that length
    | RoundFailed

  // ---- the read buffer ----

  /** Memory after a write to its start; a write that does not fit does not happen. */
  function Overlay(memory: seq<Byte>, written: seq<Byte>): (r: seq<Byte>)
    ensures |r| == |memory|
  {
    if |written| <= |memory| then written + memory[|written|..] else memory
  }

  /** The read buffer after a run. */
  function BufferOf(trace: seq<Event>): seq<Byte> {
    if trace == [] then []
    else
      var before := BufferOf(trace[..|trace| - 1]);
      match trace[|trace| - 1]
      case Started(memory) => memory
      case Received(rc, written) => Overlay(before, written)
      case _ => before
  }

  function TextOf(bytes: seq<Byte>): (text: string)
    ensures |text| == |bytes|
  {
    seq(|bytes|, i requires 0 <= i < |bytes| => bytes[i] as char)
  }

  /** The text that lies at a place of the buffer. */
  function TextAt(memory: seq<Byte>, at: nat, len: nat): string
    requires at + len <= |memory|
  {
    TextOf(memory[at..at + len])
  }

  /** What the network gives to one read: a code, and the bytes that appear at the buffer's start. */
  datatype Read = Read(rc: Rc, written: seq<Byte>)

  /** A read stays inside the buffer, and so does what the deserializer looks at after a successful one. */
  predicate Legal(memory: seq<Byte>, read: Read) {
    |read.written| <= |memory| &&
    (read.rc == SUCCESS ==>
       read.written != [] &&
       (Publish.TypeOf(read.written[0]) == PUBLISH ==> Publish.Readable(Overlay(memory, read.written))) &&
       (Publish.TypeOf(read.written[0]) in ANSWERS ==> Acks.Readable(Overlay(memory, read.written))))
  }

  /** The code for what the deserializer says. */
  function CodeOf(status: PacketStatus): Rc {
    match status
    case Success => SUCCESS
    case Failure => FAILURE
    case TxBufferTooShort => TX_BUFFER_TOO_SHORT
    case RxBufferTooShort => RX_BUFFER_TOO_SHORT
    case LengthError => DECODE_LENGTH_ERROR
  }

  // ---- the handler table and the rounds ----

  /** The handler table after a run. */
  function TableOf(trace: seq<Event>): (slots: seq<Slot>)
    ensures |slots| == NUM_HANDLERS
  {
    if trace == [] then seq(NUM_HANDLERS, _ => Free)
    else
      var before := TableOf(trace[..|trace| - 1]);
      match trace[|trace| - 1]
      case Stored(index, slot) => if index < NUM_HANDLERS then before[index := slot] else before
      case Removed(filter) => Without(before, filter)
      case _ => before
  }

  /** Failed rounds since the connection was last lost; -1 when it never was. */
  function FailedRounds(trace: seq<Event>): (k: int)
    ensures k >= -1
  {
    if trace == [] then -1
    else
      var before := FailedRounds(trace[..|trace| - 1]);
      match trace[|trace| - 1]
      case Lost => 0
      case RoundFailed => if before >= 0 then before + 1 else before
      case _ => before
  }

  predicate Selected(filter: string, name: string) {
    name == filter || Topic.ClientMatch(Topic.Levels(filter), Topic.Levels(name))
  }

  predicate Chosen(slot: Slot, name: string) {
    slot.Handler? && Selected(slot.filter, name)
  }

  /**
   * What may happen after what: the client is set up once; reads fit the buffer; calls from handlers
   * change no state, and those that would yield, connect or resubscribe are refused; a slot is seen as
   * the table has it; a handler runs right after its slot was seen and chosen; a round waited
   * 1000 * 2^k after k failed ones.
   */
  predicate EventOk(past: seq<Event>, e: Event) {
    match e
    case Started(memory) => past == []
    case Received(rc, written) => |written| <= |BufferOf(past)|
    case Send(packetType, id, topic, rc) => rc in {SUCCESS, FAILURE, TX_BUFFER_TOO_SHORT}
    case HandlerCall(api, before, after, rc) =>
      before == WaitForCbReturn == after && (api == Yielding ==> rc == NOT_IDLE || rc == NULL_VALUE) &&
      (api == Resubscribing ==> rc == NOT_IDLE) && (api in {ConnectAttempt, ReconnectAttempt} ==>
          rc == ALREADY_CONNECTED)
    case Visit(index, slot, text) => index < NUM_HANDLERS && slot == TableOf(past)[index]
    case Ran(handler, text) =>
      past != [] && past[|past| - 1].Visit? && past[|past| - 1].text == text &&
      Chosen(past[|past| - 1].slot, text) && past[|past| - 1].slot.handler == handler
    case Stored(index, slot) => index < NUM_HANDLERS && slot.Handler?
    case Resent(index, slot) => index < NUM_HANDLERS && slot == TableOf(past)[index]
    case Round(interval) =>
      interval <= MAX_WAIT && (FailedRounds(past) >= 0 ==> interval == WaitAfter(FailedRounds(past)))
    case _ => true
  }

  predicate TraceOk(trace: seq<Event>) {
    forall i :: 0 <= i < |trace| ==> EventOk(trace[..i], trace[i])
  }

  /** Events that change neither the buffer nor the table nor the count of failed rounds. */
  predicate Quiet(e: Event) {
    !e.Started? && !e.Received? && !e.Stored? && !e.Removed? && !e.Lost? && !e.RoundFailed?
  }

  lemma TraceAppend(trace: seq<Event>, e: Event)
    requires TraceOk(trace) && EventOk(trace, e)
    ensures TraceOk(trace + [e])
  {
    hide EventOk;
    var longer := trace + [e];
    forall i | 0 <= i < |longer| ensures EventOk(longer[..i], longer[i]) {
      if i < |trace| {
        assert longer[..i] == trace[..i] && longer[i] == trace[i];
      } else {
        assert longer[..i] == trace;
      }
    }
  }

  lemma QuietAppend(trace: seq<Event>, e: Event)
    requires Quiet(e)
    ensures TableOf(trace + [e]) == TableOf(trace) && FailedRounds(trace + [e]) == FailedRounds(trace)
    ensures BufferOf(trace + [e]) == BufferOf(trace)
  {
    assert (trace + [e])[..|trace|] == trace;
  }

  lemma ReceivedAppend(trace: seq<Event>, rc: Rc, written: seq<Byte>)
    requires TraceOk(trace) && |written| <= |BufferOf(trace)|
    ensures var more := trace + [Received(rc, written)];
            TraceOk(more) && BufferOf(more) == Overlay(BufferOf(trace), written) &&
            TableOf(more) == TableOf(trace) && FailedRounds(more) == FailedRounds(trace)
  {
    hide TraceOk;
    TraceAppend(trace, Received(rc, written));
    assert (trace + [Received(rc, written)])[..|trace|] == trace;
  }

  /** The events of one slot when a message is delivered and handlers call nothing. */
  function SlotEvents(index: nat, slot: Slot, text: string): seq<Event> {
    [Visit(index, slot, text)] + if Chosen(slot, text) then [Ran(slot.handler, text)] else []
  }

  /** The events of delivering a message to the first n slots when handlers call nothing. */
  function Deliveries(slots: seq<Slot>, n: nat, text: string): seq<Event>
    requires n <= |slots|
  {
    if n == 0 then [] else Deliveries(slots, n - 1, text) + SlotEvents(n - 1, slots[n - 1], text)
  }

  /**
   * From a position of the trace on, slots 0, 1, ... were seen in this order, at the marked positions,
   * each with the text that lay at the topic's place by then: a chosen one's handler ran right away,
   * and nothing happened after one not chosen.
   */
  predicate Delivered(trace: seq<Event>, from: nat, marks: seq<nat>, at: nat, len: nat) {
    from <= |trace| && (marks == [] ==> from == |trace|) && (marks != [] ==> marks[0] == from) &&
    forall i :: 0 <= i < |marks| ==> SlotDelivered(trace, i, marks[i], MarkAfter(trace, marks, i), at, len)
  }

  function MarkAfter(trace: seq<Event>, marks: seq<nat>, i: nat): nat {
    if i + 1 < |marks| then marks[i + 1] else |trace|
  }

  predicate SlotDelivered(trace: seq<Event>, index: nat, mark: nat, next: nat, at: nat, len: nat) {
    mark < next <= |trace| && SeenAt(trace, index, mark, at, len) &&
    if Chosen(trace[mark].slot, trace[mark].text)
    then mark + 1 < next && trace[mark + 1] == Ran(trace[mark].slot.handler, trace[mark].text)
    else next == mark + 1
  }

  predicate SeenAt(trace: seq<Event>, index: nat, mark: nat, at: nat, len: nat) {
    mark < |trace| && trace[mark].Visit? && trace[mark].index == index &&
    at + len <= |BufferOf(trace[..mark])| && trace[mark].text == TextAt(BufferOf(trace[..mark]), at, len)
  }

  lemma DeliveredMore(before: seq<Event>, trace: seq<Event>, from: nat, marks: seq<nat>, at: nat, len: nat)
    requires Delivered(before, from, marks, at, len) && before <= trace
    requires SlotDelivered(trace, |marks|, |before|, |trace|, at, len)
    ensures Delivered(trace, from, marks + [|before|], at, len)
  {
    hide BufferOf, TextAt;
    var more := marks + [|before|];
    forall i | 0 <= i < |more|
      ensures SlotDelivered(trace, i, more[i], MarkAfter(trace, more, i), at, len)
    {
      if i < |marks| {
        assert SlotDelivered(before, i, marks[i], MarkAfter(before, marks, i), at, len);
        assert before[..marks[i]] == trace[..marks[i]];
      }
    }
  }

  /**
   * A message in the buffer was handled: delivered to every slot and then, exactly when its QoS is
   * above 0, answered by a PUBACK with its packet id, whose code is the result.
   */
  predicate Handled(trace: seq<Event>, from: nat, marks: seq<nat>, m: Publish.Parsed, rc: Rc)
    requires m.Parsed?
  {
    |marks| == NUM_HANDLERS && rc in {SUCCESS, FAILURE, TX_BUFFER_TOO_SHORT} &&
    if m.qos > 0
    then trace != [] && trace[|trace| - 1] == Send(PUBACK, m.packetId, "", rc) &&
         Delivered(trace[..|trace| - 1], from, marks, m.topicAt, m.topicLen)
    else rc == SUCCESS && Delivered(trace, from, marks, m.topicAt, m.topicLen)
  }

  // ---- a request and its answer ----

  /** The packets that answer a request. */
  const ANSWERS: set<nat> := {CONNACK, PUBACK, SUBACK, UNSUBACK}

  /** The code for the return code of a CONNACK. */
  function ConnackRc(code: Byte): Rc {
    match code
    case 0 => SUCCESS
    case 1 => CONNACK_UNACCEPTABLE_PROTOCOL_VERSION
    case 2 => CONNACK_IDENTIFIER_REJECTED
    case 3 => CONNACK_SERVER_UNAVAILABLE
    case 4 => CONNACK_BAD_USERDATA
    case 5 => CONNACK_NOT_AUTHORIZED
    case _ => CONNACK_UNKNOWN
  }

  /** What the deserializer for an answer of that type makes of the buffer. */
  function AnswerRc(packetType: nat, memory: seq<Byte>): (rc: Rc)
    requires Acks.Readable(memory)
    ensures packetType != CONNACK ==> rc in {SUCCESS, FAILURE, TX_BUFFER_TOO_SHORT, RX_BUFFER_TOO_SHORT, DECODE_LENGTH_ERROR}
  {
    var r := if packetType == CONNACK then Acks.ParseConnack(memory)
             else if packetType == SUBACK then Acks.ParseSuback(memory)
             else if packetType == UNSUBACK then Acks.ParseUnsuback(memory)
             else Acks.ParseAck(memory);
    if r.Refused? then CodeOf(r.status)
    else if packetType == CONNACK && |r.codes| == 1 then ConnackRc(r.codes[0])
    else SUCCESS
  }

  /** The last thing that happened is the read of a packet of that type. */
  predicate ReadLast(trace: seq<Event>, packetType: nat) {
    trace != [] && trace[|trace| - 1].Received? && trace[|trace| - 1].rc == SUCCESS &&
    trace[|trace| - 1].written != [] && Publish.TypeOf(trace[|trace| - 1].written[0]) == packetType
  }

  /** What came of waiting for an answer: the answer is in the buffer, the timer ran out, or the network is gone. */
  predicate Waited(trace: seq<Event>, answer: nat, rc: Rc) {
    || (rc == SUCCESS && ReadLast(trace, answer) && Acks.Readable(BufferOf(trace)))
    || (rc == REQUEST_TIMEOUT && trace != [] && trace[|trace| - 1] == Expired)
    || (rc == DISCONNECTED && trace != [] && trace[|trace| - 1].Received? && trace[|trace| - 1].rc == DISCONNECTED)
  }

  /** The same with the code that the deserializer gives to the answer. */
  predicate Answered(trace: seq<Event>, answer: nat, rc: Rc) {
    || (Waited(trace, answer, SUCCESS) && rc == AnswerRc(answer, BufferOf(trace)))
    || (rc != SUCCESS && Waited(trace, answer, rc))
  }

  /**
   * A request was sent before anything else happened. It fails with the code of sending it, and
   * otherwise with or without success as the answer tells.
   */
  predicate Exchange(past: seq<Event>, trace: seq<Event>, packetType: nat, id: nat, topic: string, answer: nat, rc: Rc) {
    |past| < |trace| && past <= trace &&
    trace[|past|].Send? && trace[|past|] == Send(packetType, id, topic, trace[|past|].rc) &&
    if trace[|past|].rc != SUCCESS then rc == trace[|past|].rc && |trace| == |past| + 1
    else Answered(trace, answer, rc)
  }

  /** Sent with success and answered by a packet that its deserializer accepts. */
  lemma ExchangeSucceeded(past: seq<Event>, trace: seq<Event>, packetType: nat, id: nat, topic: string, answer: nat)
    requires Exchange(past, trace, packetType, id, topic, answer, SUCCESS)
    ensures past + [Send(packetType, id, topic, SUCCESS)] <= trace && ReadLast(trace, answer)
    ensures Acks.Readable(BufferOf(trace)) && AnswerRc(answer, BufferOf(trace)) == SUCCESS
  {}

  /** A publish: with QoS 1 an exchange, with QoS 0 a packet without an id. */
  predicate Published(past: seq<Event>, trace: seq<Event>, qos1: bool, id: nat, topic: string, rc: Rc) {
    if qos1 then Exchange(past, trace, PUBLISH, id, topic, PUBACK, rc)
    else trace == past + [Send(PUBLISH, 0, topic, rc)]
  }

  /** A DISCONNECT packet was sent, or could not be sent, and nothing else happened. */
  predicate LeaveSent(past: seq<Event>, trace: seq<Event>) {
    |trace| == |past| + 1 && past <= trace && trace[|past|].Send? &&
    trace[|past|] == Send(DISCONNECT, 0, "", trace[|past|].rc)
  }

  /** A connect call with that code before its packet is sent: it succeeds by an exchange only. */
  ghost predicate Attempted(past: seq<Event>, trace: seq<Event>, prepared: Rc, success: bool) {
    if prepared != SUCCESS then !success && trace == past
    else if success then Exchange(past, trace, CONNECT, 0, "", CONNACK, SUCCESS)
    else exists rc: Rc :: rc != SUCCESS && Exchange(past, trace, CONNECT, 0, "", CONNACK, rc)
  }

  /** A subscribe call that found these slots: no room, or an exchange whose success is stored. */
  predicate Subscribed(past: seq<Event>, trace: seq<Event>, slots: seq<Slot>, id: nat, topic: string, handler: nat, rc: Rc) {
    if rc == MAX_SUBSCRIPTIONS_REACHED then FirstFree(slots) == NUM_HANDLERS && trace == past
    else if rc == SUCCESS then
      StoredLast(trace, FirstFree(slots), Handler(topic, handler)) &&
      Exchange(past, trace[..|trace| - 1], SUBSCRIBE, id, topic, SUBACK, SUCCESS)
    else Exchange(past, trace, SUBSCRIBE, id, topic, SUBACK, rc) &&
         (FirstFree(slots) == NUM_HANDLERS ==> rc == TX_BUFFER_TOO_SHORT)
  }

  /** An unsubscribe call that found the filter: an exchange whose success frees its slots. */
  predicate Unsubscribed(past: seq<Event>, trace: seq<Event>, id: nat, filter: string, rc: Rc) {
    if rc == SUCCESS then
      trace != [] && trace[|trace| - 1] == Removed(filter) &&
      Exchange(past, trace[..|trace| - 1], UNSUBSCRIBE, id, filter, UNSUBACK, SUCCESS)
    else Exchange(past, trace, UNSUBSCRIBE, id, filter, UNSUBACK, rc)
  }

  /** The last thing that happened is the storing of a subscription. */
  predicate StoredLast(trace: seq<Event>, index: nat, slot: Slot) {
    index < NUM_HANDLERS && trace != [] && trace[|trace| - 1] == Stored(index, slot)
  }

  /** The subscriptions requested again are those of a table. */
  predicate ResentFrom(trace: seq<Event>, marks: seq<nat>, slots: seq<Slot>) {
    |marks| <= |slots| &&
    forall i :: 0 <= i < |marks| ==>
      marks[i] < |trace| && trace[marks[i]] == Resent(i, slots[i]) && slots[i].Handler?
  }

  /** Slots 0, 1, ... were requested again in this order, at the marked positions. */
  predicate ResentAt(trace: seq<Event>, marks: seq<nat>) {
    (forall i :: 0 <= i < |marks| ==> marks[i] < |trace| && trace[marks[i]].Resent? && trace[marks[i]].index == i) &&
    forall i, j :: 0 <= i < j < |marks| ==> marks[i] < marks[j]
  }

  /** The packet id after that one. */
  function NextId(id: nat): nat {
    if id == MAX_PACKET_ID then 1 else id + 1
  }

  function FilterOf(slot: Slot): string {
    if slot.Handler? then slot.filter else ""
  }

  /** The slot seen at a position of the trace was requested again in the stretch that ends before `next`. */
  predicate SlotRequested(trace: seq<Event>, mark: nat, next: nat, rc: Rc) {
    mark + 1 < next <= |trace| && trace[mark].Resent? && trace[mark + 1].Send? &&
    Exchange(trace[..mark + 1], trace[..next], SUBSCRIBE, trace[mark + 1].id, FilterOf(trace[mark].slot), SUBACK, rc)
  }

  /** From a position on nothing but exchanges for slots happened: all but the last succeeded, which ended with that code. */
  predicate Requested(trace: seq<Event>, from: nat, marks: seq<nat>, rc: Rc) {
    from <= |trace| && (marks == [] ==> from == |trace| && rc == SUCCESS) && (marks != [] ==> marks[0] == from) &&
    forall i :: 0 <= i < |marks| ==>
      SlotRequested(trace, marks[i], MarkAfter(trace, marks, i), if i + 1 < |marks| then SUCCESS else rc)
  }

  lemma RequestedMore(before: seq<Event>, trace: seq<Event>, from: nat, marks: seq<nat>, rc: Rc)
    requires Requested(before, from, marks, SUCCESS) && before <= trace
    requires SlotRequested(trace, |before|, |trace|, rc)
    ensures Requested(trace, from, marks + [|before|], rc)
  {
    hide SlotRequested;
    var more := marks + [|before|];
    forall i | 0 <= i < |more|
      ensures SlotRequested(trace, more[i], MarkAfter(trace, more, i), if i + 1 < |more| then SUCCESS else rc)
    {
      if i < |marks| {
        assert SlotRequested(before, marks[i], MarkAfter(before, marks, i), SUCCESS);
        RequestedIn(before, trace, marks[i], MarkAfter(before, marks, i));
      }
    }
  }

  lemma RequestedIn(before: seq<Event>, trace: seq<Event>, mark: nat, next: nat)
    requires SlotRequested(before, mark, next, SUCCESS) && before <= trace
    ensures SlotRequested(trace, mark, next, SUCCESS)
  {
    hide Exchange;
    assert before[..mark + 1] == trace[..mark + 1] && before[..next] == trace[..next];
  }

  lemma ResentNone(trace: seq<Event>)
    ensures ResentAt(trace, [])
  {}

  lemma ResentMore(before: seq<Event>, trace: seq<Event>, marks: seq<nat>)
    requires ResentAt(before, marks) && before < trace
    requires trace[|before|].Resent? && trace[|before|].index == |marks|
    ensures ResentAt(trace, marks + [|before|])
  {}

  predicate SlotsOk(slots: seq<Slot>) {
    |slots| == NUM_HANDLERS &&
    forall i :: 0 <= i < |slots| && slots[i].Handler? ==> Topic.WellFormed(slots[i].filter)
  }

  /** The wait after k failed rounds. */
  function WaitAfter(k: nat): nat {
    MIN_WAIT * Pow2(k)
  }

  predicate Connected(s: ClientState) {
    s.ConnectedIdle? || s.YieldInProgress? || s.PublishInProgress? || s.SubscribeInProgress? ||
    s.UnsubscribeInProgress? || s.ResubscribeInProgress? || s.WaitForCbReturn?
  }

  predicate ValidForConnect(s: ClientState) {
    s.Initialized? || s.DisconnectedError? || s.DisconnectedManually? || s.PendingReconnect?
  }

  /** The states in which the client is between calls. */
  predicate Resting(s: ClientState) {
    s.ConnectedIdle? || ValidForConnect(s)
  }

  predicate MayCall(s: ClientState) {
    s.ConnectedIdle? || s.WaitForCbReturn?
  }

  function FirstFree(slots: seq<Slot>): (i: nat)
    ensures i <= |slots| && (i < |slots| ==> slots[i].Free?)
    ensures forall k :: 0 <= k < i ==> slots[k].Handler?
  {
    if |slots| == 0 || slots[0].Free? then 0 else 1 + FirstFree(slots[1..])
  }

  /** The slots with every subscription to a filter freed. */
  function Without(slots: seq<Slot>, filter: string): (r: seq<Slot>)
    ensures |r| == |slots|
    ensures forall i :: 0 <= i < |slots| ==>
      r[i] == if slots[i].Handler? && slots[i].filter == filter then Free else slots[i]
  {
    seq(|slots|, i requires 0 <= i < |slots| =>
      if slots[i].Handler? && slots[i].filter == filter then Free else slots[i])
  }

  /** Some slot subscribes to that filter. */
  predicate Holds(slots: seq<Slot>, filter: string) {
    exists i :: 0 <= i < |slots| && slots[i].Handler? && slots[i].filter == filter
  }

  // ---- whose topic a slot is compared with ----

  /** The last of the events from..to that wrote byte p of the buffer, or -1. */
  function LastCover(trace: seq<Event>, from: nat, to: nat, p: nat): (c: int)
    requires from <= to <= |trace|
    ensures c >= 0 ==> from <= c < to && trace[c].Received? && p < |trace[c].written|
    ensures c < 0 ==> forall i :: from <= i < to && trace[i].Received? ==> |trace[i].written| <= p
  {
    if from == to then -1
    else if trace[to - 1].Received? && p < |trace[to - 1].written| then to - 1
    else LastCover(trace, from, to - 1, p)
  }

  lemma OneEvent(trace: seq<Event>, to: nat)
    requires TraceOk(trace) && 0 < to < |trace|
    ensures BufferOf(trace[..to + 1]) ==
            if trace[to].Received? then Overlay(BufferOf(trace[..to]), trace[to].written) else BufferOf(trace[..to])
    ensures trace[to].Received? ==> |trace[to].written| <= |BufferOf(trace[..to])|
  {
    var longer := trace[..to + 1];
    assert longer[..to] == trace[..to] && longer[to] == trace[to];
    assert EventOk(trace[..to], trace[to]);
  }

  /** A byte of the buffer is what the last read that covered it wrote there. */
  lemma {:induction false} BufferSince(trace: seq<Event>, from: nat, to: nat, p: nat)
    requires TraceOk(trace) && 0 < from <= to <= |trace| && p < |BufferOf(trace[..from])|
    ensures |BufferOf(trace[..to])| == |BufferOf(trace[..from])|
    ensures BufferOf(trace[..to])[p] ==
            var c := LastCover(trace, from, to, p);
            if c < 0 then BufferOf(trace[..from])[p] else trace[c].written[p]
  {
    hide TraceOk, BufferOf;
    if from < to {
      BufferSince(trace, from, to - 1, p);
      OneEvent(trace, to - 1);
    }
  }

  lemma {:induction false} MarksAfter(trace: seq<Event>, from: nat, marks: seq<nat>, at: nat, len: nat, k: nat)
    requires Delivered(trace, from, marks, at, len) && k < |marks|
    ensures from <= marks[k] < |trace|
  {
    hide SlotDelivered;
    SlotOrder(trace, k, marks[k], MarkAfter(trace, marks, k), at, len);
    if k > 0 {
      MarksAfter(trace, from, marks, at, len, k - 1);
      SlotOrder(trace, k - 1, marks[k - 1], MarkAfter(trace, marks, k - 1), at, len);
    }
  }

  lemma SlotOrder(trace: seq<Event>, index: nat, mark: nat, next: nat, at: nat, len: nat)
    requires SlotDelivered(trace, index, mark, next, at, len)
    ensures mark < next <= |trace|
  {}

  lemma TextIff(a: seq<Byte>, b: seq<Byte>, at: nat, len: nat)
    requires |a| == |b| && at + len <= |a|
    ensures TextAt(a, at, len) == TextAt(b, at, len) <==> forall p :: at <= p < at + len ==> a[p] == b[p]
  {
    var x, y := TextAt(a, at, len), TextAt(b, at, len);
    assert forall i :: 0 <= i < len ==> x[i] == a[at + i] as char && y[i] == b[at + i] as char;
    if x == y {
      forall p | at <= p < at + len
        ensures a[p] == b[p]
      {
        assert x[p - at] == y[p - at];
      }
    }
  }

  /**
   * A slot is compared with the message's own topic exactly when, of each byte of it, the last read since
   * the delivery began that covered it wrote the same byte again.
   */
  lemma OwnTopicIff(trace: seq<Event>, from: nat, marks: seq<nat>, at: nat, len: nat, k: nat)
    requires TraceOk(trace) && 0 < from && Delivered(trace, from, marks, at, len) && k < |marks|
    requires at + len <= |BufferOf(trace[..from])|
    ensures from <= marks[k] < |trace| && trace[marks[k]].Visit?
    ensures trace[marks[k]].text == TextAt(BufferOf(trace[..from]), at, len) <==>
            forall p :: at <= p < at + len ==>
              var c := LastCover(trace, from, marks[k], p);
              c >= 0 ==> trace[c].written[p] == BufferOf(trace[..from])[p]
  {
    MarksAfter(trace, from, marks, at, len, k);
    assert SlotDelivered(trace, k, marks[k], MarkAfter(trace, marks, k), at, len);
    hide TraceOk, BufferOf, TextAt, LastCover, Delivered;
    var was, now := BufferOf(trace[..from]), BufferOf(trace[..marks[k]]);
    if len > 0 { BufferSince(trace, from, marks[k], at); } else { SameSize(trace, from, marks[k]); }
    TextIff(now, was, at, len);
    forall p | at <= p < at + len
      ensures now[p] == var c := LastCover(trace, from, marks[k], p); if c < 0 then was[p] else trace[c].written[p]
    {
      BufferSince(trace, from, marks[k], p);
    }
  }

  lemma {:induction false} SameSize(trace: seq<Event>, from: nat, to: nat)
    requires TraceOk(trace) && 0 < from <= to <= |trace|
    ensures |BufferOf(trace[..to])| == |BufferOf(trace[..from])|
  {
    hide TraceOk, BufferOf;
    if from < to {
      SameSize(trace, from, to - 1);
      OneEvent(trace, to - 1);
    }
  }

  /** No read of a stretch of the history reaches a place of the buffer. */
  predicate ReadsEndBefore(trace: seq<Event>, from: nat, at: nat) {
    forall i :: from <= i < |trace| && trace[i].Received? ==> |trace[i].written| <= at
  }

  /**
   * When what is read while handlers run ends before the topic, every slot is compared with the
   * message's own topic: handlers run exactly for the filters that select it.
   */
  lemma OwnTopicThroughout(trace: seq<Event>, from: nat, marks: seq<nat>, at: nat, len: nat)
    requires TraceOk(trace) && 0 < from && Delivered(trace, from, marks, at, len)
    requires at + len <= |BufferOf(trace[..from])| && ReadsEndBefore(trace, from, at)
    ensures forall k :: 0 <= k < |marks| ==>
      marks[k] < |trace| && trace[marks[k]].Visit? && trace[marks[k]].text == TextAt(BufferOf(trace[..from]), at, len)
  {
    assert from <= |trace|;
    hide TraceOk, BufferOf, TextAt, LastCover, Delivered;
    forall k | 0 <= k < |marks|
      ensures marks[k] < |trace| && trace[marks[k]].Visit? &&
          trace[marks[k]].text == TextAt(BufferOf(trace[..from]), at, len)
    {
      OwnTopicIff(trace, from, marks, at, len, k);
    }
  }

  /** Topics start behind the first four bytes, so packets of four bytes such as PUBACK and UNSUBACK do no harm. */
  lemma ShortReadsDoNoHarm(trace: seq<Event>, from: nat, marks: seq<nat>, m: Publish.Parsed)
    requires TraceOk(trace) && 0 < from <= |trace| && Publish.Readable(BufferOf(trace[..from]))
    requires m == Publish.ParsePublish(BufferOf(trace[..from]), 0) && m.Parsed?
    requires Delivered(trace, from, marks, m.topicAt, m.topicLen) && ReadsEndBefore(trace, from, 4)
    ensures m.topicAt + m.topicLen <= |BufferOf(trace[..from])|
    ensures forall k :: 0 <= k < |marks| ==>
      marks[k] < |trace| && trace[marks[k]].Visit? &&
      trace[marks[k]].text == TextAt(BufferOf(trace[..from]), m.topicAt, m.topicLen)
  {
    hide TraceOk, BufferOf, TextAt, Delivered, Publish.Readable, Publish.ParsePublish;
    Publish.TopicInside(BufferOf(trace[..from]), 0);
    OwnTopicThroughout(trace, from, marks, m.topicAt, m.topicLen);
  }

  /** A complete packet with two more bytes of buffer behind it is a legal read. */
  lemma CompletePacketIsLegal(memory: seq<Byte>, header: Byte, body: seq<Byte>)
    requires |body| < MAX_REMAINING && 1 + |EncodeLen(|body|)| + |body| + 2 <= |memory|
    ensures Legal(memory, Read(SUCCESS, [header] + EncodeLen(|body|) + body))
  {
    var w := [header] + EncodeLen(|body|) + body;
    var s := Overlay(memory, w);
    hide EncodeLen, DecodeLen;
    assert s[1..] == EncodeLen(|body|) + (body + memory[|w|..]);
    LengthRoundTrip(|body|, body + memory[|w|..]);
  }

  lemma AnswerReadable(memory: seq<Byte>, read: Read)
    requires Legal(memory, read)
    ensures |read.written| <= |memory|
    ensures read.rc == SUCCESS ==>
              read.written != [] &&
              (Publish.TypeOf(read.written[0]) in ANSWERS ==> Acks.Readable(Overlay(memory, read.written)))
  {}

  lemma LegalMeans(memory: seq<Byte>, read: Read)
    requires Legal(memory, read) && read.rc == SUCCESS
    ensures |read.written| <= |memory| && read.written != []
  {}

  // ---- subscriptions stored while another call waits ----

  /**
   * A subscription that was stored while an outer subscribe waited for its acknowledgement is
   * overwritten by it exactly when it went to the slot that was first free when the outer call began.
   */
  lemma StoredMeanwhile(past: seq<Event>, during: seq<Event>, k: nat, outer: Slot)
    requires k < |during| && during[k].Stored? && during[k].index < NUM_HANDLERS && during[k].slot != outer
    requires TableOf(past + during)[during[k].index] == during[k].slot && FirstFree(TableOf(past)) < NUM_HANDLERS
    ensures var f := FirstFree(TableOf(past));
            TableOf(past + during + [Stored(f, outer)])[during[k].index] == during[k].slot <==> during[k].index != f
  {
    var f := FirstFree(TableOf(past));
    hide FirstFree;
    StoredAppend(past + during, f, outer);
  }

  lemma StoredAppend(trace: seq<Event>, index: nat, slot: Slot)
    requires index < NUM_HANDLERS
    ensures TableOf(trace + [Stored(index, slot)]) == TableOf(trace)[index := slot]
  {
    assert (trace + [Stored(index, slot)])[..|trace|] == trace;
  }

  /** It goes there exactly when the slots below are still taken and that one is still free. */
  lemma SameFirstFree(before: seq<Slot>, now: seq<Slot>)
    requires |before| == |now| && FirstFree(before) < |before|
    ensures var f := FirstFree(before);
            FirstFree(now) == f <==> now[f].Free? && forall i :: 0 <= i < f ==> now[i].Handler?
  {}

  /** Two subscribe calls, the inner one made by a handler while the outer one waits: the inner one is lost. */
  lemma NestedSubscribeLost(past: seq<Event>, inner: Slot, outer: Slot)
    requires FirstFree(TableOf(past)) < NUM_HANDLERS && inner != outer && inner.Handler? && inner !in TableOf(past)
    ensures var f := FirstFree(TableOf(past));
            var after := TableOf(past + [Stored(f, inner)] + [Stored(f, outer)]);
            after[f] == outer && inner !in after
  {
    var f := FirstFree(TableOf(past));
    hide FirstFree, TableOf;
    StoredAppend(past, f, inner);
    StoredAppend(past + [Stored(f, inner)], f, outer);
  }

  // ---- slots requested again ----

  /** Slot i was freed at event k of a stretch of the history and not filled again in it. */
  predicate FreedAt(past: seq<Event>, during: seq<Event>, i: nat, k: nat) {
    k < |during| && i < NUM_HANDLERS && during[k].Removed? &&
    TableOf(past + during[..k])[i].Handler? && TableOf(past + during[..k])[i].filter == during[k].filter &&
    forall m :: k < m < |during| ==> !(during[m].Stored? && during[m].index == i)
  }

  lemma LastEventOnSlot(past: seq<Event>, during: seq<Event>, i: nat)
    requires TraceOk(past + during) && during != [] && i < NUM_HANDLERS
    ensures var n := |during| - 1;
            var before, e := TableOf(past + during[..n])[i], during[n];
            && (e.Stored? ==> e.slot.Handler?)
            && TableOf(past + during)[i] ==
               if e.Stored? && e.index == i then e.slot
               else if e.Removed? && before.Handler? && before.filter == e.filter then Free else before
  {
    var n := |during| - 1;
    var all := past + during;
    assert all[..|all| - 1] == past + during[..n] && all[|all| - 1] == during[n];
    assert EventOk(all[..|all| - 1], all[|all| - 1]);
  }

  /** A slot occupied on entry is free at its turn exactly when it was freed since and not filled again. */
  lemma {:induction false} FreeAtItsTurnIff(past: seq<Event>, during: seq<Event>, i: nat)
    requires TraceOk(past + during) && i < NUM_HANDLERS && TableOf(past)[i].Handler?
    ensures TableOf(past + during)[i].Free? <==> exists k: nat :: FreedAt(past, during, i, k)
    decreases |during|
  {
    if during == [] {
      assert past + during == past;
    } else {
      var n := |during| - 1;
      var most := during[..n];
      TraceOkPrefix(past, during);
      FreeAtItsTurnIff(past, most, i);
      LastEventOnSlot(past, during, i);
      FreedAtLast(past, during, i);
      hide TraceOk, TableOf, FreedAt;
      forall k: nat | k < n
        ensures FreedAt(past, during, i, k) <==>
                FreedAt(past, most, i, k) && !(during[n].Stored? && during[n].index == i)
      {
        FreedAtEarlier(past, during, i, k);
      }
    }
  }

  lemma FreedAtEarlier(past: seq<Event>, during: seq<Event>, i: nat, k: nat)
    requires during != [] && k < |during| - 1
    ensures var n := |during| - 1;
            FreedAt(past, during, i, k) <==>
            FreedAt(past, during[..n], i, k) && !(during[n].Stored? && during[n].index == i)
  {
    hide TableOf;
    assert during[..|during| - 1][..k] == during[..k];
  }

  lemma FreedAtLast(past: seq<Event>, during: seq<Event>, i: nat)
    requires during != [] && i < NUM_HANDLERS
    ensures var n := |during| - 1;
            var before := TableOf(past + during[..n])[i];
            && (forall k: nat :: k >= n && FreedAt(past, during, i, k) ==> k == n)
            && (FreedAt(past, during, i, n) <==>
                during[n].Removed? && before.Handler? && before.filter == during[n].filter)
            && (forall k: nat :: FreedAt(past, during[..n], i, k) ==> k < n)
  {
    hide TableOf;
  }

  lemma TraceOkPrefix(past: seq<Event>, during: seq<Event>)
    requires TraceOk(past + during) && during != []
    ensures TraceOk(past + during[..|during| - 1])
  {
    hide EventOk;
    var all, most := past + during, past + during[..|during| - 1];
    forall j | 0 <= j < |most|
      ensures EventOk(most[..j], most[j])
    {
      assert most[..j] == all[..j] && most[j] == all[j];
    }
  }

  lemma RemovedAppend(trace: seq<Event>, filter: string)
    ensures TableOf(trace + [Removed(filter)]) == Without(TableOf(trace), filter)
  {
    assert (trace + [Removed(filter)])[..|trace|] == trace;
  }

  lemma FirstTwo(slots: seq<Slot>)
    requires |slots| > 2 && slots[0].Handler? && slots[1].Handler? && slots[2].Free?
    ensures FirstFree(slots) == 2
  {}

  /** Two subscriptions, the second dropped by a handler during the first one's turn: slot 1 is requested all the same. */
  lemma FreedSlotIsRequested(a: Slot, b: Slot)
    requires a.Handler? && b.Handler? && a.filter != b.filter
    ensures var past, during := [Stored(0, a), Stored(1, b)], [Resent(0, a), Removed(b.filter)];
            FirstFree(TableOf(past)) == 2 && TableOf(past + during)[1].Free?
  {
    var empty: seq<Event> := [];
    var one, two := [Stored(0, a)], [Stored(0, a), Stored(1, b)];
    assert empty + [Stored(0, a)] == one && one + [Stored(1, b)] == two;
    StoredAppend(empty, 0, a);
    StoredAppend(one, 1, b);
    var three := two + [Resent(0, a)];
    QuietAppend(two, Resent(0, a));
    assert two + [Resent(0, a), Removed(b.filter)] == three + [Removed(b.filter)];
    RemovedAppend(three, b.filter);
    FirstTwo(TableOf(two));
  }

  /** Requesting the slots before the first free one again reaches every subscription iff no free slot precedes one. */
  lemma ResubscribeReachesAll(slots: seq<Slot>)
    ensures (forall i :: 0 <= i < |slots| && slots[i].Handler? ==> i < FirstFree(slots)) <==>
            forall i, j :: 0 <= i < j < |slots| && slots[j].Handler? ==> slots[i].Handler?
  {
    var f := FirstFree(slots);
    if f < |slots| && exists j :: f < j < |slots| && slots[j].Handler? {
      var j :| f < j < |slots| && slots[j].Handler?;
      assert !slots[f].Handler?;
    }
  }

  /** After the earlier of two subscriptions is dropped, the later one is not requested again. */
  lemma ResubscribeMissesLater(slots: seq<Slot>, i: nat, j: nat)
    requires i < j < |slots| && slots[i].Handler? && slots[j].Handler? && slots[i].filter != slots[j].filter
    ensures var left := Without(slots, slots[i].filter);
            left[j] == slots[j] && FirstFree(left) < j
  {
    var left := Without(slots, slots[i].filter);
    assert left[i].Free?;
  }

  lemma WaitStart()
    ensures WaitAfter(0) == MIN_WAIT
  {}

  /** The last thing that happened is the loss of the connection. */
  predicate LostLast(trace: seq<Event>) {
    trace != [] && trace[|trace| - 1] == Lost
  }

  /** The first wait is not above the maximum. */
  lemma NoLossAtMost(trace: seq<Event>)
    ensures LostLast(trace) ==> FailedRounds(trace) == 0 && WaitAfter(0) == 1000 <= MAX_WAIT
  {}

  lemma WaitDoubles(k: nat)
    requires WaitAfter(k) <= MAX_WAIT
    ensures k <= 7 && WaitAfter(k + 1) == 2 * WaitAfter(k)
  {
    if k > 7 { Pow2Mono(8, k); }
  }

  /** The wait exceeds the maximum exactly after eight failed rounds. */
  lemma EightRounds(k: nat)
    ensures WaitAfter(k) > MAX_WAIT <==> k >= 8
  {
    assert Pow2(8) == 256 && Pow2(7) == 128;
    if k >= 8 { Pow2Mono(8, k); } else { Pow2Mono(k, 7); }
  }
}
