/** The MQTT calls that shadow requests make, in order, and what they leave subscribed. */
module ShadowCalls {
  import opened ShadowTables

  const SUCCESS: int := 0
  const FAILURE: int := -1

  datatype Op = Subscribe | Unsubscribe | Publish

  /** A call with the code it returned. */
  datatype Call = Call(op: Op, topic: string, rc: int)

  /** The topic on which a request goes out. */
  function ActionTopic(thing: string, action: Action): string {
    "$aws/things/" + thing + "/shadow/" + ActionName(action)
  }

  /** The topics that are subscribed after a history. */
  function Subscribed(calls: seq<Call>): set<string> {
    if calls == [] then {}
    else
      var before, c := Subscribed(calls[..|calls| - 1]), calls[|calls| - 1];
      if c.rc != SUCCESS || c.op.Publish? then before
      else if c.op.Subscribe? then before + {c.topic}
      else before - {c.topic}
  }

  lemma SubscribedAppend(calls: seq<Call>, c: Call)
    ensures Subscribed(calls + [c]) ==
            if c.rc != SUCCESS || c.op.Publish? then Subscribed(calls)
            else if c.op.Subscribe? then Subscribed(calls) + {c.topic} else Subscribed(calls) - {c.topic}
  {
    assert (calls + [c])[..|calls|] == calls;
  }

  /** Exactly the live topics of the table are subscribed. */
  ghost predicate Mirrored(calls: seq<Call>, subs: seq<SubRecord>) {
    forall u :: u in Subscribed(calls) <==> Lookup(subs, u).Present?
  }

  /** Nothing was published in a stretch of the history. */
  predicate Silent(past: seq<Call>, calls: seq<Call>) {
    past <= calls && forall k :: |past| <= k < |calls| ==> !calls[k].op.Publish?
  }

  /** One request was published, after everything else, with that code. */
  predicate PublishedLast(past: seq<Call>, calls: seq<Call>, topic: string, rc: int) {
    |past| < |calls| && calls[|calls| - 1] == Call(Publish, topic, rc) && Silent(past, calls[..|calls| - 1])
  }

  /** The two subscriptions of a request, the second only after the first; a failure may be followed by giving the first back. */
  predicate Opened(past: seq<Call>, calls: seq<Call>, acc: string, rej: string, rc: int) {
    past <= calls && |past| < |calls| && calls[|past|] == Call(Subscribe, acc, calls[|past|].rc) &&
    if calls[|past|].rc != SUCCESS then rc == calls[|past|].rc && GivenBack(calls[|past| + 1..], acc)
    else |past| + 1 < |calls| && calls[|past| + 1] == Call(Subscribe, rej, rc) &&
         if rc == SUCCESS then |calls| == |past| + 2
         else |calls| == |past| + 3 && calls[|past| + 2] == Call(Unsubscribe, acc, calls[|past| + 2].rc)
  }

  predicate GivenBack(calls: seq<Call>, acc: string) {
    |calls| <= 1 && (|calls| == 1 ==> calls[0] == Call(Unsubscribe, acc, calls[0].rc))
  }

  lemma OpenedSuccess(past: seq<Call>, calls: seq<Call>, acc: string, rej: string)
    ensures Opened(past, calls, acc, rej, SUCCESS) ==>
              calls == past + [Call(Subscribe, acc, SUCCESS), Call(Subscribe, rej, SUCCESS)]
  {}

  lemma OpenedIsSilent(past: seq<Call>, calls: seq<Call>, acc: string, rej: string, rc: int)
    requires Opened(past, calls, acc, rej, rc)
    ensures Silent(past, calls)
  {
    forall k | |past| <= k < |calls|
      ensures !calls[k].op.Publish?
    {
      if k == |past| + 1 && calls[|past|].rc != SUCCESS { assert calls[k] == calls[|past| + 1..][0]; }
    }
  }

  /** The last request that needs a topic gives it up. */
  predicate LastUse(subs: seq<SubRecord>, topic: string) {
    var i := Find(subs, topic);
    i >= 0 && !subs[i].isSticky && subs[i].count == 1
  }

  /** The call by which a topic is given up. */
  function Dropped(subs: seq<SubRecord>, topic: string): seq<Call> {
    if LastUse(subs, topic) then [Call(Unsubscribe, topic, SUCCESS)] else []
  }

  // ---- topics by their characters ----

  function RequestSuffix(action: Action): string {
    match action
    case Get => "/shadow/get"
    case Update => "/shadow/update"
    case Delete => "/shadow/delete"
  }

  function AnswerSuffix(answer: Answer): string {
    match answer
    case Accepted => "/accepted"
    case Rejected => "/rejected"
  }

  /** The topics of a thing, spelled out. */
  lemma TopicNames(thing: string, action: Action, answer: Answer)
    ensures TopicOf(thing, action, answer) ==
            "$aws/things/" + thing + (RequestSuffix(action) + AnswerSuffix(answer))
    ensures ActionTopic(thing, action) == "$aws/things/" + thing + RequestSuffix(action)
  {
    AnswerJoin(action, ActionName(action), answer);
    Regroup("$aws/things/", thing, "/shadow/" + (ActionName(action) + ("/" + AnswerName(answer))));
    Regroup2("$aws/things/" + thing, "/shadow/", ActionName(action));
    hide ActionName, AnswerName, RequestSuffix, AnswerSuffix;
  }

  lemma Regroup(a: string, b: string, c: string)
    ensures a + (b + c) == a + b + c
  {}

  lemma Regroup2(a: string, b: string, c: string)
    ensures a + b + c == a + (b + c)
  {}

  lemma AnswerJoin(action: Action, name: string, answer: Answer)
    requires name == ActionName(action)
    ensures "/shadow/" + name == RequestSuffix(action)
    ensures "/shadow/" + (name + ("/" + AnswerName(answer))) == RequestSuffix(action) + AnswerSuffix(answer)
  {
    ActionJoin(action);
    EndJoin(name, answer);
    hide ActionName, AnswerName, RequestSuffix, AnswerSuffix;
  }

  lemma EndJoin(name: string, answer: Answer)
    ensures "/shadow/" + (name + ("/" + AnswerName(answer))) == "/shadow/" + name + AnswerSuffix(answer)
  {}

  lemma ActionJoin(action: Action)
    ensures "/shadow/" + ActionName(action) == RequestSuffix(action)
  {}

  /** No request goes out on a topic on which answers are awaited. */
  lemma RequestIsNoAnswer(thing: string, action: Action, thing': string, action': Action, answer: Answer)
    ensures ActionTopic(thing, action) != TopicOf(thing', action', answer)
  {
    var s, t := ActionTopic(thing, action), TopicOf(thing', action', answer);
    TopicNames(thing, action, answer);
    TopicNames(thing', action', answer);
    assert t[|t| - 1] == 'd' by { SuffixEnd("$aws/things/" + thing', action', answer); }
    hide TopicOf, AnswerSuffix;
    assert s[|s| - 1] in {'t', 'e'};
  }

  lemma SuffixEnd(p: string, action: Action, answer: Answer)
    ensures var t := p + (RequestSuffix(action) + AnswerSuffix(answer)); t != "" && t[|t| - 1] == 'd'
  {}
}
