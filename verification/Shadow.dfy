/** Shadow actions: subscribing for their answers, waiting, answers and timeouts. */
module Shadow {
  import opened ShadowStatus
  import opened ShadowTables
  import opened ShadowCalls

  /** The table after every record of the two topics has been counted once more. */
  function Incremented(subs: seq<SubRecord>, acc: string, rej: string, sticky: bool): (r: seq<SubRecord>)
    ensures |r| == |subs|
    ensures forall i :: 0 <= i < |subs| ==>
      r[i] == if Live(subs[i], acc) || Live(subs[i], rej)
              then subs[i].(count := (subs[i].count + 1) % 256, isSticky := sticky) else subs[i]
  {
    seq(|subs|, i requires 0 <= i < |subs| =>
      if Live(subs[i], acc) || Live(subs[i], rej)
      then subs[i].(count := (subs[i].count + 1) % 256, isSticky := sticky) else subs[i])
  }

  function EntryIncremented(e: Entry, sticky: bool): Entry {
    match e
    case Absent => Absent
    case Present(c, _) => Present((c + 1) % 256, sticky)
  }

  lemma LookupIncremented(subs: seq<SubRecord>, acc: string, rej: string, sticky: bool, u: string)
    ensures Lookup(Incremented(subs, acc, rej, sticky), u) ==
            if u == acc || u == rej then EntryIncremented(Lookup(subs, u), sticky) else Lookup(subs, u)
  {
    var after := Incremented(subs, acc, rej, sticky);
    var a, b := Find(after, u), Find(subs, u);
    if b >= 0 { assert Live(after[b], u); }
    if a >= 0 { assert Live(subs[a], u); }
  }

  /** One request fewer on a topic: the last one of a topic that is not sticky frees its record. */
  function Released(r: SubRecord): SubRecord {
    if !r.isSticky && r.count == 1 then r.(isFree := true)
    else if r.count > 1 then r.(count := r.count - 1)
    else r
  }

  function ReleasedIn(subs: seq<SubRecord>, topic: string): (r: seq<SubRecord>)
    ensures |r| == |subs|
  {
    var i := Find(subs, topic);
    if i == -1 then subs else subs[i := Released(subs[i])]
  }

  function ReleasedPair(subs: seq<SubRecord>, thing: string, action: Action): seq<SubRecord> {
    ReleasedIn(ReleasedIn(subs, TopicOf(thing, action, Accepted)), TopicOf(thing, action, Rejected))
  }

  function EntryReleased(e: Entry): Entry {
    match e
    case Absent => Absent
    case Present(c, sticky) =>
      if !sticky && c == 1 then Absent else if c > 1 then Present(c - 1, sticky) else e
  }

  lemma LookupReleased(subs: seq<SubRecord>, topic: string)
    requires Distinct(subs)
    ensures Distinct(ReleasedIn(subs, topic))
    ensures forall u :: Lookup(ReleasedIn(subs, topic), u) ==
                        if u == topic then EntryReleased(Lookup(subs, u)) else Lookup(subs, u)
  {
    var i := Find(subs, topic);
    if i >= 0 {
      hide Distinct;
      SetRecord(subs, i, Released(subs[i]), topic);
    }
  }

  /** The calls by which a finished request gives up its topics. */
  function DroppedPair(subs: seq<SubRecord>, thing: string, action: Action): seq<Call> {
    Dropped(subs, TopicOf(thing, action, Accepted)) +
    Dropped(ReleasedIn(subs, TopicOf(thing, action, Accepted)), TopicOf(thing, action, Rejected))
  }

  class Shadow {
    const ack: array<AckRecord>
    const subs: array<SubRecord>
    /** History: no MQTT call has failed so far. */
    var succeeded: bool
    /** History: the MQTT calls. */
    ghost var calls: seq<Call>
    /** History: the kinds of which a request was sticky. */
    ghost var kept: set<Pair>

    ghost predicate Valid()
      reads this
    {
      ack.Length == MAX_ACKS && subs.Length == MAX_TOPICS
    }

    ghost predicate Ok()
      reads this, ack, subs
    {
      Valid() && Consistent(ack[..], subs[..], kept)
    }

    /** The tables fit together, every MQTT call so far succeeded, and what is subscribed are the live topics. */
    ghost predicate Sound()
      reads this, ack, subs
    {
      Ok() && succeeded && Mirrored(calls, subs[..])
    }

    constructor ()
      ensures Sound() && kept == {} && calls == [] && fresh(ack) && fresh(subs)
      ensures forall i :: 0 <= i < MAX_ACKS ==> ack[i].isFree
      ensures forall i :: 0 <= i < MAX_TOPICS ==> subs[i].isFree
    {
      ack := new AckRecord[MAX_ACKS](_ => AckRecord("", "", Get, true));
      subs := new SubRecord[MAX_TOPICS](_ => SubRecord("", 0, true, false));
      succeeded := true;
      calls := [];
      kept := {};
      new;
      assert forall i :: 0 <= i < MAX_ACKS ==> ack[..][i].isFree;
      assert forall i :: 0 <= i < MAX_TOPICS ==> subs[..][i].isFree;
      EmptyTables(ack[..], subs[..]);
      MirroredEmpty(subs[..]);
    }

    /** An MQTT call, which may fail. */
    method Mqtt(op: Op, topic: string) returns (rc: int)
      modifies this`succeeded, this`calls
      ensures calls == old(calls) + [Call(op, topic, rc)] && succeeded == (old(succeeded) && rc == SUCCESS)
    {
      rc := *;
      calls := calls + [Call(op, topic, rc)];
      succeeded := succeeded && rc == SUCCESS;
    }

    /** Takes the first free record. */
    method NextFreeTopic() returns (i: int)
      requires Valid()
      modifies subs
      ensures -1 <= i < MAX_TOPICS
      ensures i == -1 ==> subs[..] == old(subs[..]) && forall k :: 0 <= k < MAX_TOPICS ==> !subs[k].isFree
      ensures i >= 0 ==> old(subs[i].isFree) && (forall k :: 0 <= k < i ==> !old(subs[k].isFree)) &&
                         subs[..] == old(subs[..])[i := old(subs[i]).(isFree := false)]
    {
      for k := 0 to MAX_TOPICS
        invariant subs[..] == old(subs[..]) && forall j :: 0 <= j < k ==> !subs[j].isFree
      {
        if subs[k].isFree {
          subs[k] := subs[k].(isFree := false);
          return k;
        }
      }
      return -1;
    }

    method FindTopic(topic: string) returns (i: int)
      requires Valid()
      ensures i == Find(subs[..], topic)
    {
      ghost var s := subs[..];
      for k := 0 to MAX_TOPICS
        invariant forall j :: 0 <= j < k ==> !Live(s[j], topic)
      {
        if Live(subs[k], topic) {
          return k;
        }
      }
      return -1;
    }

    method IsSubscriptionPresent(thing: string, action: Action) returns (present: bool)
      requires Valid()
      ensures present <==> Lookup(subs[..], TopicOf(thing, action, Accepted)).Present? &&
                           Lookup(subs[..], TopicOf(thing, action, Rejected)).Present?
    {
      var acc, rej := TopicOf(thing, action, Accepted), TopicOf(thing, action, Rejected);
      TopicsDiffer(thing, action);
      hide TopicOf;
      ghost var s := subs[..];
      var isAccepted, isRejected := false, false;
      for k := 0 to MAX_TOPICS
        invariant isAccepted <==> exists j :: 0 <= j < k && Live(s[j], acc)
        invariant isRejected <==> exists j :: 0 <= j < k && Live(s[j], rej)
      {
        if !subs[k].isFree {
          if subs[k].topic == acc {
            isAccepted := true;
          } else if subs[k].topic == rej {
            isRejected := true;
          }
        }
      }
      return isAccepted && isRejected;
    }

    method IncrementCount(thing: string, action: Action, sticky: bool)
      requires Valid()
      modifies subs
      ensures subs[..] == Incremented(old(subs[..]),
          TopicOf(thing, action, Accepted), TopicOf(thing, action, Rejected), sticky)
    {
      var acc, rej := TopicOf(thing, action, Accepted), TopicOf(thing, action, Rejected);
      hide TopicOf;
      ghost var was := old(subs[..]);
      for k := 0 to MAX_TOPICS
        invariant forall j :: 0 <= j < k ==> subs[j] == Incremented(was, acc, rej, sticky)[j]
        invariant forall j :: k <= j < MAX_TOPICS ==> subs[j] == was[j]
      {
        if !subs[k].isFree {
          if acc == subs[k].topic || rej == subs[k].topic {
            subs[k] := subs[k].(count := (subs[k].count + 1) % 256, isSticky := sticky);
          }
        }
      }
    }

    /**
     * Subscribes to both topics of a request. With one free record only it does nothing and still
     * succeeds. When an MQTT call fails the accepted record is given back and the rejected one is not.
     */
    method SubscribeToAcks(thing: string, action: Action, sticky: bool) returns (rc: int, ghost a: int, ghost r: int)
      requires Valid() && exists i :: 0 <= i < MAX_TOPICS && subs[i].isFree
      modifies this`succeeded, this`calls, subs
      ensures succeeded ==> old(succeeded) && rc == SUCCESS
      ensures !TwoFree(old(subs[..])) ==> rc == SUCCESS && subs[..] == old(subs[..])
      ensures TwoFree(old(subs[..])) ==>
                0 <= a < r < MAX_TOPICS && old(subs[a].isFree) && old(subs[r].isFree) &&
                if rc == SUCCESS then subs[..] == WithPair(old(subs[..]), a, r, thing, action, sticky)
                else Leaked(old(subs[..]), subs[..], a, r)
      ensures Silent(old(calls), calls)
      ensures TwoFree(old(subs[..])) ==>
                Opened(old(calls), calls, TopicOf(thing, action, Accepted), TopicOf(thing, action, Rejected), rc)
    {
      hide TopicOf;
      rc := SUCCESS;
      var clearBoth := true;
      ghost var was := subs[..];
      var accepted := NextFreeTopic();
      ghost var was1 := subs[..];
      var rejected := NextFreeTopic();
      a, r := accepted, rejected;
      SecondFree(was, was1, a, r);
      if accepted >= 0 && rejected >= 0 {
        rc := SubscribeBoth(thing, action, sticky, accepted, rejected);
        clearBoth := rc != SUCCESS;
      }
      if clearBoth {
        // the accepted record was found, so only that one is given back
        subs[accepted] := subs[accepted].(isFree := true);
        if subs[accepted].count == 1 {
          var unused := Mqtt(Unsubscribe, subs[accepted].topic);
        }
      }
      if TwoFree(was) {
        OpenedIsSilent(old(calls), calls, TopicOf(thing, action, Accepted), TopicOf(thing, action, Rejected), rc);
      }
    }

    method SubscribeBoth(thing: string, action: Action, sticky: bool, accepted: nat, rejected: nat) returns (rc: int)
      requires Valid() && accepted < rejected < MAX_TOPICS && !subs[accepted].isFree && !subs[rejected].isFree
      modifies this`succeeded, this`calls, subs
      ensures succeeded == (old(succeeded) && rc == SUCCESS)
      ensures !subs[accepted].isFree && !subs[rejected].isFree
      ensures forall k :: 0 <= k < MAX_TOPICS && k != accepted && k != rejected ==> subs[k] == old(subs[k])
      ensures rc == SUCCESS ==>
                subs[accepted] == SubRecord(TopicOf(thing, action, Accepted), 1, false, sticky) &&
                subs[rejected] == SubRecord(TopicOf(thing, action, Rejected), 1, false, sticky)
      ensures subs[accepted].topic == TopicOf(thing, action, Accepted)
      ensures var first := [Call(Subscribe, TopicOf(thing, action, Accepted), SUCCESS)];
              if |calls| == |old(calls)| + 1
              then calls == old(calls) + [Call(Subscribe, TopicOf(thing, action, Accepted), rc)] && rc != SUCCESS
              else calls == old(calls) + first + [Call(Subscribe, TopicOf(thing, action, Rejected), rc)] &&
                   subs[accepted].count == 1
    {
      hide TopicOf;
      subs[accepted] := subs[accepted].(topic := TopicOf(thing, action, Accepted));
      rc := Mqtt(Subscribe, subs[accepted].topic);
      if rc != SUCCESS { return; }
      subs[accepted] := subs[accepted].(count := 1, isSticky := sticky);
      subs[rejected] := subs[rejected].(topic := TopicOf(thing, action, Rejected));
      rc := Mqtt(Subscribe, subs[rejected].topic);
      if rc != SUCCESS { return; }
      subs[rejected] := subs[rejected].(count := 1, isSticky := sticky);
    }

    /** One request fewer on a topic; when giving it up fails its record stays. */
    method UnsubscribeTopic(topic: string)
      requires Valid()
      modifies this`succeeded, this`calls, subs
      ensures succeeded ==> old(succeeded) && subs[..] == ReleasedIn(old(subs[..]), topic)
      ensures succeeded ==> calls == old(calls) + Dropped(old(subs[..]), topic)
      ensures if LastUse(old(subs[..]), topic) then
                old(calls) < calls && calls == old(calls) + [Call(Unsubscribe, topic, calls[|old(calls)|].rc)] &&
                (calls[|old(calls)|].rc != SUCCESS ==> subs[..] == old(subs[..]))
              else calls == old(calls) && subs[..] == ReleasedIn(old(subs[..]), topic)
    {
      var i := FindTopic(topic);
      if i >= 0 {
        if !subs[i].isSticky && subs[i].count == 1 {
          var rc := Mqtt(Unsubscribe, topic);
          if rc == SUCCESS {
            subs[i] := subs[i].(isFree := true);
          }
        } else if subs[i].count > 1 {
          subs[i] := subs[i].(count := subs[i].count - 1);
        }
      }
    }

    /** The request of record `index` no longer needs its topics. */
    method UnsubscribeFromAcceptedAndRejected(index: nat)
      requires Valid() && index < MAX_ACKS
      modifies this`succeeded, this`calls, subs
      ensures succeeded ==> old(succeeded)
      ensures succeeded ==> subs[..] == ReleasedPair(old(subs[..]), ack[index].thing, ack[index].action)
      ensures succeeded ==> calls == old(calls) + DroppedPair(old(subs[..]), ack[index].thing, ack[index].action)
      ensures Silent(old(calls), calls)
    {
      hide TopicOf, ReleasedIn, Dropped, LastUse;
      assert ReleasedPair(subs[..], ack[index].thing, ack[index].action) ==
             ReleasedIn(ReleasedIn(subs[..], TopicOf(ack[index].thing, ack[index].action, Accepted)),
                        TopicOf(ack[index].thing, ack[index].action, Rejected));
      UnsubscribeTopic(TopicOf(ack[index].thing, ack[index].action, Accepted));
      UnsubscribeTopic(TopicOf(ack[index].thing, ack[index].action, Rejected));
    }

    method NextFreeAck() returns (i: int)
      requires Valid()
      ensures -1 <= i < MAX_ACKS
      ensures i == -1 ==> forall k :: 0 <= k < MAX_ACKS ==> !ack[k].isFree
      ensures i >= 0 ==> ack[i].isFree && forall k :: 0 <= k < i ==> !ack[k].isFree
    {
      for k := 0 to MAX_ACKS
        invariant forall j :: 0 <= j < k ==> !ack[j].isFree
      {
        if ack[k].isFree { return k; }
      }
      return -1;
    }

    /** Both topics of a request are live. */
    ghost predicate PairPresent(thing: string, action: Action)
      reads this, subs
      requires Valid()
    {
      Lookup(subs[..], TopicOf(thing, action, Accepted)).Present? &&
          Lookup(subs[..], TopicOf(thing, action, Rejected)).Present?
    }

    /** A request that waits, has a record for it, and finds its topics not yet subscribed. */
    ghost predicate Subscribes(thing: string, action: Action, waits: bool)
      reads this, ack, subs
      requires Valid()
    {
      waits && !Busy() && !PairPresent(thing, action)
    }

    /** What new topics need: a free record, which is there while few kinds of request are in use. */
    ghost predicate Room()
      reads this, ack, subs
      requires Valid()
    {
      (Ok() && |kept + WaitingPairs(ack[..])| < MAX_ACKS) || exists i :: 0 <= i < MAX_TOPICS && subs[i].isFree
    }

    /**
     * Starts a request. With a token and a callback it waits for an answer: it needs a free waiting
     * record and, for the topics, an earlier subscription or free records; with none the source reads
     * in front of its table.
     */
    method InternalAction(thing: string, action: Action, token: string, waits: bool, sticky: bool)
      returns (rc: int, ghost a: int, ghost r: int)
      requires Valid() && |thing| < MAX_SIZE_OF_THING_NAME && (Subscribes(thing, action, waits) ==> Room())
      modifies this`succeeded, this`calls, this`kept, ack, subs
      ensures Valid() && (old(Sound()) && succeeded ==> Sound()) && (succeeded ==> old(succeeded))
      ensures kept == KeptWith(old(kept), thing, action, sticky && waits && !old(Busy()))
      ensures waits && old(Busy()) ==> rc == FAILURE && ack[..] == old(ack[..]) && subs[..] == old(subs[..])
      ensures !waits ==> ack[..] == old(ack[..]) && subs[..] == old(subs[..])
      ensures rc != SUCCESS ==> ack[..] == old(ack[..])
      ensures rc == SUCCESS && waits ==>
                exists k :: 0 <= k < MAX_ACKS && old(ack[k].isFree) &&
                  ack[..] == old(ack[..])[k := AckRecord(token, thing, action, false)]
      ensures succeeded && !(waits && old(Busy())) ==> rc == SUCCESS
      ensures waits && !old(Busy()) && !old(Subscribes(thing, action, waits)) ==>
                subs[..] == Incremented(old(subs[..]),
                    TopicOf(thing, action, Accepted), TopicOf(thing, action, Rejected), sticky)
      ensures old(Subscribes(thing, action, waits)) && !TwoFree(old(subs[..])) ==> subs[..] == old(subs[..])
      ensures old(Subscribes(thing, action, waits)) && TwoFree(old(subs[..])) ==>
                0 <= a < r < MAX_TOPICS && old(subs[a].isFree) && old(subs[r].isFree) &&
                var acc, rej := TopicOf(thing, action, Accepted), TopicOf(thing, action, Rejected);
                if calls == old(calls) + [Call(Subscribe, acc, SUCCESS), Call(Subscribe, rej, SUCCESS),
                                          Call(Publish, ActionTopic(thing, action), rc)]
                then subs[..] == WithPair(old(subs[..]), a, r, thing, action, sticky)
                else rc != SUCCESS && Opened(old(calls), calls, acc, rej, rc) && Leaked(old(subs[..]), subs[..], a, r)
      ensures waits && old(Busy()) ==> calls == old(calls)
      ensures !(waits && old(Busy())) && !old(Subscribes(thing, action, waits)) ==>
                calls == old(calls) + [Call(Publish, ActionTopic(thing, action), rc)]
      ensures old(Subscribes(thing, action, waits)) && !TwoFree(old(subs[..])) ==>
                PublishedLast(old(calls), calls, ActionTopic(thing, action), rc)
    {
      hide TopicOf, Consistent, Waiting, Incremented, Lookup, TwoFree, WaitingPairs, Leaked, WithPair, KeptWith, Mirrored,
        ActionTopic, Opened;
      KeptWithCases(kept, thing, action, false);
      rc, a, r := SUCCESS, -1, -1;
      ghost var ack0 := ack[..];
      var index := -1;
      if waits {
        index := NextFreeAck();
        if index < 0 { return FAILURE, a, r; }
        rc, a, r := TopicsFor(thing, action, sticky, index, token);
        kept := KeptWith(kept, thing, action, sticky);
      }
      ghost var opening := calls;
      if rc == SUCCESS {
        OpenedSuccess(old(calls), opening, TopicOf(thing, action, Accepted), TopicOf(thing, action, Rejected));
        rc := Mqtt(Publish, ActionTopic(thing, action));
        MirroredPublish(opening, calls[|opening|], subs[..]);
      } else {
        OpenedIsSilent(old(calls), opening, TopicOf(thing, action, Accepted), TopicOf(thing, action, Rejected), rc);
        assert |calls| > |old(calls)| ==> !calls[|calls| - 1].op.Publish?;
      }
      if waits && rc == SUCCESS {
        ack[index] := AckRecord(token, thing, action, false);
        assert ack[..] == ack0[index := AckRecord(token, thing, action, false)];
      }
    }

    /** The topics of a request that waits in a record to come. */
    method TopicsFor(thing: string, action: Action, sticky: bool, ghost index: nat, ghost token: string)
      returns (rc: int, ghost a: int, ghost r: int)
      requires Valid() && index < MAX_ACKS && ack[index].isFree && (!PairPresent(thing, action) ==> Room())
      modifies this`succeeded, this`calls, subs
      ensures succeeded ==> old(succeeded) && rc == SUCCESS
      ensures old(Sound()) && succeeded ==>
                Consistent(ack[..][index := AckRecord(token, thing, action, false)], subs[..],
                           KeptWith(kept, thing, action, sticky))
      ensures old(PairPresent(thing, action)) ==>
                subs[..] == Incremented(old(subs[..]),
                    TopicOf(thing, action, Accepted), TopicOf(thing, action, Rejected), sticky)
      ensures !old(PairPresent(thing, action)) && !TwoFree(old(subs[..])) ==> subs[..] == old(subs[..])
      ensures !old(PairPresent(thing, action)) && TwoFree(old(subs[..])) ==>
                0 <= a < r < MAX_TOPICS && old(subs[a].isFree) && old(subs[r].isFree) &&
                if rc == SUCCESS then subs[..] == WithPair(old(subs[..]), a, r, thing, action, sticky)
                else Leaked(old(subs[..]), subs[..], a, r)
      ensures old(PairPresent(thing, action)) ==> rc == SUCCESS && calls == old(calls)
      ensures !old(PairPresent(thing, action)) && TwoFree(old(subs[..])) ==>
                Opened(old(calls), calls, TopicOf(thing, action, Accepted), TopicOf(thing, action, Rejected), rc)
      ensures !old(PairPresent(thing, action)) && !TwoFree(old(subs[..])) ==> rc == SUCCESS && Silent(old(calls), calls)
      ensures old(Sound()) && succeeded ==> Mirrored(calls, subs[..])
    {
      hide TopicOf, Consistent, Incremented, Lookup, TwoFree, WaitingPairs, Leaked, WithPair, KeptWith, Mirrored, Opened,
        Silent;
      a, r := -1, -1;
      rc := SUCCESS;
      ghost var ack0, subs0 := ack[..], subs[..];
      var present := IsSubscriptionPresent(thing, action);
      if !present {
        RoomMeansFree(ack0, subs0, kept);
        rc, a, r := SubscribeToAcks(thing, action, sticky);
      } else {
        IncrementCount(thing, action, sticky);
      }
      if old(Sound()) && succeeded {
        if !present { RoomMeansTwo(ack0, subs0, kept); }
        RequestKeeps(ack0, subs0, kept, index, present, a, r, token, thing, action, sticky, subs[..]);
        RequestMirrored(ack0, subs0, kept, old(calls), calls, present, a, r, thing, action, sticky, subs[..]);
      }
    }

    /** All waiting records are taken. */
    ghost predicate Busy()
      reads this, ack
      requires Valid()
    {
      forall k :: 0 <= k < MAX_ACKS ==> !ack[k].isFree
    }

    /**
     * An answer with a token: the first waiting request with that token is finished. `text` is what lies
     * where the topic of the answer starts, up to the terminator; the status comes from it.
     */
    method AckStatus(text: string, token: string) returns (answered: bool, status: Answer)
      requires Valid()
      modifies this`succeeded, this`calls, ack, subs
      ensures Valid() && kept == old(kept) && (old(Sound()) && succeeded ==> Sound()) && (succeeded ==> old(succeeded))
      ensures answered ==>
                exists k :: 0 <= k < MAX_ACKS && !old(ack[k].isFree) && old(ack[k].token) == token &&
                  (forall j :: 0 <= j < k ==> old(ack[j].isFree) || old(ack[j].token) != token || !Marked(text)) &&
                  ack[..] == old(ack[..])[k := old(ack[k]).(isFree := true)] &&
                  (succeeded ==>
                     subs[..] == ReleasedPair(old(subs[..]), old(ack[k].thing), old(ack[k].action)) &&
                     calls == old(calls) + DroppedPair(old(subs[..]), old(ack[k].thing), old(ack[k].action)))
      ensures Marked(text) ==>
                (answered <==> exists k :: 0 <= k < MAX_ACKS && !old(ack[k].isFree) && old(ack[k].token) == token)
      ensures answered && Marked(text) ==> status == StatusOf(text)
      ensures !answered ==> ack[..] == old(ack[..]) && subs[..] == old(subs[..]) && succeeded == old(succeeded)
      ensures if answered then Silent(old(calls), calls) else calls == old(calls)
    {
      hide TopicOf, Consistent, Waiting, ReleasedPair, Contains, Mirrored, DroppedPair;
      ghost var ack0, subs0, calls0 := ack[..], subs[..], calls;
      status := Accepted;
      for i := 0 to MAX_ACKS
        invariant ack[..] == ack0 && subs[..] == subs0 && succeeded == old(succeeded) && calls == calls0
        invariant forall k :: 0 <= k < i ==> ack[k].isFree || ack[k].token != token || !Marked(text)
      {
        if !ack[i].isFree && ack[i].token == token {
          var known: bool := *;  // without either word the status is whatever its memory holds
          status := *;
          if Contains(text, "accepted") {
            known, status := true, Accepted;
          } else if Contains(text, "rejected") {
            known, status := true, Rejected;
          }
          if known {
            UnsubscribeFromAcceptedAndRejected(i);
            ack[i] := ack[i].(isFree := true);
            assert ack[..] == ack0[i := ack0[i].(isFree := true)];
            if old(Sound()) {
              ReleaseKeeps(ack0, subs0, kept, i);
              ReleaseMirrored(ack0, subs0, kept, calls0, ack0[i].thing, ack0[i].action);
            }
            return true, status;
          }
        }
      }
      return false, status;
    }

    /** The waiting requests whose timers have run out, and no others, are finished. */
    method HandleExpiredResponses(expired: set<nat>)
      requires Valid()
      modifies this`succeeded, this`calls, ack, subs
      ensures Valid() && kept == old(kept) && (old(Sound()) && succeeded ==> Sound()) && (succeeded ==> old(succeeded))
      ensures forall k :: 0 <= k < MAX_ACKS ==>
                ack[k] == if k in expired then old(ack[k]).(isFree := true) else old(ack[k])
      ensures Silent(old(calls), calls)
    {
      hide TopicOf, Consistent, Waiting, ReleasedPair, Mirrored, DroppedPair;
      for i := 0 to MAX_ACKS
        invariant Valid() && (old(Sound()) && succeeded ==> Sound()) && (succeeded ==> old(succeeded))
        invariant forall k :: 0 <= k < i ==>
                    ack[k] == if k in expired then old(ack[k]).(isFree := true) else old(ack[k])
        invariant forall k :: i <= k < MAX_ACKS ==> ack[k] == old(ack[k])
        invariant Silent(old(calls), calls)
      {
        if !ack[i].isFree && i in expired {
          Finish(i);
        }
      }
    }

    method Finish(i: nat)
      requires Valid() && i < MAX_ACKS && !ack[i].isFree
      modifies this`succeeded, this`calls, ack, subs
      ensures Valid() && (old(Sound()) && succeeded ==> Sound()) && (succeeded ==> old(succeeded))
      ensures ack[..] == old(ack[..])[i := old(ack[i]).(isFree := true)] && Silent(old(calls), calls)
      ensures succeeded ==> subs[..] == ReleasedPair(old(subs[..]), old(ack[i].thing), old(ack[i].action)) &&
                            calls == old(calls) + DroppedPair(old(subs[..]), old(ack[i].thing), old(ack[i].action))
    {
      hide TopicOf, Consistent, Waiting, ReleasedPair, Mirrored, DroppedPair;
      ghost var ack0, subs0, calls0, sound := ack[..], subs[..], calls, Sound();
      ack[i] := ack[i].(isFree := true);
      assert ack[..] == ack0[i := ack0[i].(isFree := true)];
      UnsubscribeFromAcceptedAndRejected(i);
      if sound {
        ReleaseKeeps(ack0, subs0, kept, i);
        ReleaseMirrored(ack0, subs0, kept, calls0, ack0[i].thing, ack0[i].action);
      }
    }
  }

  /**
   * Any number of requests, answers and timeouts, until an MQTT call fails: without sticky requests
   * always, and with them while the table of topics is not full.
   */
  method Session(steps: nat, plain: bool) returns (s: Shadow)
    ensures s.succeeded ==> s.Ok() && Mirrored(s.calls, s.subs[..])
    ensures plain ==> s.kept == {}
  {
    hide Consistent, WaitingPairs, Mirrored;
    s := new Shadow();
    for i := 0 to steps
      invariant fresh(s) && fresh(s.ack) && fresh(s.subs) && s.Valid()
      invariant (s.succeeded ==> s.Sound()) && (plain ==> s.kept == {})
    {
      var choice: nat, thing: string, action: Action, token: string, waits: bool, sticky: bool := *, *, *, *, *, *;
      if choice == 0 {
        if |thing| >= MAX_SIZE_OF_THING_NAME { thing := ""; }
        if plain { PlainRoom(s.ack[..], s.kept); }
        if (plain && s.succeeded) || exists j :: 0 <= j < MAX_TOPICS && s.subs[j].isFree {
          ghost var a, r;
          var rc;
          rc, a, r := s.InternalAction(thing, action, token, waits, sticky && !plain);
        }
      } else if choice == 1 {
        var answered, status := s.AckStatus(thing, token);
      } else {
        var expired: set<nat> := *;
        s.HandleExpiredResponses(expired);
      }
    }
  }

  lemma PlainRoom(ack: seq<AckRecord>, kept: set<Pair>)
    requires kept == {} && |ack| == MAX_ACKS
    ensures (exists k :: 0 <= k < MAX_ACKS && ack[k].isFree) ==> |kept + WaitingPairs(ack)| < MAX_ACKS
  {
    hide WaitingPairs;
    assert kept + WaitingPairs(ack) == WaitingPairs(ack);
  }

  // ---- sticky topics ----

  /** One request, answered at once, while no other request waits. */
  method RequestAndAnswer(s: Shadow, thing: string, sticky: bool) returns (ghost a: int, ghost r: int)
    requires s.Sound() && |thing| < MAX_SIZE_OF_THING_NAME && |s.kept| < MAX_ACKS
    requires forall k :: 0 <= k < MAX_ACKS ==> s.ack[k].isFree
    modifies s`succeeded, s`calls, s`kept, s.ack, s.subs
    ensures s.Valid() && s.kept == KeptWith(old(s.kept), thing, Get, sticky)
    ensures s.succeeded ==> s.Sound() && forall k :: 0 <= k < MAX_ACKS ==> s.ack[k].isFree
    ensures s.succeeded && !old(s.Subscribes(thing, Get, true)) ==>
              s.subs[..] == ReleasedPair(Incremented(old(s.subs[..]), TopicOf(thing, Get, Accepted),
                                                     TopicOf(thing, Get, Rejected), sticky), thing, Get)
    ensures s.succeeded && old(s.Subscribes(thing, Get, true)) ==>
              0 <= a < r < MAX_TOPICS && old(s.subs[a].isFree) && old(s.subs[r].isFree) &&
              s.subs[..] == ReleasedPair(WithPair(old(s.subs[..]), a, r, thing, Get, sticky), thing, Get)
  {
    hide TopicOf, Consistent,
        Waiting, Incremented, Lookup, TwoFree, WaitingPairs, Leaked, ReleasedPair, WithPair, Contains, KeptWith;
    ghost var ack0, subs0 := s.ack[..], s.subs[..];
    NobodyWaits(ack0, s.kept);
    RoomMeansTwo(ack0, subs0, s.kept);
    assert s.ack[0].isFree && !s.Busy();
    var rc;
    rc, a, r := s.InternalAction(thing, Get, "t", true, sticky);
    if s.succeeded {
      ghost var k :| 0 <= k < MAX_ACKS && s.ack[..] == ack0[k := AckRecord("t", thing, Get, false)];
      assert s.ack[k] == s.ack[..][k] && forall j :: 0 <= j < MAX_ACKS ==> s.ack[j] == s.ack[..][j];
      assert Marked("accepted") by { AcceptedIsMarked(); }
      var answered, status := s.AckStatus("accepted", "t");
      assert forall j :: 0 <= j < MAX_ACKS ==> s.ack[j] == s.ack[..][j];
    }
  }

  lemma AcceptedIsMarked()
    ensures Marked("accepted")
  {
    assert "accepted"[..8] == "accepted";
  }

  lemma {:induction false} NobodyWaits(ack: seq<AckRecord>, kept: set<Pair>)
    requires forall k :: 0 <= k < |ack| ==> ack[k].isFree
    ensures WaitingPairs(ack) == {} && kept + WaitingPairs(ack) == kept
  {
    if |ack| > 0 {
      assert forall k :: 0 <= k < |ack| - 1 ==> ack[..|ack| - 1][k] == ack[k];
      NobodyWaits(ack[..|ack| - 1], kept);
    }
  }

  /** Kinds of request for things with names of different lengths. */
  function Kinds(n: nat): (r: set<Pair>)
    ensures |r| == n && forall p :: p in r ==> |p.thing| < n
  {
    if n == 0 then {} else Kinds(n - 1) + {Pair(seq(n - 1, _ => 'x'), Get)}
  }

  /**
   * Ten sticky requests of different kinds, each answered at once: while MQTT calls succeed no request
   * waits in the end, all topic records are taken, and a request of any other kind finds none free.
   */
  method FillWithSticky() returns (s: Shadow)
    ensures s.Valid() && |s.kept| <= MAX_ACKS
    ensures s.succeeded ==> s.Ok() && s.kept == Kinds(MAX_ACKS) && !s.Busy() && forall i :: 0 <= i < MAX_TOPICS ==>
        !s.subs[i].isFree
    ensures s.succeeded ==> forall thing, action :: Pair(thing, action) !in s.kept ==> s.Subscribes(thing, action, true)
  {
    hide Consistent, LiveBelow,
        WithPair, ReleasedPair, Kinds, Lookup, WaitingPairs, TopicOf, KeptWith, Distinct, OwnTopics;
    s := new Shadow();
    LiveAtMost(s.subs[..], MAX_TOPICS);
    assert Kinds(0) == {} by { NoKinds(); }
    for n := 0 to MAX_ACKS
      invariant fresh(s) && fresh(s.ack) && fresh(s.subs) && s.Valid() && |s.kept| <= n
      invariant s.succeeded ==> s.Sound() && s.kept == Kinds(n) && |LiveBelow(s.subs[..], MAX_TOPICS)| == 2 * n
      invariant s.succeeded ==> forall k :: 0 <= k < MAX_ACKS ==> s.ack[k].isFree
    {
      if s.succeeded {
        var thing := seq(n, _ => 'x');
        ghost var subs0, kept0 := s.subs[..], s.kept;
        NewKind(n, thing);
        NotKeptAbsent(s.ack[..], subs0, kept0, thing, Get);
        ConsistentShape(s.ack[..], subs0, kept0);
        assert s.ack[0].isFree && s.Subscribes(thing, Get, true);
        ghost var a, r := RequestAndAnswer(s, thing, true);
        KeptWithCases(kept0, thing, Get, true);
        if s.succeeded {
          StickyPairStays(subs0, a, r, thing, Get);
          LiveWithPair(subs0, a, r, thing, Get, true);
        }
      }
    }
    if s.succeeded {
      LiveAtMost(s.subs[..], MAX_TOPICS);
      assert s.ack[0].isFree;
      forall thing, action | Pair(thing, action) !in s.kept
        ensures s.Subscribes(thing, action, true)
      {
        NotKeptAbsent(s.ack[..], s.subs[..], s.kept, thing, action);
      }
    }
  }
  /**
   * A sticky and then a request of the same kind that is not sticky, both answered: while MQTT calls
   * succeed the topics stay, although no request waits for them and they are no longer sticky.
   */
  method StickyTopicStays(thing: string) returns (s: Shadow)
    requires |thing| < MAX_SIZE_OF_THING_NAME
    ensures s.succeeded ==> s.Valid() && (forall k :: 0 <= k < MAX_ACKS ==> s.ack[k].isFree) &&
                            Lookup(s.subs[..], TopicOf(thing, Get, Accepted)) == Present(1, false)
  {
    hide Consistent, WithPair, ReleasedPair, Lookup, TopicOf, Incremented, KeptWith, Distinct, OwnTopics;
    s := new Shadow();
    ghost var subs0 := s.subs[..];
    NotKeptAbsent(s.ack[..], subs0, {}, thing, Get);
    ConsistentShape(s.ack[..], subs0, {});
    assert s.ack[0].isFree && s.Subscribes(thing, Get, true);
    ghost var a, r := RequestAndAnswer(s, thing, true);
    KeptWithCases({}, thing, Get, true);
    if s.succeeded {
      StickyPairStays(subs0, a, r, thing, Get);
      SetPair(subs0, a, r, thing, Get, true);
      ghost var subs1 := s.subs[..];
      ConsistentShape(s.ack[..], subs1, s.kept);
      assert Lookup(subs1, TopicOf(thing, Get, Accepted)) == Present(1, true);
      assert Lookup(subs1, TopicOf(thing, Get, Rejected)) == Present(1, true);
      a, r := RequestAndAnswer(s, thing, false);
      if s.succeeded { StickyThenPlain(subs1, thing, Get); }
    }
  }

  lemma ConsistentShape(ack: seq<AckRecord>, subs: seq<SubRecord>, kept: set<Pair>)
    requires Consistent(ack, subs, kept)
    ensures Distinct(subs) && OwnTopics(subs)
  {}

  lemma StickyThenPlain(subs: seq<SubRecord>, thing: string, action: Action)
    requires Distinct(subs) && OwnTopics(subs)
    requires Lookup(subs, TopicOf(thing, action, Accepted)) == Present(1, true)
    ensures var acc, rej := TopicOf(thing, action, Accepted), TopicOf(thing, action, Rejected);
            Lookup(ReleasedPair(Incremented(subs, acc, rej, false), thing, action), acc) == Present(1, false)
  {
    var acc, rej := TopicOf(thing, action, Accepted), TopicOf(thing, action, Rejected);
    TopicsDiffer(thing, action);
    hide TopicOf, Lookup, Incremented, ReleasedIn, Distinct, OwnTopics;
    var counted := Incremented(subs, acc, rej, false);
    IncrementedShape(subs, acc, rej, false);
    LookupIncremented(subs, acc, rej, false, acc);
    LookupReleased(counted, acc);
    LookupReleased(ReleasedIn(counted, acc), rej);
  }

  /** The table with both topics of a request in records a and r. */
  function WithPair(subs: seq<SubRecord>, a: nat, r: nat, thing: string, action: Action, sticky: bool): seq<SubRecord>
    requires a < |subs| && r < |subs|
  {
    subs[a := SubRecord(TopicOf(thing, action, Accepted), 1, false, sticky)]
        [r := SubRecord(TopicOf(thing, action, Rejected), 1, false, sticky)]
  }

  lemma RoomMeansTwo(ack: seq<AckRecord>, subs: seq<SubRecord>, kept: set<Pair>)
    requires Consistent(ack, subs, kept)
    requires |kept + WaitingPairs(ack)| < MAX_ACKS || exists i :: 0 <= i < |subs| && subs[i].isFree
    ensures TwoFree(subs)
  {
    hide Consistent, WaitingPairs, TwoFree;
    if |kept + WaitingPairs(ack)| < MAX_ACKS {
      FewPairsLeaveRoom(ack, subs, kept);
    } else {
      OneFreeMeansTwo(ack, subs, kept);
    }
  }

  lemma RoomMeansFree(ack: seq<AckRecord>, subs: seq<SubRecord>, kept: set<Pair>)
    requires (Consistent(ack, subs, kept) && |kept + WaitingPairs(ack)| < MAX_ACKS) ||
             exists i :: 0 <= i < |subs| && subs[i].isFree
    ensures exists i :: 0 <= i < |subs| && subs[i].isFree
  {
    hide Consistent, WaitingPairs;
    if Consistent(ack, subs, kept) && |kept + WaitingPairs(ack)| < MAX_ACKS { FewPairsLeaveRoom(ack, subs, kept); }
  }

  /** After a failed subscription: of the two records that were free only the first is free again. */
  ghost predicate Leaked(was: seq<SubRecord>, now: seq<SubRecord>, a: int, r: int) {
    |now| == |was| && 0 <= a < r < |was| && was[a].isFree && was[r].isFree && now[a].isFree && !now[r].isFree &&
    forall k :: 0 <= k < |was| && k != a && k != r ==> now[k] == was[k]
  }

  /** Taking the first free record leaves a second one when there are two. */
  lemma SecondFree(subs: seq<SubRecord>, subs1: seq<SubRecord>, a: int, r: int)
    requires -1 <= a < |subs| && -1 <= r < |subs| && |subs1| == |subs|
    requires a == -1 ==> forall k :: 0 <= k < |subs| ==> !subs[k].isFree
    requires a >= 0 ==> subs[a].isFree && (forall k :: 0 <= k < a ==> !subs[k].isFree) &&
                        subs1 == subs[a := subs[a].(isFree := false)]
    requires r == -1 ==> forall k :: 0 <= k < |subs| ==> !subs1[k].isFree
    requires r >= 0 ==> subs1[r].isFree
    ensures TwoFree(subs) ==> a >= 0 && r >= 0
    ensures a >= 0 && r >= 0 ==> a < r && subs[r].isFree
  {
    if TwoFree(subs) {
      var i, j :| 0 <= i < j < |subs| && subs[i].isFree && subs[j].isFree;
      if a >= 0 { assert a < j && subs1[j] == subs[j]; }
    }
    if a >= 0 && r >= 0 { assert r != a && subs1[r] == subs[r]; }
  }

  lemma AckChange(ack: seq<AckRecord>, k: nat, r: AckRecord, thing: string, action: Action)
    requires k < |ack| && (ack[k].isFree || (ack[k].thing == thing && ack[k].action == action))
    requires r.isFree || (r.thing == thing && r.action == action)
    ensures Waiting(ack[k := r], thing, action) ==
            Waiting(ack, thing, action) - (if ack[k].isFree then 0 else 1) + if r.isFree then 0 else 1
    ensures forall t, a :: t != thing || a != action ==> Waiting(ack[k := r], t, a) == Waiting(ack, t, a)
  {
    WaitingUpdate(ack, k, r, thing, action);
    forall t, a | t != thing || a != action
      ensures Waiting(ack[k := r], t, a) == Waiting(ack, t, a)
    {
      WaitingUpdate(ack, k, r, t, a);
    }
  }

  lemma OwnSet(subs: seq<SubRecord>, i: nat, r: SubRecord)
    requires i < |subs| && OwnTopics(subs) && OwnTopic(r.topic)
    ensures OwnTopics(subs[i := r])
  {}

  lemma SetPair(subs: seq<SubRecord>, a: nat, r: nat, thing: string, action: Action, sticky: bool)
    requires a < r < |subs| && subs[a].isFree && subs[r].isFree && Distinct(subs) && OwnTopics(subs)
    requires Lookup(subs, TopicOf(thing, action, Accepted)).Absent? &&
        Lookup(subs, TopicOf(thing, action, Rejected)).Absent?
    ensures var acc, rej := TopicOf(thing, action, Accepted), TopicOf(thing, action, Rejected);
            var after := WithPair(subs, a, r, thing, action, sticky);
            && Distinct(after) && OwnTopics(after)
            && forall u :: Lookup(after, u) == if u == acc || u == rej then Present(1, sticky) else Lookup(subs, u)
  {
    var acc, rej := TopicOf(thing, action, Accepted), TopicOf(thing, action, Rejected);
    TopicsDiffer(thing, action);
    assert OwnTopic(acc) && OwnTopic(rej);
    hide TopicOf, Lookup, Distinct, OwnTopic, OwnTopics;
    var x, y := SubRecord(acc, 1, false, sticky), SubRecord(rej, 1, false, sticky);
    OwnSet(subs, a, x);
    SetRecord(subs, a, x, acc);
    var mid := subs[a := x];
    OwnSet(mid, r, y);
    SetRecord(mid, r, y, rej);
  }

  lemma TopicsDiffer(thing: string, action: Action)
    ensures TopicOf(thing, action, Accepted) != TopicOf(thing, action, Rejected)
  {
    if TopicOf(thing, action, Accepted) == TopicOf(thing, action, Rejected) {
      TopicInjective(thing, action, Accepted, thing, action, Rejected);
    }
  }

  /** The kinds ever sticky after a request. */
  function KeptWith(kept: set<Pair>, thing: string, action: Action, sticky: bool): set<Pair> {
    kept + if sticky then {Pair(thing, action)} else {}
  }

  lemma KeptWithCases(kept: set<Pair>, thing: string, action: Action, sticky: bool)
    ensures var after := KeptWith(kept, thing, action, sticky);
            after == (if sticky then kept + {Pair(thing, action)} else kept) &&
            (sticky ==> Pair(thing, action) in after) && (Pair(thing, action) in kept ==> Pair(thing, action) in after)
  {
    assert kept + {} == kept;
  }

  /** A first request of its kind: its topics come with count 1. */
  lemma NewPairKeeps(ack: seq<AckRecord>, subs: seq<SubRecord>, kept: set<Pair>, k: nat, a: nat, r: nat, token: string,
                     thing: string, action: Action, sticky: bool)
    requires Consistent(ack, subs, kept) && k < |ack| && ack[k].isFree
    requires a < r < |subs| && subs[a].isFree && subs[r].isFree
    requires !(Lookup(subs, TopicOf(thing, action, Accepted)).Present? &&
        Lookup(subs, TopicOf(thing, action, Rejected)).Present?)
    ensures Consistent(ack[k := AckRecord(token, thing, action, false)],
                       WithPair(subs, a, r, thing, action, sticky), KeptWith(kept, thing, action, sticky))
  {
    PairOf(ack, subs, kept, thing, action);
    KeptWithCases(kept, thing, action, sticky);
    hide TopicOf, Lookup, Distinct, OwnTopics, Waiting, KeptWith;
    AckChange(ack, k, AckRecord(token, thing, action, false), thing, action);
    SetPair(subs, a, r, thing, action, sticky);
    PairStep(ack, subs, kept, ack[k := AckRecord(token, thing, action, false)],
             WithPair(subs, a, r, thing, action, sticky), KeptWith(kept, thing, action, sticky),
             thing, action, Present(1, sticky));
  }

  lemma IncrementedShape(subs: seq<SubRecord>, acc: string, rej: string, sticky: bool)
    requires Distinct(subs) && OwnTopics(subs)
    ensures Distinct(Incremented(subs, acc, rej, sticky)) && OwnTopics(Incremented(subs, acc, rej, sticky))
  {}

  /** The common entry of a pair of topics and what it becomes when it is counted once more. */
  lemma CountedEntry(ack: seq<AckRecord>,
      subs: seq<SubRecord>, kept: set<Pair>, thing: string, action: Action, sticky: bool)
    returns (e: Entry)
    requires Consistent(ack, subs, kept) && Lookup(subs, TopicOf(thing, action, Accepted)).Present?
    ensures e == EntryIncremented(Lookup(subs, TopicOf(thing, action, Accepted)), sticky)
    ensures Lookup(subs, TopicOf(thing, action, Accepted)) == Lookup(subs, TopicOf(thing, action, Rejected))
    ensures Agrees(e, Waiting(ack, thing, action) + 1, Pair(thing, action) !in KeptWith(kept, thing, action, sticky))
  {
    hide *;
    e := EntryIncremented(Lookup(subs, TopicOf(thing, action, Accepted)), sticky);
    var known, known' := Pair(thing, action) in kept, Pair(thing, action) in KeptWith(kept, thing, action, sticky);
    KeptWithCases(kept, thing, action, sticky);
    PairOf(ack, subs, kept, thing, action);
    PairOkMeans(ack, subs, thing, action, !known);
    WaitingAtMost(ack, subs, kept, thing, action);
    AgreesCounted(Lookup(subs, TopicOf(thing, action, Accepted)), Waiting(ack, thing, action), !known, sticky, !known');
  }

  lemma WaitingAtMost(ack: seq<AckRecord>, subs: seq<SubRecord>, kept: set<Pair>, thing: string, action: Action)
    requires Consistent(ack, subs, kept)
    ensures Waiting(ack, thing, action) <= 10
  {
    ConsistentDistinct(ack, subs, kept);
    WaitingBound(ack, thing, action);
    hide Consistent, Waiting;
  }

  lemma PairOkMeans(ack: seq<AckRecord>, subs: seq<SubRecord>, thing: string, action: Action, exact: bool)
    requires PairOk(ack, subs, thing, action, exact)
    ensures Lookup(subs, TopicOf(thing, action, Accepted)) == Lookup(subs, TopicOf(thing, action, Rejected))
    ensures Agrees(Lookup(subs, TopicOf(thing, action, Accepted)), Waiting(ack, thing, action), exact)
  {}

  lemma AgreesCounted(e: Entry, n: nat, exact: bool, sticky: bool, exact': bool)
    requires Agrees(e, n, exact) && e.Present? && n <= 10 && (exact' ==> exact && !sticky)
    ensures Agrees(EntryIncremented(e, sticky), n + 1, exact')
  {}

  lemma LookupsIncremented(subs: seq<SubRecord>, acc: string, rej: string, sticky: bool, e: Entry)
    requires Lookup(subs, acc) == Lookup(subs, rej) && e == EntryIncremented(Lookup(subs, acc), sticky)
    ensures forall u :: Lookup(Incremented(subs, acc, rej, sticky), u) ==
                        if u == acc || u == rej then e else Lookup(subs, u)
  {
    hide Lookup, Incremented, EntryIncremented;
    forall u
      ensures Lookup(Incremented(subs, acc, rej, sticky), u) == if u == acc || u == rej then e else Lookup(subs, u)
    {
      LookupIncremented(subs, acc, rej, sticky, u);
    }
  }

  /** Another request of a kind that is awaited: one more on each topic. */
  lemma CountedPairKeeps(ack: seq<AckRecord>, subs: seq<SubRecord>, kept: set<Pair>, k: nat, token: string,
                         thing: string, action: Action, sticky: bool)
    requires Consistent(ack, subs, kept) && k < |ack| && ack[k].isFree
    requires Lookup(subs, TopicOf(thing, action, Accepted)).Present?
    ensures Consistent(ack[k := AckRecord(token, thing, action, false)],
                       Incremented(subs, TopicOf(thing, action, Accepted), TopicOf(thing, action, Rejected), sticky),
                       KeptWith(kept, thing, action, sticky))
  {
    var acc, rej := TopicOf(thing, action, Accepted), TopicOf(thing, action, Rejected);
    var after := Incremented(subs, acc, rej, sticky);
    KeptWithCases(kept, thing, action, sticky);
    hide TopicOf, Lookup, Distinct, OwnTopics, Waiting, Incremented, Agrees, EntryIncremented, PairOk, KeptWith;
    IncrementedShape(subs, acc, rej, sticky);
    var e := CountedEntry(ack, subs, kept, thing, action, sticky);
    var r := AckRecord(token, thing, action, false);
    AckChange(ack, k, r, thing, action);
    LookupsIncremented(subs, acc, rej, sticky, e);
    PairStep(ack, subs, kept, ack[k := r], after, KeptWith(kept, thing, action, sticky), thing, action, e);
  }

  /** Either way a request keeps the tables consistent. */
  lemma RequestKeeps(ack: seq<AckRecord>, subs: seq<SubRecord>, kept: set<Pair>, k: nat, present: bool, a: int, r: int,
                     token: string, thing: string, action: Action, sticky: bool, after: seq<SubRecord>)
    requires Consistent(ack, subs, kept) && k < |ack| && ack[k].isFree
    requires present <==> Lookup(subs, TopicOf(thing, action, Accepted)).Present? &&
                          Lookup(subs, TopicOf(thing, action, Rejected)).Present?
    requires !present ==> 0 <= a < r < |subs| && subs[a].isFree && subs[r].isFree &&
                          after == WithPair(subs, a, r, thing, action, sticky)
    requires present ==>
        after == Incremented(subs, TopicOf(thing, action, Accepted), TopicOf(thing, action, Rejected), sticky)
    ensures Consistent(ack[k := AckRecord(token, thing, action, false)], after, KeptWith(kept, thing, action, sticky))
  {
    hide Consistent, Lookup, TopicOf, KeptWith, Incremented, WithPair;
    if present {
      CountedPairKeeps(ack, subs, kept, k, token, thing, action, sticky);
    } else {
      NewPairKeeps(ack, subs, kept, k, a, r, token, thing, action, sticky);
    }
  }

  lemma ReleasedShape(subs: seq<SubRecord>, topic: string)
    requires OwnTopics(subs)
    ensures OwnTopics(ReleasedIn(subs, topic))
  {}

  /** A request is finished: one fewer on each topic, none left for the last request. */
  lemma ReleaseKeeps(ack: seq<AckRecord>, subs: seq<SubRecord>, kept: set<Pair>, k: nat)
    requires Consistent(ack, subs, kept) && k < |ack| && !ack[k].isFree
    ensures Consistent(ack[k := ack[k].(isFree := true)],
                       ReleasedPair(subs, ack[k].thing, ack[k].action), kept)
  {
    var thing, action := ack[k].thing, ack[k].action;
    var acc, rej := TopicOf(thing, action, Accepted), TopicOf(thing, action, Rejected);
    TopicsDiffer(thing, action);
    PairOf(ack, subs, kept, thing, action);
    WaitingBound(ack, thing, action);
    assert Counts(ack[k], thing, action) == 1;
    hide TopicOf, Lookup, Distinct, OwnTopics, Waiting, ReleasedIn;
    var e := Lookup(subs, acc);
    AckChange(ack, k, ack[k].(isFree := true), thing, action);
    var mid := ReleasedIn(subs, acc);
    LookupReleased(subs, acc);
    LookupReleased(mid, rej);
    ReleasedShape(subs, acc);
    ReleasedShape(mid, rej);
    PairStep(ack, subs, kept,
        ack[k := ack[k].(isFree := true)], ReleasedIn(mid, rej), kept, thing, action, EntryReleased(e));
  }

  // ---- what is subscribed ----

  lemma MirroredEmpty(subs: seq<SubRecord>)
    requires forall i :: 0 <= i < |subs| ==> subs[i].isFree
    ensures Mirrored([], subs)
  {
    forall u
      ensures Lookup(subs, u).Absent?
    {
      var i := Find(subs, u);
    }
  }

  lemma MirroredPublish(calls: seq<Call>, c: Call, subs: seq<SubRecord>)
    requires c.op.Publish?
    ensures Mirrored(calls + [c], subs) == Mirrored(calls, subs)
  {
    SubscribedAppend(calls, c);
  }

  /** A new pair of topics is subscribed, a known pair stays so. */
  lemma RequestMirrored(ack: seq<AckRecord>, subs: seq<SubRecord>, kept: set<Pair>, past: seq<Call>, calls: seq<Call>,
                        present: bool, a: int, r: int, thing: string, action: Action, sticky: bool, after: seq<SubRecord>)
    requires Consistent(ack, subs, kept) && Mirrored(past, subs)
    requires present <==> Lookup(subs, TopicOf(thing, action, Accepted)).Present? &&
                          Lookup(subs, TopicOf(thing, action, Rejected)).Present?
    requires !present ==> 0 <= a < r < |subs| && subs[a].isFree && subs[r].isFree &&
                          after == WithPair(subs, a, r, thing, action, sticky) &&
                          Opened(past, calls, TopicOf(thing, action, Accepted), TopicOf(thing, action, Rejected), SUCCESS)
    requires present ==> calls == past
    requires present ==>
        after == Incremented(subs, TopicOf(thing, action, Accepted), TopicOf(thing, action, Rejected), sticky)
    ensures Mirrored(calls, after)
  {
    hide *;
    var acc, rej := TopicOf(thing, action, Accepted), TopicOf(thing, action, Rejected);
    if present {
      IncrementedMirrored(subs, acc, rej, sticky, calls);
    } else {
      BothAbsent(ack, subs, kept, thing, action);
      ConsistentShape(ack, subs, kept);
      OpenedSuccess(past, calls, acc, rej);
      PairMirrored(past, subs, a, r, thing, action, sticky);
    }
  }

  lemma BothAbsent(ack: seq<AckRecord>, subs: seq<SubRecord>, kept: set<Pair>, thing: string, action: Action)
    requires Consistent(ack, subs, kept)
    ensures Lookup(subs, TopicOf(thing, action, Accepted)) == Lookup(subs, TopicOf(thing, action, Rejected))
  {
    PairOf(ack, subs, kept, thing, action);
    hide Consistent, Lookup, TopicOf;
  }

  lemma PairMirrored(past: seq<Call>, subs: seq<SubRecord>, a: nat, r: nat, thing: string, action: Action, sticky: bool)
    requires a < r < |subs| && subs[a].isFree && subs[r].isFree && Distinct(subs) && OwnTopics(subs)
    requires Lookup(subs, TopicOf(thing, action, Accepted)).Absent? &&
        Lookup(subs, TopicOf(thing, action, Rejected)).Absent?
    requires Mirrored(past, subs)
    ensures Mirrored(past + [Call(Subscribe, TopicOf(thing, action, Accepted), SUCCESS),
                             Call(Subscribe, TopicOf(thing, action, Rejected), SUCCESS)],
                     WithPair(subs, a, r, thing, action, sticky))
  {
    var acc, rej := TopicOf(thing, action, Accepted), TopicOf(thing, action, Rejected);
    var x, y := Call(Subscribe, acc, SUCCESS), Call(Subscribe, rej, SUCCESS);
    hide TopicOf, Lookup, Distinct, OwnTopics, WithPair, Subscribed;
    SetPair(subs, a, r, thing, action, sticky);
    assert past + [x, y] == past + [x] + [y];
    SubscribedAppend(past, x);
    SubscribedAppend(past + [x], y);
  }

  lemma IncrementedMirrored(subs: seq<SubRecord>, acc: string, rej: string, sticky: bool, calls: seq<Call>)
    requires Mirrored(calls, subs)
    ensures Mirrored(calls, Incremented(subs, acc, rej, sticky))
  {
    hide Lookup, Incremented, Subscribed;
    forall u
      ensures u in Subscribed(calls) <==> Lookup(Incremented(subs, acc, rej, sticky), u).Present?
    {
      LookupIncremented(subs, acc, rej, sticky, u);
    }
  }

  /** The topics that a finished request gives up are the ones that leave the table. */
  lemma ReleaseMirrored(ack: seq<AckRecord>,
      subs: seq<SubRecord>, kept: set<Pair>, calls: seq<Call>, thing: string, action: Action)
    requires Consistent(ack, subs, kept) && Mirrored(calls, subs)
    ensures Mirrored(calls + DroppedPair(subs, thing, action), ReleasedPair(subs, thing, action))
  {
    ConsistentShape(ack, subs, kept);
    hide *;
    PairsAre(subs, thing, action);
    var acc, rej := TopicOf(thing, action, Accepted), TopicOf(thing, action, Rejected);
    var mid := ReleasedIn(subs, acc);
    LookupReleased(subs, acc);
    DropMirrored(calls, subs, acc);
    DropMirrored(calls + Dropped(subs, acc), mid, rej);
    assert calls + Dropped(subs, acc) + Dropped(mid, rej) == calls + (Dropped(subs, acc) + Dropped(mid, rej));
  }

  lemma PairsAre(subs: seq<SubRecord>, thing: string, action: Action)
    ensures var acc, rej := TopicOf(thing, action, Accepted), TopicOf(thing, action, Rejected);
            ReleasedPair(subs, thing, action) == ReleasedIn(ReleasedIn(subs, acc), rej) &&
            DroppedPair(subs, thing, action) == Dropped(subs, acc) + Dropped(ReleasedIn(subs, acc), rej)
  {}

  lemma DropMirrored(calls: seq<Call>, subs: seq<SubRecord>, topic: string)
    requires Distinct(subs) && Mirrored(calls, subs)
    ensures Mirrored(calls + Dropped(subs, topic), ReleasedIn(subs, topic))
  {
    LookupReleased(subs, topic);
    LastUseIs(subs, topic);
    hide Lookup, ReleasedIn, Distinct, LastUse, Subscribed;
    if LastUse(subs, topic) {
      SubscribedAppend(calls, Call(Unsubscribe, topic, SUCCESS));
    } else {
      assert calls + Dropped(subs, topic) == calls;
    }
  }

  lemma LastUseIs(subs: seq<SubRecord>, topic: string)
    ensures LastUse(subs, topic) <==> Lookup(subs, topic).Present? && EntryReleased(Lookup(subs, topic)).Absent?
  {}

  // ---- failed subscriptions ----

  /** A failed subscription leaves a record taken: one more is live, and the tables no longer fit together. */
  lemma LeakBreaks(ack: seq<AckRecord>, subs: seq<SubRecord>, kept: set<Pair>, now: seq<SubRecord>, a: int, r: int,
                   ack': seq<AckRecord>, kept': set<Pair>)
    requires Consistent(ack, subs, kept) && Leaked(subs, now, a, r)
    ensures |LiveBelow(now, |now|)| == |LiveBelow(subs, |subs|)| + 1 && !Consistent(ack', now, kept')
  {
    hide *;
    LiveAfterLeak(subs, now, a, r);
    LiveEven(ack, subs, kept);
    if Consistent(ack', now, kept') { LiveEven(ack', now, kept'); }
  }

  lemma LiveAfterLeak(subs: seq<SubRecord>, now: seq<SubRecord>, a: int, r: int)
    requires Leaked(subs, now, a, r)
    ensures |LiveBelow(now, |now|)| == |LiveBelow(subs, |subs|)| + 1
  {
    var mid := subs[a := now[a]];
    assert now == mid[r := now[r]];
    hide LiveBelow;
    LiveUpdate(subs, |subs|, a, now[a]);
    LiveUpdate(mid, |subs|, r, now[r]);
  }

  function Taken(r: SubRecord): int {
    if r.isFree then 0 else 1
  }

  lemma {:induction false} LiveUpdate(subs: seq<SubRecord>, n: nat, i: nat, x: SubRecord)
    requires i < |subs| && n <= |subs|
    ensures |LiveBelow(subs[i := x], n)| == |LiveBelow(subs, n)| + if i < n then Taken(x) - Taken(subs[i]) else 0
  {
    hide LiveBelow;
    LiveBelowStep(subs, n);
    LiveBelowStep(subs[i := x], n);
    if n > 0 { LiveUpdate(subs, n - 1, i, x); }
  }

  lemma {:induction false} LiveAtMost(subs: seq<SubRecord>, n: nat)
    requires n <= |subs|
    ensures |LiveBelow(subs, n)| <= n
    ensures |LiveBelow(subs, n)| == n ==> forall i :: 0 <= i < n ==> !subs[i].isFree
    ensures (forall i :: 0 <= i < n ==> subs[i].isFree) ==> |LiveBelow(subs, n)| == 0
  {
    hide LiveBelow;
    LiveBelowStep(subs, n);
    if n > 0 { LiveAtMost(subs, n - 1); }
  }

  lemma LiveEven(ack: seq<AckRecord>, subs: seq<SubRecord>, kept: set<Pair>)
    requires Consistent(ack, subs, kept)
    ensures |LiveBelow(subs, |subs|)| % 2 == 0
  {
    ConsistentDistinct(ack, subs, kept);
    hide Consistent, LiveBelow, Distinct, Paired;
    LivePaired(ack, subs, kept);
    PairedEven(subs, LiveBelow(subs, |subs|));
  }

  // ---- counting the topics of sticky requests ----

  lemma LiveWithPair(subs: seq<SubRecord>, a: nat, r: nat, thing: string, action: Action, sticky: bool)
    requires |subs| == MAX_TOPICS && a < r < |subs| && subs[a].isFree && subs[r].isFree
    ensures |LiveBelow(WithPair(subs, a, r, thing, action, sticky), MAX_TOPICS)| == |LiveBelow(subs, MAX_TOPICS)| + 2
  {
    hide TopicOf, LiveBelow;
    var x := SubRecord(TopicOf(thing, action, Accepted), 1, false, sticky);
    var y := SubRecord(TopicOf(thing, action, Rejected), 1, false, sticky);
    LiveUpdate(subs, MAX_TOPICS, a, x);
    LiveUpdate(subs[a := x], MAX_TOPICS, r, y);
  }

  lemma NoKinds()
    ensures Kinds(0) == {}
  {}

  lemma NewKind(n: nat, thing: string)
    requires thing == seq(n, _ => 'x')
    ensures Pair(thing, Get) !in Kinds(n) && Kinds(n + 1) == Kinds(n) + {Pair(thing, Get)}
  {}

  /** Nothing is subscribed for a kind of which no request waits and none was sticky. */
  lemma NotKeptAbsent(ack: seq<AckRecord>, subs: seq<SubRecord>, kept: set<Pair>, thing: string, action: Action)
    requires Consistent(ack, subs, kept) && Pair(thing, action) !in kept
    requires forall k :: 0 <= k < |ack| ==> ack[k].isFree
    ensures Lookup(subs, TopicOf(thing, action, Accepted)).Absent? &&
        Lookup(subs, TopicOf(thing, action, Rejected)).Absent?
  {
    hide TopicOf, Lookup, Waiting;
    PairOf(ack, subs, kept, thing, action);
    WaitingBound(ack, thing, action);
  }

  /** New sticky topics outlive their request. */
  lemma StickyPairStays(subs: seq<SubRecord>, a: nat, r: nat, thing: string, action: Action)
    requires a < r < |subs| && subs[a].isFree && subs[r].isFree && Distinct(subs) && OwnTopics(subs)
    requires Lookup(subs, TopicOf(thing, action, Accepted)).Absent? &&
        Lookup(subs, TopicOf(thing, action, Rejected)).Absent?
    ensures var after := WithPair(subs, a, r, thing, action, true);
            ReleasedPair(after, thing, action) == after
  {
    SetPair(subs, a, r, thing, action, true);
    var after := WithPair(subs, a, r, thing, action, true);
    hide WithPair, TopicOf;
    StickyStays(after, TopicOf(thing, action, Accepted));
    StickyStays(after, TopicOf(thing, action, Rejected));
  }

  lemma StickyStays(subs: seq<SubRecord>, topic: string)
    requires Lookup(subs, topic) == Present(1, true)
    ensures ReleasedIn(subs, topic) == subs
  {
    var i := Find(subs, topic);
    assert subs[i := subs[i]] == subs;
  }

  lemma EmptyTables(ack: seq<AckRecord>, subs: seq<SubRecord>)
    requires |ack| == MAX_ACKS && |subs| == MAX_TOPICS
    requires forall i :: 0 <= i < |ack| ==> ack[i].isFree
    requires forall i :: 0 <= i < |subs| ==> subs[i].isFree
    ensures Consistent(ack, subs, {})
  {
    forall thing, action
      ensures PairOk(ack, subs, thing, action, true)
    {
      WaitingBound(ack, thing, action);
    }
  }
}
