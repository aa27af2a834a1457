/** The two Shadow tables as values: records awaiting an answer, and topics subscribed for them. */
module ShadowTables {

  const MAX_ACKS: nat := 10
  const MAX_TOPICS: nat := 20
  const MAX_SIZE_OF_THING_NAME: nat := 50

  datatype Action = Get | Update | Delete

  datatype Answer = Accepted | Rejected

  // ---- topics ----

  function ActionName(a: Action): string {
    match a
    case Get => "get"
    case Update => "update"
    case Delete => "delete"
  }

  function AnswerName(k: Answer): string {
    match k
    case Accepted => "accepted"
    case Rejected => "rejected"
  }

  /** The topic of an answer; thing names are short enough for the topic buffer. */
  function TopicOf(thing: string, action: Action, answer: Answer): string {
    "$aws/things/" + (thing + ("/shadow/" + (ActionName(action) + ("/" + AnswerName(answer)))))
  }

  /** Different requests and different answers have different topics. */
  lemma TopicInjective(thing: string, a: Action, k: Answer, thing': string, a': Action, k': Answer)
    requires TopicOf(thing, a, k) == TopicOf(thing', a', k')
    ensures thing == thing' && a == a' && k == k'
  {
    var t := TopicOf(thing, a, k);
    FromEnd(thing, a, k);
    FromEnd(thing', a', k');
    assert k == k';
    assert a == a';
    var p := "$aws/things/";
    var w := "/shadow/" + (ActionName(a) + ("/" + AnswerName(k)));
    assert t == p + (thing + w) == p + (thing' + w);
    assert t[12..] == thing + w == thing' + w;
    assert |thing| == |thing'|;
    assert (thing + w)[..|thing|] == thing && (thing' + w)[..|thing|] == thing';
  }

  lemma LastChars(p: string, act: string, answer: string)
    requires |answer| == 9 && |act| >= 3
    ensures var t := p + (act + answer);
            var n := |t|;
            n >= 12 && t[n - 8] == answer[1] && t[n - 10] == act[|act| - 1] && t[n - 12] == act[|act| - 3]
  {}

  lemma Regroup(a: string, b: string, c: string, d: string, e: string)
    ensures a + (b + (c + (d + e))) == (a + b + c) + (d + e)
  {}

  lemma NamesEnd(a: Action, k: Answer)
    ensures var n := |ActionName(a)|;
            n >= 3 && ActionName(a)[n - 1] == (if a.Get? then 't' else 'e') &&
            ActionName(a)[n - 3] == if a.Get? then 'g' else if a.Update? then 'a' else 'e'
    ensures |"/" + AnswerName(k)| == 9 && ("/" + AnswerName(k))[1] == if k.Accepted? then 'a' else 'r'
  {}

  /** The end of a topic tells the answer and the action. */
  lemma FromEnd(thing: string, a: Action, k: Answer)
    ensures var t := TopicOf(thing, a, k);
            var n := |t|;
            n >= 12 && (t[n - 8] == if k.Accepted? then 'a' else 'r') &&
            (t[n - 10] == if a.Get? then 't' else 'e') &&
            (t[n - 12] == if a.Get? then 'g' else if a.Update? then 'a' else 'e')
  {
    NamesEnd(a, k);
    hide ActionName, AnswerName;
    var head, mid := "$aws/things/", "/shadow/";
    Regroup(head, thing, mid, ActionName(a), "/" + AnswerName(k));
    LastChars(head + thing + mid, ActionName(a), "/" + AnswerName(k));
  }

  // ---- records awaiting an answer ----

  datatype AckRecord = AckRecord(token: string, thing: string, action: Action, isFree: bool)

  function Counts(r: AckRecord, thing: string, action: Action): nat {
    if !r.isFree && r.thing == thing && r.action == action then 1 else 0
  }

  /** Requests of one kind that await their answer. */
  function Waiting(ack: seq<AckRecord>, thing: string, action: Action): nat {
    if |ack| == 0 then 0
    else Waiting(ack[..|ack| - 1], thing, action) + Counts(ack[|ack| - 1], thing, action)
  }

  lemma {:induction false} WaitingUpdate(ack: seq<AckRecord>, i: nat, r: AckRecord, thing: string, action: Action)
    requires i < |ack|
    ensures Waiting(ack[i := r], thing, action) ==
            Waiting(ack, thing, action) - Counts(ack[i], thing, action) + Counts(r, thing, action)
  {
    var n := |ack| - 1;
    if i == n {
      assert ack[i := r][..n] == ack[..n];
    } else {
      assert ack[i := r][..n] == ack[..n][i := r];
      WaitingUpdate(ack[..n], i, r, thing, action);
    }
  }

  lemma {:induction false} WaitingBound(ack: seq<AckRecord>, thing: string, action: Action)
    ensures Waiting(ack, thing, action) <= |ack|
    ensures Waiting(ack, thing, action) > 0 <==>
            exists i :: 0 <= i < |ack| && Counts(ack[i], thing, action) == 1
  {
    if |ack| > 0 {
      var n := |ack| - 1;
      WaitingBound(ack[..n], thing, action);
      assert forall i :: 0 <= i < n ==> ack[..n][i] == ack[i];
      if Waiting(ack, thing, action) > 0 && Waiting(ack[..n], thing, action) == 0 {
        assert Counts(ack[n], thing, action) == 1;
      }
    }
  }

  // ---- subscribed topics ----

  datatype SubRecord = SubRecord(topic: string, count: nat, isFree: bool, isSticky: bool)

  predicate Live(r: SubRecord, topic: string) {
    !r.isFree && r.topic == topic
  }

  /** The first live record of a topic, or -1. */
  function Find(subs: seq<SubRecord>, topic: string): (i: int)
    ensures -1 <= i < |subs|
    ensures i >= 0 ==> Live(subs[i], topic) && forall k :: 0 <= k < i ==> !Live(subs[k], topic)
    ensures i == -1 ==> forall k :: 0 <= k < |subs| ==> !Live(subs[k], topic)
  {
    if |subs| == 0 then -1
    else if Live(subs[0], topic) then 0
    else
      var j := Find(subs[1..], topic);
      assert forall k :: 0 < k < |subs| ==> subs[k] == subs[1..][k - 1];
      if j == -1 then -1 else j + 1
  }

  predicate Distinct(subs: seq<SubRecord>) {
    forall i, j :: 0 <= i < j < |subs| && !subs[i].isFree && !subs[j].isFree ==> subs[i].topic != subs[j].topic
  }

  /** What the table holds for a topic. */
  datatype Entry = Absent | Present(count: nat, isSticky: bool)

  function EntryOf(r: SubRecord): Entry {
    if r.isFree then Absent else Present(r.count, r.isSticky)
  }

  function Lookup(subs: seq<SubRecord>, topic: string): Entry {
    var i := Find(subs, topic);
    if i == -1 then Absent else EntryOf(subs[i])
  }

  /** Changing one record changes one topic: the record's own, or a new one in a free record. */
  lemma SetRecord(subs: seq<SubRecord>, i: nat, r: SubRecord, topic: string)
    requires i < |subs| && Distinct(subs) && r.topic == topic
    requires Live(subs[i], topic) || (subs[i].isFree && Lookup(subs, topic).Absent?)
    ensures Distinct(subs[i := r])
    ensures forall u :: Lookup(subs[i := r], u) == if u == topic then EntryOf(r) else Lookup(subs, u)
  {
    var after := subs[i := r];
    forall u
      ensures Lookup(after, u) == if u == topic then EntryOf(r) else Lookup(subs, u)
    {
      var a, b := Find(after, u), Find(subs, u);
      if u == topic {
        if !r.isFree { assert Live(after[i], u); }
      } else {
        if b >= 0 { assert after[b] == subs[b]; }
        if a >= 0 { assert after[a] == subs[a]; }
      }
    }
  }

  // ---- the invariant that ties the tables together ----

  /** One kind of request. */
  datatype Pair = Pair(thing: string, action: Action)

  /**
   * What the table may hold for a topic that n requests await. If none of its kind was ever sticky the
   * count is n; otherwise the topic may outlive its last request, its count being one too high from then on.
   */
  predicate Agrees(e: Entry, n: nat, exact: bool) {
    match e
    case Absent => n == 0
    case Present(c, sticky) => c >= 1 && if exact then c == n && !sticky else n <= c <= n + 1
  }

  ghost predicate PairOk(ack: seq<AckRecord>, subs: seq<SubRecord>, thing: string, action: Action, exact: bool) {
    var e := Lookup(subs, TopicOf(thing, action, Accepted));
    e == Lookup(subs, TopicOf(thing, action, Rejected)) && Agrees(e, Waiting(ack, thing, action), exact)
  }

  ghost predicate OwnTopic(topic: string) {
    exists thing, action, answer :: topic == TopicOf(thing, action, answer)
  }

  ghost predicate OwnTopics(subs: seq<SubRecord>) {
    forall i :: 0 <= i < |subs| && !subs[i].isFree ==> OwnTopic(subs[i].topic)
  }

  /** The tables fit together, `kept` being the kinds of which a request ever was sticky. */
  ghost predicate Consistent(ack: seq<AckRecord>, subs: seq<SubRecord>, kept: set<Pair>) {
    && |ack| == MAX_ACKS && |subs| == MAX_TOPICS && Distinct(subs) && OwnTopics(subs)
    && forall thing, action :: PairOk(ack, subs, thing, action, Pair(thing, action) !in kept)
  }

  /** No topic is missing while a request awaits an answer on it. */
  lemma AwaitedIsSubscribed(ack: seq<AckRecord>, subs: seq<SubRecord>, kept: set<Pair>, i: nat, answer: Answer)
    requires Consistent(ack, subs, kept) && i < |ack| && !ack[i].isFree
    ensures var e := Lookup(subs, TopicOf(ack[i].thing, ack[i].action, answer));
            e.Present? && Waiting(ack, ack[i].thing, ack[i].action) <= e.count
    ensures Pair(ack[i].thing, ack[i].action) !in kept ==>
              Lookup(subs, TopicOf(ack[i].thing, ack[i].action, answer)) ==
              Present(Waiting(ack, ack[i].thing, ack[i].action), false)
  {
    hide TopicOf, Lookup, Distinct, OwnTopics, Waiting;
    PairOf(ack, subs, kept, ack[i].thing, ack[i].action);
    WaitingBound(ack, ack[i].thing, ack[i].action);
    assert Counts(ack[i], ack[i].thing, ack[i].action) == 1;
  }

  lemma PairOf(ack: seq<AckRecord>, subs: seq<SubRecord>, kept: set<Pair>, thing: string, action: Action)
    requires Consistent(ack, subs, kept)
    ensures PairOk(ack, subs, thing, action, Pair(thing, action) !in kept)
  {
    hide PairOk;
  }

  /** A step that touches one pair of topics and one kind of request keeps the rest of the invariant. */
  lemma PairStep(ack: seq<AckRecord>, subs: seq<SubRecord>, kept: set<Pair>,
                 ack': seq<AckRecord>, subs': seq<SubRecord>, kept': set<Pair>, thing: string, action: Action, e: Entry)
    requires Consistent(ack, subs, kept) && (kept' == kept || kept' == kept + {Pair(thing, action)})
    requires |ack'| == MAX_ACKS && |subs'| == MAX_TOPICS && Distinct(subs') && OwnTopics(subs')
    requires Agrees(e, Waiting(ack', thing, action), Pair(thing, action) !in kept')
    requires forall t, a :: t != thing || a != action ==> Waiting(ack', t, a) == Waiting(ack, t, a)
    requires var acc, rej := TopicOf(thing, action, Accepted), TopicOf(thing, action, Rejected);
             forall u :: Lookup(subs', u) == if u == acc || u == rej then e else Lookup(subs, u)
    ensures Consistent(ack', subs', kept')
  {
    hide TopicOf, Lookup, Waiting, Agrees, Distinct;
    forall t, a
      ensures PairOk(ack', subs', t, a, Pair(t, a) !in kept')
    {
      assert PairOk(ack, subs, t, a, Pair(t, a) !in kept);
      if t != thing || a != action {
        TopicsApart(t, a, thing, action);
      }
    }
  }

  lemma TopicsApart(t: string, a: Action, thing: string, action: Action)
    requires t != thing || a != action
    ensures forall k, k' :: TopicOf(t, a, k) != TopicOf(thing, action, k')
  {
    forall k, k'
      ensures TopicOf(t, a, k) != TopicOf(thing, action, k')
    {
      if TopicOf(t, a, k) == TopicOf(thing, action, k') { TopicInjective(t, a, k, thing, action, k'); }
    }
  }

  // ---- capacity ----

  predicate TwoFree(subs: seq<SubRecord>) {
    exists i, j :: 0 <= i < j < |subs| && subs[i].isFree && subs[j].isFree
  }

  lemma SubsetSize(a: set<int>, b: set<int>)
    requires a <= b
    ensures |b| == |a| + |b - a|
  {
    assert b == a + (b - a);
  }

  function Below(n: nat): (r: set<int>)
    ensures |r| == n && forall x :: x in r <==> 0 <= x < n
  {
    if n == 0 then {} else Below(n - 1) + {n - 1}
  }

  function LiveBelow(subs: seq<SubRecord>, n: nat): (r: set<int>)
    requires n <= |subs|
    ensures forall i :: i in r <==> 0 <= i < n && !subs[i].isFree
  {
    if n == 0 then {} else LiveBelow(subs, n - 1) + if subs[n - 1].isFree then {} else {n - 1}
  }

  /** The kinds of request that await an answer. */
  function WaitingPairs(ack: seq<AckRecord>): (r: set<Pair>)
    ensures |r| <= |ack|
    ensures (exists i :: 0 <= i < |ack| && ack[i].isFree) ==> |r| < |ack|
    ensures forall i :: 0 <= i < |ack| && !ack[i].isFree ==> Pair(ack[i].thing, ack[i].action) in r
  {
    if |ack| == 0 then {}
    else
      var last := ack[|ack| - 1];
      assert forall i :: 0 <= i < |ack| - 1 ==> ack[..|ack| - 1][i] == ack[i];
      WaitingPairs(ack[..|ack| - 1]) + if last.isFree then {} else {Pair(last.thing, last.action)}
  }

  /** A live topic belongs to a kind of request that is awaited or ever was sticky. */
  lemma LiveBelongs(ack: seq<AckRecord>, subs: seq<SubRecord>, kept: set<Pair>, i: nat) returns (p: Pair, answer: Answer)
    requires Consistent(ack, subs, kept) && i < |subs| && !subs[i].isFree
    ensures subs[i].topic == TopicOf(p.thing, p.action, answer) && p in kept + WaitingPairs(ack)
  {
    assert OwnTopic(subs[i].topic);
    var thing, action, k :| subs[i].topic == TopicOf(thing, action, k);
    p, answer := Pair(thing, action), k;
    hide TopicOf, WaitingPairs, Waiting;
    assert Live(subs[i], TopicOf(thing, action, k));
    PairOf(ack, subs, kept, thing, action);
    if p !in kept {
      WaitingBound(ack, thing, action);
      var w :| 0 <= w < |ack| && Counts(ack[w], thing, action) == 1;
      assert Pair(ack[w].thing, ack[w].action) == p;
    }
  }

  /** The pair's topic for an answer is live among the first n records. */
  ghost predicate LiveTopic(subs: seq<SubRecord>, n: nat, p: Pair, answer: Answer) {
    exists i :: 0 <= i < n <= |subs| && Live(subs[i], TopicOf(p.thing, p.action, answer))
  }

  lemma LiveTopicOnce(subs: seq<SubRecord>, n: nat, p: Pair, answer: Answer)
    requires Distinct(subs) && n < |subs| && Live(subs[n], TopicOf(p.thing, p.action, answer))
    ensures !LiveTopic(subs, n, p, answer) && LiveTopic(subs, n + 1, p, answer)
  {
    hide TopicOf;
  }

  /** Pairs whose accepted and whose rejected topic is live among the first n records. */
  ghost predicate LiveSets(subs: seq<SubRecord>, n: nat, acc: set<Pair>, rej: set<Pair>) {
    (forall p :: p in acc ==> LiveTopic(subs, n, p, Accepted)) &&
    (forall p :: p in rej ==> LiveTopic(subs, n, p, Rejected))
  }

  lemma LiveSetsGrow(subs: seq<SubRecord>, n: nat, acc: set<Pair>, rej: set<Pair>)
    requires n < |subs| && LiveSets(subs, n, acc, rej)
    ensures LiveSets(subs, n + 1, acc, rej)
  {
    hide TopicOf;
  }

  lemma LiveSetsAdd(subs: seq<SubRecord>, n: nat, acc: set<Pair>, rej: set<Pair>, p: Pair, answer: Answer,
                    pairs: set<Pair>)
    returns (acc': set<Pair>, rej': set<Pair>)
    requires acc <= pairs && rej <= pairs && p in pairs
    requires n < |subs| && Distinct(subs) && LiveSets(subs, n, acc, rej)
    requires !subs[n].isFree && subs[n].topic == TopicOf(p.thing, p.action, answer)
    ensures LiveSets(subs, n + 1, acc', rej') && |acc'| + |rej'| == |acc| + |rej| + 1
    ensures acc' <= pairs && rej' <= pairs
  {
    LiveTopicOnce(subs, n, p, answer);
    LiveSetsGrow(subs, n, acc, rej);
    hide LiveTopic, Distinct, TopicOf, Live;
    acc', rej' := acc, rej;
    if answer.Accepted? { acc' := acc + {p}; } else { rej' := rej + {p}; }
  }

  /** The live topics among the first n are as many pairs for accepted and for rejected answers. */
  lemma {:induction false} LivePairs(ack: seq<AckRecord>, subs: seq<SubRecord>, kept: set<Pair>, n: nat)
    returns (acc: set<Pair>, rej: set<Pair>)
    requires Consistent(ack, subs, kept) && n <= |subs|
    ensures |acc| + |rej| == |LiveBelow(subs, n)| && LiveSets(subs, n, acc, rej)
    ensures acc <= kept + WaitingPairs(ack) && rej <= kept + WaitingPairs(ack)
    decreases n
  {
    hide *;
    LiveBelowStep(subs, n);
    if n == 0 {
      acc, rej := NoLiveSets(subs, kept + WaitingPairs(ack));
    } else {
      acc, rej := LivePairs(ack, subs, kept, n - 1);
      ConsistentDistinct(ack, subs, kept);
      if subs[n - 1].isFree {
        LiveSetsGrow(subs, n - 1, acc, rej);
      } else {
        var p, answer := LiveBelongs(ack, subs, kept, n - 1);
        acc, rej := LiveSetsAdd(subs, n - 1, acc, rej, p, answer, kept + WaitingPairs(ack));
      }
    }
  }

  lemma NoLiveSets(subs: seq<SubRecord>, pairs: set<Pair>) returns (acc: set<Pair>, rej: set<Pair>)
    ensures LiveSets(subs, 0, acc, rej) && |acc| + |rej| == 0 && acc <= pairs && rej <= pairs
  {
    acc, rej := {}, {};
  }

  lemma LiveBelowStep(subs: seq<SubRecord>, n: nat)
    requires n <= |subs|
    ensures |LiveBelow(subs, n)| == if n == 0 then 0 else |LiveBelow(subs, n - 1)| + if subs[n - 1].isFree then 0 else 1
  {}

  lemma ConsistentDistinct(ack: seq<AckRecord>, subs: seq<SubRecord>, kept: set<Pair>)
    requires Consistent(ack, subs, kept)
    ensures Distinct(subs) && |ack| == MAX_ACKS && |subs| == MAX_TOPICS
  {}

  /** As long as fewer than ten kinds of request are awaited or ever were sticky, two topic records are free. */
  lemma FewPairsLeaveRoom(ack: seq<AckRecord>, subs: seq<SubRecord>, kept: set<Pair>)
    requires Consistent(ack, subs, kept) && |kept + WaitingPairs(ack)| < MAX_ACKS
    ensures TwoFree(subs)
  {
    var acc, rej := LivePairs(ack, subs, kept, |subs|);
    ConsistentDistinct(ack, subs, kept);
    var pairs := kept + WaitingPairs(ack);
    SmallerSet(acc, pairs);
    SmallerSet(rej, pairs);
    hide *;
    assert MAX_TOPICS == 2 * MAX_ACKS by { Capacities(); }
    if !TwoFree(subs) { AllButOneLive(subs); }
  }

  lemma Capacities()
    ensures MAX_TOPICS == 2 * MAX_ACKS
  {}

  lemma SmallerSet<T>(a: set<T>, b: set<T>)
    requires a <= b
    ensures |a| <= |b|
  {
    assert b == a + (b - a);
  }

  /** As long as one more request may be made, and none was sticky, there is room for its two topics. */
  lemma FreeAckLeavesRoom(ack: seq<AckRecord>, subs: seq<SubRecord>, f: nat)
    requires Consistent(ack, subs, {}) && f < |ack| && ack[f].isFree
    ensures TwoFree(subs)
  {
    ConsistentDistinct(ack, subs, {});
    hide Consistent, TwoFree;
    assert {} + WaitingPairs(ack) == WaitingPairs(ack);
    FewPairsLeaveRoom(ack, subs, {});
  }

  lemma AllButOneLive(subs: seq<SubRecord>)
    requires !TwoFree(subs) && |subs| == MAX_TOPICS
    ensures |LiveBelow(subs, |subs|)| >= MAX_TOPICS - 1
  {
    var live, all := LiveBelow(subs, |subs|), Below(MAX_TOPICS);
    if g :| 0 <= g < |subs| && subs[g].isFree {
      SubsetSize(all - {g}, live);
    } else {
      SubsetSize(all, live);
    }
  }

  // ---- topics come in pairs ----

  /** Live records of the two answers to one kind of request. */
  ghost predicate Partners(subs: seq<SubRecord>, i: int, j: int) {
    0 <= i < |subs| && 0 <= j < |subs| && !subs[i].isFree && !subs[j].isFree &&
    exists thing, action, k, k' ::
      k != k' && subs[i].topic == TopicOf(thing, action, k) && subs[j].topic == TopicOf(thing, action, k')
  }

  lemma PartnersDiffer(subs: seq<SubRecord>, i: int, j: int)
    requires Partners(subs, i, j)
    ensures i != j && Partners(subs, j, i)
  {
    var thing, action, k, k' :|
      k != k' && subs[i].topic == TopicOf(thing, action, k) && subs[j].topic == TopicOf(thing, action, k');
    hide TopicOf;
    if i == j { TopicInjective(thing, action, k, thing, action, k'); }
  }

  lemma PartnerUnique(subs: seq<SubRecord>, i: int, j: int, m: int)
    requires Distinct(subs) && Partners(subs, i, j) && Partners(subs, i, m)
    ensures j == m
  {
    var thing, action, k, k' :|
      k != k' && subs[i].topic == TopicOf(thing, action, k) && subs[j].topic == TopicOf(thing, action, k');
    var thing', action', l, l' :|
      l != l' && subs[i].topic == TopicOf(thing', action', l) && subs[m].topic == TopicOf(thing', action', l');
    hide TopicOf;
    TopicInjective(thing, action, k, thing', action', l);
  }

  lemma PartnerOf(ack: seq<AckRecord>, subs: seq<SubRecord>, kept: set<Pair>, i: nat) returns (j: nat)
    requires Consistent(ack, subs, kept) && i < |subs| && !subs[i].isFree
    ensures j < |subs| && Partners(subs, i, j)
  {
    assert OwnTopic(subs[i].topic);
    var thing, action, k :| subs[i].topic == TopicOf(thing, action, k);
    var k' := if k.Accepted? then Rejected else Accepted;
    hide TopicOf;
    PairOf(ack, subs, kept, thing, action);
    assert Live(subs[i], TopicOf(thing, action, k));
    j := Find(subs, TopicOf(thing, action, k'));
  }

  ghost predicate HasPartner(subs: seq<SubRecord>, s: set<int>, i: int) {
    exists j :: j in s && Partners(subs, i, j)
  }

  ghost predicate Paired(subs: seq<SubRecord>, s: set<int>) {
    forall i :: i in s ==> HasPartner(subs, s, i)
  }

  lemma PartnerIn(subs: seq<SubRecord>, s: set<int>, i: int) returns (j: int)
    requires HasPartner(subs, s, i)
    ensures j in s && Partners(subs, i, j)
  {
    hide Partners;
    j :| j in s && Partners(subs, i, j);
  }

  lemma PartnerFound(subs: seq<SubRecord>, s: set<int>, i: int, j: int)
    requires j in s && Partners(subs, i, j)
    ensures HasPartner(subs, s, i)
  {
    hide Partners;
  }

  lemma RestPartner(subs: seq<SubRecord>, s: set<int>, i: int, j: int, k: int)
    requires Distinct(subs) && HasPartner(subs, s, k) && Partners(subs, i, j) && k != i && k != j
    ensures HasPartner(subs, s - {i, j}, k)
  {
    hide *;
    PartnersDiffer(subs, i, j);
    var m := PartnerIn(subs, s, k);
    PartnersDiffer(subs, k, m);
    if m == i { PartnerUnique(subs, i, j, k); }
    if m == j { PartnerUnique(subs, j, i, k); }
    PartnerFound(subs, s - {i, j}, k, m);
  }

  lemma RestPaired(subs: seq<SubRecord>, s: set<int>, i: int, j: int)
    requires Distinct(subs) && Paired(subs, s) && Partners(subs, i, j)
    ensures Paired(subs, s - {i, j})
  {
    hide Partners, Distinct, HasPartner;
    forall k | k in s - {i, j}
      ensures HasPartner(subs, s - {i, j}, k)
    {
      RestPartner(subs, s, i, j, k);
    }
  }

  lemma Any<T>(s: set<T>) returns (i: T)
    requires s != {}
    ensures i in s
  {
    i :| i in s;
  }

  lemma WithoutTwo(s: set<int>, i: int, j: int)
    requires i in s && j in s && i != j
    ensures |s| == |s - {i, j}| + 2
  {
    SubsetSize({i, j}, s);
  }

  /** A set of records that holds each one's partner has an even number of them. */
  lemma {:induction false} PairedEven(subs: seq<SubRecord>, s: set<int>)
    requires Distinct(subs) && Paired(subs, s)
    ensures |s| % 2 == 0
    decreases |s|
  {
    hide Partners, Distinct, HasPartner;
    if s != {} {
      var i := Any(s);
      var j := PartnerIn(subs, s, i);
      RestPaired(subs, s, i, j);
      PartnersDiffer(subs, i, j);
      WithoutTwo(s, i, j);
      PairedEven(subs, s - {i, j});
    }
  }

  lemma LivePaired(ack: seq<AckRecord>, subs: seq<SubRecord>, kept: set<Pair>)
    requires Consistent(ack, subs, kept)
    ensures Paired(subs, LiveBelow(subs, |subs|))
  {
    hide Partners, Consistent, LiveBelow, HasPartner;
    forall i | i in LiveBelow(subs, |subs|)
      ensures HasPartner(subs, LiveBelow(subs, |subs|), i)
    {
      var j := PartnerOf(ack, subs, kept, i);
      PartnersLive(subs, i, j);
      PartnerFound(subs, LiveBelow(subs, |subs|), i, j);
    }
  }

  lemma PartnersLive(subs: seq<SubRecord>, i: int, j: int)
    requires Partners(subs, i, j)
    ensures 0 <= j < |subs| && !subs[j].isFree
  {}

  lemma OneLess(a: set<int>, b: set<int>, g: int)
    requires a <= b && g in b && g !in a
    ensures |a| < |b|
  {
    SubsetSize({g}, b);
    SubsetSize(a, b - {g});
  }

  lemma AllButOne(subs: seq<SubRecord>, g: nat)
    requires !TwoFree(subs) && |subs| == MAX_TOPICS && g < |subs| && subs[g].isFree
    ensures |LiveBelow(subs, |subs|)| == MAX_TOPICS - 1
  {
    hide TwoFree, LiveBelow, Below;
    AllButOneLive(subs);
    OneLess(LiveBelow(subs, |subs|), Below(MAX_TOPICS), g);
  }

  lemma NotAlone(ack: seq<AckRecord>, subs: seq<SubRecord>, kept: set<Pair>, g: nat)
    requires Consistent(ack, subs, kept) && |subs| == MAX_TOPICS && Distinct(subs)
    requires g < |subs| && subs[g].isFree
    ensures TwoFree(subs)
  {
    hide Consistent, TwoFree, LiveBelow, Distinct, Paired;
    if !TwoFree(subs) {
      AllButOne(subs, g);
      LivePaired(ack, subs, kept);
      PairedEven(subs, LiveBelow(subs, |subs|));
    }
  }

  /** The table never has exactly one free record, so the search for two finds both or none. */
  lemma OneFreeMeansTwo(ack: seq<AckRecord>, subs: seq<SubRecord>, kept: set<Pair>)
    requires Consistent(ack, subs, kept) && exists i :: 0 <= i < |subs| && subs[i].isFree
    ensures TwoFree(subs)
  {
    hide TwoFree, PairOk, OwnTopics;
    var g :| 0 <= g < |subs| && subs[g].isFree;
    NotAlone(ack, subs, kept, g);
  }
}
