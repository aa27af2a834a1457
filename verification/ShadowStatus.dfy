/** How the answer to a request is told from the text at the topic's place. */
module ShadowStatus {
  import opened ShadowTables

  /** strstr: the text holds the word. */
  predicate Contains(s: string, w: string) {
    |w| <= |s| && (s[..|w|] == w || (|s| > 0 && Contains(s[1..], w)))
  }

  /** A text that tells of an answer. */
  predicate Marked(text: string) {
    Contains(text, "accepted") || Contains(text, "rejected")
  }

  function StatusOf(text: string): Answer {
    if Contains(text, "accepted") then Accepted else Rejected
  }

  lemma {:induction false} ContainsChars(s: string, w: string, c: char)
    ensures Contains(s, w) && c in w ==> c in s
  {
    if |s| > 0 {
      ContainsChars(s[1..], w, c);
      assert c in s[1..] ==> c in s;
    }
    assert |w| <= |s| && s[..|w|] == w && c in w ==> c in s by {
      if |w| <= |s| { assert c in s[..|w|] ==> c in s; }
    }
  }

  /** The word lies across the seam, k of its characters in the first part. */
  predicate Across(a: string, b: string, w: string, k: nat) {
    0 < k < |w| && k <= |a| && |w| - k <= |b| && a[|a| - k..] == w[..k] && b[..|w| - k] == w[k..]
  }

  /** A word lies in the first part, in the second, or across the seam. */
  lemma {:induction false} ContainsConcat(a: string, b: string, w: string)
    requires w != [] && forall k: nat :: !Across(a, b, w, k)
    ensures Contains(a + b, w) <==> Contains(a, w) || Contains(b, w)
    decreases |a|
  {
    if |a| == 0 {
      assert a + b == b;
    } else {
      var rest := a[1..];
      assert (a + b)[1..] == rest + b;
      forall k: nat
        ensures !Across(rest, b, w, k)
      {
        AcrossRest(a, b, w, k);
      }
      ContainsConcat(rest, b, w);
      ContainsLength(a, w);
      ContainsLength(b, w);
      HeadOfConcat(a, b, w);
    }
  }

  lemma AcrossRest(a: string, b: string, w: string, k: nat)
    requires a != []
    ensures Across(a[1..], b, w, k) ==> Across(a, b, w, k)
  {
    if k < |a| { assert a[|a| - k..] == a[1..][|a[1..]| - k..]; }
  }

  lemma AcrossChars(a: string, b: string, w: string, k: nat)
    ensures Across(a, b, w, k) ==> b != [] && b[0] in w && a[|a| - k] == w[0] && a[|a| - 1] in w
  {
    if Across(a, b, w, k) {
      assert a[|a| - k..][k - 1] == w[..k][k - 1] == w[k - 1];
      assert b[..|w| - k][0] == w[k..][0] == w[k];
      assert a[|a| - k..][0] == w[..k][0];
    }
  }

  lemma ContainsLength(s: string, w: string)
    ensures Contains(s, w) ==> |w| <= |s|
  {}

  lemma HeadOfConcat(a: string, b: string, w: string)
    requires w != [] && a != [] && forall k: nat :: !Across(a, b, w, k)
    ensures |w| <= |a + b| && (a + b)[..|w|] == w <==> |w| <= |a| && a[..|w|] == w
  {
    if |w| <= |a| {
      assert (a + b)[..|w|] == a[..|w|];
    } else if |w| <= |a + b| && (a + b)[..|w|] == w {
      var k := |a|;
      assert w[..k] == (a + b)[..|w|][..k] == a;
      assert w[k..] == (a + b)[..|w|][k..] == b[..|w| - k];
      assert Across(a, b, w, k);
    }
  }

  /** No word lies across a seam whose second part starts with a character it lacks. */
  lemma CutAfter(a: string, b: string, w: string)
    requires w != [] && (b == [] || b[0] !in w)
    ensures Contains(a + b, w) <==> Contains(a, w) || Contains(b, w)
  {
    forall k: nat
      ensures !Across(a, b, w, k)
    {
      AcrossChars(a, b, w, k);
    }
    ContainsConcat(a, b, w);
  }

  /** Nor across one whose first part ends in such a character. */
  lemma CutBehind(a: string, b: string, w: string)
    requires w != [] && (a == [] || a[|a| - 1] !in w)
    ensures Contains(a + b, w) <==> Contains(a, w) || Contains(b, w)
  {
    forall k: nat
      ensures !Across(a, b, w, k)
    {
      AcrossChars(a, b, w, k);
    }
    ContainsConcat(a, b, w);
  }

  /** Nor across one whose first part ends without the word's first character. */
  lemma CutBefore(a: string, b: string, w: string)
    requires w != [] && forall i :: 0 <= i < |a| && |a| - |w| < i ==> a[i] != w[0]
    ensures Contains(a + b, w) <==> Contains(a, w) || Contains(b, w)
  {
    forall k: nat
      ensures !Across(a, b, w, k)
    {
      AcrossChars(a, b, w, k);
    }
    ContainsConcat(a, b, w);
  }

  /** The end of a topic holds the word for an accepted answer exactly when it tells of one. */
  lemma AcceptedInTail(action: Action, answer: Answer)
    ensures Contains("/shadow/" + (ActionName(action) + ("/" + AnswerName(answer))), "accepted") <==> answer.Accepted?
  {
    hide Contains;
    assert "accepted"[1] == 'c';
    assert 'c' !in ActionName(action);
    ContainsChars("/shadow/", "accepted", 'c');
    ContainsChars(ActionName(action), "accepted", 'c');
    LastName(answer);
    hide ActionName, AnswerName;
    CutAfter(ActionName(action), "/" + AnswerName(answer), "accepted");
    CutBehind("/shadow/", ActionName(action) + ("/" + AnswerName(answer)), "accepted");
  }

  lemma ContainsInParts(head: string, thing: string, tail: string, behind: string, w: string)
    requires w != [] && head != [] && head[|head| - 1] !in w && tail != [] && tail[0] !in w
    requires var t := head + (thing + tail);
             forall i :: 0 <= i < |t| && |t| - |w| < i ==> t[i] != w[0]
    ensures Contains(head + (thing + tail) + behind, w) <==>
            Contains(head, w) || Contains(thing, w) || Contains(tail, w) || Contains(behind, w)
  {
    hide Contains;
    CutBefore(head + (thing + tail), behind, w);
    CutBehind(head, thing + tail, w);
    CutAfter(thing, tail, w);
  }

  /** What a topic of answers, with the text behind it, holds of the word for an accepted one. */
  lemma AcceptedInTopic(thing: string, action: Action, answer: Answer, behind: string)
    ensures Contains(TopicOf(thing, action, answer) + behind, "accepted") <==>
            answer.Accepted? || Contains(thing, "accepted") || Contains(behind, "accepted")
  {
    hide Contains, ActionName, AnswerName, TopicOf;
    var tail := "/shadow/" + (ActionName(action) + ("/" + AnswerName(answer)));
    TopicParts(thing, action, answer);
    NameEnds(thing, action, answer);
    AcceptedInTail(action, answer);
    ContainsChars("$aws/things/", "accepted", 'c');
    ContainsInParts("$aws/things/", thing, tail, behind, "accepted");
  }

  lemma TopicParts(thing: string, action: Action, answer: Answer)
    ensures TopicOf(thing, action, answer) ==
            "$aws/things/" + (thing + ("/shadow/" + (ActionName(action) + ("/" + AnswerName(answer)))))
    ensures ("/shadow/" + (ActionName(action) + ("/" + AnswerName(answer))))[0] == '/'
  {}

  /** The last seven characters of a topic are not the first one of the word. */
  lemma NameEnds(thing: string, action: Action, answer: Answer)
    ensures var t := TopicOf(thing, action, answer);
            forall i :: 0 <= i < |t| && |t| - 8 < i ==> t[i] != 'a'
  {
    var t := TopicOf(thing, action, answer);
    var front := "$aws/things/" + (thing + ("/shadow/" + (ActionName(action) + "/")));
    assert t == front + AnswerName(answer);
    assert |AnswerName(answer)| == 8 && forall j :: 0 < j < 8 ==> AnswerName(answer)[j] != 'a';
    forall i | 0 <= i < |t| && |t| - 8 < i
      ensures t[i] != 'a'
    {
      assert t[i] == AnswerName(answer)[i - |front|];
    }
  }

  lemma LastName(answer: Answer)
    ensures Contains("/" + AnswerName(answer), "accepted") <==> answer.Accepted?
  {
    if answer.Accepted? {
      assert ("/accepted")[1..] == "accepted" && ("accepted")[..8] == "accepted";
    } else {
      ContainsChars("/rejected", "accepted", 'a');
    }
  }

  lemma {:induction false} ContainsAt(a: string, w: string, b: string)
    ensures Contains(a + w + b, w)
  {
    if a == [] {
      assert (a + w + b)[..|w|] == w;
    } else {
      assert (a + w + b)[1..] == a[1..] + w + b;
      ContainsAt(a[1..], w, b);
    }
  }

  /**
   * The status is the one of the topic that the answer came on exactly when it was accepted or neither the
   * thing's name nor what lies behind the topic holds the word "accepted".
   */
  lemma StatusIsAnswerIff(thing: string, action: Action, answer: Answer, behind: string)
    ensures var text := TopicOf(thing, action, answer) + behind;
            Marked(text) &&
            (StatusOf(text) == answer <==>
             answer.Accepted? || !(Contains(thing, "accepted") || Contains(behind, "accepted")))
  {
    hide Contains;
    AcceptedInTopic(thing, action, answer, behind);
    var front := "$aws/things/" + (thing + ("/shadow/" + (ActionName(action) + "/")));
    assert TopicOf(thing, action, answer) + behind == front + AnswerName(answer) + behind;
    ContainsAt(front, AnswerName(answer), behind);
  }

  /** A rejected answer for a thing named "accepted" counts as accepted. */
  lemma RejectedTakenAsAccepted()
    ensures StatusOf(TopicOf("accepted", Get, Rejected)) == Accepted
  {
    hide Contains;
    assert TopicOf("accepted", Get, Rejected) + "" == TopicOf("accepted", Get, Rejected);
    AcceptedInTopic("accepted", Get, Rejected, "");
    ContainsAt("", "accepted", "");
    assert "" + "accepted" + "" == "accepted";
  }
}
