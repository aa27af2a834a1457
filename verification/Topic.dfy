/** The topic matcher of the message delivery, against topic levels (section 4.7.1 of MQTT 3.1.1). */
module Topic {

  // ---- topic levels ----

  /** The levels of a topic name or filter, cut at every separator. */
  function Levels(s: string): (r: seq<string>)
    ensures |r| >= 1
  {
    if |s| == 0 then [""]
    else
      var r := Levels(s[1..]);
      if s[0] == '/' then [""] + r else [[s[0]] + r[0]] + r[1..]
  }

  function Join(levels: seq<string>): string
    requires |levels| >= 1
  {
    if |levels| == 1 then levels[0] else levels[0] + ['/'] + Join(levels[1..])
  }

  lemma {:induction false} LevelsJoin(s: string)
    ensures Join(Levels(s)) == s
    ensures forall i :: 0 <= i < |Levels(s)| ==> '/' !in Levels(s)[i]
  {
    if |s| > 0 {
      LevelsJoin(s[1..]);
      var r := Levels(s[1..]);
      if s[0] == '/' {
        assert ([""] + r)[1..] == r;
      } else {
        assert Levels(s)[1..] == r[1..];
      }
      assert s == [s[0]] + s[1..];
    }
  }

  /** A wildcard fills a whole level, and '#' only the last one. */
  predicate WildcardOk(filter: string, i: nat)
    requires i < |filter|
  {
    filter[i] in {'+', '#'} ==>
      (i == 0 || filter[i - 1] == '/') &&
      (i + 1 == |filter| || (filter[i] == '+' && filter[i + 1] == '/'))
  }

  predicate WellFormed(filter: string) {
    forall i :: 0 <= i < |filter| ==> WildcardOk(filter, i)
  }

  /** The match that the standard defines: '+' is one level, '#' any number of levels. */
  predicate StandardMatch(fl: seq<string>, nl: seq<string>) {
    if |fl| == 0 then |nl| == 0
    else if fl[0] == "#" then true
    else |nl| > 0 && (fl[0] == "+" || fl[0] == nl[0]) && StandardMatch(fl[1..], nl[1..])
  }

  /** Every wildcard stands against a level that exists and is not empty. */
  predicate WildcardsCovered(fl: seq<string>, nl: seq<string>) {
    forall i :: 0 <= i < |fl| && fl[i] in {"+", "#"} ==> i < |nl| && nl[i] != ""
  }

  /** The match that the code decides, level by level. */
  predicate ClientMatch(fl: seq<string>, nl: seq<string>) {
    if |fl| == 0 then |nl| == 0
    else if |nl| == 0 then false
    else if fl[0] == "#" then nl[0] != ""
    else (if fl[0] == "+" then nl[0] != "" else fl[0] == nl[0]) && ClientMatch(fl[1..], nl[1..])
  }

  predicate HashLast(fl: seq<string>) {
    forall i :: 0 <= i < |fl| && fl[i] == "#" ==> i + 1 == |fl|
  }

  lemma {:induction false} ClientMatchIff(fl: seq<string>, nl: seq<string>)
    requires HashLast(fl)
    ensures ClientMatch(fl, nl) <==> StandardMatch(fl, nl) && WildcardsCovered(fl, nl)
  {
    if |fl| > 0 && |nl| > 0 && fl[0] != "#" {
      ClientMatchIff(fl[1..], nl[1..]);
      CoveredTail(fl, nl);
    }
  }

  lemma CoveredTail(fl: seq<string>, nl: seq<string>)
    requires |fl| > 0 && |nl| > 0
    ensures WildcardsCovered(fl, nl) <==>
            (fl[0] in {"+", "#"} ==> nl[0] != "") && WildcardsCovered(fl[1..], nl[1..])
  {
    if WildcardsCovered(fl[1..], nl[1..]) && (fl[0] in {"+", "#"} ==> nl[0] != "") {
      forall i | 0 <= i < |fl| && fl[i] in {"+", "#"}
        ensures i < |nl| && nl[i] != ""
      {
        if i > 0 { assert fl[1..][i - 1] == fl[i]; }
      }
    }
    if WildcardsCovered(fl, nl) {
      forall i | 0 <= i < |fl[1..]| && fl[1..][i] in {"+", "#"}
        ensures i < |nl[1..]| && nl[1..][i] != ""
      {
        assert fl[i + 1] == fl[1..][i];
      }
    }
  }

  // ---- one character of the walk ----

  lemma WellFormedTail(a: string)
    requires |a| > 0 && WellFormed(a)
    ensures WellFormed(a[1..])
  {
    forall i | 0 <= i < |a[1..]|
      ensures WildcardOk(a[1..], i)
    {
      assert WildcardOk(a, i + 1);
    }
  }

  lemma WildcardLevel(a: string)
    requires |a| > 0 && WellFormed(a) && a[0] in {'+', '#'}
    ensures Levels(a)[0] == [a[0]]
    ensures a[0] == '#' ==> |a| == 1 && Levels(a) == ["#"]
  {
    assert WildcardOk(a, 0);
    assert Levels(a[1..])[0] == "";
  }

  lemma FirstLevel(a: string)
    ensures (Levels(a)[0] == "") <==> (|a| == 0 || a[0] == '/')
    ensures Levels(a) == [""] <==> a == ""
    ensures |a| > 0 && a[0] != '/' ==> Levels(a)[0][0] == a[0]
  {}

  lemma SameHead(c: char, x: seq<string>, y: seq<string>)
    requires |x| > 0 && |y| > 0 && c !in {'+', '#'} && x[0] != "+" && x[0] != "#"
    ensures ClientMatch([[c] + x[0]] + x[1..], [[c] + y[0]] + y[1..]) == ClientMatch(x, y)
  {
    var a, b := [[c] + x[0]] + x[1..], [[c] + y[0]] + y[1..];
    assert a[1..] == x[1..] && b[1..] == y[1..];
    assert a[0][1..] == x[0] && b[0][1..] == y[0] && a[0][0] == c;
  }

  /** Both pointers step over the same ordinary character. */
  lemma StepLiteral(a: string, b: string)
    requires |a| > 0 && |b| > 0 && a[0] == b[0] && a[0] !in {'+', '#', '/'} && WellFormed(a)
    ensures ClientMatch(Levels(a), Levels(b)) == ClientMatch(Levels(a[1..]), Levels(b[1..]))
  {
    hide ClientMatch;
    if |a| > 1 {
      assert WildcardOk(a, 1);
      hide Levels;
      FirstLevel(a[1..]);
    }
    SameHead(a[0], Levels(a[1..]), Levels(b[1..]));
  }

  lemma StepSeparator(a: string, b: string)
    requires |a| > 0 && |b| > 0 && a[0] == '/' == b[0]
    ensures ClientMatch(Levels(a), Levels(b)) == ClientMatch(Levels(a[1..]), Levels(b[1..]))
  {
    assert Levels(a)[1..] == Levels(a[1..]) && Levels(b)[1..] == Levels(b[1..]);
  }

  /** The two ways out of the walk in the middle of name and filter. */
  lemma StepBreak(a: string, b: string)
    requires |a| > 0 && |b| > 0 && WellFormed(a)
    requires (b[0] == '/' && a[0] != '/') || (a[0] != '+' && a[0] != '#' && a[0] != b[0])
    ensures !ClientMatch(Levels(a), Levels(b))
  {
    FirstLevel(a);
    FirstLevel(b);
    if a[0] in {'+', '#'} {
      WildcardLevel(a);
    } else {
      assert Levels(a)[0] != "+" && Levels(a)[0] != "#";
    }
  }

  /** Where a level ends. */
  predicate LevelEnd(s: string, m: nat) {
    m <= |s| && (forall i :: 0 <= i < m ==> s[i] != '/') && (m == |s| || s[m] == '/')
  }

  lemma {:induction false} SkipLevel(s: string, m: nat)
    requires LevelEnd(s, m)
    ensures Levels(s) == [s[..m]] + if m == |s| then [] else Levels(s[m + 1..])
  {
    if m > 0 {
      SkipLevel(s[1..], m - 1);
      assert s[1..][..m - 1] == s[1..m] && s[..m] == [s[0]] + s[1..m];
      if m < |s| { assert s[1..][m..] == s[m + 1..]; }
    }
  }

  /** '+' takes the level that ends at m. */
  lemma StepPlus(a: string, b: string, m: nat)
    requires |a| > 0 && a[0] == '+' && WellFormed(a) && LevelEnd(b, m) && m > 0
    ensures ClientMatch(Levels(a), Levels(b)) == ClientMatch(Levels(a[1..]), Levels(b[m..]))
  {
    hide WellFormed;
    WildcardLevel(a);
    PlusEnd(a);
    SkipLevel(a, 1);
    SkipLevel(b, m);
    var x := if |a| == 1 then [] else Levels(a[2..]);
    var y := if m == |b| then [] else Levels(b[m + 1..]);
    assert Levels(a)[1..] == x && Levels(b)[1..] == y;
    LevelsAtEnd(a[1..]);
    LevelsAtEnd(b[m..]);
    if |a| > 1 { assert a[1..][1..] == a[2..]; }
    if m < |b| { assert b[m..][1..] == b[m + 1..]; }
  }

  lemma PlusEnd(a: string)
    requires |a| > 0 && a[0] == '+' && WellFormed(a)
    ensures LevelEnd(a, 1)
  {
    assert WildcardOk(a, 0);
  }

  lemma LevelsAtEnd(s: string)
    requires s == "" || s[0] == '/'
    ensures Levels(s)[0] == "" && Levels(s)[1..] == if s == "" then [] else Levels(s[1..])
  {}

  lemma StepHash(a: string, b: string)
    requires |a| > 0 && a[0] == '#' && WellFormed(a) && |b| > 0 && b[0] != '/'
    ensures |a| == 1 && ClientMatch(Levels(a), Levels(b))
  {
    WildcardLevel(a);
    FirstLevel(b);
  }

  lemma WalkEnds(a: string, b: string)
    requires WellFormed(a) && (a == "" || b == "")
    ensures ClientMatch(Levels(a), Levels(b)) <==> a == "" && b == ""
  {
    FirstLevel(a);
    FirstLevel(b);
    if a != "" {
      assert Levels(b) == [""];
      if a[0] in {'+', '#'} { WildcardLevel(a); }
      if a[0] == '/' { assert Levels(a)[1..] == Levels(a[1..]); }
    } else if b != "" {
      assert Levels(a) == [""];
    }
  }

  // ---- the matcher ----

  /** Two pointers walk over filter and name; the filter is the text before its terminator. */
  method IsTopicMatched(filter: string, name: string) returns (matched: bool)
    requires WellFormed(filter)
    ensures matched <==> ClientMatch(Levels(filter), Levels(name))
  {
    hide Levels, ClientMatch, WellFormed;
    var f, n := 0, 0;
    assert filter[0..] == filter && name[0..] == name;
    while f < |filter| && n < |name|
      invariant 0 <= f <= |filter| && 0 <= n <= |name| && WellFormed(filter[f..])
      invariant ClientMatch(Levels(filter), Levels(name)) == ClientMatch(Levels(filter[f..]), Levels(name[n..]))
      decreases |filter| - f
    {
      ghost var a, b := filter[f..], name[n..];
      assert a[1..] == filter[f + 1..] && b[1..] == name[n + 1..];
      WellFormedTail(a);
      if name[n] == '/' && filter[f] != '/' {
        StepBreak(a, b);
        break;
      }
      if filter[f] != '+' && filter[f] != '#' && filter[f] != name[n] {
        StepBreak(a, b);
        break;
      }
      if filter[f] == '+' {
        ghost var n0 := n;
        var next := n + 1;
        while next < |name| && name[next] != '/'
          invariant n0 <= n < |name| && next == n + 1
          invariant forall i :: n0 <= i <= n ==> name[i] != '/'
          decreases |name| - n
        {
          n := n + 1;
          next := n + 1;
        }
        assert LevelEnd(b, n + 1 - n0);
        StepPlus(a, b, n + 1 - n0);
        assert b[n + 1 - n0..] == name[n + 1..];
      } else if filter[f] == '#' {
        StepHash(a, b);
        n := |name| - 1;
        WalkEnds("", "");
        assert filter[f + 1..] == "" && name[n + 1..] == "";
      } else if filter[f] == '/' {
        StepSeparator(a, b);
      } else {
        StepLiteral(a, b);
      }
      f := f + 1;
      n := n + 1;
    }
    matched := n == |name| && f == |filter|;
    if f == |filter| || n == |name| { WalkEnds(filter[f..], name[n..]); }
  }

  // ---- what a match means ----

  lemma {:induction false} WellFormedLevels(filter: string)
    requires WellFormed(filter)
    ensures HashLast(Levels(filter))
  {
    if |filter| > 0 {
      WellFormedTail(filter);
      WellFormedLevels(filter[1..]);
      if filter[0] == '#' {
        WildcardLevel(filter);
      } else {
        var r := Levels(filter[1..]);
        FirstLevel(filter);
        assert Levels(filter)[0] != "#";
        if filter[0] != '/' { assert Levels(filter)[1..] == r[1..]; }
      }
    }
  }

  /**
   * The client accepts exactly the standard's matches in which each wildcard stands against a
   * level that exists and is not empty.
   */
  lemma MatcherIsStandardWhenCovered(filter: string, name: string)
    requires WellFormed(filter)
    ensures var fl, nl := Levels(filter), Levels(name);
            ClientMatch(fl, nl) <==> StandardMatch(fl, nl) && WildcardsCovered(fl, nl)
  {
    WellFormedLevels(filter);
    ClientMatchIff(Levels(filter), Levels(name));
  }

  /** For names without empty levels: the standard's match with '#' as one or more levels. */
  lemma MatcherOnFullLevels(filter: string, name: string)
    requires WellFormed(filter) && forall i :: 0 <= i < |Levels(name)| ==> Levels(name)[i] != ""
    ensures var fl, nl := Levels(filter), Levels(name);
            ClientMatch(fl, nl) <==>
            StandardMatch(fl, nl) && (fl[|fl| - 1] == "#" ==> |fl| <= |nl|)
  {
    var fl, nl := Levels(filter), Levels(name);
    WellFormedLevels(filter);
    ClientMatchIff(fl, nl);
    if StandardMatch(fl, nl) { StandardLength(fl, nl); }
  }

  lemma {:induction false} StandardLength(fl: seq<string>, nl: seq<string>)
    requires HashLast(fl) && StandardMatch(fl, nl)
    ensures if |fl| > 0 && fl[|fl| - 1] == "#" then |fl| <= |nl| + 1 else |fl| == |nl|
  {
    if |fl| > 0 && fl[0] != "#" {
      assert forall i :: 0 <= i < |fl[1..]| ==> fl[1..][i] == fl[i + 1];
      StandardLength(fl[1..], nl[1..]);
    }
  }
}
