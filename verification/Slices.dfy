/** A word at a position of a text. */
module Slices {

  /** The text s carries w at position p. */
  ghost predicate At<T>(s: seq<T>, p: nat, w: seq<T>) {
    p + |w| <= |s| && s[p..p + |w|] == w
  }

  lemma AtSplit<T>(s: seq<T>, p: nat, a: seq<T>, b: seq<T>)
    requires At(s, p, a + b)
    ensures At(s, p, a) && At(s, p + |a|, b)
  {
    var w := s[p..p + |a + b|];
    assert s[p..p + |a|] == w[..|a|] && s[p + |a|..p + |a| + |b|] == w[|a|..];
  }

  lemma AtIndex<T>(s: seq<T>, p: nat, w: seq<T>, k: nat)
    requires At(s, p, w) && k < |w|
    ensures p + k < |s| && s[p + k] == w[k]
  {
    assert s[p..p + |w|][k] == w[k];
  }
}
