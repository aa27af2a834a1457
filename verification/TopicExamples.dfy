/** Matches of the standard that the client refuses. */
module TopicExamples {
  import opened Topic

  /** The standard lets "a/#" match "a" and "+" match an empty level; the client refuses both. */
  lemma NarrowerThanStandard()
    ensures StandardMatch(Levels("a/#"), Levels("a")) && !ClientMatch(Levels("a/#"), Levels("a"))
    ensures StandardMatch(Levels("+/a"), Levels("/a")) && !ClientMatch(Levels("+/a"), Levels("/a"))
  {
    SkipLevel("a/#", 1);
    SkipLevel("#", 1);
    SkipLevel("a", 1);
    SkipLevel("+/a", 1);
    SkipLevel("/a", 0);
    assert "a/#"[2..] == "#" && "a/#"[..1] == "a" && "#"[..1] == "#" && "a"[..1] == "a";
    assert "+/a"[2..] == "a" && "+/a"[..1] == "+" && "/a"[1..] == "a" && "/a"[..0] == "";
    assert Levels("a/#") == ["a", "#"] && Levels("a") == ["a"];
    assert Levels("+/a") == ["+", "a"] && Levels("/a") == ["", "a"];
    assert ["a", "#"][1..] == ["#"] && ["a"][1..] == [];
    assert ["+", "a"][1..] == ["a"] && ["", "a"][1..] == ["a"];
  }
}
