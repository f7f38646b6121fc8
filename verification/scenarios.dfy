/** Concrete instances of the behaviour of the enumeration and the prefix cache. */
module Scenarios {
  import opened Wrappers
  import opened Enums
  import opened PrefixCache

  /** Names `a` and `b` under prefix `ns` are valued `ns-a` and `ns-b`. */
  lemma ConstructWithPrefix()
    ensures Construct(["a", "b"], "ns").entries == map["a" := "ns-a", "b" := "ns-b"]
    ensures Size(Construct(["a", "b"], "ns")) == 2
  {
    var e := Construct(["a", "b"], "ns");
    assert Names(["a", "b"]) == {"a", "b"};
    assert "ns" + "-" + "a" == "ns-a" && "ns" + "-" + "b" == "ns-b";
    assert e.entries.Keys == {"a", "b"};
  }

  /** Under the empty prefix a name is its own value. */
  lemma ConstructWithoutPrefix()
    ensures Construct(["x"], "").entries == map["x" := "x"]
  {
    assert Names(["x"]) == {"x"};
  }

  /**
   * Deriving `outer` from a base with prefix `ns` gives prefix `outer-ns`
   * and entry `a` valued `outer-ns-a`; asking again returns the same Enum.
   */
  lemma PrefixEnumOuter()
    ensures PrefixEnum(map[], Request(Construct(["a"], "ns"), "outer", None)).value
      == Enum("outer-ns", map["a" := "outer-ns-a"])
    ensures var first := PrefixEnum(map[], Request(Construct(["a"], "ns"), "outer", None));
      PrefixEnum(first.cache, Request(Construct(["a"], "ns"), "outer", None)).value == first.value
  {
    var b := Construct(["a"], "ns");
    assert Names(["a"]) == {"a"};
    assert b.entries.Keys == {"a"};
    var d := PrefixEnum(map[], Request(b, "outer", None)).value;
    assert "outer" + "-" + "ns" == "outer-ns";
    assert "outer-ns" + "-" + "a" == "outer-ns-a";
    assert d.entries.Keys == {"a"};
  }
}
