/** Concrete behaviour on small tries. */
module Examples {
  import opened Wrappers
  import opened WordKeys
  import opened Trie
  import opened StreamSearch

  /** The trie with ["a", "b"] mapped to 1 and ["c"] mapped to 2. */
  function Sample(): WordTrie<int> {
    Add(Add(NewTrie(), ["a", "b"], 1, DefaultAggregator), ["c"], 2, DefaultAggregator)
  }

  /** The root of the sample trie, written out. */
  function SampleRoot(): Node<int> {
    Node(map["a" := Node(map["b" := Node(map[], Some(1))], None), "c" := Node(map[], Some(2))], None)
  }

  /** Adding the two phrases builds exactly this root. */
  lemma SampleShape()
    ensures Sample() == WordTrie(SampleRoot())
  {
  }

  /** A match ends at "b"; "c" fails to extend it and restarts a match of its own. */
  lemma SearchRestarts()
    ensures Search(WordTrie(SampleRoot()), ["a", "b", "c"], false) == [Bare(1), Bare(2)]
  {
    var e := ["a", "b", "c"];
    assert EscapeAll(e) == e;
    GreedySampleABC();
  }

  /** The same stream with spans: each value comes with the words that reached it. */
  lemma SearchRestartsSpans()
    ensures Search(WordTrie(SampleRoot()), ["a", "b", "c"], true) == [Spanned(["a", "b"], 1), Spanned(["c"], 2)]
  {
    var e := ["a", "b", "c"];
    assert EscapeAll(e) == e;
    GreedySampleABC();
  }

  lemma GreedySampleABC()
    ensures Greedy(SampleRoot(), ["a", "b", "c"]) == [Hit(["a", "b"], 1), Hit(["c"], 2)]
  {
    var r := SampleRoot();
    var e := ["a", "b", "c"];
    assert e[1..] == ["b", "c"] && e[1..][1..] == ["c"];
    assert Reach(r.children["a"].children["b"], ["c"]) == 0;
    assert Reach(r, e) == 2;
    assert e[..2] == ["a", "b"] && e[2..] == ["c"];
    ReachSampleC();
  }

  /** The stream ["c"] alone matches the value 2. */
  lemma ReachSampleC()
    ensures Greedy(SampleRoot(), ["c"]) == [Hit(["c"], 2)]
  {
    var r := SampleRoot();
    assert ["c"][1..] == [] && ["c"][..1] == ["c"] && ["c"][1..] == [];
    assert Reach(r, ["c"]) == 1;
  }

  /** The lone "a" reaches a node without a value and is dropped. */
  lemma SearchDropsDeadEnd()
    ensures Search(WordTrie(SampleRoot()), ["a", "c"], false) == [Bare(2)]
  {
    var e := ["a", "c"];
    assert EscapeAll(e) == e;
    GreedySampleAC();
  }

  lemma GreedySampleAC()
    ensures Greedy(SampleRoot(), ["a", "c"]) == [Hit(["c"], 2)]
  {
    var r := SampleRoot();
    var e := ["a", "c"];
    assert e[1..] == ["c"];
    assert Reach(r.children["a"], ["c"]) == 0;
    assert Reach(r, e) == 1;
    assert e[..1] == ["a"];
    assert ValueAt(r, ["a"]) == None;
    ReachSampleC();
  }

  /** The pending match is flushed at the end of the stream. */
  lemma SearchFlushesAtEnd()
    ensures Search(WordTrie(SampleRoot()), ["a", "b"], false) == [Bare(1)]
  {
    var e := ["a", "b"];
    assert EscapeAll(e) == e;
    GreedySampleAB();
  }

  lemma GreedySampleAB()
    ensures Greedy(SampleRoot(), ["a", "b"]) == [Hit(["a", "b"], 1)]
  {
    var r := SampleRoot();
    var e := ["a", "b"];
    assert e[1..] == ["b"] && e[1..][1..] == [];
    assert Reach(r, e) == 2;
    assert e[..2] == e && e[2..] == [];
  }

  /** The trie with ["a"] mapped to 1 and ["a", "b", "c"] mapped to 2. */
  function Nested(): WordTrie<int> {
    Add(Add(NewTrie(), ["a"], 1, DefaultAggregator), ["a", "b", "c"], 2, DefaultAggregator)
  }

  /** The root of the nested trie, written out. */
  function NestedRoot(): Node<int> {
    Node(map["a" := Node(map["b" := Node(map["c" := Node(map[], Some(2))], None)], Some(1))], None)
  }

  /** Adding the two phrases builds exactly this root. */
  lemma NestedShape()
    ensures Nested() == WordTrie(NestedRoot())
  {
  }

  /**
   The documented limitation: with ["a"] valued and ["a", "b", "c"] stored,
   the stream ["a", "b"] breaks at a node without a value and yields nothing,
   although its prefix ["a"] holds a value.
   */
  lemma SearchForgetsValuedPrefix()
    ensures Search(WordTrie(NestedRoot()), ["a", "b"], false) == []
  {
    var e := ["a", "b"];
    assert EscapeAll(e) == e;
    GreedyNestedAB();
  }

  lemma GreedyNestedAB()
    ensures Greedy(NestedRoot(), ["a", "b"]) == []
  {
    var r := NestedRoot();
    var e := ["a", "b"];
    assert e[1..] == ["b"] && e[1..][1..] == [];
    assert Reach(r, e) == 2;
    assert e[..2] == e && e[2..] == [];
    assert ValueAt(r, e) == None;
  }

  /** "#a" and "a" do not collide; the span reports the escaped word "##a". */
  lemma EscapedWordsDoNotCollide()
    ensures Match(Add(Add(NewTrie(), ["#a"], 1, DefaultAggregator), ["a"], 2, DefaultAggregator), ["#a"]) == Some(1)
    ensures Match(Add(Add(NewTrie(), ["#a"], 1, DefaultAggregator), ["a"], 2, DefaultAggregator), ["a"]) == Some(2)
    ensures Search(Add(NewTrie(), ["#a"], 1, DefaultAggregator), ["#a"], true) == [Spanned(["##a"], 1)]
  {
    var r := Add(NewTrie(), ["#a"], 1, DefaultAggregator).root;
    assert Escape("#a") == "##a";
    assert r == Node(map["##a" := Node(map[], Some(1))], None);
    var e := ["##a"];
    assert EscapeAll(["#a"]) == e;
    assert e[1..] == [] && e[..1] == e;
    assert Reach(r, e) == 1;
    assert Greedy(r, e) == [Hit(e, 1)];
  }

  /** The word "#" itself is stored under "##" and never reads the value slot. */
  lemma ValueKeyAsWord()
    ensures Match(Add(NewTrie(), [], 1, DefaultAggregator), ["#"]) == None
    ensures Match(Add(NewTrie(), ["#"], 1, DefaultAggregator), ["#"]) == Some(1)
  {
  }
}
