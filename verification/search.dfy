/**
 Streaming search: the state machine that scans a word stream against the trie.

 The scan carries the node reached so far, the span of escaped words that led
 there from the root, and the hits emitted. A word that continues the path
 extends the span; a word that does not closes the span (emitting the node's
 value, if it has one) and is then tried again from the root. At the end of
 the stream the pending span is closed once more. A span that breaks at a
 node without a value is dropped, even if a shorter valued prefix of it was
 passed on the way.
 */
module StreamSearch {
  import opened Wrappers
  import opened WordKeys
  import opened Trie

  /** One emitted match: the escaped words that formed it and the value found. */
  datatype Hit<V> = Hit(span: seq<string>, value: V)

  /** An element of the result: the bare value, or the span with the value when spans are requested. */
  datatype Found<V> = Bare(value: V) | Spanned(span: seq<string>, value: V)

  datatype Scan<V> = Scan(node: Node<V>, span: seq<string>, hits: seq<Hit<V>>)

  function Start<V>(root: Node<V>): Scan<V> {
    Scan(root, [], [])
  }

  /**
   The scan is on the path of its span: the node is the one the span walks to
   from the root, and an empty span means the scan is at the root.
   */
  ghost predicate OnPath<V>(root: Node<V>, st: Scan<V>) {
    && Walk(root, st.span) == Some(st.node)
    && (st.span == [] ==> st.node == root)
  }

  /**
   Closing the pending span keeps the earlier hits and adds one more, the span
   with its node's value, exactly when the span is non-empty and the node has
   a value.
   */
  function Close<V>(st: Scan<V>): (r: seq<Hit<V>>)
    ensures |st.hits| <= |r| <= |st.hits| + 1
    ensures r[..|st.hits|] == st.hits
    ensures |r| > |st.hits| <==> |st.span| > 0 && st.node.value.Some?
    ensures |r| > |st.hits| ==> r[|st.hits|] == Hit(st.span, st.node.value.value)
  {
    if |st.span| > 0 && st.node.value.Some? then st.hits + [Hit(st.span, st.node.value.value)]
    else st.hits
  }

  /**
   One key of the stream: extend the span if the key continues the path,
   otherwise close the span and try the key again from the root. The scan
   stays on the path of its span, a non-empty span ends with the key just
   read, and earlier hits are kept.
   */
  function StepKey<V>(root: Node<V>, st: Scan<V>, k: string): (r: Scan<V>)
    ensures OnPath(root, st) ==> OnPath(root, r)
    ensures r.span == st.span + [k] || r.span == [k] || r.span == []
    ensures r.span == [] ==> r.node == root
    ensures |st.hits| <= |r.hits| <= |st.hits| + 1 && r.hits[..|st.hits|] == st.hits
  {
    WalkSnoc(root, st.span, k);
    WalkSnoc(root, [], k);
    if k in st.node.children then
      Scan(st.node.children[k], st.span + [k], st.hits)
    else
      var hits := Close(st);
      if k in root.children then Scan(root.children[k], [k], hits)
      else Scan(root, [], hits)
  }

  /**
   One word of the stream, escaped first: the span grows by the escaped word,
   restarts with it, or empties back at the root; at most one hit is added.
   */
  function Step<V>(root: Node<V>, st: Scan<V>, w: string): (r: Scan<V>)
    ensures r.span == st.span + [Escape(w)] || r.span == [Escape(w)] || r.span == []
    ensures r.span == [] ==> r.node == root
    ensures |st.hits| <= |r.hits| <= |st.hits| + 1 && r.hits[..|st.hits|] == st.hits
  {
    StepKey(root, st, Escape(w))
  }

  /** The scan over a stream of keys, consumed from the front. */
  function RunFrom<V>(root: Node<V>, st: Scan<V>, keys: seq<string>): Scan<V>
    decreases |keys|
  {
    if keys == [] then st else RunFrom(root, StepKey(root, st, keys[0]), keys[1..])
  }

  /**
   The scan after the whole stream, one Step per word in stream order: an
   empty span means the root, the span is no longer than the stream, and there
   are no more hits than words.
   */
  function Run<V>(root: Node<V>, words: seq<string>): (r: Scan<V>)
    ensures r.span == [] ==> r.node == root
    ensures |r.span| <= |words|
    ensures |r.hits| <= |words|
    decreases |words|
  {
    if words == [] then Start(root)
    else Step(root, Run(root, words[..|words| - 1]), words[|words| - 1])
  }

  /** Scanning word by word from the back is scanning the escaped stream from the front. */
  lemma {:induction false} RunIsRunFrom<V>(root: Node<V>, words: seq<string>)
    ensures Run(root, words) == RunFrom(root, Start(root), EscapeAll(words))
    decreases |words|
  {
    if words != [] {
      var n := |words| - 1;
      RunIsRunFrom(root, words[..n]);
      EscapeAllSnoc(words);
      RunFromSnoc(root, Start(root), EscapeAll(words[..n]), Escape(words[n]));
    }
  }

  lemma {:induction false} RunFromSnoc<V>(root: Node<V>, st: Scan<V>, keys: seq<string>, k: string)
    ensures RunFrom(root, st, keys + [k]) == StepKey(root, RunFrom(root, st, keys), k)
    decreases |keys|
  {
    if keys == [] {
      assert keys + [k] == [k];
    } else {
      assert (keys + [k])[1..] == keys[1..] + [k];
      RunFromSnoc(root, StepKey(root, st, keys[0]), keys[1..], k);
    }
  }

  /** The hits of the search: exactly those of the greedy reference reading of the escaped stream. */
  function SearchHits<V>(root: Node<V>, words: seq<string>): (r: seq<Hit<V>>)
    ensures r == Greedy(root, EscapeAll(words))
  {
    RunIsRunFrom(root, words);
    GreedyClose(root, Start(root), EscapeAll(words));
    assert Start(root).span + EscapeAll(words) == EscapeAll(words);
    Close(Run(root, words))
  }

  /*
   * A reference reading of the search, independent of the state machine.
   */

  /** The length of the longest prefix of `keys` that is a path from `n`. */
  function Reach<V>(n: Node<V>, keys: seq<string>): (r: nat)
    ensures r <= |keys|
    ensures Walk(n, keys[..r]).Some?
    ensures r < |keys| ==> Walk(n, keys[..r + 1]).None?
    decreases |keys|
  {
    if keys == [] || keys[0] !in n.children then
      assert keys[..0] == [];
      0
    else
      var r := 1 + Reach(n.children[keys[0]], keys[1..]);
      assert keys[..r][1..] == keys[1..][..r - 1];
      assert r < |keys| ==> keys[..r + 1][1..] == keys[1..][..r];
      r
  }

  /**
   Greedy longest extension, then restart: from the front of the stream, take
   the longest run that is a path from the root; emit it when its node holds a
   value, and go on after it. A key that starts no path is skipped.
   */
  function Greedy<V>(root: Node<V>, keys: seq<string>): (r: seq<Hit<V>>)
    ensures |r| <= |keys|
    decreases |keys|
  {
    if keys == [] then []
    else
      var l := Reach(root, keys);
      if l == 0 then Greedy(root, keys[1..])
      else
        var found := ValueAt(root, keys[..l]);
        (if found.Some? then [Hit(keys[..l], found.value)] else []) + Greedy(root, keys[l..])
  }

  /** Reaching through a path first: the reach is the path's length plus the reach from where it leads. */
  lemma {:induction false} ReachAfterPath<V>(n: Node<V>, p: seq<string>, q: seq<string>)
    requires Walk(n, p).Some?
    ensures Reach(n, p + q) == |p| + Reach(Walk(n, p).value, q)
    decreases |p|
  {
    if p != [] {
      assert (p + q)[0] == p[0];
      assert (p + q)[1..] == p[1..] + q;
      ReachAfterPath(n.children[p[0]], p[1..], q);
    } else {
      assert p + q == q;
    }
  }

  /** A key that starts no path from the root is skipped by the reference reading. */
  lemma GreedySkips<V>(root: Node<V>, k: string, keys: seq<string>)
    requires k !in root.children
    ensures Greedy(root, [k] + keys) == Greedy(root, keys)
  {
    assert ([k] + keys)[0] == k;
    assert ([k] + keys)[1..] == keys;
  }

  /** The pending span ends where the key breaks its path: the reference emits it, then reads on from the key. */
  lemma GreedyBreak<V>(root: Node<V>, st: Scan<V>, k: string, keys: seq<string>)
    requires OnPath(root, st)
    requires |st.span| > 0
    requires k !in st.node.children
    ensures st.hits + Greedy(root, st.span + ([k] + keys)) == Close(st) + Greedy(root, [k] + keys)
  {
    var e := st.span + ([k] + keys);
    ReachAfterPath(root, st.span, [k] + keys);
    assert Reach(root, e) == |st.span|;
    assert e[..|st.span|] == st.span;
    assert e[|st.span|..] == [k] + keys;
  }

  /** An empty stream closes the pending span as the reference does. */
  lemma GreedyFlush<V>(root: Node<V>, st: Scan<V>)
    requires OnPath(root, st)
    ensures Close(st) == st.hits + Greedy(root, st.span)
  {
    if st.span != [] {
      ReachAfterPath(root, st.span, []);
      assert st.span + [] == st.span;
      assert st.span[..|st.span|] == st.span;
      assert st.span[|st.span|..] == [];
    }
  }

  /** One key of the scan moves the reference reading along with it. */
  lemma GreedyStep<V>(root: Node<V>, st: Scan<V>, k: string, rest: seq<string>)
    requires OnPath(root, st)
    ensures st.hits + Greedy(root, st.span + ([k] + rest)) ==
      StepKey(root, st, k).hits + Greedy(root, StepKey(root, st, k).span + rest)
  {
    var st' := StepKey(root, st, k);
    if k in st.node.children {
      assert st'.span + rest == st.span + ([k] + rest);
    } else if st.span == [] {
      assert st.span + ([k] + rest) == [k] + rest;
      assert st'.span + rest == rest;
      GreedySkips(root, k, rest);
    } else {
      GreedyBreak(root, st, k, rest);
      if k in root.children {
        assert st'.span == [k];
      } else {
        assert st'.span + rest == rest;
        GreedySkips(root, k, rest);
      }
    }
  }

  /**
   From any scan on the path of its span, closing the scan of the rest of the
   stream gives the hits so far followed by the reference reading of the
   pending span and the rest.
   */
  lemma {:induction false} GreedyClose<V>(root: Node<V>, st: Scan<V>, keys: seq<string>)
    requires OnPath(root, st)
    ensures Close(RunFrom(root, st, keys)) == st.hits + Greedy(root, st.span + keys)
    decreases |keys|
  {
    if keys == [] {
      assert st.span + keys == st.span;
      GreedyFlush(root, st);
    } else {
      var rest := keys[1..];
      assert keys == [keys[0]] + rest;
      GreedyClose(root, StepKey(root, st, keys[0]), rest);
      GreedyStep(root, st, keys[0], rest);
    }
  }

  /** The result in the requested shape: bare values, or span and value pairs. */
  function Format<V>(hits: seq<Hit<V>>, returnNodes: bool): (r: seq<Found<V>>)
    ensures |r| == |hits|
    ensures forall i :: 0 <= i < |hits| ==> r[i].value == hits[i].value
    ensures forall i :: 0 <= i < |hits| ==> if returnNodes then r[i] == Spanned(hits[i].span, hits[i].value) else r[i] == Bare(hits[i].value)
  {
    seq(|hits|, i requires 0 <= i < |hits| =>
      if returnNodes then Spanned(hits[i].span, hits[i].value) else Bare(hits[i].value))
  }

  /**
   The search: the greedy reference reading of the escaped stream, in the
   requested shape.
   */
  function Search<V>(t: WordTrie<V>, words: seq<string>, returnNodes: bool): (r: seq<Found<V>>)
    ensures r == Format(Greedy(t.root, EscapeAll(words)), returnNodes)
  {
    Format(SearchHits(t.root, words), returnNodes)
  }

  /*
   * Where the hits lie in the stream.
   */

  /**
   The hits lie in `e` in order, each a non-empty contiguous run, none
   overlapping the next. Read from the back: either the last hit is the tail
   of `e` and the others lie in what comes before it, or the last word of `e`
   belongs to no hit.
   */
  ghost predicate Placed<V>(hits: seq<Hit<V>>, e: seq<string>)
    decreases |e|
  {
    |hits| == 0 ||
    (|e| > 0 &&
      (EndsWithLast(hits, e) || Placed(hits, e[..|e| - 1])))
  }

  /** The last hit is the non-empty tail of `e`, and the other hits lie before it. */
  ghost predicate EndsWithLast<V>(hits: seq<Hit<V>>, e: seq<string>)
    requires |hits| > 0 && |e| > 0
    decreases |e|, 0
  {
    var s := hits[|hits| - 1].span;
    && 0 < |s| <= |e|
    && e[|e| - |s|..] == s
    && Placed(hits[..|hits| - 1], e[..|e| - |s|])
  }

  /** Every hit's span walks from the root to a node holding the hit's value. */
  ghost predicate Valued<V>(root: Node<V>, hits: seq<Hit<V>>) {
    forall i :: 0 <= i < |hits| ==> ValueAt(root, hits[i].span) == Some(hits[i].value)
  }

  lemma {:induction false} PlacedExtends<V>(hits: seq<Hit<V>>, a: seq<string>, b: seq<string>)
    requires Placed(hits, a)
    requires a <= b
    ensures Placed(hits, b)
    decreases |b|
  {
    if |b| == |a| {
      assert a == b;
    } else if |hits| > 0 {
      var b' := b[..|b| - 1];
      assert a <= b';
      PlacedExtends(hits, a, b');
    }
  }

  /** Each hit takes up at least one word, so there are no more hits than words. */
  lemma {:induction false} PlacedBound<V>(hits: seq<Hit<V>>, e: seq<string>)
    requires Placed(hits, e)
    ensures |hits| <= |e|
    decreases |e|
  {
    if |hits| > 0 {
      if EndsWithLast(hits, e) {
        var s := hits[|hits| - 1].span;
        PlacedBound(hits[..|hits| - 1], e[..|e| - |s|]);
      } else {
        PlacedBound(hits, e[..|e| - 1]);
      }
    }
  }

  /** Appending a hit whose span ends the stream. */
  lemma PlacedSnoc<V>(hits: seq<Hit<V>>, e: seq<string>, h: Hit<V>)
    requires 0 < |h.span| <= |e|
    requires e[|e| - |h.span|..] == h.span
    requires Placed(hits, e[..|e| - |h.span|])
    ensures Placed(hits + [h], e)
  {
    var hs := hits + [h];
    assert hs[|hs| - 1] == h;
    assert hs[..|hs| - 1] == hits;
    assert EndsWithLast(hs, e);
  }

  /*
   * The loop invariant of the scan.
   */

  /**
   The current node is the one the span walks to from the root; an empty span
   means the scan is back at the root; the span is the tail of the escaped
   stream read so far, and the hits lie, in order and valued, before it.
   */
  ghost predicate Inv<V>(root: Node<V>, e: seq<string>, st: Scan<V>) {
    && Walk(root, st.span) == Some(st.node)
    && (st.span == [] ==> st.node == root)
    && |st.span| <= |e|
    && e[|e| - |st.span|..] == st.span
    && Placed(st.hits, e[..|e| - |st.span|])
    && Valued(root, st.hits)
  }

  lemma CloseKeeps<V>(root: Node<V>, e: seq<string>, st: Scan<V>)
    requires Inv(root, e, st)
    ensures Placed(Close(st), e)
    ensures Valued(root, Close(st))
  {
    if |st.span| > 0 && st.node.value.Some? {
      PlacedSnoc(st.hits, e, Hit(st.span, st.node.value.value));
    } else {
      PlacedExtends(st.hits, e[..|e| - |st.span|], e);
    }
  }

  /** A word that continues the path extends the span; the hits stay where they were. */
  lemma StepContinues<V>(root: Node<V>, e: seq<string>, st: Scan<V>, k: string)
    requires Inv(root, e, st)
    requires k in st.node.children
    ensures Inv(root, e + [k], Scan(st.node.children[k], st.span + [k], st.hits))
  {
    var e' := e + [k];
    var span' := st.span + [k];
    WalkSnoc(root, st.span, k);
    assert e'[|e'| - |span'|..] == span';
    assert e'[..|e'| - |span'|] == e[..|e| - |st.span|];
  }

  /** A word that breaks the path closes the span, then starts again from the root. */
  lemma StepRestarts<V>(root: Node<V>, e: seq<string>, st: Scan<V>, k: string)
    requires Inv(root, e, st)
    ensures Inv(root, e + [k],
      if k in root.children then Scan(root.children[k], [k], Close(st)) else Scan(root, [], Close(st)))
  {
    var e' := e + [k];
    CloseKeeps(root, e, st);
    if k in root.children {
      WalkSnoc(root, [], k);
      assert e'[..|e'| - 1] == e;
      assert e'[|e'| - 1..] == [k];
    } else {
      assert e'[..|e'|] == e';
      PlacedExtends(Close(st), e, e');
    }
  }

  lemma StepKeeps<V>(root: Node<V>, e: seq<string>, st: Scan<V>, w: string)
    requires Inv(root, e, st)
    ensures Inv(root, e + [Escape(w)], Step(root, st, w))
  {
    var k := Escape(w);
    if k in st.node.children {
      StepContinues(root, e, st, k);
    } else {
      StepRestarts(root, e, st, k);
    }
  }

  lemma {:induction false} RunInvariant<V>(root: Node<V>, words: seq<string>)
    ensures Inv(root, EscapeAll(words), Run(root, words))
    decreases |words|
  {
    if words != [] {
      var n := |words| - 1;
      RunInvariant(root, words[..n]);
      EscapeAllSnoc(words);
      StepKeeps(root, EscapeAll(words[..n]), Run(root, words[..n]), words[n]);
    }
  }

  /*
   * What the search promises.
   */

  /**
   Each hit is a non-empty, contiguous run of the escaped stream, the hits do
   not overlap and come in stream order, each run walks from the root to a node
   holding the hit's value, and there are no more hits than words.
   */
  lemma SearchHitsSound<V>(root: Node<V>, words: seq<string>)
    ensures Placed(SearchHits(root, words), EscapeAll(words))
    ensures forall i :: 0 <= i < |SearchHits(root, words)| ==>
      |SearchHits(root, words)[i].span| > 0 &&
      ValueAt(root, SearchHits(root, words)[i].span) == Some(SearchHits(root, words)[i].value)
    ensures |SearchHits(root, words)| <= |words|
  {
    RunInvariant(root, words);
    CloseKeeps(root, EscapeAll(words), Run(root, words));
    PlacedBound(SearchHits(root, words), EscapeAll(words));
    PlacedSpansNonEmpty(SearchHits(root, words), EscapeAll(words));
  }

  lemma {:induction false} PlacedSpansNonEmpty<V>(hits: seq<Hit<V>>, e: seq<string>)
    requires Placed(hits, e)
    ensures forall i :: 0 <= i < |hits| ==> |hits[i].span| > 0
    decreases |e|
  {
    if |hits| > 0 {
      if EndsWithLast(hits, e) {
        var s := hits[|hits| - 1].span;
        PlacedSpansNonEmpty(hits[..|hits| - 1], e[..|e| - |s|]);
        assert forall i :: 0 <= i < |hits| - 1 ==> hits[i] == hits[..|hits| - 1][i];
      } else {
        PlacedSpansNonEmpty(hits, e[..|e| - 1]);
      }
    }
  }

  /** The same guarantees on the result of Search: each element's span is valued as reported. */
  lemma SearchSound<V>(t: WordTrie<V>, words: seq<string>, returnNodes: bool)
    ensures |Search(t, words, returnNodes)| <= |words|
    ensures returnNodes ==> forall i :: 0 <= i < |Search(t, words, returnNodes)| ==>
      Search(t, words, returnNodes)[i].Spanned? &&
      |Search(t, words, returnNodes)[i].span| > 0 &&
      ValueAt(t.root, Search(t, words, returnNodes)[i].span) == Some(Search(t, words, returnNodes)[i].value)
  {
    SearchHitsSound(t.root, words);
  }

  /** Without spans, the result is exactly the value parts of the result with spans. */
  lemma BareIsValuesOfSpanned<V>(t: WordTrie<V>, words: seq<string>)
    ensures |Search(t, words, false)| == |Search(t, words, true)|
    ensures forall i :: 0 <= i < |Search(t, words, false)| ==>
      Search(t, words, false)[i] == Bare(Search(t, words, true)[i].value)
  {
  }

  /** An empty stream yields no result. */
  lemma SearchEmptyStream<V>(t: WordTrie<V>, returnNodes: bool)
    ensures Search(t, [], returnNodes) == []
  {
  }

  /** A root without children yields no result on any stream, even if the root holds a value. */
  lemma {:induction false} RunChildlessRoot<V>(root: Node<V>, words: seq<string>)
    requires root.children == map[]
    ensures Run(root, words) == Start(root)
    decreases |words|
  {
    if words != [] {
      RunChildlessRoot(root, words[..|words| - 1]);
    }
  }

  lemma SearchChildlessRoot<V>(t: WordTrie<V>, words: seq<string>, returnNodes: bool)
    requires t.root.children == map[]
    ensures Search(t, words, returnNodes) == []
  {
    RunChildlessRoot(t.root, words);
  }

  /** A stream that is exactly a stored phrase yields that one phrase and its value. */
  lemma SearchWholePhrase<V>(t: WordTrie<V>, words: seq<string>, v: V)
    requires |words| > 0
    requires Match(t, words) == Some(v)
    ensures Search(t, words, true) == [Spanned(EscapeAll(words), v)]
  {
    var e := EscapeAll(words);
    ReachAfterPath(t.root, e, []);
    assert e + [] == e;
    assert e[..|e|] == e;
    assert e[|e|..] == [];
  }

  /*
   * The search as wordtrie writes it: one loop that appends results in the
   * requested shape as it goes.
   */

  lemma FormatSnoc<V>(hits: seq<Hit<V>>, h: Hit<V>, returnNodes: bool)
    ensures Format(hits + [h], returnNodes) ==
      Format(hits, returnNodes) + [if returnNodes then Spanned(h.span, h.value) else Bare(h.value)]
  {
  }

  method SearchLoop<V>(t: WordTrie<V>, words: seq<string>, returnNodes: bool) returns (values: seq<Found<V>>)
    ensures values == Search(t, words, returnNodes)
  {
    var node := t.root;
    var span: seq<string> := [];
    ghost var hits: seq<Hit<V>> := [];
    values := [];
    var i := 0;
    while i < |words|
      invariant 0 <= i <= |words|
      invariant Run(t.root, words[..i]) == Scan(node, span, hits)
      invariant values == Format(hits, returnNodes)
    {
      assert words[..i + 1][..i] == words[..i];
      assert Run(t.root, words[..i + 1]) == Step(t.root, Run(t.root, words[..i]), words[i]);
      ghost var before := Scan(node, span, hits);
      var k := Escape(words[i]);
      if k in node.children {
        node := node.children[k];
        span := span + [k];
      } else {
        if |span| > 0 && node.value.Some? {
          var found := if returnNodes then Spanned(span, node.value.value) else Bare(node.value.value);
          FormatSnoc(hits, Hit(span, node.value.value), returnNodes);
          values := values + [found];
          hits := hits + [Hit(span, node.value.value)];
        }
        assert hits == Close(before);
        if k in t.root.children {
          node := t.root.children[k];
          span := [k];
        } else {
          node := t.root;
          span := [];
        }
      }
      assert Scan(node, span, hits) == Step(t.root, before, words[i]);
      i := i + 1;
    }
    assert words[..i] == words;
    if |span| > 0 && node.value.Some? {
      var found := if returnNodes then Spanned(span, node.value.value) else Bare(node.value.value);
      FormatSnoc(hits, Hit(span, node.value.value), returnNodes);
      values := values + [found];
      hits := hits + [Hit(span, node.value.value)];
    }
  }
}
