/**
 The word trie: insertion with value aggregation and exact lookup.

 A node is a tagged structure: a map from (escaped) word to child node, and an
 optional value. The Python implementation keeps both in one mapping, with the
 value under the reserved key "#"; the module NodeDict shows that the two
 shapes carry the same information because no child key is ever "#".
 */
module Trie {
  import opened Wrappers
  import opened WordKeys

  datatype Node<V> = Node(children: map<string, Node<V>>, value: Option<V>)

  /** The trie owns one root node; a new trie has an empty root. */
  datatype WordTrie<V> = WordTrie(root: Node<V>)

  function EmptyNode<V>(): Node<V> {
    Node(map[], None)
  }

  /** A new trie: the only path is the empty one, and no path holds a value. */
  function NewTrie<V>(): (t: WordTrie<V>)
    ensures forall p :: Walk(t.root, p).Some? <==> p == []
    ensures forall p :: ValueAt(t.root, p) == None
  {
    WordTrie(EmptyNode())
  }

  /** Last write wins: the aggregator used when the caller gives none keeps the incoming value and drops the existing one. */
  function DefaultAggregator<V>(existing: V, incoming: V): (r: V)
    ensures r == incoming
  {
    incoming
  }

  /*
   * Paths. A path is a sequence of keys (escaped words); Walk follows it from a
   * node and ValueAt reads the value of the node it reaches.
   */

  function Walk<V>(n: Node<V>, path: seq<string>): Option<Node<V>>
    decreases |path|
  {
    if path == [] then Some(n)
    else if path[0] in n.children then Walk(n.children[path[0]], path[1..])
    else None
  }

  function ValueAt<V>(n: Node<V>, path: seq<string>): Option<V> {
    match Walk(n, path)
    case None => None
    case Some(m) => m.value
  }

  /** Walking p + q is walking p, then q from wherever p led. */
  lemma {:induction false} WalkAppend<V>(n: Node<V>, p: seq<string>, q: seq<string>)
    ensures Walk(n, p + q) == match Walk(n, p) case None => None case Some(m) => Walk(m, q)
    decreases |p|
  {
    if p == [] {
      assert p + q == q;
    } else {
      assert (p + q)[0] == p[0];
      assert (p + q)[1..] == p[1..] + q;
      if p[0] in n.children {
        WalkAppend(n.children[p[0]], p[1..], q);
      }
    }
  }

  /** Every prefix of a path that exists exists too. */
  lemma WalkPrefixClosed<V>(n: Node<V>, p: seq<string>, q: seq<string>)
    requires p <= q
    requires Walk(n, q).Some?
    ensures Walk(n, p).Some?
  {
  }

  /** One step further along a path. */
  lemma WalkSnoc<V>(n: Node<V>, p: seq<string>, k: string)
    ensures Walk(n, p + [k]) ==
      match Walk(n, p)
      case None => None
      case Some(m) => if k in m.children then Some(m.children[k]) else None
  {
    WalkAppend(n, p, [k]);
    match Walk(n, p)
    case None =>
    case Some(m) =>
      assert [k][1..] == [];
  }

  /*
   * Insertion.
   */

  /**
   Walks (creating empty children where missing) one escaped word at a time,
   then stores the value at the last node: aggregated with the old value when
   the node already has one, stored as is otherwise.
   */
  function AddFrom<V>(n: Node<V>, words: seq<string>, value: V, agg: (V, V) -> V): (r: Node<V>)
    ensures r.value.Some? || |r.children| > 0
    decreases |words|
  {
    if words == [] then
      Node(n.children, Some(if n.value.Some? then agg(n.value.value, value) else value))
    else
      var k := Escape(words[0]);
      var child := if k in n.children then n.children[k] else EmptyNode();
      Node(n.children[k := AddFrom(child, words[1..], value, agg)], n.value)
  }

  /**
   Insertion into a trie: the path of the escaped words holds the new value,
   or agg(old, new) if it held old; every other path keeps its value; the
   paths afterwards are the old ones plus the prefixes of the inserted path.
   */
  function Add<V>(t: WordTrie<V>, words: seq<string>, value: V, agg: (V, V) -> V): (r: WordTrie<V>)
    ensures ValueAt(r.root, EscapeAll(words)) ==
      match ValueAt(t.root, EscapeAll(words))
      case None => Some(value)
      case Some(existing) => Some(agg(existing, value))
    ensures forall p :: p != EscapeAll(words) ==> ValueAt(r.root, p) == ValueAt(t.root, p)
    ensures forall p :: Walk(r.root, p).Some? <==> Walk(t.root, p).Some? || p <= EscapeAll(words)
  {
    AddFromValueAt(t.root, words, value, agg);
    AddFromFrameAll(t.root, words, value, agg);
    AddFromPathsAll(t.root, words, value, agg);
    WordTrie(AddFrom(t.root, words, value, agg))
  }

  /*
   * Exact lookup.
   */

  /**
   Follows the escaped words; absent as soon as one is missing, else the
   reached node's value. That is the value at the path of the escaped words.
   */
  function MatchFrom<V>(n: Node<V>, words: seq<string>): (r: Option<V>)
    ensures r == ValueAt(n, EscapeAll(words))
    decreases |words|
  {
    if words == [] then n.value
    else
      var k := Escape(words[0]);
      EscapeAllTail(words);
      assert EscapeAll(words)[0] == k && EscapeAll(words)[1..] == EscapeAll(words[1..]);
      if k in n.children then MatchFrom(n.children[k], words[1..]) else None
  }

  function Match<V>(t: WordTrie<V>, words: seq<string>): (r: Option<V>)
    ensures r.None? <==>
      Walk(t.root, EscapeAll(words)).None? || Walk(t.root, EscapeAll(words)).value.value.None?
    ensures r.Some? ==> r == Walk(t.root, EscapeAll(words)).value.value
  {
    MatchFrom(t.root, words)
  }

  /*
   * What insertion does to the paths and values of a node.
   */

  /** The value at the inserted path: the new value on first insertion, agg(old, new) afterwards. */
  lemma {:induction false} AddFromValueAt<V>(n: Node<V>, words: seq<string>, value: V, agg: (V, V) -> V)
    ensures ValueAt(AddFrom(n, words, value, agg), EscapeAll(words)) ==
      match ValueAt(n, EscapeAll(words))
      case None => Some(value)
      case Some(existing) => Some(agg(existing, value))
    decreases |words|
  {
    if words != [] {
      EscapeAllTail(words);
      var k := Escape(words[0]);
      var child := if k in n.children then n.children[k] else EmptyNode();
      AddFromValueAt(child, words[1..], value, agg);
      if k !in n.children {
        EmptyHasNoValues<V>(words[1..]);
      }
    }
  }

  lemma EmptyHasNoValues<V>(words: seq<string>)
    ensures ValueAt(EmptyNode<V>(), EscapeAll(words)) == None
  {
  }

  /** Insertion writes only the inserted path's value; every other path keeps its value. */
  lemma {:induction false} AddFromFrame<V>(n: Node<V>, words: seq<string>, value: V, agg: (V, V) -> V, p: seq<string>)
    requires p != EscapeAll(words)
    ensures ValueAt(AddFrom(n, words, value, agg), p) == ValueAt(n, p)
    decreases |words|
  {
    var r := AddFrom(n, words, value, agg);
    if words == [] {
      assert p != [];
    } else {
      EscapeAllTail(words);
      var k := Escape(words[0]);
      var child := if k in n.children then n.children[k] else EmptyNode();
      if p != [] && p[0] == k {
        assert p == [p[0]] + p[1..];
        AddFromFrame(child, words[1..], value, agg, p[1..]);
        if k !in n.children {
          assert ValueAt(child, p[1..]) == None;
        }
      }
    }
  }

  /**
   Insertion only adds nodes: a path exists afterwards iff it existed before
   or it is a prefix of the inserted path.
   */
  lemma {:induction false} AddFromPaths<V>(n: Node<V>, words: seq<string>, value: V, agg: (V, V) -> V, p: seq<string>)
    ensures Walk(AddFrom(n, words, value, agg), p).Some? <==> Walk(n, p).Some? || p <= EscapeAll(words)
    decreases |words|
  {
    if words != [] && p != [] {
      EscapeAllTail(words);
      var k := Escape(words[0]);
      var child := if k in n.children then n.children[k] else EmptyNode();
      if p[0] == k {
        AddFromPaths(child, words[1..], value, agg, p[1..]);
        assert p <= EscapeAll(words) <==> p[1..] <= EscapeAll(words[1..]);
        if k !in n.children {
          assert Walk(child, p[1..]).Some? ==> p[1..] == [];
        }
      } else {
        assert !(p <= EscapeAll(words));
      }
    }
  }

  lemma AddFromFrameAll<V>(n: Node<V>, words: seq<string>, value: V, agg: (V, V) -> V)
    ensures forall p :: p != EscapeAll(words) ==> ValueAt(AddFrom(n, words, value, agg), p) == ValueAt(n, p)
  {
    forall p | p != EscapeAll(words)
      ensures ValueAt(AddFrom(n, words, value, agg), p) == ValueAt(n, p)
    {
      AddFromFrame(n, words, value, agg, p);
    }
  }

  lemma AddFromPathsAll<V>(n: Node<V>, words: seq<string>, value: V, agg: (V, V) -> V)
    ensures forall p :: Walk(AddFrom(n, words, value, agg), p).Some? <==> Walk(n, p).Some? || p <= EscapeAll(words)
  {
    forall p
      ensures Walk(AddFrom(n, words, value, agg), p).Some? <==> Walk(n, p).Some? || p <= EscapeAll(words)
    {
      AddFromPaths(n, words, value, agg, p);
    }
  }

  /*
   * The same properties, stated on whole tries and unescaped words.
   */

  /** With the default aggregator, a match of the added words returns the added value. */
  lemma AddThenMatch<V>(t: WordTrie<V>, words: seq<string>, value: V)
    ensures Match(Add(t, words, value, DefaultAggregator), words) == Some(value)
  {
    AddAggregates(t, words, value, DefaultAggregator);
  }

  /** With the default aggregator, a second insertion of the same words replaces the first value. */
  lemma AddTwiceReplaces<V>(t: WordTrie<V>, words: seq<string>, first: V, second: V)
    ensures Match(Add(Add(t, words, first, DefaultAggregator), words, second, DefaultAggregator), words) == Some(second)
  {
    AddAggregates(Add(t, words, first, DefaultAggregator), words, second, DefaultAggregator);
  }

  /**
   A second insertion of the same words stores agg(old, new); a first insertion
   stores the value as given, whatever the aggregator would have made of it.
   */
  lemma AddAggregates<V>(t: WordTrie<V>, words: seq<string>, value: V, agg: (V, V) -> V)
    ensures Match(Add(t, words, value, agg), words) ==
      match Match(t, words)
      case None => Some(value)
      case Some(existing) => Some(agg(existing, value))
  {
    AddFromValueAt(t.root, words, value, agg);
  }

  /** Insertion leaves the match of every other word sequence unchanged. */
  lemma AddFrame<V>(t: WordTrie<V>, words: seq<string>, value: V, agg: (V, V) -> V, other: seq<string>)
    requires other != words
    ensures Match(Add(t, words, value, agg), other) == Match(t, other)
  {
    EscapeAllInjective(other, words);
    AddFromFrame(t.root, words, value, agg, EscapeAll(other));
  }

  /** A new trie matches nothing, not even the empty sequence. */
  lemma NewTrieMatchesNothing<V>(words: seq<string>)
    ensures Match(NewTrie<V>(), words) == None
  {
  }

  /**
   After one insertion into a new trie exactly the inserted words match; in
   particular a strict prefix of them reaches a node but no value.
   */
  lemma AddToNewTrie<V>(words: seq<string>, value: V, agg: (V, V) -> V, other: seq<string>)
    ensures Match(Add(NewTrie(), words, value, agg), other) == if other == words then Some(value) else None
    ensures other < words ==> Walk(Add(NewTrie(), words, value, agg).root, EscapeAll(other)).Some?
  {
    if other < words {
      AddCreatesPrefixNodes(NewTrie(), words, value, agg, other);
    }
    NewTrieMatchesNothing<V>(words);
    NewTrieMatchesNothing<V>(other);
    if other == words {
      AddAggregates(NewTrie(), words, value, agg);
    } else {
      AddFrame(NewTrie(), words, value, agg, other);
    }
  }

  /** A strict prefix of the inserted words has a node in the trie. */
  lemma AddCreatesPrefixNodes<V>(t: WordTrie<V>, words: seq<string>, value: V, agg: (V, V) -> V, prefix: seq<string>)
    requires prefix <= words
    ensures Walk(Add(t, words, value, agg).root, EscapeAll(prefix)).Some?
  {
    assert EscapeAll(prefix) <= EscapeAll(words);
    AddFromPaths(t.root, words, value, agg, EscapeAll(prefix));
  }

  /*
   * The lookup as wordtrie writes it: a loop that returns early.
   */

  /** One word further along the lookup loop, and what a missing word means for the whole walk. */
  lemma MatchLoopStep<V>(root: Node<V>, words: seq<string>, i: nat, node: Node<V>)
    requires i < |words|
    requires Walk(root, EscapeAll(words[..i])) == Some(node)
    ensures Escape(words[i]) in node.children ==>
      Walk(root, EscapeAll(words[..i + 1])) == Some(node.children[Escape(words[i])])
    ensures Escape(words[i]) !in node.children ==> Walk(root, EscapeAll(words)) == None
  {
    var k := Escape(words[i]);
    EscapeAllConcat(words[..i], [words[i]]);
    assert words[..i + 1] == words[..i] + [words[i]];
    assert EscapeAll([words[i]]) == [k];
    WalkSnoc(root, EscapeAll(words[..i]), k);
    if k !in node.children {
      EscapeAllConcat(words[..i + 1], words[i + 1..]);
      assert words == words[..i + 1] + words[i + 1..];
      WalkAppend(root, EscapeAll(words[..i + 1]), EscapeAll(words[i + 1..]));
    }
  }

  method MatchLoop<V>(t: WordTrie<V>, words: seq<string>) returns (r: Option<V>)
    ensures r == Match(t, words)
  {
    var node := t.root;
    var i := 0;
    while i < |words|
      invariant 0 <= i <= |words|
      invariant Walk(t.root, EscapeAll(words[..i])) == Some(node)
    {
      var k := Escape(words[i]);
      MatchLoopStep(t.root, words, i, node);
      if k in node.children {
        node := node.children[k];
      } else {
        return None;
      }
      i := i + 1;
    }
    assert words[..i] == words;
    return node.value;
  }

  /*
   * Shape invariants that every trie built from NewTrie by Add keeps.
   */

  /** Every child key is an escaped word, so in particular none is the value key "#". */
  ghost predicate WellKeyed<V>(n: Node<V>) {
    forall k | k in n.children :: IsEscaped(k) && WellKeyed(n.children[k])
  }

  /** No node below the root is materialised without a value and without children. */
  ghost predicate NoEmptyNodes<V>(n: Node<V>) {
    forall k | k in n.children ::
      (n.children[k].value.Some? || |n.children[k].children| > 0) && NoEmptyNodes(n.children[k])
  }

  lemma {:induction false} AddFromWellKeyed<V>(n: Node<V>, words: seq<string>, value: V, agg: (V, V) -> V)
    requires WellKeyed(n)
    ensures WellKeyed(AddFrom(n, words, value, agg))
    decreases |words|
  {
    if words != [] {
      var k := Escape(words[0]);
      var child := if k in n.children then n.children[k] else EmptyNode();
      AddFromWellKeyed(child, words[1..], value, agg);
      var r := AddFrom(n, words, value, agg);
      forall j | j in r.children
        ensures IsEscaped(j) && WellKeyed(r.children[j])
      {
        if j != k {
          assert r.children[j] == n.children[j];
        }
      }
    }
  }

  lemma {:induction false} AddFromNoEmptyNodes<V>(n: Node<V>, words: seq<string>, value: V, agg: (V, V) -> V)
    requires NoEmptyNodes(n)
    ensures NoEmptyNodes(AddFrom(n, words, value, agg))
    decreases |words|
  {
    if words != [] {
      var k := Escape(words[0]);
      var child := if k in n.children then n.children[k] else EmptyNode();
      AddFromNoEmptyNodes(child, words[1..], value, agg);
      var r := AddFrom(n, words, value, agg);
      forall j | j in r.children
        ensures (r.children[j].value.Some? || |r.children[j].children| > 0) && NoEmptyNodes(r.children[j])
      {
        if j != k {
          assert r.children[j] == n.children[j];
        }
      }
    }
  }

  /** A trie built by any sequence of insertions keeps both shape invariants. */
  lemma AddKeepsShape<V>(t: WordTrie<V>, words: seq<string>, value: V, agg: (V, V) -> V)
    requires WellKeyed(t.root) && NoEmptyNodes(t.root)
    ensures WellKeyed(Add(t, words, value, agg).root) && NoEmptyNodes(Add(t, words, value, agg).root)
  {
    AddFromWellKeyed(t.root, words, value, agg);
    AddFromNoEmptyNodes(t.root, words, value, agg);
  }

  lemma NewTrieHasShape<V>()
    ensures WellKeyed(NewTrie<V>().root) && NoEmptyNodes(NewTrie<V>().root)
  {
  }
}
