/**
 The node shape of the Python implementation: a single string-keyed mapping
 in which the entry under the value key "#" is the node's value and every
 other entry is a child.

 The tagged Node of module Trie keeps the value apart from the children. The
 two shapes are interchangeable exactly because escaping never produces the
 key "#" (Trie.WellKeyed): this module gives both conversions and proves they
 are mutually inverse, and that membership tests in the single mapping give
 the same answers as in the tagged node.
 */
module NodeDict {
  import opened Wrappers
  import opened WordKeys
  import opened Trie

  datatype Dict<V> = Dict(entries: map<string, Entry<V>>)

  /** What a key of the single mapping holds: the value (under "#") or a child mapping. */
  datatype Entry<V> = Stored(value: V) | Child(dict: Dict<V>)

  /** The value entry is the only one under "#", and every other entry is a well-formed child. */
  ghost predicate WellFormed<V>(d: Dict<V>) {
    forall k | k in d.entries ::
      (k == ValueKey <==> d.entries[k].Stored?) &&
      (d.entries[k].Child? ==> WellFormed(d.entries[k].dict))
  }

  /** Folds the value into the child mapping under the reserved key. */
  function ToDict<V>(n: Node<V>): (d: Dict<V>)
    ensures ValueKey !in n.children ==> (ValueKey in d.entries <==> n.value.Some?)
    ensures n.value.Some? ==> ValueKey in d.entries && d.entries[ValueKey] == Stored(n.value.value)
    ensures forall k :: IsEscaped(k) ==> (k in d.entries <==> k in n.children)
    ensures forall k :: IsEscaped(k) && k in d.entries ==> d.entries[k].Child?
  {
    var kids := map k | k in n.children :: Child(ToDict(n.children[k]));
    var slot := if n.value.Some? then map[ValueKey := Stored(n.value.value)] else map[];
    Dict(kids + slot)
  }

  /** Splits the reserved entry off as the value and keeps the rest as children. */
  function FromDict<V>(d: Dict<V>): (n: Node<V>)
    requires WellFormed(d)
    ensures n.value.Some? <==> ValueKey in d.entries
    ensures n.children.Keys == d.entries.Keys - {ValueKey}
  {
    var kids := map k | k in d.entries && k != ValueKey && d.entries[k].Child? :: FromDict(d.entries[k].dict);
    var value := if ValueKey in d.entries then Some(d.entries[ValueKey].value) else None;
    Node(kids, value)
  }

  lemma {:induction false} ToDictWellFormed<V>(n: Node<V>)
    requires WellKeyed(n)
    ensures WellFormed(ToDict(n))
  {
    var d := ToDict(n);
    forall k | k in d.entries
      ensures (k == ValueKey <==> d.entries[k].Stored?) &&
              (d.entries[k].Child? ==> WellFormed(d.entries[k].dict))
    {
      if k != ValueKey {
        EscapedIsNotValueKey(k);
        ToDictWellFormed(n.children[k]);
      }
    }
  }

  /** A well-keyed node survives the trip through the single-mapping shape unchanged. */
  lemma {:induction false} FromToDict<V>(n: Node<V>)
    requires WellKeyed(n)
    ensures WellFormed(ToDict(n))
    ensures FromDict(ToDict(n)) == n
  {
    ToDictWellFormed(n);
    var d := ToDict(n);
    var m := FromDict(d);
    forall k | k in n.children
      ensures k in m.children && m.children[k] == n.children[k]
    {
      EscapedIsNotValueKey(k);
      assert d.entries[k] == Child(ToDict(n.children[k]));
      FromToDict(n.children[k]);
      assert m.children[k] == FromDict(ToDict(n.children[k]));
    }
    assert m.children.Keys == n.children.Keys;
    assert m.children == n.children;
    assert m.value == n.value;
  }

  /** And a well-formed mapping survives the trip through the tagged shape unchanged. */
  lemma {:induction false} ToFromDict<V>(d: Dict<V>)
    requires WellFormed(d)
    ensures ToDict(FromDict(d)) == d
  {
    var n := FromDict(d);
    var e := ToDict(n);
    forall k | k in d.entries
      ensures k in e.entries && e.entries[k] == d.entries[k]
    {
      if k != ValueKey {
        ToFromDict(d.entries[k].dict);
      }
    }
    assert e.entries == d.entries;
  }
}
