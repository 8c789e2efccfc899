/**
 Escaping of words against the reserved value key.

 A trie node in the Python implementation is one string-keyed mapping in
 which the key "#" holds the node's value and every other key names a child.
 To keep a word from landing on that slot, every word that begins with "#"
 gets one more "#" in front before it is used as a key, on insertion, lookup
 and search alike.
 */
module WordKeys {

  /** The reserved key under which a node keeps its value. */
  const ValueKey: string := "#"

  /** True iff the word begins with the reserved key. */
  predicate StartsWithKey(w: string) {
    |w| > 0 && w[0] == '#'
  }

  /** The key a word is stored under: one more "#" in front of a word that begins with "#". */
  function Escape(w: string): (r: string)
    ensures r != ValueKey
    ensures r == w <==> !StartsWithKey(w)
    ensures StartsWithKey(w) ==> |r| == |w| + 1 && r[0] == '#' && r[1..] == w
    ensures IsEscaped(r)
  {
    if StartsWithKey(w) then ValueKey + w else w
  }

  /**
   The keys escaping can produce: a word that does not begin with "#", or one
   that begins with "##". In particular "#" itself and "#a" are never keys.
   */
  predicate IsEscaped(k: string) {
    !StartsWithKey(k) || (|k| >= 2 && k[1] == '#')
  }

  /** No escaped form is the value key, so a child key never lands on the value slot. */
  lemma EscapedIsNotValueKey(k: string)
    requires IsEscaped(k)
    ensures k != ValueKey
  {
  }

  /** Inverse of Escape on escaped keys: drops the extra "#". */
  function Unescape(k: string): (w: string)
    requires IsEscaped(k)
    ensures Escape(w) == k
  {
    if StartsWithKey(k) then k[1..] else k
  }

  lemma EscapeRoundTrip(w: string)
    ensures Unescape(Escape(w)) == w
  {
  }

  /** Distinct words are stored under distinct keys. */
  lemma EscapeInjective(a: string, b: string)
    ensures Escape(a) == Escape(b) <==> a == b
  {
  }

  /** The keys of a whole phrase, word by word. */
  function EscapeAll(ws: seq<string>): (ks: seq<string>)
    ensures |ks| == |ws|
    ensures forall i :: 0 <= i < |ws| ==> ks[i] == Escape(ws[i])
  {
    seq(|ws|, i requires 0 <= i < |ws| => Escape(ws[i]))
  }

  /** Escaping a phrase is injective, so two different phrases never share a path. */
  lemma EscapeAllInjective(a: seq<string>, b: seq<string>)
    ensures EscapeAll(a) == EscapeAll(b) <==> a == b
  {
  }

  lemma EscapeAllConcat(a: seq<string>, b: seq<string>)
    ensures EscapeAll(a + b) == EscapeAll(a) + EscapeAll(b)
  {
  }

  lemma EscapeAllTail(ws: seq<string>)
    requires |ws| > 0
    ensures EscapeAll(ws) == [Escape(ws[0])] + EscapeAll(ws[1..])
  {
  }

  lemma EscapeAllSnoc(ws: seq<string>)
    requires |ws| > 0
    ensures EscapeAll(ws) == EscapeAll(ws[..|ws| - 1]) + [Escape(ws[|ws| - 1])]
  {
  }
}
