# WordTrie in Dafny

A model of `WordTrie`, a trie keyed on whole words rather than characters. The trie maps
multi-word phrases to values. It offers three operations:

- `add` inserts a phrase and resolves a second insertion of the same phrase with a
  caller-supplied aggregator.
- `match` looks up one exact phrase.
- `search` scans a stream of words for stored phrases. It extends a match greedily and
  restarts from the root when the path breaks.

Words are escaped before use as keys. A word beginning with `#` gets one more `#` in front.
This keeps words away from the reserved value key `#`.

Modules:

- `Wrappers`: `Option`, used for the value slot of a node and for an absent lookup result.
- `WordKeys`: the value key, escaping, and its inverse on escaped keys.
- `Trie`: the tagged node `Node(children, value)` and the `WordTrie` that owns a root node.
  It defines insertion (`AddFrom`, `Add`), exact lookup (`MatchFrom`, `Match`, and the loop
  `MatchLoop`), and path semantics (`Walk`, `ValueAt`). It also has two shape invariants:
  every key is an escaped word, and no node below the root is empty.
- `NodeDict`: the node shape of the Python implementation, a single mapping that holds the value under `#`.
  It has conversions to and from the tagged node, proved mutually inverse on well-keyed
  tries.
- `StreamSearch`: the search state machine as a fold over the stream (`Step`, `Run`,
  `Close`), a greedy reference reading independent of it (`Reach`, `Greedy`) that the
  search is proved equal to, the result in both shapes (`Search`), the loop as written
  (`SearchLoop`), and where the hits lie in the stream (`Placed`).
- `Examples`: concrete behaviour on small tries. Each trie is built with `Add` and proved
  equal to a written-out root; the search examples then read that root.

Values are an arbitrary type `V`. The aggregator is a function value `(V, V) -> V`. Inputs
are word sequences `seq<string>`. `add` returns the new trie instead of changing one in place.

Where the code and its description differ, the model follows the code:

- An empty word sequence is accepted by `add`, which stores the value at the root. `search`
  never reports that root value, because it emits only for a non-empty span.
- The spans that `search` reports hold the escaped words (`##a` for the word `#a`), not the
  words as given.
- Loading a stored trie (`from_json`) performs no validation of the loaded structure.

## Model

| member | source | states |
|---|---|---|
| WordKeys.Escape | wordtrie/__init__.py:12-20 | the key is never `#`; it equals the word iff the word does not start with `#`, and otherwise is the word with one `#` in front; it is always an escaped form |
| WordKeys.Unescape | wordtrie/__init__.py:17-20 | dropping the extra `#` inverts escaping on every escaped form |
| WordKeys.EscapeRoundTrip | wordtrie/__init__.py:17-20 | unescaping the key of a word gives back the word |
| WordKeys.EscapeInjective | wordtrie/__init__.py:17-20 | two words share a key iff they are equal |
| WordKeys.EscapedIsNotValueKey | wordtrie/__init__.py:10 | no escaped form equals the reserved value key |
| WordKeys.EscapeAll | wordtrie/__init__.py:74-75 | a phrase's keys are its words escaped one by one, position by position |
| WordKeys.EscapeAllInjective | wordtrie/__init__.py:55-60 | two phrases share a key path iff they are equal |
| Trie.NewTrie | wordtrie/__init__.py:39-40 | a new trie has a node only at the empty path, and no value anywhere |
| Trie.DefaultAggregator | wordtrie/__init__.py:31-35 | the default aggregator keeps the incoming value and drops the existing one |
| Trie.AddFrom | wordtrie/__init__.py:55-64 | the node that insertion leaves behind always has a value or a child |
| Trie.Add | wordtrie/__init__.py:42-64 | the inserted key path holds the new value if it held none, and agg(existing, new) if it held one; every other path keeps its value; afterwards a path exists iff it existed before or is a prefix of the inserted key path |
| Trie.AddFromValueAt | wordtrie/__init__.py:55-64 | after insertion, the inserted path holds the new value when it had none before, and agg(old, new) when it had one |
| Trie.AddFromFrame | wordtrie/__init__.py:55-64 | insertion leaves the value at one other key path unchanged |
| Trie.AddFromFrameAll | wordtrie/__init__.py:55-64 | insertion leaves the value at every other key path unchanged |
| Trie.AddFromPaths | wordtrie/__init__.py:56-60 | after insertion, one given path exists iff it existed before or is a prefix of the inserted key path |
| Trie.AddFromPathsAll | wordtrie/__init__.py:56-60 | the same for every path at once |
| Trie.AddThenMatch | wordtrie/__init__.py:42-64 | with the default aggregator, matching the added words returns the added value |
| Trie.AddTwiceReplaces | wordtrie/__init__.py:31-35 | adding the same words twice with the default aggregator leaves the second value |
| Trie.AddAggregates | wordtrie/__init__.py:61-64 | matching the added words returns agg(old, new) if they matched old before, and the new value untouched otherwise |
| Trie.AddFrame | wordtrie/__init__.py:55-64 | insertion leaves the match of every other word sequence unchanged |
| Trie.AddCreatesPrefixNodes | wordtrie/__init__.py:58-60 | every prefix of the added words has a node afterwards |
| Trie.NewTrieMatchesNothing | wordtrie/__init__.py:39-40 | a new trie matches no word sequence, not even the empty one |
| Trie.AddToNewTrie | wordtrie/__init__.py:55-80 | after one insertion into a new trie, exactly the inserted words match, and every strict prefix of them reaches a node |
| Trie.MatchFrom | wordtrie/__init__.py:72-80 | the word-by-word lookup from a node reads the value at the path of the escaped words |
| Trie.Match | wordtrie/__init__.py:67-80 | absent iff some escaped word is missing on the path or the reached node has no value; otherwise the reached node's value |
| Trie.MatchLoopStep | wordtrie/__init__.py:74-79 | at the node of the first i words, a present key walks one word further, and a missing key means the whole phrase has no path |
| Trie.MatchLoop | wordtrie/__init__.py:72-80 | the loop with its early return computes the same result as Match |
| Trie.AddFromWellKeyed | wordtrie/__init__.py:56-59 | insertion keeps every child key an escaped form, so none is `#` |
| Trie.AddFromNoEmptyNodes | wordtrie/__init__.py:58-64 | insertion never leaves a node below the root with neither value nor children |
| Trie.AddKeepsShape | wordtrie/__init__.py:55-64 | both shape invariants hold for the trie after any insertion |
| Trie.NewTrieHasShape | wordtrie/__init__.py:39-40 | a new trie satisfies both shape invariants |
| NodeDict.ToDict | wordtrie/__init__.py:58-64 | in the single mapping, `#` holds the value when no child is keyed `#`, and an escaped word is a key iff it is a child, always holding a child mapping |
| NodeDict.FromDict | wordtrie/__init__.py:76-80 | the value is present iff `#` is a key, and the children are exactly the other keys |
| NodeDict.ToDictWellFormed | wordtrie/__init__.py:10-20 | a well-keyed node becomes a mapping whose only value entry is under `#` |
| NodeDict.FromToDict | wordtrie/__init__.py:10-20 | a well-keyed node survives the trip through the single mapping unchanged |
| NodeDict.ToFromDict | wordtrie/__init__.py:10-20 | a well-formed single mapping survives the trip through the tagged node unchanged |
| StreamSearch.Close | wordtrie/__init__.py:101-107 | closing keeps the earlier hits and adds exactly one, the span with its node's value, iff the span is non-empty and the node holds a value |
| StreamSearch.StepKey | wordtrie/__init__.py:96-114 | a key extends the span, restarts it with the key, or empties it at the root; the scan stays on the path of its span; earlier hits are kept and at most one is added |
| StreamSearch.Step | wordtrie/__init__.py:94-114 | one word is read as its escaped key: the span grows by it, restarts with it, or empties at the root; at most one hit is added |
| StreamSearch.Run | wordtrie/__init__.py:91-114 | after the stream, an empty span means the root, and neither the span nor the hits outnumber the words |
| StreamSearch.RunIsRunFrom | wordtrie/__init__.py:94-95 | reading the words one by one, each escaped, is reading the escaped stream key by key |
| StreamSearch.SearchHits | wordtrie/__init__.py:91-121 | the hits of the scan are exactly those of the greedy reference reading of the escaped stream |
| StreamSearch.Reach | wordtrie/__init__.py:96-99 | the longest prefix of the keys that is a path: it walks, and one key more does not |
| StreamSearch.Greedy | wordtrie/__init__.py:96-121 | the reference reading yields no more hits than keys |
| StreamSearch.ReachAfterPath | wordtrie/__init__.py:96-99 | reaching through a path is the path's length plus the reach from its end |
| StreamSearch.GreedySkips | wordtrie/__init__.py:112-114 | a key that starts no path from the root is skipped |
| StreamSearch.GreedyBreak | wordtrie/__init__.py:100-111 | where a key breaks the pending span, the reference emits the span as closing does and reads on from the key |
| StreamSearch.GreedyFlush | wordtrie/__init__.py:115-121 | at the end of the stream, closing the pending span agrees with the reference |
| StreamSearch.GreedyStep | wordtrie/__init__.py:95-114 | one key of the scan moves the reference reading along with it |
| StreamSearch.GreedyClose | wordtrie/__init__.py:91-121 | from any scan on its path, closing the scan of the rest of the stream is the hits so far followed by the reference reading of span and rest |
| StreamSearch.Search | wordtrie/__init__.py:82-122 | the result is the greedy reference reading of the escaped stream, in the requested shape |
| StreamSearch.Format | wordtrie/__init__.py:104-107 | one element per hit with the hit's value; with spans each element is the span and value, otherwise the bare value |
| StreamSearch.StepContinues | wordtrie/__init__.py:96-99 | a word that continues the path extends the span and keeps the scan invariant |
| StreamSearch.StepRestarts | wordtrie/__init__.py:100-114 | a word that breaks the path closes the span, restarts from the root, and keeps the scan invariant |
| StreamSearch.StepKeeps | wordtrie/__init__.py:95-114 | one word of the stream keeps the scan invariant |
| StreamSearch.CloseKeeps | wordtrie/__init__.py:115-121 | closing the pending span emits only a placed and valued hit |
| StreamSearch.RunInvariant | wordtrie/__init__.py:91-114 | after any prefix of the stream, the node is the one the span walks to from the root; an empty span means the root; the span is the tail of the escaped stream; earlier hits lie, in order and valued, before it |
| StreamSearch.SearchHitsSound | wordtrie/__init__.py:101-121 | every hit is a non-empty contiguous run of the escaped stream; hits do not overlap and are in stream order; each run walks from the root to a node holding the hit's value; there are no more hits than words |
| StreamSearch.SearchSound | wordtrie/__init__.py:82-122 | the result is no longer than the stream, and with spans every element's span is valued as reported |
| StreamSearch.BareIsValuesOfSpanned | wordtrie/__init__.py:104-107 | the bare result is exactly the value parts of the result with spans |
| StreamSearch.SearchEmptyStream | wordtrie/__init__.py:91-93 | an empty stream yields no result |
| StreamSearch.RunChildlessRoot | wordtrie/__init__.py:109-114 | with a childless root, the scan never leaves its start state |
| StreamSearch.SearchChildlessRoot | wordtrie/__init__.py:108-122 | a trie whose root has no children yields no result on any stream |
| StreamSearch.SearchWholePhrase | wordtrie/__init__.py:115-121 | a stream that is exactly a stored phrase yields that one phrase, as escaped words, with its value |
| StreamSearch.SearchLoop | wordtrie/__init__.py:91-122 | the loop that appends results in the requested shape computes Search |
| Examples.SampleShape | wordtrie/__init__.py:55-64 | adding ["a","b"] with 1 and ["c"] with 2 builds exactly the written-out root |
| Examples.SearchRestarts | wordtrie/__init__.py:108-114 | on that trie, ["a","b","c"] yields 1 and then 2 |
| Examples.SearchRestartsSpans | wordtrie/__init__.py:104-105 | on that trie, with spans, ["a","b","c"] yields ["a","b"] with 1 and ["c"] with 2 |
| Examples.GreedySampleABC | wordtrie/__init__.py:96-114 | the reference reading of ["a","b","c"] on that trie stops at "b" and restarts at "c" |
| Examples.ReachSampleC | wordtrie/__init__.py:109-111 | the reference reading of ["c"] on that trie emits ["c"] with 2 |
| Examples.SearchDropsDeadEnd | wordtrie/__init__.py:101-103 | on that trie, ["a","c"] yields only 2; the lone "a" is dropped |
| Examples.GreedySampleAC | wordtrie/__init__.py:101-103 | the reference reading of ["a","c"] on that trie drops "a" |
| Examples.SearchFlushesAtEnd | wordtrie/__init__.py:115-121 | on that trie, ["a","b"] yields 1, emitted at the end of the stream |
| Examples.GreedySampleAB | wordtrie/__init__.py:115-121 | the reference reading of ["a","b"] on that trie emits the whole stream with 1 |
| Examples.NestedShape | wordtrie/__init__.py:55-64 | adding ["a"] with 1 and ["a","b","c"] with 2 builds exactly the written-out root |
| Examples.SearchForgetsValuedPrefix | wordtrie/__init__.py:101-107 | with ["a"] and ["a","b","c"] stored, ["a","b"] yields nothing, although ["a"] holds a value |
| Examples.GreedyNestedAB | wordtrie/__init__.py:115-121 | the reference reading of ["a","b"] on that trie ends at a node without a value and emits nothing |
| Examples.EscapedWordsDoNotCollide | wordtrie/__init__.py:12-20 | "#a" and "a" are stored apart, and the span reports "##a" |
| Examples.ValueKeyAsWord | wordtrie/__init__.py:10-20 | the word "#" never reads a value stored at the root, and it matches its own value |

## Left out

- `to_json` / `from_json` (wordtrie/__init__.py:124-140) are left out: they do file I/O through a JSON library. `from_json` replaces the root wholesale. `NodeDict` models the mapping shape these functions write and read.
- NodeDict.FromDict requires a well-formed mapping. Malformed loaded data (a bare value under a word, a mapping under `#`) is not modelled, because only `from_json` can produce it.
- `__version__` (wordtrie/__init__.py:8) is left out: it reads a packaged resource file.
- `setup.py` is left out: it is packaging only.
- The whitespace splitting of string inputs in `_check_list` (wordtrie/__init__.py:22-29) is left out, because it follows Python's `str.split`. Every operation takes a word sequence directly.
- The model does not mix up a stored `None` value with "no match" the way `match` does in Python. Values are kept in an `Option`, so absent and present are always distinct.
- `return_nodes` is tested with `is True` in the Python implementation, so a truthy non-boolean argument gets bare values. The model takes a boolean.
- Aggregators are pure total functions. Side effects or exceptions raised inside an aggregator are not modelled.
- In-place mutation is not modelled: `Add` returns the new trie. The emitted span lists are never mutated after emission, because the span is rebound right after each one, so no aliasing is observable.
- StreamSearch.Run: its own contract gives only the bounds. That the scan is on the path of its span, and that the span is the tail of the escaped stream, is stated by StreamSearch.RunInvariant. Its hits are characterised exactly by StreamSearch.SearchHits.
