/** Optional values: the "absent" result of an exact lookup and the value slot of a trie node. */
module Wrappers {

  datatype Option<+T> = None | Some(value: T)
}
