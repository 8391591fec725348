/** Notions about sequences that several lists share. */
module Sequences {
  predicate NoDuplicates<T(==)>(s: seq<T>) {
    forall i, j | 0 <= i < j < |s| :: s[i] != s[j]
  }

  function Elements<T>(s: seq<T>): set<T> {
    set x | x in s
  }

  /** The i-th element, or `none` beyond the ends. */
  function At<T>(s: seq<T>, i: int, none: T): T {
    if 0 <= i < |s| then s[i] else none
  }

  /** The parts one after the other. */
  function Flatten<T>(parts: seq<seq<T>>): seq<T>
    decreases |parts|
  {
    if parts == [] then [] else Flatten(parts[..|parts| - 1]) + parts[|parts| - 1]
  }

  lemma FlattenOneMore<T>(parts: seq<seq<T>>, part: seq<T>)
    ensures Flatten(parts + [part]) == Flatten(parts) + part
  {
    assert (parts + [part])[..|parts|] == parts;
  }
}
