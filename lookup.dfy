// Lookup: the first row of a table whose key column holds a given id, the
// shape of `table[table[column] == id].iloc[0]` and of the first row of `.eq(column, id)`.

module Lookup {
  import opened Wrappers

  /** The index of the first row at or after `from` whose key is `id`; None when no such row exists. */
  function FirstFrom<T>(rows: seq<T>, key: T -> string, id: string, from: nat): (r: Option<nat>)
    requires from <= |rows|
    ensures r.Some? ==> from <= r.value < |rows| && key(rows[r.value]) == id
    ensures forall k :: from <= k < |rows| && (r.None? || k < r.value) ==> key(rows[k]) != id
    decreases |rows| - from
  {
    if from == |rows| then None
    else if key(rows[from]) == id then Some(from)
    else FirstFrom(rows, key, id, from + 1)
  }
}
