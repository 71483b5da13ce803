/** Small sequence utilities used by both the server and the client model. */
module Seqs {
  import opened Wrappers

  /** The set of elements of a sequence. */
  function Elems<T>(xs: seq<T>): set<T>
  {
    set x | x in xs
  }

  /** The first index at or after `from` whose element satisfies `ok`: the shape of
      Python's `for x in xs: if ok(x): ...; break` search. */
  function FirstIndex<T>(xs: seq<T>, ok: T -> bool, from: nat): (r: Option<nat>)
    requires from <= |xs|
    ensures r.Some? ==> from <= r.value < |xs| && ok(xs[r.value])
    ensures r.Some? ==> forall j :: from <= j < r.value ==> !ok(xs[j])
    ensures r.None? ==> forall j :: from <= j < |xs| ==> !ok(xs[j])
    decreases |xs| - from
  {
    if from == |xs| then None
    else if ok(xs[from]) then Some(from)
    else FirstIndex(xs, ok, from + 1)
  }
}
