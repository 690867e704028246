/** Optional values. */
module Wrappers {
  datatype Option<+T> = None | Some(value: T)

  /** The elements xs in front of those of r, if there is an r. */
  function Prepend<T>(xs: seq<T>, r: Option<seq<T>>): Option<seq<T>> {
    match r case None => None case Some(ys) => Some(xs + ys)
  }

  lemma PrependNothing<T>(r: Option<seq<T>>)
    ensures Prepend([], r) == r
  {
    if r.Some? { assert [] + r.value == r.value; }
  }
}
