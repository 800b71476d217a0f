/** Optional values, for nil and failed lookups, and iteration orders of Go maps. */
module Basics {
  datatype Option<+T> = None | Some(value: T)

  /** `order` lists every element of `s` exactly once: one possible iteration of a Go map. */
  ghost predicate Enumerates<T(!new)>(order: seq<T>, s: set<T>) {
    && (forall x :: x in order <==> x in s)
    && (forall i, j :: 0 <= i < j < |order| ==> order[i] != order[j])
  }

  /** Some iteration order of a finite set. */
  ghost function AnyOrder<T(!new)>(s: set<T>): (order: seq<T>)
    ensures Enumerates(order, s)
  {
    if s == {} then [] else var x :| x in s; [x] + AnyOrder(s - {x})
  }
}
