/** Where a value goes in a list that is kept in order. */
module Ordering {

  /** The first place whose value is above `x`. */
  function PlaceFor<T>(x: T, s: seq<T>, less: (T, T) -> bool): (n: nat)
    ensures n <= |s|
    ensures forall p :: 0 <= p < n ==> !less(x, s[p])
    ensures n < |s| ==> less(x, s[n])
  {
    if s == [] || less(x, s[0]) then 0 else 1 + PlaceFor(x, s[1..], less)
  }
}
