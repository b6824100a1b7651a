/** Ordered candidate lists: try each candidate in turn and keep the first that succeeds. */
module Candidates {
  import opened Wrappers

  /** The position of the first element of `xs` that satisfies `accept`, or `None` when none does. */
  function FirstAccepted<T>(xs: seq<T>, accept: T -> bool): (r: Option<nat>)
    ensures r.Some? ==> r.value < |xs| && accept(xs[r.value])
    ensures r.Some? ==> forall j :: 0 <= j < r.value ==> !accept(xs[j])
    ensures r.None? <==> forall j :: 0 <= j < |xs| ==> !accept(xs[j])
  {
    if |xs| == 0 then None
    else if accept(xs[0]) then Some(0)
    else
      match FirstAccepted(xs[1..], accept)
      case None => None
      case Some(k) => Some(k + 1)
  }
}
