/** First-match search over a sequence: the shape shared by the collider
    filters (first hit that is not the character itself) and by the
    wall-sliding fallback (first attempted move whose sweep is clear). */
module Search {

  /** Stands in for a C# reference that may be null. */
  datatype Option<+T> = None | Some(value: T)

  /** Index of the first element of `xs` that satisfies `p`, or None when
      no element does. */
  function FirstWhere<T>(xs: seq<T>, p: T -> bool): (r: Option<nat>)
    ensures r.Some? ==> r.value < |xs| && p(xs[r.value])
    ensures r.Some? ==> forall j :: 0 <= j < r.value ==> !p(xs[j])
    ensures r.None? <==> forall j :: 0 <= j < |xs| ==> !p(xs[j])
    decreases |xs|
  {
    if |xs| == 0 then None
    else if p(xs[0]) then Some(0)
    else
      match FirstWhere(xs[1..], p)
      case None => None
      case Some(k) => Some(k + 1)
  }
}
