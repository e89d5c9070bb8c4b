/** Option values and the first-match search that List.Find and FirstOrDefault perform. */
module Wrappers {

  /** A value that may be absent: the model of a C# null reference. */
  datatype Option<+T> = None | Some(value: T)

  /** Index of the first element of `s` satisfying `p`, the way List.Find and
      Enumerable.FirstOrDefault scan a list from the front. */
  function Find<T>(s: seq<T>, p: T -> bool): (r: Option<nat>)
    ensures r.Some? ==> r.value < |s| && p(s[r.value])
    ensures r.Some? ==> forall k :: 0 <= k < r.value ==> !p(s[k])
    ensures r.None? <==> forall k :: 0 <= k < |s| ==> !p(s[k])
  {
    if s == [] then None
    else if p(s[0]) then Some(0)
    else match Find(s[1..], p)
      case None => None
      case Some(k) => Some(k + 1)
  }
}
