/** Removing from a list whose order does not matter. */
module Lists {

  // The list without the element at i: the last one takes its place.
  ghost function SwapRemoved<T>(s: seq<T>, i: int): (r: seq<T>)
    requires 0 <= i < |s|
    ensures |r| == |s| - 1
  {
    s[i := s[|s| - 1]][..|s| - 1]
  }
}
