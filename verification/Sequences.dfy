/** Sequences: taking out one element, and searching for the first with a property. */
module Sequences {

  function Without<X>(s: seq<X>, k: nat): seq<X>
    requires k < |s|
  {
    s[..k] + s[k + 1..]
  }

  /** The position of the first element with property p; |s| when there is none. */
  function FirstWhere<X>(s: seq<X>, p: X -> bool): (k: nat)
    ensures k <= |s|
    ensures k < |s| ==> p(s[k])
    ensures forall i :: 0 <= i < k ==> !p(s[i])
  {
    if |s| == 0 || p(s[0]) then 0 else 1 + FirstWhere(s[1..], p)
  }
}
