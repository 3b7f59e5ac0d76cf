module Wrappers {
  datatype Option<+T> = None | Some(value: T)

  /** n times the same number. */
  function Repeat(x: nat, n: nat): (r: seq<nat>)
    ensures |r| == n && forall i :: 0 <= i < n ==> r[i] == x
  {
    seq(n, _ => x)
  }
}
