/** Strings of bits, the highest bit first. */
module BitStrings {

  type Bits = seq<bool>

  function Zero(n: nat): (p: Bits)
    ensures |p| == n && forall i :: 0 <= i < n ==> !p[i]
  {
    if n == 0 then [] else Zero(n - 1) + [false]
  }
}
