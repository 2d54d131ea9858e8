// Indices that wrap around the end of a ring.
module Cyclic {

  // i modulo n for i below 2n.
  function Wrap(i: nat, n: nat): (r: nat)
    requires i < n + n
    ensures r < n
  {
    if i < n then i else i - n
  }

  lemma WrapIsMod(i: nat, n: nat)
    ensures i < n + n ==> Wrap(i, n) == i % n
  {}
}
