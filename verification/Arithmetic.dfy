/** Small facts about numbers. */
module Arithmetic {
  function Min(a: nat, b: nat): nat { if a <= b then a else b }

  function Max(a: nat, b: nat): nat { if a >= b then a else b }

  function SaturatingSub(a: nat, b: nat): nat { if a >= b then a - b else 0 }

  lemma MulMono(a: int, b: int, n: nat)
    ensures a <= b ==> a * n <= b * n
  {
  }
}
