/**
  Keeping definitions out of proofs that do not need them.

  An object invariant that says `Sealed(seal) ==> Inside()` means `Inside()`, because
  `Sealed` holds of every number; but that takes an induction, so a proof sees
  `Inside()` only after calling `AlwaysSealed`.
 */
module Seal {

  ghost predicate Sealed(n: nat) {
    n == 0 || Sealed(n - 1)
  }

  lemma AlwaysSealed(n: nat)
    ensures Sealed(n)
  {}
}
