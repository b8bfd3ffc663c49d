/**
 * A trigger and nothing else. A definition under `forall x: int :: Unfold(x) ==> ...` stays folded
 * for the verifier until a proof mentions Unfold.
 */
module Folding {
  predicate Unfold(x: int) { true }
}
