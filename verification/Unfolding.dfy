/** How larger definitions are kept closed until a proof needs them. */
module Unfolding {

  /** Where a definition is kept closed. */
  datatype Layer = InDevice | InData | InWrite | InLoops | AfterLoops | InResult | InStore | InTree

  /** Always true. A definition written as "for all k, Unfold(layer, k) implies ..." costs the solver nothing until
      Unfold(layer, 0) is asserted. A predicate is closed by choosing a truth value b such that
      "for all k, Unfold(layer, k) implies that b is the definition". */
  predicate Unfold(layer: Layer, k: int) {
    true
  }
}
