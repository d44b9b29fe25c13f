/** What several modules use. */
module Wrappers {
  /** The result of a search that may find nothing. */
  datatype Option<+T> = None | Some(value: T)

  /** Always true. A definition wrapped in `forall k :: Shown(k) ==> ...` opens in a proof only where `Shown(0)` is
      mentioned; elsewhere only the laws about it count. */
  predicate Shown(k: int) { true }
}
