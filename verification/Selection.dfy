/** Places of a list, each once and in the list's order. */
module Selection {
  predicate Increasing(at: seq<nat>) {
    forall a, b :: 0 <= a < b < |at| ==> at[a] < at[b]
  }
}
