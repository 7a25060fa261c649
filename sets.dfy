/** A counting fact about finite sets, shared by the maps' proofs. */
module Sets {

  /** A subset has no more elements than the set that holds it. */
  lemma SubsetCard<T>(a: set<T>, b: set<T>)
    requires a <= b
    ensures |a| <= |b|
  {
    assert b == a + (b - a);
  }
}
