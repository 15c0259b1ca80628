/** A fact about finite sets that counting arguments use. */
module FiniteSets {
  lemma SubsetIsNoLarger<T>(s: set<T>, t: set<T>)
    requires s <= t
    ensures |s| <= |t|
  {
    assert t == s + (t - s);
  }
}
