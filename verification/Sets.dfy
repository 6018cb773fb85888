/** Counting finite sets. */
module Sets {

  lemma SubsetSize<T>(a: set<T>, b: set<T>)
    requires a <= b
    ensures |a| <= |b|
    ensures a != b ==> |a| < |b|
  {
    assert |b| == |a| + |b - a| by { assert b == a + (b - a); }
    if a != b {
      assert b - a != {};
    }
  }
}
