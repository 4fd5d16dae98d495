/** Sizes of finite sets. */
module Sets {

  lemma SubsetSize<T>(a: set<T>, b: set<T>)
    requires a <= b
    ensures |a| <= |b|
  {
    assert b == a + (b - a);
  }

  lemma WithoutOne<T>(s: set<T>, x: T)
    requires x in s
    ensures s == s - {x} + {x} && x !in s - {x} && |s - {x}| < |s|
  {
  }
}
