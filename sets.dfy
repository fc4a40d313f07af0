/** Cardinality facts about finite sets that the proofs use. */
module Sets {

  lemma RemoveShrinks<T>(a: set<T>, v: set<T>, t: T)
    requires t in a && t !in v
    ensures |a - (v + {t})| < |a - v|
  {
    assert a - v == (a - (v + {t})) + {t};
  }

  lemma SubsetCard<T>(a: set<T>, b: set<T>)
    requires a <= b
    ensures |a| <= |b|
    ensures |a| == |b| ==> a == b
  {
    assert b == a + (b - a);
  }

  lemma ProperSubsetHas<T>(a: set<T>, b: set<T>) returns (t: T)
    requires a <= b && a != b
    ensures t in b && t !in a
  {
    SubsetCard(a, b);
    assert b == a + (b - a);
    t :| t in b - a;
  }
}
