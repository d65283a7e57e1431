/** Facts about sequences of integer ids and the sets they cover. */
module IdSets {

  /** No id occurs twice. */
  predicate Distinct(xs: seq<int>)
  {
    forall i, j :: 0 <= i < j < |xs| ==> xs[i] != xs[j]
  }

  /** The ids occurring in a sequence. */
  function Elems(xs: seq<int>): set<int>
  {
    set x | x in xs
  }

  /** A duplicate-free sequence covers exactly as many ids as it has entries. */
  lemma {:induction false} DistinctCard(xs: seq<int>)
    requires Distinct(xs)
    ensures |Elems(xs)| == |xs|
  {
    if |xs| > 0 {
      var init := xs[..|xs| - 1];
      var last := xs[|xs| - 1];
      assert Distinct(init);
      DistinctCard(init);
      assert Elems(xs) == Elems(init) + {last} by {
        assert xs == init + [last];
      }
      assert last !in Elems(init) by {
        forall i | 0 <= i < |init|
          ensures init[i] != last
        {
          assert xs[i] != xs[|xs| - 1];
        }
      }
    }
  }

  /** Any sequence covers at most as many ids as it has entries. */
  lemma {:induction false} ElemsCardBound(xs: seq<int>)
    ensures |Elems(xs)| <= |xs|
  {
    if |xs| > 0 {
      var init := xs[..|xs| - 1];
      ElemsCardBound(init);
      assert Elems(xs) == Elems(init) + {xs[|xs| - 1]} by {
        assert xs == init + [xs[|xs| - 1]];
      }
    }
  }

  /** A subset at least as large as its superset is the whole superset. */
  lemma SubsetFull(a: set<int>, b: set<int>)
    requires a <= b
    requires |b| <= |a|
    ensures a == b
  {
    assert b == a + (b - a);
    assert a * (b - a) == {};
    assert b - a == {};
  }

  /** Cardinality is monotone under inclusion. */
  lemma SubsetCard(a: set<int>, b: set<int>)
    requires a <= b
    ensures |a| <= |b|
  {
    assert b == a + (b - a);
  }
}
