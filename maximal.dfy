/**
 The maximal pairs YL: the members of XL that no other member of XL dominates,
 where a pair dominates another when it contains it component-wise and is
 larger in at least one component.
 */
module Maximal {
  import opened Candidates

  /** Line 101: `pair2` dominates `pair1`. */
  predicate Dominates(pair2: Pair, pair1: Pair)
  {
    pair1.0 <= pair2.0 && pair1.1 <= pair2.1 && (|pair2.0| > |pair1.0| || |pair2.1| > |pair1.1|)
  }

  /** No other pair of `xl` dominates `pair1`. */
  predicate IsMaximal(xl: set<Pair>, pair1: Pair)
  {
    forall pair2 :: pair2 in xl && pair2 != pair1 ==> !Dominates(pair2, pair1)
  }

  /** YL as a function of XL. */
  function MaximalPairs(xl: set<Pair>): set<Pair>
  {
    set pair1 | pair1 in xl && IsMaximal(xl, pair1)
  }

  /** Lines 95-103: the `is_maximal` flag, cleared by the first dominating pair,
      which ends the scan. */
  method CheckMaximal(xl: set<Pair>, pair1: Pair) returns (isMaximal: bool)
    ensures isMaximal <==> IsMaximal(xl, pair1)
  {
    isMaximal := true;
    var others := xl;
    while others != {}
      invariant others <= xl
      invariant forall pair2 :: pair2 in xl - others && pair2 != pair1 ==> !Dominates(pair2, pair1)
      decreases |others|
    {
      var pair2 :| pair2 in others;
      if pair1 != pair2 {
        var (a1, b1) := pair1;
        var (a2, b2) := pair2;
        if a1 <= a2 && b1 <= b2 && (|a2| > |a1| || |b2| > |b1|) {
          isMaximal := false;
          break;
        }
      }
      others := others - {pair2};
    }
  }

  /** `compute_YL`: keeps every pair of `xl` that is maximal. */
  method ComputeYL(xl: set<Pair>) returns (yl: set<Pair>)
    ensures yl == MaximalPairs(xl)
  {
    yl := {};
    var todo := xl;
    while todo != {}
      invariant todo <= xl
      invariant yl == set pair1 | pair1 in xl - todo && IsMaximal(xl, pair1)
      decreases |todo|
    {
      var pair1 :| pair1 in todo;
      var isMaximal := CheckMaximal(xl, pair1);
      if isMaximal {
        yl := yl + {pair1};
      }
      todo := todo - {pair1};
    }
  }

  // ---------------------------------------------------------------------------
  // Properties of YL

  /** A subset has no more elements than its superset, and a proper subset fewer. */
  lemma SubsetCardinality<T>(a: set<T>, b: set<T>)
    requires a <= b
    ensures |a| <= |b|
    ensures a < b ==> |a| < |b|
  {
    assert b == a + (b - a);
    assert a * (b - a) == {};
  }

  /** Domination is exactly component-wise containment by a different pair. */
  lemma DominatesIffLarger(pair2: Pair, pair1: Pair)
    ensures Dominates(pair2, pair1) <==> pair1.0 <= pair2.0 && pair1.1 <= pair2.1 && pair2 != pair1
  {
    if pair1.0 <= pair2.0 && pair1.1 <= pair2.1 {
      SubsetCardinality(pair1.0, pair2.0);
      SubsetCardinality(pair1.1, pair2.1);
      if pair2 != pair1 {
        assert pair2 == (pair2.0, pair2.1) && pair1 == (pair1.0, pair1.1);
        assert pair1.0 != pair2.0 || pair1.1 != pair2.1;
      }
    }
  }

  /** YL keeps only members of XL, and keeps each member of XL that nothing
      dominates: a pair of XL is in YL exactly when no other pair of XL contains
      it component-wise. */
  lemma MaximalPairsMembership(xl: set<Pair>, pair1: Pair)
    ensures pair1 in MaximalPairs(xl) ==> pair1 in xl
    ensures pair1 in xl ==>
      (pair1 in MaximalPairs(xl) <==>
       forall pair2 :: pair2 in xl && pair2 != pair1 ==> !(pair1.0 <= pair2.0 && pair1.1 <= pair2.1))
  {
    forall pair2 ensures Dominates(pair2, pair1) <==> pair1.0 <= pair2.0 && pair1.1 <= pair2.1 && pair2 != pair1 {
      DominatesIffLarger(pair2, pair1);
    }
  }

  /** No member of YL dominates another member of YL. */
  lemma MaximalPairsAntichain(xl: set<Pair>, p: Pair, q: Pair)
    requires p in MaximalPairs(xl) && q in MaximalPairs(xl) && p != q
    ensures !(p.0 <= q.0 && p.1 <= q.1)
  {
    DominatesIffLarger(q, p);
  }

  lemma DominatesTransitive(r: Pair, q: Pair, p: Pair)
    requires Dominates(r, q) && Dominates(q, p)
    ensures Dominates(r, p)
  {
    SubsetCardinality(p.0, q.0);
    SubsetCardinality(p.1, q.1);
    SubsetCardinality(q.0, r.0);
    SubsetCardinality(q.1, r.1);
  }

  /** The pairs of `xl` that dominate `p`. */
  function Above(xl: set<Pair>, p: Pair): set<Pair>
  {
    set r | r in xl && Dominates(r, p)
  }

  /** Nothing of XL is lost: every pair of XL lies, component-wise, inside some pair of YL. */
  lemma {:induction false} MaximalPairsCover(xl: set<Pair>, p: Pair)
    requires p in xl
    ensures exists q :: q in MaximalPairs(xl) && p.0 <= q.0 && p.1 <= q.1
    decreases |Above(xl, p)|
  {
    if IsMaximal(xl, p) {
      assert p in MaximalPairs(xl);
    } else {
      var q :| q in xl && q != p && Dominates(q, p);
      assert Above(xl, q) < Above(xl, p) by {
        forall r | r in Above(xl, q) ensures r in Above(xl, p) {
          DominatesTransitive(r, q, p);
        }
        assert q in Above(xl, p);
        assert !Dominates(q, q);
      }
      SubsetCardinality(Above(xl, q), Above(xl, p));
      MaximalPairsCover(xl, q);
      var m :| m in MaximalPairs(xl) && q.0 <= m.0 && q.1 <= m.1;
    }
  }

  /** YL is non-empty whenever XL is. */
  lemma MaximalPairsNonEmpty(xl: set<Pair>)
    requires xl != {}
    ensures MaximalPairs(xl) != {}
  {
    var p :| p in xl;
    MaximalPairsCover(xl, p);
  }
}
