/**
 The candidate pairs XL: every pair (A, B) of non-empty activity sets whose
 members are pairwise unrelated inside A and inside B, and where every member
 of A is causally followed by every member of B. The source enumerates the
 subsets through the bitmasks 1 .. 2^n - 1 over the sorted activities.
 */
module Candidates {
  import opened Strings
  import opened EventLog
  import opened Footprint

  type Pair = (set<Activity>, set<Activity>)

  // ---------------------------------------------------------------------------
  // Bitmasks

  /** `1 << n`. */
  function Pow2(n: nat): (r: nat)
    ensures r >= 1
  {
    if n == 0 then 1 else 2 * Pow2(n - 1)
  }

  /** `i & (1 << j) != 0`: bit `j` of `i`. */
  function Bit(i: nat, j: nat): (b: bool)
    ensures b <==> (i / Pow2(j)) % 2 == 1
  {
    if j == 0 then i % 2 == 1
    else
      HalveTwice(i, Pow2(j - 1));
      Bit(i / 2, j - 1)
  }

  /** Halving and then dividing by `m` is dividing by `2 * m`. */
  lemma HalveTwice(i: nat, m: nat)
    requires m >= 1
    ensures (i / 2) / m == i / (2 * m)
  {
    var q := i / (2 * m);
    var r := i % (2 * m);
    assert i == (2 * m) * q + r && 0 <= r < 2 * m;
    assert (2 * m) * q == 2 * (m * q);
    assert r == 2 * (r / 2) + r % 2;
    DivUnique(i, 2, m * q + r / 2, r % 2);
    DivUnique(i / 2, m, q, r / 2);
  }

  /** Euclidean division has one quotient. */
  lemma DivUnique(a: int, d: int, q: int, r: int)
    requires d > 0 && 0 <= r < d && a == d * q + r
    ensures a / d == q
  {
    var q' := a / d;
    var r' := a % d;
    assert a == d * q' + r' && 0 <= r' < d;
    if q > q' {
      assert d * (q - q') == d * q - d * q';
      MulAtLeast(d, q - q');
    } else if q < q' {
      assert d * (q' - q) == d * q' - d * q;
      MulAtLeast(d, q' - q);
    }
  }

  /** A positive multiple of `d` is at least `d`. */
  lemma {:induction false} MulAtLeast(d: int, k: nat)
    requires d > 0 && k >= 1
    ensures d * k >= d
    decreases k
  {
    if k > 1 {
      MulAtLeast(d, k - 1);
      assert d * k == d * (k - 1) + d;
    }
  }

  /** A mask below `1 << n` has no bit at position `n` or beyond, so the `j`
      loop over `range(n)` at lines 65-68 sees every bit that is set. */
  lemma {:induction false} BitBeyond(i: nat, n: nat, j: nat)
    requires i < Pow2(n) && n <= j
    ensures !Bit(i, j)
    decreases j
  {
    if j > 0 {
      BitBeyond(i / 2, if n == 0 then 0 else n - 1, j - 1);
    }
  }

  /** The elements whose bit is set in mask `i`, in the order of `elements`. */
  function Chosen(elements: seq<Activity>, i: nat): seq<Activity>
  {
    if elements == [] then []
    else (if i % 2 == 1 then [elements[0]] else []) + Chosen(elements[1..], i / 2)
  }

  /** The mask that selects exactly the members of `A` among `elements`. */
  function MaskOf(elements: seq<Activity>, A: set<Activity>): nat
  {
    if elements == [] then 0
    else (if elements[0] in A then 1 else 0) + 2 * MaskOf(elements[1..], A)
  }

  /** Looking at one more position extends the chosen list by that position's
      element exactly when its bit is set. */
  lemma {:induction false} ChosenSnoc(elements: seq<Activity>, i: nat, j: nat)
    requires j < |elements|
    ensures Chosen(elements[..j + 1], i) == Chosen(elements[..j], i) + (if Bit(i, j) then [elements[j]] else [])
    decreases j
  {
    if j == 0 {
      assert elements[..1][1..] == [];
    } else {
      assert elements[..j + 1][1..] == elements[1..][..j];
      assert elements[..j][1..] == elements[1..][..j - 1];
      ChosenSnoc(elements[1..], i / 2, j - 1);
    }
  }

  /** `for j in range(n): if i & (1 << j): set_a.append(elements[j])`. */
  method MaskList(elements: seq<Activity>, i: nat) returns (chosen: seq<Activity>)
    ensures chosen == Chosen(elements, i)
  {
    chosen := [];
    var j := 0;
    while j < |elements|
      invariant 0 <= j <= |elements|
      invariant chosen == Chosen(elements[..j], i)
    {
      ChosenSnoc(elements, i, j);
      if Bit(i, j) {
        chosen := chosen + [elements[j]];
      }
      j := j + 1;
    }
    assert elements[..j] == elements;
  }

  /** The chosen elements come from `elements`, in their order. */
  lemma {:induction false} ChosenIncreasing(elements: seq<Activity>, i: nat)
    requires Increasing(elements)
    ensures Elems(Chosen(elements, i)) <= Elems(elements)
    ensures Increasing(Chosen(elements, i))
    decreases |elements|
  {
    if elements != [] {
      var rest := Chosen(elements[1..], i / 2);
      ChosenIncreasing(elements[1..], i / 2);
      assert Elems(elements) == {elements[0]} + Elems(elements[1..]);
      if i % 2 == 1 {
        var r := [elements[0]] + rest;
        forall p, q | 0 <= p < q < |r| ensures Before(r[p], r[q]) {
          assert r[q] == rest[q - 1] && rest[q - 1] in Elems(elements[1..]);
          var k :| 0 <= k < |elements[1..]| && elements[1..][k] == rest[q - 1];
          if p > 0 {
            assert r[p] == rest[p - 1];
          } else {
            assert r[q] == elements[k + 1];
          }
        }
      } else {
        assert Chosen(elements, i) == rest;
      }
    }
  }

  lemma {:induction false} MaskOfBound(elements: seq<Activity>, A: set<Activity>)
    ensures MaskOf(elements, A) < Pow2(|elements|)
    decreases |elements|
  {
    if elements != [] {
      MaskOfBound(elements[1..], A);
    }
  }

  /** The mask of `A` chooses exactly the members of `A` among `elements`. */
  lemma {:induction false} ChosenMaskOf(elements: seq<Activity>, A: set<Activity>)
    ensures Elems(Chosen(elements, MaskOf(elements, A))) == A * Elems(elements)
    decreases |elements|
  {
    if elements != [] {
      var m := MaskOf(elements, A);
      var m' := MaskOf(elements[1..], A);
      assert m % 2 == (if elements[0] in A then 1 else 0) && m / 2 == m';
      ChosenMaskOf(elements[1..], A);
      assert Elems(elements) == {elements[0]} + Elems(elements[1..]);
      var rest := Chosen(elements[1..], m');
      assert Elems((if m % 2 == 1 then [elements[0]] else []) + rest)
        == (if m % 2 == 1 then {elements[0]} else {}) + Elems(rest);
    }
  }

  /** The mask depends only on which of `elements` belong to the set. */
  lemma {:induction false} MaskOfLocal(elements: seq<Activity>, A: set<Activity>, A': set<Activity>)
    requires forall x :: x in elements ==> (x in A <==> x in A')
    ensures MaskOf(elements, A) == MaskOf(elements, A')
    decreases |elements|
  {
    if elements != [] {
      MaskOfLocal(elements[1..], A, A');
    }
  }

  /** Over distinct elements, the mask of the chosen set is the mask itself. */
  lemma {:induction false} MaskOfChosen(elements: seq<Activity>, i: nat)
    requires Increasing(elements) && i < Pow2(|elements|)
    ensures MaskOf(elements, Elems(Chosen(elements, i))) == i
    decreases |elements|
  {
    if elements != [] {
      var tail := elements[1..];
      var S := Elems(Chosen(elements, i));
      var S' := Elems(Chosen(tail, i / 2));
      ChosenIncreasing(tail, i / 2);
      assert S == (if i % 2 == 1 then {elements[0]} else {}) + S';
      assert elements[0] !in Elems(tail) by {
        forall k | 0 <= k < |tail| ensures tail[k] != elements[0] {
          assert Before(elements[0], elements[k + 1]);
        }
      }
      assert (elements[0] in S) == (i % 2 == 1);
      forall x | x in tail ensures x in S <==> x in S' {
        assert x in Elems(tail);
      }
      MaskOfLocal(tail, S, S');
      MaskOfChosen(tail, i / 2);
    }
  }

  /** Every mask in `[1, 2^n)` chooses at least one element. */
  lemma {:induction false} ChosenNonEmpty(elements: seq<Activity>, i: nat)
    requires 1 <= i < Pow2(|elements|)
    ensures Chosen(elements, i) != []
    decreases |elements|
  {
    if elements != [] && i % 2 == 0 {
      ChosenNonEmpty(elements[1..], i / 2);
    }
  }

  /** The empty mask chooses nothing. */
  lemma {:induction false} ChosenZero(elements: seq<Activity>)
    ensures Chosen(elements, 0) == []
    decreases |elements|
  {
    if elements != [] {
      ChosenZero(elements[1..]);
    }
  }

  /** The bitmask enumeration, first part: over the sorted activities, each mask
      in `[1, 2^n)` yields a non-empty subset of them, listed in sorted order. */
  lemma MaskYieldsSubset(elements: seq<Activity>, i: nat)
    requires Increasing(elements) && 1 <= i < Pow2(|elements|)
    ensures Chosen(elements, i) != [] && Elems(Chosen(elements, i)) <= Elems(elements)
    ensures Chosen(elements, i) == Sorted(Elems(Chosen(elements, i)))
  {
    ChosenNonEmpty(elements, i);
    ChosenIncreasing(elements, i);
    SortedUnique(Elems(Chosen(elements, i)), Chosen(elements, i));
  }

  /** Second part: every non-empty subset is yielded by some mask. */
  lemma SubsetHasMask(elements: seq<Activity>, A: set<Activity>)
    requires A <= Elems(elements) && A != {}
    ensures exists i :: 1 <= i < Pow2(|elements|) && Elems(Chosen(elements, i)) == A
  {
    var i := MaskOf(elements, A);
    MaskOfBound(elements, A);
    ChosenMaskOf(elements, A);
    assert Elems(Chosen(elements, i)) == A by {
      assert A * Elems(elements) == A;
    }
    ChosenZero(elements);
    assert Elems(Chosen(elements, 0)) == {};
    assert i != 0;
    assert 1 <= i < Pow2(|elements|) && Elems(Chosen(elements, i)) == A;
  }

  /** Third part: and by one mask only. */
  lemma MaskInjective(elements: seq<Activity>, i: nat, k: nat)
    requires Increasing(elements) && i < Pow2(|elements|) && k < Pow2(|elements|)
    requires Elems(Chosen(elements, i)) == Elems(Chosen(elements, k))
    ensures i == k
  {
    MaskOfChosen(elements, i);
    MaskOfChosen(elements, k);
  }

  // ---------------------------------------------------------------------------
  // The checks, as the source runs them on the lists it builds

  /** `check_internal_relations(set_elements)`: every two different positions hold '#L'. */
  predicate CheckInternalRelations(matrix: map<(Activity, Activity), Rel>, s: seq<Activity>)
    requires forall a, b :: a in s && b in s ==> (a, b) in matrix
  {
    forall i, j :: 0 <= i < |s| && 0 <= j < |s| && i != j ==> matrix[(s[i], s[j])] == Choice
  }

  /** `check_set_relations(set_a, set_b)`: every cell from `set_a` to `set_b` is '→L'. */
  predicate CheckSetRelations(matrix: map<(Activity, Activity), Rel>, setA: seq<Activity>, setB: seq<Activity>)
    requires forall a, b :: a in setA && b in setB ==> (a, b) in matrix
  {
    forall a, b :: a in setA && b in setB ==> matrix[(a, b)] == Causal
  }

  // ---------------------------------------------------------------------------
  // What a candidate pair is

  /** Every two different members of `A` are unrelated ('#L'). */
  predicate Independent(succ: set<(Activity, Activity)>, A: set<Activity>)
  {
    forall a, b :: a in A && b in A && a != b ==> Relation(succ, a, b) == Choice
  }

  /** Every member of `A` is causally followed by every member of `B` ('→L'). */
  predicate AllCausal(succ: set<(Activity, Activity)>, A: set<Activity>, B: set<Activity>)
  {
    forall a, b :: a in A && b in B ==> Relation(succ, a, b) == Causal
  }

  /** A member of XL. */
  predicate IsCandidate(succ: set<(Activity, Activity)>, acts: set<Activity>, A: set<Activity>, B: set<Activity>)
  {
    A != {} && B != {} && A <= acts && B <= acts &&
    Independent(succ, A) && Independent(succ, B) && AllCausal(succ, A, B)
  }

  /** The matrix holds `Relation(succ, a, b)` for every pair of activities. */
  ghost predicate Tabulates(matrix: map<(Activity, Activity), Rel>, succ: set<(Activity, Activity)>, acts: set<Activity>)
  {
    forall a, b :: a in acts && b in acts ==> (a, b) in matrix && matrix[(a, b)] == Relation(succ, a, b)
  }

  lemma RelationMatrixTabulates(log: Log)
    ensures Tabulates(RelationMatrix(log), DirectSuccessions(log), Activities(log))
  {
    forall a, b | a in Activities(log) && b in Activities(log)
      ensures (a, b) in RelationMatrix(log)
    {
      assert (a, b) in Pairs(Activities(log));
    }
  }

  /** On a list without repetitions, the index-based check is independence of its set. */
  lemma InternalCheckMeansIndependent(matrix: map<(Activity, Activity), Rel>, succ: set<(Activity, Activity)>,
                                      acts: set<Activity>, s: seq<Activity>)
    requires Tabulates(matrix, succ, acts) && Increasing(s) && Elems(s) <= acts
    ensures (forall a, b :: a in s && b in s ==> (a, b) in matrix)
    ensures CheckInternalRelations(matrix, s) <==> Independent(succ, Elems(s))
  {
    if CheckInternalRelations(matrix, s) {
      forall a, b | a in Elems(s) && b in Elems(s) && a != b
        ensures Relation(succ, a, b) == Choice
      {
        var i :| 0 <= i < |s| && s[i] == a;
        var j :| 0 <= j < |s| && s[j] == b;
      }
    }
    if Independent(succ, Elems(s)) {
      forall i, j | 0 <= i < |s| && 0 <= j < |s| && i != j
        ensures matrix[(s[i], s[j])] == Choice
      {
        if i < j {
          assert Before(s[i], s[j]);
        } else {
          assert Before(s[j], s[i]);
        }
        assert s[i] in Elems(s) && s[j] in Elems(s);
      }
    }
  }

  /** The cross check on lists is `AllCausal` on their sets. */
  lemma SetCheckMeansAllCausal(matrix: map<(Activity, Activity), Rel>, succ: set<(Activity, Activity)>,
                               acts: set<Activity>, setA: seq<Activity>, setB: seq<Activity>)
    requires Tabulates(matrix, succ, acts) && Elems(setA) <= acts && Elems(setB) <= acts
    ensures (forall a, b :: a in setA && b in setB ==> (a, b) in matrix)
    ensures CheckSetRelations(matrix, setA, setB) <==> AllCausal(succ, Elems(setA), Elems(setB))
  {
  }

  // ---------------------------------------------------------------------------
  // The enumeration

  /** The pair of masks `(i, k)` passes all three checks. */
  predicate Passes(succ: set<(Activity, Activity)>, elements: seq<Activity>, i: nat, k: nat)
  {
    Independent(succ, Elems(Chosen(elements, i))) && Independent(succ, Elems(Chosen(elements, k))) &&
    AllCausal(succ, Elems(Chosen(elements, i)), Elems(Chosen(elements, k)))
  }

  /** What XL holds once the loops have reached mask `i` for A and mask `k` for B. */
  function Found(succ: set<(Activity, Activity)>, elements: seq<Activity>, i: nat, k: nat): set<Pair>
  {
    set i', k' | 1 <= i' < Pow2(|elements|) && 1 <= k' < Pow2(|elements|) &&
                 (i' < i || (i' == i && k' < k)) && Passes(succ, elements, i', k')
      :: (Elems(Chosen(elements, i')), Elems(Chosen(elements, k')))
  }

  lemma FoundStep(succ: set<(Activity, Activity)>, elements: seq<Activity>, i: nat, k: nat)
    requires 1 <= i < Pow2(|elements|) && 1 <= k < Pow2(|elements|)
    ensures Found(succ, elements, i, k + 1) ==
      Found(succ, elements, i, k) +
      (if Passes(succ, elements, i, k) then {(Elems(Chosen(elements, i)), Elems(Chosen(elements, k)))} else {})
  {
  }

  lemma FoundNextRow(succ: set<(Activity, Activity)>, elements: seq<Activity>, i: nat)
    ensures Found(succ, elements, i, Pow2(|elements|)) == Found(succ, elements, i + 1, 1)
  {
  }

  lemma FoundSkipRow(succ: set<(Activity, Activity)>, elements: seq<Activity>, i: nat)
    requires !Independent(succ, Elems(Chosen(elements, i)))
    ensures Found(succ, elements, i, 1) == Found(succ, elements, i + 1, 1)
  {
  }

  /** After every mask for A, the enumeration has found exactly the candidate pairs. */
  lemma FoundAllIsCandidates(succ: set<(Activity, Activity)>, elements: seq<Activity>, A: set<Activity>, B: set<Activity>)
    requires Increasing(elements)
    ensures (A, B) in Found(succ, elements, Pow2(|elements|), 1) <==> IsCandidate(succ, Elems(elements), A, B)
  {
    var N := Pow2(|elements|);
    if IsCandidate(succ, Elems(elements), A, B) {
      SubsetHasMask(elements, A);
      SubsetHasMask(elements, B);
      var i :| 1 <= i < N && Elems(Chosen(elements, i)) == A;
      var k :| 1 <= k < N && Elems(Chosen(elements, k)) == B;
      assert Passes(succ, elements, i, k);
    }
    if (A, B) in Found(succ, elements, N, 1) {
      var i, k :| 1 <= i < N && 1 <= k < N && Passes(succ, elements, i, k) &&
        (A, B) == (Elems(Chosen(elements, i)), Elems(Chosen(elements, k)));
      MaskYieldsSubset(elements, i);
      MaskYieldsSubset(elements, k);
      assert Chosen(elements, i)[0] in A && Chosen(elements, k)[0] in B;
    }
  }

  /** Lines 75-87: for one A that passed its check, every mask of B that passes
      its own check and is caused by A adds `(A, B)`. */
  method AddPartners(matrix: map<(Activity, Activity), Rel>, succ: set<(Activity, Activity)>, acts: set<Activity>,
                     elements: seq<Activity>, setA: seq<Activity>, i: nat, xl: set<Pair>)
    returns (result: set<Pair>)
    requires Tabulates(matrix, succ, acts) && Increasing(elements) && Elems(elements) == acts
    requires 1 <= i < Pow2(|elements|) && setA == Chosen(elements, i) && Independent(succ, Elems(setA))
    requires xl == Found(succ, elements, i, 1)
    ensures result == Found(succ, elements, i, Pow2(|elements|))
  {
    result := xl;
    var n := |elements|;
    var k := 1;
    ChosenIncreasing(elements, i);
    while k < Pow2(n)
      invariant 1 <= k <= Pow2(n)
      invariant result == Found(succ, elements, i, k)
    {
      var setB := MaskList(elements, k);
      ChosenIncreasing(elements, k);
      InternalCheckMeansIndependent(matrix, succ, acts, setB);
      FoundStep(succ, elements, i, k);
      if !CheckInternalRelations(matrix, setB) {
        k := k + 1;
        continue;
      }
      SetCheckMeansAllCausal(matrix, succ, acts, setA, setB);
      if CheckSetRelations(matrix, setA, setB) {
        result := result + {(Elems(setA), Elems(setB))};
      }
      k := k + 1;
    }
  }

  /** `compute_XL_corrected`: for every mask of A that passes the internal check,
      every mask of B that passes it too, keep (A, B) when A causes B. */
  method ComputeXL(log: Log) returns (xl: set<Pair>)
    ensures forall A, B :: (A, B) in xl <==> IsCandidate(DirectSuccessions(log), Activities(log), A, B)
  {
    var relationsMatrix := GenerateRelationMatrix(log);
    var acts := Activities(log);
    var succ := DirectSuccessions(log);
    var elements := Sorted(acts);
    RelationMatrixTabulates(log);

    xl := {};
    var n := |elements|;
    var i := 1;
    while i < Pow2(n)
      invariant 1 <= i <= Pow2(n)
      invariant xl == Found(succ, elements, i, 1)
    {
      var setA := MaskList(elements, i);
      ChosenIncreasing(elements, i);
      InternalCheckMeansIndependent(relationsMatrix, succ, acts, setA);
      if !CheckInternalRelations(relationsMatrix, setA) {
        FoundSkipRow(succ, elements, i);
        i := i + 1;
        continue;
      }
      xl := AddPartners(relationsMatrix, succ, acts, elements, setA, i, xl);
      FoundNextRow(succ, elements, i);
      i := i + 1;
    }
    forall A, B ensures (A, B) in xl <==> IsCandidate(succ, acts, A, B) {
      FoundAllIsCandidates(succ, elements, A, B);
    }
  }

  // ---------------------------------------------------------------------------
  // Properties of XL

  /** The two sets of a candidate pair never share an activity, since no
      diagonal cell is ever '→L'. */
  lemma CandidateDisjoint(succ: set<(Activity, Activity)>, acts: set<Activity>, A: set<Activity>, B: set<Activity>)
    requires IsCandidate(succ, acts, A, B)
    ensures A !! B
  {
    forall a | a in A ensures a !in B {
      assert Relation(succ, a, a) != Causal;
    }
  }

  /** Candidate pairs in terms of the log itself: inside A and inside B no activity
      ever directly follows another, and every member of B directly follows every
      member of A while the reverse never happens. */
  lemma CandidateInLogTerms(log: Log, A: set<Activity>, B: set<Activity>)
    requires A != {} && B != {} && A <= Activities(log) && B <= Activities(log)
    ensures IsCandidate(DirectSuccessions(log), Activities(log), A, B) <==>
      (forall a, a' :: a in A && a' in A && a != a' ==> !Follows(log, a, a')) &&
      (forall b, b' :: b in B && b' in B && b != b' ==> !Follows(log, b, b')) &&
      (forall a, b :: a in A && b in B ==> Follows(log, a, b) && !Follows(log, b, a))
  {
    forall x, y ensures (x, y) in DirectSuccessions(log) <==> Follows(log, x, y) {
      DirectSuccessionsWitnessed(log, x, y);
    }
  }
}
