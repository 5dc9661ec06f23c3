/**
 The second, displayed classification of a log (`classify_relations`): the
 direct successions as `(x, '>', y)` triples, the causalities and parallelisms
 found by one pass over the adjacent events, and the '#' decisions.
 */
module Classify {
  import opened Strings
  import opened EventLog

  /** A Python tuple of two or three strings. */
  datatype PyTuple = Pair(first: string, second: string) | Triple(first: string, middle: string, last: string)

  /** The four sets of the `relations` dictionary. */
  datatype Relations = Relations(
    sucesionesDirectas: set<PyTuple>,
    causalidades: set<(Activity, Activity)>,
    paralelismo: set<(Activity, Activity)>,
    decisiones: set<(Activity, string, Activity)>)

  /** Every direct succession `(x, y)` as the triple `(x, '>', y)`. */
  function SuccessionTriples(log: Log): set<PyTuple>
  {
    set pr | pr in DirectSuccessions(log) :: Triple(pr.0, ">", pr.1)
  }

  lemma SuccessionTriplesMembership(log: Log, x: Activity, y: Activity)
    ensures Triple(x, ">", y) in SuccessionTriples(log) <==> (x, y) in DirectSuccessions(log)
    ensures Pair(x, y) !in SuccessionTriples(log)
  {
    if Triple(x, ">", y) in SuccessionTriples(log) {
      var pr :| pr in DirectSuccessions(log) && Triple(x, ">", y) == Triple(pr.0, ">", pr.1);
      assert pr == (x, y);
    }
  }

  // ---------------------------------------------------------------------------
  // Causality and parallelism: lines 213-223

  type Sets = (set<(Activity, Activity)>, set<(Activity, Activity)>)

  /** One adjacent pair `(x, y)`: if `(y, x)` is held as a causality, both
      directions become parallel and `(y, x)` stops being causal; otherwise
      `(x, y)` becomes causal. */
  function CausalStep(state: Sets, adjacency: (Activity, Activity)): Sets
  {
    var (causalidades, paralelismo) := state;
    var forward := adjacency;
    var inverse := (adjacency.1, adjacency.0);
    if inverse in causalidades then (causalidades - {inverse}, paralelismo + {forward, inverse})
    else (causalidades + {forward}, paralelismo)
  }

  /** The causalities and parallelisms after the adjacent pairs `adjs`, in order. */
  function Classified(adjs: seq<(Activity, Activity)>): Sets
    decreases |adjs|
  {
    if adjs == [] then ({}, {})
    else CausalStep(Classified(adjs[..|adjs| - 1]), adjs[|adjs| - 1])
  }

  lemma ClassifiedSnoc(adjs: seq<(Activity, Activity)>, adjacency: (Activity, Activity))
    ensures Classified(adjs + [adjacency]) == CausalStep(Classified(adjs), adjacency)
  {
    assert (adjs + [adjacency])[..|adjs|] == adjs;
  }

  /** What the pass keeps true, with `seen` the pairs visited so far. */
  ghost predicate ClassifiedInvariant(causalidades: set<(Activity, Activity)>, paralelismo: set<(Activity, Activity)>,
                                      seen: set<(Activity, Activity)>)
  {
    causalidades <= seen && paralelismo <= seen &&
    (forall x, y :: (x, y) in causalidades && x != y ==> (y, x) !in causalidades) &&
    (forall x, y :: x != y ==> ((x, y) in paralelismo <==> (x, y) in seen && (y, x) in seen)) &&
    (forall x, y :: (x, y) in seen && (y, x) !in seen ==> (x, y) in causalidades)
  }

  lemma {:induction false} ClassifiedKeepsInvariant(adjs: seq<(Activity, Activity)>)
    ensures ClassifiedInvariant(Classified(adjs).0, Classified(adjs).1, Elems(adjs))
    decreases |adjs|
  {
    if adjs != [] {
      var prev := adjs[..|adjs| - 1];
      var last := adjs[|adjs| - 1];
      ClassifiedKeepsInvariant(prev);
      assert Elems(adjs) == Elems(prev) + {last} by {
        assert adjs == prev + [last];
      }
      StepKeepsInvariant(Classified(prev).0, Classified(prev).1, Elems(prev), last);
    }
  }

  lemma StepKeepsInvariant(causalidades: set<(Activity, Activity)>, paralelismo: set<(Activity, Activity)>,
                           seen: set<(Activity, Activity)>, adjacency: (Activity, Activity))
    requires ClassifiedInvariant(causalidades, paralelismo, seen)
    ensures ClassifiedInvariant(CausalStep((causalidades, paralelismo), adjacency).0,
                                CausalStep((causalidades, paralelismo), adjacency).1, seen + {adjacency})
  {
    var (a, b) := adjacency;
    var (c', p') := CausalStep((causalidades, paralelismo), adjacency);
    var seen' := seen + {adjacency};
    if (b, a) in causalidades {
      assert (b, a) in seen;
      forall x, y | x != y
        ensures (x, y) in p' <==> (x, y) in seen' && (y, x) in seen'
      {
        if (x, y) in p' && (x, y) !in paralelismo {
          assert (x, y) == (a, b) || (x, y) == (b, a);
        }
      }
      forall x, y | (x, y) in seen' && (y, x) !in seen'
        ensures (x, y) in c'
      {
        assert (x, y) != (b, a);
      }
    } else {
      assert (b, a) in seen && (a, b) !in seen ==> (b, a) in causalidades;
    }
  }

  /** The causalities and parallelisms of a log. */
  function CausalSets(log: Log): Sets
  {
    Classified(Adjacencies(log))
  }

  /** Both sets only ever hold direct successions, and no two different
      activities are causal in both directions. */
  lemma CausalSetsWithinSuccessions(log: Log, x: Activity, y: Activity)
    ensures (x, y) in CausalSets(log).0 ==> (x, y) in DirectSuccessions(log)
    ensures (x, y) in CausalSets(log).1 ==> (x, y) in DirectSuccessions(log)
    ensures x != y && (x, y) in CausalSets(log).0 ==> (y, x) !in CausalSets(log).0
  {
    ClassifiedKeepsInvariant(Adjacencies(log));
  }

  /** Two different activities are parallel exactly when each directly follows the other. */
  lemma ParallelExact(log: Log, x: Activity, y: Activity)
    requires x != y
    ensures (x, y) in CausalSets(log).1 <==> Follows(log, x, y) && Follows(log, y, x)
  {
    ClassifiedKeepsInvariant(Adjacencies(log));
    DirectSuccessionsWitnessed(log, x, y);
    DirectSuccessionsWitnessed(log, y, x);
  }

  /** A succession in one direction only always ends up causal. */
  lemma OneWayIsCausal(log: Log, x: Activity, y: Activity)
    requires Follows(log, x, y) && !Follows(log, y, x)
    ensures (x, y) in CausalSets(log).0 && (x, y) !in CausalSets(log).1 && (y, x) !in CausalSets(log).1
  {
    ClassifiedKeepsInvariant(Adjacencies(log));
    DirectSuccessionsWitnessed(log, x, y);
    DirectSuccessionsWitnessed(log, y, x);
  }

  /** A pair can be both causal and parallel: in `<a,b>,<b,a>,<a,b>` the third
      trace makes `(a, b)` causal again after the second made it parallel. */
  lemma CausalAndParallel()
    ensures ("a", "b") in CausalSets([["a", "b"], ["b", "a"], ["a", "b"]]).0
    ensures ("a", "b") in CausalSets([["a", "b"], ["b", "a"], ["a", "b"]]).1
  {
    var log: Log := [["a", "b"], ["b", "a"], ["a", "b"]];
    assert log[..2][..1] == [["a", "b"]] && log[..1][..0] == [];
    assert log[..2] == [["a", "b"], ["b", "a"]];
    assert Adjacencies(log[..1]) == [("a", "b")];
    assert Adjacencies(log[..2]) == [("a", "b"), ("b", "a")];
    var adjs := Adjacencies(log);
    assert adjs == [("a", "b"), ("b", "a"), ("a", "b")];
    var a1, a2 := adjs[..1], adjs[..2];
    assert a1[..0] == [] && a2[..1] == a1 && adjs[..2] == a2;
    assert Classified(a1) == CausalStep(({}, {}), ("a", "b"));
    assert Classified(a1).0 == {("a", "b")} && Classified(a1).1 == {};
    assert Classified(a2) == CausalStep(Classified(a1), ("b", "a"));
    assert ("a", "b") in Classified(a2).1 && ("b", "a") !in Classified(a2).0;
    assert Classified(adjs) == CausalStep(Classified(a2), ("a", "b"));
  }

  // ---------------------------------------------------------------------------
  // Decisions: lines 226-241

  /** The decisions of a log: `(x, '#', y)` for different activities with no
      direct succession either way, and `(x, '#', x)` for every activity. */
  function Decisions(log: Log): set<(Activity, string, Activity)>
  {
    var acts := Activities(log);
    var succ := DirectSuccessions(log);
    (set x, y | x in acts && y in acts && x != y && (x, y) !in succ && (y, x) !in succ :: (x, "#", y)) +
    (set x | x in acts :: (x, "#", x))
  }

  /** The whole dictionary, as a function of the log. */
  function Classification(log: Log): Relations
  {
    Relations(SuccessionTriples(log), CausalSets(log).0, CausalSets(log).1, Decisions(log))
  }

  /** The decisions between two activities of the log. */
  lemma DecisionsExact(log: Log, x: Activity, y: Activity)
    requires x in Activities(log) && y in Activities(log)
    ensures (x, "#", y) in Decisions(log) <==> x == y || (!Follows(log, x, y) && !Follows(log, y, x))
  {
    DirectSuccessionsWitnessed(log, x, y);
    DirectSuccessionsWitnessed(log, y, x);
  }

  // ---------------------------------------------------------------------------
  // The method

  /** Lines 208-210. */
  method CollectSuccessionTriples(log: Log) returns (s3: set<PyTuple>)
    ensures s3 == SuccessionTriples(log)
  {
    s3 := {};
    var k := 0;
    while k < |log|
      invariant 0 <= k <= |log|
      invariant s3 == set pr | pr in Elems(Adjacencies(log[..k])) :: Triple(pr.0, ">", pr.1)
    {
      var relation := log[k];
      var i := 0;
      while i < |relation| - 1
        invariant 0 <= i && (|relation| == 0 ==> i == 0) && (|relation| > 0 ==> i <= |relation| - 1)
        invariant s3 == set pr | pr in Elems(Adjacencies(log[..k]) + TraceAdjacencies(relation)[..i]) :: Triple(pr.0, ">", pr.1)
      {
        assert TraceAdjacencies(relation)[..i + 1] == TraceAdjacencies(relation)[..i] + [(relation[i], relation[i + 1])];
        s3 := s3 + {Triple(relation[i], ">", relation[i + 1])};
        i := i + 1;
      }
      assert TraceAdjacencies(relation)[..i] == TraceAdjacencies(relation);
      assert log[..k + 1][..k] == log[..k];
      k := k + 1;
    }
    assert log[..k] == log;
  }

  /** Lines 213-223, with the guard of line 215 as written: it looks up a pair
      among triples, so it never rejects an adjacency. */
  method CollectCausalSets(log: Log, s3: set<PyTuple>) returns (causalidades: set<(Activity, Activity)>, paralelismo: set<(Activity, Activity)>)
    requires s3 == SuccessionTriples(log)
    ensures (causalidades, paralelismo) == CausalSets(log)
  {
    causalidades, paralelismo := {}, {};
    var k := 0;
    while k < |log|
      invariant 0 <= k <= |log|
      invariant (causalidades, paralelismo) == Classified(Adjacencies(log[..k]))
    {
      causalidades, paralelismo := ClassifyTrace(log, s3, Adjacencies(log[..k]), log[k], causalidades, paralelismo);
      assert log[..k + 1][..k] == log[..k];
      k := k + 1;
    }
    assert log[..k] == log;
  }

  /** Lines 214-223: the pass over the adjacencies of one trace, continuing the
      sets built from the adjacencies `before` it. */
  method ClassifyTrace(log: Log, s3: set<PyTuple>, before: seq<(Activity, Activity)>, relation: Trace,
                       causalidades0: set<(Activity, Activity)>, paralelismo0: set<(Activity, Activity)>)
    returns (causalidades: set<(Activity, Activity)>, paralelismo: set<(Activity, Activity)>)
    requires s3 == SuccessionTriples(log)
    requires (causalidades0, paralelismo0) == Classified(before)
    ensures (causalidades, paralelismo) == Classified(before + TraceAdjacencies(relation))
  {
    causalidades, paralelismo := causalidades0, paralelismo0;
    var i := 0;
    assert before + TraceAdjacencies(relation)[..0] == before;
    while i < |relation| - 1
      invariant 0 <= i && (|relation| == 0 ==> i == 0) && (|relation| > 0 ==> i <= |relation| - 1)
      invariant (causalidades, paralelismo) == Classified(before + TraceAdjacencies(relation)[..i])
    {
      var adjacency := (relation[i], relation[i + 1]);
      var adjs := before + TraceAdjacencies(relation)[..i];
      assert TraceAdjacencies(relation)[..i + 1] == TraceAdjacencies(relation)[..i] + [adjacency];
      assert before + TraceAdjacencies(relation)[..i + 1] == adjs + [adjacency];
      ClassifiedSnoc(adjs, adjacency);
      SuccessionTriplesMembership(log, relation[i + 1], relation[i]);
      if Pair(relation[i + 1], relation[i]) !in s3 {
        var forwardRelation := (relation[i], relation[i + 1]);
        var inverseRelation := (relation[i + 1], relation[i]);
        if inverseRelation in causalidades {
          paralelismo := paralelismo + {forwardRelation};
          paralelismo := paralelismo + {inverseRelation};
          causalidades := causalidades - {inverseRelation};
        } else {
          causalidades := causalidades + {forwardRelation};
        }
      }
      assert causalidades == CausalStep(Classified(adjs), adjacency).0;
      assert paralelismo == CausalStep(Classified(adjs), adjacency).1;
      i := i + 1;
    }
    assert TraceAdjacencies(relation)[..i] == TraceAdjacencies(relation);
  }

  /** Lines 226-229: every label of the log, sorted. */
  method CollectLetters(log: Log) returns (allLetters: seq<Activity>)
    ensures allLetters == Sorted(Activities(log))
  {
    var letters: set<Activity> := {};
    var k := 0;
    assert Activities(log[..0]) == {};
    while k < |log|
      invariant 0 <= k <= |log|
      invariant letters == Activities(log[..k])
    {
      ActivitiesPrefix(log, k);
      letters := letters + Elems(log[k]);
      k := k + 1;
    }
    assert log[..k] == log;
    allLetters := Sorted(letters);
  }

  /** The decisions between different letters, among the first `p` letters and
      then the first `q` partners of letter `p`. */
  function DecisionsSoFar(allLetters: seq<Activity>, s3: set<PyTuple>, p: int, q: int): set<(Activity, string, Activity)>
  {
    set i, j | 0 <= i < |allLetters| && 0 <= j < |allLetters| && (i < p || (i == p && j < q)) &&
               allLetters[i] != allLetters[j] &&
               Triple(allLetters[i], ">", allLetters[j]) !in s3 && Triple(allLetters[j], ">", allLetters[i]) !in s3
      :: (allLetters[i], "#", allLetters[j])
  }

  /** Lines 231-237. */
  method CollectDecisions(allLetters: seq<Activity>, s3: set<PyTuple>) returns (decisiones: set<(Activity, string, Activity)>)
    ensures decisiones == DecisionsSoFar(allLetters, s3, |allLetters|, 0)
  {
    decisiones := {};
    var p := 0;
    while p < |allLetters|
      invariant 0 <= p <= |allLetters|
      invariant decisiones == DecisionsSoFar(allLetters, s3, p, 0)
    {
      var letter := allLetters[p];
      var q := 0;
      while q < |allLetters|
        invariant 0 <= q <= |allLetters|
        invariant decisiones == DecisionsSoFar(allLetters, s3, p, q)
      {
        var otherLetter := allLetters[q];
        if letter != otherLetter {
          var decision := (letter, "#", otherLetter);
          if Triple(letter, ">", otherLetter) !in s3 && Triple(otherLetter, ">", letter) !in s3 {
            decisiones := decisiones + {decision};
          }
        }
        q := q + 1;
      }
      assert DecisionsSoFar(allLetters, s3, p, |allLetters|) == DecisionsSoFar(allLetters, s3, p + 1, 0);
      p := p + 1;
    }
  }

  /** The decisions between different activities, as the loops find them. */
  function DistinctDecisions(log: Log): set<(Activity, string, Activity)>
  {
    var acts := Activities(log);
    var succ := DirectSuccessions(log);
    set x, y | x in acts && y in acts && x != y && (x, y) !in succ && (y, x) !in succ :: (x, "#", y)
  }

  lemma DecisionsSoFarComplete(log: Log, allLetters: seq<Activity>)
    requires allLetters == Sorted(Activities(log))
    ensures DecisionsSoFar(allLetters, SuccessionTriples(log), |allLetters|, 0) == DistinctDecisions(log)
  {
    var s3 := SuccessionTriples(log);
    var acts := Activities(log);
    var succ := DirectSuccessions(log);
    forall x, y ensures Triple(x, ">", y) in s3 <==> (x, y) in succ {
      SuccessionTriplesMembership(log, x, y);
    }
    var d := DecisionsSoFar(allLetters, s3, |allLetters|, 0);
    forall t | t in DistinctDecisions(log) ensures t in d {
      var x, y :| x in acts && y in acts && x != y && (x, y) !in succ && (y, x) !in succ && t == (x, "#", y);
      assert x in Elems(allLetters) && y in Elems(allLetters);
      var i :| 0 <= i < |allLetters| && allLetters[i] == x;
      var j :| 0 <= j < |allLetters| && allLetters[j] == y;
    }
    forall t | t in d ensures t in DistinctDecisions(log) {
      var i, j :| 0 <= i < |allLetters| && 0 <= j < |allLetters| && allLetters[i] != allLetters[j] &&
        Triple(allLetters[i], ">", allLetters[j]) !in s3 && Triple(allLetters[j], ">", allLetters[i]) !in s3 &&
        t == (allLetters[i], "#", allLetters[j]);
      assert allLetters[i] in Elems(allLetters) && allLetters[j] in Elems(allLetters);
    }
  }

  /** Lines 240-241. */
  method AddSelfDecisions(allLetters: seq<Activity>, decisiones: set<(Activity, string, Activity)>)
    returns (result: set<(Activity, string, Activity)>)
    ensures result == decisiones + set x | x in allLetters :: (x, "#", x)
  {
    result := decisiones;
    var p := 0;
    while p < |allLetters|
      invariant 0 <= p <= |allLetters|
      invariant result == decisiones + set x | x in allLetters[..p] :: (x, "#", x)
    {
      assert allLetters[..p + 1] == allLetters[..p] + [allLetters[p]];
      result := result + {(allLetters[p], "#", allLetters[p])};
      p := p + 1;
    }
    assert allLetters[..p] == allLetters;
  }

  /** `classify_relations`: the four sets for a log. */
  method ClassifyRelations(log: Log) returns (relations: Relations)
    ensures relations == Classification(log)
  {
    var s3 := CollectSuccessionTriples(log);
    var causalidades, paralelismo := CollectCausalSets(log, s3);
    var allLetters := CollectLetters(log);
    var decisiones := CollectDecisions(allLetters, s3);
    decisiones := AddSelfDecisions(allLetters, decisiones);
    DecisionsSoFarComplete(log, allLetters);
    assert (set x | x in allLetters :: (x, "#", x)) == (set x | x in Activities(log) :: (x, "#", x));
    relations := Relations(s3, causalidades, paralelismo, decisiones);
  }
}
