/**
 The relation matrix (the log's footprint): for every ordered pair of
 activities, one of causality, inverse causality, parallelism or no relation,
 decided from the direct successions alone.
 */
module Footprint {
  import opened Strings
  import opened EventLog

  /** A cell of the matrix: '→L', '←L', '∥L' or '#L'. */
  datatype Rel = Causal | Inverse | Parallel | Choice

  /** The text the source stores for a relation. */
  function Symbol(r: Rel): (s: string)
    ensures |s| == 2 && s[1] == 'L'
  {
    match r
    case Causal => "\U{2192}L"
    case Inverse => "\U{2190}L"
    case Parallel => "\U{2225}L"
    case Choice => "#L"
  }

  /** The four relations are shown by four different texts, so a cell's text
      reads back as exactly one relation. */
  lemma SymbolInjective(r: Rel, r': Rel)
    ensures Symbol(r) == Symbol(r') <==> r == r'
  {
  }

  /** How the same relation reads from the other side. */
  function Mirror(r: Rel): Rel
  {
    match r
    case Causal => Inverse
    case Inverse => Causal
    case other => other
  }

  /** The cell of `(a, b)` once the successions are known: both directions give
      parallelism, one direction causality or its inverse, none no relation. */
  function Relation(succ: set<(Activity, Activity)>, a: Activity, b: Activity): Rel
  {
    if (a, b) in succ then
      if (b, a) in succ then Parallel else Causal
    else if (b, a) in succ then Inverse
    else Choice
  }

  /** All ordered pairs over a set of activities. */
  function Pairs(s: set<Activity>): set<(Activity, Activity)>
  {
    set a, b | a in s && b in s :: (a, b)
  }

  /** The matrix that `generate_relation_matrix` returns, as a function of the log. */
  function RelationMatrix(log: Log): map<(Activity, Activity), Rel>
  {
    var succ := DirectSuccessions(log);
    map pr | pr in Pairs(Activities(log)) :: Relation(succ, pr.0, pr.1)
  }

  /** Lines 18-21 of `generate_relation_matrix`: the set of direct successions,
      collected trace by trace. */
  method CollectDirectSuccessions(log: Log) returns (succ: set<(Activity, Activity)>)
    ensures succ == DirectSuccessions(log)
  {
    succ := {};
    var k := 0;
    while k < |log|
      invariant 0 <= k <= |log|
      invariant succ == Elems(Adjacencies(log[..k]))
    {
      var sequence := log[k];
      var i := 0;
      while i < |sequence| - 1
        invariant 0 <= i && (|sequence| == 0 ==> i == 0) && (|sequence| > 0 ==> i <= |sequence| - 1)
        invariant succ == Elems(Adjacencies(log[..k]) + TraceAdjacencies(sequence)[..i])
      {
        assert TraceAdjacencies(sequence)[..i + 1] == TraceAdjacencies(sequence)[..i] + [(sequence[i], sequence[i + 1])];
        succ := succ + {(sequence[i], sequence[i + 1])};
        i := i + 1;
      }
      assert TraceAdjacencies(sequence)[..i] == TraceAdjacencies(sequence);
      assert log[..k + 1][..k] == log[..k];
      k := k + 1;
    }
    assert log[..k] == log;
  }

  /** Every cell holds '#L' or its final value. */
  ghost predicate OnlyFinalWrites(matrix: map<(Activity, Activity), Rel>, succ: set<(Activity, Activity)>)
  {
    forall pr :: pr in matrix ==> matrix[pr] == Choice || matrix[pr] == Relation(succ, pr.0, pr.1)
  }

  /** The visit of `(x, y)` is done: if it is a succession, both its cell and the
      mirror cell hold their final values. */
  ghost predicate Settled(matrix: map<(Activity, Activity), Rel>, succ: set<(Activity, Activity)>, x: Activity, y: Activity)
  {
    (x, y) in succ ==>
      (x, y) in matrix && (y, x) in matrix &&
      matrix[(x, y)] == Relation(succ, x, y) && matrix[(y, x)] == Relation(succ, y, x)
  }

  /** Lines 26-34: the visit of one ordered pair, which writes the pair's cell and
      its mirror cell when the pair is a succession. */
  method VisitPair(matrix: map<(Activity, Activity), Rel>, succ: set<(Activity, Activity)>, a: Activity, b: Activity)
    returns (updated: map<(Activity, Activity), Rel>)
    requires (a, b) in matrix && (b, a) in matrix
    ensures updated.Keys == matrix.Keys
    ensures OnlyFinalWrites(matrix, succ) ==> OnlyFinalWrites(updated, succ)
    ensures Settled(updated, succ, a, b)
    ensures forall x, y :: Settled(matrix, succ, x, y) ==> Settled(updated, succ, x, y)
  {
    updated := matrix;
    if (a, b) in succ {
      if (b, a) in succ {
        updated := updated[(a, b) := Parallel][(b, a) := Parallel];
      } else {
        updated := updated[(a, b) := Causal][(b, a) := Inverse];
      }
    }
  }

  /** The rows before `p` have all been visited. */
  ghost predicate RowsSettled(matrix: map<(Activity, Activity), Rel>, succ: set<(Activity, Activity)>,
                              elements: seq<Activity>, p: nat)
  {
    forall p', q' :: 0 <= p' < p && p' < |elements| && 0 <= q' < |elements| ==>
      Settled(matrix, succ, elements[p'], elements[q'])
  }

  /** Lines 25-34 for one `a`: the visit of every pair `(a, b)`, `b` in order. */
  method VisitRow(matrix: map<(Activity, Activity), Rel>, succ: set<(Activity, Activity)>, elements: seq<Activity>, p: nat)
    returns (updated: map<(Activity, Activity), Rel>)
    requires p < |elements|
    requires forall q :: 0 <= q < |elements| ==> (elements[p], elements[q]) in matrix && (elements[q], elements[p]) in matrix
    requires OnlyFinalWrites(matrix, succ) && RowsSettled(matrix, succ, elements, p)
    ensures updated.Keys == matrix.Keys
    ensures OnlyFinalWrites(updated, succ) && RowsSettled(updated, succ, elements, p + 1)
  {
    updated := matrix;
    var q := 0;
    while q < |elements|
      invariant 0 <= q <= |elements|
      invariant updated.Keys == matrix.Keys
      invariant OnlyFinalWrites(updated, succ) && RowsSettled(updated, succ, elements, p)
      invariant forall q' :: 0 <= q' < q ==> Settled(updated, succ, elements[p], elements[q'])
    {
      updated := VisitPair(updated, succ, elements[p], elements[q]);
      q := q + 1;
    }
  }

  /** Lines 24-34: the visit of every row `a`, in sorted order. */
  method VisitRows(matrix: map<(Activity, Activity), Rel>, succ: set<(Activity, Activity)>, elements: seq<Activity>,
                   acts: set<Activity>)
    returns (updated: map<(Activity, Activity), Rel>)
    requires Elems(elements) == acts && matrix.Keys == Pairs(acts) && OnlyFinalWrites(matrix, succ)
    ensures updated.Keys == Pairs(acts) && OnlyFinalWrites(updated, succ)
    ensures RowsSettled(updated, succ, elements, |elements|)
  {
    updated := matrix;
    var n := |elements|;
    var p := 0;
    while p < n
      invariant 0 <= p <= n
      invariant updated.Keys == Pairs(acts)
      invariant OnlyFinalWrites(updated, succ) && RowsSettled(updated, succ, elements, p)
    {
      RowInMatrix(updated, elements, acts, p);
      updated := VisitRow(updated, succ, elements, p);
      p := p + 1;
    }
  }

  /** `generate_relation_matrix`: starts from '#L' everywhere, collects the direct
      successions, then visits every ordered pair of sorted activities and writes
      the pair's cell together with its mirror cell. */
  method GenerateRelationMatrix(log: Log) returns (matrix: map<(Activity, Activity), Rel>)
    ensures matrix == RelationMatrix(log)
  {
    var acts := Activities(log);
    var elements := Sorted(acts);
    matrix := map pr | pr in Pairs(acts) :: Choice;
    var succ := CollectDirectSuccessions(log);

    matrix := VisitRows(matrix, succ, elements, acts);
    AllSettled(matrix, succ, elements, acts);
  }

  /** Every cell of row `p` and of column `p` is a key of a matrix over the activities. */
  lemma RowInMatrix(matrix: map<(Activity, Activity), Rel>, elements: seq<Activity>, acts: set<Activity>, p: nat)
    requires Elems(elements) == acts && matrix.Keys == Pairs(acts) && p < |elements|
    ensures forall q :: 0 <= q < |elements| ==> (elements[p], elements[q]) in matrix && (elements[q], elements[p]) in matrix
  {
    forall q | 0 <= q < |elements|
      ensures (elements[p], elements[q]) in matrix && (elements[q], elements[p]) in matrix
    {
      assert elements[p] in Elems(elements) && elements[q] in Elems(elements);
      assert (elements[p], elements[q]) in Pairs(acts) && (elements[q], elements[p]) in Pairs(acts);
    }
  }

  /** Once every ordered pair of activities has been visited, every cell holds its final value. */
  lemma AllSettled(matrix: map<(Activity, Activity), Rel>, succ: set<(Activity, Activity)>, elements: seq<Activity>, acts: set<Activity>)
    requires Elems(elements) == acts && matrix.Keys == Pairs(acts)
    requires OnlyFinalWrites(matrix, succ)
    requires RowsSettled(matrix, succ, elements, |elements|)
    ensures matrix == map pr | pr in Pairs(acts) :: Relation(succ, pr.0, pr.1)
  {
    forall pr | pr in matrix
      ensures matrix[pr] == Relation(succ, pr.0, pr.1)
    {
      var (x, y) := pr;
      assert x in acts && y in acts;
      var px :| 0 <= px < |elements| && elements[px] == x;
      var py :| 0 <= py < |elements| && elements[py] == y;
      assert Settled(matrix, succ, x, y) && Settled(matrix, succ, y, x);
    }
  }

  /** Each cell is exactly what the log's direct successions say about the pair. */
  lemma RelationMatrixExact(log: Log, a: Activity, b: Activity)
    requires a in Activities(log) && b in Activities(log)
    ensures (a, b) in RelationMatrix(log)
    ensures RelationMatrix(log)[(a, b)] == Parallel <==> Follows(log, a, b) && Follows(log, b, a)
    ensures RelationMatrix(log)[(a, b)] == Causal <==> Follows(log, a, b) && !Follows(log, b, a)
    ensures RelationMatrix(log)[(a, b)] == Inverse <==> !Follows(log, a, b) && Follows(log, b, a)
    ensures RelationMatrix(log)[(a, b)] == Choice <==> !Follows(log, a, b) && !Follows(log, b, a)
  {
    assert (a, b) in Pairs(Activities(log));
    DirectSuccessionsWitnessed(log, a, b);
    DirectSuccessionsWitnessed(log, b, a);
  }

  /** The two cells of a pair are always mirror images of each other. */
  lemma RelationMatrixMirror(log: Log, a: Activity, b: Activity)
    requires a in Activities(log) && b in Activities(log)
    ensures (a, b) in RelationMatrix(log) && (b, a) in RelationMatrix(log)
    ensures RelationMatrix(log)[(b, a)] == Mirror(RelationMatrix(log)[(a, b)])
  {
    assert (a, b) in Pairs(Activities(log)) && (b, a) in Pairs(Activities(log));
  }

  /** A diagonal cell is never causal: it is '∥L' exactly when some trace repeats
      the activity back to back, and '#L' otherwise. */
  lemma RelationMatrixDiagonal(log: Log, a: Activity)
    requires a in Activities(log)
    ensures (a, a) in RelationMatrix(log)
    ensures RelationMatrix(log)[(a, a)] in {Parallel, Choice}
    ensures RelationMatrix(log)[(a, a)] == Parallel <==>
      exists k, i :: 0 <= k < |log| && 0 <= i < |log[k]| - 1 && log[k][i] == a && log[k][i + 1] == a
  {
    assert (a, a) in Pairs(Activities(log));
    DirectSuccessionsWitnessed(log, a, a);
  }

  /** A direct succession only ever involves activities of the log, so the
      matrix covers every pair the successions mention. */
  lemma RelationMatrixCoversSuccessions(log: Log, a: Activity, b: Activity)
    requires (a, b) in DirectSuccessions(log)
    ensures (a, b) in RelationMatrix(log) && RelationMatrix(log)[(a, b)] in {Causal, Parallel}
  {
    DirectSuccessionsWithin(log, a, b);
    assert (a, b) in Pairs(Activities(log));
  }
}
