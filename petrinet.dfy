/**
 The places PL and the arcs FL of the mined Petri net. Each maximal pair
 (A, B) becomes a place named `p_<sorted A joined by ','>_<sorted B joined by ','>`;
 the start place `iL` feeds the initial transitions and the end place `oL` is
 fed by the final ones.
 */
module PetriNet {
  import opened Strings
  import opened EventLog
  import opened Candidates

  type Arc = (string, string)

  const StartPlace := "iL"
  const EndPlace := "oL"

  /** The f-string of lines 113 and 127. */
  function PlaceName(A: set<Activity>, B: set<Activity>): string
  {
    "p_" + Join(",", Sorted(A)) + "_" + Join(",", Sorted(B))
  }

  /** PL as a function of YL. */
  function Places(yl: set<Pair>): set<string>
  {
    {StartPlace, EndPlace} + set p | p in yl :: PlaceName(p.0, p.1)
  }

  /** The arcs of one maximal pair: each member of A into its place, and the
      place into each member of B. */
  function PairArcs(A: set<Activity>, B: set<Activity>): set<Arc>
  {
    (set a | a in A :: (a, PlaceName(A, B))) + (set b | b in B :: (PlaceName(A, B), b))
  }

  /** The arcs of every pair of `ps`. */
  function PlaceArcs(ps: set<Pair>): set<Arc>
  {
    set p, arc | p in ps && arc in PairArcs(p.0, p.1) :: arc
  }

  /** FL as a function of YL, TI and TO. */
  function Arcs(yl: set<Pair>, ti: set<Activity>, to: set<Activity>): set<Arc>
  {
    PlaceArcs(yl) + (set t | t in ti :: (StartPlace, t)) + (set t | t in to :: (t, EndPlace))
  }

  /** `compute_PL`: one place per maximal pair, then `iL` and `oL`. `ti` and `to`
      are accepted and not used, as in the source. */
  method ComputePL(yl: set<Pair>, ti: set<Activity>, to: set<Activity>) returns (pl: set<string>)
    ensures pl == Places(yl)
  {
    pl := {};
    var todo := yl;
    while todo != {}
      invariant todo <= yl
      invariant pl == set p | p in yl - todo :: PlaceName(p.0, p.1)
      decreases |todo|
    {
      var p :| p in todo;
      var (a, b) := p;
      var placeName := "p_" + Join(",", Sorted(a)) + "_" + Join(",", Sorted(b));
      pl := pl + {placeName};
      todo := todo - {p};
    }
    pl := pl + {StartPlace};
    pl := pl + {EndPlace};
  }

  /** `for a in A: FL.add((a, place_name))`. */
  method AddIncoming(fl: set<Arc>, A: set<Activity>, placeName: string) returns (result: set<Arc>)
    ensures result == fl + set a | a in A :: (a, placeName)
  {
    result := fl;
    var rest := A;
    while rest != {}
      invariant rest <= A
      invariant result == fl + set a | a in A - rest :: (a, placeName)
      decreases |rest|
    {
      var a :| a in rest;
      result := result + {(a, placeName)};
      rest := rest - {a};
    }
  }

  /** `for b in B: FL.add((place_name, b))`. */
  method AddOutgoing(fl: set<Arc>, placeName: string, B: set<Activity>) returns (result: set<Arc>)
    ensures result == fl + set b | b in B :: (placeName, b)
  {
    result := fl;
    var rest := B;
    while rest != {}
      invariant rest <= B
      invariant result == fl + set b | b in B - rest :: (placeName, b)
      decreases |rest|
    {
      var b :| b in rest;
      result := result + {(placeName, b)};
      rest := rest - {b};
    }
  }

  lemma PlaceArcsAdd(done: set<Pair>, p: Pair)
    ensures PlaceArcs(done + {p}) == PlaceArcs(done) + PairArcs(p.0, p.1)
  {
  }

  /** Lines 126-131: the arcs of every maximal pair. */
  method AddPlaceArcs(yl: set<Pair>) returns (fl: set<Arc>)
    ensures fl == PlaceArcs(yl)
  {
    fl := {};
    var todo := yl;
    while todo != {}
      invariant todo <= yl
      invariant fl == PlaceArcs(yl - todo)
      decreases |todo|
    {
      var p :| p in todo;
      var (A, B) := p;
      var placeName := "p_" + Join(",", Sorted(A)) + "_" + Join(",", Sorted(B));
      fl := AddIncoming(fl, A, placeName);
      fl := AddOutgoing(fl, placeName, B);
      PlaceArcsAdd(yl - todo, p);
      assert yl - (todo - {p}) == (yl - todo) + {p};
      todo := todo - {p};
    }
  }

  /** `compute_FL`: the arcs of every maximal pair, then `iL` into every initial
      transition and every final transition into `oL`. */
  method ComputeFL(yl: set<Pair>, ti: set<Activity>, to: set<Activity>) returns (fl: set<Arc>)
    ensures fl == Arcs(yl, ti, to)
  {
    fl := AddPlaceArcs(yl);
    fl := AddOutgoing(fl, StartPlace, ti);
    fl := AddIncoming(fl, to, EndPlace);
  }

  // ---------------------------------------------------------------------------
  // Properties of the places

  /** Every generated name starts with `p_`, so it is never `iL` or `oL`. */
  lemma PlaceNameFresh(A: set<Activity>, B: set<Activity>)
    ensures PlaceName(A, B)[..2] == "p_"
    ensures PlaceName(A, B) != StartPlace && PlaceName(A, B) != EndPlace
  {
    assert PlaceName(A, B)[1] == '_';
  }

  /** PL holds `iL`, `oL` and one more place for each distinct name of a maximal pair. */
  lemma PlacesShape(yl: set<Pair>, name: string)
    ensures StartPlace in Places(yl) && EndPlace in Places(yl)
    ensures name in Places(yl) && name != StartPlace && name != EndPlace <==>
      exists p :: p in yl && name == PlaceName(p.0, p.1)
  {
    forall p | p in yl ensures PlaceName(p.0, p.1) != StartPlace && PlaceName(p.0, p.1) != EndPlace {
      PlaceNameFresh(p.0, p.1);
    }
  }

  /** No character of `cs` in any label of `A`. */
  predicate LabelsAvoid(A: set<Activity>, cs: set<char>)
  {
    forall a :: a in A ==> Avoids(a, cs)
  }

  /** The first `_` of `x + "_" + y` ends `x` when `x` has none. */
  lemma SplitAtFirst(x: string, y: string, x': string, y': string)
    requires Avoids(x, {'_'}) && Avoids(x', {'_'})
    requires x + "_" + y == x' + "_" + y'
    ensures x == x' && y == y'
  {
    SplitAfterPiece(x, "_", y);
    SplitAfterPiece(x', "_", y');
    var s := x + "_" + y;
    assert Split(s, "_")[0] == x && Split(s, "_")[0] == x';
    assert y == s[|x| + 1..];
    assert y' == s[|x'| + 1..];
  }

  /** The sorted list of a set whose labels avoid `cs` holds only such labels. */
  lemma SortedAvoids(A: set<Activity>, cs: set<char>)
    requires LabelsAvoid(A, cs)
    ensures forall k :: 0 <= k < |Sorted(A)| ==> Avoids(Sorted(A)[k], cs)
  {
    forall k | 0 <= k < |Sorted(A)| ensures Avoids(Sorted(A)[k], cs) {
      assert Sorted(A)[k] in Elems(Sorted(A));
    }
  }

  /** The joined, sorted labels of a non-empty set give the set back. */
  lemma JoinSortedInjective(A: set<Activity>, A': set<Activity>)
    requires A != {} && A' != {} && LabelsAvoid(A, {','}) && LabelsAvoid(A', {','})
    requires Join(",", Sorted(A)) == Join(",", Sorted(A'))
    ensures A == A'
  {
    var s, s' := Sorted(A), Sorted(A');
    assert ","[0] == ',';
    SortedAvoids(A, {','});
    SortedAvoids(A', {','});
    SplitJoin(s, ",");
    SplitJoin(s', ",");
    assert s == s';
  }

  lemma PlaceNameTail(A: set<Activity>, B: set<Activity>)
    ensures PlaceName(A, B)[2..] == Join(",", Sorted(A)) + "_" + Join(",", Sorted(B))
  {
    var j, k := Join(",", Sorted(A)), Join(",", Sorted(B));
    var t := j + "_" + k;
    assert PlaceName(A, B) == "p_" + t;
    assert ("p_" + t)[2..] == t;
  }

  lemma JoinSortedAvoids(A: set<Activity>)
    requires LabelsAvoid(A, {'_', ','})
    ensures Avoids(Join(",", Sorted(A)), {'_'})
  {
    SortedAvoids(A, {'_'});
    JoinAvoids(",", Sorted(A), {'_'});
  }

  /** When no label holds `_` or `,`, different non-empty pairs get different places. */
  lemma PlaceNameInjective(A: set<Activity>, B: set<Activity>, A': set<Activity>, B': set<Activity>)
    requires A != {} && B != {} && A' != {} && B' != {}
    requires LabelsAvoid(A, {'_', ','}) && LabelsAvoid(B, {'_', ','})
    requires LabelsAvoid(A', {'_', ','}) && LabelsAvoid(B', {'_', ','})
    requires PlaceName(A, B) == PlaceName(A', B')
    ensures A == A' && B == B'
  {
    PlaceNameTail(A, B);
    PlaceNameTail(A', B');
    JoinSortedAvoids(A);
    JoinSortedAvoids(A');
    SplitAtFirst(Join(",", Sorted(A)), Join(",", Sorted(B)), Join(",", Sorted(A')), Join(",", Sorted(B')));
    JoinSortedInjective(A, A');
    JoinSortedInjective(B, B');
  }

  /** Without that condition two maximal pairs can share a place: `({x}, {y_z})`
      and `({x_y}, {z})` are both named `p_x_y_z`. */
  lemma PlaceNameCollision()
    ensures PlaceName({"x"}, {"y_z"}) == PlaceName({"x_y"}, {"z"})
    ensures ({"x"}, {"y_z"}) != ({"x_y"}, {"z"})
  {
    SortedUnique({"x"}, ["x"]);
    SortedUnique({"y_z"}, ["y_z"]);
    SortedUnique({"x_y"}, ["x_y"]);
    SortedUnique({"z"}, ["z"]);
    assert "x" in {"x"};
  }

  // ---------------------------------------------------------------------------
  // Properties of the arcs

  /** FL arc by arc: what each kind of arc connects. */
  lemma ArcsMembership(yl: set<Pair>, ti: set<Activity>, to: set<Activity>, arc: Arc)
    ensures arc in Arcs(yl, ti, to) <==>
      (exists p :: p in yl && arc.1 == PlaceName(p.0, p.1) && arc.0 in p.0) ||
      (exists p :: p in yl && arc.0 == PlaceName(p.0, p.1) && arc.1 in p.1) ||
      (arc.0 == StartPlace && arc.1 in ti) ||
      (arc.1 == EndPlace && arc.0 in to)
  {
    if arc in PlaceArcs(yl) {
      var p :| p in yl && arc in PairArcs(p.0, p.1);
      PairArcsMembership(p.0, p.1, arc);
    }
    if exists p :: p in yl && arc.1 == PlaceName(p.0, p.1) && arc.0 in p.0 {
      var p :| p in yl && arc.1 == PlaceName(p.0, p.1) && arc.0 in p.0;
      PairArcsMembership(p.0, p.1, arc);
    }
    if exists p :: p in yl && arc.0 == PlaceName(p.0, p.1) && arc.1 in p.1 {
      var p :| p in yl && arc.0 == PlaceName(p.0, p.1) && arc.1 in p.1;
      PairArcsMembership(p.0, p.1, arc);
    }
  }

  lemma PairArcsMembership(A: set<Activity>, B: set<Activity>, arc: Arc)
    ensures arc in PairArcs(A, B) <==>
      (arc.1 == PlaceName(A, B) && arc.0 in A) || (arc.0 == PlaceName(A, B) && arc.1 in B)
  {
    if arc.1 == PlaceName(A, B) && arc.0 in A {
      assert arc == (arc.0, PlaceName(A, B));
    }
    if arc.0 == PlaceName(A, B) && arc.1 in B {
      assert arc == (PlaceName(A, B), arc.1);
    }
  }

  /** The place of a pair with non-empty sides has an arc in and an arc out. */
  lemma PlaceHasArcs(yl: set<Pair>, ti: set<Activity>, to: set<Activity>, A: set<Activity>, B: set<Activity>)
    requires (A, B) in yl && A != {} && B != {}
    ensures exists a :: (a, PlaceName(A, B)) in Arcs(yl, ti, to)
    ensures exists b :: (PlaceName(A, B), b) in Arcs(yl, ti, to)
  {
    var a :| a in A;
    var b :| b in B;
    assert (a, PlaceName(A, B)) in PairArcs(A, B);
    assert (PlaceName(A, B), b) in PairArcs(A, B);
  }

  /** The net is bipartite: every arc joins a transition and a place, and when no
      activity is called `iL` or `oL`, `iL` only ever starts an arc and `oL` only
      ever ends one. */
  lemma ArcsBipartite(yl: set<Pair>, ti: set<Activity>, to: set<Activity>, acts: set<Activity>, arc: Arc)
    requires forall p :: p in yl ==> p.0 <= acts && p.1 <= acts
    requires ti <= acts && to <= acts
    requires arc in Arcs(yl, ti, to)
    ensures (arc.0 in acts && arc.1 in Places(yl)) || (arc.0 in Places(yl) && arc.1 in acts)
    ensures StartPlace !in acts ==> arc.1 != StartPlace
    ensures EndPlace !in acts ==> arc.0 != EndPlace
  {
    ArcsMembership(yl, ti, to, arc);
    forall p | p in yl ensures PlaceName(p.0, p.1) != StartPlace && PlaceName(p.0, p.1) != EndPlace {
      PlaceNameFresh(p.0, p.1);
    }
  }
}
