/**
 The computational core of `procesar_input`: parse the typed log, build the
 relation table, then TL, TI, TO and the α-algorithm's XL, YL, PL and FL.
 As written, the table is built first, so its `ValueError` ends the run before
 any of the net is computed; the corrected pipeline builds the corrected table
 instead and always reaches the net.
 */
module Alpha {
  import opened Strings
  import opened EventLog
  import opened Candidates
  import opened Maximal
  import opened PetriNet
  import opened Classify
  import opened RelationTable

  /** Everything the run computes before it draws the net. */
  datatype Mined = Mined(tabla: seq<seq<string>>, tl: seq<Activity>, ti: set<Activity>, to: set<Activity>,
                         xl: set<Pair>, yl: set<Pair>, pl: set<string>, fl: set<Arc>)

  /** The run's outcome: the mined net, or the `ValueError` that the catch-all
      handler turns into an error message. */
  datatype Outcome = Net(mined: Mined) | Failed(missing: string)

  /** TL, TI, TO, XL, YL, PL and FL of `m` are those of the α-algorithm on `log`. */
  ghost predicate MinedFrom(log: Log, m: Mined)
    requires NonEmptyTraces(log)
  {
    m.tl == Transitions(log) && m.ti == InitialTransitions(log) && m.to == FinalTransitions(log) &&
    (forall A, B :: (A, B) in m.xl <==> IsCandidate(DirectSuccessions(log), Activities(log), A, B)) &&
    m.yl == MaximalPairs(m.xl) && m.pl == Places(m.yl) && m.fl == Arcs(m.yl, m.ti, m.to)
  }

  /** Lines 306-314, after the table: the sets of the α-algorithm. */
  method MineNet(log: Log, tabla: seq<seq<string>>) returns (m: Mined)
    requires NonEmptyTraces(log)
    ensures m.tabla == tabla && MinedFrom(log, m)
  {
    var tl := Transitions(log);
    var ti := InitialTransitions(log);
    var to := FinalTransitions(log);
    var xl := ComputeXL(log);
    var yl := ComputeYL(xl);
    var pl := ComputePL(yl, ti, to);
    var fl := ComputeFL(yl, ti, to);
    m := Mined(tabla, tl, ti, to, xl, yl, pl, fl);
  }

  /** `procesar_input` as written (lines 298-314): the relation table of
      `classify_relations` and `generate_table` comes first, and it fails
      exactly when some activity is missing from the table's header. */
  method ProcessInput(input: string) returns (r: Outcome)
    ensures var log := ParseLog(input);
      r.Failed? <==> exists a :: a in Activities(log) && a !in Elementos(SuccessionTriples(log))
    ensures var log := ParseLog(input);
      r.Failed? ==> r.missing in Activities(log) && r.missing !in Elementos(SuccessionTriples(log))
    ensures var log := ParseLog(input); var rel := Classification(log);
      r.Net? ==>
        MinedFrom(log, r.mined) &&
        IsTable(r.mined.tabla, Sorted(Elementos(rel.sucesionesDirectas)), rel.causalidades, rel.paralelismo, rel.decisiones)
  {
    var log := ParseLog(input);
    var relations := ClassifyRelations(log);
    var table := GenerateTable(relations.sucesionesDirectas, relations.causalidades,
                               relations.paralelismo, relations.decisiones);
    ClassifiedTableFails(log);
    LookedUpIsActivities(log);
    if table.ValueError? {
      return Failed(table.missing);
    }
    var m := MineNet(log, table.rows);
    r := Net(m);
  }

  /** `procesar_input` with the corrected table: it never fails, and the table
      shows one row and one column per activity with the relation matrix's symbols. */
  method ProcessInputCorrected(input: string) returns (m: Mined)
    ensures var log := ParseLog(input);
      MinedFrom(log, m) && m.tabla == CorrectedTable(log)
  {
    var log := ParseLog(input);
    m := MineNet(log, CorrectedTable(log));
  }

  // ---------------------------------------------------------------------------
  // The mined net

  /** The net of any log is well formed: TI and TO lie in TL, every pair of YL has
      non-empty, disjoint sides and a place of its own in PL with an arc in and
      an arc out, and every arc joins a transition of TL and a place of PL. */
  lemma MinedNetShape(log: Log, m: Mined)
    requires NonEmptyTraces(log) && MinedFrom(log, m)
    ensures m.ti <= Elems(m.tl) && m.to <= Elems(m.tl)
    ensures StartPlace in m.pl && EndPlace in m.pl
    ensures forall p :: p in m.yl ==>
      p.0 != {} && p.1 != {} && p.0 * p.1 == {} && PlaceName(p.0, p.1) in m.pl &&
      (exists a :: (a, PlaceName(p.0, p.1)) in m.fl) && (exists b :: (PlaceName(p.0, p.1), b) in m.fl)
    ensures forall arc :: arc in m.fl ==>
      (arc.0 in Elems(m.tl) && arc.1 in m.pl) || (arc.0 in m.pl && arc.1 in Elems(m.tl))
  {
    var acts := Activities(log);
    var succ := DirectSuccessions(log);
    forall p | p in m.yl
      ensures p.0 != {} && p.1 != {} && p.0 <= acts && p.1 <= acts && p.0 * p.1 == {}
      ensures (exists a :: (a, PlaceName(p.0, p.1)) in m.fl) && (exists b :: (PlaceName(p.0, p.1), b) in m.fl)
    {
      MaximalPairsMembership(m.xl, p);
      assert p == (p.0, p.1);
      assert IsCandidate(succ, acts, p.0, p.1);
      CandidateDisjoint(succ, acts, p.0, p.1);
      PlaceHasArcs(m.yl, m.ti, m.to, p.0, p.1);
    }
    forall arc | arc in m.fl
      ensures (arc.0 in acts && arc.1 in m.pl) || (arc.0 in m.pl && arc.1 in acts)
    {
      ArcsBipartite(m.yl, m.ti, m.to, acts, arc);
    }
    PlacesShape(m.yl, StartPlace);
  }
}
