/**
 The displayed relation table (`generate_table`): a square grid whose first row
 and column list every label found in the direct-succession triples, filled
 with '→L'/'←L' for the causalities, '∥L' for the parallelisms and '#L' for
 the decisions. A label that is not in the header makes `list.index` raise
 `ValueError`.
 */
module RelationTable {
  import opened Strings
  import opened EventLog
  import opened Footprint
  import opened Classify

  datatype Option<T> = None | Some(value: T)

  /** The table, or the `ValueError` raised for the first label missing from the header. */
  datatype TableResult = Table(rows: seq<seq<string>>) | ValueError(missing: string)

  /** The strings of a tuple: what `set.update(tuple)` adds. */
  function Components(t: PyTuple): set<string>
  {
    match t
    case Pair(a, b) => {a, b}
    case Triple(a, b, c) => {a, b, c}
  }

  /** Lines 248-250: every string of every triple, the `'>'` marker included. */
  function Elementos(sucesionesDirectas: set<PyTuple>): set<string>
  {
    set t, c | t in sucesionesDirectas && c in Components(t) :: c
  }

  /** The labels that the causality and parallelism loops look up. */
  function PairLabels(pairs: set<(string, string)>): set<string>
  {
    (set pr | pr in pairs :: pr.0) + (set pr | pr in pairs :: pr.1)
  }

  /** The labels that the decision loop looks up: first and third component. */
  function DecisionLabels(decisiones: set<(string, string, string)>): set<string>
  {
    (set d | d in decisiones :: d.0) + (set d | d in decisiones :: d.2)
  }

  lemma PairLabelsAdd(pairs: set<(string, string)>, p: (string, string))
    ensures PairLabels(pairs + {p}) == PairLabels(pairs) + {p.0, p.1}
  {
  }

  lemma DecisionLabelsAdd(decisiones: set<(string, string, string)>, d: (string, string, string))
    ensures DecisionLabels(decisiones + {d}) == DecisionLabels(decisiones) + {d.0, d.2}
  {
  }

  /** Python's `list.index`: the first position holding `x`, none when absent. */
  function Index(s: seq<string>, x: string): (r: Option<nat>)
    ensures r.None? <==> x !in s
    ensures r.Some? ==> r.value < |s| && s[r.value] == x && forall j :: 0 <= j < r.value ==> s[j] != x
  {
    if s == [] then None
    else if s[0] == x then Some(0)
    else
      match Index(s[1..], x)
      case None => assert s == [s[0]] + s[1..]; None
      case Some(i) => Some(i + 1)
  }

  // ---------------------------------------------------------------------------
  // The grid

  /** `m` rows of `m` cells. */
  predicate Square(t: seq<seq<string>>, m: nat)
  {
    |t| == m && forall i :: 0 <= i < m ==> |t[i]| == m
  }

  /** `tabla[r][c] = v`. */
  function Put(t: seq<seq<string>>, r: nat, c: nat, v: string): (u: seq<seq<string>>)
    requires r < |t| && c < |t[r]|
    ensures |u| == |t| && u[r] == t[r][c := v]
    ensures forall i :: 0 <= i < |t| && i != r ==> u[i] == t[i]
  {
    t[r := t[r][c := v]]
  }

  /** The empty corner, then the labels along the first row and the first column. */
  predicate Headers(t: seq<seq<string>>, elementos: seq<string>)
    requires Square(t, |elementos| + 1)
  {
    t[0][0] == "" && forall j :: 0 <= j < |elementos| ==> t[0][j + 1] == elementos[j] && t[j + 1][0] == elementos[j]
  }

  /** The values the cell of row `x`, column `y` can hold once the given sets
      have been written: a decision wins, then a parallelism, then the
      causalities. Causalities in both directions leave the cell to the order
      in which the set is visited; a causality of `x` with itself writes '→L'
      and then '←L' into the same cell. */
  function CellOptions(causalidades: set<(string, string)>, paralelismo: set<(string, string)>,
                       decisiones: set<(string, string, string)>, x: string, y: string): set<string>
  {
    if (x, y) in Decided(decisiones) then {"#L"}
    else if (x, y) in paralelismo || (y, x) in paralelismo then {Symbol(Parallel)}
    else if (x, y) in causalidades && (y, x) in causalidades then
      (if x == y then {Symbol(Inverse)} else {Symbol(Causal), Symbol(Inverse)})
    else if (x, y) in causalidades then {Symbol(Causal)}
    else if (y, x) in causalidades then {Symbol(Inverse)}
    else {""}
  }

  /** The cells the decision loop writes: first and third component of each triple. */
  function Decided(decisiones: set<(string, string, string)>): set<(string, string)>
  {
    set d | d in decisiones :: (d.0, d.2)
  }

  /** The table over `elementos` after the given sets have been written. */
  predicate IsTable(t: seq<seq<string>>, elementos: seq<string>, causalidades: set<(string, string)>,
                    paralelismo: set<(string, string)>, decisiones: set<(string, string, string)>)
  {
    Square(t, |elementos| + 1) && Headers(t, elementos) && CellsHold(t, elementos, causalidades, paralelismo, decisiones)
  }

  /** Every cell between two labels holds one of its options. */
  predicate CellsHold(t: seq<seq<string>>, elementos: seq<string>, causalidades: set<(string, string)>,
                      paralelismo: set<(string, string)>, decisiones: set<(string, string, string)>)
    requires Square(t, |elementos| + 1)
  {
    forall i, j :: 0 <= i < |elementos| && 0 <= j < |elementos| ==>
      CellHolds(t, elementos, causalidades, paralelismo, decisiones, i, j)
  }

  /** The cell between labels `i` and `j` holds one of its options. */
  predicate CellHolds(t: seq<seq<string>>, elementos: seq<string>, causalidades: set<(string, string)>,
                      paralelismo: set<(string, string)>, decisiones: set<(string, string, string)>, i: nat, j: nat)
    requires Square(t, |elementos| + 1) && i < |elementos| && j < |elementos|
  {
    t[i + 1][j + 1] in CellOptions(causalidades, paralelismo, decisiones, elementos[i], elementos[j])
  }

  /** Writing an interior cell keeps the shape and the headers. */
  lemma PutInterior(t: seq<seq<string>>, elementos: seq<string>, r: nat, c: nat, v: string)
    requires Square(t, |elementos| + 1) && Headers(t, elementos)
    requires 1 <= r <= |elementos| && 1 <= c <= |elementos|
    ensures Square(Put(t, r, c, v), |elementos| + 1) && Headers(Put(t, r, c, v), elementos)
  {
  }

  /** Writing a cell changes that cell only. */
  lemma PutCell(t: seq<seq<string>>, r: nat, c: nat, v: string, i: nat, j: nat)
    requires r < |t| && c < |t[r]| && i < |t| && j < |t[i]|
    ensures Put(t, r, c, v)[i][j] == if i == r && j == c then v else t[i][j]
  {
  }

  lemma IndexDistinct(elementos: seq<string>, i: int, k: int)
    requires Increasing(elementos) && 0 <= i < |elementos| && 0 <= k < |elementos|
    ensures elementos[i] == elementos[k] ==> i == k
  {
    if i < k {
      assert Before(elementos[i], elementos[k]);
    } else if k < i {
      assert Before(elementos[k], elementos[i]);
    }
  }

  /** No label appears twice. */
  predicate Distinct(elementos: seq<string>)
  {
    forall i, k :: 0 <= i < |elementos| && 0 <= k < |elementos| && i != k ==> elementos[i] != elementos[k]
  }

  lemma IncreasingDistinct(elementos: seq<string>)
    requires Increasing(elementos)
    ensures Distinct(elementos)
  {
    forall i, k | 0 <= i < |elementos| && 0 <= k < |elementos| && i != k
      ensures elementos[i] != elementos[k]
    {
      IndexDistinct(elementos, i, k);
    }
  }

  // ---------------------------------------------------------------------------
  // The method, loop by loop

  /** Lines 247-251. */
  method CollectElements(sucesionesDirectas: set<PyTuple>) returns (elementos: seq<string>)
    ensures elementos == Sorted(Elementos(sucesionesDirectas))
  {
    var found: set<string> := {};
    var todo := sucesionesDirectas;
    while todo != {}
      invariant todo <= sucesionesDirectas
      invariant found == Elementos(sucesionesDirectas - todo)
      decreases |todo|
    {
      var sucesion :| sucesion in todo;
      found := found + Components(sucesion);
      todo := todo - {sucesion};
    }
    assert sucesionesDirectas - todo == sucesionesDirectas;
    elementos := Sorted(found);
  }

  /** Lines 254-259: the empty grid and its headers. */
  method NewTable(elementos: seq<string>) returns (tabla: seq<seq<string>>)
    ensures IsTable(tabla, elementos, {}, {}, {})
  {
    var m := |elementos| + 1;
    tabla := seq(m, _ => seq(m, _ => ""));
    var i := 0;
    while i < |elementos|
      invariant 0 <= i <= |elementos|
      invariant Square(tabla, m) && tabla[0][0] == ""
      invariant forall j :: 0 <= j < i ==> tabla[0][j + 1] == elementos[j] && tabla[j + 1][0] == elementos[j]
      invariant forall r, c :: 0 <= r < m && 0 <= c < m && (r == 0 ==> c > i) && (c == 0 ==> r > i) ==> tabla[r][c] == ""
    {
      tabla := Put(tabla, 0, i + 1, elementos[i]);
      tabla := Put(tabla, i + 1, 0, elementos[i]);
      i := i + 1;
    }
  }

  /** One cell after a causality `c`, found at positions `a` and `b`, is written. */
  lemma CausalCell(t: seq<seq<string>>, t1: seq<seq<string>>, u: seq<seq<string>>, elementos: seq<string>,
                   done: set<(string, string)>, c: (string, string), a: nat, b: nat, i: nat, j: nat)
    requires Distinct(elementos) && a < |elementos| && b < |elementos| && i < |elementos| && j < |elementos|
    requires elementos[a] == c.0 && elementos[b] == c.1
    requires Square(t, |elementos| + 1) && Square(u, |elementos| + 1) && CellHolds(t, elementos, done, {}, {}, i, j)
    requires t1 == Put(t, a + 1, b + 1, Symbol(Causal)) && u == Put(t1, b + 1, a + 1, Symbol(Inverse))
    ensures CellHolds(u, elementos, done + {c}, {}, {}, i, j)
  {
    PutCell(t, a + 1, b + 1, Symbol(Causal), i + 1, j + 1);
    PutCell(t1, b + 1, a + 1, Symbol(Inverse), i + 1, j + 1);
    var x, y := elementos[i], elementos[j];
    if i == b && j == a {
      assert (y, x) == c;
    } else if i == a && j == b {
      assert (x, y) == c && x != y;
    } else {
      assert (x, y) != c && (y, x) != c;
    }
  }

  lemma CausalWrite(t: seq<seq<string>>, u: seq<seq<string>>, elementos: seq<string>, done: set<(string, string)>,
                    written: set<(string, string)>, c: (string, string), a: nat, b: nat)
    requires Distinct(elementos) && IsTable(t, elementos, done, {}, {})
    requires a < |elementos| && b < |elementos| && elementos[a] == c.0 && elementos[b] == c.1
    requires u == Put(Put(t, a + 1, b + 1, Symbol(Causal)), b + 1, a + 1, Symbol(Inverse))
    requires written == done + {c}
    ensures IsTable(u, elementos, written, {}, {})
  {
    var t1 := Put(t, a + 1, b + 1, Symbol(Causal));
    PutInterior(t, elementos, a + 1, b + 1, Symbol(Causal));
    PutInterior(t1, elementos, b + 1, a + 1, Symbol(Inverse));
    forall i, j | 0 <= i < |elementos| && 0 <= j < |elementos|
      ensures CellHolds(u, elementos, written, {}, {}, i, j)
    {
      assert CellHolds(t, elementos, done, {}, {}, i, j);
      CausalCell(t, t1, u, elementos, done, c, a, b, i, j);
    }
  }

  /** One pass of the loop at lines 262-264: look up both labels of `c`, then
      write '→L' at (first, second) and '←L' at (second, first). */
  method WriteCausality(t: seq<seq<string>>, elementos: seq<string>, done: set<(string, string)>, c: (string, string))
    returns (r: TableResult)
    requires Increasing(elementos) && IsTable(t, elementos, done, {}, {})
    ensures r.ValueError? <==> c.0 !in elementos || c.1 !in elementos
    ensures r.ValueError? ==> r.missing == if c.0 !in elementos then c.0 else c.1
    ensures r.Table? ==> IsTable(r.rows, elementos, done + {c}, {}, {})
  {
    var first := Index(elementos, c.0);
    if first.None? {
      return ValueError(c.0);
    }
    var second := Index(elementos, c.1);
    if second.None? {
      return ValueError(c.1);
    }
    var (a, b) := (first.value + 1, second.value + 1);
    assert a < |t| && b < |t| && |t[a]| == |t| && |t[b]| == |t|;
    var u := Put(t, a, b, Symbol(Causal));
    u := Put(u, b, a, Symbol(Inverse));
    IncreasingDistinct(elementos);
    CausalWrite(t, u, elementos, done, done + {c}, c, first.value, second.value);
    r := Table(u);
  }

  /** Lines 262-264: '→L' and '←L' for each causality. */
  method WriteCausalities(tabla: seq<seq<string>>, elementos: seq<string>, causalidades: set<(string, string)>)
    returns (r: TableResult)
    requires Increasing(elementos) && IsTable(tabla, elementos, {}, {}, {})
    ensures r.ValueError? <==> !(PairLabels(causalidades) <= Elems(elementos))
    ensures r.ValueError? ==> r.missing in PairLabels(causalidades) && r.missing !in elementos
    ensures r.Table? ==> IsTable(r.rows, elementos, causalidades, {}, {})
  {
    var t := tabla;
    var todo := causalidades;
    var done: set<(string, string)> := {};
    while todo != {}
      invariant done + todo == causalidades
      invariant PairLabels(done) <= Elems(elementos)
      invariant IsTable(t, elementos, done, {}, {})
      decreases |todo|
    {
      var causalidad :| causalidad in todo;
      var step := WriteCausality(t, elementos, done, causalidad);
      if step.ValueError? {
        assert step.missing in PairLabels(causalidades);
        return step;
      }
      PairLabelsAdd(done, causalidad);
      t := step.rows;
      done := done + {causalidad};
      todo := todo - {causalidad};
    }
    r := Table(t);
  }

  /** One cell after a parallelism `p`, found at positions `a` and `b`, is written. */
  lemma ParallelCell(t: seq<seq<string>>, t1: seq<seq<string>>, u: seq<seq<string>>, elementos: seq<string>,
                     causalidades: set<(string, string)>, done: set<(string, string)>,
                     p: (string, string), a: nat, b: nat, i: nat, j: nat)
    requires Distinct(elementos) && a < |elementos| && b < |elementos| && i < |elementos| && j < |elementos|
    requires elementos[a] == p.0 && elementos[b] == p.1
    requires Square(t, |elementos| + 1) && Square(u, |elementos| + 1) && CellHolds(t, elementos, causalidades, done, {}, i, j)
    requires t1 == Put(t, a + 1, b + 1, Symbol(Parallel)) && u == Put(t1, b + 1, a + 1, Symbol(Parallel))
    ensures CellHolds(u, elementos, causalidades, done + {p}, {}, i, j)
  {
    PutCell(t, a + 1, b + 1, Symbol(Parallel), i + 1, j + 1);
    PutCell(t1, b + 1, a + 1, Symbol(Parallel), i + 1, j + 1);
    var x, y := elementos[i], elementos[j];
    if (i == b && j == a) || (i == a && j == b) {
      assert (x, y) == p || (y, x) == p;
    } else {
      assert (x, y) != p && (y, x) != p;
    }
  }

  lemma ParallelWrite(t: seq<seq<string>>, u: seq<seq<string>>, elementos: seq<string>,
                      causalidades: set<(string, string)>, done: set<(string, string)>,
                      written: set<(string, string)>, p: (string, string), a: nat, b: nat)
    requires Distinct(elementos) && IsTable(t, elementos, causalidades, done, {})
    requires a < |elementos| && b < |elementos| && elementos[a] == p.0 && elementos[b] == p.1
    requires u == Put(Put(t, a + 1, b + 1, Symbol(Parallel)), b + 1, a + 1, Symbol(Parallel))
    requires written == done + {p}
    ensures IsTable(u, elementos, causalidades, written, {})
  {
    var t1 := Put(t, a + 1, b + 1, Symbol(Parallel));
    PutInterior(t, elementos, a + 1, b + 1, Symbol(Parallel));
    PutInterior(t1, elementos, b + 1, a + 1, Symbol(Parallel));
    forall i, j | 0 <= i < |elementos| && 0 <= j < |elementos|
      ensures CellHolds(u, elementos, causalidades, written, {}, i, j)
    {
      assert CellHolds(t, elementos, causalidades, done, {}, i, j);
      ParallelCell(t, t1, u, elementos, causalidades, done, p, a, b, i, j);
    }
  }

  /** One pass of the loop at lines 266-268: look up both labels of `p`, then
      write '∥L' at (first, second) and at (second, first). */
  method WriteParallel(t: seq<seq<string>>, elementos: seq<string>, causalidades: set<(string, string)>,
                       done: set<(string, string)>, p: (string, string))
    returns (r: TableResult)
    requires Increasing(elementos) && IsTable(t, elementos, causalidades, done, {})
    ensures r.ValueError? <==> p.0 !in elementos || p.1 !in elementos
    ensures r.ValueError? ==> r.missing == if p.0 !in elementos then p.0 else p.1
    ensures r.Table? ==> IsTable(r.rows, elementos, causalidades, done + {p}, {})
  {
    var first := Index(elementos, p.0);
    if first.None? {
      return ValueError(p.0);
    }
    var second := Index(elementos, p.1);
    if second.None? {
      return ValueError(p.1);
    }
    var (a, b) := (first.value + 1, second.value + 1);
    assert a < |t| && b < |t| && |t[a]| == |t| && |t[b]| == |t|;
    var u := Put(t, a, b, Symbol(Parallel));
    u := Put(u, b, a, Symbol(Parallel));
    IncreasingDistinct(elementos);
    ParallelWrite(t, u, elementos, causalidades, done, done + {p}, p, first.value, second.value);
    r := Table(u);
  }

  /** Lines 266-268: '∥L' both ways for each parallelism. */
  method WriteParallelisms(tabla: seq<seq<string>>, elementos: seq<string>, causalidades: set<(string, string)>,
                           paralelismo: set<(string, string)>)
    returns (r: TableResult)
    requires Increasing(elementos) && IsTable(tabla, elementos, causalidades, {}, {})
    ensures r.ValueError? <==> !(PairLabels(paralelismo) <= Elems(elementos))
    ensures r.ValueError? ==> r.missing in PairLabels(paralelismo) && r.missing !in elementos
    ensures r.Table? ==> IsTable(r.rows, elementos, causalidades, paralelismo, {})
  {
    var t := tabla;
    var todo := paralelismo;
    var done: set<(string, string)> := {};
    while todo != {}
      invariant done + todo == paralelismo
      invariant PairLabels(done) <= Elems(elementos)
      invariant IsTable(t, elementos, causalidades, done, {})
      decreases |todo|
    {
      var paralelo :| paralelo in todo;
      var step := WriteParallel(t, elementos, causalidades, done, paralelo);
      if step.ValueError? {
        assert step.missing in PairLabels(paralelismo);
        return step;
      }
      PairLabelsAdd(done, paralelo);
      t := step.rows;
      done := done + {paralelo};
      todo := todo - {paralelo};
    }
    r := Table(t);
  }

  /** One cell after a decision `d`, found at positions `a` and `b`, is written. */
  lemma DecisionCell(t: seq<seq<string>>, u: seq<seq<string>>, elementos: seq<string>,
                     causalidades: set<(string, string)>, paralelismo: set<(string, string)>,
                     done: set<(string, string, string)>, d: (string, string, string), a: nat, b: nat, i: nat, j: nat)
    requires Distinct(elementos) && a < |elementos| && b < |elementos| && i < |elementos| && j < |elementos|
    requires elementos[a] == d.0 && elementos[b] == d.2
    requires Square(t, |elementos| + 1) && Square(u, |elementos| + 1)
    requires CellHolds(t, elementos, causalidades, paralelismo, done, i, j)
    requires u == Put(t, a + 1, b + 1, "#L")
    ensures CellHolds(u, elementos, causalidades, paralelismo, done + {d}, i, j)
  {
    PutCell(t, a + 1, b + 1, "#L", i + 1, j + 1);
    var x, y := elementos[i], elementos[j];
    assert Decided(done + {d}) == Decided(done) + {(d.0, d.2)};
    if !(i == a && j == b) {
      assert (x, y) != (d.0, d.2);
    }
  }

  lemma DecisionWrite(t: seq<seq<string>>, u: seq<seq<string>>, elementos: seq<string>,
                      causalidades: set<(string, string)>, paralelismo: set<(string, string)>,
                      done: set<(string, string, string)>, written: set<(string, string, string)>,
                      d: (string, string, string), a: nat, b: nat)
    requires Distinct(elementos) && IsTable(t, elementos, causalidades, paralelismo, done)
    requires a < |elementos| && b < |elementos| && elementos[a] == d.0 && elementos[b] == d.2
    requires u == Put(t, a + 1, b + 1, "#L")
    requires written == done + {d}
    ensures IsTable(u, elementos, causalidades, paralelismo, written)
  {
    PutInterior(t, elementos, a + 1, b + 1, "#L");
    forall i, j | 0 <= i < |elementos| && 0 <= j < |elementos|
      ensures CellHolds(u, elementos, causalidades, paralelismo, written, i, j)
    {
      assert CellHolds(t, elementos, causalidades, paralelismo, done, i, j);
      DecisionCell(t, u, elementos, causalidades, paralelismo, done, d, a, b, i, j);
    }
  }

  /** One pass of the loop at lines 270-271: look up the first and third
      component of `d`, then write '#L' at (first, third). */
  method WriteDecision(t: seq<seq<string>>, elementos: seq<string>, causalidades: set<(string, string)>,
                       paralelismo: set<(string, string)>, done: set<(string, string, string)>,
                       d: (string, string, string))
    returns (r: TableResult)
    requires Increasing(elementos) && IsTable(t, elementos, causalidades, paralelismo, done)
    ensures r.ValueError? <==> d.0 !in elementos || d.2 !in elementos
    ensures r.ValueError? ==> r.missing == if d.0 !in elementos then d.0 else d.2
    ensures r.Table? ==> IsTable(r.rows, elementos, causalidades, paralelismo, done + {d})
  {
    var first := Index(elementos, d.0);
    if first.None? {
      return ValueError(d.0);
    }
    var second := Index(elementos, d.2);
    if second.None? {
      return ValueError(d.2);
    }
    var (a, b) := (first.value + 1, second.value + 1);
    assert a < |t| && b < |t| && |t[a]| == |t|;
    var u := Put(t, a, b, "#L");
    IncreasingDistinct(elementos);
    DecisionWrite(t, u, elementos, causalidades, paralelismo, done, done + {d}, d, first.value, second.value);
    r := Table(u);
  }

  /** Lines 270-271: '#L' for each decision, in one direction only. */
  method WriteDecisions(tabla: seq<seq<string>>, elementos: seq<string>, causalidades: set<(string, string)>,
                        paralelismo: set<(string, string)>, decisiones: set<(string, string, string)>)
    returns (r: TableResult)
    requires Increasing(elementos) && IsTable(tabla, elementos, causalidades, paralelismo, {})
    ensures r.ValueError? <==> !(DecisionLabels(decisiones) <= Elems(elementos))
    ensures r.ValueError? ==> r.missing in DecisionLabels(decisiones) && r.missing !in elementos
    ensures r.Table? ==> IsTable(r.rows, elementos, causalidades, paralelismo, decisiones)
  {
    var t := tabla;
    var todo := decisiones;
    var done: set<(string, string, string)> := {};
    while todo != {}
      invariant done + todo == decisiones
      invariant DecisionLabels(done) <= Elems(elementos)
      invariant IsTable(t, elementos, causalidades, paralelismo, done)
      decreases |todo|
    {
      var decision :| decision in todo;
      var step := WriteDecision(t, elementos, causalidades, paralelismo, done, decision);
      if step.ValueError? {
        assert step.missing in DecisionLabels(decisiones);
        return step;
      }
      DecisionLabelsAdd(done, decision);
      t := step.rows;
      done := done + {decision};
      todo := todo - {decision};
    }
    r := Table(t);
  }

  /** Every label some loop looks up. */
  function LookedUp(causalidades: set<(string, string)>, paralelismo: set<(string, string)>,
                    decisiones: set<(string, string, string)>): set<string>
  {
    PairLabels(causalidades) + PairLabels(paralelismo) + DecisionLabels(decisiones)
  }

  /** `generate_table`: fails with `ValueError` exactly when some looked-up label
      is missing from the header; otherwise every cell holds what the sets say. */
  method GenerateTable(sucesionesDirectas: set<PyTuple>, causalidades: set<(string, string)>,
                       paralelismo: set<(string, string)>, decisiones: set<(string, string, string)>)
    returns (r: TableResult)
    ensures r.ValueError? <==> !(LookedUp(causalidades, paralelismo, decisiones) <= Elementos(sucesionesDirectas))
    ensures r.ValueError? ==>
      r.missing in LookedUp(causalidades, paralelismo, decisiones) && r.missing !in Elementos(sucesionesDirectas)
    ensures r.Table? ==> IsTable(r.rows, Sorted(Elementos(sucesionesDirectas)), causalidades, paralelismo, decisiones)
  {
    var elementos := CollectElements(sucesionesDirectas);
    var tabla := NewTable(elementos);
    r := WriteCausalities(tabla, elementos, causalidades);
    if r.ValueError? {
      return;
    }
    r := WriteParallelisms(r.rows, elementos, causalidades, paralelismo);
    if r.ValueError? {
      return;
    }
    r := WriteDecisions(r.rows, elementos, causalidades, paralelismo, decisiones);
  }

  // ---------------------------------------------------------------------------
  // The table of a classified log

  /** The header holds every label of a direct succession, plus the `'>'` marker
      as soon as there is one succession. */
  lemma ElementosOfLog(log: Log)
    ensures Elementos(SuccessionTriples(log)) ==
      PairLabels(DirectSuccessions(log)) + (if DirectSuccessions(log) == {} then {} else {">"})
  {
    var s3 := SuccessionTriples(log);
    var succ := DirectSuccessions(log);
    forall x | x in Elementos(s3)
      ensures x in PairLabels(succ) + (if succ == {} then {} else {">"})
    {
      var t, c :| t in s3 && c in Components(t) && x == c;
      var pr :| pr in succ && t == Triple(pr.0, ">", pr.1);
    }
    forall x | x in PairLabels(succ) + (if succ == {} then {} else {">"})
      ensures x in Elementos(s3)
    {
      if x in PairLabels(succ) {
        var pr :| pr in succ && (x == pr.0 || x == pr.1);
        assert Triple(pr.0, ">", pr.1) in s3;
        assert x in Components(Triple(pr.0, ">", pr.1));
      } else {
        var pr :| pr in succ;
        assert Triple(pr.0, ">", pr.1) in s3;
        assert x in Components(Triple(pr.0, ">", pr.1));
      }
    }
  }

  /** For a classified log the loops look up exactly the activities. */
  lemma LookedUpIsActivities(log: Log)
    ensures var rel := Classification(log);
      LookedUp(rel.causalidades, rel.paralelismo, rel.decisiones) == Activities(log)
  {
    var rel := Classification(log);
    forall x | x in PairLabels(rel.causalidades) + PairLabels(rel.paralelismo)
      ensures x in Activities(log)
    {
      var pr :| (pr in rel.causalidades || pr in rel.paralelismo) && (x == pr.0 || x == pr.1);
      CausalSetsWithinSuccessions(log, pr.0, pr.1);
      DirectSuccessionsWithin(log, pr.0, pr.1);
    }
    forall x | x in DecisionLabels(rel.decisiones) ensures x in Activities(log) {
      var d :| d in rel.decisiones && (x == d.0 || x == d.2);
    }
    forall x | x in Activities(log) ensures x in DecisionLabels(rel.decisiones) {
      assert (x, "#", x) in rel.decisiones;
    }
  }

  /** The displayed table of a log fails exactly when some activity is missing
      from its header: it takes part in no direct succession, and it is not the
      marker `'>'` of a log that has a succession. */
  lemma ClassifiedTableFails(log: Log)
    ensures var rel := Classification(log);
      !(LookedUp(rel.causalidades, rel.paralelismo, rel.decisiones) <= Elementos(rel.sucesionesDirectas)) <==>
      exists a :: a in Activities(log) && a !in Elementos(SuccessionTriples(log))
  {
    LookedUpIsActivities(log);
  }

  lemma DecidedOfLog(log: Log, x: Activity, y: Activity)
    ensures (x, y) in Decided(Decisions(log)) <==> (x, "#", y) in Decisions(log)
  {
    if (x, y) in Decided(Decisions(log)) {
      var d :| d in Decisions(log) && (d.0, d.2) == (x, y);
      assert d.1 == "#";
      assert d == (x, "#", y);
    }
  }

  /** Over the activities, the cells of the displayed table are those of the
      relation matrix, except that the diagonal always reads '#L'. */
  lemma ClassifiedCells(log: Log, x: Activity, y: Activity)
    requires x in Activities(log) && y in Activities(log)
    ensures (x, y) in RelationMatrix(log)
    ensures var rel := Classification(log);
      CellOptions(rel.causalidades, rel.paralelismo, rel.decisiones, x, y) ==
      {if x == y then "#L" else Symbol(RelationMatrix(log)[(x, y)])}
  {
    RelationMatrixExact(log, x, y);
    DecisionsExact(log, x, y);
    DecidedOfLog(log, x, y);
    CausalSetsWithinSuccessions(log, x, y);
    CausalSetsWithinSuccessions(log, y, x);
    DirectSuccessionsWitnessed(log, x, y);
    DirectSuccessionsWitnessed(log, y, x);
    if x != y {
      ParallelExact(log, x, y);
      ParallelExact(log, y, x);
      if Follows(log, x, y) && !Follows(log, y, x) {
        OneWayIsCausal(log, x, y);
      }
      if Follows(log, y, x) && !Follows(log, x, y) {
        OneWayIsCausal(log, y, x);
      }
    }
  }

  /** Whenever the displayed table of a log exists, each of its cells between two
      activities holds the relation matrix's symbol, and '#L' on the diagonal. */
  lemma TableAgreesWithMatrix(log: Log, t: seq<seq<string>>, i: nat, j: nat)
    requires var rel := Classification(log);
      IsTable(t, Sorted(Elementos(rel.sucesionesDirectas)), rel.causalidades, rel.paralelismo, rel.decisiones)
    requires var e := Sorted(Elementos(SuccessionTriples(log)));
      i < |e| && j < |e| && e[i] in Activities(log) && e[j] in Activities(log)
    ensures var e := Sorted(Elementos(SuccessionTriples(log)));
      (e[i], e[j]) in RelationMatrix(log) &&
      t[i + 1][j + 1] == if i == j then "#L" else Symbol(RelationMatrix(log)[(e[i], e[j])])
  {
    var e := Sorted(Elementos(SuccessionTriples(log)));
    var rel := Classification(log);
    assert CellHolds(t, e, rel.causalidades, rel.paralelismo, rel.decisiones, i, j);
    ClassifiedCells(log, e[i], e[j]);
    IndexDistinct(e, i, j);
  }

  // ---------------------------------------------------------------------------
  // The quirks of the displayed table

  /** The header shows the `'>'` marker of the triples as if it were an activity:
      for `<a,b>` the first row reads `'', '>', 'a', 'b'`. */
  lemma HeaderShowsMarker()
    ensures Sorted(Elementos(SuccessionTriples([["a", "b"]]))) == [">", "a", "b"]
  {
    var log: Log := [["a", "b"]];
    assert log[..0] == [];
    assert Adjacencies(log) == [("a", "b")];
    assert DirectSuccessions(log) == {("a", "b")};
    assert PairLabels({("a", "b")}) == {"a", "b"} by {
      assert "a" in PairLabels({("a", "b")}) && "b" in PairLabels({("a", "b")});
    }
    ElementosOfLog(log);
    assert Elementos(SuccessionTriples(log)) == {">", "a", "b"};
    assert Increasing([">", "a", "b"]) by {
      assert Before(">", "a") && Before(">", "b") && Before("a", "b");
    }
    SortedUnique({">", "a", "b"}, [">", "a", "b"]);
  }

  /** `<a,b>,<c>` has an activity with no direct succession, so `generate_table`
      raises `ValueError` and no net is produced for it. */
  lemma LoneActivityFails()
    ensures "c" in Activities([["a", "b"], ["c"]])
    ensures "c" !in Elementos(SuccessionTriples([["a", "b"], ["c"]]))
    ensures var rel := Classification([["a", "b"], ["c"]]);
      !(LookedUp(rel.causalidades, rel.paralelismo, rel.decisiones) <= Elementos(rel.sucesionesDirectas))
  {
    var log: Log := [["a", "b"], ["c"]];
    assert log[1][0] == "c";
    assert log[..1] == [["a", "b"]] && log[..1][..0] == [];
    assert Adjacencies(log) == [("a", "b")];
    assert DirectSuccessions(log) == {("a", "b")};
    ElementosOfLog(log);
    assert PairLabels({("a", "b")}) == {"a", "b"} by {
      assert "a" in PairLabels({("a", "b")}) && "b" in PairLabels({("a", "b")});
    }
    ClassifiedTableFails(log);
  }

  // ---------------------------------------------------------------------------
  // The corrected table

  /** The table the display evidently means: one row and one column per
      activity of TL, the relation matrix's symbol off the diagonal and '#L' on it. */
  function CorrectedTable(log: Log): seq<seq<string>>
  {
    CorrectedGrid(log, Transitions(log))
  }

  /** The corrected table over the header `tl`. */
  function CorrectedGrid(log: Log, tl: seq<Activity>): (t: seq<seq<string>>)
    ensures Square(t, |tl| + 1) && Headers(t, tl)
    ensures forall r, c :: 1 <= r <= |tl| && 1 <= c <= |tl| ==>
      t[r][c] == if r == c then "#L" else CorrectedCell(log, tl[r - 1], tl[c - 1])
  {
    seq(|tl| + 1, r requires 0 <= r <= |tl| => CorrectedRow(log, tl, r))
  }

  /** Row `r` of the corrected table: its label, then one cell per activity. */
  function CorrectedRow(log: Log, tl: seq<Activity>, r: nat): (row: seq<string>)
    requires r <= |tl|
    ensures |row| == |tl| + 1
    ensures row[0] == if r == 0 then "" else tl[r - 1]
    ensures forall c :: 1 <= c <= |tl| ==>
      row[c] == if r == 0 then tl[c - 1] else if r == c then "#L" else CorrectedCell(log, tl[r - 1], tl[c - 1])
  {
    [if r == 0 then "" else tl[r - 1]] +
    seq(|tl|, c requires 0 <= c < |tl| =>
      if r == 0 then tl[c] else if r == c + 1 then "#L" else CorrectedCell(log, tl[r - 1], tl[c]))
  }

  function CorrectedCell(log: Log, x: Activity, y: Activity): string
  {
    var pr := (x, y);
    if pr in RelationMatrix(log) then Symbol(RelationMatrix(log)[pr]) else ""
  }

  /** Every cell of the corrected table between two activities reads what the
      log says about them. */
  lemma CorrectedTableCells(log: Log, i: nat, j: nat)
    requires i < |Transitions(log)| && j < |Transitions(log)|
    ensures var x, y := Transitions(log)[i], Transitions(log)[j];
      var cell := CorrectedTable(log)[i + 1][j + 1];
      (i == j ==> cell == "#L") &&
      (i != j ==>
        (cell == Symbol(Parallel) <==> Follows(log, x, y) && Follows(log, y, x)) &&
        (cell == Symbol(Causal) <==> Follows(log, x, y) && !Follows(log, y, x)) &&
        (cell == Symbol(Inverse) <==> !Follows(log, x, y) && Follows(log, y, x)) &&
        (cell == "#L" <==> !Follows(log, x, y) && !Follows(log, y, x)))
  {
    var tl := Transitions(log);
    assert tl[i] in Elems(tl) && tl[j] in Elems(tl);
    RelationMatrixExact(log, tl[i], tl[j]);
  }

  /** A cell of the corrected table between two activities of TL. */
  lemma CorrectedCellOf(log: Log, i: nat, j: nat)
    requires i < |Transitions(log)| && j < |Transitions(log)|
    ensures var x, y := Transitions(log)[i], Transitions(log)[j];
      (x, y) in RelationMatrix(log) &&
      CorrectedTable(log)[i + 1][j + 1] == if x == y then "#L" else Symbol(RelationMatrix(log)[(x, y)])
  {
    var tl := Transitions(log);
    assert tl[i] in Elems(tl) && tl[j] in Elems(tl);
    RelationMatrixExact(log, tl[i], tl[j]);
    IndexDistinct(tl, i, j);
    var c := CorrectedGrid(log, tl);
    assert c[i + 1][j + 1] == if i == j then "#L" else CorrectedCell(log, tl[i], tl[j]);
  }

  /** Wherever the displayed table exists, its activity cells are those of the
      corrected table. */
  lemma CorrectedAgreesWithDisplayed(log: Log, t: seq<seq<string>>, i: nat, j: nat)
    requires var rel := Classification(log);
      IsTable(t, Sorted(Elementos(rel.sucesionesDirectas)), rel.causalidades, rel.paralelismo, rel.decisiones)
    requires var e := Sorted(Elementos(SuccessionTriples(log)));
      i < |e| && j < |e| && e[i] in Activities(log) && e[j] in Activities(log)
    ensures var e := Sorted(Elementos(SuccessionTriples(log)));
      exists i', j' :: 0 <= i' < |Transitions(log)| && 0 <= j' < |Transitions(log)| &&
        Transitions(log)[i'] == e[i] && Transitions(log)[j'] == e[j] &&
        t[i + 1][j + 1] == CorrectedTable(log)[i' + 1][j' + 1]
  {
    var e := Sorted(Elementos(SuccessionTriples(log)));
    var tl := Transitions(log);
    TableAgreesWithMatrix(log, t, i, j);
    IndexDistinct(e, i, j);
    assert e[i] in Elems(tl) && e[j] in Elems(tl);
    var i' :| 0 <= i' < |tl| && tl[i'] == e[i];
    var j' :| 0 <= j' < |tl| && tl[j'] == e[j];
    CorrectedCellOf(log, i', j');
  }
}
