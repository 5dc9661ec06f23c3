/**
 The event log: traces of activity labels, read from the textual form
 `<a,b,c>,<a,c,b>`, with the transition sets TL, TI and TO taken from it and
 the direct successions (an activity immediately followed by another) that
 every later step starts from.
 */
module EventLog {
  import opened Strings

  type Activity = string
  type Trace = seq<Activity>
  type Log = seq<Trace>

  /** The characters that delimit a trace in the textual form. */
  const Brackets: set<char> := {'<', '>'}

  /** Every label in the log: `{event for sequence in log for event in sequence}`. */
  function Activities(log: Log): set<Activity>
  {
    set k, i | 0 <= k < |log| && 0 <= i < |log[k]| :: log[k][i]
  }

  /** The activities of one more trace. */
  lemma ActivitiesPrefix(log: Log, k: nat)
    requires k < |log|
    ensures Activities(log[..k + 1]) == Activities(log[..k]) + Elems(log[k])
  {
    var before, after := log[..k], log[..k + 1];
    forall x | x in Activities(after) ensures x in Activities(before) + Elems(log[k]) {
      var k', i :| 0 <= k' < |after| && 0 <= i < |after[k']| && after[k'][i] == x;
      if k' < k {
        assert before[k'][i] == x;
      }
    }
    forall x | x in Activities(before) + Elems(log[k]) ensures x in Activities(after) {
      if x in Activities(before) {
        var k', i :| 0 <= k' < |before| && 0 <= i < |before[k']| && before[k'][i] == x;
        assert after[k'][i] == x;
      } else {
        var i :| 0 <= i < |log[k]| && log[k][i] == x;
        assert after[k][i] == x;
      }
    }
  }

  /** Every trace holds at least one activity. */
  predicate NonEmptyTraces(log: Log)
  {
    forall k :: 0 <= k < |log| ==> |log[k]| >= 1
  }

  // ---------------------------------------------------------------------------
  // Parsing the textual log

  /** `[sequence.strip('<>').split(',') for sequence in log_input.split('>,<')]`. */
  function ParseLog(input: string): (log: Log)
    ensures |log| >= 1 && NonEmptyTraces(log)
  {
    var sequences := Split(input, ">,<");
    seq(|sequences|, k requires 0 <= k < |sequences| => Split(Strip(sequences[k], Brackets), ","))
  }

  /** One trace as it is typed: `<a,b,c>`. */
  function FormatTrace(t: Trace): string
  {
    "<" + Join(",", t) + ">"
  }

  /** A log as it is typed: the traces' forms joined by commas. */
  function FormatLog(log: Log): string
  {
    Join(",", seq(|log|, k requires 0 <= k < |log| => FormatTrace(log[k])))
  }

  /** Labels that the textual form can carry: no comma and no angle bracket. */
  predicate PlainLabels(log: Log)
  {
    forall k, i :: 0 <= k < |log| && 0 <= i < |log[k]| ==> Avoids(log[k][i], {',', '<', '>'})
  }

  lemma {:induction false} JoinAvoids(sep: string, parts: seq<string>, cs: set<char>)
    requires Avoids(sep, cs)
    requires forall k :: 0 <= k < |parts| ==> Avoids(parts[k], cs)
    ensures Avoids(Join(sep, parts), cs)
    decreases |parts|
  {
    if |parts| > 1 {
      JoinAvoids(sep, parts[1..], cs);
      var rest := Join(sep, parts[1..]);
      var s := parts[0] + sep + rest;
      forall i | 0 <= i < |s| ensures s[i] !in cs {
        if i < |parts[0]| {
        } else if i < |parts[0]| + |sep| {
          assert s[i] == sep[i - |parts[0]|];
        } else {
          assert s[i] == rest[i - |parts[0]| - |sep|];
        }
      }
    }
  }

  /** The labels of a trace, joined by commas. */
  function Inner(log: Log): seq<string>
  {
    seq(|log|, k requires 0 <= k < |log| => Join(",", log[k]))
  }

  /** The textual form is one `<`, the joined traces separated by `>,<`, and one `>`. */
  lemma {:induction false} FormatLogShape(log: Log)
    requires |log| >= 1
    ensures FormatLog(log) == "<" + Join(">,<", Inner(log)) + ">"
    decreases |log|
  {
    if |log| > 1 {
      FormatLogShape(log[1..]);
      var forms := seq(|log|, k requires 0 <= k < |log| => FormatTrace(log[k]));
      assert forms[1..] == seq(|log| - 1, k requires 0 <= k < |log| - 1 => FormatTrace(log[1..][k]));
      assert Inner(log)[1..] == Inner(log[1..]);
      var j0 := Join(",", log[0]);
      var rest := Join(">,<", Inner(log[1..]));
      calc {
        FormatLog(log);
        forms[0] + "," + Join(",", forms[1..]);
        ("<" + j0 + ">") + "," + ("<" + rest + ">");
        { assert ("<" + j0 + ">") + "," + ("<" + rest + ">") == "<" + (j0 + ">,<" + rest) + ">"; }
        "<" + (j0 + ">,<" + rest) + ">";
      }
    }
  }

  /** `Split` undoes `Join` also when only the last part ends in a character of
      the separator, as the last trace's closing `>` does. */
  lemma {:induction false} SplitJoinLast(parts: seq<string>, sep: string)
    requires |sep| > 0 && |parts| >= 1
    requires forall k :: 0 <= k < |parts| - 1 ==> Avoids(parts[k], {sep[0]})
    requires NoSeparatorStart(parts[|parts| - 1], sep)
    ensures Split(Join(sep, parts), sep) == parts
    decreases |parts|
  {
    if |parts| == 1 {
      SplitWhole(parts[0], sep);
    } else {
      assert parts[1..][|parts| - 2] == parts[|parts| - 1];
      SplitAfterPiece(parts[0], sep, Join(sep, parts[1..]));
      SplitJoinLast(parts[1..], sep);
      assert parts == [parts[0]] + parts[1..];
    }
  }

  /** Parsing gives back a log that was formatted, when every trace is non-empty
      and no label holds a comma or an angle bracket. */
  lemma ParseFormatRoundTrip(log: Log)
    requires |log| >= 1 && NonEmptyTraces(log) && PlainLabels(log)
    ensures ParseLog(FormatLog(log)) == log
  {
    InnerSplits(log);
    FormatLogPieces(log);
    ParsePieces(log);
  }

  /** Each joined trace avoids the brackets and splits back into the trace. */
  lemma InnerSplits(log: Log)
    requires NonEmptyTraces(log) && PlainLabels(log)
    ensures forall k :: 0 <= k < |log| ==> Avoids(Inner(log)[k], Brackets) && Split(Inner(log)[k], ",") == log[k]
  {
    var js := Inner(log);
    forall k | 0 <= k < |log| ensures Avoids(js[k], Brackets) && Split(js[k], ",") == log[k] {
      JoinAvoids(",", log[k], Brackets);
      SplitJoin(log[k], ",");
    }
  }

  /** Splitting the textual log at `>,<` yields the bracketed pieces. */
  lemma FormatLogPieces(log: Log)
    requires |log| >= 1
    requires forall k :: 0 <= k < |log| ==> Avoids(Inner(log)[k], Brackets)
    ensures Split(FormatLog(log), ">,<") == Pieces(Inner(log))
  {
    var js := Inner(log);
    FormatLogShape(log);
    JoinBracketed(js);
    PiecesSplit(js);
  }

  /** Stripping and splitting each piece gives back its trace. */
  lemma ParsePieces(log: Log)
    requires |log| >= 1
    requires forall k :: 0 <= k < |log| ==> Avoids(Inner(log)[k], Brackets) && Split(Inner(log)[k], ",") == log[k]
    requires Split(FormatLog(log), ">,<") == Pieces(Inner(log))
    ensures ParseLog(FormatLog(log)) == log
  {
    var js := Inner(log);
    var n := |js|;
    var sequences := Split(FormatLog(log), ">,<");
    var parsed := ParseLog(FormatLog(log));
    assert |parsed| == |sequences| == n;
    forall k | 0 <= k < n ensures parsed[k] == log[k] {
      var pre := if k == 0 then "<" else "";
      var post := if k == n - 1 then ">" else "";
      assert sequences[k] == pre + js[k] + post;
      StripAround(pre, js[k], post, Brackets);
      assert parsed[k] == Split(Strip(sequences[k], Brackets), ",");
    }
  }

  /** The pieces that `split('>,<')` yields on a formatted log: the joined
      traces, with a bracket left only on the outer ends. */
  function Pieces(js: seq<string>): seq<string>
  {
    var n := |js|;
    seq(n, k requires 0 <= k < n => (if k == 0 then "<" else "") + js[k] + (if k == n - 1 then ">" else ""))
  }

  lemma PiecesSplit(js: seq<string>)
    requires |js| >= 1 && forall k :: 0 <= k < |js| ==> Avoids(js[k], Brackets)
    ensures Split(Join(">,<", Pieces(js)), ">,<") == Pieces(js)
  {
    var n := |js|;
    var pieces := Pieces(js);
    forall k | 0 <= k < n - 1 ensures Avoids(pieces[k], {'>'}) {
      forall i | 0 <= i < |pieces[k]| ensures pieces[k][i] != '>' {
        if k == 0 && i == 0 {
        } else if k == 0 {
          assert pieces[k][i] == js[k][i - 1];
        } else {
          assert pieces[k][i] == js[k][i];
        }
      }
    }
    var last := pieces[n - 1];
    assert NoSeparatorStart(last, ">,<") by {
      forall i | 0 <= i && i + 3 <= |last| ensures last[i] != '>' {
        if n == 1 && i == 0 {
        } else if n == 1 {
          assert last[i] == js[n - 1][i - 1];
        } else {
          assert last[i] == js[n - 1][i];
        }
      }
    }
    SplitJoinLast(pieces, ">,<");
  }

  /** Putting `<` before the first part and `>` after the last commutes with joining. */
  lemma {:induction false} JoinBracketed(js: seq<string>)
    requires |js| >= 1
    ensures Join(">,<", Pieces(js)) == "<" + Join(">,<", js) + ">"
    decreases |js|
  {
    if |js| > 1 {
      var n := |js|;
      var pieces := Pieces(js);
      JoinOpenEnd(js[1..]);
      var tail := seq(n - 1, k requires 0 <= k < n - 1 => js[1..][k] + (if k == n - 2 then ">" else ""));
      forall k | 0 <= k < n - 1 ensures pieces[1..][k] == tail[k] {
        assert pieces[k + 1] == "" + js[k + 1] + (if k + 1 == n - 1 then ">" else "");
        assert "" + js[k + 1] == js[k + 1];
      }
      assert pieces[1..] == tail;
      assert Join(">,<", pieces) == "<" + js[0] + ">,<" + Join(">,<", tail);
    }
  }

  /** Putting `>` after the last part commutes with joining. */
  lemma {:induction false} JoinOpenEnd(js: seq<string>)
    requires |js| >= 1
    ensures var n := |js|;
      Join(">,<", seq(n, k requires 0 <= k < n => js[k] + (if k == n - 1 then ">" else "")))
      == Join(">,<", js) + ">"
    decreases |js|
  {
    if |js| > 1 {
      var n := |js|;
      var pieces := seq(n, k requires 0 <= k < n => js[k] + (if k == n - 1 then ">" else ""));
      JoinOpenEnd(js[1..]);
      assert pieces[1..] == seq(n - 1, k requires 0 <= k < n - 1 => js[1..][k] + (if k == n - 2 then ">" else ""));
    }
  }

  // ---------------------------------------------------------------------------
  // TL, TI and TO

  /** TL: `sorted({evento for seq in log for evento in seq})`. */
  function Transitions(log: Log): (tl: seq<Activity>)
    ensures Increasing(tl) && Elems(tl) == Activities(log)
  {
    Sorted(Activities(log))
  }

  /** TI: `{seq[0] for seq in log}`, the activities that start some trace. */
  function InitialTransitions(log: Log): (ti: set<Activity>)
    requires NonEmptyTraces(log)
    ensures ti <= Activities(log)
    ensures forall a :: a in ti <==> exists k :: 0 <= k < |log| && log[k][0] == a
  {
    set k | 0 <= k < |log| :: log[k][0]
  }

  /** TO: `{seq[-1] for seq in log}`, the activities that end some trace. */
  function FinalTransitions(log: Log): (to: set<Activity>)
    requires NonEmptyTraces(log)
    ensures to <= Activities(log)
    ensures forall a :: a in to <==> exists k :: 0 <= k < |log| && log[k][|log[k]| - 1] == a
  {
    set k | 0 <= k < |log| :: log[k][|log[k]| - 1]
  }

  // ---------------------------------------------------------------------------
  // Direct successions

  /** The adjacent pairs of one trace, left to right: `(t[i], t[i + 1])` for `i in range(len(t) - 1)`. */
  function TraceAdjacencies(t: Trace): (r: seq<(Activity, Activity)>)
  {
    seq(if |t| == 0 then 0 else |t| - 1, i requires 0 <= i < |t| - 1 => (t[i], t[i + 1]))
  }

  /** The adjacent pairs of the whole log, in the order the source's loops visit them. */
  function Adjacencies(log: Log): seq<(Activity, Activity)>
  {
    if log == [] then [] else Adjacencies(log[..|log| - 1]) + TraceAdjacencies(log[|log| - 1])
  }

  /** The direct-succession relation: every `(x, y)` with `y` right after `x` in some trace. */
  function DirectSuccessions(log: Log): set<(Activity, Activity)>
  {
    Elems(Adjacencies(log))
  }

  /** `y` directly follows `x` somewhere in the log. */
  ghost predicate Follows(log: Log, x: Activity, y: Activity)
  {
    exists k, i :: 0 <= k < |log| && 0 <= i < |log[k]| - 1 && log[k][i] == x && log[k][i + 1] == y
  }

  /** A pair is a direct succession exactly when it is witnessed in some trace. */
  lemma {:induction false} DirectSuccessionsWitnessed(log: Log, x: Activity, y: Activity)
    ensures (x, y) in DirectSuccessions(log) <==> Follows(log, x, y)
    decreases |log|
  {
    if log != [] {
      var front := log[..|log| - 1];
      var last := log[|log| - 1];
      DirectSuccessionsWitnessed(front, x, y);
      assert Elems(Adjacencies(log)) == Elems(Adjacencies(front)) + Elems(TraceAdjacencies(last));
      if (x, y) in Elems(TraceAdjacencies(last)) {
        var i :| 0 <= i < |TraceAdjacencies(last)| && TraceAdjacencies(last)[i] == (x, y);
        assert log[|log| - 1][i] == x && log[|log| - 1][i + 1] == y;
      }
      if Follows(front, x, y) {
        var k, i :| 0 <= k < |front| && 0 <= i < |front[k]| - 1 && front[k][i] == x && front[k][i + 1] == y;
        assert log[k] == front[k];
      }
      if Follows(log, x, y) {
        var k, i :| 0 <= k < |log| && 0 <= i < |log[k]| - 1 && log[k][i] == x && log[k][i + 1] == y;
        if k < |log| - 1 {
          assert front[k] == log[k];
        } else {
          assert TraceAdjacencies(last)[i] == (x, y);
        }
      }
    }
  }

  /** Both parts of a direct succession are activities of the log. */
  lemma DirectSuccessionsWithin(log: Log, x: Activity, y: Activity)
    requires (x, y) in DirectSuccessions(log)
    ensures x in Activities(log) && y in Activities(log)
  {
    DirectSuccessionsWitnessed(log, x, y);
    var k, i :| 0 <= k < |log| && 0 <= i < |log[k]| - 1 && log[k][i] == x && log[k][i + 1] == y;
  }
}
