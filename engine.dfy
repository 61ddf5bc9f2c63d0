/**
 * recursiveQM and the non-interface part of quineMcCluskey in src/App.java:
 * passes repeat until one changes nothing, and every pass records its steps
 * in the shared list of step lines.
 */
module Engine {
  import opened Wrappers
  import opened Terms
  import opened Render
  import opened Parse
  import opened TermLists
  import opened Merging

  const NoFurther := "No further reductions found."
  const ExpansionPrefix := "Minterm Expansion: "
  const FinalPrefix := "Final Expression: "

  /**
   * How a run of passes ended: at a pass that changed nothing, at an empty
   * list (where expressionToString throws), or when the pass budget ran out.
   */
  datatype Status = FixedPoint | EmptyList | OutOfFuel

  /** How recursiveQM ended and the list it left in place. */
  datatype Ending = Ending(status: Status, terms: seq<Term>)

  /**
   * The list recursiveQM leaves, with at most `fuel` further recursive
   * calls: a pass that changes nothing ends the run, otherwise the next pass
   * starts on the new list. expressionToString throws exactly on an empty
   * list (ExpressionToString's contract), which ends the run as EmptyList.
   */
  function Settle(ts: seq<Term>, fuel: nat): Ending
    decreases fuel
  {
    if ts == [] then Ending(EmptyList, ts)
    else
      var next := Iterate(ts);
      if next == ts then Ending(FixedPoint, ts)
      else if next == [] then Ending(EmptyList, next)
      else if fuel == 0 then Ending(OutOfFuel, next)
      else Settle(next, fuel - 1)
  }

  /** The steps one pass records before its verdict: the expression, then every merge. */
  function PassSteps(e: string, ts: seq<Term>): (lines: seq<string>)
    ensures |lines| == 1 + |Merges(ts)| && lines[0] == e
  {
    [e] + TraceLines(Merges(ts))
  }

  /**
   * The step lines recursiveQM records on `ts`: for every pass, the
   * expression and the merges, then either the end of the reduction or the
   * new expression followed by an empty line and the next pass.
   */
  function Trace(ts: seq<Term>, fuel: nat): seq<string>
    decreases fuel
  {
    match ExpressionToString(ts)
    case None => []
    case Some(e) =>
      var next := Iterate(ts);
      if next == ts then PassSteps(e, ts) + [NoFurther]
      else match ExpressionToString(next)
        case None => PassSteps(e, ts)
        case Some(e2) =>
          var expanded := PassSteps(e, ts) + [ExpansionPrefix + e2, ""];
          if fuel == 0 then expanded else expanded + Trace(next, fuel - 1)
  }

  /** Why quineMcCluskey produced no final expression. */
  datatype Failure = MalformedTerm | EmptyExpression | FuelExhausted

  /** What quineMcCluskey leaves: the final terms or the failure, and the step lines. */
  datatype Outcome = Outcome(result: Result<seq<Term>, Failure>, steps: seq<string>)

  /** The list quineMcCluskey builds: each piece parsed, then binary-inserted in turn. */
  function BuildList(pieces: seq<string>): Result<seq<Term>, ParseError> {
    if pieces == [] then Ok([])
    else match BuildList(pieces[..|pieces| - 1])
      case Err(e) => Err(e)
      case Ok(ts) =>
        match ParseTerm(pieces[|pieces| - 1])
        case Err(e) => Err(e)
        case Ok(t) => Ok(SortedInsert(ts, t))
  }

  /**
   * quineMcCluskey on the already split and trimmed pieces of the input: build
   * the list, reduce it, sort it for display and record the final expression.
   */
  function Minimize(pieces: seq<string>, fuel: nat): Outcome {
    match BuildList(pieces)
    case Err(_) => Outcome(Err(MalformedTerm), [])
    case Ok(ts) =>
      var end, steps := Settle(ts, fuel), Trace(ts, fuel);
      match end.status
      case EmptyList => Outcome(Err(EmptyExpression), steps)
      case OutOfFuel => Outcome(Err(FuelExhausted), steps)
      case FixedPoint =>
        var sorted := SortByRank(end.terms);
        match ExpressionToString(sorted)
        case None => Outcome(Err(EmptyExpression), steps)
        case Some(e) => Outcome(Ok(sorted), steps + [FinalPrefix + e])
  }

  /**
   * The list update after the double loop: insert the merged terms, remove
   * one copy of each merged-away term where there is one, drop duplicates.
   */
  method Integrate(terms: TermList, combinedTerms: seq<Term>, obsoleteTerms: seq<Term>)
    modifies terms
    ensures terms.items == Dedup(RemoveAll(InsertAll(old(terms.items), combinedTerms), obsoleteTerms))
  {
    ghost var start := terms.items;
    for k := 0 to |combinedTerms|
      invariant terms.items == InsertAll(start, combinedTerms[..k])
    {
      assert combinedTerms[..k + 1][..k] == combinedTerms[..k];
      terms.BinaryInsert(combinedTerms[k]);
    }
    assert combinedTerms[..|combinedTerms|] == combinedTerms;
    ghost var inserted := terms.items;
    for k := 0 to |obsoleteTerms|
      invariant terms.items == RemoveAll(inserted, obsoleteTerms[..k])
    {
      assert obsoleteTerms[..k + 1][..k] == obsoleteTerms[..k];
      terms.Remove(obsoleteTerms[k]);
    }
    assert obsoleteTerms[..|obsoleteTerms|] == obsoleteTerms;
    terms.RemoveDuplicates();
  }

  /**
   * The parsing loop of quineMcCluskey: each piece parsed and binary-inserted
   * into a new list; `ok` is false when a piece is malformed.
   */
  method BuildTerms(pieces: seq<string>) returns (ok: bool, terms: TermList)
    ensures fresh(terms)
    ensures ok <==> BuildList(pieces).Ok?
    ensures ok ==> terms.items == BuildList(pieces).value
  {
    terms := new TermList();
    for i := 0 to |pieces|
      invariant fresh(terms)
      invariant BuildList(pieces[..i]).Ok? && terms.items == BuildList(pieces[..i]).value
    {
      assert pieces[..i + 1][..i] == pieces[..i];
      var parsed := StringToTermMap(pieces[i]);
      if parsed.Err? {
        BuildListErrSticks(pieces, i + 1);
        return false, terms;
      }
      terms.BinaryInsert(parsed.value);
    }
    assert pieces[..|pieces|] == pieces;
    return true, terms;
  }

  /**
   * On a list no pass changes, recursiveQM stops at once and records the
   * expression and the "no further reductions" line, and nothing else.
   */
  lemma SettleOnStableList(ts: seq<Term>, fuel: nat)
    requires ts != [] && Iterate(ts) == ts
    ensures Settle(ts, fuel) == Ending(FixedPoint, ts)
    ensures Trace(ts, fuel) == [ExpressionToString(ts).value, NoFurther]
  {
    FixedPointIff(ts);
    ExpressionHasTrailingSpace(ts);
    assert TraceLines(Merges(ts)) == [];
  }

  /** A pass that changes the list hands the rest of the run to the next pass. */
  lemma SettleOnChangedList(ts: seq<Term>, fuel: nat)
    requires ts != [] && Iterate(ts) != ts && Iterate(ts) != []
    ensures var next := Iterate(ts);
      Settle(ts, fuel) == if fuel == 0 then Ending(OutOfFuel, next) else Settle(next, fuel - 1)
    ensures var next := Iterate(ts);
      Trace(ts, fuel) ==
        PassSteps(ExpressionToString(ts).value, ts) + [ExpansionPrefix + ExpressionToString(next).value, ""] +
        (if fuel == 0 then [] else Trace(next, fuel - 1))
  {
  }

  /** The application state the algorithm writes to: the step lines shown to the user. */
  class Minimizer {
    var steps: seq<string>

    constructor ()
      ensures steps == []
    {
      steps := [];
    }

    /** The inner loop for term `i`: record and collect its merges with terms i, i+1, ... */
    method ScanRow(ts: seq<Term>, i: int) returns (combinedTerms: seq<Term>, obsoleteTerms: seq<Term>)
      requires 0 <= i < |ts|
      modifies this
      ensures var row := RowMerges(ts, i, |ts|);
        combinedTerms == Combined(row) && obsoleteTerms == Obsolete(row) &&
        steps == old(steps) + TraceLines(row)
    {
      var term1 := ts[i];
      var termOnes := Ones(term1);
      ghost var ms: seq<Merge> := [];
      combinedTerms, obsoleteTerms := [], [];
      var j := i;
      while j < |ts|
        invariant i <= j <= |ts|
        invariant ms == RowMerges(ts, i, j)
        invariant combinedTerms == Combined(ms) && obsoleteTerms == Obsolete(ms)
        invariant steps == old(steps) + TraceLines(ms)
      {
        var term2 := ts[j];
        if Abs(termOnes - Ones(term2)) == 1 && CanCombine(term1, term2) {
          var combined := Combine(term1, term2);
          steps := steps + [TraceLine(Merge(term1, term2, combined))];
          combinedTerms := combinedTerms + [combined];
          obsoleteTerms := obsoleteTerms + [term1, term2];
          ghost var m := Merge(term1, term2, combined);
          assert (ms + [m])[..|ms|] == ms;
          ms := ms + [m];
        }
        j := j + 1;
      }
    }

    /** The double loop of recursiveQM: every merge recorded as a step and collected. */
    method ScanAll(ts: seq<Term>) returns (combinedTerms: seq<Term>, obsoleteTerms: seq<Term>)
      modifies this
      ensures combinedTerms == Combined(Merges(ts)) && obsoleteTerms == Obsolete(Merges(ts))
      ensures steps == old(steps) + TraceLines(Merges(ts))
    {
      combinedTerms, obsoleteTerms := [], [];
      ghost var start := steps;
      ghost var ms: seq<Merge> := [];
      var i := 0;
      while i < |ts|
        invariant 0 <= i <= |ts|
        invariant ms == ScanMerges(ts, i)
        invariant combinedTerms == Combined(ms) && obsoleteTerms == Obsolete(ms)
        invariant steps == start + TraceLines(ms)
      {
        ghost var row := RowMerges(ts, i, |ts|);
        var rowCombined, rowObsolete := ScanRow(ts, i);
        CombinedAppend(ms, row);
        ObsoleteAppend(ms, row);
        TraceLinesAppend(ms, row);
        AppendAssoc(start, TraceLines(ms), TraceLines(row));
        combinedTerms := combinedTerms + rowCombined;
        obsoleteTerms := obsoleteTerms + rowObsolete;
        ms := ms + row;
        i := i + 1;
      }
    }

    /** recursiveQM: one pass over `terms` in place, then the next pass unless nothing changed. */
    method RecursiveQM(terms: TermList, fuel: nat) returns (status: Status)
      modifies this, terms
      ensures var end := Settle(old(terms.items), fuel);
        status == end.status && terms.items == end.terms
      ensures steps == old(steps) + Trace(old(terms.items), fuel)
      decreases fuel
    {
      var oldTerms := terms.items;
      ghost var start := steps;
      var e := ExpressionToString(terms.items);
      if e.None? {
        return EmptyList;
      }
      Pass(terms, e.value);
      ghost var trace := PassSteps(e.value, oldTerms);
      if oldTerms == terms.items {
        steps := steps + [NoFurther];
        AppendAssoc(start, trace, [NoFurther]);
        return FixedPoint;
      }
      var e2 := ExpressionToString(terms.items);
      if e2.None? {
        return EmptyList;
      }
      steps := steps + [ExpansionPrefix + e2.value, ""];
      ghost var expanded := trace + [ExpansionPrefix + e2.value, ""];
      AppendAssoc(start, trace, [ExpansionPrefix + e2.value, ""]);
      if fuel == 0 {
        return OutOfFuel;
      }
      status := RecursiveQM(terms, fuel - 1);
      AppendAssoc(start, expanded, Trace(Iterate(oldTerms), fuel - 1));
    }

    /** One pass of recursiveQM up to its verdict: record the expression, scan, update the list. */
    method Pass(terms: TermList, e: string)
      modifies this, terms
      ensures terms.items == Iterate(old(terms.items))
      ensures steps == old(steps) + PassSteps(e, old(terms.items))
    {
      ghost var before := steps;
      steps := steps + [e];
      var combinedTerms, obsoleteTerms := ScanAll(terms.items);
      ghost var after := steps;
      AppendAssoc(before, [e], TraceLines(Merges(old(terms.items))));
      Integrate(terms, combinedTerms, obsoleteTerms);
      assert steps == after;
    }

    /**
     * quineMcCluskey: clear the steps, parse and insert every piece, reduce,
     * sort for display and record the final expression.
     */
    method QuineMcCluskey(pieces: seq<string>, fuel: nat) returns (result: Result<seq<Term>, Failure>)
      modifies this
      ensures var outcome := Minimize(pieces, fuel);
        result == outcome.result && steps == outcome.steps
    {
      steps := [];
      var ok, terms := BuildTerms(pieces);
      if !ok {
        return Err(MalformedTerm);
      }
      ghost var trace := Trace(terms.items, fuel);
      var status := RecursiveQM(terms, fuel);
      assert steps == trace;
      if status == EmptyList {
        return Err(EmptyExpression);
      } else if status == OutOfFuel {
        return Err(FuelExhausted);
      }
      terms.Sort();
      var e := ExpressionToString(terms.items);
      if e.None? {
        return Err(EmptyExpression);
      }
      steps := steps + [FinalPrefix + e.value];
      return Ok(terms.items);
    }
  }

  lemma AppendAssoc<T>(a: seq<T>, b: seq<T>, c: seq<T>)
    ensures a + b + c == a + (b + c)
  {
  }

  /** Once a piece fails to parse, the whole input fails. */
  lemma {:induction false} BuildListErrSticks(pieces: seq<string>, n: int)
    requires 0 <= n <= |pieces| && BuildList(pieces[..n]).Err?
    ensures BuildList(pieces).Err?
    decreases |pieces| - n
  {
    if n < |pieces| {
      assert pieces[..n + 1][..n] == pieces[..n];
      BuildListErrSticks(pieces, n + 1);
    } else {
      assert pieces[..n] == pieces;
    }
  }
}
