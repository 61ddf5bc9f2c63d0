/**
 * What the model of recursiveQM and quineMcCluskey guarantees about the
 * list a run leaves and the steps it records.
 */
module Outcomes {
  import opened Wrappers
  import opened Terms
  import opened Render
  import opened Parse
  import opened TermLists
  import opened Merging
  import opened Engine

  /** No two terms of a list with no merges combine, in either order. */
  lemma NoMergesNoCombinable(ts: seq<Term>)
    requires Merges(ts) == []
    ensures forall a, b :: a in ts && b in ts ==> !CanCombine(a, b)
  {
    forall a, b | a in ts && b in ts ensures !CanCombine(a, b) {
      var i :| 0 <= i < |ts| && ts[i] == a;
      var j :| 0 <= j < |ts| && ts[j] == b;
      CanCombineSymmetric(a, b);
      if i <= j && CanCombine(a, b) {
        MergesComplete(ts, i, j);
        assert false;
      } else if j < i && CanCombine(b, a) {
        MergesComplete(ts, j, i);
        assert false;
      }
    }
  }

  /** How a run on a non-empty list ends, and with which list, in terms of its first pass. */
  lemma SettleShape(ts: seq<Term>, fuel: nat)
    requires ts != []
    ensures var end, next := Settle(ts, fuel), Iterate(ts);
      if next == ts then end == Ending(FixedPoint, ts)
      else if fuel == 0 then end == Ending(OutOfFuel, next)
      else end == Settle(next, fuel - 1)
  {
    IterateNonEmpty(ts);
  }

  /** A run that ends at a fixed point leaves a list that one more pass would not change. */
  lemma {:induction false} SettleEndsStable(ts: seq<Term>, fuel: nat)
    requires Settle(ts, fuel).status == FixedPoint
    ensures Iterate(Settle(ts, fuel).terms) == Settle(ts, fuel).terms
    decreases fuel
  {
    if ts != [] {
      SettleShape(ts, fuel);
      if Iterate(ts) != ts {
        SettleEndsStable(Iterate(ts), fuel - 1);
      }
    }
  }

  /**
   * The list a fixed-point run leaves holds no repeated term and no two
   * terms that combine: it is fully reduced.
   */
  lemma SettleEndsReduced(ts: seq<Term>, fuel: nat)
    requires Settle(ts, fuel).status == FixedPoint
    ensures NoDuplicates(Settle(ts, fuel).terms)
    ensures Merges(Settle(ts, fuel).terms) == []
    ensures forall a, b :: a in Settle(ts, fuel).terms && b in Settle(ts, fuel).terms ==> !CanCombine(a, b)
  {
    var r := Settle(ts, fuel).terms;
    SettleEndsStable(ts, fuel);
    FixedPointIff(r);
    NoMergesNoCombinable(r);
  }

  /** Every pass keeps the list sorted by ones-count, so the whole run does. */
  lemma {:induction false} SettleKeepsSorted(ts: seq<Term>, fuel: nat)
    requires SortedByOnes(ts)
    ensures SortedByOnes(Settle(ts, fuel).terms)
    decreases fuel
  {
    if ts != [] {
      SettleShape(ts, fuel);
      IterateKeepsSorted(ts);
      if Iterate(ts) != ts && fuel > 0 {
        SettleKeepsSorted(Iterate(ts), fuel - 1);
      }
    }
  }

  /** A non-empty list never becomes empty, so expressionToString never fails on it. */
  lemma {:induction false} SettleNeverEmpty(ts: seq<Term>, fuel: nat)
    requires ts != []
    ensures Settle(ts, fuel).status != EmptyList
    ensures Settle(ts, fuel).terms != []
    decreases fuel
  {
    SettleShape(ts, fuel);
    IterateNonEmpty(ts);
    if Iterate(ts) != ts && fuel > 0 {
      SettleNeverEmpty(Iterate(ts), fuel - 1);
    }
  }

  /**
   * Each pass records the expression it starts from first: on a non-empty
   * list the steps begin with that list's expression.
   */
  lemma TraceStartsWithExpression(ts: seq<Term>, fuel: nat)
    requires ts != []
    ensures var steps := Trace(ts, fuel);
      steps != [] && steps[0] == ExpressionToString(ts).value
  {
  }

  /** The steps end with the expression `e` and "No further reductions found.". */
  predicate EndsWithVerdict(steps: seq<string>, e: string) {
    |steps| >= 2 && steps[|steps| - 2] == e && steps[|steps| - 1] == NoFurther
  }

  lemma EndsWithVerdictAppend(head: seq<string>, tail: seq<string>, e: string)
    requires EndsWithVerdict(tail, e)
    ensures EndsWithVerdict(head + tail, e)
  {
    assert (head + tail)[|head + tail| - 1] == tail[|tail| - 1];
    assert (head + tail)[|head + tail| - 2] == tail[|tail| - 2];
  }

  /**
   * A run that reaches a fixed point ends its steps with the final list's
   * expression and "No further reductions found.", the last pass's record.
   */
  lemma {:induction false} TraceEndsAtFixedPoint(ts: seq<Term>, fuel: nat)
    requires Settle(ts, fuel).status == FixedPoint
    ensures Settle(ts, fuel).terms != []
    ensures EndsWithVerdict(Trace(ts, fuel), ExpressionToString(Settle(ts, fuel).terms).value)
    decreases fuel
  {
    ContinuesAfterChange(ts, fuel);
    if Iterate(ts) == ts {
      SettleOnStableList(ts, fuel);
    } else {
      TraceEndsAtFixedPoint(Iterate(ts), fuel - 1);
      VerdictCarriesBack(ts, fuel);
    }
  }

  /**
   * A run that reaches a fixed point starts from a non-empty list; when its
   * first pass changes the list, the rest of the run reaches it too.
   */
  lemma ContinuesAfterChange(ts: seq<Term>, fuel: nat)
    requires Settle(ts, fuel).status == FixedPoint
    ensures ts != []
    ensures Iterate(ts) != ts ==>
      Iterate(ts) != [] && fuel > 0 && Settle(ts, fuel) == Settle(Iterate(ts), fuel - 1)
  {
  }

  /** A pass that changes the list keeps the verdict that ends the rest of the run. */
  lemma VerdictCarriesBack(ts: seq<Term>, fuel: nat)
    requires ts != [] && Iterate(ts) != ts && Iterate(ts) != [] && fuel > 0
    requires Settle(Iterate(ts), fuel - 1).terms != []
    requires EndsWithVerdict(Trace(Iterate(ts), fuel - 1), ExpressionToString(Settle(Iterate(ts), fuel - 1).terms).value)
    ensures Settle(ts, fuel).terms != []
    ensures EndsWithVerdict(Trace(ts, fuel), ExpressionToString(Settle(ts, fuel).terms).value)
  {
    var next := Iterate(ts);
    SettleOnChangedList(ts, fuel);
    var head := PassSteps(ExpressionToString(ts).value, ts) + [ExpansionPrefix + ExpressionToString(next).value, ""];
    EndsWithVerdictAppend(head, Trace(next, fuel - 1), ExpressionToString(Settle(next, fuel - 1).terms).value);
  }

  /** Reducing the result of a fixed-point run again changes nothing and finds no merge. */
  lemma SettleIdempotent(ts: seq<Term>, fuel: nat, fuel2: nat)
    requires Settle(ts, fuel).status == FixedPoint
    ensures var r := Settle(ts, fuel).terms;
      r != [] && Settle(r, fuel2) == Ending(FixedPoint, r) &&
      Trace(r, fuel2) == [ExpressionToString(r).value, NoFurther]
  {
    var r := Settle(ts, fuel).terms;
    if ts != [] {
      SettleNeverEmpty(ts, fuel);
    }
    SettleEndsStable(ts, fuel);
    SettleOnStableList(r, fuel2);
  }

  /** The input parses exactly when every piece does. */
  lemma {:induction false} BuildListOkIff(pieces: seq<string>)
    ensures BuildList(pieces).Ok? <==> forall i :: 0 <= i < |pieces| ==> ParseTerm(pieces[i]).Ok?
  {
    if pieces != [] {
      var init := pieces[..|pieces| - 1];
      BuildListOkIff(init);
      forall i | 0 <= i < |init| ensures init[i] == pieces[i] {
      }
    }
  }

  /** The terms the pieces denote, in input order, when every piece parses. */
  function ParsedPieces(pieces: seq<string>): (r: seq<Term>)
    requires forall i :: 0 <= i < |pieces| ==> ParseTerm(pieces[i]).Ok?
    ensures |r| == |pieces|
    ensures forall i :: 0 <= i < |pieces| ==> r[i] == ParseTerm(pieces[i]).value
  {
    if pieces == [] then []
    else
      var init := pieces[..|pieces| - 1];
      assert forall i :: 0 <= i < |init| ==> init[i] == pieces[i];
      ParsedPieces(init) + [ParseTerm(pieces[|pieces| - 1]).value]
  }

  /**
   * The parsed list holds exactly the terms of the pieces, one per piece,
   * and is sorted by ones-count.
   */
  lemma {:induction false} BuildListShape(pieces: seq<string>)
    requires BuildList(pieces).Ok?
    ensures forall i :: 0 <= i < |pieces| ==> ParseTerm(pieces[i]).Ok?
    ensures multiset(BuildList(pieces).value) == multiset(ParsedPieces(pieces))
    ensures |BuildList(pieces).value| == |pieces|
    ensures SortedByOnes(BuildList(pieces).value)
  {
    BuildListOkIff(pieces);
    if pieces != [] {
      var init := pieces[..|pieces| - 1];
      var t := ParseTerm(pieces[|pieces| - 1]).value;
      BuildListShape(init);
      SortedInsertKeepsSorted(BuildList(init).value, t);
      SortedInsertPermutes(BuildList(init).value, t);
      assert ParsedPieces(pieces) == ParsedPieces(init) + [t];
    }
  }

  /** A piece that does not parse makes the whole call fail before any step is recorded. */
  lemma MinimizeMalformed(pieces: seq<string>, fuel: nat, i: int)
    requires 0 <= i < |pieces| && ParseTerm(pieces[i]).Err?
    ensures Minimize(pieces, fuel) == Outcome(Err(MalformedTerm), [])
  {
    BuildListOkIff(pieces);
  }

  /** An input with no pieces has no expression to show. */
  lemma MinimizeNoPieces(fuel: nat)
    ensures Minimize([], fuel) == Outcome(Err(EmptyExpression), [])
  {
  }

  /** With at least one piece and every piece well formed, the only failure left is running out of passes. */
  lemma MinimizeWellFormed(pieces: seq<string>, fuel: nat)
    requires pieces != [] && forall i :: 0 <= i < |pieces| ==> ParseTerm(pieces[i]).Ok?
    ensures Minimize(pieces, fuel).result.Ok? || Minimize(pieces, fuel).result == Err(FuelExhausted)
  {
    BuildListOkIff(pieces);
    BuildListShape(pieces);
    var ts := BuildList(pieces).value;
    SettleNeverEmpty(ts, fuel);
    var end := Settle(ts, fuel);
    if end.status == FixedPoint {
      SortByRankCorrect(end.terms);
      ExpressionHasTrailingSpace(SortByRank(end.terms));
    }
  }

  lemma NoDuplicatesCounts(ts: seq<Term>)
    requires NoDuplicates(ts)
    ensures forall x :: multiset(ts)[x] <= 1
  {
    forall x ensures multiset(ts)[x] <= 1 {
      if x in ts {
        var p :| 0 <= p < |ts| && ts[p] == x;
        DistinctCount(ts, p);
      }
    }
  }

  lemma CountsNoDuplicates(ts: seq<Term>)
    requires forall x :: multiset(ts)[x] <= 1
    ensures NoDuplicates(ts)
  {
    forall i, j | 0 <= i < j < |ts| ensures ts[i] != ts[j] {
      assert ts == ts[..j] + ts[j..];
      assert ts[i] in ts[..j] && ts[j] in ts[j..];
      assert multiset(ts)[ts[j]] == multiset(ts[..j])[ts[j]] + multiset(ts[j..])[ts[j]];
    }
  }

  /**
   * quineMcCluskey shows a final expression exactly when every piece parses
   * and the reduction reaches a list that no pass changes.
   */
  lemma MinimizeOkIff(pieces: seq<string>, fuel: nat)
    ensures Minimize(pieces, fuel).result.Ok? <==>
      BuildList(pieces).Ok? && Settle(BuildList(pieces).value, fuel).status == FixedPoint
  {
    if BuildList(pieces).Ok? {
      var ts := BuildList(pieces).value;
      if ts != [] {
        SettleNeverEmpty(ts, fuel);
        ExpressionHasTrailingSpace(SortByRank(Settle(ts, fuel).terms));
      }
    }
  }

  /**
   * Sorting the list a fixed-point run leaves gives a non-empty, fully
   * reduced list in rank order: no term repeated, no two that combine.
   */
  lemma SettleThenSort(ts: seq<Term>, fuel: nat)
    requires Settle(ts, fuel).status == FixedPoint
    ensures var r := SortByRank(Settle(ts, fuel).terms);
      r != [] && SortedBy(r, RateTermOrder) && NoDuplicates(r)
    ensures var r := SortByRank(Settle(ts, fuel).terms);
      forall a, b :: a in r && b in r ==> !CanCombine(a, b)
    ensures multiset(SortByRank(Settle(ts, fuel).terms)) == multiset(Settle(ts, fuel).terms)
  {
    var end := Settle(ts, fuel);
    if ts != [] {
      SettleNeverEmpty(ts, fuel);
    }
    var r := SortByRank(end.terms);
    SortByRankCorrect(end.terms);
    SettleEndsReduced(ts, fuel);
    NoDuplicatesCounts(end.terms);
    CountsNoDuplicates(r);
    forall x ensures x in r <==> x in end.terms {
      assert x in r <==> x in multiset(r);
    }
  }

  /**
   * A final expression lists a non-empty, fully reduced set of terms: sorted
   * by rank, none repeated, no two that combine; the last step shows it
   * separated by " + ".
   */
  lemma MinimizeResult(pieces: seq<string>, fuel: nat)
    requires BuildList(pieces).Ok? && Settle(BuildList(pieces).value, fuel).status == FixedPoint
    ensures Minimize(pieces, fuel).result.Ok?
    ensures var r := Minimize(pieces, fuel).result.value;
      r != [] && SortedBy(r, RateTermOrder) && NoDuplicates(r)
    ensures var r := Minimize(pieces, fuel).result.value;
      forall a, b :: a in r && b in r ==> !CanCombine(a, b)
    ensures multiset(Minimize(pieces, fuel).result.value) == multiset(Settle(BuildList(pieces).value, fuel).terms)
    ensures var o := Minimize(pieces, fuel);
      o.steps != [] && o.steps[|o.steps| - 1] == FinalPrefix + Separated(o.result.value) + " "
  {
    var ts := BuildList(pieces).value;
    SettleThenSort(ts, fuel);
    MinimizeAtFixedPoint(pieces, fuel);
    ExpressionHasTrailingSpace(SortByRank(Settle(ts, fuel).terms));
  }

  /** At a fixed point quineMcCluskey returns the display-sorted list and adds the final expression line. */
  lemma MinimizeAtFixedPoint(pieces: seq<string>, fuel: nat)
    requires BuildList(pieces).Ok? && Settle(BuildList(pieces).value, fuel).status == FixedPoint
    ensures var ts := BuildList(pieces).value;
      var sorted := SortByRank(Settle(ts, fuel).terms);
      sorted != [] &&
      Minimize(pieces, fuel) == Outcome(Ok(sorted), Trace(ts, fuel) + [FinalPrefix + ExpressionToString(sorted).value])
  {
    var ts := BuildList(pieces).value;
    SettleNeverEmpty(ts, fuel);
  }
}
