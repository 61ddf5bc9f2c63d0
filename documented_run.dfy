/**
 * Two complete runs of quineMcCluskey in src/App.java: the example
 * expression its window shows, "xyz + x~yz + x~y + x~y~z", which the label
 * says should evaluate to "x~y + xz", and the smallest merge, "xy + x~y",
 * which leaves "x". Each run is followed stage by stage: the list built, the
 * merges of every pass, the list each pass leaves, the display order, the
 * step lines and the final expression. The stages are stated first for
 * lists of any terms of the right shape, then applied to these terms.
 */
module DocumentedRun {
  import opened Wrappers
  import opened Terms
  import opened Render
  import opened Parse
  import opened TermLists
  import opened Merging
  import opened Engine

  // The terms of the two runs.
  const XYZ: Term := map['x' := 1, 'y' := 1, 'z' := 1]
  const XnYZ: Term := map['x' := 1, 'y' := 0, 'z' := 1]
  const XnY: Term := map['x' := 1, 'y' := 0]
  const XnYnZ: Term := map['x' := 1, 'y' := 0, 'z' := 0]
  const XZ: Term := map['x' := 1, 'z' := 1]
  const XY: Term := map['x' := 1, 'y' := 1]
  const X: Term := map['x' := 1]

  /** The example expression, split at "+" and trimmed. */
  const ExamplePieces: seq<string> := ["xyz", "x~yz", "x~y", "x~y~z"]

  /** The list quineMcCluskey builds from the example, fewest ones first. */
  const ExampleList: seq<Term> := [XnYnZ, XnY, XnYZ, XYZ]

  /** The list the example reduces to. */
  const ExampleResult: seq<Term> := [XnY, XZ]

  /** Every step line of the example run, up to and including the final expression. */
  const ExampleSteps: seq<string> := [
    "x~y~z + x~y + x~yz + xyz ",
    "x~y~z + x~yz = x~y",
    "x~yz + xyz = xz",
    "Minterm Expansion: x~y + xz ",
    "",
    "x~y + xz ",
    "No further reductions found.",
    "Final Expression: x~y + xz "]

  /** The smallest merge, "xy + x~y", split and trimmed. */
  const PairPieces: seq<string> := ["xy", "x~y"]

  /** Every step line of the smallest merge's run. */
  const PairSteps: seq<string> := [
    "x~y + xy ",
    "x~y + xy = x",
    "Minterm Expansion: x ",
    "",
    "x ",
    "No further reductions found.",
    "Final Expression: x "]

  // ---------------------------------------------------------------------
  // The stages for lists of any terms of the right shape.
  // ---------------------------------------------------------------------

  /** A term with fewer ones goes in front of a one-term list. */
  lemma InsertIntoOne(e: Term, a: Term)
    requires Ones(e) < Ones(a)
    ensures SortedInsert([a], e) == [e, a]
  {
    assert InsertionIndex(e, [a], 0, 0) == 0;
    assert [a][..0] + [e] + [a][0..] == [e, a];
  }

  /** A term with fewer ones than the first of two goes in front. */
  lemma InsertIntoTwo(e: Term, a: Term, b: Term)
    requires Ones(e) < Ones(a)
    ensures SortedInsert([a, b], e) == [e, a, b]
  {
    assert InsertionIndex(e, [a, b], 0, -1) == 0;
    assert InsertionIndex(e, [a, b], 0, 1) == 0;
    assert [a, b][..0] + [e] + [a, b][0..] == [e, a, b];
  }

  /** The search in two terms meets the first, which has as many ones, and inserts there. */
  lemma InsertBeforeEqual(e: Term, a: Term, b: Term)
    requires Ones(e) == Ones(a)
    ensures SortedInsert([a, b], e) == [e, a, b]
  {
    assert InsertionIndex(e, [a, b], 0, 1) == 0;
    assert [a, b][..0] + [e] + [a, b][0..] == [e, a, b];
  }

  /** The search in three terms meets the middle one, then the first, which has as many ones. */
  lemma InsertIntoThree(e: Term, a: Term, b: Term, c: Term)
    requires Ones(e) == Ones(a) && Ones(e) < Ones(b)
    ensures SortedInsert([a, b, c], e) == [e, a, b, c]
  {
    assert InsertionIndex(e, [a, b, c], 0, 0) == 0;
    assert InsertionIndex(e, [a, b, c], 0, 2) == 0;
    assert [a, b, c][..0] + [e] + [a, b, c][0..] == [e, a, b, c];
  }

  /** The search in four terms meets the second, which has as many ones, and inserts there. */
  lemma InsertIntoFour(e: Term, a: Term, b: Term, c: Term, d: Term)
    requires Ones(e) == Ones(b)
    ensures SortedInsert([a, b, c, d], e) == [a, e, b, c, d]
  {
    var ts := [a, b, c, d];
    assert InsertionIndex(e, ts, 0, 3) == 1;
    assert ts[..1] + [e] + ts[1..] == [a, e, b, c, d];
  }

  /** The search in five terms passes the middle one, then meets the fourth, which has as many ones. */
  lemma InsertIntoFive(e: Term, a: Term, b: Term, c: Term, d: Term, f: Term)
    requires Ones(c) < Ones(e) && Ones(e) == Ones(d)
    ensures SortedInsert([a, b, c, d, f], e) == [a, b, c, e, d, f]
  {
    var ts := [a, b, c, d, f];
    assert InsertionIndex(e, ts, 3, 4) == 3;
    assert InsertionIndex(e, ts, 0, 4) == 3;
    assert ts[..3] + [e] + ts[3..] == [a, b, c, e, d, f];
  }

  /** One more piece: the list built so far with the piece's term binary-inserted. */
  lemma BuildStep(pieces: seq<string>, ts: seq<Term>, t: Term)
    requires pieces != []
    requires BuildList(pieces[..|pieces| - 1]) == Ok(ts) && ParseTerm(pieces[|pieces| - 1]) == Ok(t)
    ensures BuildList(pieces) == Ok(SortedInsert(ts, t))
  {
  }

  /** A term never merges with itself: the ones test fails. */
  lemma NotMergeableWithItself(a: Term)
    ensures !Mergeable(a, a)
  {
  }

  /** The double loop over two terms tries the one pair of different terms. */
  lemma MergesOfTwo(a: Term, b: Term)
    ensures Merges([a, b]) == if Mergeable(a, b) then [MergeOf(a, b)] else []
  {
    var ts := [a, b];
    NotMergeableWithItself(a);
    NotMergeableWithItself(b);
    assert RowMerges(ts, 0, 1) == [];
    assert RowMerges(ts, 1, 2) == [];
    assert ScanMerges(ts, 1) == RowMerges(ts, 0, 2);
  }

  /** What the loop accumulates from two merges. */
  lemma AccumulateTwo(m: Merge, n: Merge)
    ensures Combined([m, n]) == [m.merged, n.merged]
    ensures Obsolete([m, n]) == [m.left, m.right, n.left, n.right]
  {
    assert [m, n][..1] == [m];
  }

  /** The step lines the loop records for two merges. */
  lemma TraceLinesTwo(m: Merge, n: Merge)
    ensures TraceLines([m, n]) == [TraceLine(m), TraceLine(n)]
  {
    assert [m, n][..1] == [m] && [m, n][1] == n;
    assert [m][..0] == [] && [m][0] == m;
    assert TraceLines([m]) == [TraceLine(m)];
  }

  /** A pass with two merges records the expression and the two merge lines. */
  lemma PassStepsTwo(e: string, ts: seq<Term>, m: Merge, n: Merge)
    requires Merges(ts) == [m, n]
    ensures PassSteps(e, ts) == [e, TraceLine(m), TraceLine(n)]
  {
    TraceLinesTwo(m, n);
    assert [e] + [TraceLine(m), TraceLine(n)] == [e, TraceLine(m), TraceLine(n)];
  }

  /** A pass with one merge records the expression and the merge line. */
  lemma PassStepsOne(e: string, ts: seq<Term>, m: Merge)
    requires Merges(ts) == [m]
    ensures PassSteps(e, ts) == [e, TraceLine(m)]
  {
    assert [m][..0] == [] && [m][0] == m;
    assert TraceLines([m]) == [TraceLine(m)];
    assert [e] + [TraceLine(m)] == [e, TraceLine(m)];
  }

  /** A pass with no merge records the expression alone. */
  lemma PassStepsNone(e: string, ts: seq<Term>)
    requires Merges(ts) == []
    ensures PassSteps(e, ts) == [e]
  {
    assert [e] + [] == [e];
  }

  /** What the loop accumulates from one merge. */
  lemma AccumulateOne(m: Merge)
    ensures Combined([m]) == [m.merged]
    ensures Obsolete([m]) == [m.left, m.right]
  {
    assert [m][..0] == [];
  }

  lemma InsertAllTwo(ts: seq<Term>, c: Term, d: Term)
    ensures InsertAll(ts, [c, d]) == SortedInsert(SortedInsert(ts, c), d)
  {
    var cs := [c, d];
    assert cs[..1] == [c] && cs[1] == d;
    assert [c][..0] == [] && [c][0] == c;
    assert InsertAll(ts, [c]) == SortedInsert(ts, c);
  }

  lemma RemoveAllTwo(ts: seq<Term>, o: Term, p: Term)
    ensures RemoveAll(ts, [o, p]) == RemoveFirst(RemoveFirst(ts, o), p)
  {
    var os := [o, p];
    assert os[..1] == [o] && os[1] == p;
    assert [o][..0] == [] && [o][0] == o;
    assert RemoveAll(ts, [o]) == RemoveFirst(ts, o);
  }

  lemma RemoveAllFour(ts: seq<Term>, o: Term, p: Term, q: Term, r: Term)
    ensures RemoveAll(ts, [o, p, q, r]) ==
      RemoveFirst(RemoveFirst(RemoveFirst(RemoveFirst(ts, o), p), q), r)
  {
    var os := [o, p, q, r];
    assert os[..3] == [o, p, q] && os[3] == r;
    assert [o, p, q][..2] == [o, p] && [o, p, q][2] == q;
    RemoveAllTwo(ts, o, p);
    assert RemoveAll(ts, [o, p, q]) == RemoveFirst(RemoveAll(ts, [o, p]), q);
  }

  lemma RemoveFirstSkips(y: Term, ts: seq<Term>, x: Term)
    requires y != x
    ensures RemoveFirst([y] + ts, x) == [y] + RemoveFirst(ts, x)
  {
    assert ([y] + ts)[1..] == ts;
  }

  lemma RemoveFirstHits(x: Term, ts: seq<Term>)
    ensures RemoveFirst([x] + ts, x) == ts
  {
    assert ([x] + ts)[1..] == ts;
  }

  /** removeDuplicates keeps the first copy of a repeated term. */
  lemma DedupRepeat(a: Term, b: Term)
    requires a != b
    ensures Dedup([a, a, b]) == [a, b]
  {
    assert [a, a, b][..2] == [a, a] && [a, a][..1] == [a];
    assert Dedup([a]) == [a];
    assert Dedup([a, a]) == [a];
  }

  /** Two terms that do not combine and differ make a list that a pass leaves alone. */
  lemma StableTwo(a: Term, b: Term)
    requires !Mergeable(a, b) && a != b
    ensures Merges([a, b]) == [] && Iterate([a, b]) == [a, b]
  {
    MergesOfTwo(a, b);
    assert [a, b][..1] == [a];
    assert Dedup([a]) == [a];
  }

  /** A single term makes a list that a pass leaves alone. */
  lemma StableOne(a: Term)
    ensures Merges([a]) == [] && Iterate([a]) == [a]
  {
    NotMergeableWithItself(a);
    assert RowMerges([a], 0, 1) == [];
    assert Merges([a]) == ScanMerges([a], 0) + RowMerges([a], 0, 1);
    assert Combined([]) == [] && Obsolete([]) == [];
    assert RemoveAll(InsertAll([a], []), []) == [a];
    assert [a][..0] == [] && [a][0] == a;
    assert Dedup([a]) == [a];
  }

  /**
   * A run whose first pass changes the list and whose second pass does not:
   * it ends at the second list when a recursive call is allowed.
   */
  lemma SettleTwoPasses(ts: seq<Term>, next: seq<Term>, fuel: nat)
    requires ts != [] && next != [] && next != ts
    requires Iterate(ts) == next && Iterate(next) == next
    ensures Settle(ts, fuel) == if fuel == 0 then Ending(OutOfFuel, next) else Ending(FixedPoint, next)
  {
    if fuel > 0 {
      assert Settle(next, fuel - 1) == Ending(FixedPoint, next);
    }
  }

  /** The step lines of such a run. */
  lemma TraceTwoPasses(ts: seq<Term>, next: seq<Term>, fuel: nat, e: string, e2: string)
    requires ts != [] && next != [] && next != ts
    requires Iterate(ts) == next && Iterate(next) == next
    requires ExpressionToString(ts) == Some(e) && ExpressionToString(next) == Some(e2)
    ensures Trace(ts, fuel) ==
      PassSteps(e, ts) + [ExpansionPrefix + e2, ""] + (if fuel == 0 then [] else PassSteps(e2, next) + [NoFurther])
  {
    if fuel > 0 {
      assert Trace(next, fuel - 1) == PassSteps(e2, next) + [NoFurther];
    }
  }

  /** quineMcCluskey on such a run, when the display sort keeps the reduced list as it is. */
  lemma MinimizeTwoPasses(pieces: seq<string>, ts: seq<Term>, next: seq<Term>, fuel: nat, e: string, e2: string)
    requires BuildList(pieces) == Ok(ts)
    requires ts != [] && next != [] && next != ts
    requires Iterate(ts) == next && Iterate(next) == next && SortByRank(next) == next
    requires ExpressionToString(ts) == Some(e) && ExpressionToString(next) == Some(e2)
    ensures fuel == 0 ==>
      Minimize(pieces, fuel) == Outcome(Err(FuelExhausted), PassSteps(e, ts) + [ExpansionPrefix + e2, ""])
    ensures fuel > 0 ==>
      Minimize(pieces, fuel) == Outcome(Ok(next),
        PassSteps(e, ts) + [ExpansionPrefix + e2, ""] + (PassSteps(e2, next) + [NoFurther]) + [FinalPrefix + e2])
  {
    SettleTwoPasses(ts, next, fuel);
    TraceTwoPasses(ts, next, fuel, e, e2);
    var steps := PassSteps(e, ts) + [ExpansionPrefix + e2, ""];
    if fuel == 0 {
      MinimizeOutOfFuel(pieces, ts, fuel, steps);
    } else {
      MinimizeSettled(pieces, ts, next, fuel, steps + (PassSteps(e2, next) + [NoFurther]), e2);
    }
  }

  /** A run that reaches a fixed point: the display-sorted terms and the final expression line. */
  lemma MinimizeSettled(pieces: seq<string>, ts: seq<Term>, next: seq<Term>, fuel: nat, steps: seq<string>, e2: string)
    requires BuildList(pieces) == Ok(ts)
    requires Settle(ts, fuel) == Ending(FixedPoint, next) && Trace(ts, fuel) == steps
    requires SortByRank(next) == next && ExpressionToString(next) == Some(e2)
    ensures Minimize(pieces, fuel) == Outcome(Ok(next), steps + [FinalPrefix + e2])
  {
  }

  /** A run that runs out of recursive calls: no final expression, the steps so far. */
  lemma MinimizeOutOfFuel(pieces: seq<string>, ts: seq<Term>, fuel: nat, steps: seq<string>)
    requires BuildList(pieces) == Ok(ts)
    requires Settle(ts, fuel).status == OutOfFuel && Trace(ts, fuel) == steps
    ensures Minimize(pieces, fuel) == Outcome(Err(FuelExhausted), steps)
  {
  }

  /** The display sort keeps two terms whose ranks are in order. */
  lemma SortTwoInOrder(a: Term, b: Term)
    requires RateTermOrder(a) <= RateTermOrder(b)
    ensures SortByRank([a, b]) == [a, b]
  {
    assert [a, b][..1] == [a] && [a, b][1] == b;
    assert [a][..0] == [] && [a][0] == a && [a][1..] == [];
    assert SortBy([a], RateTermOrder) == InsertBy(a, [], RateTermOrder) == [a];
    assert InsertBy(b, [a], RateTermOrder) == [a] + InsertBy(b, [], RateTermOrder);
    assert [a] + [b] == [a, b];
  }

  /** The separated rendering of two terms. */
  lemma SeparatedTwo(a: Term, b: Term)
    ensures Separated([a, b]) == TermToString(a) + " + " + TermToString(b)
  {
    assert [a, b][1..] == [b];
  }

  /** The separated rendering of four terms, nested the way the recursion builds it. */
  lemma SeparatedFour(a: Term, b: Term, c: Term, d: Term)
    ensures Separated([a, b, c, d]) ==
      TermToString(a) + " + " + (TermToString(b) + " + " + (TermToString(c) + " + " + TermToString(d)))
  {
    var ts := [a, b, c, d];
    SeparatedTwo(c, d);
    assert [b, c, d][1..] == [c, d] && [b, c, d][0] == b;
    assert Separated([b, c, d]) == TermToString(b) + " + " + Separated([c, d]);
    assert ts[1..] == [b, c, d] && ts[0] == a;
    assert Separated(ts) == TermToString(a) + " + " + Separated([b, c, d]);
  }

  /** A term whose keys are listed in ascending order renders key by key in that order. */
  lemma Spelled(t: Term, ks: seq<char>)
    requires Ascending(ks)
    requires forall c :: c in ks <==> c in t
    ensures TermToString(t) == RenderKeys(t, ks)
  {
    SortedKeysUnique(ks, t.Keys);
    TermToStringIsRenderKeys(t);
  }

  lemma SpelledXYZ(t: Term)
    requires t.Keys == {'x', 'y', 'z'}
    ensures TermToString(t) == LiteralString('x', t['x']) + LiteralString('y', t['y']) + LiteralString('z', t['z'])
  {
    var ks := ['x', 'y', 'z'];
    Spelled(t, ks);
    assert ks[1..] == ['y', 'z'] && ks[1..][1..] == ['z'] && ['z'][1..] == [];
    assert RenderKeys(t, ['z']) == LiteralString('z', t['z']);
    assert RenderKeys(t, ['y', 'z']) == LiteralString('y', t['y']) + LiteralString('z', t['z']);
  }

  lemma SpelledTwo(t: Term, k: char, l: char)
    requires k < l && t.Keys == {k, l}
    ensures TermToString(t) == LiteralString(k, t[k]) + LiteralString(l, t[l])
  {
    var ks := [k, l];
    Spelled(t, ks);
    assert ks[1..] == [l] && [l][1..] == [];
    assert RenderKeys(t, [l]) == LiteralString(l, t[l]);
  }

  lemma SpelledOne(t: Term, k: char)
    requires t.Keys == {k}
    ensures TermToString(t) == LiteralString(k, t[k])
  {
    Spelled(t, [k]);
    assert [k][1..] == [];
  }

  // ---------------------------------------------------------------------
  // The terms of the two runs.
  // ---------------------------------------------------------------------

  /** Every piece of the two runs parses to the term it spells. */
  lemma DocumentedParses()
    ensures ParseTerm("xyz") == Ok(XYZ)
    ensures ParseTerm("x~yz") == Ok(XnYZ)
    ensures ParseTerm("x~y") == Ok(XnY)
    ensures ParseTerm("x~y~z") == Ok(XnYnZ)
    ensures ParseTerm("xy") == Ok(XY)
  {
  }

  /** The ones-counts that decide the insertion order and which pairs the loop tries. */
  lemma DocumentedOnes()
    ensures Ones(XYZ) == 3 && Ones(XnYZ) == 2 && Ones(XnY) == 1 && Ones(XnYnZ) == 1
    ensures Ones(XZ) == 2 && Ones(XY) == 2 && Ones(X) == 1
  {
    assert OnesKeys(XYZ) == {'x', 'y', 'z'};
    assert OnesKeys(XnYZ) == {'x', 'z'};
    assert OnesKeys(XnY) == {'x'};
    assert OnesKeys(XnYnZ) == {'x'};
    assert OnesKeys(XZ) == {'x', 'z'};
    assert OnesKeys(XY) == {'x', 'y'};
    assert OnesKeys(X) == {'x'};
  }

  /** The terms as termToString writes them. */
  lemma DocumentedStrings()
    ensures TermToString(XYZ) == "xyz" && TermToString(XnYZ) == "x~yz"
    ensures TermToString(XnY) == "x~y" && TermToString(XnYnZ) == "x~y~z"
    ensures TermToString(XZ) == "xz" && TermToString(XY) == "xy" && TermToString(X) == "x"
  {
    ThreeVariableStrings();
    TwoVariableStrings();
    SpelledOne(X, 'x');
    assert X['x'] == 1;
  }

  lemma ThreeVariableStrings()
    ensures TermToString(XYZ) == "xyz" && TermToString(XnYZ) == "x~yz" && TermToString(XnYnZ) == "x~y~z"
  {
    SpelledXYZ(XYZ);
    SpelledXYZ(XnYZ);
    SpelledXYZ(XnYnZ);
    assert XYZ['x'] == 1 && XYZ['y'] == 1 && XYZ['z'] == 1;
    assert XnYZ['x'] == 1 && XnYZ['y'] == 0 && XnYZ['z'] == 1;
    assert XnYnZ['x'] == 1 && XnYnZ['y'] == 0 && XnYnZ['z'] == 0;
  }

  lemma TwoVariableStrings()
    ensures TermToString(XnY) == "x~y" && TermToString(XZ) == "xz" && TermToString(XY) == "xy"
  {
    SpelledTwo(XnY, 'x', 'y');
    SpelledTwo(XZ, 'x', 'z');
    SpelledTwo(XY, 'x', 'y');
    assert XnY['x'] == 1 && XnY['y'] == 0;
    assert XZ['x'] == 1 && XZ['z'] == 1;
    assert XY['x'] == 1 && XY['y'] == 1;
  }

  /** The terms are pairwise different where the runs compare them. */
  lemma DocumentedDistinct()
    ensures XnYZ != XnY && XnYZ != XZ && XYZ != XnY && XYZ != XZ && XnYZ != XYZ
    ensures XnY != XZ && XnYnZ != XnY
    ensures XnY != XY && X != XnY && X != XY
  {
    assert XnYZ['y'] == 0 && XYZ['y'] == 1;
    assert 'z' !in XnY && 'y' !in XZ && 'z' in XnYnZ && 'y' !in X;
    assert XnY['y'] == 0 && XY['y'] == 1;
  }

  /** x~y~z and x~yz differ only in z and merge into x~y; x~yz and xyz differ only in y and merge into xz. */
  lemma ExampleCombinations()
    ensures Mergeable(XnYnZ, XnYZ) && Combine(XnYnZ, XnYZ) == XnY
    ensures Mergeable(XnYZ, XYZ) && Combine(XnYZ, XYZ) == XZ
  {
    DocumentedOnes();
    assert DiffKeys(XnYnZ, XnYZ) == {'z'};
    assert DiffKeys(XnYZ, XYZ) == {'y'};
    assert Combine(XnYnZ, XnYZ).Keys == {'x', 'y'};
    assert Combine(XnYZ, XYZ).Keys == {'x', 'z'};
  }

  /** Every other pair the loop looks at fails the ones test or has other variables. */
  lemma ExampleNonCombinations()
    ensures !Mergeable(XnYnZ, XnYnZ) && !Mergeable(XnYnZ, XnY) && !Mergeable(XnYnZ, XYZ)
    ensures !Mergeable(XnY, XnY) && !Mergeable(XnY, XnYZ) && !Mergeable(XnY, XYZ)
    ensures !Mergeable(XnYZ, XnYZ) && !Mergeable(XYZ, XYZ)
    ensures !Mergeable(XnY, XZ)
  {
    DocumentedOnes();
    assert 'z' in XnYZ.Keys && 'z' !in XnY.Keys;
    assert 'y' in XnY.Keys && 'y' !in XZ.Keys;
  }

  // ---------------------------------------------------------------------
  // The example expression, xyz + x~yz + x~y + x~y~z.
  // ---------------------------------------------------------------------

  lemma BuildFirstTwo()
    ensures BuildList(["xyz", "x~yz"]) == Ok([XnYZ, XYZ])
  {
    var p: seq<string> := ["xyz", "x~yz"];
    DocumentedOnes();
    InsertIntoOne(XnYZ, XYZ);
    DocumentedParses();
    assert p[..1] == ["xyz"] && p[1] == "x~yz";
    assert BuildList(["xyz"]) == Ok([XYZ]) by {
      assert ["xyz"][..0] == [] && ["xyz"][0] == "xyz";
      BuildStep(["xyz"], [], XYZ);
      assert SortedInsert([], XYZ) == [XYZ];
    }
    BuildStep(p, [XYZ], XnYZ);
  }

  lemma BuildFirstThree()
    ensures BuildList(["xyz", "x~yz", "x~y"]) == Ok([XnY, XnYZ, XYZ])
  {
    var p: seq<string> := ["xyz", "x~yz", "x~y"];
    BuildFirstTwo();
    DocumentedOnes();
    InsertIntoTwo(XnY, XnYZ, XYZ);
    assert p[..2] == ["xyz", "x~yz"] && p[2] == "x~y";
    DocumentedParses();
    BuildStep(p, [XnYZ, XYZ], XnY);
  }

  /** The list built from the example: x~y~z, x~y, x~yz, xyz. */
  lemma ExampleBuild()
    ensures BuildList(ExamplePieces) == Ok(ExampleList)
  {
    var p := ExamplePieces;
    BuildFirstThree();
    DocumentedOnes();
    InsertIntoThree(XnYnZ, XnY, XnYZ, XYZ);
    assert p[..3] == ["xyz", "x~yz", "x~y"] && p[3] == "x~y~z";
    DocumentedParses();
    BuildStep(p, [XnY, XnYZ, XYZ], XnYnZ);
  }

  /** The merges of the first pass over the example list, in loop order. */
  lemma ExampleMerges()
    ensures Merges(ExampleList) == [Merge(XnYnZ, XnYZ, XnY), Merge(XnYZ, XYZ, XZ)]
  {
    ExampleCombinations();
    ExampleNonCombinations();
    var ts := ExampleList;
    assert RowMerges(ts, 0, 4) == [Merge(XnYnZ, XnYZ, XnY)] by {
      assert RowMerges(ts, 0, 1) == [];
      assert RowMerges(ts, 0, 2) == [];
      assert RowMerges(ts, 0, 3) == [Merge(XnYnZ, XnYZ, XnY)];
    }
    assert RowMerges(ts, 1, 4) == [] by {
      assert RowMerges(ts, 1, 2) == [];
      assert RowMerges(ts, 1, 3) == [];
    }
    assert RowMerges(ts, 2, 4) == [Merge(XnYZ, XYZ, XZ)] by {
      assert RowMerges(ts, 2, 3) == [];
    }
    assert RowMerges(ts, 3, 4) == [];
    assert ScanMerges(ts, 1) == [Merge(XnYnZ, XnYZ, XnY)];
    assert ScanMerges(ts, 2) == [Merge(XnYnZ, XnYZ, XnY)];
    assert ScanMerges(ts, 3) == [Merge(XnYnZ, XnYZ, XnY), Merge(XnYZ, XYZ, XZ)];
  }

  /** The merged terms x~y and xz go in among the terms with as many ones. */
  lemma FirstPassInsertions()
    ensures InsertAll(ExampleList, [XnY, XZ]) == [XnYnZ, XnY, XnY, XZ, XnYZ, XYZ]
  {
    DocumentedOnes();
    InsertAllTwo(ExampleList, XnY, XZ);
    InsertIntoFour(XnY, XnYnZ, XnY, XnYZ, XYZ);
    InsertIntoFive(XZ, XnYnZ, XnY, XnY, XnYZ, XYZ);
  }

  lemma FirstRemoval()
    ensures RemoveFirst([XnYnZ, XnY, XnY, XZ, XnYZ, XYZ], XnYnZ) == [XnY, XnY, XZ, XnYZ, XYZ]
  {
    RemoveFirstHits(XnYnZ, [XnY, XnY, XZ, XnYZ, XYZ]);
    assert [XnYnZ] + [XnY, XnY, XZ, XnYZ, XYZ] == [XnYnZ, XnY, XnY, XZ, XnYZ, XYZ];
  }

  lemma SecondRemoval()
    ensures RemoveFirst([XnY, XnY, XZ, XnYZ, XYZ], XnYZ) == [XnY, XnY, XZ, XYZ]
  {
    DocumentedDistinct();
    RemoveFirstHits(XnYZ, [XYZ]);
    RemoveFirstSkips(XZ, [XnYZ, XYZ], XnYZ);
    RemoveFirstSkips(XnY, [XZ, XnYZ, XYZ], XnYZ);
    RemoveFirstSkips(XnY, [XnY, XZ, XnYZ, XYZ], XnYZ);
    assert [XnYZ] + [XYZ] == [XnYZ, XYZ];
    assert [XZ] + [XnYZ, XYZ] == [XZ, XnYZ, XYZ];
    assert [XnY] + [XZ, XnYZ, XYZ] == [XnY, XZ, XnYZ, XYZ];
    assert [XnY] + [XnY, XZ, XnYZ, XYZ] == [XnY, XnY, XZ, XnYZ, XYZ];
    assert [XZ] + [XYZ] == [XZ, XYZ];
    assert [XnY] + [XZ, XYZ] == [XnY, XZ, XYZ];
    assert [XnY] + [XnY, XZ, XYZ] == [XnY, XnY, XZ, XYZ];
  }

  /** The second copy of x~yz finds nothing to remove. */
  lemma ThirdRemoval()
    ensures RemoveFirst([XnY, XnY, XZ, XYZ], XnYZ) == [XnY, XnY, XZ, XYZ]
  {
    DocumentedDistinct();
    RemoveFirstSkips(XYZ, [], XnYZ);
    RemoveFirstSkips(XZ, [XYZ], XnYZ);
    RemoveFirstSkips(XnY, [XZ, XYZ], XnYZ);
    RemoveFirstSkips(XnY, [XnY, XZ, XYZ], XnYZ);
    assert [XYZ] + [] == [XYZ];
    assert [XZ] + [XYZ] == [XZ, XYZ];
    assert [XnY] + [XZ, XYZ] == [XnY, XZ, XYZ];
    assert [XnY] + [XnY, XZ, XYZ] == [XnY, XnY, XZ, XYZ];
  }

  lemma FourthRemoval()
    ensures RemoveFirst([XnY, XnY, XZ, XYZ], XYZ) == [XnY, XnY, XZ]
  {
    DocumentedDistinct();
    RemoveFirstHits(XYZ, []);
    RemoveFirstSkips(XZ, [XYZ], XYZ);
    RemoveFirstSkips(XnY, [XZ, XYZ], XYZ);
    RemoveFirstSkips(XnY, [XnY, XZ, XYZ], XYZ);
    assert [XYZ] + [] == [XYZ];
    assert [XZ] + [] == [XZ];
    assert [XnY] + [XZ] == [XnY, XZ];
    assert [XnY] + [XnY, XZ] == [XnY, XnY, XZ];
    assert [XZ] + [XYZ] == [XZ, XYZ];
    assert [XnY] + [XZ, XYZ] == [XnY, XZ, XYZ];
    assert [XnY] + [XnY, XZ, XYZ] == [XnY, XnY, XZ, XYZ];
  }

  /** One copy of each merged-away term goes: x~y~z, x~yz, nothing for the second x~yz, then xyz. */
  lemma FirstPassRemovals()
    ensures RemoveAll([XnYnZ, XnY, XnY, XZ, XnYZ, XYZ], [XnYnZ, XnYZ, XnYZ, XYZ]) == [XnY, XnY, XZ]
  {
    RemoveAllFour([XnYnZ, XnY, XnY, XZ, XnYZ, XYZ], XnYnZ, XnYZ, XnYZ, XYZ);
    FirstRemoval();
    SecondRemoval();
    ThirdRemoval();
    FourthRemoval();
  }

  /**
   * The first pass: x~y and xz are inserted by ones-count, one copy each of
   * x~y~z, x~yz (the second copy is gone already) and xyz is removed, and
   * the duplicate x~y is dropped.
   */
  lemma ExampleFirstPass()
    ensures Iterate(ExampleList) == ExampleResult
  {
    ExampleMerges();
    AccumulateTwo(Merge(XnYnZ, XnYZ, XnY), Merge(XnYZ, XYZ, XZ));
    FirstPassInsertions();
    FirstPassRemovals();
    DocumentedDistinct();
    DedupRepeat(XnY, XZ);
  }

  /** The second pass finds no merge and no duplicate: the example list is reduced. */
  lemma ExampleSecondPass()
    ensures Merges(ExampleResult) == [] && Iterate(ExampleResult) == ExampleResult
  {
    ExampleNonCombinations();
    DocumentedDistinct();
    StableTwo(XnY, XZ);
  }

  /** With at least one recursive call allowed the run reaches x~y, xz and stops there. */
  lemma ExampleSettle(fuel: nat)
    ensures Settle(ExampleList, fuel) ==
      if fuel == 0 then Ending(OutOfFuel, ExampleResult) else Ending(FixedPoint, ExampleResult)
  {
    ExampleFirstPass();
    ExampleSecondPass();
    SettleTwoPasses(ExampleList, ExampleResult, fuel);
  }

  /** x~y ranks 67 and xz 68: x, y and z count 33, 34 and 35, and "~" counts nothing. */
  lemma ExampleRanks()
    ensures RateTermOrder(XnY) == 67 && RateTermOrder(XZ) == 68
  {
    TwoVariableStrings();
    RankSpelling();
  }

  lemma RankSpelling()
    ensures Rank("x~y") == 67 && Rank("xz") == 68
  {
    assert "x~y"[1..] == "~y" && "~y"[1..] == "y" && "y"[1..] == "";
    assert Rank("y") == 34;
    assert Rank("~y") == 34;
    assert "xz"[1..] == "z" && "z"[1..] == "";
    assert Rank("z") == 35;
  }

  /** The display sort keeps x~y before xz. */
  lemma ExampleDisplay()
    ensures SortByRank(ExampleResult) == ExampleResult
  {
    ExampleRanks();
    SortTwoInOrder(XnY, XZ);
  }

  lemma ListSpelling()
    ensures "x~y~z" + " + " + ("x~y" + " + " + ("x~yz" + " + " + "xyz")) + " " == "x~y~z + x~y + x~yz + xyz "
  {
  }

  lemma ResultSpelling()
    ensures "x~y" + " + " + "xz" + " " == "x~y + xz "
  {
  }

  /** The expressions the run writes: the built list, and the reduced one. */
  lemma ExampleExpressions()
    ensures ExpressionToString(ExampleList) == Some("x~y~z + x~y + x~yz + xyz ")
    ensures ExpressionToString(ExampleResult) == Some("x~y + xz ")
  {
    DocumentedStrings();
    ExpressionHasTrailingSpace(ExampleList);
    ExpressionHasTrailingSpace(ExampleResult);
    SeparatedFour(XnYnZ, XnY, XnYZ, XYZ);
    SeparatedTwo(XnY, XZ);
    ListSpelling();
    ResultSpelling();
  }

  /** The merge lines of the first pass, in loop order. */
  lemma ExampleMergeLines()
    ensures PassSteps("x~y~z + x~y + x~yz + xyz ", ExampleList) ==
      ["x~y~z + x~y + x~yz + xyz ", "x~y~z + x~yz = x~y", "x~yz + xyz = xz"]
  {
    ExampleMerges();
    PassStepsTwo("x~y~z + x~y + x~yz + xyz ", ExampleList, Merge(XnYnZ, XnYZ, XnY), Merge(XnYZ, XYZ, XZ));
    ExampleTraceLines();
  }

  /** The two merge lines, spelled out. */
  lemma ExampleTraceLines()
    ensures TraceLine(Merge(XnYnZ, XnYZ, XnY)) == "x~y~z + x~yz = x~y"
    ensures TraceLine(Merge(XnYZ, XYZ, XZ)) == "x~yz + xyz = xz"
  {
    DocumentedStrings();
    MergeLineSpelling();
  }

  lemma MergeLineSpelling()
    ensures "x~y~z" + " + " + "x~yz" + " = " + "x~y" == "x~y~z + x~yz = x~y"
    ensures "x~yz" + " + " + "xyz" + " = " + "xz" == "x~yz + xyz = xz"
  {
  }

  /** The second pass writes the reduced expression and no merge. */
  lemma ExampleSecondPassLines()
    ensures PassSteps("x~y + xz ", ExampleResult) == ["x~y + xz "]
  {
    ExampleSecondPass();
  }

  lemma ExampleStepsSpelling()
    ensures ["x~y~z + x~y + x~yz + xyz ", "x~y~z + x~yz = x~y", "x~yz + xyz = xz"]
      + [ExpansionPrefix + "x~y + xz ", ""] == ExampleSteps[..5]
    ensures ExampleSteps[..5] + (["x~y + xz "] + [NoFurther]) + [FinalPrefix + "x~y + xz "] == ExampleSteps
  {
    assert ExpansionPrefix + "x~y + xz " == "Minterm Expansion: x~y + xz ";
    assert FinalPrefix + "x~y + xz " == "Final Expression: x~y + xz ";
    assert ExampleSteps[..5] == ExampleSteps[..3] + ExampleSteps[3..5];
    assert ExampleSteps == ExampleSteps[..5] + ExampleSteps[5..7] + ExampleSteps[7..];
  }

  /**
   * quineMcCluskey on the example: with a recursive call allowed it ends
   * with x~y and xz and writes every step line, the merges
   * "x~y~z + x~yz = x~y" and "x~yz + xyz = xz" among them, and
   * "Final Expression: x~y + xz " last; with none it runs out of passes.
   */
  lemma ExampleRun(fuel: nat)
    ensures fuel > 0 ==> Minimize(ExamplePieces, fuel) == Outcome(Ok(ExampleResult), ExampleSteps)
    ensures fuel == 0 ==> Minimize(ExamplePieces, fuel) == Outcome(Err(FuelExhausted), ExampleSteps[..5])
  {
    ExampleBuild();
    ExampleFirstPass();
    ExampleSecondPass();
    ExampleDisplay();
    ExampleExpressions();
    ExampleMergeLines();
    ExampleSecondPassLines();
    MinimizeTwoPasses(ExamplePieces, ExampleList, ExampleResult, fuel,
      "x~y~z + x~y + x~yz + xyz ", "x~y + xz ");
    ExampleStepsSpelling();
  }

  // ---------------------------------------------------------------------
  // The smallest merge, xy + x~y.
  // ---------------------------------------------------------------------

  /** The list built from "xy + x~y": x~y has fewer ones and goes first. */
  lemma PairBuild()
    ensures BuildList(PairPieces) == Ok([XnY, XY])
  {
    var p := PairPieces;
    DocumentedOnes();
    DocumentedParses();
    InsertIntoOne(XnY, XY);
    assert p[..1] == ["xy"] && p[1] == "x~y";
    assert BuildList(["xy"]) == Ok([XY]) by {
      assert ["xy"][..0] == [] && ["xy"][0] == "xy";
      BuildStep(["xy"], [], XY);
      assert SortedInsert([], XY) == [XY];
    }
    BuildStep(p, [XY], XnY);
  }

  /** x~y and xy differ only in y and merge into x. */
  lemma PairMerges()
    ensures Merges([XnY, XY]) == [Merge(XnY, XY, X)]
  {
    DocumentedOnes();
    assert DiffKeys(XnY, XY) == {'y'};
    assert Combine(XnY, XY).Keys == {'x'};
    assert Combine(XnY, XY) == X;
    MergesOfTwo(XnY, XY);
  }

  lemma PairRemovals()
    ensures RemoveAll([X, XnY, XY], [XnY, XY]) == [X]
  {
    DocumentedDistinct();
    RemoveAllTwo([X, XnY, XY], XnY, XY);
    RemoveFirstHits(XnY, [XY]);
    RemoveFirstSkips(X, [XnY, XY], XnY);
    assert [XnY] + [XY] == [XnY, XY];
    assert [X] + [XnY, XY] == [X, XnY, XY];
    assert [X] + [XY] == [X, XY];
    RemoveFirstHits(XY, []);
    RemoveFirstSkips(X, [XY], XY);
    assert [XY] + [] == [XY];
    assert [X] + [] == [X];
  }

  /** The pass inserts x in front of x~y, removes one copy of x~y and of xy, and leaves x. */
  lemma PairFirstPass()
    ensures Iterate([XnY, XY]) == [X]
  {
    PairMerges();
    AccumulateOne(Merge(XnY, XY, X));
    DocumentedOnes();
    assert InsertAll([XnY, XY], [X]) == [X, XnY, XY] by {
      assert [X][..0] == [];
      InsertBeforeEqual(X, XnY, XY);
    }
    PairRemovals();
    assert Dedup([X]) == [X];
  }

  /** The run on "xy + x~y" ends with x alone when a recursive call is allowed. */
  lemma PairSettle(fuel: nat)
    ensures Settle([XnY, XY], fuel) == if fuel == 0 then Ending(OutOfFuel, [X]) else Ending(FixedPoint, [X])
  {
    PairFirstPass();
    StableOne(X);
    DocumentedDistinct();
    SettleTwoPasses([XnY, XY], [X], fuel);
  }

  lemma PairSpelling()
    ensures "x~y" + " + " + "xy" + " " == "x~y + xy "
    ensures "x" + " " == "x "
  {
  }

  /** The expressions of the run on "xy + x~y". */
  lemma PairExpressions()
    ensures ExpressionToString([XnY, XY]) == Some("x~y + xy ")
    ensures ExpressionToString([X]) == Some("x ")
  {
    TwoVariableStrings();
    SpelledOne(X, 'x');
    assert X['x'] == 1 && LiteralString('x', 1) == "x";
    assert TermToString(X) == "x";
    ExpressionHasTrailingSpace([XnY, XY]);
    ExpressionHasTrailingSpace([X]);
    SeparatedTwo(XnY, XY);
    assert Separated([X]) == TermToString(X);
    PairSpelling();
  }

  /** The merge line of the run on "xy + x~y", and the second pass with none. */
  lemma PairLines()
    ensures PassSteps("x~y + xy ", [XnY, XY]) == ["x~y + xy ", "x~y + xy = x"]
    ensures PassSteps("x ", [X]) == ["x "]
  {
    PairMerges();
    PassStepsOne("x~y + xy ", [XnY, XY], Merge(XnY, XY, X));
    PairTraceLine();
    StableOne(X);
    PassStepsNone("x ", [X]);
  }

  lemma PairTraceLine()
    ensures TraceLine(Merge(XnY, XY, X)) == "x~y + xy = x"
  {
    DocumentedStrings();
    PairLineSpelling();
  }

  lemma PairLineSpelling()
    ensures "x~y" + " + " + "xy" + " = " + "x" == "x~y + xy = x"
  {
  }

  lemma PairStepsSpelling()
    ensures ["x~y + xy ", "x~y + xy = x"] + [ExpansionPrefix + "x ", ""] == PairSteps[..4]
    ensures PairSteps[..4] + (["x "] + [NoFurther]) + [FinalPrefix + "x "] == PairSteps
  {
    assert ExpansionPrefix + "x " == "Minterm Expansion: x ";
    assert FinalPrefix + "x " == "Final Expression: x ";
    assert PairSteps[..4] == PairSteps[..2] + PairSteps[2..4];
    assert PairSteps == PairSteps[..4] + PairSteps[4..6] + PairSteps[6..];
  }

  /**
   * quineMcCluskey on "xy + x~y": with a recursive call allowed it ends
   * with the single term x, writing the merge "x~y + xy = x" and then
   * "Final Expression: x " last.
   */
  lemma PairRun(fuel: nat)
    ensures fuel > 0 ==> Minimize(PairPieces, fuel) == Outcome(Ok([X]), PairSteps)
    ensures fuel == 0 ==> Minimize(PairPieces, fuel) == Outcome(Err(FuelExhausted), PairSteps[..4])
  {
    PairBuild();
    PairFirstPass();
    StableOne(X);
    DocumentedDistinct();
    assert SortByRank([X]) == [X] by {
      assert [X][..0] == [];
    }
    PairExpressions();
    PairLines();
    MinimizeTwoPasses(PairPieces, [XnY, XY], [X], fuel, "x~y + xy ", "x ");
    PairStepsSpelling();
  }
}
