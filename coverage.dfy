/**
 * What the minimisation keeps: the sum of products a list of terms denotes.
 * A term covers an assignment of bits to variables when every variable of
 * the term has its literal's value there; a list covers an assignment when
 * one of its terms does. A pass, a whole run and quineMcCluskey never change
 * the set of covered assignments.
 */
module Coverage {
  import opened Wrappers
  import opened Terms
  import opened Parse
  import opened TermLists
  import opened Merging
  import opened Engine
  import opened Outcomes

  /** A value for every variable. */
  type Assignment = char -> Bit

  /** The product term is true under `env`. */
  predicate Covers(t: Term, env: Assignment) {
    forall k :: k in t ==> env(k) == t[k]
  }

  /** The sum of the products is true under `env`. */
  predicate CoversAny(ts: seq<Term>, env: Assignment) {
    exists t :: t in ts && Covers(t, env)
  }

  /**
   * The law the merge applies, xA + ~xA = A: the merged term is true exactly
   * where one of the two terms is.
   */
  lemma CombineCovers(a: Term, b: Term, env: Assignment)
    requires CanCombine(a, b)
    ensures Covers(Combine(a, b), env) <==> Covers(a, env) || Covers(b, env)
  {
    CanCombineIff(a, b);
    var k :| k in a && a[k] != b[k] &&
      forall d :: d in a && d != k ==> a[d] == b[d];
    assert Combine(a, b) == a - {k};
    if Covers(Combine(a, b), env) {
      if env(k) == a[k] {
        forall d | d in a ensures env(d) == a[d] {
          if d != k {
            assert d in a - {k};
          }
        }
      } else {
        assert env(k) == b[k];
        forall d | d in b ensures env(d) == b[d] {
          if d != k {
            assert d in a - {k};
          }
        }
      }
    }
  }

  /** A term merged away is the left or the right term of one of the merges. */
  lemma {:induction false} ObsoleteFrom(ms: seq<Merge>, x: Term)
    requires x in Obsolete(ms)
    ensures exists q :: 0 <= q < |ms| && (ms[q].left == x || ms[q].right == x)
  {
    var init, last := ms[..|ms| - 1], ms[|ms| - 1];
    assert Obsolete(ms) == Obsolete(init) + [last.left, last.right];
    if x in Obsolete(init) {
      ObsoleteFrom(init, x);
      var q :| 0 <= q < |init| && (init[q].left == x || init[q].right == x);
      assert init[q] == ms[q];
    } else {
      assert last.left == x || last.right == x;
    }
  }

  /** A term of the old list or a merged term that is missing from the new list was merged away. */
  lemma Dropped(ts: seq<Term>, x: Term)
    requires x in ts || x in Combined(Merges(ts))
    requires x !in Iterate(ts)
    ensures exists m :: m in Merges(ts) && (m.left == x || m.right == x)
  {
    var ms := Merges(ts);
    IterateMembers(ts, x);
    assert multiset(ts)[x] + multiset(Combined(ms))[x] > 0;
    assert x in Obsolete(ms);
    ObsoleteFrom(ms, x);
    var q :| 0 <= q < |ms| && (ms[q].left == x || ms[q].right == x);
    assert ms[q] in ms;
  }

  /** A term of the old list or a merged term that covers `env` leaves a term of the new list that does. */
  lemma SurvivorCovers(ts: seq<Term>, x: Term, env: Assignment)
    requires Covers(x, env)
    requires x in ts || x in Combined(Merges(ts))
    ensures CoversAny(Iterate(ts), env)
    decreases |x|
  {
    if x !in Iterate(ts) {
      Dropped(ts, x);
      var m :| m in Merges(ts) && (m.left == x || m.right == x);
      MergesSound(ts);
      MergeSizes(ts, m);
      CombineCovers(m.left, m.right, env);
      MergedIsCombined(Merges(ts), m);
      SurvivorCovers(ts, m.merged, env);
    }
  }

  lemma MergedIsCombined(ms: seq<Merge>, m: Merge)
    requires m in ms
    ensures m.merged in Combined(ms)
  {
    var q :| 0 <= q < |ms| && ms[q] == m;
    AccumulatorsAt(ms, q);
  }

  /** Every term of the new list that covers `env` is a term of the old list or the merge of two. */
  lemma NewcomerCovered(ts: seq<Term>, x: Term, env: Assignment)
    requires Covers(x, env) && x in Iterate(ts)
    ensures CoversAny(ts, env)
  {
    var ms := Merges(ts);
    IterateMembers(ts, x);
    if x !in ts {
      var cs := Combined(ms);
      assert x in cs;
      var q :| 0 <= q < |cs| && cs[q] == x;
      AccumulatorsAt(ms, q);
      assert ms[q] in ms;
      MergesSound(ts);
      CombineCovers(ms[q].left, ms[q].right, env);
    }
  }

  /** A pass of recursiveQM keeps exactly the assignments the list covers. */
  lemma PassPreservesCoverage(ts: seq<Term>, env: Assignment)
    ensures CoversAny(Iterate(ts), env) <==> CoversAny(ts, env)
  {
    if CoversAny(ts, env) {
      var t :| t in ts && Covers(t, env);
      SurvivorCovers(ts, t, env);
    }
    if CoversAny(Iterate(ts), env) {
      var t :| t in Iterate(ts) && Covers(t, env);
      NewcomerCovered(ts, t, env);
    }
  }

  /** However a run ends, the list it leaves covers exactly what the list it started from covers. */
  lemma {:induction false} SettlePreservesCoverage(ts: seq<Term>, fuel: nat, env: Assignment)
    ensures CoversAny(Settle(ts, fuel).terms, env) <==> CoversAny(ts, env)
    decreases fuel
  {
    if ts != [] {
      SettleShape(ts, fuel);
      PassPreservesCoverage(ts, env);
      if Iterate(ts) != ts && fuel > 0 {
        SettlePreservesCoverage(Iterate(ts), fuel - 1, env);
      }
    }
  }

  /** Reordering a list (as the display sort does) changes nothing it covers. */
  lemma CoversAnyPermutation(a: seq<Term>, b: seq<Term>, env: Assignment)
    requires multiset(a) == multiset(b)
    ensures CoversAny(a, env) <==> CoversAny(b, env)
  {
    forall t ensures t in a <==> t in b {
      assert t in a <==> t in multiset(a);
      assert t in b <==> t in multiset(b);
    }
  }

  /** The parsed pieces cover what the pieces' terms cover. */
  lemma ParsedCoverage(pieces: seq<string>, env: Assignment)
    requires forall i :: 0 <= i < |pieces| ==> ParseTerm(pieces[i]).Ok?
    ensures CoversAny(ParsedPieces(pieces), env) <==>
      exists i :: 0 <= i < |pieces| && ParseTerm(pieces[i]).Ok? && Covers(ParseTerm(pieces[i]).value, env)
  {
    var parsed := ParsedPieces(pieces);
    if CoversAny(parsed, env) {
      var t :| t in parsed && Covers(t, env);
      var i :| 0 <= i < |parsed| && parsed[i] == t;
      assert ParseTerm(pieces[i]).Ok? && Covers(ParseTerm(pieces[i]).value, env);
    }
    if exists i :: 0 <= i < |pieces| && ParseTerm(pieces[i]).Ok? && Covers(ParseTerm(pieces[i]).value, env) {
      var i :| 0 <= i < |pieces| && ParseTerm(pieces[i]).Ok? && Covers(ParseTerm(pieces[i]).value, env);
      assert parsed[i] in parsed;
    }
  }

  /** The list quineMcCluskey builds covers what the input's terms cover. */
  lemma BuildListCoverage(pieces: seq<string>, env: Assignment)
    requires BuildList(pieces).Ok?
    ensures CoversAny(BuildList(pieces).value, env) <==>
      exists i :: 0 <= i < |pieces| && ParseTerm(pieces[i]).Ok? && Covers(ParseTerm(pieces[i]).value, env)
  {
    BuildListShape(pieces);
    CoversAnyPermutation(BuildList(pieces).value, ParsedPieces(pieces), env);
    ParsedCoverage(pieces, env);
  }

  /**
   * quineMcCluskey's final expression is equivalent to its input: when the
   * run reaches a fixed point, the final terms cover an assignment exactly
   * when one of the input's terms does.
   */
  lemma MinimizeCoverage(pieces: seq<string>, fuel: nat, env: Assignment)
    requires BuildList(pieces).Ok? && Settle(BuildList(pieces).value, fuel).status == FixedPoint
    ensures Minimize(pieces, fuel).result.Ok?
    ensures CoversAny(Minimize(pieces, fuel).result.value, env) <==>
      exists i :: 0 <= i < |pieces| && ParseTerm(pieces[i]).Ok? && Covers(ParseTerm(pieces[i]).value, env)
  {
    var ts := BuildList(pieces).value;
    MinimizeResult(pieces, fuel);
    CoversAnyPermutation(Minimize(pieces, fuel).result.value, Settle(ts, fuel).terms, env);
    SettlePreservesCoverage(ts, fuel, env);
    BuildListCoverage(pieces, env);
  }
}
