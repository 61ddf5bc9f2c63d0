/**
 * One pass of recursiveQM in src/App.java: the double loop that finds every
 * pair of terms that combine, then the list update that inserts the merged
 * terms, removes the terms that were merged and drops duplicates.
 */
module Merging {
  import opened Terms
  import opened Render
  import opened TermLists

  /** One combination found by the double loop: two terms of the list and their merge. */
  datatype Merge = Merge(left: Term, right: Term, merged: Term)

  function Abs(n: int): nat {
    if n < 0 then -n else n
  }

  /** The test the loop applies: Math.abs of the ones difference is 1, then canCombine. */
  predicate Mergeable(a: Term, b: Term) {
    Abs(Ones(a) - Ones(b)) == 1 && CanCombine(a, b)
  }

  /** The ones-count test only saves work: terms that combine always pass it. */
  lemma MergeableIffCanCombine(a: Term, b: Term)
    ensures Mergeable(a, b) <==> CanCombine(a, b)
  {
    if CanCombine(a, b) {
      CombinableOnesDiffer(a, b);
    }
  }

  function MergeOf(a: Term, b: Term): Merge {
    Merge(a, b, Combine(a, b))
  }

  /** The merges the inner loop finds for term `i` against terms i..j-1, in loop order. */
  function RowMerges(ts: seq<Term>, i: int, j: int): seq<Merge>
    requires 0 <= i < |ts| && i <= j <= |ts|
    decreases j - i
  {
    if j == i then []
    else RowMerges(ts, i, j - 1) + (if Mergeable(ts[i], ts[j - 1]) then [MergeOf(ts[i], ts[j - 1])] else [])
  }

  /** The merges of the first `n` rounds of the outer loop. */
  function ScanMerges(ts: seq<Term>, n: int): seq<Merge>
    requires 0 <= n <= |ts|
  {
    if n == 0 then [] else ScanMerges(ts, n - 1) + RowMerges(ts, n - 1, |ts|)
  }

  /** Every merge of one pass, in the order the double loop reports them. */
  function Merges(ts: seq<Term>): seq<Merge> {
    ScanMerges(ts, |ts|)
  }

  /** Two terms of the list that combine, and the term combine makes of them. */
  predicate ValidMerge(ts: seq<Term>, m: Merge) {
    m.left in ts && m.right in ts && CanCombine(m.left, m.right) && m.merged == Combine(m.left, m.right)
  }

  /** Every mergeable pair of the list (in loop order) merges into a value satisfying `P`. */
  predicate PairsHold(ts: seq<Term>, P: Merge -> bool) {
    forall i, k :: 0 <= i <= k < |ts| && Mergeable(ts[i], ts[k]) ==> P(MergeOf(ts[i], ts[k]))
  }

  /** `P` holds at every position of `ms`. */
  predicate AllHold(ms: seq<Merge>, P: Merge -> bool) {
    forall q :: 0 <= q < |ms| ==> P(ms[q])
  }

  lemma AllHoldAppend(a: seq<Merge>, b: seq<Merge>, P: Merge -> bool)
    requires AllHold(a, P) && AllHold(b, P)
    ensures AllHold(a + b, P)
  {
    forall q | 0 <= q < |a + b| ensures P((a + b)[q]) {
      if q >= |a| {
        assert (a + b)[q] == b[q - |a|];
      }
    }
  }

  /** Every merge of a row satisfies `P` when every mergeable pair's merge does. */
  lemma {:induction false} RowMergesHold(ts: seq<Term>, i: int, j: int, P: Merge -> bool)
    requires 0 <= i < |ts| && i <= j <= |ts|
    requires PairsHold(ts, P)
    ensures AllHold(RowMerges(ts, i, j), P)
    decreases j - i
  {
    if j > i {
      RowMergesHold(ts, i, j - 1, P);
      var last := if Mergeable(ts[i], ts[j - 1]) then [MergeOf(ts[i], ts[j - 1])] else [];
      AllHoldAppend(RowMerges(ts, i, j - 1), last, P);
    }
  }

  /** Every merge of the first `n` rows satisfies `P` when every mergeable pair's merge does. */
  lemma {:induction false} ScanMergesHold(ts: seq<Term>, n: int, P: Merge -> bool)
    requires 0 <= n <= |ts|
    requires PairsHold(ts, P)
    ensures AllHold(ScanMerges(ts, n), P)
  {
    if n > 0 {
      ScanMergesHold(ts, n - 1, P);
      RowMergesHold(ts, n - 1, |ts|, P);
      AllHoldAppend(ScanMerges(ts, n - 1), RowMerges(ts, n - 1, |ts|), P);
    }
  }

  /** Every reported merge is of two terms of the list that combine, into their combination. */
  lemma MergesSound(ts: seq<Term>)
    ensures forall m :: m in Merges(ts) ==> ValidMerge(ts, m)
  {
    forall i, k | 0 <= i <= k < |ts| && Mergeable(ts[i], ts[k])
      ensures ValidMerge(ts, MergeOf(ts[i], ts[k]))
    {
    }
    ScanMergesHold(ts, |ts|, m => ValidMerge(ts, m));
    var ms := Merges(ts);
    forall m | m in ms ensures ValidMerge(ts, m) {
      var q :| 0 <= q < |ms| && ms[q] == m;
    }
  }

  lemma InAppendLeft<T>(x: T, a: seq<T>, b: seq<T>)
    requires x in a
    ensures x in a + b
  {
  }

  lemma InAppendRight<T>(x: T, a: seq<T>, b: seq<T>)
    requires x in b
    ensures x in a + b
  {
  }

  lemma {:induction false} RowMergesComplete(ts: seq<Term>, i: int, j: int, k: int)
    requires 0 <= i <= j < k <= |ts| && CanCombine(ts[i], ts[j])
    ensures MergeOf(ts[i], ts[j]) in RowMerges(ts, i, k)
    decreases k
  {
    var x := MergeOf(ts[i], ts[j]);
    var last := if Mergeable(ts[i], ts[k - 1]) then [MergeOf(ts[i], ts[k - 1])] else [];
    if k > j + 1 {
      RowMergesComplete(ts, i, j, k - 1);
      InAppendLeft(x, RowMerges(ts, i, k - 1), last);
    } else {
      MergeableIffCanCombine(ts[i], ts[j]);
      assert last == [x];
      InAppendRight(x, RowMerges(ts, i, k - 1), last);
    }
  }

  lemma {:induction false} ScanMergesComplete(ts: seq<Term>, i: int, j: int, n: int)
    requires 0 <= i <= j < |ts| && i < n <= |ts| && CanCombine(ts[i], ts[j])
    ensures MergeOf(ts[i], ts[j]) in ScanMerges(ts, n)
  {
    var x := MergeOf(ts[i], ts[j]);
    if n == i + 1 {
      RowMergesComplete(ts, i, j, |ts|);
      InAppendRight(x, ScanMerges(ts, n - 1), RowMerges(ts, n - 1, |ts|));
    } else {
      ScanMergesComplete(ts, i, j, n - 1);
      InAppendLeft(x, ScanMerges(ts, n - 1), RowMerges(ts, n - 1, |ts|));
    }
  }

  /** Every pair of terms that combine, taken in list order, is reported. */
  lemma MergesComplete(ts: seq<Term>, i: int, j: int)
    requires 0 <= i <= j < |ts| && CanCombine(ts[i], ts[j])
    ensures MergeOf(ts[i], ts[j]) in Merges(ts)
  {
    ScanMergesComplete(ts, i, j, |ts|);
  }

  /** combinedTerms: the merged terms, in the order they were found. */
  function Combined(ms: seq<Merge>): (cs: seq<Term>)
    ensures |cs| == |ms|
  {
    if ms == [] then [] else Combined(ms[..|ms| - 1]) + [ms[|ms| - 1].merged]
  }

  /** obsoleteTerms: both terms of every merge, in the order they were found. */
  function Obsolete(ms: seq<Merge>): (os: seq<Term>)
    ensures |os| == 2 * |ms|
  {
    if ms == [] then [] else Obsolete(ms[..|ms| - 1]) + [ms[|ms| - 1].left, ms[|ms| - 1].right]
  }

  /** The step the loop records for a merge: "term1 + term2 = combined". */
  function TraceLine(m: Merge): string {
    TermToString(m.left) + " + " + TermToString(m.right) + " = " + TermToString(m.merged)
  }

  function TraceLines(ms: seq<Merge>): (lines: seq<string>)
    ensures |lines| == |ms|
  {
    if ms == [] then [] else TraceLines(ms[..|ms| - 1]) + [TraceLine(ms[|ms| - 1])]
  }

  /** The k-th merged term, the two terms of the k-th merge and its step line sit at the matching positions. */
  lemma {:induction false} AccumulatorsAt(ms: seq<Merge>, k: int)
    requires 0 <= k < |ms|
    ensures Combined(ms)[k] == ms[k].merged
    ensures Obsolete(ms)[2 * k] == ms[k].left && Obsolete(ms)[2 * k + 1] == ms[k].right
    ensures TraceLines(ms)[k] == TraceLine(ms[k])
  {
    if k < |ms| - 1 {
      AccumulatorsAt(ms[..|ms| - 1], k);
    }
  }

  /** The lists the loop accumulates grow piece by piece as the merges do. */
  lemma {:induction false} CombinedAppend(a: seq<Merge>, b: seq<Merge>)
    ensures Combined(a + b) == Combined(a) + Combined(b)
    decreases |b|
  {
    if b == [] {
      assert a + b == a;
    } else {
      var init := b[..|b| - 1];
      assert (a + b)[..|a + b| - 1] == a + init;
      CombinedAppend(a, init);
    }
  }

  lemma {:induction false} ObsoleteAppend(a: seq<Merge>, b: seq<Merge>)
    ensures Obsolete(a + b) == Obsolete(a) + Obsolete(b)
    decreases |b|
  {
    if b == [] {
      assert a + b == a;
    } else {
      var init := b[..|b| - 1];
      assert (a + b)[..|a + b| - 1] == a + init;
      ObsoleteAppend(a, init);
    }
  }

  lemma {:induction false} TraceLinesAppend(a: seq<Merge>, b: seq<Merge>)
    ensures TraceLines(a + b) == TraceLines(a) + TraceLines(b)
    decreases |b|
  {
    if b == [] {
      assert a + b == a;
    } else {
      var init := b[..|b| - 1];
      var last := b[|b| - 1];
      assert (a + b)[..|a + b| - 1] == a + init;
      assert (a + b)[|a + b| - 1] == last;
      TraceLinesAppend(a, init);
      assert TraceLines(a + b) == TraceLines(a + init) + [TraceLine(last)];
    }
  }

  /** combinedTerms.forEach(binaryInsert): each merged term inserted in turn. */
  function InsertAll(ts: seq<Term>, cs: seq<Term>): seq<Term> {
    if cs == [] then ts else SortedInsert(InsertAll(ts, cs[..|cs| - 1]), cs[|cs| - 1])
  }

  /** obsoleteTerms.forEach(remove if contained): one copy removed per entry. */
  function RemoveAll(ts: seq<Term>, os: seq<Term>): seq<Term> {
    if os == [] then ts else RemoveFirst(RemoveAll(ts, os[..|os| - 1]), os[|os| - 1])
  }

  /** The list one pass of recursiveQM leaves behind. */
  function Iterate(ts: seq<Term>): seq<Term> {
    var ms := Merges(ts);
    Dedup(RemoveAll(InsertAll(ts, Combined(ms)), Obsolete(ms)))
  }

  lemma {:induction false} InsertAllPermutes(ts: seq<Term>, cs: seq<Term>)
    ensures multiset(InsertAll(ts, cs)) == multiset(ts) + multiset(cs)
  {
    if cs != [] {
      var init, c := cs[..|cs| - 1], cs[|cs| - 1];
      var prev := InsertAll(ts, init);
      assert InsertAll(ts, cs) == SortedInsert(prev, c);
      InsertAllPermutes(ts, init);
      SortedInsertPermutes(prev, c);
      assert cs == init + [c];
      InsertStep(multiset(ts), multiset(init), c, multiset(prev), multiset(InsertAll(ts, cs)));
    }
  }

  lemma {:induction false} InsertAllKeepsSorted(ts: seq<Term>, cs: seq<Term>)
    requires SortedByOnes(ts)
    ensures SortedByOnes(InsertAll(ts, cs))
  {
    if cs != [] {
      InsertAllKeepsSorted(ts, cs[..|cs| - 1]);
      SortedInsertKeepsSorted(InsertAll(ts, cs[..|cs| - 1]), cs[|cs| - 1]);
    }
  }

  /** Each entry takes away one copy while there is one: multiset difference. */
  lemma {:induction false} RemoveAllPermutes(ts: seq<Term>, os: seq<Term>)
    ensures multiset(RemoveAll(ts, os)) == multiset(ts) - multiset(os)
  {
    if os != [] {
      var init, o := os[..|os| - 1], os[|os| - 1];
      var prev := RemoveAll(ts, init);
      assert RemoveAll(ts, os) == RemoveFirst(prev, o);
      RemoveAllPermutes(ts, init);
      RemoveFirstPermutes(prev, o);
      assert os == init + [o];
      RemoveStep(multiset(ts), multiset(init), o, multiset(prev), multiset(RemoveAll(ts, os)));
    }
  }

  /** Adding `c` after adding `init` adds init + {c}. */
  lemma InsertStep<T>(whole: multiset<T>, init: multiset<T>, c: T, prev: multiset<T>, next: multiset<T>)
    requires prev == whole + init && next == prev + multiset{c}
    ensures next == whole + (init + multiset{c})
  {
  }

  /** Taking away `o` after taking away `init` takes away init + {o}. */
  lemma RemoveStep<T>(whole: multiset<T>, init: multiset<T>, o: T, prev: multiset<T>, next: multiset<T>)
    requires prev == whole - init && next == prev - multiset{o}
    ensures next == whole - (init + multiset{o})
  {
  }

  lemma {:induction false} RemoveAllKeepsSorted(ts: seq<Term>, os: seq<Term>)
    requires SortedByOnes(ts)
    ensures SortedByOnes(RemoveAll(ts, os))
  {
    if os != [] {
      RemoveAllKeepsSorted(ts, os[..|os| - 1]);
      RemoveFirstKeepsSorted(RemoveAll(ts, os[..|os| - 1]), os[|os| - 1]);
    }
  }

  /** A term survives the pass exactly when it has more copies in the list and the merged terms than among the merged-away terms. */
  lemma IterateMembers(ts: seq<Term>, x: Term)
    ensures var ms := Merges(ts);
      x in Iterate(ts) <==> multiset(ts)[x] + multiset(Combined(ms))[x] > multiset(Obsolete(ms))[x]
  {
    var ms := Merges(ts);
    var cs, os := Combined(ms), Obsolete(ms);
    var inserted := InsertAll(ts, cs);
    var removed := RemoveAll(inserted, os);
    assert Iterate(ts) == Dedup(removed);
    InsertAllPermutes(ts, cs);
    RemoveAllPermutes(inserted, os);
    assert multiset(removed)[x] == if multiset(inserted)[x] > multiset(os)[x]
      then multiset(inserted)[x] - multiset(os)[x] else 0;
    assert x in Iterate(ts) <==> x in removed;
  }

  /** A pass keeps the list sorted by ones-count, which binaryInsert relies on. */
  lemma IterateKeepsSorted(ts: seq<Term>)
    requires SortedByOnes(ts)
    ensures SortedByOnes(Iterate(ts))
  {
    var ms := Merges(ts);
    InsertAllKeepsSorted(ts, Combined(ms));
    RemoveAllKeepsSorted(InsertAll(ts, Combined(ms)), Obsolete(ms));
    DedupKeepsSorted(RemoveAll(InsertAll(ts, Combined(ms)), Obsolete(ms)), OnesKey);
  }

  /** The index of a merge whose terms have the fewest variables. */
  function FewestKeys(ms: seq<Merge>): (k: nat)
    requires ms != []
    ensures k < |ms| && forall i :: 0 <= i < |ms| ==> |ms[k].left| <= |ms[i].left|
  {
    if |ms| == 1 then 0
    else
      var k := FewestKeys(ms[..|ms| - 1]);
      assert forall i :: 0 <= i < |ms| - 1 ==> ms[..|ms| - 1][i] == ms[i];
      if |ms[|ms| - 1].left| < |ms[k].left| then |ms| - 1 else k
  }

  /** The index of a merge whose terms have the most variables. */
  function MostKeys(ms: seq<Merge>): (k: nat)
    requires ms != []
    ensures k < |ms| && forall i :: 0 <= i < |ms| ==> |ms[i].left| <= |ms[k].left|
  {
    if |ms| == 1 then 0
    else
      var k := MostKeys(ms[..|ms| - 1]);
      assert forall i :: 0 <= i < |ms| - 1 ==> ms[..|ms| - 1][i] == ms[i];
      if |ms[k].left| < |ms[|ms| - 1].left| then |ms| - 1 else k
  }

  /** Both terms of a merge have one variable more than the merged term. */
  lemma MergeSizes(ts: seq<Term>, m: Merge)
    requires ValidMerge(ts, m)
    ensures |m.right| == |m.left| && |m.merged| + 1 == |m.left|
  {
    CombineDropsOneKey(m.left, m.right);
    assert m.left.Keys == m.right.Keys;
  }

  /** Every merge of a pass drops exactly one variable from two terms of equal size. */
  lemma MergesSizes(ts: seq<Term>)
    ensures var ms := Merges(ts);
      forall q :: 0 <= q < |ms| ==>
        |ms[q].right| == |ms[q].left| && |ms[q].merged| + 1 == |ms[q].left|
  {
    var ms := Merges(ts);
    MergesSound(ts);
    forall q | 0 <= q < |ms|
      ensures |ms[q].right| == |ms[q].left| && |ms[q].merged| + 1 == |ms[q].left|
    {
      assert ms[q] in ms;
      MergeSizes(ts, ms[q]);
    }
  }

  lemma {:induction false} NotObsolete(ms: seq<Merge>, x: Term)
    requires forall q :: 0 <= q < |ms| ==> ms[q].left != x && ms[q].right != x
    ensures x !in Obsolete(ms)
  {
    if ms != [] {
      var init := ms[..|ms| - 1];
      var last := ms[|ms| - 1];
      forall q | 0 <= q < |init| ensures init[q].left != x && init[q].right != x {
        assert init[q] == ms[q];
      }
      NotObsolete(init, x);
      assert Obsolete(ms) == Obsolete(init) + [last.left, last.right];
    }
  }

  lemma {:induction false} NotCombined(ms: seq<Merge>, x: Term)
    requires forall q :: 0 <= q < |ms| ==> ms[q].merged != x
    ensures x !in Combined(ms)
  {
    if ms != [] {
      var init := ms[..|ms| - 1];
      var last := ms[|ms| - 1];
      forall q | 0 <= q < |init| ensures init[q].merged != x {
        assert init[q] == ms[q];
      }
      NotCombined(init, x);
      assert Combined(ms) == Combined(init) + [last.merged];
    }
  }

  /** A pass never empties a non-empty list: a merged term with the fewest variables is never merged away. */
  lemma IterateNonEmpty(ts: seq<Term>)
    requires ts != []
    ensures Iterate(ts) != []
  {
    var ms := Merges(ts);
    if ms == [] {
      assert multiset(ts)[ts[0]] > 0;
      assert multiset(Obsolete(ms)) == multiset{};
      IterateMembers(ts, ts[0]);
    } else {
      var k := FewestKeys(ms);
      var c := ms[k].merged;
      MergesSizes(ts);
      NotObsolete(ms, c);
      var cs := Combined(ms);
      AccumulatorsAt(ms, k);
      assert c in multiset(cs);
      IterateMembers(ts, c);
    }
  }

  /**
   * A pass leaves the list unchanged exactly when no two of its terms combine
   * and no term is repeated; otherwise a term with the most variables among
   * those merged is gone after the pass.
   */
  lemma FixedPointIff(ts: seq<Term>)
    ensures Iterate(ts) == ts <==> NoDuplicates(ts) && Merges(ts) == []
  {
    var ms := Merges(ts);
    if ms == [] {
      assert Combined(ms) == [] && Obsolete(ms) == [];
      assert Iterate(ts) == Dedup(ts);
      if NoDuplicates(ts) {
        DedupOfDistinct(ts);
      }
    } else if NoDuplicates(ts) {
      MergesSound(ts);
      var k := MostKeys(ms);
      var x := ms[k].left;
      assert ms[k] in ms;
      MergesSizes(ts);
      NotCombined(ms, x);
      var os := Obsolete(ms);
      AccumulatorsAt(ms, k);
      assert x in multiset(os);
      var p :| 0 <= p < |ts| && ts[p] == x;
      DistinctCount(ts, p);
      IterateMembers(ts, x);
    }
  }
}
