/**
 * The LinkedList of terms that src/App.java keeps sorted by ones-count and
 * mutates: binaryInsert, removal of the first equal element
 * (List.remove(Object)), removeDuplicates, and the final List.sort(termOrder).
 */
module TermLists {
  import opened Terms
  import opened Render

  /** The list is in ascending order of `key`. */
  predicate SortedBy(ts: seq<Term>, key: Term -> int) {
    forall i, j :: 0 <= i < j < |ts| ==> key(ts[i]) <= key(ts[j])
  }

  /** The ones-count as a sort key. */
  function OnesKey(t: Term): int {
    Ones(t)
  }

  /** Ascending ones-counts: the order binaryInsert keeps. */
  predicate SortedByOnes(ts: seq<Term>) {
    SortedBy(ts, OnesKey)
  }

  predicate NoDuplicates(ts: seq<Term>) {
    forall i, j :: 0 <= i < j < |ts| ==> ts[i] != ts[j]
  }

  /**
   * The index binaryInsert adds `e` at, searching the range l..r of `ts`
   * the way the recursive overload does: an element with the same
   * ones-count stops the search at its own index.
   */
  function InsertionIndex(e: Term, ts: seq<Term>, l: int, r: int): (k: int)
    requires 0 <= l <= r + 1 <= |ts|
    ensures l <= k <= r + 1
    decreases r - l
  {
    if l <= r then
      var m := (l + r) / 2;
      var comparison := CompareOnes(e, ts[m]);
      if comparison == 0 then m
      else if comparison < 0 then InsertionIndex(e, ts, l, m - 1)
      else InsertionIndex(e, ts, m + 1, r)
    else l
  }

  /**
   * In a list sorted by ones-count, when everything left of the range has
   * no more ones than `e` and everything right of it no fewer, the search
   * finds an index with the same property.
   */
  lemma {:induction false} InsertionIndexPlaces(e: Term, ts: seq<Term>, l: int, r: int)
    requires 0 <= l <= r + 1 <= |ts| && SortedByOnes(ts)
    requires forall i :: 0 <= i < l ==> OnesKey(ts[i]) <= OnesKey(e)
    requires forall i :: r < i < |ts| ==> OnesKey(e) <= OnesKey(ts[i])
    ensures var k := InsertionIndex(e, ts, l, r);
      (forall i :: 0 <= i < k ==> OnesKey(ts[i]) <= OnesKey(e)) &&
      (forall i :: k <= i < |ts| ==> OnesKey(e) <= OnesKey(ts[i]))
    decreases r - l
  {
    if l <= r {
      var m := (l + r) / 2;
      var comparison := CompareOnes(e, ts[m]);
      if comparison == 0 {
        assert InsertionIndex(e, ts, l, r) == m;
        SplitsAtEqual(ts, m, e, OnesKey);
      } else if comparison < 0 {
        assert InsertionIndex(e, ts, l, r) == InsertionIndex(e, ts, l, m - 1);
        BelowMiddle(ts, m, r, e, OnesKey);
        InsertionIndexPlaces(e, ts, l, m - 1);
      } else {
        assert InsertionIndex(e, ts, l, r) == InsertionIndex(e, ts, m + 1, r);
        AboveMiddle(ts, l, m, e, OnesKey);
        InsertionIndexPlaces(e, ts, m + 1, r);
      }
    }
  }

  /** A sorted list splits around an element whose key equals e's. */
  lemma SplitsAtEqual(ts: seq<Term>, m: int, e: Term, key: Term -> int)
    requires 0 <= m < |ts| && SortedBy(ts, key) && key(e) == key(ts[m])
    ensures forall i :: 0 <= i < m ==> key(ts[i]) <= key(e)
    ensures forall i :: m <= i < |ts| ==> key(e) <= key(ts[i])
  {
  }

  /** When e's key is below the middle element's, so is it below everything from there on. */
  lemma BelowMiddle(ts: seq<Term>, m: int, r: int, e: Term, key: Term -> int)
    requires 0 <= m <= r < |ts| && SortedBy(ts, key) && key(e) < key(ts[m])
    requires forall i :: r < i < |ts| ==> key(e) <= key(ts[i])
    ensures forall i :: m - 1 < i < |ts| ==> key(e) <= key(ts[i])
  {
  }

  /** When e's key is above the middle element's, so is it above everything up to there. */
  lemma AboveMiddle(ts: seq<Term>, l: int, m: int, e: Term, key: Term -> int)
    requires 0 <= l <= m < |ts| && SortedBy(ts, key) && key(ts[m]) < key(e)
    requires forall i :: 0 <= i < l ==> key(ts[i]) <= key(e)
    ensures forall i :: 0 <= i < m + 1 ==> key(ts[i]) <= key(e)
  {
  }

  /** The list binaryInsert leaves: `e` added at the index the search finds. */
  function SortedInsert(ts: seq<Term>, e: Term): (r: seq<Term>)
    ensures |r| == |ts| + 1
  {
    var k := if ts == [] then 0 else InsertionIndex(e, ts, 0, |ts| - 1);
    ts[..k] + [e] + ts[k..]
  }

  /** Putting `e` between the elements of no greater and no smaller key keeps the order. */
  lemma InsertKeepsSorted(ts: seq<Term>, k: int, e: Term, key: Term -> int)
    requires 0 <= k <= |ts| && SortedBy(ts, key)
    requires forall i :: 0 <= i < k ==> key(ts[i]) <= key(e)
    requires forall i :: k <= i < |ts| ==> key(e) <= key(ts[i])
    ensures SortedBy(ts[..k] + [e] + ts[k..], key)
  {
    var r := ts[..k] + [e] + ts[k..];
    forall i | 0 <= i < |r|
      ensures r[i] == (if i < k then ts[i] else if i == k then e else ts[i - 1])
    {
    }
  }

  /** binaryInsert adds exactly that term to the list. */
  lemma SortedInsertPermutes(ts: seq<Term>, e: Term)
    ensures multiset(SortedInsert(ts, e)) == multiset(ts) + multiset{e}
  {
    var k := if ts == [] then 0 else InsertionIndex(e, ts, 0, |ts| - 1);
    assert ts == ts[..k] + ts[k..];
    assert SortedInsert(ts, e) == ts[..k] + [e] + ts[k..];
  }

  /** binaryInsert keeps a list sorted by ones-count sorted. */
  lemma SortedInsertKeepsSorted(ts: seq<Term>, e: Term)
    requires SortedByOnes(ts)
    ensures SortedByOnes(SortedInsert(ts, e))
  {
    if ts != [] {
      var k := InsertionIndex(e, ts, 0, |ts| - 1);
      InsertionIndexPlaces(e, ts, 0, |ts| - 1);
      InsertKeepsSorted(ts, k, e, OnesKey);
    } else {
      InsertKeepsSorted(ts, 0, e, OnesKey);
    }
  }

  /** Deleting one position keeps a list in order. */
  lemma DeleteKeepsSorted(ts: seq<Term>, i: int, key: Term -> int)
    requires 0 <= i < |ts| && SortedBy(ts, key)
    ensures SortedBy(ts[..i] + ts[i + 1..], key)
  {
    var r := ts[..i] + ts[i + 1..];
    forall a | 0 <= a < |r| ensures r[a] == (if a < i then ts[a] else ts[a + 1]) {
    }
  }

  /** The index of the first element equal to `x`. */
  function FirstIndex(ts: seq<Term>, x: Term): (i: nat)
    requires x in ts
    ensures i < |ts| && ts[i] == x && x !in ts[..i]
  {
    if ts[0] == x then 0
    else
      var i := FirstIndex(ts[1..], x);
      assert ts[..i + 1] == [ts[0]] + ts[1..][..i];
      i + 1
  }

  /** List.remove(Object): drops the first element equal to `x`, if any. */
  function RemoveFirst(ts: seq<Term>, x: Term): (r: seq<Term>)
    ensures |r| <= |ts|
  {
    if ts == [] then []
    else if ts[0] == x then ts[1..]
    else [ts[0]] + RemoveFirst(ts[1..], x)
  }

  /** The first occurrence of `x` is the one RemoveFirst drops. */
  lemma {:induction false} RemoveFirstAt(ts: seq<Term>, x: Term, i: int)
    requires 0 <= i < |ts| && ts[i] == x && x !in ts[..i]
    ensures RemoveFirst(ts, x) == ts[..i] + ts[i + 1..]
  {
    if i > 0 {
      assert ts[0] in ts[..i];
      assert ts[1..][i - 1] == x;
      assert ts[1..][..i - 1] == ts[1..i];
      assert ts[..i] == [ts[0]] + ts[1..i];
      RemoveFirstAt(ts[1..], x, i - 1);
      assert ts[1..][i..] == ts[i + 1..];
    }
  }

  /** A term that is not in the list leaves it unchanged. */
  lemma {:induction false} RemoveFirstAbsent(ts: seq<Term>, x: Term)
    requires x !in ts
    ensures RemoveFirst(ts, x) == ts
  {
    if ts != [] {
      assert ts == [ts[0]] + ts[1..];
      RemoveFirstAbsent(ts[1..], x);
    }
  }

  lemma SplitMultiset(ts: seq<Term>, i: int)
    requires 0 <= i < |ts|
    ensures multiset(ts) == multiset(ts[..i] + ts[i + 1..]) + multiset{ts[i]}
  {
    assert ts == ts[..i] + [ts[i]] + ts[i + 1..];
  }

  /** Removal takes exactly one copy of `x` away, or none if there is none. */
  lemma RemoveFirstPermutes(ts: seq<Term>, x: Term)
    ensures multiset(RemoveFirst(ts, x)) == multiset(ts) - multiset{x}
  {
    if x in ts {
      var i := FirstIndex(ts, x);
      RemoveFirstAt(ts, x, i);
      SplitMultiset(ts, i);
    } else {
      RemoveFirstAbsent(ts, x);
      assert multiset(ts)[x] == 0;
    }
  }

  /** Removal keeps a list sorted by ones-count. */
  lemma RemoveFirstKeepsSorted(ts: seq<Term>, x: Term)
    requires SortedByOnes(ts)
    ensures SortedByOnes(RemoveFirst(ts, x))
  {
    if x in ts {
      var i := FirstIndex(ts, x);
      RemoveFirstAt(ts, x, i);
      DeleteKeepsSorted(ts, i, OnesKey);
    } else {
      RemoveFirstAbsent(ts, x);
    }
  }

  /** The distinct elements of `ts`, each where it first occurs. */
  function Dedup(ts: seq<Term>): (r: seq<Term>)
    ensures NoDuplicates(r)
    ensures forall x :: x in r <==> x in ts
    ensures |r| <= |ts|
  {
    if ts == [] then []
    else
      var init := ts[..|ts| - 1];
      var last := ts[|ts| - 1];
      var d := Dedup(init);
      assert ts == init + [last];
      if last in d then d else d + [last]
  }

  /** Dropping later copies keeps a list in order. */
  lemma {:induction false} DedupKeepsSorted(ts: seq<Term>, key: Term -> int)
    requires SortedBy(ts, key)
    ensures SortedBy(Dedup(ts), key)
  {
    if ts != [] {
      var init := ts[..|ts| - 1];
      var last := ts[|ts| - 1];
      var d := Dedup(init);
      assert ts == init + [last];
      DedupKeepsSorted(init, key);
      if last !in d {
        forall i | 0 <= i < |d| ensures key(d[i]) <= key(last) {
          assert d[i] in init;
          var j :| 0 <= j < |init| && init[j] == d[i];
          assert ts[j] == init[j];
        }
        var r := d + [last];
        forall a, b | 0 <= a < b < |r| ensures key(r[a]) <= key(r[b]) {
          assert r[a] == d[a];
          if b < |d| {
            assert r[b] == d[b];
          }
        }
      }
    }
  }

  /** A term of a list without repeats occurs in it once. */
  lemma DistinctCount(ts: seq<Term>, p: int)
    requires NoDuplicates(ts) && 0 <= p < |ts|
    ensures multiset(ts)[ts[p]] == 1
  {
    var x := ts[p];
    assert ts == ts[..p] + [x] + ts[p + 1..];
    assert x !in ts[..p];
    var after := ts[p + 1..];
    assert x !in after by {
      forall q | 0 <= q < |after| ensures after[q] != x {
        assert after[q] == ts[p + 1 + q];
      }
    }
  }

  /** A list without repeats is left as it is. */
  lemma {:induction false} DedupOfDistinct(ts: seq<Term>)
    requires NoDuplicates(ts)
    ensures Dedup(ts) == ts
  {
    if ts != [] {
      var init := ts[..|ts| - 1];
      var last := ts[|ts| - 1];
      DedupOfDistinct(init);
      forall j | 0 <= j < |init| ensures init[j] != last {
        assert init[j] == ts[j];
      }
      assert ts == init + [last];
    }
  }

  /** Puts `x` into a sorted list after every element of no greater key. */
  function InsertBy(x: Term, ts: seq<Term>, key: Term -> int): (r: seq<Term>)
    ensures |r| == |ts| + 1
  {
    if ts == [] then [x]
    else if key(x) < key(ts[0]) then [x] + ts
    else [ts[0]] + InsertBy(x, ts[1..], key)
  }

  /** A term no greater than every element of a sorted list can go in front of it. */
  lemma PrependKeepsSorted(x: Term, ts: seq<Term>, key: Term -> int)
    requires SortedBy(ts, key)
    requires forall y :: y in ts ==> key(x) <= key(y)
    ensures SortedBy([x] + ts, key)
  {
    var r := [x] + ts;
    forall a, b | 0 <= a < b < |r| ensures key(r[a]) <= key(r[b]) {
      assert r[b] == ts[b - 1];
      if a > 0 {
        assert r[a] == ts[a - 1];
      }
    }
  }

  /** Insertion adds exactly `x`. */
  lemma {:induction false} InsertByPermutes(x: Term, ts: seq<Term>, key: Term -> int)
    ensures multiset(InsertBy(x, ts, key)) == multiset(ts) + multiset{x}
  {
    if ts != [] && key(ts[0]) <= key(x) {
      assert ts == [ts[0]] + ts[1..];
      InsertByPermutes(x, ts[1..], key);
    }
  }

  /** Insertion into a sorted list keeps it sorted. */
  lemma {:induction false} InsertByKeepsSorted(x: Term, ts: seq<Term>, key: Term -> int)
    requires SortedBy(ts, key)
    ensures SortedBy(InsertBy(x, ts, key), key)
  {
    if ts == [] {
    } else if key(ts[0]) <= key(x) {
      var rest := InsertBy(x, ts[1..], key);
      assert SortedBy(ts[1..], key) by {
        forall a, b | 0 <= a < b < |ts[1..]| ensures key(ts[1..][a]) <= key(ts[1..][b]) {
          assert ts[1..][a] == ts[a + 1] && ts[1..][b] == ts[b + 1];
        }
      }
      InsertByKeepsSorted(x, ts[1..], key);
      InsertByPermutes(x, ts[1..], key);
      forall y | y in rest ensures key(ts[0]) <= key(y) {
        assert y in multiset(rest);
        if y != x {
          assert y in multiset(ts[1..]);
          var j :| 0 <= j < |ts[1..]| && ts[1..][j] == y;
          assert ts[j + 1] == y;
        }
      }
      PrependKeepsSorted(ts[0], rest, key);
    } else {
      forall y | y in ts ensures key(x) <= key(y) {
        var j :| 0 <= j < |ts| && ts[j] == y;
        assert key(ts[0]) <= key(ts[j]);
      }
      PrependKeepsSorted(x, ts, key);
    }
  }

  /** A stable insertion sort by `key`: each element goes after the equal-keyed ones already placed. */
  function SortBy(ts: seq<Term>, key: Term -> int): (r: seq<Term>)
    ensures |r| == |ts|
  {
    if ts == [] then []
    else InsertBy(ts[|ts| - 1], SortBy(ts[..|ts| - 1], key), key)
  }

  /** The sort orders by the key and neither loses nor adds a term. */
  lemma {:induction false} SortByCorrect(ts: seq<Term>, key: Term -> int)
    ensures multiset(SortBy(ts, key)) == multiset(ts)
    ensures SortedBy(SortBy(ts, key), key)
  {
    if ts != [] {
      var init := ts[..|ts| - 1];
      SortByCorrect(init, key);
      InsertByPermutes(ts[|ts| - 1], SortBy(init, key), key);
      InsertByKeepsSorted(ts[|ts| - 1], SortBy(init, key), key);
      assert ts == init + [ts[|ts| - 1]];
    }
  }

  /** The elements of `ts` whose key is `v`, in their order in `ts`. */
  function WithKey<T>(ts: seq<T>, key: T -> int, v: int): (r: seq<T>)
    ensures |r| <= |ts|
  {
    if ts == [] then []
    else (if key(ts[0]) == v then [ts[0]] else []) + WithKey(ts[1..], key, v)
  }

  lemma {:induction false} WithKeyAppend<T>(a: seq<T>, b: seq<T>, key: T -> int, v: int)
    ensures WithKey(a + b, key, v) == WithKey(a, key, v) + WithKey(b, key, v)
  {
    if a != [] {
      var h := if key(a[0]) == v then [a[0]] else [];
      assert (a + b)[0] == a[0];
      assert (a + b)[1..] == a[1..] + b;
      WithKeyAppend(a[1..], b, key, v);
      assert WithKey(a + b, key, v) == h + (WithKey(a[1..], key, v) + WithKey(b, key, v));
      assert h + (WithKey(a[1..], key, v) + WithKey(b, key, v))
          == (h + WithKey(a[1..], key, v)) + WithKey(b, key, v);
    } else {
      assert a + b == b;
    }
  }

  lemma {:induction false} WithKeyNone<T>(ts: seq<T>, key: T -> int, v: int)
    requires forall i :: 0 <= i < |ts| ==> key(ts[i]) != v
    ensures WithKey(ts, key, v) == []
  {
    if ts != [] {
      WithKeyNone(ts[1..], key, v);
    }
  }

  /** A term below the whole of a sorted list comes after its (absent) equal-keyed terms. */
  lemma WithKeyFront<T>(x: T, ts: seq<T>, key: T -> int, v: int)
    requires ts != [] && key(x) < key(ts[0])
    requires forall i, j :: 0 <= i < j < |ts| ==> key(ts[i]) <= key(ts[j])
    ensures WithKey([x] + ts, key, v) == WithKey(ts, key, v) + (if key(x) == v then [x] else [])
  {
    if key(x) == v {
      WithKeyNone(ts, key, v);
    }
    WithKeyAppend([x], ts, key, v);
    assert WithKey([x], key, v) == (if key(x) == v then [x] else []) + WithKey([x][1..], key, v);
  }

  /** A term kept in front of a list stays in front of its equal-keyed terms. */
  lemma WithKeyCons<T>(a: T, rest: seq<T>, tail: seq<T>, ins: seq<T>, key: T -> int, v: int)
    requires WithKey(ins, key, v) == WithKey(rest, key, v) + tail
    ensures WithKey([a] + ins, key, v) == WithKey([a] + rest, key, v) + tail
  {
    var h := if key(a) == v then [a] else [];
    assert ([a] + ins)[1..] == ins && ([a] + rest)[1..] == rest;
    assert WithKey([a] + ins, key, v) == h + WithKey(ins, key, v);
    assert WithKey([a] + rest, key, v) == h + WithKey(rest, key, v);
    assert h + (WithKey(rest, key, v) + tail) == (h + WithKey(rest, key, v)) + tail;
  }

  /** Insertion puts `x` after every element with the same key already in a sorted list. */
  lemma {:induction false} InsertByWithKey(x: Term, ts: seq<Term>, key: Term -> int, v: int)
    requires SortedBy(ts, key)
    ensures WithKey(InsertBy(x, ts, key), key, v) ==
      WithKey(ts, key, v) + (if key(x) == v then [x] else [])
  {
    var tail := if key(x) == v then [x] else [];
    if ts == [] {
      assert WithKey([x], key, v) == tail + WithKey([x][1..], key, v);
    } else if key(x) < key(ts[0]) {
      WithKeyFront(x, ts, key, v);
    } else {
      var rest := ts[1..];
      assert SortedBy(rest, key);
      var ins := InsertBy(x, rest, key);
      InsertByWithKey(x, rest, key, v);
      assert ts == [ts[0]] + rest;
      WithKeyCons(ts[0], rest, tail, ins, key, v);
    }
  }

  /**
   * The sort is stable: the terms sharing one key keep their relative order,
   * so for every key value the sorted list and the input list list the same
   * terms in the same order.
   */
  lemma {:induction false} SortByStable(ts: seq<Term>, key: Term -> int, v: int)
    ensures WithKey(SortBy(ts, key), key, v) == WithKey(ts, key, v)
  {
    if ts != [] {
      var init, last := ts[..|ts| - 1], ts[|ts| - 1];
      SortByStable(init, key, v);
      SortByCorrect(init, key);
      InsertByWithKey(last, SortBy(init, key), key, v);
      assert ts == init + [last];
      WithKeyAppend(init, [last], key, v);
    }
  }

  /** List.sort(termOrder): the stable sort by rateTermOrder. */
  function SortByRank(ts: seq<Term>): (r: seq<Term>)
    ensures |r| == |ts|
  {
    SortBy(ts, RateTermOrder)
  }

  /** After the final sort the terms are in ascending rank, and they are the same terms. */
  lemma SortByRankCorrect(ts: seq<Term>)
    ensures multiset(SortByRank(ts)) == multiset(ts)
    ensures SortedBy(SortByRank(ts), RateTermOrder)
    ensures forall v :: WithKey(SortByRank(ts), RateTermOrder, v) == WithKey(ts, RateTermOrder, v)
  {
    SortByCorrect(ts, RateTermOrder);
    forall v ensures WithKey(SortByRank(ts), RateTermOrder, v) == WithKey(ts, RateTermOrder, v) {
      SortByStable(ts, RateTermOrder, v);
    }
  }

  /** The term list the source passes around and mutates in place. */
  class TermList {
    var items: seq<Term>

    constructor ()
      ensures items == []
    {
      items := [];
    }

    /** binaryInsert (both overloads): add `elem` at the index the search finds. */
    method BinaryInsert(elem: Term)
      modifies this
      ensures items == SortedInsert(old(items), elem)
    {
      if items == [] {
        items := [elem];
        return;
      }
      var k := InsertionIndex(elem, items, 0, |items| - 1);
      items := items[..k] + [elem] + items[k..];
    }

    /** Removal of an obsolete term: the first equal element goes, if there is one. */
    method Remove(x: Term)
      modifies this
      ensures items == RemoveFirst(old(items), x)
    {
      if x !in items {
        RemoveFirstAbsent(items, x);
        return;
      }
      var i := 0;
      while items[i] != x
        invariant 0 <= i < |items|
        invariant x !in items[..i]
        invariant x in items[i..]
        decreases |items| - i
      {
        assert items[i..] == [items[i]] + items[i + 1..];
        assert items[..i + 1] == items[..i] + [items[i]];
        i := i + 1;
      }
      RemoveFirstAt(items, x, i);
      items := items[..i] + items[i + 1..];
    }

    /**
     * removeDuplicates: empty the list and add back each distinct element;
     * the model adds them in order of first occurrence.
     */
    method RemoveDuplicates()
      modifies this
      ensures items == Dedup(old(items))
    {
      var all := items;
      var seen: set<Term> := {};
      items := [];
      for n := 0 to |all|
        invariant items == Dedup(all[..n])
        invariant forall x :: x in seen <==> x in all[..n]
      {
        assert all[..n + 1][..n] == all[..n];
        if all[n] !in seen {
          items := items + [all[n]];
          seen := seen + {all[n]};
        }
      }
      assert all[..|all|] == all;
    }

    /** terms.sort(termOrder). */
    method Sort()
      modifies this
      ensures items == SortByRank(old(items))
    {
      items := SortByRank(items);
    }
  }
}
