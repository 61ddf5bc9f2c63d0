/**
 * The term model of src/App.java: a product term maps each variable (one
 * character) to a bit, 1 for a plain literal and 0 for a complemented one; a
 * variable that is not a key is absent from the term.
 */
module Terms {

  /** The value stored for a key: 1 plain, 0 complemented. */
  type Bit = b: int | 0 <= b <= 1

  /** HashMap<Character, Integer> restricted to the values the parser stores. */
  type Term = map<char, Bit>

  /** The keys holding a 1. */
  function OnesKeys(t: Term): set<char> {
    set k | k in t && t[k] == 1
  }

  /** The keys holding a 0. */
  function ZerosKeys(t: Term): set<char> {
    set k | k in t && t[k] == 0
  }

  /** numberOfOnes: how many values of the term are 1. */
  function Ones(t: Term): nat {
    |OnesKeys(t)|
  }

  /** Every key holds a 1 or a 0, so the two counts add up to the number of keys. */
  lemma OnesAndZeros(t: Term)
    ensures Ones(t) + |ZerosKeys(t)| == |t|
  {
    assert t.Keys == OnesKeys(t) + ZerosKeys(t);
    assert OnesKeys(t) !! ZerosKeys(t);
  }

  /** compareOnes: Integer.compareTo on the two ones-counts. */
  function CompareOnes(a: Term, b: Term): (r: int)
    ensures r == -1 || r == 0 || r == 1
    ensures r < 0 <==> Ones(a) < Ones(b)
    ensures r > 0 <==> Ones(b) < Ones(a)
  {
    if Ones(a) < Ones(b) then -1 else if Ones(a) == Ones(b) then 0 else 1
  }

  /** compareOnes is a comparator: swapping the arguments negates the result. */
  lemma CompareOnesAntisymmetric(a: Term, b: Term)
    ensures CompareOnes(a, b) == -CompareOnes(b, a)
  {
  }

  /** The keys of both terms whose values differ (what canCombine's loop counts). */
  function DiffKeys(a: Term, b: Term): set<char> {
    set k | k in a && k in b && a[k] != b[k]
  }

  /**
   * canCombine: the key sets are equal and exactly one key holds different
   * values. The source's loop returns false as soon as it has counted a
   * second difference, which is the same as asking for exactly one.
   */
  predicate CanCombine(a: Term, b: Term) {
    a.Keys == b.Keys && |DiffKeys(a, b)| == 1
  }

  /**
   * canCombine holds exactly when the key sets agree and there is one key on
   * which the values differ while every other key agrees; in particular
   * terms over different variables never combine.
   */
  lemma CanCombineIff(a: Term, b: Term)
    ensures CanCombine(a, b) <==>
      a.Keys == b.Keys &&
      exists k :: k in a && a[k] != b[k] &&
        forall d :: d in a && d != k ==> a[d] == b[d]
  {
    var D := DiffKeys(a, b);
    if CanCombine(a, b) {
      var k :| k in D;
      assert D == (D - {k}) + {k};
      assert D == {k};
      forall d | d in a && d != k ensures a[d] == b[d] {
        assert d in b && d !in D;
      }
    }
    if a.Keys == b.Keys &&
      exists k :: k in a && a[k] != b[k] &&
        forall d :: d in a && d != k ==> a[d] == b[d]
    {
      var k :| k in a && a[k] != b[k] &&
        forall d :: d in a && d != k ==> a[d] == b[d];
      assert D == {k};
    }
  }

  /** canCombine does not depend on the order of its arguments. */
  lemma CanCombineSymmetric(a: Term, b: Term)
    ensures CanCombine(a, b) <==> CanCombine(b, a)
  {
    assert DiffKeys(a, b) == DiffKeys(b, a);
  }

  /** combine: the entries of `a` that `b` holds with the same value. */
  function Combine(a: Term, b: Term): (r: Term)
    ensures r.Keys <= a.Keys
  {
    map k | k in a && k in b && a[k] == b[k] :: a[k]
  }

  /**
   * Merging two combinable terms drops exactly the key on which they differ;
   * every other key keeps its common value.
   */
  lemma CombineDropsOneKey(a: Term, b: Term)
    requires CanCombine(a, b)
    ensures exists k :: k in a && a[k] != b[k] && Combine(a, b) == a - {k}
    ensures |Combine(a, b)| == |a| - 1
  {
    CanCombineIff(a, b);
    var k :| k in a && a[k] != b[k] &&
      forall d :: d in a && d != k ==> a[d] == b[d];
    assert Combine(a, b) == a - {k};
    assert (a - {k}).Keys == a.Keys - {k};
  }

  /** Combinable terms always have ones-counts that differ by exactly one. */
  lemma CombinableOnesDiffer(a: Term, b: Term)
    requires CanCombine(a, b)
    ensures Ones(a) - Ones(b) == 1 || Ones(b) - Ones(a) == 1
  {
    CanCombineIff(a, b);
    var k :| k in a && a[k] != b[k] &&
      forall d :: d in a && d != k ==> a[d] == b[d];
    assert OnesKeys(a) - {k} == OnesKeys(b) - {k};
    if a[k] == 1 {
      assert OnesKeys(a) == (OnesKeys(a) - {k}) + {k};
      assert OnesKeys(b) == OnesKeys(a) - {k};
    } else {
      assert OnesKeys(b) == (OnesKeys(b) - {k}) + {k};
      assert OnesKeys(a) == OnesKeys(b) - {k};
    }
  }

  /** The merged term keeps the smaller of the two ones-counts. */
  lemma CombineOnes(a: Term, b: Term)
    requires CanCombine(a, b)
    ensures Ones(Combine(a, b)) == if Ones(a) < Ones(b) then Ones(a) else Ones(b)
  {
    CanCombineIff(a, b);
    var k :| k in a && a[k] != b[k] &&
      forall d :: d in a && d != k ==> a[d] == b[d];
    var r := Combine(a, b);
    assert r == a - {k};
    assert OnesKeys(r) == OnesKeys(a) - {k};
    assert OnesKeys(r) == OnesKeys(b) - {k};
    if a[k] == 1 {
      assert OnesKeys(a) == OnesKeys(r) + {k};
      assert OnesKeys(b) == OnesKeys(r);
    } else {
      assert OnesKeys(b) == OnesKeys(r) + {k};
      assert OnesKeys(a) == OnesKeys(r);
    }
  }
}
