/**
 * Rendering of terms and expressions (termToString, expressionToString) and
 * the display ranking (rateTermOrder) of src/App.java.
 *
 * The source walks a HashMap's key set, whose order is the hash table's; the
 * model fixes that order to ascending character order.
 */
module Render {
  import opened Wrappers
  import opened Terms

  predicate Ascending(s: seq<char>) {
    forall i, j :: 0 <= i < j < |s| ==> s[i] < s[j]
  }

  /** `m` is the least element of `s`. */
  predicate IsLeast(m: char, s: set<char>) {
    m in s && forall c :: c in s ==> m <= c
  }

  lemma {:induction false} LeastExists(s: set<char>)
    requires s != {}
    ensures exists m :: IsLeast(m, s)
    decreases |s|
  {
    var x :| x in s;
    if s - {x} == {} {
      forall c | c in s ensures x <= c {
        assert c !in s - {x};
      }
      assert IsLeast(x, s);
    } else {
      LeastExists(s - {x});
      var m :| IsLeast(m, s - {x});
      var least := if m < x then m else x;
      forall c | c in s ensures least <= c {
        if c != x {
          assert c in s - {x};
        }
      }
      assert IsLeast(least, s);
    }
  }

  /** The least element of a non-empty set of characters. */
  function Least(s: set<char>): (m: char)
    requires s != {}
    ensures IsLeast(m, s)
  {
    LeastExists(s);
    var m :| IsLeast(m, s);
    m
  }

  /** The keys of a term in the order the model renders them: least first. */
  function SortedKeys(s: set<char>): seq<char>
    decreases s
  {
    if s == {} then [] else [Least(s)] + SortedKeys(s - {Least(s)})
  }

  /** SortedKeys lists exactly the elements of the set, each once. */
  lemma {:induction false} SortedKeysMembers(s: set<char>)
    ensures forall c :: c in SortedKeys(s) <==> c in s
    ensures |SortedKeys(s)| == |s|
    decreases s
  {
    if s != {} {
      var m := Least(s);
      var rest := SortedKeys(s - {m});
      SortedKeysMembers(s - {m});
      assert SortedKeys(s) == [m] + rest;
      assert s == (s - {m}) + {m};
    }
  }

  /** SortedKeys lists the elements in ascending order. */
  lemma {:induction false} SortedKeysAscending(s: set<char>)
    ensures Ascending(SortedKeys(s))
    decreases s
  {
    if s != {} {
      var m := Least(s);
      var rest := SortedKeys(s - {m});
      var r := [m] + rest;
      assert SortedKeys(s) == r;
      SortedKeysAscending(s - {m});
      SortedKeysMembers(s - {m});
      forall i, j | 0 <= i < j < |r| ensures r[i] < r[j] {
        assert r[j] == rest[j - 1];
        if i > 0 {
          assert r[i] == rest[i - 1];
        } else {
          assert rest[j - 1] in s - {m};
        }
      }
    }
  }

  /** SortedKeys lists every element of the set once, in ascending order. */
  lemma SortedKeysSpec(s: set<char>)
    ensures Ascending(SortedKeys(s))
    ensures forall c :: c in SortedKeys(s) <==> c in s
    ensures |SortedKeys(s)| == |s|
  {
    SortedKeysMembers(s);
    SortedKeysAscending(s);
  }

  /** An ascending listing of a set is the one SortedKeys gives. */
  lemma {:induction false} SortedKeysUnique(r: seq<char>, s: set<char>)
    requires Ascending(r)
    requires forall c :: c in r <==> c in s
    ensures r == SortedKeys(s)
    decreases |r|
  {
    if r == [] {
      assert s == {};
    } else {
      assert r[0] in s;
      var m := Least(s);
      assert r[0] == m by {
        var i :| 0 <= i < |r| && r[i] == m;
        assert r[0] <= m;
      }
      forall c ensures c in r[1..] <==> c in s - {m} {
        if c in r[1..] {
          var i :| 0 <= i < |r[1..]| && r[1..][i] == c;
          assert r[i + 1] == c;
        }
        if c in s - {m} {
          var i :| 0 <= i < |r| && r[i] == c;
          assert i != 0;
          assert r[1..][i - 1] == c;
        }
      }
      SortedKeysUnique(r[1..], s - {m});
      assert r == [m] + r[1..];
    }
  }

  /** One key as the source writes it: "~" before it exactly when its value is 0. */
  function LiteralString(k: char, b: Bit): string {
    (if b == 0 then "~" else "") + [k]
  }

  function RenderKeys(t: Term, ks: seq<char>): string
    requires forall k :: k in ks ==> k in t
  {
    if ks == [] then "" else LiteralString(ks[0], t[ks[0]]) + RenderKeys(t, ks[1..])
  }

  /** termToString: the literals of the term, least key first, with no separator. */
  function TermToString(t: Term): string
    decreases t.Keys
  {
    if t.Keys == {} then ""
    else
      var m := Least(t.Keys);
      LiteralString(m, t[m]) + TermToString(t - {m})
  }

  /** Rendering a list of keys reads only the values at those keys. */
  lemma {:induction false} RenderKeysAgree(t: Term, u: Term, ks: seq<char>)
    requires forall k :: k in ks ==> k in t && k in u && t[k] == u[k]
    ensures RenderKeys(t, ks) == RenderKeys(u, ks)
  {
    if ks != [] {
      RenderKeysAgree(t, u, ks[1..]);
    }
  }

  /** termToString renders the keys in the order SortedKeys lists them. */
  lemma {:induction false} TermToStringIsRenderKeys(t: Term)
    ensures forall k :: k in SortedKeys(t.Keys) ==> k in t
    ensures TermToString(t) == RenderKeys(t, SortedKeys(t.Keys))
    decreases t.Keys
  {
    SortedKeysMembers(t.Keys);
    if t.Keys != {} {
      var m := Least(t.Keys);
      var u := t - {m};
      assert u.Keys == t.Keys - {m};
      var rest := SortedKeys(u.Keys);
      assert SortedKeys(t.Keys) == [m] + rest;
      TermToStringIsRenderKeys(u);
      RenderKeysAgree(t, u, rest);
      assert ([m] + rest)[1..] == rest;
    }
  }

  lemma {:induction false} RenderKeysLength(t: Term, ks: seq<char>)
    requires forall k :: k in ks ==> k in t
    requires forall i, j :: 0 <= i < j < |ks| ==> ks[i] != ks[j]
    ensures |RenderKeys(t, ks)| == |ks| + |set k | k in ks && t[k] == 0|
  {
    if ks != [] {
      RenderKeysLength(t, ks[1..]);
      var rest := set k | k in ks[1..] && t[k] == 0;
      forall i | 0 <= i < |ks[1..]| ensures ks[1..][i] != ks[0] {
        assert ks[1..][i] == ks[i + 1];
      }
      if t[ks[0]] == 0 {
        assert (set k | k in ks && t[k] == 0) == rest + {ks[0]};
      } else {
        assert (set k | k in ks && t[k] == 0) == rest;
      }
    }
  }

  /** The rendering has one character per key plus one "~" per key holding 0. */
  lemma TermToStringLength(t: Term)
    ensures |TermToString(t)| == |t| + |ZerosKeys(t)|
  {
    var ks := SortedKeys(t.Keys);
    SortedKeysSpec(t.Keys);
    TermToStringIsRenderKeys(t);
    RenderKeysLength(t, ks);
    assert (set k | k in ks && t[k] == 0) == ZerosKeys(t);
  }

  /** Character.getNumericValue on ASCII: digits 0-9, letters 10-35 in either case, else -1. */
  function NumericValue(c: char): int {
    if '0' <= c <= '9' then c as int - '0' as int
    else if 'a' <= c <= 'z' then c as int - 'a' as int + 10
    else if 'A' <= c <= 'Z' then c as int - 'A' as int + 10
    else -1
  }

  /** The sum rateTermOrder takes over a rendered term, skipping "~". */
  function Rank(s: string): int {
    if s == [] then 0 else (if s[0] == '~' then 0 else NumericValue(s[0])) + Rank(s[1..])
  }

  /** rateTermOrder: the rank of the term's rendering. */
  function RateTermOrder(t: Term): int {
    Rank(TermToString(t))
  }

  lemma {:induction false} RankAppend(x: string, y: string)
    ensures Rank(x + y) == Rank(x) + Rank(y)
  {
    if x == [] {
      assert x + y == y;
    } else {
      assert (x + y)[0] == x[0];
      assert (x + y)[1..] == x[1..] + y;
      RankAppend(x[1..], y);
    }
  }

  /** What a key adds to the rank: nothing for "~" itself, its numeric value otherwise. */
  function KeyRank(k: char): int {
    if k == '~' then 0 else NumericValue(k)
  }

  lemma {:induction false} RankOfRenderKeys(t: Term, ks: seq<char>)
    requires forall k :: k in ks ==> k in t
    ensures Rank(RenderKeys(t, ks)) == KeyRanks(ks)
  {
    if ks != [] {
      RankAppend(LiteralString(ks[0], t[ks[0]]), RenderKeys(t, ks[1..]));
      RankOfRenderKeys(t, ks[1..]);
      if t[ks[0]] == 0 {
        assert LiteralString(ks[0], 0) == ['~', ks[0]];
      }
    }
  }

  function KeyRanks(ks: seq<char>): int {
    if ks == [] then 0 else KeyRank(ks[0]) + KeyRanks(ks[1..])
  }

  /** The ranking ignores polarities: terms over the same variables rank alike. */
  lemma RateDependsOnlyOnKeys(a: Term, b: Term)
    requires a.Keys == b.Keys
    ensures RateTermOrder(a) == RateTermOrder(b)
  {
    TermToStringIsRenderKeys(a);
    TermToStringIsRenderKeys(b);
    RankOfRenderKeys(a, SortedKeys(a.Keys));
    RankOfRenderKeys(b, SortedKeys(b.Keys));
  }

  /** The string expressionToString builds before cutting: every term followed by " + ". */
  function Joined(ts: seq<Term>): string {
    if ts == [] then "" else TermToString(ts[0]) + " + " + Joined(ts[1..])
  }

  /**
   * expressionToString: drops the last two characters of the joined string,
   * which fails (None) when there are fewer than two, that is for no terms.
   */
  function ExpressionToString(ts: seq<Term>): (r: Option<string>)
    ensures r.Some? <==> ts != []
  {
    var s := Joined(ts);
    if |s| < 2 then None else Some(s[..|s| - 2])
  }

  /** The terms separated by " + ", as a reader would write the sum. */
  function Separated(ts: seq<Term>): string
    requires ts != []
  {
    if |ts| == 1 then TermToString(ts[0]) else TermToString(ts[0]) + " + " + Separated(ts[1..])
  }

  lemma {:induction false} JoinedIsSeparated(ts: seq<Term>)
    requires ts != []
    ensures Joined(ts) == Separated(ts) + " + "
  {
    if |ts| > 1 {
      JoinedIsSeparated(ts[1..]);
    }
  }

  /**
   * For a non-empty list the result is the terms separated by " + " and
   * followed by one space, the part of the last separator that is not cut.
   */
  lemma ExpressionHasTrailingSpace(ts: seq<Term>)
    requires ts != []
    ensures ExpressionToString(ts) == Some(Separated(ts) + " ")
  {
    JoinedIsSeparated(ts);
    var s := Joined(ts);
    assert s[..|s| - 2] == Separated(ts) + " ";
  }
}
