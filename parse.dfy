/**
 * stringToTermMap of src/App.java: reads one product term left to right. A
 * "~" complements the character after it; every other character is a plain
 * occurrence of itself. The first occurrence of a variable stores its bit, a
 * repeat with the same bit changes nothing, and a repeat with the other bit
 * removes the variable.
 */
module Parse {
  import opened Wrappers
  import opened Terms
  import opened Render

  /** A "~" with no character after it: charAt reads past the end of the string. */
  datatype ParseError = DanglingComplement

  /** One occurrence of a variable with the bit it was written with. */
  datatype Occurrence = Occurrence(name: char, bit: Bit)

  /** The occurrences written in `s`, or None when it ends in a lone "~". */
  function Occurrences(s: string): Option<seq<Occurrence>> {
    if s == [] then Some([])
    else if s[0] == '~' then
      if |s| == 1 then None
      else match Occurrences(s[2..])
        case None => None
        case Some(rest) => Some([Occurrence(s[1], 0)] + rest)
    else match Occurrences(s[1..])
      case None => None
      case Some(rest) => Some([Occurrence(s[0], 1)] + rest)
  }

  /** The effect of one occurrence on the map being built (the put/remove in the loop body). */
  function Toggle(t: Term, o: Occurrence): (r: Term)
    ensures o.name in r <==> o.name !in t || t[o.name] == o.bit
    ensures o.name in r ==> r[o.name] == o.bit
    ensures forall d :: d != o.name ==> (d in r <==> d in t) && (d in r ==> r[d] == t[d])
  {
    if o.name in t then
      if o.bit != t[o.name] then t - {o.name} else t
    else t[o.name := o.bit]
  }

  function Apply(t: Term, os: seq<Occurrence>): Term
    decreases |os|
  {
    if os == [] then t else Apply(Toggle(t, os[0]), os[1..])
  }

  /** What is left to do with `rest` when the map built so far is `t`. */
  function ParseFrom(t: Term, rest: string): Result<Term, ParseError> {
    match Occurrences(rest)
    case None => Err(DanglingComplement)
    case Some(os) => Ok(Apply(t, os))
  }

  /** The term a string denotes: its occurrences applied in order to the empty map. */
  function ParseTerm(s: string): Result<Term, ParseError> {
    ParseFrom(map[], s)
  }

  /** stringToTermMap, with the same loop and the same extra step over "~". */
  method StringToTermMap(termString: string) returns (r: Result<Term, ParseError>)
    ensures r == ParseTerm(termString)
  {
    var termMap: Term := map[];
    var j := 0;
    while j < |termString|
      invariant 0 <= j <= |termString|
      invariant ParseTerm(termString) == ParseFrom(termMap, termString[j..])
    {
      var rest := termString[j..];
      var charAtJ := termString[j];
      var bitValue: Bit := 1;
      if charAtJ == '~' {
        j := j + 1;
        if j == |termString| {
          return Err(DanglingComplement);
        }
        charAtJ := termString[j];
        bitValue := 0;
        assert rest[2..] == termString[j + 1..];
      } else {
        assert rest[1..] == termString[j + 1..];
      }
      if charAtJ in termMap {
        var otherBit := termMap[charAtJ];
        if bitValue != otherBit {
          termMap := termMap - {charAtJ};
        }
      } else {
        termMap := termMap[charAtJ := bitValue];
      }
      j := j + 1;
    }
    assert termString[j..] == [];
    return Ok(termMap);
  }

  /** The bit of the last occurrence of `c` in `os`, if there is one. */
  function LastBit(os: seq<Occurrence>, c: char): Option<Bit> {
    if os == [] then None
    else if os[|os| - 1].name == c then Some(os[|os| - 1].bit)
    else LastBit(os[..|os| - 1], c)
  }

  lemma {:induction false} ApplyAppend(t: Term, os: seq<Occurrence>, o: Occurrence)
    ensures Apply(t, os + [o]) == Toggle(Apply(t, os), o)
    decreases |os|
  {
    if os != [] {
      assert (os + [o])[1..] == os[1..] + [o];
      ApplyAppend(Toggle(t, os[0]), os[1..], o);
    }
  }

  /**
   * A variable that is present after parsing holds the bit of its last
   * occurrence, and a variable that never occurs keeps what it had.
   */
  lemma {:induction false} PresentKeyHasLastBit(t: Term, os: seq<Occurrence>, c: char)
    ensures LastBit(os, c).None? ==> (c in Apply(t, os) <==> c in t)
    ensures c in Apply(t, os) ==>
      Apply(t, os)[c] == (if LastBit(os, c).Some? then LastBit(os, c).value else t[c])
    decreases |os|
  {
    if os != [] {
      var init := os[..|os| - 1];
      var o := os[|os| - 1];
      assert os == init + [o];
      ApplyAppend(t, init, o);
      PresentKeyHasLastBit(t, init, c);
    }
  }

  /** A variable written every time with the same bit, and at least once, ends with that bit. */
  lemma {:induction false} ConsistentPolarity(t: Term, os: seq<Occurrence>, c: char, b: Bit)
    requires c !in t || t[c] == b
    requires forall i :: 0 <= i < |os| && os[i].name == c ==> os[i].bit == b
    ensures c in Apply(t, os) <==> c in t || exists i :: 0 <= i < |os| && os[i].name == c
    ensures c in Apply(t, os) ==> Apply(t, os)[c] == b
    decreases |os|
  {
    if os != [] {
      var t' := Toggle(t, os[0]);
      forall i | 0 <= i < |os[1..]| && os[1..][i].name == c ensures os[1..][i].bit == b {
        assert os[1..][i] == os[i + 1];
      }
      ConsistentPolarity(t', os[1..], c, b);
      if c in t || exists i :: 0 <= i < |os| && os[i].name == c {
        if c in t' {
        } else {
          var i :| 0 <= i < |os| && os[i].name == c;
          assert os[1..][i - 1] == os[i];
        }
      }
      if exists i :: 0 <= i < |os[1..]| && os[1..][i].name == c {
        var i :| 0 <= i < |os[1..]| && os[1..][i].name == c;
        assert os[i + 1] == os[1..][i];
      }
    }
  }

  /** "x~x": the second occurrence has the other bit, so the variable is dropped. */
  lemma OppositeRepeatCancels()
    ensures ParseTerm("x~x") == Ok(map[])
  {
  }

  /** A "~" after a complete term reads past the end: the term is malformed. */
  lemma {:induction false} TrailingComplementFails(s: string)
    requires Occurrences(s).Some?
    ensures ParseTerm(s + "~") == Err(DanglingComplement)
  {
    if s == [] {
      assert s + "~" == "~";
    } else if s[0] == '~' {
      assert (s + "~")[2..] == s[2..] + "~";
      TrailingComplementFails(s[2..]);
    } else {
      assert (s + "~")[1..] == s[1..] + "~";
      TrailingComplementFails(s[1..]);
    }
  }

  /** Parsing fails only on a string that ends in "~". */
  lemma {:induction false} FailureEndsInComplement(s: string)
    requires ParseTerm(s).Err?
    ensures s != [] && s[|s| - 1] == '~'
  {
    if s[0] == '~' {
      if |s| > 1 {
        FailureEndsInComplement(s[2..]);
      }
    } else {
      FailureEndsInComplement(s[1..]);
    }
  }

  /** The occurrences a rendering lists: one per key, in key order. */
  function OccurrencesOf(t: Term, ks: seq<char>): seq<Occurrence>
    requires forall k :: k in ks ==> k in t
  {
    if ks == [] then [] else [Occurrence(ks[0], t[ks[0]])] + OccurrencesOf(t, ks[1..])
  }

  lemma {:induction false} RenderKeysOccurrences(t: Term, ks: seq<char>)
    requires forall k :: k in ks ==> k in t && k != '~'
    ensures Occurrences(RenderKeys(t, ks)) == Some(OccurrencesOf(t, ks))
  {
    if ks != [] {
      var s := RenderKeys(t, ks);
      assert forall k :: k in ks[1..] ==> k in ks;
      RenderKeysOccurrences(t, ks[1..]);
      if t[ks[0]] == 0 {
        assert s[0] == '~' && s[1] == ks[0];
        assert s[2..] == RenderKeys(t, ks[1..]);
      } else {
        assert s[0] == ks[0];
        assert s[1..] == RenderKeys(t, ks[1..]);
      }
    }
  }

  lemma {:induction false} ApplyDistinct(acc: Term, t: Term, ks: seq<char>)
    requires forall k :: k in ks ==> k in t && k !in acc
    requires forall i, j :: 0 <= i < j < |ks| ==> ks[i] != ks[j]
    ensures var r := Apply(acc, OccurrencesOf(t, ks));
      (forall k :: k in r <==> k in acc || k in ks) &&
      (forall k :: k in r ==> r[k] == if k in acc then acc[k] else t[k])
    decreases |ks|
  {
    if ks != [] {
      var acc' := acc[ks[0] := t[ks[0]]];
      forall i, j | 0 <= i < j < |ks[1..]| ensures ks[1..][i] != ks[1..][j] {
        assert ks[1..][i] == ks[i + 1] && ks[1..][j] == ks[j + 1];
      }
      forall k | k in ks[1..] ensures k in t && k !in acc' {
        var i :| 0 <= i < |ks[1..]| && ks[1..][i] == k;
        assert ks[i + 1] == k;
      }
      ApplyDistinct(acc', t, ks[1..]);
      assert forall k :: k in ks <==> k == ks[0] || k in ks[1..];
    }
  }

  /**
   * Parsing a rendered term gives the term back, provided no variable is "~"
   * itself (which the parser always reads as the complement sign).
   */
  lemma ParseRendered(t: Term)
    requires '~' !in t
    ensures ParseTerm(TermToString(t)) == Ok(t)
  {
    var ks := SortedKeys(t.Keys);
    SortedKeysSpec(t.Keys);
    TermToStringIsRenderKeys(t);
    RenderKeysOccurrences(t, ks);
    ApplyDistinct(map[], t, ks);
    var r := Apply(map[], OccurrencesOf(t, ks));
    assert r.Keys == t.Keys;
    assert r == t;
    assert ParseTerm(TermToString(t)) == Ok(r);
  }
}
