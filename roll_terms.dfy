/** The terms of a roll and the forced-value override that the interceptor
    applies to them: every result of every die term is overwritten with the
    forced value, and nothing else about the roll changes. */
module RollTerms {

  /** One individual die result: the face it shows and whether it counts
      towards the total (a dropped die is inactive). */
  datatype DieResult = DieResult(result: int, active: bool)

  /** A term of a roll expression. Only `Die` terms are overridden; every
      other kind of term (numbers, operators, coins, pools, parenthetical
      groups) is an `Other` term, kept as the host built it. */
  datatype Term =
    | Die(faces: nat, number: nat, results: seq<DieResult>)
    | Other(expression: string)

  /** A roll is its sequence of terms. */
  datatype Roll = Roll(terms: seq<Term>)

  // ---------------------------------------------------------------------
  // Reference definition of the override
  // ---------------------------------------------------------------------

  function ForceResults(rs: seq<DieResult>, v: int): (r: seq<DieResult>)
  {
    if rs == [] then [] else [rs[0].(result := v)] + ForceResults(rs[1..], v)
  }

  function ForceTerm(t: Term, v: int): (r: Term)
  {
    match t
    case Die(faces, number, results) => Die(faces, number, ForceResults(results, v))
    case Other(_) => t
  }

  function ForceTerms(ts: seq<Term>, v: int): (r: seq<Term>)
  {
    if ts == [] then [] else [ForceTerm(ts[0], v)] + ForceTerms(ts[1..], v)
  }

  /** The roll with every die result forced to `v`. */
  function ForceRoll(roll: Roll, v: int): (r: Roll)
  {
    Roll(ForceTerms(roll.terms, v))
  }

  // ---------------------------------------------------------------------
  // What a forced roll looks like, stated pointwise
  // ---------------------------------------------------------------------

  /** `out` is `rs` with every value replaced by `v`: same count, same
      order, same active flags. */
  predicate ResultsForcedFrom(rs: seq<DieResult>, out: seq<DieResult>, v: int)
  {
    |out| == |rs| &&
    forall k :: 0 <= k < |rs| ==> out[k] == DieResult(v, rs[k].active)
  }

  /** `u` is the term `t` after the override: a die term keeps its faces,
      its number and its results' count and flags, with every value `v`;
      any other term is unchanged. */
  predicate TermForcedFrom(t: Term, u: Term, v: int)
  {
    match t
    case Die(faces, number, results) =>
      u.Die? && u.faces == faces && u.number == number &&
      ResultsForcedFrom(results, u.results, v)
    case Other(_) => u == t
  }

  /** `us` is `ts` term by term after the override: same number and order. */
  predicate TermsForcedFrom(ts: seq<Term>, us: seq<Term>, v: int)
  {
    |us| == |ts| &&
    forall k :: 0 <= k < |ts| ==> TermForcedFrom(ts[k], us[k], v)
  }

  /** Every result of every die term in `ts` shows `v`. */
  predicate AllDiceShow(ts: seq<Term>, v: int)
  {
    forall k, j :: 0 <= k < |ts| && ts[k].Die? && 0 <= j < |ts[k].results| ==>
      ts[k].results[j].result == v
  }

  predicate HasNoDice(ts: seq<Term>)
  {
    forall k :: 0 <= k < |ts| ==> !ts[k].Die?
  }

  // ---------------------------------------------------------------------
  // The override, as the hook's nested loops perform it
  // ---------------------------------------------------------------------

  /** Walks the terms of the freshly copied roll; for each die term walks its
      results and overwrites each value with `v`. */
  method OverrideTerms(terms: seq<Term>, v: int) returns (forced: seq<Term>)
    ensures TermsForcedFrom(terms, forced, v)
    ensures AllDiceShow(forced, v)
    ensures forced == ForceTerms(terms, v)
  {
    forced := [];
    var i := 0;
    while i < |terms|
      invariant 0 <= i <= |terms|
      invariant |forced| == i
      invariant forall k :: 0 <= k < i ==> TermForcedFrom(terms[k], forced[k], v)
    {
      var term := terms[i];
      if term.Die? {
        var results: seq<DieResult> := [];
        var j := 0;
        while j < |term.results|
          invariant 0 <= j <= |term.results|
          invariant |results| == j
          invariant forall k :: 0 <= k < j ==> results[k] == DieResult(v, term.results[k].active)
        {
          results := results + [term.results[j].(result := v)];
          j := j + 1;
        }
        term := term.(results := results);
      }
      forced := forced + [term];
      i := i + 1;
    }
    ForcedTermsShowValue(terms, forced, v);
    ForceTermsCharacterised(terms, forced, v);
  }

  // ---------------------------------------------------------------------
  // Properties of the override
  // ---------------------------------------------------------------------

  lemma {:induction false} ForceResultsCharacterised(rs: seq<DieResult>, out: seq<DieResult>, v: int)
    ensures ResultsForcedFrom(rs, out, v) <==> out == ForceResults(rs, v)
  {
    if rs != [] {
      if |out| > 0 {
        ForceResultsCharacterised(rs[1..], out[1..], v);
        if ResultsForcedFrom(rs, out, v) {
          assert ResultsForcedFrom(rs[1..], out[1..], v) by {
            forall k | 0 <= k < |rs| - 1 ensures out[1..][k] == DieResult(v, rs[1..][k].active) {
              assert out[k + 1] == DieResult(v, rs[k + 1].active);
            }
          }
          assert out == [out[0]] + out[1..];
        }
        if out == ForceResults(rs, v) {
          assert out[1..] == ForceResults(rs[1..], v);
          forall k | 0 <= k < |rs| ensures out[k] == DieResult(v, rs[k].active) {
            if k > 0 {
              assert out[k] == out[1..][k - 1];
            }
          }
        }
      }
    }
  }

  lemma ForceTermCharacterised(t: Term, u: Term, v: int)
    ensures TermForcedFrom(t, u, v) <==> u == ForceTerm(t, v)
  {
    if t.Die? && u.Die? {
      ForceResultsCharacterised(t.results, u.results, v);
    }
  }

  /** The override is exactly the term-by-term relation: `us` is the forced
      form of `ts` if and only if it satisfies `TermsForcedFrom`. */
  lemma {:induction false} ForceTermsCharacterised(ts: seq<Term>, us: seq<Term>, v: int)
    ensures TermsForcedFrom(ts, us, v) <==> us == ForceTerms(ts, v)
  {
    if ts != [] && |us| > 0 {
      ForceTermsCharacterised(ts[1..], us[1..], v);
      ForceTermCharacterised(ts[0], us[0], v);
      if TermsForcedFrom(ts, us, v) {
        assert TermsForcedFrom(ts[1..], us[1..], v) by {
          forall k | 0 <= k < |ts| - 1 ensures TermForcedFrom(ts[1..][k], us[1..][k], v) {
            assert TermForcedFrom(ts[k + 1], us[k + 1], v);
          }
        }
        assert us == [us[0]] + us[1..];
      }
      if us == ForceTerms(ts, v) {
        assert us[1..] == ForceTerms(ts[1..], v);
        forall k | 0 <= k < |ts| ensures TermForcedFrom(ts[k], us[k], v) {
          if k > 0 {
            assert us[k] == us[1..][k - 1];
          }
        }
      }
    }
  }

  lemma ForcedTermsShowValue(ts: seq<Term>, us: seq<Term>, v: int)
    requires TermsForcedFrom(ts, us, v)
    ensures AllDiceShow(us, v)
  {
  }

  /** Shape of a forced roll: the same number and order of terms, every die
      term with its faces, number and result count kept and every result
      showing `v`, every other term unchanged. */
  lemma ForceTermsShape(ts: seq<Term>, v: int)
    ensures TermsForcedFrom(ts, ForceTerms(ts, v), v)
    ensures AllDiceShow(ForceTerms(ts, v), v)
  {
    ForceTermsCharacterised(ts, ForceTerms(ts, v), v);
    ForcedTermsShowValue(ts, ForceTerms(ts, v), v);
  }

  /** A property of the override itself, not of anything the hook does
      (each hook call forces a fresh copy of the roll just once): forcing
      again with another value is the same as forcing once with the later
      value; in particular forcing is idempotent. */
  lemma {:induction false} ForceTermsLastWins(ts: seq<Term>, v: int, w: int)
    ensures ForceTerms(ForceTerms(ts, v), w) == ForceTerms(ts, w)
  {
    if ts != [] {
      ForceTermsLastWins(ts[1..], v, w);
      if ts[0].Die? {
        ForceResultsLastWins(ts[0].results, v, w);
      }
    }
  }

  /** The same fact for the results of one die term. */
  lemma {:induction false} ForceResultsLastWins(rs: seq<DieResult>, v: int, w: int)
    ensures ForceResults(ForceResults(rs, v), w) == ForceResults(rs, w)
  {
    if rs != [] {
      ForceResultsLastWins(rs[1..], v, w);
    }
  }

  /** A roll without die terms is left exactly as it was. */
  lemma {:induction false} ForceTermsWithoutDice(ts: seq<Term>, v: int)
    requires HasNoDice(ts)
    ensures ForceTerms(ts, v) == ts
  {
    if ts != [] {
      assert !ts[0].Die?;
      ForceTermsWithoutDice(ts[1..], v);
    }
  }
}
