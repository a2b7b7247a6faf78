/** The frontend's heuristic orientation of clauses
    (visualization-frontend/src/model/clause-orientation.ts, `orientClauses`): negated
    literals that are not equalities become premises, every other literal a conclusion; a
    clause with no conclusion at all keeps every literal on the conclusion side. */
module Orientation {
  import opened Terms

  /** A clause of the frontend dag, whose two literal lists the orientation reassigns. */
  class ClauseSides {
    var premiseLiterals: seq<Literal>
    var conclusionLiterals: seq<Literal>

    constructor (premise: seq<Literal>, conclusion: seq<Literal>)
      ensures premiseLiterals == premise && conclusionLiterals == conclusion
    {
      premiseLiterals := premise;
      conclusionLiterals := conclusion;
    }

    /** `premiseLiterals.concat(conclusionLiterals)`. */
    function Literals(): seq<Literal>
      reads this
    {
      premiseLiterals + conclusionLiterals
    }
  }

  /** The unit of a dag node: a formula, left alone, or a clause. */
  datatype NodeUnit = FormulaUnit(formula: string) | ClauseUnit(clause: ClauseSides)

  /** A negated literal that is not an equality reads as a premise. */
  predicate IsPremise(l: Literal) { l.negated && l.name != "=" }

  /** The premise literals, in order. */
  function Premises(ls: seq<Literal>): (r: seq<Literal>)
    ensures forall x :: x in r ==> x in ls && IsPremise(x)
  {
    if ls == [] then []
    else Premises(ls[..|ls| - 1]) + (if IsPremise(ls[|ls| - 1]) then [ls[|ls| - 1]] else [])
  }

  /** The other literals, in order. */
  function Conclusions(ls: seq<Literal>): (r: seq<Literal>)
    ensures forall x :: x in r ==> x in ls && !IsPremise(x)
  {
    if ls == [] then []
    else Conclusions(ls[..|ls| - 1]) + (if IsPremise(ls[|ls| - 1]) then [] else [ls[|ls| - 1]])
  }

  /** The `reduce` of `orientClauses`: some literal is positive or an equality. */
  predicate ConclusionRemains(ls: seq<Literal>)
  {
    exists i :: 0 <= i < |ls| && !IsPremise(ls[i])
  }

  /** The new premise and conclusion lists of a clause with literals `ls`. */
  function Oriented(ls: seq<Literal>): (seq<Literal>, seq<Literal>)
  {
    if ConclusionRemains(ls) then (Premises(ls), Conclusions(ls)) else ([], ls)
  }

  /** Together the two filters keep every literal exactly once. */
  lemma {:induction false} FiltersPermute(ls: seq<Literal>)
    ensures multiset(Premises(ls)) + multiset(Conclusions(ls)) == multiset(ls)
  {
    if ls != [] {
      var init := ls[..|ls| - 1];
      FiltersPermute(init);
      assert ls == init + [ls[|ls| - 1]];
    }
  }

  /** Orientation only moves literals between the two lists. */
  lemma OrientedPermutes(ls: seq<Literal>)
    ensures multiset(Oriented(ls).0 + Oriented(ls).1) == multiset(ls)
  {
    FiltersPermute(ls);
  }

  /** The premise list holds exactly the premise literals, the conclusion list the rest,
      unless no literal is a conclusion, in which case every literal is a conclusion. */
  lemma OrientedSides(ls: seq<Literal>)
    ensures ConclusionRemains(ls) ==>
              (forall x :: x in Oriented(ls).0 <==> x in ls && IsPremise(x)) &&
              (forall x :: x in Oriented(ls).1 <==> x in ls && !IsPremise(x))
    ensures !ConclusionRemains(ls) ==> Oriented(ls) == ([], ls)
  {
    if ConclusionRemains(ls) {
      FiltersPermute(ls);
      forall x | x in ls ensures x in Premises(ls) || x in Conclusions(ls) {
        assert x in multiset(ls);
      }
    }
  }

  /** Filtering a filtered list keeps it; filtering out its complement leaves nothing. */
  lemma {:induction false} FilterAll(ls: seq<Literal>)
    ensures Premises(Premises(ls)) == Premises(ls) && Conclusions(Premises(ls)) == []
    ensures Conclusions(Conclusions(ls)) == Conclusions(ls) && Premises(Conclusions(ls)) == []
  {
    if ls != [] {
      var init := ls[..|ls| - 1];
      var x := ls[|ls| - 1];
      FilterAll(init);
      FilterAppend(Premises(init), if IsPremise(x) then [x] else []);
      FilterAppend(Conclusions(init), if IsPremise(x) then [] else [x]);
    }
  }

  lemma FilterAppend(a: seq<Literal>, b: seq<Literal>)
    ensures Premises(a + b) == Premises(a) + Premises(b)
    ensures Conclusions(a + b) == Conclusions(a) + Conclusions(b)
  {
    PremisesAppend(a, b);
    ConclusionsAppend(a, b);
  }

  lemma {:induction false} PremisesAppend(a: seq<Literal>, b: seq<Literal>)
    ensures Premises(a + b) == Premises(a) + Premises(b)
    decreases |b|
  {
    if b == [] {
      assert a + b == a;
    } else {
      var init, x := b[..|b| - 1], b[|b| - 1];
      var part := if IsPremise(x) then [x] else [];
      assert (a + b)[..|a + b| - 1] == a + init && (a + b)[|a + b| - 1] == x;
      calc {
        Premises(a + b);
        Premises(a + init) + part;
        { PremisesAppend(a, init); }
        (Premises(a) + Premises(init)) + part;
        Premises(a) + (Premises(init) + part);
        Premises(a) + Premises(b);
      }
    }
  }

  lemma {:induction false} ConclusionsAppend(a: seq<Literal>, b: seq<Literal>)
    ensures Conclusions(a + b) == Conclusions(a) + Conclusions(b)
    decreases |b|
  {
    if b == [] {
      assert a + b == a;
    } else {
      var init, x := b[..|b| - 1], b[|b| - 1];
      var part := if IsPremise(x) then [] else [x];
      assert (a + b)[..|a + b| - 1] == a + init && (a + b)[|a + b| - 1] == x;
      calc {
        Conclusions(a + b);
        Conclusions(a + init) + part;
        { ConclusionsAppend(a, init); }
        (Conclusions(a) + Conclusions(init)) + part;
        Conclusions(a) + (Conclusions(init) + part);
        Conclusions(a) + Conclusions(b);
      }
    }
  }

  /** Orienting an oriented clause changes nothing. */
  lemma OrientedIdempotent(ls: seq<Literal>)
    ensures Oriented(Oriented(ls).0 + Oriented(ls).1) == Oriented(ls)
  {
    if ConclusionRemains(ls) {
      PartitionStable(ls);
    } else {
      assert [] + ls == ls;
    }
  }

  lemma PartitionStable(ls: seq<Literal>)
    requires ConclusionRemains(ls)
    ensures Oriented(Premises(ls) + Conclusions(ls)) == (Premises(ls), Conclusions(ls))
  {
    var p, c := Premises(ls), Conclusions(ls);
    FilterAll(ls);
    FilterAppend(p, c);
    assert Premises(p + c) == p + [] && Conclusions(p + c) == [] + c;
    ConclusionsNonEmpty(ls);
    assert c[0] in c;
    assert (p + c)[|p|] == c[0];
    assert ConclusionRemains(p + c);
    assert p + [] == p && [] + c == c;
    assert Oriented(p + c) == (Premises(p + c), Conclusions(p + c));
  }

  /** A clause with a conclusion literal has a non-empty conclusion list. */
  lemma {:induction false} ConclusionsNonEmpty(ls: seq<Literal>)
    requires ConclusionRemains(ls)
    ensures |Conclusions(ls)| > 0
  {
    var init := ls[..|ls| - 1];
    if IsPremise(ls[|ls| - 1]) {
      var i :| 0 <= i < |ls| && !IsPremise(ls[i]);
      assert init[i] == ls[i];
      ConclusionsNonEmpty(init);
    }
  }

  /** The loop of `orientClauses` that sorts the literals into two new arrays. */
  method Partition(ls: seq<Literal>) returns (premise: seq<Literal>, conclusion: seq<Literal>)
    ensures premise == Premises(ls) && conclusion == Conclusions(ls)
  {
    premise, conclusion := [], [];
    for k := 0 to |ls|
      invariant premise == Premises(ls[..k]) && conclusion == Conclusions(ls[..k])
    {
      assert ls[..k + 1][..k] == ls[..k];
      if IsPremise(ls[k]) {
        premise := premise + [ls[k]];
      } else {
        conclusion := conclusion + [ls[k]];
      }
    }
    assert ls[..|ls|] == ls;
  }

  /** The body of `orientClauses` for one clause. */
  method OrientClause(clause: ClauseSides)
    modifies clause
    ensures (clause.premiseLiterals, clause.conclusionLiterals) == Oriented(old(clause.Literals()))
  {
    var literals := clause.premiseLiterals + clause.conclusionLiterals;
    if ConclusionRemains(literals) {
      var premise, conclusion := Partition(literals);
      clause.premiseLiterals := premise;
      clause.conclusionLiterals := conclusion;
    } else {
      clause.premiseLiterals := [];
      clause.conclusionLiterals := literals;
    }
  }

  /** The clauses among the units. */
  ghost function ClausesOf(units: seq<NodeUnit>): set<ClauseSides>
  {
    set i | 0 <= i < |units| && units[i].ClauseUnit? :: units[i].clause
  }

  /** `orientClauses`: every clause of the dag ends up oriented from its literals as they
      were; a clause shared by several nodes is oriented once in effect, since orientation is
      idempotent. Formulas are values here and stay as they are. */
  method OrientClauses(units: seq<NodeUnit>)
    modifies ClausesOf(units)
    ensures forall c :: c in ClausesOf(units) ==>
              (c.premiseLiterals, c.conclusionLiterals) == Oriented(old(c.Literals()))
  {
    for i := 0 to |units|
      invariant forall c :: c in ClausesOf(units) && c in ClausesOf(units[..i]) ==>
                  (c.premiseLiterals, c.conclusionLiterals) == Oriented(old(c.Literals()))
      invariant forall c :: c in ClausesOf(units) && c !in ClausesOf(units[..i]) ==>
                  c.Literals() == old(c.Literals())
    {
      assert ClausesOf(units[..i + 1]) == ClausesOf(units[..i]) + (if units[i].ClauseUnit? then {units[i].clause} else {}) by {
        assert units[..i + 1] == units[..i] + [units[i]];
      }
      if units[i].ClauseUnit? {
        var clause := units[i].clause;
        assert clause in ClausesOf(units);
        if clause in ClausesOf(units[..i]) {
          OrientedIdempotent(old(clause.Literals()));
        }
        OrientClause(clause);
      }
    }
    assert units[..|units|] == units;
  }
}
