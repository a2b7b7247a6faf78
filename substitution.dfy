/** Literal comparison of the newer frontend (src/model/substitution.ts): structural equality
    of terms, equality of literals up to the two sides of `=`, and one-way matching, which
    asks whether the first literal is an instance of the second. Terms and literals come from
    src/model/literal.ts, which is not part of this model; their fields are the ones this file
    and src/model/serialization.ts use. */
module Substitutions {
  import opened Wrappers
  import Terms

  /** A term; `isVariable` marks the variables that matching may bind. */
  datatype STerm = STerm(name: string, args: seq<STerm>, isVariable: bool)

  datatype SLiteral = SLiteral(name: string, args: seq<STerm>, negated: bool)

  /** `Substitution`: variable names bound to terms. */
  type Substitution = map<string, STerm>

  /** The term without its variable marks: what `termsAreEqual` compares. */
  function Erase(t: STerm): Terms.Term
    decreases t
  {
    Terms.Term(t.name, EraseAll(t.args))
  }

  function EraseAll(ts: seq<STerm>): (r: seq<Terms.Term>)
    ensures |r| == |ts| && forall i :: 0 <= i < |ts| ==> r[i] == Erase(ts[i])
    decreases ts
  {
    seq(|ts|, i requires 0 <= i < |ts| => Erase(ts[i]))
  }

  /** Erased terms agree exactly when names, arities and all arguments agree. */
  lemma EraseEqual(f1: STerm, f2: STerm)
    ensures Erase(f1) == Erase(f2) <==>
              f1.name == f2.name && |f1.args| == |f2.args| &&
              forall i :: 0 <= i < |f1.args| ==> Erase(f1.args[i]) == Erase(f2.args[i])
  {
    if f1.name == f2.name && |f1.args| == |f2.args| &&
       forall i :: 0 <= i < |f1.args| ==> Erase(f1.args[i]) == Erase(f2.args[i]) {
      assert EraseAll(f1.args) == EraseAll(f2.args);
    }
  }

  /** `termsAreEqual`: names and arities agree and so do all arguments, in order; variable
      marks are not compared. */
  method TermsAreEqual(f1: STerm, f2: STerm) returns (equal: bool)
    ensures equal <==> Erase(f1) == Erase(f2)
    decreases f1
  {
    EraseEqual(f1, f2);
    if f1.name != f2.name || |f1.args| != |f2.args| {
      return false;
    }
    for i := 0 to |f1.args|
      invariant forall j :: 0 <= j < i ==> Erase(f1.args[j]) == Erase(f2.args[j])
    {
      var same := TermsAreEqual(f1.args[i], f2.args[i]);
      if !same {
        return false;
      }
    }
    return true;
  }

  /** `termsAreEqual` is reflexive and symmetric: it is equality of erased terms. */
  lemma TermsEqualityIsEquivalence(f1: STerm, f2: STerm, f3: STerm)
    ensures Erase(f1) == Erase(f1)
    ensures Erase(f1) == Erase(f2) ==> Erase(f2) == Erase(f1)
    ensures Erase(f1) == Erase(f2) && Erase(f2) == Erase(f3) ==> Erase(f1) == Erase(f3)
  {
  }

  /** All arguments agree, position by position. */
  predicate ArgsEqual(as1: seq<STerm>, as2: seq<STerm>)
  {
    |as1| == |as2| && forall i :: 0 <= i < |as1| ==> Erase(as1[i]) == Erase(as2[i])
  }

  /** What `isEqual` returns: same name, polarity and arity, and the same arguments in order
      or, for `=`, swapped; the swap is tried only for `=` and asserts two arguments. */
  function Equal(l1: SLiteral, l2: SLiteral): (r: Result<bool>)
    ensures r == Ok(true) ==> l1.name == l2.name && l1.negated == l2.negated && |l1.args| == |l2.args|
    ensures r == Ok(true) && l1.name != "=" ==> ArgsEqual(l1.args, l2.args)
    ensures r.Err? <==> l1.name == l2.name && l1.negated == l2.negated && |l1.args| == |l2.args| &&
                        !ArgsEqual(l1.args, l2.args) && l1.name == "=" && |l1.args| != 2
  {
    if l1.name != l2.name || l1.negated != l2.negated || |l1.args| != |l2.args| then Ok(false)
    else if ArgsEqual(l1.args, l2.args) then Ok(true)
    else if l1.name != "=" then Ok(false)
    else if |l1.args| != 2 then Err(AssertionFailed)
    else Ok(Erase(l1.args[0]) == Erase(l2.args[1]) && Erase(l1.args[1]) == Erase(l2.args[0]))
  }

  /** `isEqual` is symmetric. */
  lemma EqualSymmetric(l1: SLiteral, l2: SLiteral)
    ensures Equal(l1, l2) == Equal(l2, l1)
  {
    if l1.name == l2.name && l1.negated == l2.negated && |l1.args| == |l2.args| {
      assert ArgsEqual(l1.args, l2.args) <==> ArgsEqual(l2.args, l1.args);
    }
  }

  /** An equation equals its mirror image. */
  lemma EqualitySwapped(a: STerm, b: STerm, negated: bool)
    ensures Equal(SLiteral("=", [a, b], negated), SLiteral("=", [b, a], negated)) == Ok(true)
  {
  }

  /** `isEqual` with its loop over the arguments. */
  method IsEqual(l1: SLiteral, l2: SLiteral) returns (r: Result<bool>)
    ensures r == Equal(l1, l2)
  {
    if l1.name != l2.name || l1.negated != l2.negated || |l1.args| != |l2.args| {
      return Ok(false);
    }
    var success := true;
    var i := 0;
    while i < |l1.args|
      invariant 0 <= i <= |l1.args|
      invariant success ==> forall j :: 0 <= j < i ==> Erase(l1.args[j]) == Erase(l2.args[j])
      invariant !success ==> !ArgsEqual(l1.args, l2.args)
      decreases |l1.args| - i, success
    {
      var same := TermsAreEqual(l1.args[i], l2.args[i]);
      if !same {
        success := false;
        break;
      }
      i := i + 1;
    }
    if !success && l1.name == "=" {
      if |l1.args| != 2 {
        return Err(AssertionFailed);
      }
      var first := TermsAreEqual(l1.args[0], l2.args[1]);
      var second := false;
      if first {
        second := TermsAreEqual(l1.args[1], l2.args[0]);
      }
      success := first && second;
    }
    return Ok(success);
  }

  // One-way matching (`computeSubstitution`, `isSubstitution`).

  /** The end of a call of `computeSubstitution`: its answer and the substitution as the call
      leaves it, or `OutOfFuel` when the chain of bound variables it follows is longer than
      the fuel, which stands for a call that does not return. */
  datatype Matching = Matched(success: bool, substitution: Substitution) | OutOfFuel

  /** `computeSubstitution(f1, f2, s)`: equal names and arities are matched argument by
      argument; otherwise a variable `f2` is bound to `f1` when unbound, and when bound the
      call is repeated with the bound term in place of `f2`. Each such repetition costs one unit
      of fuel; the structural descent costs none. */
  function Compute(f1: STerm, f2: STerm, s: Substitution, fuel: nat): Matching
    decreases fuel, f1
  {
    if f1.name == f2.name && |f1.args| == |f2.args| then ComputeArgs(f1.args, f2.args, 0, s, fuel)
    else if f2.isVariable then
      if f2.name !in s then Matched(true, s[f2.name := f1])
      else if fuel == 0 then OutOfFuel
      else Compute(f1, s[f2.name], s, fuel - 1)
    else Matched(false, s)
  }

  /** The argument loop from position `i` on: stops at the first argument that fails. */
  function ComputeArgs(as1: seq<STerm>, as2: seq<STerm>, i: nat, s: Substitution, fuel: nat): Matching
    requires |as1| == |as2| && i <= |as1|
    decreases fuel, as1, |as1| - i
  {
    if i == |as1| then Matched(true, s)
    else
      var m := Compute(as1[i], as2[i], s, fuel);
      if m.Matched? && m.success then ComputeArgs(as1, as2, i + 1, m.substitution, fuel) else m
  }

  /** Every binding of `s` is in `s'` with the same term. */
  predicate Extends(s': Substitution, s: Substitution)
  {
    forall x :: x in s ==> x in s' && s'[x] == s[x]
  }

  /** Matching only adds bindings: whatever the answer, the substitution it leaves extends the
      one it was given. */
  lemma {:induction false} ComputeExtends(f1: STerm, f2: STerm, s: Substitution, fuel: nat)
    ensures Compute(f1, f2, s, fuel).Matched? ==> Extends(Compute(f1, f2, s, fuel).substitution, s)
    decreases fuel, f1
  {
    if f1.name == f2.name && |f1.args| == |f2.args| {
      ComputeArgsExtends(f1.args, f2.args, 0, s, fuel);
    } else if f2.isVariable && f2.name in s && fuel > 0 {
      ComputeExtends(f1, s[f2.name], s, fuel - 1);
    }
  }

  lemma {:induction false} ComputeArgsExtends(as1: seq<STerm>, as2: seq<STerm>, i: nat, s: Substitution, fuel: nat)
    requires |as1| == |as2| && i <= |as1|
    ensures ComputeArgs(as1, as2, i, s, fuel).Matched? ==> Extends(ComputeArgs(as1, as2, i, s, fuel).substitution, s)
    decreases fuel, as1, |as1| - i
  {
    if i < |as1| {
      var m := Compute(as1[i], as2[i], s, fuel);
      ComputeExtends(as1[i], as2[i], s, fuel);
      if m.Matched? && m.success {
        ComputeArgsExtends(as1, as2, i + 1, m.substitution, fuel);
      }
    }
  }

  /** Identical terms match without a binding and without spending fuel, whatever the
      variable marks. */
  lemma {:induction false} IdenticalTermsMatch(f1: STerm, f2: STerm, s: Substitution, fuel: nat)
    requires Erase(f1) == Erase(f2)
    ensures Compute(f1, f2, s, fuel) == Matched(true, s)
    decreases fuel, f1
  {
    EraseEqual(f1, f2);
    IdenticalArgsMatch(f1.args, f2.args, 0, s, fuel);
  }

  lemma {:induction false} IdenticalArgsMatch(as1: seq<STerm>, as2: seq<STerm>, i: nat, s: Substitution, fuel: nat)
    requires |as1| == |as2| && i <= |as1|
    requires forall j :: i <= j < |as1| ==> Erase(as1[j]) == Erase(as2[j])
    ensures ComputeArgs(as1, as2, i, s, fuel) == Matched(true, s)
    decreases fuel, as1, |as1| - i
  {
    if i < |as1| {
      IdenticalTermsMatch(as1[i], as2[i], s, fuel);
      IdenticalArgsMatch(as1, as2, i + 1, s, fuel);
    }
  }

  /** `computeSubstitution` with its loop over the arguments, the map threaded through. */
  method ComputeSubstitution(f1: STerm, f2: STerm, substitution: Substitution, fuel: nat)
      returns (r: Matching)
    ensures r == Compute(f1, f2, substitution, fuel)
    decreases fuel, f1
  {
    if f1.name == f2.name && |f1.args| == |f2.args| {
      var current := substitution;
      for i := 0 to |f1.args|
        invariant ComputeArgs(f1.args, f2.args, 0, substitution, fuel) == ComputeArgs(f1.args, f2.args, i, current, fuel)
      {
        var step := ComputeSubstitution(f1.args[i], f2.args[i], current, fuel);
        if !(step.Matched? && step.success) {
          return step;
        }
        current := step.substitution;
      }
      return Matched(true, current);
    } else if f2.isVariable {
      if f2.name !in substitution {
        return Matched(true, substitution[f2.name := f1]);
      } else if fuel == 0 {
        return OutOfFuel;
      } else {
        var substitutedVariable := substitution[f2.name];
        r := ComputeSubstitution(f1, substitutedVariable, substitution, fuel - 1);
      }
    } else {
      return Matched(false, substitution);
    }
  }

  /** How a call of `isSubstitution` or `literalsMatch` ends: it returns an answer, its
      assertion fails, or it runs out of fuel (does not return). */
  datatype MatchOutcome = Returns(value: bool) | AssertionFails | RunsOutOfFuel

  /** `isSubstitution(l1, l2)`: same name, polarity and arity, and the arguments match in
      order under one growing substitution; for `=`, when that fails, the swapped arguments
      are tried with a fresh substitution, asserting there are two of them. */
  function SubstitutionOf(l1: SLiteral, l2: SLiteral, fuel: nat): MatchOutcome
  {
    if l1.name != l2.name || l1.negated != l2.negated || |l1.args| != |l2.args| then Returns(false)
    else
      var straight := ComputeArgs(l1.args, l2.args, 0, map[], fuel);
      if straight.OutOfFuel? then RunsOutOfFuel
      else if straight.success then Returns(true)
      else if l1.name != "=" then Returns(false)
      else if |l1.args| != 2 then AssertionFails
      else
        var first := Compute(l1.args[0], l2.args[1], map[], fuel);
        if first.OutOfFuel? then RunsOutOfFuel
        else if !first.success then Returns(false)
        else
          var second := Compute(l1.args[1], l2.args[0], first.substitution, fuel);
          if second.OutOfFuel? then RunsOutOfFuel else Returns(second.success)
  }

  /** `isSubstitution` with its loop over the arguments. */
  method IsSubstitution(l1: SLiteral, l2: SLiteral, fuel: nat) returns (r: MatchOutcome)
    ensures r == SubstitutionOf(l1, l2, fuel)
  {
    if l1.name != l2.name || l1.negated != l2.negated || |l1.args| != |l2.args| {
      return Returns(false);
    }
    var success := true;
    var substitution: Substitution := map[];
    var i := 0;
    while success && i < |l1.args|
      invariant 0 <= i <= |l1.args|
      invariant ComputeArgs(l1.args, l2.args, 0, map[], fuel) ==
                if success then ComputeArgs(l1.args, l2.args, i, substitution, fuel) else Matched(false, substitution)
      decreases |l1.args| - i, success
    {
      var step := ComputeSubstitution(l1.args[i], l2.args[i], substitution, fuel);
      if step.OutOfFuel? {
        return RunsOutOfFuel;
      }
      success, substitution := step.success, step.substitution;
      if success {
        i := i + 1;
      }
    }
    if !success && l1.name == "=" {
      if |l1.args| != 2 {
        return AssertionFails;
      }
      var first := ComputeSubstitution(l1.args[0], l2.args[1], map[], fuel);
      if first.OutOfFuel? {
        return RunsOutOfFuel;
      }
      success := first.success;
      if success {
        var second := ComputeSubstitution(l1.args[1], l2.args[0], first.substitution, fuel);
        if second.OutOfFuel? {
          return RunsOutOfFuel;
        }
        success := second.success;
      }
    }
    return Returns(success);
  }

  /** `isEqual`'s answer as an outcome. */
  function EqualOutcome(l1: SLiteral, l2: SLiteral): (r: MatchOutcome)
    ensures r != RunsOutOfFuel
  {
    match Equal(l1, l2)
    case Ok(b) => Returns(b)
    case Err(_) => AssertionFails
  }

  /** `literalsMatch`: matching up to substitution when allowed, equality otherwise. */
  function LiteralsMatch(l1: SLiteral, l2: SLiteral, allowSubstitutions: bool, fuel: nat): (r: MatchOutcome)
    ensures allowSubstitutions ==> r == SubstitutionOf(l1, l2, fuel)
    ensures !allowSubstitutions ==> r == EqualOutcome(l1, l2)
  {
    if allowSubstitutions then SubstitutionOf(l1, l2, fuel) else EqualOutcome(l1, l2)
  }

  /** Equal literals are instances of each other: when `isEqual` holds, `isSubstitution` does
      not answer no, and it answers yes when the arguments agree in order. */
  lemma EqualIsSubstitution(l1: SLiteral, l2: SLiteral, fuel: nat)
    requires Equal(l1, l2) == Ok(true)
    ensures SubstitutionOf(l1, l2, fuel) != Returns(false) && SubstitutionOf(l1, l2, fuel) != AssertionFails
    ensures ArgsEqual(l1.args, l2.args) ==> SubstitutionOf(l1, l2, fuel) == Returns(true)
  {
    if ArgsEqual(l1.args, l2.args) {
      IdenticalArgsMatch(l1.args, l2.args, 0, map[], fuel);
    } else {
      IdenticalTermsMatch(l1.args[0], l2.args[1], map[], fuel);
      IdenticalTermsMatch(l1.args[1], l2.args[0], map[], fuel);
    }
  }

  // Non-termination of `computeSubstitution`.

  function Var(name: string): STerm { STerm(name, [], true) }
  function Const(name: string): STerm { STerm(name, [], false) }

  /** `p(Y, Z, Z, Y, c)`, the instance asked about. */
  function LoopingInstance(): SLiteral
  {
    SLiteral("p", [Var("Y"), Var("Z"), Var("Z"), Var("Y"), Const("c")], false)
  }

  /** `p(X, X, W, W, X)`, the pattern. */
  function LoopingPattern(): SLiteral
  {
    SLiteral("p", [Var("X"), Var("X"), Var("W"), Var("W"), Var("X")], false)
  }

  /** The substitution the first four arguments leave: X to Y, Y to Z, W to Z and Z to Y. */
  function LoopingBindings(): Substitution
  {
    map["X" := Var("Y"), "Y" := Var("Z"), "W" := Var("Z"), "Z" := Var("Y")]
  }

  /** Once Y and Z are bound to each other, looking up `c` against either of them follows
      the two bindings forever. */
  lemma {:induction false} ConstantChasesCycle(fuel: nat)
    ensures Compute(Const("c"), Var("Y"), LoopingBindings(), fuel) == OutOfFuel
    ensures Compute(Const("c"), Var("Z"), LoopingBindings(), fuel) == OutOfFuel
  {
    if fuel > 0 {
      ConstantChasesCycle(fuel - 1);
    }
  }

  /** `isSubstitution(p(Y,Z,Z,Y,c), p(X,X,W,W,X))` does not return, whatever fuel is given:
      the fifth argument chases the cycle between Y and Z. The two literals share no variable. */
  lemma SubstitutionDiverges(fuel: nat)
    ensures SubstitutionOf(LoopingInstance(), LoopingPattern(), fuel) == RunsOutOfFuel
  {
    var l1, l2 := LoopingInstance(), LoopingPattern();
    var s1 := map["X" := Var("Y")];
    var s2 := s1["Y" := Var("Z")];
    var s3 := s2["W" := Var("Z")];
    var s4 := s3["Z" := Var("Y")];
    assert s4 == LoopingBindings();
    assert ComputeArgs(l1.args, l2.args, 4, s4, fuel) == OutOfFuel by {
      ConstantChasesCycle(fuel);
      if fuel > 0 {
        ConstantChasesCycle(fuel - 1);
      }
    }
    if fuel == 0 {
      assert Compute(l1.args[1], l2.args[1], s1, 0) == OutOfFuel;
    } else {
      assert Compute(l1.args[0], l2.args[0], map[], fuel) == Matched(true, s1);
      assert Compute(l1.args[1], l2.args[1], s1, fuel) == Matched(true, s2) by {
        assert Compute(Var("Z"), Var("Y"), s1, fuel - 1) == Matched(true, s2);
      }
      assert Compute(l1.args[2], l2.args[2], s2, fuel) == Matched(true, s3);
      assert Compute(l1.args[3], l2.args[3], s3, fuel) == Matched(true, s4) by {
        assert Compute(Var("Y"), Var("Z"), s3, fuel - 1) == Matched(true, s4);
      }
      assert ComputeArgs(l1.args, l2.args, 3, s3, fuel) == OutOfFuel;
      assert ComputeArgs(l1.args, l2.args, 2, s2, fuel) == OutOfFuel;
      assert ComputeArgs(l1.args, l2.args, 1, s1, fuel) == OutOfFuel;
      assert ComputeArgs(l1.args, l2.args, 0, map[], fuel) == OutOfFuel;
    }
  }

  // Matching as intended: a bound variable is compared with its binding.

  /** Every name occurring in `t`. */
  function Names(t: STerm): set<string>
    decreases t
  {
    {t.name} + set i, n | 0 <= i < |t.args| && n in Names(t.args[i]) :: n
  }

  /** The names of the variables occurring in `t`; a variable is replaced as a whole, so
      nothing below it counts. */
  function VarNames(t: STerm): set<string>
    decreases t
  {
    if t.isVariable then {t.name} else set i, n | 0 <= i < |t.args| && n in VarNames(t.args[i]) :: n
  }

  /** `t` with each bound variable replaced by its binding. */
  function Instance(sub: Substitution, t: STerm): Terms.Term
    decreases t
  {
    if t.isVariable && t.name in sub then Erase(sub[t.name])
    else Terms.Term(t.name, InstanceAll(sub, t.args))
  }

  function InstanceAll(sub: Substitution, ts: seq<STerm>): (r: seq<Terms.Term>)
    ensures |r| == |ts| && forall i :: 0 <= i < |ts| ==> r[i] == Instance(sub, ts[i])
    decreases ts
  {
    seq(|ts|, i requires 0 <= i < |ts| => Instance(sub, ts[i]))
  }

  /** `computeSubstitution` as its comment describes it: a variable that is already bound
      matches exactly the term it is bound to. Structural recursion only, so it always
      returns. */
  function MatchCorrected(f1: STerm, f2: STerm, s: Substitution): (bool, Substitution)
    decreases f2
  {
    if f1.name == f2.name && |f1.args| == |f2.args| then MatchArgsCorrected(f1.args, f2.args, 0, s)
    else if f2.isVariable then
      if f2.name !in s then (true, s[f2.name := f1]) else (Erase(f1) == Erase(s[f2.name]), s)
    else (false, s)
  }

  function MatchArgsCorrected(as1: seq<STerm>, as2: seq<STerm>, i: nat, s: Substitution): (bool, Substitution)
    requires |as1| == |as2| && i <= |as1|
    decreases as2, |as2| - i
  {
    if i == |as1| then (true, s)
    else
      var m := MatchCorrected(as1[i], as2[i], s);
      if m.0 then MatchArgsCorrected(as1, as2, i + 1, m.1) else m
  }

  /** Extending a substitution that already binds every variable of `t` leaves its instance
      alone. */
  lemma {:induction false} InstanceStable(s: Substitution, s': Substitution, t: STerm)
    requires Extends(s', s) && VarNames(t) <= s.Keys
    ensures Instance(s', t) == Instance(s, t)
    decreases t
  {
    if !(t.isVariable && t.name in s) {
      forall i | 0 <= i < |t.args|
        ensures Instance(s', t.args[i]) == Instance(s, t.args[i])
      {
        assert VarNames(t.args[i]) <= VarNames(t);
        InstanceStable(s, s', t.args[i]);
      }
      assert InstanceAll(s', t.args) == InstanceAll(s, t.args);
    }
  }

  /** Soundness of the intended matching, when no variable of the pattern `f2` is named like a
      symbol of `f1`: on success the substitution extends the given one, binds every variable
      of `f2`, and turns `f2` into `f1`. */
  lemma {:induction false} MatchCorrectedSound(f1: STerm, f2: STerm, s: Substitution)
    requires Names(f1) !! VarNames(f2)
    requires MatchCorrected(f1, f2, s).0
    ensures var s' := MatchCorrected(f1, f2, s).1;
            Extends(s', s) && VarNames(f2) <= s'.Keys && Instance(s', f2) == Erase(f1)
    decreases f2
  {
    if f1.name == f2.name && |f1.args| == |f2.args| {
      assert !f2.isVariable by {
        assert f1.name in Names(f1);
      }
      forall i | 0 <= i < |f1.args|
        ensures Names(f1.args[i]) !! VarNames(f2.args[i])
      {
        assert Names(f1.args[i]) <= Names(f1);
        assert VarNames(f2.args[i]) <= VarNames(f2);
      }
      MatchArgsCorrectedSound(f1.args, f2.args, 0, s);
      var s' := MatchCorrected(f1, f2, s).1;
      assert InstanceAll(s', f2.args) == EraseAll(f1.args);
      forall n | n in VarNames(f2)
        ensures n in s'
      {
        var i :| 0 <= i < |f2.args| && n in VarNames(f2.args[i]);
      }
    }
  }

  lemma {:induction false} MatchArgsCorrectedSound(as1: seq<STerm>, as2: seq<STerm>, i: nat, s: Substitution)
    requires |as1| == |as2| && i <= |as1|
    requires forall j :: i <= j < |as1| ==> Names(as1[j]) !! VarNames(as2[j])
    requires MatchArgsCorrected(as1, as2, i, s).0
    ensures var s' := MatchArgsCorrected(as1, as2, i, s).1;
            Extends(s', s) &&
            forall j :: i <= j < |as1| ==> VarNames(as2[j]) <= s'.Keys && Instance(s', as2[j]) == Erase(as1[j])
    decreases as2, |as2| - i
  {
    if i < |as1| {
      var m := MatchCorrected(as1[i], as2[i], s);
      MatchCorrectedSound(as1[i], as2[i], s);
      MatchArgsCorrectedSound(as1, as2, i + 1, m.1);
      var s' := MatchArgsCorrected(as1, as2, i + 1, m.1);
      InstanceStable(m.1, s'.1, as2[i]);
    }
  }

  /** Every binding of `s` is, up to variable marks, the binding `sub` gives. */
  predicate Agrees(sub: Substitution, s: Substitution)
  {
    forall x :: x in s ==> x in sub && Erase(s[x]) == Erase(sub[x])
  }

  /** Completeness of the intended matching, when no variable of the pattern `f2` is named like
      a symbol of `f1`: if some substitution `sub` that agrees with `s` turns `f2` into `f1`,
      the matching answers yes, and the substitution it leaves still agrees with `sub`. */
  lemma {:induction false} MatchCorrectedComplete(f1: STerm, f2: STerm, s: Substitution, sub: Substitution)
    requires Names(f1) !! VarNames(f2)
    requires Agrees(sub, s) && Instance(sub, f2) == Erase(f1)
    ensures MatchCorrected(f1, f2, s).0 && Agrees(sub, MatchCorrected(f1, f2, s).1)
    decreases f2
  {
    assert f1.name in Names(f1);
    if f1.name == f2.name && |f1.args| == |f2.args| {
      assert !f2.isVariable;
      assert InstanceAll(sub, f2.args) == EraseAll(f1.args);
      forall i | 0 <= i < |f1.args|
        ensures Names(f1.args[i]) !! VarNames(f2.args[i]) && Instance(sub, f2.args[i]) == Erase(f1.args[i])
      {
        assert Names(f1.args[i]) <= Names(f1);
        assert VarNames(f2.args[i]) <= VarNames(f2);
      }
      MatchArgsCorrectedComplete(f1.args, f2.args, 0, s, sub);
    } else if f2.isVariable {
      assert f2.name in VarNames(f2);
      assert f2.name in sub;
    }
  }

  lemma {:induction false} MatchArgsCorrectedComplete(as1: seq<STerm>, as2: seq<STerm>, i: nat, s: Substitution, sub: Substitution)
    requires |as1| == |as2| && i <= |as1|
    requires forall j :: i <= j < |as1| ==> Names(as1[j]) !! VarNames(as2[j]) && Instance(sub, as2[j]) == Erase(as1[j])
    requires Agrees(sub, s)
    ensures MatchArgsCorrected(as1, as2, i, s).0 && Agrees(sub, MatchArgsCorrected(as1, as2, i, s).1)
    decreases as2, |as2| - i
  {
    if i < |as1| {
      MatchCorrectedComplete(as1[i], as2[i], s, sub);
      MatchArgsCorrectedComplete(as1, as2, i + 1, MatchCorrected(as1[i], as2[i], s).1, sub);
    }
  }

  /** `isSubstitution` with the intended matching. */
  function SubstitutionCorrected(l1: SLiteral, l2: SLiteral): Result<bool>
  {
    if l1.name != l2.name || l1.negated != l2.negated || |l1.args| != |l2.args| then Ok(false)
    else if MatchArgsCorrected(l1.args, l2.args, 0, map[]).0 then Ok(true)
    else if l1.name != "=" then Ok(false)
    else if |l1.args| != 2 then Err(AssertionFailed)
    else
      var first := MatchCorrected(l1.args[0], l2.args[1], map[]);
      Ok(first.0 && MatchCorrected(l1.args[1], l2.args[0], first.1).0)
  }

  /** `literalsMatch` with the intended matching; the rest of the model uses this one. */
  function LiteralsMatchCorrected(l1: SLiteral, l2: SLiteral, allowSubstitutions: bool): Result<bool>
  {
    if allowSubstitutions then SubstitutionCorrected(l1, l2) else Equal(l1, l2)
  }

  /** The literal `l1` is an instance of `l2` when the intended `isSubstitution` answers yes
      and the variables of `l2` are named apart from the symbols of `l1`: one substitution
      turns the arguments of `l2`, in order or swapped for `=`, into those of `l1`. */
  lemma SubstitutionCorrectedSound(l1: SLiteral, l2: SLiteral)
    requires forall i, j :: 0 <= i < |l1.args| && 0 <= j < |l2.args| ==> Names(l1.args[i]) !! VarNames(l2.args[j])
    requires SubstitutionCorrected(l1, l2) == Ok(true)
    ensures l1.name == l2.name && l1.negated == l2.negated && |l1.args| == |l2.args|
    ensures exists sub: Substitution ::
              InstanceAll(sub, l2.args) == EraseAll(l1.args) ||
              (l1.name == "=" && |l1.args| == 2 &&
               Instance(sub, l2.args[1]) == Erase(l1.args[0]) && Instance(sub, l2.args[0]) == Erase(l1.args[1]))
  {
    if MatchArgsCorrected(l1.args, l2.args, 0, map[]).0 {
      MatchArgsCorrectedSound(l1.args, l2.args, 0, map[]);
      var sub := MatchArgsCorrected(l1.args, l2.args, 0, map[]).1;
      assert InstanceAll(sub, l2.args) == EraseAll(l1.args);
    } else {
      var first := MatchCorrected(l1.args[0], l2.args[1], map[]);
      MatchCorrectedSound(l1.args[0], l2.args[1], map[]);
      MatchCorrectedSound(l1.args[1], l2.args[0], first.1);
      var sub := MatchCorrected(l1.args[1], l2.args[0], first.1).1;
      InstanceStable(first.1, sub, l2.args[1]);
      assert Instance(sub, l2.args[1]) == Erase(l1.args[0]);
    }
  }

  /** The intended `isSubstitution` answers yes whenever one substitution turns the arguments
      of `l2`, in order or swapped for `=`, into those of `l1`, the variables of `l2` being
      named apart from the symbols of `l1`. */
  lemma SubstitutionCorrectedComplete(l1: SLiteral, l2: SLiteral, sub: Substitution)
    requires forall i, j :: 0 <= i < |l1.args| && 0 <= j < |l2.args| ==> Names(l1.args[i]) !! VarNames(l2.args[j])
    requires l1.name == l2.name && l1.negated == l2.negated && |l1.args| == |l2.args|
    requires InstanceAll(sub, l2.args) == EraseAll(l1.args) ||
             (l1.name == "=" && |l1.args| == 2 &&
              Instance(sub, l2.args[1]) == Erase(l1.args[0]) && Instance(sub, l2.args[0]) == Erase(l1.args[1]))
    ensures SubstitutionCorrected(l1, l2) == Ok(true)
  {
    if InstanceAll(sub, l2.args) == EraseAll(l1.args) {
      forall j | 0 <= j < |l1.args|
        ensures Instance(sub, l2.args[j]) == Erase(l1.args[j])
      {
        assert InstanceAll(sub, l2.args)[j] == EraseAll(l1.args)[j];
      }
      MatchArgsCorrectedComplete(l1.args, l2.args, 0, map[], sub);
    } else if !MatchArgsCorrected(l1.args, l2.args, 0, map[]).0 {
      MatchCorrectedComplete(l1.args[0], l2.args[1], map[], sub);
      var first := MatchCorrected(l1.args[0], l2.args[1], map[]);
      MatchCorrectedComplete(l1.args[1], l2.args[0], first.1, sub);
    }
  }

  /** The intended `isSubstitution` answers yes exactly when the instance exists. */
  lemma SubstitutionCorrectedMeaning(l1: SLiteral, l2: SLiteral)
    requires forall i, j :: 0 <= i < |l1.args| && 0 <= j < |l2.args| ==> Names(l1.args[i]) !! VarNames(l2.args[j])
    ensures SubstitutionCorrected(l1, l2) == Ok(true) <==>
            l1.name == l2.name && l1.negated == l2.negated && |l1.args| == |l2.args| &&
            exists sub: Substitution ::
              InstanceAll(sub, l2.args) == EraseAll(l1.args) ||
              (l1.name == "=" && |l1.args| == 2 &&
               Instance(sub, l2.args[1]) == Erase(l1.args[0]) && Instance(sub, l2.args[0]) == Erase(l1.args[1]))
  {
    if SubstitutionCorrected(l1, l2) == Ok(true) {
      SubstitutionCorrectedSound(l1, l2);
    }
    if l1.name == l2.name && l1.negated == l2.negated && |l1.args| == |l2.args| &&
       exists sub: Substitution ::
         InstanceAll(sub, l2.args) == EraseAll(l1.args) ||
         (l1.name == "=" && |l1.args| == 2 &&
          Instance(sub, l2.args[1]) == Erase(l1.args[0]) && Instance(sub, l2.args[0]) == Erase(l1.args[1])) {
      var sub: Substitution :|
        InstanceAll(sub, l2.args) == EraseAll(l1.args) ||
        (l1.name == "=" && |l1.args| == 2 &&
         Instance(sub, l2.args[1]) == Erase(l1.args[0]) && Instance(sub, l2.args[0]) == Erase(l1.args[1]));
      SubstitutionCorrectedComplete(l1, l2, sub);
    }
  }

  // A yes without an instance.

  /** `p(Y, c)`, the instance asked about. */
  function FactoredInstance(): SLiteral { SLiteral("p", [Var("Y"), Const("c")], false) }

  /** `p(X, X)`, the pattern. */
  function FactoredPattern(): SLiteral { SLiteral("p", [Var("X"), Var("X")], false) }

  /** `isSubstitution(p(Y, c), p(X, X))` answers yes: X is bound to Y, then `c` is matched
      against the binding Y, a variable of the instance, which gets bound to `c`. No
      substitution turns `p(X, X)` into `p(Y, c)`, and the intended matching answers no. */
  lemma UnsoundMatch(fuel: nat)
    requires fuel >= 1
    ensures SubstitutionOf(FactoredInstance(), FactoredPattern(), fuel) == Returns(true)
    ensures forall sub: Substitution :: InstanceAll(sub, FactoredPattern().args) != EraseAll(FactoredInstance().args)
    ensures SubstitutionCorrected(FactoredInstance(), FactoredPattern()) == Ok(false)
  {
    var l1, l2 := FactoredInstance(), FactoredPattern();
    var s1 := map["X" := Var("Y")];
    assert Compute(l1.args[0], l2.args[0], map[], fuel) == Matched(true, s1);
    assert Compute(l1.args[1], l2.args[1], s1, fuel) == Matched(true, s1["Y" := Const("c")]) by {
      assert Compute(Const("c"), Var("Y"), s1, fuel - 1) == Matched(true, s1["Y" := Const("c")]);
    }
    var s2 := s1["Y" := Const("c")];
    assert ComputeArgs(l1.args, l2.args, 2, s2, fuel) == Matched(true, s2);
    assert ComputeArgs(l1.args, l2.args, 1, s1, fuel) == Matched(true, s2);
    assert ComputeArgs(l1.args, l2.args, 0, map[], fuel) == Matched(true, s2);
    forall sub: Substitution
      ensures InstanceAll(sub, l2.args) != EraseAll(l1.args)
    {
      if InstanceAll(sub, l2.args) == EraseAll(l1.args) {
        assert false;
      }
    }
    assert MatchCorrected(l1.args[0], l2.args[0], map[]) == (true, s1);
    assert MatchCorrected(l1.args[1], l2.args[1], s1).0 == false;
  }
}
