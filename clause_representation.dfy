/** Orienting the literals of the clauses of a dag into premise, conclusion and context, and
    ordering them like the parent clauses (src/model/clause-orientation.ts,
    `computeClauseRepresentation`). */
module ClauseRepresentation {
  import opened Wrappers
  import opened SatModel
  import Dags

  datatype Side = Premise | Conclusion | Context

  /** A clause's three oriented lists as they are being rebuilt. */
  datatype Partition = Partition(premise: seq<LitId>, conclusion: seq<LitId>, context: seq<LitId>)
  {
    function All(): seq<LitId> { premise + conclusion + context }
  }

  /** Every literal of `xs` is in the arena. */
  predicate InArena(xs: seq<LitId>, literals: Literals)
  {
    forall k :: 0 <= k < |xs| ==> xs[k] in literals
  }

  /** `q` holds the same literals as `p`, list by list, in any order. */
  predicate SameLists(q: Partition, p: Partition)
  {
    multiset(q.premise) == multiset(p.premise) && multiset(q.conclusion) == multiset(p.conclusion) &&
    multiset(q.context) == multiset(p.context)
  }

  function Push(p: Partition, side: Side, x: LitId): (r: Partition)
    ensures multiset(r.All()) == multiset(p.All()) + multiset{x}
  {
    match side
    case Premise => p.(premise := p.premise + [x])
    case Conclusion => p.(conclusion := p.conclusion + [x])
    case Context => p.(context := p.context + [x])
  }

  /** `isEqualityResolutionWithDeletion`: an equality resolution whose first parent comes
      from preprocessing. */
  function WithDeletion(nodes: SatNodes, node: SatNode): Result<bool>
  {
    if node.inferenceRule != "equality resolution" then Ok(false)
    else if |node.parents| == 0 then Err(KeyMissing)
    else
      match Get(nodes, node.parents[0])
      case Err(e) => Err(e)
      case Ok(parent) => Ok(parent.isFromPreprocessing)
  }

  /** The rules whose clause takes its orientation from the main premise. */
  predicate PropagateSingleParent(rule: string, parentCount: int, withDeletion: bool)
  {
    rule == "subsumption resolution" || (rule == "equality resolution" && !withDeletion) ||
    rule == "equality factoring" || rule == "forward demodulation" || rule == "backward demodulation" ||
    rule == "forward subsumption demodulation" || rule == "factoring" || rule == "duplicate literal removal" ||
    rule == "evaluation" || rule == "trivial inequality removal" ||
    (rule == "term algebras injectivity" && parentCount == 1) ||
    (rule == "term algebras distinctness" && parentCount == 1)
  }

  /** The rules whose clause takes its orientation from both premises. */
  predicate PropagateTwoParents(rule: string)
  {
    rule == "resolution" || rule == "superposition"
  }

  /** The list of `c` holding `x`, looked up in the order premise, conclusion, context; the
      last lookup is asserted. */
  function SideOf(c: Clause, x: LitId): (r: Result<Side>)
    ensures r.Ok? <==> x in c.Oriented()
    ensures r == Ok(Premise) <==> x in c.premiseLiterals
  {
    if x in c.premiseLiterals then Ok(Premise)
    else if x in c.conclusionLiterals then Ok(Conclusion)
    else if x in c.contextLiterals then Ok(Context)
    else Err(AssertionFailed)
  }

  /** The side the parent literal `pl` has in the parent clause (or clauses), or none when a
      parent is not a clause. */
  function InheritedSide(nodes: SatNodes, node: SatNode, pl: LitId, single: bool): Result<Option<Side>>
  {
    if single then
      if |node.parents| == 0 then Err(AssertionFailed)
      else
        match Get(nodes, node.parents[0])
        case Err(e) => Err(e)
        case Ok(parent) =>
          if !parent.unit.ClauseUnit? then Ok(None)
          else
            match SideOf(parent.unit.clause, pl)
            case Err(e) => Err(e)
            case Ok(side) => Ok(Some(side))
    else
      if |node.parents| != 2 then Err(AssertionFailed)
      else
        match Get(nodes, node.parents[0])
        case Err(e) => Err(e)
        case Ok(leftNode) =>
          match Get(nodes, node.parents[1])
          case Err(e) => Err(e)
          case Ok(rightNode) =>
            if !leftNode.unit.ClauseUnit? || !rightNode.unit.ClauseUnit? then Ok(None)
            else
              var side := if pl in leftNode.unit.clause.Oriented() then SideOf(leftNode.unit.clause, pl)
                          else SideOf(rightNode.unit.clause, pl);
              match side
              case Err(e) => Err(e)
              case Ok(s) => Ok(Some(s))
  }

  /** The orientation heuristic: a negated literal other than an equality is a premise. */
  function HeuristicSide(lit: LiteralObj): Side
  {
    if lit.negated && lit.name != "=" then Premise else Conclusion
  }

  /** Part 1 for one literal `x` of clause `c`: where it goes, and the arena with its
      representation and reason updated. A literal not oriented by the user inherits from its
      parent literal when the rule propagates; otherwise a literal with a reason keeps its
      side; otherwise the heuristic decides. Only `x` changes, and never to or from `User`. */
  function OrientLiteral(nodes: SatNodes, literals: Literals, node: SatNode, c: Clause,
                         single: bool, two: bool, x: LitId): (r: Result<(Side, Literals)>)
    requires x in literals && LinksStored(literals)
    ensures r.Ok? ==> x in r.value.1 && r.value.1 == literals[x := r.value.1[x]] && LinksStored(r.value.1)
    ensures r.Ok? ==> r.value.1[x].literalInParent == literals[x].literalInParent
    ensures r.Ok? ==> (r.value.1[x].orientationReason == User <==> literals[x].orientationReason == User)
    ensures r.Ok? ==> r.value.1[x].orientationReason != NoReason
  {
    var lit := literals[x];
    if lit.orientationReason != User && (single || two) then
      if lit.literalInParent.None? then Err(AssertionFailed)
      else
        var pl := lit.literalInParent.value;
        var updated := literals[x := lit.(representation := literals[pl].representation, orientationReason := Inherited)];
        match InheritedSide(nodes, node, pl, single)
        case Err(e) => Err(e)
        case Ok(None) => Err(AssertionFailed)
        case Ok(Some(side)) => Ok((side, updated))
    else if lit.orientationReason != NoReason then
      match SideOf(c, x)
      case Err(e) => Err(e)
      case Ok(side) => Ok((side, literals))
    else
      Ok((HeuristicSide(lit), literals[x := lit.(orientationReason := Heuristic)]))
  }

  /** Part 1 over the literals `xs`, pushing each onto its side of `acc`. */
  function OrientAll(nodes: SatNodes, literals: Literals, node: SatNode, c: Clause, single: bool, two: bool,
                     xs: seq<LitId>, acc: Partition): (r: Result<(Partition, Literals)>)
    requires InArena(xs, literals) && LinksStored(literals)
    ensures r.Ok? ==> r.value.1.Keys == literals.Keys && LinksStored(r.value.1)
    decreases |xs|
  {
    if xs == [] then Ok((acc, literals))
    else
      match OrientLiteral(nodes, literals, node, c, single, two, xs[0])
      case Err(e) => Err(e)
      case Ok(step) =>
        var rest := OrientAll(nodes, step.1, node, c, single, two, xs[1..], Push(acc, step.0, xs[0]));
        assert forall k :: 1 <= k < |xs| ==> xs[k] == xs[1..][k - 1];
        rest
  }

  /** One step of part 1: the first literal is oriented and pushed, or its error ends it. */
  lemma OrientAllUnfold(nodes: SatNodes, literals: Literals, node: SatNode, c: Clause, single: bool, two: bool,
                      xs: seq<LitId>, acc: Partition)
    requires InArena(xs, literals) && LinksStored(literals) && |xs| > 0
    ensures var step := OrientLiteral(nodes, literals, node, c, single, two, xs[0]);
            (step.Err? ==> OrientAll(nodes, literals, node, c, single, two, xs, acc) == Err(step.error)) &&
            (step.Ok? ==> InArena(xs[1..], step.value.1) &&
                          OrientAll(nodes, literals, node, c, single, two, xs, acc) ==
                          OrientAll(nodes, step.value.1, node, c, single, two, xs[1..], Push(acc, step.value.0, xs[0])))
  {
    assert forall k :: 1 <= k < |xs| ==> xs[k] == xs[1..][k - 1];
  }

  /** Part 1 keeps every literal: the new lists hold the literals of `acc` and of `xs`. */
  lemma {:induction false} OrientAllPermutes(nodes: SatNodes, literals: Literals, node: SatNode, c: Clause, single: bool, two: bool,
                                             xs: seq<LitId>, acc: Partition)
    requires InArena(xs, literals) && LinksStored(literals)
    requires OrientAll(nodes, literals, node, c, single, two, xs, acc).Ok?
    ensures multiset(OrientAll(nodes, literals, node, c, single, two, xs, acc).value.0.All()) == multiset(acc.All()) + multiset(xs)
    decreases |xs|
  {
    if xs != [] {
      OrientAllStep(nodes, literals, node, c, single, two, xs, acc);
      var step := OrientLiteral(nodes, literals, node, c, single, two, xs[0]).value;
      OrientAllPermutes(nodes, step.1, node, c, single, two, xs[1..], Push(acc, step.0, xs[0]));
      MultisetOfCons(xs);
    }
  }

  lemma MultisetOfCons(xs: seq<LitId>)
    requires xs != []
    ensures multiset(xs) == multiset{xs[0]} + multiset(xs[1..])
  {
    assert xs == [xs[0]] + xs[1..];
  }

  /** Lists holding the literals of `pool` hold literals of the arena. */
  lemma PoolStored(p: Partition, pool: seq<LitId>, literals: Literals)
    requires InArena(pool, literals) && multiset(p.All()) == multiset(pool)
    ensures PartitionStored(p, literals)
  {
    assert multiset(p.All()) == multiset(p.premise) + multiset(p.conclusion) + multiset(p.context);
    assert forall x :: x in multiset(pool) ==> x in literals;
    assert forall k :: 0 <= k < |p.premise| ==> p.premise[k] in multiset(p.premise);
    assert forall k :: 0 <= k < |p.conclusion| ==> p.conclusion[k] in multiset(p.conclusion);
    assert forall k :: 0 <= k < |p.context| ==> p.context[k] in multiset(p.context);
  }

  /** Reordered lists of stored literals are stored. */
  lemma SameListsStored(q: Partition, p: Partition, literals: Literals)
    requires SameLists(q, p) && PartitionStored(p, literals)
    ensures PartitionStored(q, literals)
  {
    assert forall k :: 0 <= k < |q.premise| ==> q.premise[k] in multiset(p.premise);
    assert forall k :: 0 <= k < |q.conclusion| ==> q.conclusion[k] in multiset(p.conclusion);
    assert forall k :: 0 <= k < |q.context| ==> q.context[k] in multiset(p.context);
  }

  /** The list of side `t`. */
  function PartOf(p: Partition, t: Side): seq<LitId>
  {
    match t
    case Premise => p.premise
    case Conclusion => p.conclusion
    case Context => p.context
  }

  /** Where Part 1 puts `x` whatever was updated before it: a literal the user oriented keeps
      its list, and a literal that inherits goes to the list of its parent literal. None when
      the heuristic (or a failure) decides. It depends on the literal only through whether it
      is the user's and through its parent literal, which Part 1 never changes. */
  function FixedSide(nodes: SatNodes, node: SatNode, c: Clause, single: bool, two: bool,
                     lit: LiteralObj, x: LitId): Option<Side>
  {
    if lit.orientationReason == User then
      match SideOf(c, x)
      case Ok(s) => Some(s)
      case Err(_) => None
    else if (single || two) && lit.literalInParent.Some? then
      match InheritedSide(nodes, node, lit.literalInParent.value, single)
      case Ok(Some(s)) => Some(s)
      case _ => None
    else None
  }

  /** A literal not in `xs` is pushed nowhere. */
  lemma {:induction false} OrientAllOthers(nodes: SatNodes, literals: Literals, node: SatNode, c: Clause, single: bool, two: bool,
                                           xs: seq<LitId>, acc: Partition, y: LitId, t: Side)
    requires InArena(xs, literals) && LinksStored(literals)
    requires OrientAll(nodes, literals, node, c, single, two, xs, acc).Ok?
    requires y !in xs
    ensures y in PartOf(OrientAll(nodes, literals, node, c, single, two, xs, acc).value.0, t) <==> y in PartOf(acc, t)
    decreases |xs|
  {
    if xs != [] {
      OrientAllStep(nodes, literals, node, c, single, two, xs, acc);
      var step := OrientLiteral(nodes, literals, node, c, single, two, xs[0]).value;
      OrientAllOthers(nodes, step.1, node, c, single, two, xs[1..], Push(acc, step.0, xs[0]), y, t);
      PushIn(acc, step.0, xs[0], y, t);
    }
  }

  /** A literal with a fixed side ends up in that list and in no other. */
  lemma {:induction false} OrientAllFixed(nodes: SatNodes, literals: Literals, node: SatNode, c: Clause, single: bool, two: bool,
                                          xs: seq<LitId>, acc: Partition, y: LitId, s: Side, t: Side)
    requires InArena(xs, literals) && LinksStored(literals)
    requires OrientAll(nodes, literals, node, c, single, two, xs, acc).Ok?
    requires y in literals && FixedSide(nodes, node, c, single, two, literals[y], y) == Some(s)
    ensures y in PartOf(OrientAll(nodes, literals, node, c, single, two, xs, acc).value.0, t) <==>
            y in PartOf(acc, t) || (y in xs && t == s)
    decreases |xs|
  {
    if xs != [] {
      OrientAllStep(nodes, literals, node, c, single, two, xs, acc);
      var step := OrientLiteral(nodes, literals, node, c, single, two, xs[0]).value;
      FixedSideKept(nodes, literals, node, c, single, two, xs[0], y);
      if xs[0] == y {
        OrientLiteralFixed(nodes, literals, node, c, single, two, y, s);
      }
      OrientAllFixed(nodes, step.1, node, c, single, two, xs[1..], Push(acc, step.0, xs[0]), y, s, t);
      PushIn(acc, step.0, xs[0], y, t);
      assert y in xs <==> y == xs[0] || y in xs[1..];
    }
  }

  /** One step of Part 1: the first literal is oriented and the rest follow in the new arena. */
  lemma OrientAllStep(nodes: SatNodes, literals: Literals, node: SatNode, c: Clause, single: bool, two: bool,
                      xs: seq<LitId>, acc: Partition)
    requires InArena(xs, literals) && LinksStored(literals) && xs != []
    requires OrientAll(nodes, literals, node, c, single, two, xs, acc).Ok?
    ensures var step := OrientLiteral(nodes, literals, node, c, single, two, xs[0]);
            step.Ok? && InArena(xs[1..], step.value.1) && LinksStored(step.value.1) &&
            OrientAll(nodes, step.value.1, node, c, single, two, xs[1..], Push(acc, step.value.0, xs[0])) ==
              OrientAll(nodes, literals, node, c, single, two, xs, acc)
  {
  }

  /** Without propagation, a literal with no reason goes where the heuristic says. */
  lemma OrientLiteralHeuristic(nodes: SatNodes, literals: Literals, node: SatNode, c: Clause, x: LitId)
    requires x in literals && LinksStored(literals) && literals[x].orientationReason == NoReason
    requires OrientLiteral(nodes, literals, node, c, false, false, x).Ok?
    ensures OrientLiteral(nodes, literals, node, c, false, false, x).value.0 == HeuristicSide(literals[x])
  {
  }

  /** Pushing `x` onto side `s` adds it to that list only. */
  lemma PushIn(p: Partition, s: Side, x: LitId, y: LitId, t: Side)
    ensures y in PartOf(Push(p, s, x), t) <==> y in PartOf(p, t) || (y == x && t == s)
  {
  }

  /** Orienting one literal does not move the fixed side of any literal. */
  lemma FixedSideKept(nodes: SatNodes, literals: Literals, node: SatNode, c: Clause, single: bool, two: bool,
                      x: LitId, y: LitId)
    requires x in literals && LinksStored(literals) && y in literals
    requires OrientLiteral(nodes, literals, node, c, single, two, x).Ok?
    ensures var after := OrientLiteral(nodes, literals, node, c, single, two, x).value.1;
            y in after && FixedSide(nodes, node, c, single, two, after[y], y) == FixedSide(nodes, node, c, single, two, literals[y], y)
  {
  }

  /** A literal with a fixed side is put on that side. */
  lemma OrientLiteralFixed(nodes: SatNodes, literals: Literals, node: SatNode, c: Clause, single: bool, two: bool,
                           x: LitId, s: Side)
    requires x in literals && LinksStored(literals)
    requires OrientLiteral(nodes, literals, node, c, single, two, x).Ok?
    requires FixedSide(nodes, node, c, single, two, literals[x], x) == Some(s)
    ensures OrientLiteral(nodes, literals, node, c, single, two, x).value.0 == s
  {
  }

  /** Without propagation, a literal with no reason that occurs once goes where the heuristic
      says. */
  lemma {:induction false} OrientAllHeuristic(nodes: SatNodes, literals: Literals, node: SatNode, c: Clause,
                                              xs: seq<LitId>, acc: Partition, y: LitId, t: Side)
    requires InArena(xs, literals) && LinksStored(literals)
    requires OrientAll(nodes, literals, node, c, false, false, xs, acc).Ok?
    requires y in literals && literals[y].orientationReason == NoReason && multiset(xs)[y] == 1
    ensures y in PartOf(OrientAll(nodes, literals, node, c, false, false, xs, acc).value.0, t) <==>
            y in PartOf(acc, t) || t == HeuristicSide(literals[y])
    decreases |xs|
  {
    assert xs == [xs[0]] + xs[1..];
    OrientAllStep(nodes, literals, node, c, false, false, xs, acc);
    var step := OrientLiteral(nodes, literals, node, c, false, false, xs[0]).value;
    PushIn(acc, step.0, xs[0], y, t);
    if xs[0] == y {
      assert multiset(xs[1..])[y] == 0;
      OrientLiteralHeuristic(nodes, literals, node, c, y);
      OrientAllOthers(nodes, step.1, node, c, false, false, xs[1..], Push(acc, step.0, xs[0]), y, t);
    } else {
      assert step.1[y] == literals[y];
      OrientAllHeuristic(nodes, step.1, node, c, xs[1..], Push(acc, step.0, xs[0]), y, t);
    }
  }

  /** Part 1 decides every literal of `xs`: afterwards none is left without a reason, and a
      literal is the user's exactly when it was before. */
  lemma {:induction false} OrientAllReason(nodes: SatNodes, literals: Literals, node: SatNode, c: Clause, single: bool, two: bool,
                                           xs: seq<LitId>, acc: Partition, y: LitId)
    requires InArena(xs, literals) && LinksStored(literals)
    requires OrientAll(nodes, literals, node, c, single, two, xs, acc).Ok?
    requires y in literals
    ensures var after := OrientAll(nodes, literals, node, c, single, two, xs, acc).value.1[y];
            (after.orientationReason == User <==> literals[y].orientationReason == User) &&
            after.literalInParent == literals[y].literalInParent &&
            (literals[y].orientationReason != NoReason || y in xs ==> after.orientationReason != NoReason)
    decreases |xs|
  {
    if xs != [] {
      OrientAllStep(nodes, literals, node, c, single, two, xs, acc);
      var step := OrientLiteral(nodes, literals, node, c, single, two, xs[0]).value;
      OrientAllReason(nodes, step.1, node, c, single, two, xs[1..], Push(acc, step.0, xs[0]), y);
      assert y in xs <==> y == xs[0] || y in xs[1..];
    }
  }

  /** Whether some literal of `xs` was oriented by the user. */
  predicate ExistsUser(literals: Literals, xs: seq<LitId>)
    requires InArena(xs, literals)
  {
    exists k :: 0 <= k < |xs| && literals[xs[k]].orientationReason == User
  }

  // Part 2: ordering by the parents.

  /** `indexMap.set(s[i], offset + i)` for each i in turn: the last position of each literal. */
  function IndexMap(s: seq<LitId>, offset: int): (m: map<LitId, int>)
    ensures m.Keys == set x | x in s
    decreases |s|
  {
    if s == [] then map[] else IndexMap(s[..|s| - 1], offset)[s[|s| - 1] := offset + |s| - 1]
  }

  lemma {:induction false} IndexMapLast(s: seq<LitId>, offset: int, x: LitId)
    requires x in s
    ensures var i := IndexMap(s, offset)[x] - offset;
            0 <= i < |s| && s[i] == x && forall j :: i < j < |s| ==> s[j] != x
    decreases |s|
  {
    var t := s[..|s| - 1];
    assert IndexMap(s, offset) == IndexMap(t, offset)[s[|s| - 1] := offset + |s| - 1];
    if s[|s| - 1] != x {
      assert x in t;
      assert forall j :: 0 <= j < |t| ==> t[j] == s[j];
      IndexMapLast(t, offset, x);
    }
  }

  /** Whether `xs` is ordered by `key`. */
  predicate SortedBy(xs: seq<LitId>, key: map<LitId, int>)
    requires forall k :: 0 <= k < |xs| ==> xs[k] in key
  {
    forall i, j :: 0 <= i < j < |xs| ==> key[xs[i]] <= key[xs[j]]
  }

  /** `x` inserted into `s` before the first element with a larger key. */
  function Insert(x: LitId, s: seq<LitId>, key: map<LitId, int>): (r: seq<LitId>)
    requires x in key && forall k :: 0 <= k < |s| ==> s[k] in key
    ensures multiset(r) == multiset(s) + multiset{x}
    ensures forall k :: 0 <= k < |r| ==> r[k] in key
  {
    if s == [] then [x]
    else if key[s[0]] > key[x] then [x] + s
    else
      var rest := Insert(x, s[1..], key);
      assert s == [s[0]] + s[1..];
      assert forall k :: 0 <= k < |rest| ==> rest[k] in multiset(rest);
      [s[0]] + rest
  }

  /** Inserting into a sorted list keeps it sorted. */
  lemma {:induction false} InsertSorted(x: LitId, s: seq<LitId>, key: map<LitId, int>)
    requires x in key && forall k :: 0 <= k < |s| ==> s[k] in key
    requires SortedBy(s, key)
    ensures SortedBy(Insert(x, s, key), key)
  {
    if s != [] && key[s[0]] <= key[x] {
      InsertSorted(x, s[1..], key);
      var rest := Insert(x, s[1..], key);
      forall k | 0 <= k < |rest| ensures key[s[0]] <= key[rest[k]] {
        assert rest[k] in multiset(rest);
        if rest[k] != x {
          assert rest[k] in multiset(s[1..]);
          assert rest[k] in s[1..];
          var j :| 0 <= j < |s[1..]| && s[1..][j] == rest[k];
          assert s[j + 1] == rest[k];
        }
      }
      assert Insert(x, s, key) == [s[0]] + rest;
    }
  }

  /** The stable sort of `xs` by `key` (the engine's sort is stable). */
  function SortBy(xs: seq<LitId>, key: map<LitId, int>): (r: seq<LitId>)
    requires forall k :: 0 <= k < |xs| ==> xs[k] in key
    ensures multiset(r) == multiset(xs)
    ensures forall k :: 0 <= k < |r| ==> r[k] in key
    ensures SortedBy(r, key)
    decreases |xs|
  {
    if xs == [] then []
    else
      assert xs == xs[..|xs| - 1] + [xs[|xs| - 1]];
      var sorted := SortBy(xs[..|xs| - 1], key);
      InsertSorted(xs[|xs| - 1], sorted, key);
      Insert(xs[|xs| - 1], sorted, key)
  }

  /** The literal has a parent literal with a position in `index`. */
  predicate Indexed(lit: LiteralObj, index: map<LitId, int>)
  {
    lit.literalInParent.Some? && lit.literalInParent.value in index
  }

  /** `xs` is ordered by the positions `index` gives the parent literals. */
  predicate OrderedBy(xs: seq<LitId>, literals: Literals, index: map<LitId, int>)
  {
    (forall k :: 0 <= k < |xs| ==> xs[k] in literals && Indexed(literals[xs[k]], index)) &&
    forall i, j :: 0 <= i < j < |xs| ==>
      index[literals[xs[i]].literalInParent.value] <= index[literals[xs[j]].literalInParent.value]
  }

  /** `list.sort(...)` with the comparator of Part 2: a literal without parent literal, or
      whose parent literal has no index, fails the comparator's assertions as soon as there
      is anything to compare; otherwise the list is reordered by the positions of the parent
      literals. */
  function SortByParents(xs: seq<LitId>, literals: Literals, index: map<LitId, int>): (r: Result<seq<LitId>>)
    requires InArena(xs, literals)
    ensures r.Err? <==> |xs| >= 2 && exists k :: 0 <= k < |xs| && !Indexed(literals[xs[k]], index)
    ensures r.Ok? ==> multiset(r.value) == multiset(xs)
    ensures r.Ok? && |xs| >= 2 ==> OrderedBy(r.value, literals, index)
  {
    if |xs| < 2 then Ok(xs)
    else if exists k :: 0 <= k < |xs| && !Indexed(literals[xs[k]], index) then
      Err(AssertionFailed)
    else
      assert forall x :: x in xs ==> x in literals && Indexed(literals[x], index);
      var key := ParentKey(xs, literals, index);
      var sorted := SortBy(xs, key);
      KeyedOrder(xs, literals, index, sorted);
      Ok(sorted)
  }

  /** The position of each literal's parent literal, for the literals of `xs`. */
  function ParentKey(xs: seq<LitId>, literals: Literals, index: map<LitId, int>): (key: map<LitId, int>)
    requires forall x :: x in xs ==> x in literals && Indexed(literals[x], index)
    ensures forall x :: x in xs ==> x in key
  {
    var key := map x | x in xs && x in literals && Indexed(literals[x], index) :: index[literals[x].literalInParent.value];
    assert forall x :: x in xs ==> x in key by {
      forall x | x in xs ensures x in key {
        assert x in literals && Indexed(literals[x], index);
      }
    }
    key
  }

  /** A permutation of `xs` sorted by the parent positions is ordered by them. */
  lemma KeyedOrder(xs: seq<LitId>, literals: Literals, index: map<LitId, int>, sorted: seq<LitId>)
    requires forall x :: x in xs ==> x in literals && Indexed(literals[x], index)
    requires multiset(sorted) == multiset(xs)
    requires forall k :: 0 <= k < |sorted| ==> sorted[k] in ParentKey(xs, literals, index)
    requires SortedBy(sorted, ParentKey(xs, literals, index))
    ensures OrderedBy(sorted, literals, index)
  {
    var key := ParentKey(xs, literals, index);
    forall k | 0 <= k < |sorted|
      ensures sorted[k] in literals && Indexed(literals[sorted[k]], index)
      ensures key[sorted[k]] == index[literals[sorted[k]].literalInParent.value]
    {
      assert sorted[k] in multiset(xs);
    }
  }

  /** Every literal of the three lists is in the arena. */
  predicate PartitionStored(p: Partition, literals: Literals)
  {
    InArena(p.premise, literals) && InArena(p.conclusion, literals) && InArena(p.context, literals)
  }

  /** The three lists sorted by the index maps. */
  function SortPartition(p: Partition, literals: Literals, premiseIndex: map<LitId, int>,
                         conclusionIndex: map<LitId, int>, contextIndex: map<LitId, int>): (r: Result<Partition>)
    requires PartitionStored(p, literals)
    ensures r.Ok? ==> SameLists(r.value, p)
  {
    match SortByParents(p.premise, literals, premiseIndex)
    case Err(e) => Err(e)
    case Ok(premise) =>
      match SortByParents(p.conclusion, literals, conclusionIndex)
      case Err(e) => Err(e)
      case Ok(conclusion) =>
        match SortByParents(p.context, literals, contextIndex)
        case Err(e) => Err(e)
        case Ok(context) => Ok(Partition(premise, conclusion, context))
  }

  /** Part 2 with a single main premise: each list ordered like the premise's list. */
  function ByMainPremise(nodes: SatNodes, literals: Literals, node: SatNode, p: Partition): (r: Result<Partition>)
    requires PartitionStored(p, literals)
    ensures r.Ok? ==> SameLists(r.value, p)
  {
    if |node.parents| == 0 then Err(KeyMissing)
    else
      match Get(nodes, node.parents[0])
      case Err(e) => Err(e)
      case Ok(parent) =>
        if !parent.unit.ClauseUnit? then Ok(p)
        else
          var pc := parent.unit.clause;
          SortPartition(p, literals, IndexMap(pc.premiseLiterals, 0), IndexMap(pc.conclusionLiterals, 0),
                        IndexMap(pc.contextLiterals, 0))
  }

  /** The positions of the two premises' literals in list `t`, the right premise's after the
      left premise's. */
  function TwoParentIndex(left: Clause, right: Clause, t: Side): map<LitId, int>
  {
    IndexMap(ListOf(left, t), 0) + IndexMap(ListOf(right, t), |ListOf(left, t)|)
  }

  /** A literal of the right premise is placed after every literal of the left premise,
      at its last position in the right list; one only in the left premise keeps its last
      position in the left list. */
  lemma TwoParentIndexMeaning(left: Clause, right: Clause, t: Side, x: LitId)
    requires x in ListOf(left, t) || x in ListOf(right, t)
    ensures var index := TwoParentIndex(left, right, t);
            var (l, rl) := (ListOf(left, t), ListOf(right, t));
            x in index &&
            (x in rl ==> |l| <= index[x] < |l| + |rl| && rl[index[x] - |l|] == x &&
                         forall j :: index[x] - |l| < j < |rl| ==> rl[j] != x) &&
            (x !in rl ==> 0 <= index[x] < |l| && l[index[x]] == x &&
                          forall j :: index[x] < j < |l| ==> l[j] != x)
  {
    var (l, rl) := (ListOf(left, t), ListOf(right, t));
    if x in rl {
      IndexMapLast(rl, |l|, x);
    } else {
      IndexMapLast(l, 0, x);
    }
  }

  /** Part 2 with two premises: each list ordered like the left and then the right premise's
      list. */
  function ByTwoPremises(nodes: SatNodes, literals: Literals, node: SatNode, p: Partition): (r: Result<Partition>)
    requires PartitionStored(p, literals)
    ensures r.Ok? ==> SameLists(r.value, p)
  {
    if |node.parents| != 2 then Err(AssertionFailed)
    else
      match Get(nodes, node.parents[0])
      case Err(e) => Err(e)
      case Ok(leftNode) =>
        match Get(nodes, node.parents[1])
        case Err(e) => Err(e)
        case Ok(rightNode) =>
          if !leftNode.unit.ClauseUnit? || !rightNode.unit.ClauseUnit? then Ok(p)
          else
            var lc, rc := leftNode.unit.clause, rightNode.unit.clause;
            SortPartition(p, literals, TwoParentIndex(lc, rc, Premise), TwoParentIndex(lc, rc, Conclusion),
                          TwoParentIndex(lc, rc, Context))
  }

  /** Part 2: with no literal oriented by the user, order each list like the parent's lists
      (the right parent's positions after the left parent's). */
  function Reorder(nodes: SatNodes, literals: Literals, node: SatNode, p: Partition, single: bool, two: bool): (r: Result<Partition>)
    requires PartitionStored(p, literals)
    ensures r.Ok? ==> SameLists(r.value, p)
  {
    if single then ByMainPremise(nodes, literals, node, p)
    else if two then ByTwoPremises(nodes, literals, node, p)
    else Ok(p)
  }

  /** The two propagation flags of the node's inference (`propagateSingleParent`,
      `propagateTwoParents`). */
  function Propagation(nodes: SatNodes, node: SatNode): Result<(bool, bool)>
  {
    match WithDeletion(nodes, node)
    case Err(e) => Err(e)
    case Ok(withDeletion) =>
      Ok((PropagateSingleParent(node.inferenceRule, |node.parents|, withDeletion), PropagateTwoParents(node.inferenceRule)))
  }

  lemma OrientedStored(c: Clause, literals: Literals)
    requires ClauseStored(c, literals)
    ensures InArena(c.Oriented(), literals)
  {
    assert forall k :: 0 <= k < |c.Oriented()| ==>
      (k < |c.premiseLiterals| && c.Oriented()[k] == c.premiseLiterals[k]) ||
      (|c.premiseLiterals| <= k < |c.premiseLiterals| + |c.conclusionLiterals| && c.Oriented()[k] == c.conclusionLiterals[k - |c.premiseLiterals|]) ||
      (|c.premiseLiterals| + |c.conclusionLiterals| <= k && c.Oriented()[k] == c.contextLiterals[k - |c.premiseLiterals| - |c.conclusionLiterals|]);
  }

  /** The list of side `t` of a clause. */
  function ListOf(c: Clause, t: Side): seq<LitId>
  {
    match t
    case Premise => c.premiseLiterals
    case Conclusion => c.conclusionLiterals
    case Context => c.contextLiterals
  }

  /** Part 1 for one clause node: the literals partitioned into three lists, and the arena
      with their reasons and representations updated. */
  function PartOne(nodes: SatNodes, literals: Literals, node: SatNode): (r: Result<(Partition, Literals)>)
    requires node.unit.ClauseUnit? && ClauseStored(node.unit.clause, literals) && LinksStored(literals)
    ensures r.Ok? ==> r.value.1.Keys == literals.Keys && LinksStored(r.value.1)
    ensures r.Ok? ==> multiset(r.value.0.All()) == multiset(node.unit.clause.Oriented())
  {
    var c := node.unit.clause;
    OrientedStored(c, literals);
    match Propagation(nodes, node)
    case Err(e) => Err(e)
    case Ok((single, two)) =>
      var r := OrientAll(nodes, literals, node, c, single, two, c.Oriented(), Partition([], [], []));
      if r.Err? then r
      else
        OrientAllPermutes(nodes, literals, node, c, single, two, c.Oriented(), Partition([], [], []));
        r
  }

  /** Parts 1 to 3 for one clause node: the clause with its new lists and the updated arena.
      The literals of the new event and of the active event are not touched. */
  function UpdateClause(nodes: SatNodes, literals: Literals, node: SatNode): (r: Result<(Clause, Literals)>)
    requires node.unit.ClauseUnit? && ClauseStored(node.unit.clause, literals) && LinksStored(literals)
    ensures r.Ok? ==> r.value.1.Keys == literals.Keys && LinksStored(r.value.1) && ClauseStored(r.value.0, r.value.1)
    ensures r.Ok? ==> r.value.0.literalsNewEvent == node.unit.clause.literalsNewEvent &&
                      r.value.0.literalsActiveEvent == node.unit.clause.literalsActiveEvent
  {
    var c := node.unit.clause;
    OrientedStored(c, literals);
    match PartOne(nodes, literals, node)
    case Err(e) => Err(e)
    case Ok((p, lits)) =>
      PoolStored(p, c.Oriented(), lits);
      var (single, two) := Propagation(nodes, node).value;
      var user := ExistsUser(lits, c.Oriented());
      match Reorder(nodes, lits, node, p, single && !user, two && !user)
      case Err(e) => Err(e)
      case Ok(q) =>
        SameListsStored(q, p, lits);
        Ok((c.(premiseLiterals := q.premise, conclusionLiterals := q.conclusion, contextLiterals := q.context), lits))
  }

  /** Part 3 keeps the clause's literals: the new lists are a permutation of the old ones. */
  lemma UpdateClausePermutes(nodes: SatNodes, literals: Literals, node: SatNode)
    requires node.unit.ClauseUnit? && ClauseStored(node.unit.clause, literals) && LinksStored(literals)
    requires UpdateClause(nodes, literals, node).Ok?
    ensures multiset(UpdateClause(nodes, literals, node).value.0.Oriented()) == multiset(node.unit.clause.Oriented())
  {
    var (p, lits) := PartOne(nodes, literals, node).value;
    var (single, two) := Propagation(nodes, node).value;
    OrientedStored(node.unit.clause, literals);
    PoolStored(p, node.unit.clause.Oriented(), lits);
    var user := ExistsUser(lits, node.unit.clause.Oriented());
    var q := Reorder(nodes, lits, node, p, single && !user, two && !user).value;
    assert multiset(q.All()) == multiset(q.premise) + multiset(q.conclusion) + multiset(q.context);
    assert multiset(p.All()) == multiset(p.premise) + multiset(p.conclusion) + multiset(p.context);
  }

  /** Membership of the lists is what Part 1 decided: Part 2 only reorders. */
  lemma UpdateClauseLists(nodes: SatNodes, literals: Literals, node: SatNode, x: LitId, t: Side)
    requires node.unit.ClauseUnit? && ClauseStored(node.unit.clause, literals) && LinksStored(literals)
    requires UpdateClause(nodes, literals, node).Ok?
    ensures PartOne(nodes, literals, node).Ok?
    ensures x in ListOf(UpdateClause(nodes, literals, node).value.0, t) <==> x in PartOf(PartOne(nodes, literals, node).value.0, t)
  {
    var (p, lits) := PartOne(nodes, literals, node).value;
    var (single, two) := Propagation(nodes, node).value;
    OrientedStored(node.unit.clause, literals);
    PoolStored(p, node.unit.clause.Oriented(), lits);
    var user := ExistsUser(lits, node.unit.clause.Oriented());
    var q := Reorder(nodes, lits, node, p, single && !user, two && !user).value;
    assert x in PartOf(q, t) <==> x in multiset(PartOf(q, t));
    assert x in PartOf(p, t) <==> x in multiset(PartOf(p, t));
  }

  /** A literal the user oriented stays in its list, and a literal that inherits lands in the
      list of its parent literal (as the parent clause or clauses hold it). */
  lemma UpdateClauseFixedSide(nodes: SatNodes, literals: Literals, node: SatNode, single: bool, two: bool,
                              x: LitId, s: Side, t: Side)
    requires node.unit.ClauseUnit? && ClauseStored(node.unit.clause, literals) && LinksStored(literals)
    requires UpdateClause(nodes, literals, node).Ok? && Propagation(nodes, node) == Ok((single, two))
    requires x in node.unit.clause.Oriented() && x in literals
    requires FixedSide(nodes, node, node.unit.clause, single, two, literals[x], x) == Some(s)
    ensures x in ListOf(UpdateClause(nodes, literals, node).value.0, t) <==> t == s
  {
    var c := node.unit.clause;
    OrientedStored(c, literals);
    UpdateClauseLists(nodes, literals, node, x, t);
    OrientAllFixed(nodes, literals, node, c, single, two, c.Oriented(), Partition([], [], []), x, s, t);
  }

  /** Without propagation, a literal that had no reason and occurs once in the clause goes
      to the premise exactly when it is negated and not an equality. */
  lemma UpdateClauseHeuristic(nodes: SatNodes, literals: Literals, node: SatNode, x: LitId, t: Side)
    requires node.unit.ClauseUnit? && ClauseStored(node.unit.clause, literals) && LinksStored(literals)
    requires UpdateClause(nodes, literals, node).Ok? && Propagation(nodes, node) == Ok((false, false))
    requires x in literals && literals[x].orientationReason == NoReason && multiset(node.unit.clause.Oriented())[x] == 1
    ensures x in ListOf(UpdateClause(nodes, literals, node).value.0, t) <==> t == HeuristicSide(literals[x])
  {
    var c := node.unit.clause;
    OrientedStored(c, literals);
    UpdateClauseLists(nodes, literals, node, x, t);
    OrientAllHeuristic(nodes, literals, node, c, c.Oriented(), Partition([], [], []), x, t);
  }

  /** After the update every literal of the clause has a reason, and the user's literals are
      the same as before. */
  lemma UpdateClauseReasons(nodes: SatNodes, literals: Literals, node: SatNode, x: LitId)
    requires node.unit.ClauseUnit? && ClauseStored(node.unit.clause, literals) && LinksStored(literals)
    requires UpdateClause(nodes, literals, node).Ok? && x in literals
    ensures var after := UpdateClause(nodes, literals, node).value.1[x];
            (after.orientationReason == User <==> literals[x].orientationReason == User) &&
            after.literalInParent == literals[x].literalInParent &&
            (x in node.unit.clause.Oriented() ==> after.orientationReason != NoReason)
  {
    var c := node.unit.clause;
    OrientedStored(c, literals);
    var (single, two) := Propagation(nodes, node).value;
    OrientAllReason(nodes, literals, node, c, single, two, c.Oriented(), Partition([], [], []), x);
  }

  /** Part 1 does not change which literals are the user's. */
  lemma PartOneUsers(nodes: SatNodes, literals: Literals, node: SatNode)
    requires node.unit.ClauseUnit? && ClauseStored(node.unit.clause, literals) && LinksStored(literals)
    requires PartOne(nodes, literals, node).Ok?
    ensures InArena(node.unit.clause.Oriented(), literals)
    ensures ExistsUser(PartOne(nodes, literals, node).value.1, node.unit.clause.Oriented()) ==
            ExistsUser(literals, node.unit.clause.Oriented())
  {
    var c := node.unit.clause;
    OrientedStored(c, literals);
    var (single, two) := Propagation(nodes, node).value;
    var lits := PartOne(nodes, literals, node).value.1;
    forall k | 0 <= k < |c.Oriented()|
      ensures lits[c.Oriented()[k]].orientationReason == User <==> literals[c.Oriented()[k]].orientationReason == User
    {
      OrientAllReason(nodes, literals, node, c, single, two, c.Oriented(), Partition([], [], []), c.Oriented()[k]);
    }
  }

  /** Part 2 for a single main premise sorts each list by the positions in the premise's list. */
  lemma ReorderSingle(nodes: SatNodes, literals: Literals, node: SatNode, p: Partition, two: bool, t: Side)
    requires PartitionStored(p, literals) && Reorder(nodes, literals, node, p, true, two).Ok?
    requires |node.parents| > 0 && node.parents[0] in nodes && nodes[node.parents[0]].unit.ClauseUnit?
    ensures var q := Reorder(nodes, literals, node, p, true, two).value;
            |PartOf(q, t)| >= 2 ==> OrderedBy(PartOf(q, t), literals, IndexMap(ListOf(nodes[node.parents[0]].unit.clause, t), 0))
  {
  }

  /** With a single main premise and no literal oriented by the user, each list comes out in
      the order its parent literals have in the same list of the main premise. */
  lemma UpdateClauseOrderedSingle(nodes: SatNodes, literals: Literals, node: SatNode, two: bool, t: Side)
    requires node.unit.ClauseUnit? && ClauseStored(node.unit.clause, literals) && LinksStored(literals)
    requires UpdateClause(nodes, literals, node).Ok? && Propagation(nodes, node) == Ok((true, two))
    requires InArena(node.unit.clause.Oriented(), literals) && !ExistsUser(literals, node.unit.clause.Oriented())
    requires |node.parents| > 0 && node.parents[0] in nodes && nodes[node.parents[0]].unit.ClauseUnit?
    ensures var (c, lits) := UpdateClause(nodes, literals, node).value;
            |ListOf(c, t)| >= 2 ==>
              OrderedBy(ListOf(c, t), lits, IndexMap(ListOf(nodes[node.parents[0]].unit.clause, t), 0))
  {
    var c := node.unit.clause;
    var (p, lits) := PartOne(nodes, literals, node).value;
    PartOneUsers(nodes, literals, node);
    PoolStored(p, c.Oriented(), lits);
    ReorderSingle(nodes, lits, node, p, two, t);
  }

  /** Part 2 for two premises sorts each list by the positions in the premises' lists. */
  lemma ReorderTwo(nodes: SatNodes, literals: Literals, node: SatNode, p: Partition, t: Side)
    requires PartitionStored(p, literals) && Reorder(nodes, literals, node, p, false, true).Ok?
    requires |node.parents| == 2 && node.parents[0] in nodes && node.parents[1] in nodes
    requires nodes[node.parents[0]].unit.ClauseUnit? && nodes[node.parents[1]].unit.ClauseUnit?
    ensures var q := Reorder(nodes, literals, node, p, false, true).value;
            |PartOf(q, t)| >= 2 ==>
              OrderedBy(PartOf(q, t), literals,
                        TwoParentIndex(nodes[node.parents[0]].unit.clause, nodes[node.parents[1]].unit.clause, t))
  {
    var lc, rc := nodes[node.parents[0]].unit.clause, nodes[node.parents[1]].unit.clause;
    assert Reorder(nodes, literals, node, p, false, true) ==
           SortPartition(p, literals, TwoParentIndex(lc, rc, Premise), TwoParentIndex(lc, rc, Conclusion),
                         TwoParentIndex(lc, rc, Context));
    SortPartitionOrdered(p, literals, TwoParentIndex(lc, rc, Premise), TwoParentIndex(lc, rc, Conclusion),
                         TwoParentIndex(lc, rc, Context), t);
  }

  /** Each list that `SortPartition` sorts comes out ordered by its own index map. */
  lemma SortPartitionOrdered(p: Partition, literals: Literals, premiseIndex: map<LitId, int>,
                             conclusionIndex: map<LitId, int>, contextIndex: map<LitId, int>, t: Side)
    requires PartitionStored(p, literals)
    requires SortPartition(p, literals, premiseIndex, conclusionIndex, contextIndex).Ok?
    ensures var q := SortPartition(p, literals, premiseIndex, conclusionIndex, contextIndex).value;
            |PartOf(q, t)| >= 2 ==>
              OrderedBy(PartOf(q, t), literals, match t case Premise => premiseIndex
                                                        case Conclusion => conclusionIndex
                                                        case Context => contextIndex)
  {
  }

  /** With two premises, no single main premise and no literal oriented by the user, each list
      comes out in the order its parent literals have in the premises' lists, the left premise
      first. */
  lemma UpdateClauseOrderedTwo(nodes: SatNodes, literals: Literals, node: SatNode, t: Side)
    requires node.unit.ClauseUnit? && ClauseStored(node.unit.clause, literals) && LinksStored(literals)
    requires UpdateClause(nodes, literals, node).Ok? && Propagation(nodes, node) == Ok((false, true))
    requires InArena(node.unit.clause.Oriented(), literals) && !ExistsUser(literals, node.unit.clause.Oriented())
    requires |node.parents| == 2 && node.parents[0] in nodes && node.parents[1] in nodes
    requires nodes[node.parents[0]].unit.ClauseUnit? && nodes[node.parents[1]].unit.ClauseUnit?
    ensures var (c, lits) := UpdateClause(nodes, literals, node).value;
            |ListOf(c, t)| >= 2 ==>
              OrderedBy(ListOf(c, t), lits,
                        TwoParentIndex(nodes[node.parents[0]].unit.clause, nodes[node.parents[1]].unit.clause, t))
  {
    var c := node.unit.clause;
    var (p, lits) := PartOne(nodes, literals, node).value;
    PartOneUsers(nodes, literals, node);
    PoolStored(p, c.Oriented(), lits);
    ReorderTwo(nodes, lits, node, p, t);
  }

  // The walk over the dag.

  /** `UpdateClause` for the node stored under `id`. */
  function UpdateAt(nodes: SatNodes, literals: Literals, id: int): (r: Result<(Clause, Literals)>)
    requires Stored(nodes, literals) && id in nodes && nodes[id].unit.ClauseUnit?
    ensures r.Ok? ==> r.value.1.Keys == literals.Keys && LinksStored(r.value.1) && ClauseStored(r.value.0, r.value.1)
  {
    StoredNode(nodes, literals, id);
    UpdateClause(nodes, literals, nodes[id])
  }

  /** The nodes the walk updates: clauses that are not on the boundary. */
  predicate Updatable(node: SatNode)
  {
    !node.isBoundary && node.unit.ClauseUnit?
  }

  /** Whether a node is to be updated: everything is when no clause changed, otherwise the
      changed clause and every node with a parent already marked as changed. */
  predicate Selected(node: SatNode, changedId: Option<int>, changed: set<int>)
  {
    changedId.None? || node.id == changedId.value || exists k :: 0 <= k < |node.parents| && node.parents[k] in changed
  }

  /** Every id of `order` is a node of the dag. */
  predicate InNodes(order: seq<int>, nodes: SatNodes)
  {
    forall k :: 0 <= k < |order| ==> order[k] in nodes
  }

  /** Replacing a clause node's clause keeps the references stored. */
  lemma StoredAfterUpdate(nodes: SatNodes, literals: Literals, literals': Literals, id: int, c: Clause)
    requires Stored(nodes, literals) && id in nodes
    requires literals'.Keys == literals.Keys && LinksStored(literals') && ClauseStored(c, literals')
    ensures Stored(nodes[id := nodes[id].(unit := ClauseUnit(c))], literals')
  {
    forall x | x in nodes && x != id && nodes[x].unit.ClauseUnit?
      ensures ClauseStored(nodes[x].unit.clause, literals')
    {
      StoredNode(nodes, literals, x);
    }
  }

  /** The walk's visit of node `id`: the node is updated and marked when it is an updatable
      node selected by `changed`, and left alone otherwise. */
  function Visit(nodes: SatNodes, literals: Literals, changedId: Option<int>, id: int, changed: set<int>):
    (r: Result<(SatNodes, Literals, set<int>)>)
    requires Stored(nodes, literals) && id in nodes
    ensures r.Ok? ==> r.value.0.Keys == nodes.Keys && Stored(r.value.0, r.value.1)
  {
    var node := nodes[id];
    if !Updatable(node) || !Selected(node, changedId, changed) then Ok((nodes, literals, changed))
    else
      match UpdateAt(nodes, literals, id)
      case Err(e) => Err(e)
      case Ok((c, literals')) =>
        StoredAfterUpdate(nodes, literals, literals', id, c);
        Ok((nodes[id := node.(unit := ClauseUnit(c))], literals', changed + {node.id}))
  }

  /** The walk over `order` from the set `changed` of ids already marked: the new nodes, the
      new arena and the final set of marked ids. */
  function Run(nodes: SatNodes, literals: Literals, changedId: Option<int>, order: seq<int>, changed: set<int>):
    (r: Result<(SatNodes, Literals, set<int>)>)
    requires Stored(nodes, literals) && InNodes(order, nodes)
    ensures r.Ok? ==> r.value.0.Keys == nodes.Keys && Stored(r.value.0, r.value.1)
    decreases |order|
  {
    if order == [] then Ok((nodes, literals, changed))
    else
      match Visit(nodes, literals, changedId, order[0], changed)
      case Err(e) => Err(e)
      case Ok((nodes', literals', changed')) => Run(nodes', literals', changedId, order[1..], changed')
  }

  /** `computeClauseRepresentation(dag, changedClauseId)` with the post-order `order` of the
      traversal: the updated nodes and arena, and the set of changed clause ids. A changed id
      that is not in the dag fails the opening assertion. */
  function ClauseRepresentation(nodes: SatNodes, literals: Literals, changedId: Option<int>, order: seq<int>):
    (r: Result<(SatNodes, Literals, set<int>)>)
    requires Stored(nodes, literals) && InNodes(order, nodes)
    ensures r.Ok? ==> r.value.0.Keys == nodes.Keys && Stored(r.value.0, r.value.1)
    ensures changedId.Some? && changedId.value !in nodes ==> r == Err(AssertionFailed)
  {
    if changedId.Some? && changedId.value !in nodes then Err(AssertionFailed)
    else Run(nodes, literals, changedId, order, if changedId.Some? then {changedId.value} else {})
  }

  /** Each node keeps its id, its parents, its boundary flag and whether it is a clause. */
  predicate SameShape(a: SatNodes, b: SatNodes)
  {
    a.Keys == b.Keys &&
    forall id :: id in a ==>
      b[id].id == a[id].id && b[id].parents == a[id].parents && b[id].isBoundary == a[id].isBoundary &&
      b[id].unit.ClauseUnit? == a[id].unit.ClauseUnit?
  }

  /** Every node is stored under its own id. */
  predicate Keyed(nodes: SatNodes)
  {
    forall id :: id in nodes ==> nodes[id].id == id
  }

  /** The walk visits every parent before its children. */
  predicate ParentsFirst(nodes: SatNodes, order: seq<int>)
    requires InNodes(order, nodes)
  {
    forall i, j :: 0 <= i < |order| && 0 <= j < |order| && order[j] in nodes[order[i]].parents ==> j < i
  }

  /** One step of the walk on a node it updates keeps the shape of the dag. */
  lemma StepShape(nodes: SatNodes, id: int, c: Clause)
    requires id in nodes && Keyed(nodes) && nodes[id].unit.ClauseUnit?
    ensures var nodes1 := nodes[id := nodes[id].(unit := ClauseUnit(c))];
            Keyed(nodes1) && SameShape(nodes, nodes1) && SameShape(nodes1, nodes)
  {
  }

  lemma SameShapeTrans(a: SatNodes, b: SatNodes, c: SatNodes)
    requires SameShape(a, b) && SameShape(b, c)
    ensures SameShape(a, c)
  {
  }

  /** The walk changes only the units of clause nodes, and only of nodes it marks. */
  lemma {:induction false} RunUnchanged(nodes: SatNodes, literals: Literals, changedId: Option<int>, order: seq<int>, changed: set<int>, x: int)
    requires Stored(nodes, literals) && InNodes(order, nodes) && Keyed(nodes)
    requires Run(nodes, literals, changedId, order, changed).Ok? && x in nodes
    ensures var r := Run(nodes, literals, changedId, order, changed).value;
            SameShape(nodes, r.0) && changed <= r.2 && (x !in r.2 ==> r.0[x] == nodes[x])
    decreases |order|
  {
    if order != [] {
      RunStep(nodes, literals, changedId, order, 0, changed);
      assert order[0..] == order;
      VisitUnchanged(nodes, literals, changedId, order[0], changed, x);
      var v := Visit(nodes, literals, changedId, order[0], changed).value;
      RunUnchanged(v.0, v.1, changedId, order[1..], v.2, x);
      SameShapeTrans(nodes, v.0, Run(v.0, v.1, changedId, order[1..], v.2).value.0);
    }
  }

  /** A visit changes only the unit of the node it marks. */
  lemma VisitUnchanged(nodes: SatNodes, literals: Literals, changedId: Option<int>, id: int, changed: set<int>, x: int)
    requires Stored(nodes, literals) && id in nodes && Keyed(nodes)
    requires Visit(nodes, literals, changedId, id, changed).Ok?
    ensures var v := Visit(nodes, literals, changedId, id, changed).value;
            Keyed(v.0) && SameShape(nodes, v.0) && changed <= v.2 && (x !in v.2 ==> x in nodes ==> v.0[x] == nodes[x])
  {
    var node := nodes[id];
    if Updatable(node) && Selected(node, changedId, changed) {
      var c := UpdateAt(nodes, literals, id).value.0;
      StepShape(nodes, id, c);
    }
  }

  /** The ids the walk marks: those marked beforehand, and the updatable nodes of `order`
      that are selected by the final set itself (the changed clause, or a node with a
      marked parent). With parents visited first, the set the walk builds node by node is
      this fixpoint. */
  lemma {:induction false} RunMarked(shape: SatNodes, nodes: SatNodes, literals: Literals, changedId: Option<int>,
                                     order: seq<int>, changed: set<int>, x: int)
    requires Stored(nodes, literals) && InNodes(order, nodes) && Keyed(nodes) && SameShape(shape, nodes)
    requires Dags.Distinct(order) && ParentsFirst(shape, order)
    requires Run(nodes, literals, changedId, order, changed).Ok?
    ensures var marked := Run(nodes, literals, changedId, order, changed).value.2;
            x in marked <==> x in changed || (x in order && Updatable(shape[x]) && Selected(shape[x], changedId, marked))
    decreases |order|, 1
  {
    if order != [] {
      var node := nodes[order[0]];
      if !Updatable(node) || !Selected(node, changedId, changed) {
        RunMarkedSkip(shape, nodes, literals, changedId, order, changed, x);
      } else {
        RunMarkedUpdate(shape, nodes, literals, changedId, order, changed, x);
      }
    }
  }

  /** `RunMarked` when the walk leaves its first node alone. */
  lemma {:induction false} RunMarkedSkip(shape: SatNodes, nodes: SatNodes, literals: Literals, changedId: Option<int>,
                                         order: seq<int>, changed: set<int>, x: int)
    requires Stored(nodes, literals) && InNodes(order, nodes) && Keyed(nodes) && SameShape(shape, nodes)
    requires Dags.Distinct(order) && ParentsFirst(shape, order)
    requires Run(nodes, literals, changedId, order, changed).Ok?
    requires order != [] && (!Updatable(nodes[order[0]]) || !Selected(nodes[order[0]], changedId, changed))
    ensures var marked := Run(nodes, literals, changedId, order, changed).value.2;
            x in marked <==> x in changed || (x in order && Updatable(shape[x]) && Selected(shape[x], changedId, marked))
    decreases |order|, 0
  {
    var o := order[0];
    var node := nodes[o];
    var rest := order[1..];
    TailOrder(shape, order);
    var marked := Run(nodes, literals, changedId, rest, changed).value.2;
    RunMarked(shape, nodes, literals, changedId, rest, changed, x);
    if x == o && Updatable(shape[o]) && Selected(shape[o], changedId, marked) && o !in changed {
      var k :| 0 <= k < |node.parents| && node.parents[k] in marked;
      var p := node.parents[k];
      RunMarked(shape, nodes, literals, changedId, rest, changed, p);
      assert false;
    }
  }

  /** Selection only grows with the marked set, and depends on a node's id and parents alone. */
  lemma SelectedGrows(a: SatNode, b: SatNode, changedId: Option<int>, changed: set<int>, marked: set<int>)
    requires Selected(a, changedId, changed) && changed <= marked
    requires b.id == a.id && b.parents == a.parents
    ensures Selected(b, changedId, marked)
  {
    if changedId.Some? && a.id != changedId.value {
      var k :| 0 <= k < |a.parents| && a.parents[k] in changed;
      assert b.parents[k] in marked;
    }
  }

  /** `RunMarked` when the walk updates and marks its first node. */
  lemma {:induction false} RunMarkedUpdate(shape: SatNodes, nodes: SatNodes, literals: Literals, changedId: Option<int>,
                                           order: seq<int>, changed: set<int>, x: int)
    requires Stored(nodes, literals) && InNodes(order, nodes) && Keyed(nodes) && SameShape(shape, nodes)
    requires Dags.Distinct(order) && ParentsFirst(shape, order)
    requires Run(nodes, literals, changedId, order, changed).Ok?
    requires order != [] && Updatable(nodes[order[0]]) && Selected(nodes[order[0]], changedId, changed)
    ensures var marked := Run(nodes, literals, changedId, order, changed).value.2;
            x in marked <==> x in changed || (x in order && Updatable(shape[x]) && Selected(shape[x], changedId, marked))
    decreases |order|, 0
  {
    var o := order[0];
    var rest := order[1..];
    var nodes1, literals1 := UpdateStep(shape, nodes, literals, changedId, order, changed);
    RunMarked(shape, nodes1, literals1, changedId, rest, changed + {o}, x);
    RunUnchanged(nodes1, literals1, changedId, rest, changed + {o}, o);
    var marked := Run(nodes1, literals1, changedId, rest, changed + {o}).value.2;
    if x == o {
      SelectedGrows(nodes[o], shape[o], changedId, changed, marked);
    } else {
      assert x in order <==> x in rest;
    }
  }

  /** The rest of a walk order still lists distinct ids with parents first, without its head. */
  lemma TailOrder(shape: SatNodes, order: seq<int>)
    requires order != [] && InNodes(order, shape) && Dags.Distinct(order) && ParentsFirst(shape, order)
    ensures InNodes(order[1..], shape) && Dags.Distinct(order[1..]) && ParentsFirst(shape, order[1..]) && order[0] !in order[1..]
  {
    var rest := order[1..];
    assert forall k :: 0 <= k < |rest| ==> rest[k] == order[k + 1];
  }

  /** The walk's first step on a node it updates: the rest of the walk starts from the updated
      dag and arena, with that node marked, and the dag keeps its shape. */
  lemma UpdateStep(shape: SatNodes, nodes: SatNodes, literals: Literals, changedId: Option<int>,
                   order: seq<int>, changed: set<int>)
    returns (nodes1: SatNodes, literals1: Literals)
    requires Stored(nodes, literals) && InNodes(order, nodes) && Keyed(nodes) && SameShape(shape, nodes)
    requires Dags.Distinct(order) && ParentsFirst(shape, order)
    requires Run(nodes, literals, changedId, order, changed).Ok?
    requires order != [] && Updatable(nodes[order[0]]) && Selected(nodes[order[0]], changedId, changed)
    ensures Stored(nodes1, literals1) && InNodes(order[1..], nodes1) && Keyed(nodes1) && SameShape(shape, nodes1)
    ensures Dags.Distinct(order[1..]) && ParentsFirst(shape, order[1..]) && order[0] !in order[1..]
    ensures order[0] in nodes1
    ensures Run(nodes, literals, changedId, order, changed) == Run(nodes1, literals1, changedId, order[1..], changed + {order[0]})
  {
    var o := order[0];
    var node := nodes[o];
    TailOrder(shape, order);
    var (c, literals') := UpdateAt(nodes, literals, o).value;
    StepShape(nodes, o, c);
    nodes1, literals1 := nodes[o := node.(unit := ClauseUnit(c))], literals';
    assert Visit(nodes, literals, changedId, o, changed) == Ok((nodes1, literals1, changed + {o}));
    SameShapeTrans(shape, nodes, nodes1);
  }

  /** What `computeClauseRepresentation` returns, over a traversal that lists every node once
      with parents first: the changed clause together with every updatable node selected by
      the returned set (so, with no changed clause, exactly the updatable nodes), and nodes
      outside the set are left as they were. */
  lemma ClauseRepresentationMarks(nodes: SatNodes, literals: Literals, changedId: Option<int>, order: seq<int>, x: int)
    requires Stored(nodes, literals) && Keyed(nodes) && Dags.Enumerates(order, nodes.Keys)
    requires ParentsFirst(nodes, order) && x in nodes
    requires ClauseRepresentation(nodes, literals, changedId, order).Ok?
    ensures var (nodes', _, marked) := ClauseRepresentation(nodes, literals, changedId, order).value;
            (x in marked <==> changedId == Some(x) || (Updatable(nodes[x]) && Selected(nodes[x], changedId, marked))) &&
            (changedId.None? ==> (x in marked <==> Updatable(nodes[x]))) &&
            (x !in marked ==> nodes'[x] == nodes[x])
  {
    var initial := if changedId.Some? then {changedId.value} else {};
    RunMarked(nodes, nodes, literals, changedId, order, initial, x);
    RunUnchanged(nodes, literals, changedId, order, initial, x);
  }

  // The update as the frontend performs it, in place on the dag.

  /** The loops building an index map: `s[i] -> offset + i` set into `m` for each i in turn. */
  method IndexMapInto(m: map<LitId, int>, s: seq<LitId>, offset: int) returns (r: map<LitId, int>)
    ensures r == m + IndexMap(s, offset)
  {
    r := m;
    var i := 0;
    while i < |s|
      invariant 0 <= i <= |s|
      invariant r == m + IndexMap(s[..i], offset)
    {
      IndexMapStep(m, s, i, offset);
      r := r[s[i] := offset + i];
      i := i + 1;
    }
    assert s[..|s|] == s;
  }

  /** Setting the next entry extends the index map of the prefix by one element. */
  lemma IndexMapStep(m: map<LitId, int>, s: seq<LitId>, i: int, offset: int)
    requires 0 <= i < |s|
    ensures m + IndexMap(s[..i + 1], offset) == (m + IndexMap(s[..i], offset))[s[i] := offset + i]
  {
    assert s[..i + 1][..i] == s[..i];
    var x := IndexMap(s[..i], offset);
    assert IndexMap(s[..i + 1], offset) == x[s[i] := offset + i];
    var a := m + x[s[i] := offset + i];
    var b := (m + x)[s[i] := offset + i];
    assert a.Keys == b.Keys;
    assert forall k :: k in a ==> a[k] == b[k];
  }

  /** Part 1's loop over the literals `xs` of clause `c`, updating the literals in place. */
  method OrientLiterals(dag: SatDag, node: SatNode, c: Clause, single: bool, two: bool, xs: seq<LitId>)
    returns (r: Result<Partition>)
    requires InArena(xs, dag.literals) && LinksStored(dag.literals)
    modifies dag
    ensures var spec := OrientAll(old(dag.nodes), old(dag.literals), node, c, single, two, xs, Partition([], [], []));
            (r.Ok? <==> spec.Ok?) && (r.Ok? ==> r.value == spec.value.0 && dag.literals == spec.value.1) &&
            (r.Err? ==> r.error == spec.error)
    ensures dag.nodes == old(dag.nodes)
  {
    var p := Partition([], [], []);
    var k := 0;
    while k < |xs|
      invariant 0 <= k <= |xs|
      invariant dag.nodes == old(dag.nodes)
      invariant dag.literals.Keys == old(dag.literals).Keys && LinksStored(dag.literals)
      invariant OrientAll(dag.nodes, old(dag.literals), node, c, single, two, xs, Partition([], [], [])) ==
                OrientAll(dag.nodes, dag.literals, node, c, single, two, xs[k..], p)
    {
      OrientAllUnfold(dag.nodes, dag.literals, node, c, single, two, xs[k..], p);
      assert xs[k..][0] == xs[k] && xs[k..][1..] == xs[k + 1..];
      var step := OrientLiteral(dag.nodes, dag.literals, node, c, single, two, xs[k]);
      if step.Err? {
        return Err(step.error);
      }
      dag.literals := step.value.1;
      p := Push(p, step.value.0, xs[k]);
      k := k + 1;
    }
    return Ok(p);
  }

  /** The loop looking for a literal oriented by the user. */
  method FindUserLiteral(literals: Literals, xs: seq<LitId>) returns (found: bool)
    requires InArena(xs, literals)
    ensures found == ExistsUser(literals, xs)
  {
    found := false;
    var j := 0;
    while j < |xs|
      invariant 0 <= j <= |xs|
      invariant forall i :: 0 <= i < j ==> literals[xs[i]].orientationReason != User
    {
      if literals[xs[j]].orientationReason == User {
        return true;
      }
      j := j + 1;
    }
  }

  /** Part 2's index maps of the main premise, and the sort. */
  method SortByMainPremise(nodes: SatNodes, literals: Literals, node: SatNode, p: Partition) returns (r: Result<Partition>)
    requires PartitionStored(p, literals)
    ensures r == ByMainPremise(nodes, literals, node, p)
  {
    if |node.parents| == 0 {
      return Err(KeyMissing);
    }
    var parent := Get(nodes, node.parents[0]);
    if parent.Err? {
      return Err(parent.error);
    }
    if !parent.value.unit.ClauseUnit? {
      return Ok(p);
    }
    var pc := parent.value.unit.clause;
    var premiseIndex := IndexMapInto(map[], pc.premiseLiterals, 0);
    var conclusionIndex := IndexMapInto(map[], pc.conclusionLiterals, 0);
    var contextIndex := IndexMapInto(map[], pc.contextLiterals, 0);
    assert premiseIndex == IndexMap(pc.premiseLiterals, 0);
    assert conclusionIndex == IndexMap(pc.conclusionLiterals, 0);
    assert contextIndex == IndexMap(pc.contextLiterals, 0);
    return SortPartition(p, literals, premiseIndex, conclusionIndex, contextIndex);
  }

  /** Part 2's index maps of the two premises, the right one's after the left one's. */
  method TwoPremiseIndex(lc: Clause, rc: Clause, t: Side) returns (index: map<LitId, int>)
    ensures index == TwoParentIndex(lc, rc, t)
  {
    index := IndexMapInto(map[], ListOf(lc, t), 0);
    assert index == IndexMap(ListOf(lc, t), 0);
    index := IndexMapInto(index, ListOf(rc, t), |ListOf(lc, t)|);
  }

  /** Part 2's index maps of the two premises, and the sort. */
  method SortByTwoPremises(nodes: SatNodes, literals: Literals, node: SatNode, p: Partition) returns (r: Result<Partition>)
    requires PartitionStored(p, literals)
    ensures r == ByTwoPremises(nodes, literals, node, p)
  {
    if |node.parents| != 2 {
      return Err(AssertionFailed);
    }
    var left := Get(nodes, node.parents[0]);
    if left.Err? {
      return Err(left.error);
    }
    var right := Get(nodes, node.parents[1]);
    if right.Err? {
      return Err(right.error);
    }
    if !left.value.unit.ClauseUnit? || !right.value.unit.ClauseUnit? {
      return Ok(p);
    }
    var lc, rc := left.value.unit.clause, right.value.unit.clause;
    var premiseIndex := TwoPremiseIndex(lc, rc, Premise);
    var conclusionIndex := TwoPremiseIndex(lc, rc, Conclusion);
    var contextIndex := TwoPremiseIndex(lc, rc, Context);
    return SortPartition(p, literals, premiseIndex, conclusionIndex, contextIndex);
  }

  /** Parts 1 to 3 for node `id`, updating its literals and its clause in place. */
  method UpdateNode(dag: SatDag, id: int) returns (r: Result<()>)
    requires id in dag.nodes && dag.nodes[id].unit.ClauseUnit? && Stored(dag.nodes, dag.literals)
    modifies dag
    ensures var node := old(dag.nodes[id]);
            var spec := UpdateAt(old(dag.nodes), old(dag.literals), id);
            (r.Ok? <==> spec.Ok?) &&
            (r.Ok? ==> dag.nodes == old(dag.nodes)[id := node.(unit := ClauseUnit(spec.value.0))] &&
                       dag.literals == spec.value.1) &&
            (r.Err? ==> r.error == spec.error)
  {
    var node := dag.nodes[id];
    var c := node.unit.clause;
    StoredNode(dag.nodes, dag.literals, id);
    OrientedStored(c, dag.literals);
    var oriented := OrientNode(dag, node);
    if oriented.Err? {
      return Err(oriented.error);
    }
    var p := oriented.value;
    var (single, two) := Propagation(dag.nodes, node).value;
    PoolStored(p, c.Oriented(), dag.literals);
    var user := FindUserLiteral(dag.literals, c.Oriented());
    var reordered := ReorderPartition(dag.nodes, dag.literals, node, p, single && !user, two && !user);
    if reordered.Err? {
      return Err(reordered.error);
    }
    var q := reordered.value;
    var updated := c.(premiseLiterals := q.premise, conclusionLiterals := q.conclusion, contextLiterals := q.context);
    assert UpdateClause(old(dag.nodes), old(dag.literals), node) == Ok((updated, dag.literals));
    dag.nodes := dag.nodes[id := node.(unit := ClauseUnit(updated))];
    return Ok(());
  }

  /** Part 1 for a clause node, updating the literals in place. */
  method OrientNode(dag: SatDag, node: SatNode) returns (r: Result<Partition>)
    requires node.unit.ClauseUnit? && ClauseStored(node.unit.clause, dag.literals) && LinksStored(dag.literals)
    modifies dag
    ensures dag.nodes == old(dag.nodes)
    ensures var spec := PartOne(dag.nodes, old(dag.literals), node);
            (r.Ok? <==> spec.Ok?) && (r.Ok? ==> r.value == spec.value.0 && dag.literals == spec.value.1) &&
            (r.Err? ==> r.error == spec.error)
  {
    var c := node.unit.clause;
    OrientedStored(c, dag.literals);
    var propagation := Propagation(dag.nodes, node);
    if propagation.Err? {
      return Err(propagation.error);
    }
    var (single, two) := propagation.value;
    r := OrientLiterals(dag, node, c, single, two, c.Oriented());
  }

  /** Part 2 or 3's sort, when the propagation flag calls for it. */
  method ReorderPartition(nodes: SatNodes, literals: Literals, node: SatNode, p: Partition, single: bool, two: bool)
    returns (r: Result<Partition>)
    requires PartitionStored(p, literals)
    ensures r == Reorder(nodes, literals, node, p, single, two)
  {
    if single {
      r := SortByMainPremise(nodes, literals, node, p);
    } else if two {
      r := SortByTwoPremises(nodes, literals, node, p);
    } else {
      r := Ok(p);
    }
  }

  /** The loop over the parents looking for one already marked. */
  method HasChangedParent(node: SatNode, changed: set<int>) returns (found: bool)
    ensures found <==> exists k :: 0 <= k < |node.parents| && node.parents[k] in changed
  {
    found := false;
    var k := 0;
    while k < |node.parents|
      invariant 0 <= k <= |node.parents|
      invariant forall j :: 0 <= j < k ==> node.parents[j] !in changed
    {
      if node.parents[k] in changed {
        return true;
      }
      k := k + 1;
    }
  }

  /** The loop body of the walk, for node `id`. */
  method VisitNode(dag: SatDag, changedId: Option<int>, id: int, changed: set<int>) returns (r: Result<set<int>>)
    requires Stored(dag.nodes, dag.literals) && id in dag.nodes
    modifies dag
    ensures var spec := Visit(old(dag.nodes), old(dag.literals), changedId, id, changed);
            (r.Ok? <==> spec.Ok?) &&
            (r.Ok? ==> dag.nodes == spec.value.0 && dag.literals == spec.value.1 && r.value == spec.value.2) &&
            (r.Err? ==> r.error == spec.error)
  {
    var node := dag.nodes[id];
    var update := false;
    if !node.isBoundary && node.unit.ClauseUnit? {
      update := changedId.None? || node.id == changedId.value;
      if !update {
        update := HasChangedParent(node, changed);
      }
    }
    if !update {
      VisitSkips(dag.nodes, dag.literals, changedId, id, changed);
      return Ok(changed);
    }
    VisitUpdates(dag.nodes, dag.literals, changedId, id, changed);
    var updated := UpdateNode(dag, id);
    if updated.Err? {
      return Err(updated.error);
    }
    return Ok(changed + {node.id});
  }

  /** A node the walk does not select is left alone. */
  lemma VisitSkips(nodes: SatNodes, literals: Literals, changedId: Option<int>, id: int, changed: set<int>)
    requires Stored(nodes, literals) && id in nodes
    requires !(Updatable(nodes[id]) && Selected(nodes[id], changedId, changed))
    ensures Visit(nodes, literals, changedId, id, changed) == Ok((nodes, literals, changed))
  {
  }

  /** A node the walk selects is updated, or its failure is the walk's. */
  lemma VisitUpdates(nodes: SatNodes, literals: Literals, changedId: Option<int>, id: int, changed: set<int>)
    requires Stored(nodes, literals) && id in nodes
    requires Updatable(nodes[id]) && Selected(nodes[id], changedId, changed)
    ensures var u := UpdateAt(nodes, literals, id);
            var v := Visit(nodes, literals, changedId, id, changed);
            (u.Err? ==> v == Err(u.error)) &&
            (u.Ok? ==> v == Ok((nodes[id := nodes[id].(unit := ClauseUnit(u.value.0))], u.value.1, changed + {nodes[id].id})))
  {
  }

  /** The walk from position `i` is a visit of `order[i]` followed by the walk from `i + 1`. */
  lemma RunStep(nodes: SatNodes, literals: Literals, changedId: Option<int>, order: seq<int>, i: int, changed: set<int>)
    requires Stored(nodes, literals) && InNodes(order, nodes) && 0 <= i < |order|
    ensures InNodes(order[i..], nodes) && order[i] in nodes
    ensures var v := Visit(nodes, literals, changedId, order[i], changed);
            (v.Err? ==> Run(nodes, literals, changedId, order[i..], changed) == Err(v.error)) &&
            (v.Ok? ==> InNodes(order[i + 1..], v.value.0) &&
                       Run(nodes, literals, changedId, order[i..], changed) == Run(v.value.0, v.value.1, changedId, order[i + 1..], v.value.2))
  {
    assert order[i..][1..] == order[i + 1..];
  }

  /** `computeClauseRepresentation(dag, changedClauseId)`, walking the nodes in `order` (the
      traversal's post-order) and returning the set of changed clause ids. */
  method ComputeClauseRepresentation(dag: SatDag, changedId: Option<int>, order: seq<int>) returns (r: Result<set<int>>)
    requires Stored(dag.nodes, dag.literals) && InNodes(order, dag.nodes)
    modifies dag
    ensures var spec := ClauseRepresentation(old(dag.nodes), old(dag.literals), changedId, order);
            (r.Ok? <==> spec.Ok?) &&
            (r.Ok? ==> dag.nodes == spec.value.0 && dag.literals == spec.value.1 && r.value == spec.value.2) &&
            (r.Err? ==> r.error == spec.error)
  {
    if changedId.Some? && changedId.value !in dag.nodes {
      return Err(AssertionFailed);
    }
    var changed: set<int> := {};
    if changedId.Some? {
      changed := {changedId.value};
    }
    r := VisitAll(dag, changedId, order, changed);
  }

  /** The loop of `computeClauseRepresentation`: visits the nodes in `order`, starting from
      the changed ids `initial`. */
  method VisitAll(dag: SatDag, changedId: Option<int>, order: seq<int>, initial: set<int>) returns (r: Result<set<int>>)
    requires Stored(dag.nodes, dag.literals) && InNodes(order, dag.nodes)
    modifies dag
    ensures var spec := Run(old(dag.nodes), old(dag.literals), changedId, order, initial);
            (r.Ok? <==> spec.Ok?) &&
            (r.Ok? ==> dag.nodes == spec.value.0 && dag.literals == spec.value.1 && r.value == spec.value.2) &&
            (r.Err? ==> r.error == spec.error)
  {
    var changed := initial;
    var i := 0;
    while i < |order|
      invariant 0 <= i <= |order|
      invariant Stored(dag.nodes, dag.literals) && dag.nodes.Keys == old(dag.nodes).Keys
      invariant Run(old(dag.nodes), old(dag.literals), changedId, order, initial) ==
                Run(dag.nodes, dag.literals, changedId, order[i..], changed)
    {
      RunStep(dag.nodes, dag.literals, changedId, order, i, changed);
      var visited := VisitNode(dag, changedId, order[i], changed);
      if visited.Err? {
        return Err(visited.error);
      }
      changed := visited.value;
      i := i + 1;
    }
    return Ok(changed);
  }
}
