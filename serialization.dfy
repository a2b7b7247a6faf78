/** Saving a dag of the newer frontend as JSON and reading it back (src/model/serialization.ts).
    The JSON text itself is not modelled: a serialised object is a datatype whose fields are
    `None` when the key is absent, so that the reconstruction's presence assertions can fail. */
module Serialization {
  import opened Wrappers
  import opened Substitutions
  import opened SatModel
  import Dags
  import ParentLiterals

  // Encoding the oriented literal lists as positions in `literalsNewEvent`.

  /** The first position of `x` in `s`. */
  function FirstIndex(x: LitId, s: seq<LitId>): (r: Option<nat>)
    ensures r.Some? <==> x in s
    ensures r.Some? ==> r.value < |s| && s[r.value] == x && forall j :: 0 <= j < r.value ==> s[j] != x
    decreases |s|
  {
    if s == [] then None
    else if s[0] == x then Some(0)
    else
      match FirstIndex(x, s[1..])
      case None => None
      case Some(i) => Some(i + 1)
  }

  /** The literals of `ids` that occur in `newEvent`, in order. */
  function Present(ids: seq<LitId>, newEvent: seq<LitId>): (r: seq<LitId>)
    ensures forall k :: 0 <= k < |r| ==> r[k] in newEvent
    ensures (forall k :: 0 <= k < |ids| ==> ids[k] in newEvent) ==> r == ids
    decreases |ids|
  {
    if ids == [] then []
    else if ids[0] in newEvent then [ids[0]] + Present(ids[1..], newEvent)
    else Present(ids[1..], newEvent)
  }

  /** `convertToIndices`: each literal of `ids` becomes the first position at which the very
      same literal object occurs in `newEvent`; a literal that does not occur is dropped. */
  function Encode(ids: seq<LitId>, newEvent: seq<LitId>): (r: seq<nat>)
    ensures |r| == |Present(ids, newEvent)|
    decreases |ids|
  {
    if ids == [] then []
    else
      match FirstIndex(ids[0], newEvent)
      case None => Encode(ids[1..], newEvent)
      case Some(i) => [i] + Encode(ids[1..], newEvent)
  }

  /** The reconstruction's `indices.map(n => objects[n])`; a position outside the list (which
      gives `undefined` in the frontend) is a failure here. */
  function Decode(indices: seq<int>, objects: seq<LitId>): (r: Result<seq<LitId>>)
    ensures r.Ok? <==> forall k :: 0 <= k < |indices| ==> 0 <= indices[k] < |objects|
    ensures r.Ok? ==> |r.value| == |indices| && forall k :: 0 <= k < |indices| ==> r.value[k] == objects[indices[k]]
    decreases |indices|
  {
    if indices == [] then Ok([])
    else if !(0 <= indices[0] < |objects|) then Err(IndexOutOfRange)
    else
      match Decode(indices[1..], objects)
      case Err(e) => Err(e)
      case Ok(rest) =>
        assert forall k :: 1 <= k < |indices| ==> indices[k] == indices[1..][k - 1];
        Ok([objects[indices[0]]] + rest)
  }

  /** Each position the encoding writes is in range and is the first occurrence of a literal
      of `ids`; decoding the encoding gives back exactly the literals that occur, so a list
      whose literals all occur in `newEvent` survives the round trip. */
  lemma {:induction false} EncodeDecode(ids: seq<LitId>, newEvent: seq<LitId>)
    ensures forall k :: 0 <= k < |Encode(ids, newEvent)| ==> Encode(ids, newEvent)[k] < |newEvent|
    ensures Decode(Encode(ids, newEvent), newEvent) == Ok(Present(ids, newEvent))
    decreases |ids|
  {
    if ids != [] {
      EncodeDecode(ids[1..], newEvent);
    }
  }

  /** The encoded position of a literal is its first occurrence. */
  lemma {:induction false} EncodeFirst(ids: seq<LitId>, newEvent: seq<LitId>, k: nat)
    requires k < |Encode(ids, newEvent)|
    ensures var i := Encode(ids, newEvent)[k];
            i < |newEvent| && Present(ids, newEvent)[k] == newEvent[i] && forall j :: 0 <= j < i ==> newEvent[j] != newEvent[i]
    decreases |ids|
  {
    EncodeDecode(ids, newEvent);
    match FirstIndex(ids[0], newEvent)
    case None => EncodeFirst(ids[1..], newEvent, k);
    case Some(i) =>
      if k > 0 {
        EncodeFirst(ids[1..], newEvent, k - 1);
      }
  }

  /** `convertToIndices` as the frontend runs it: for each literal, a scan of `newEvent` that
      stops at the first identical one. */
  method ConvertToIndices(ids: seq<LitId>, newEvent: seq<LitId>) returns (encoded: seq<nat>)
    ensures encoded == Encode(ids, newEvent)
  {
    encoded := [];
    var k := 0;
    while k < |ids|
      invariant 0 <= k <= |ids|
      invariant encoded + Encode(ids[k..], newEvent) == Encode(ids, newEvent)
    {
      assert ids[k..][1..] == ids[k + 1..];
      var found := ScanFor(ids[k], newEvent);
      if found.Some? {
        encoded := encoded + [found.value];
      }
      k := k + 1;
    }
    assert ids[|ids|..] == [];
  }

  /** The scan of `newEvent` for one literal, stopping at the first identical one. */
  method ScanFor(x: LitId, s: seq<LitId>) returns (r: Option<nat>)
    ensures r == FirstIndex(x, s)
  {
    var i := 0;
    while i < |s|
      invariant 0 <= i <= |s|
      invariant forall j :: 0 <= j < i ==> s[j] != x
    {
      if s[i] == x {
        return Some(i);
      }
      i := i + 1;
    }
    return None;
  }

  // Serialised objects; a field is `None` when its key is absent from the JSON object.

  /** A serialised term; `isVariable` is one of the keys the serialiser leaves out. */
  datatype TermDto = TermDto(name: Option<string>, args: ArgsDto)

  /** The `args` key of a serialised term: absent, or a list of terms. (Not an `Option`, so
      that recursion into the list is seen to terminate.) */
  datatype ArgsDto = NoArgs | Args(terms: seq<TermDto>)

  /** A serialised literal; `literalInParent` is left out. */
  datatype LiteralDto = LiteralDto(name: Option<string>, args: Option<seq<TermDto>>, negated: Option<bool>,
                                   isSelected: Option<bool>, representation: Option<int>,
                                   hideBracketsAssoc: Option<bool>,
                                   nonStrictForNegatedStrictInequalities: Option<bool>,
                                   orientationReason: Option<Reason>)

  /** A serialised unit: its `type`, a formula's text, or a clause's literals with its three
      oriented lists and its active-event list encoded as positions (the last may be `null`,
      written `Some(None)`). */
  datatype UnitDto = UnitDto(kind: Option<string>, formula: Option<string>,
                             literalsNewEvent: Option<seq<LiteralDto>>, premiseLiterals: Option<seq<int>>,
                             conclusionLiterals: Option<seq<int>>, contextLiterals: Option<seq<int>>,
                             literalsActiveEvent: Option<Option<seq<int>>>)

  /** A serialised node; its statistics map is written as `[key, value]` pairs, its times may
      be `null`, and `position` (layout data the model does not keep) is only checked for. */
  datatype NodeDto = NodeDto(id: Option<int>, unit: Option<UnitDto>, inferenceRule: Option<string>,
                             parents: Option<seq<int>>, statistics: Option<seq<(string, int)>>,
                             isFromPreprocessing: Option<bool>, newTime: Option<Option<int>>,
                             activeTime: Option<Option<int>>, deletionTime: Option<Option<int>>,
                             deletionParents: Option<seq<int>>, position: Option<()>, isBoundary: Option<bool>)

  /** A serialised dag: its node map as `[id, node]` pairs; `leaves`, `mergeMap`,
      `isPassiveDag`, `styleMap` and `activeNodeId` are left out. */
  datatype DagDto = DagDto(nodes: Option<seq<(int, NodeDto)>>)

  function SerializeTerm(t: STerm): (r: TermDto)
    ensures r.name == Some(t.name) && r.args.Args? && |r.args.terms| == |t.args|
    decreases t
  {
    TermDto(Some(t.name), Args(seq(|t.args|, i requires 0 <= i < |t.args| => SerializeTerm(t.args[i]))))
  }

  /** `reconstructTerm`: both keys must be present. The frontend's `Term` constructor decides
      `isVariable` from the name; that code is not part of this model and is the parameter
      `isVariable`. */
  function ReconstructTerm(dto: TermDto, isVariable: string -> bool): (r: Result<STerm>)
    ensures r.Ok? ==> dto.name == Some(r.value.name) && dto.args.Args? && |r.value.args| == |dto.args.terms|
    decreases dto
  {
    match dto
    case TermDto(Some(name), Args(args)) =>
      var parts := seq(|args|, i requires 0 <= i < |args| => ReconstructTerm(args[i], isVariable));
      if exists i :: 0 <= i < |parts| && parts[i].Err? then Err(AssertionFailed)
      else Ok(STerm(name, seq(|parts|, i requires 0 <= i < |parts| => parts[i].value), isVariable(name)))
    case _ => Err(AssertionFailed)
  }

  /** The term's variable flags are the ones `isVariable` gives its names. */
  predicate FlagsAgree(t: STerm, isVariable: string -> bool)
    decreases t
  {
    t.isVariable == isVariable(t.name) && forall i :: 0 <= i < |t.args| ==> FlagsAgree(t.args[i], isVariable)
  }

  /** A term read back is the term written, when its variable flags are the ones the `Term`
      constructor computes. */
  lemma {:induction false} TermRoundTrip(t: STerm, isVariable: string -> bool)
    requires FlagsAgree(t, isVariable)
    ensures ReconstructTerm(SerializeTerm(t), isVariable) == Ok(t)
    decreases t
  {
    var dto := SerializeTerm(t);
    forall i | 0 <= i < |t.args|
      ensures ReconstructTerm(dto.args.terms[i], isVariable) == Ok(t.args[i])
    {
      TermRoundTrip(t.args[i], isVariable);
    }
    var args := dto.args.terms;
    var parts := seq(|args|, i requires 0 <= i < |args| => ReconstructTerm(args[i], isVariable));
    assert !exists i :: 0 <= i < |parts| && parts[i].Err?;
    assert seq(|parts|, i requires 0 <= i < |parts| => parts[i].value) == t.args;
    assert dto == TermDto(Some(t.name), Args(args));
  }

  function SerializeLiteral(l: LiteralObj): (r: LiteralDto)
    ensures r.name == Some(l.name) && r.orientationReason == Some(l.orientationReason)
  {
    LiteralDto(Some(l.name), Some(seq(|l.args|, i requires 0 <= i < |l.args| => SerializeTerm(l.args[i]))),
               Some(l.negated), Some(l.isSelected), Some(l.representation), Some(l.hideBracketsAssoc),
               Some(l.nonStrictForNegatedStrictInequalities), Some(l.orientationReason))
  }

  /** `reconstructLiteral`: every key must be present; the literal has no parent literal. */
  function ReconstructLiteral(dto: LiteralDto, isVariable: string -> bool): (r: Result<LiteralObj>)
    ensures r.Ok? ==> r.value.literalInParent.None? && dto.name == Some(r.value.name)
  {
    if dto.name.None? || dto.args.None? || dto.negated.None? || dto.isSelected.None? || dto.representation.None? ||
       dto.hideBracketsAssoc.None? || dto.nonStrictForNegatedStrictInequalities.None? || dto.orientationReason.None?
    then Err(AssertionFailed)
    else
      var parts := seq(|dto.args.value|, i requires 0 <= i < |dto.args.value| => ReconstructTerm(dto.args.value[i], isVariable));
      if exists i :: 0 <= i < |parts| && parts[i].Err? then Err(AssertionFailed)
      else
        Ok(LiteralObj(dto.name.value, seq(|parts|, i requires 0 <= i < |parts| => parts[i].value), dto.negated.value,
                      dto.isSelected.value, dto.representation.value, dto.hideBracketsAssoc.value,
                      dto.nonStrictForNegatedStrictInequalities.value, dto.orientationReason.value, None))
  }

  /** A literal read back is the literal written, less its parent literal. */
  lemma LiteralRoundTrip(l: LiteralObj, isVariable: string -> bool)
    requires forall i :: 0 <= i < |l.args| ==> FlagsAgree(l.args[i], isVariable)
    ensures ReconstructLiteral(SerializeLiteral(l), isVariable) == Ok(l.(literalInParent := None))
  {
    var dto := SerializeLiteral(l);
    forall i | 0 <= i < |l.args|
      ensures ReconstructTerm(dto.args.value[i], isVariable) == Ok(l.args[i])
    {
      TermRoundTrip(l.args[i], isVariable);
    }
    var parts := seq(|l.args|, i requires 0 <= i < |l.args| => ReconstructTerm(dto.args.value[i], isVariable));
    assert seq(|parts|, i requires 0 <= i < |parts| => parts[i].value) == l.args;
  }

  /** `literalsNewEvent.map(reconstructLiteral)`: fails when any literal fails. */
  function ReconstructLiterals(dtos: seq<LiteralDto>, isVariable: string -> bool): (r: Result<seq<LiteralObj>>)
    ensures r.Ok? <==> forall i :: 0 <= i < |dtos| ==> ReconstructLiteral(dtos[i], isVariable).Ok?
    ensures r.Ok? ==> |r.value| == |dtos| && forall i :: 0 <= i < |dtos| ==> ReconstructLiteral(dtos[i], isVariable) == Ok(r.value[i])
  {
    var parts := seq(|dtos|, i requires 0 <= i < |dtos| => ReconstructLiteral(dtos[i], isVariable));
    if exists i :: 0 <= i < |parts| && parts[i].Err? then Err(AssertionFailed)
    else
      assert forall i :: 0 <= i < |dtos| ==> parts[i] == ReconstructLiteral(dtos[i], isVariable);
      Ok(seq(|parts|, i requires 0 <= i < |parts| => parts[i].value))
  }

  /** The ids of the `n` fresh literal objects of one reloaded clause, numbered from `next`. */
  function FreshIds(next: int, n: nat): seq<LitId>
  {
    seq(n, i requires 0 <= i < n => next + i)
  }

  /** The fresh literal objects of one reloaded clause, under the ids `FreshIds`. */
  function Arena(lits: seq<LiteralObj>, next: int): Literals
    decreases |lits|
  {
    if lits == [] then map[]
    else Arena(lits[..|lits| - 1], next)[next + |lits| - 1 := lits[|lits| - 1]]
  }

  /** Literals without a parent literal make an arena without one. */
  lemma {:induction false} ArenaUnlinked(lits: seq<LiteralObj>, next: int)
    requires forall i :: 0 <= i < |lits| ==> lits[i].literalInParent.None?
    ensures forall x :: x in Arena(lits, next) ==> Arena(lits, next)[x].literalInParent.None?
    decreases |lits|
  {
    if lits != [] {
      ArenaUnlinked(lits[..|lits| - 1], next);
    }
  }

  /** The fresh ids are exactly the keys of the fresh arena, and each names its literal. */
  lemma {:induction false} ArenaIds(lits: seq<LiteralObj>, next: int)
    ensures forall x :: x in Arena(lits, next) <==> next <= x < next + |lits|
    ensures forall k :: 0 <= k < |lits| ==> FreshIds(next, |lits|)[k] in Arena(lits, next) &&
                                            Arena(lits, next)[FreshIds(next, |lits|)[k]] == lits[k]
    decreases |lits|
  {
    if lits != [] {
      var init := lits[..|lits| - 1];
      ArenaIds(init, next);
      forall k | 0 <= k < |init|
        ensures FreshIds(next, |init|)[k] == FreshIds(next, |lits|)[k]
      {
      }
    }
  }

  function SerializeLiterals(ids: seq<LitId>, literals: Literals): (r: seq<LiteralDto>)
    requires forall k :: 0 <= k < |ids| ==> ids[k] in literals
    ensures |r| == |ids|
  {
    seq(|ids|, i requires 0 <= i < |ids| => SerializeLiteral(literals[ids[i]]))
  }

  /** The literals `ids` name, as they are read back. */
  function UnlinkedAll(ids: seq<LitId>, literals: Literals): (r: seq<LiteralObj>)
    requires forall k :: 0 <= k < |ids| ==> ids[k] in literals
    ensures |r| == |ids|
  {
    seq(|ids|, i requires 0 <= i < |ids| => Unlinked(literals[ids[i]]))
  }

  /** A clause's literals read back are its literals, less their parent literals. */
  lemma LiteralsRoundTrip(ids: seq<LitId>, literals: Literals, isVariable: string -> bool)
    requires forall k :: 0 <= k < |ids| ==> ids[k] in literals && ArgsFlagsAgree(literals[ids[k]], isVariable)
    ensures ReconstructLiterals(SerializeLiterals(ids, literals), isVariable) == Ok(UnlinkedAll(ids, literals))
  {
    var dtos := SerializeLiterals(ids, literals);
    var lits := UnlinkedAll(ids, literals);
    forall i | 0 <= i < |ids|
      ensures ReconstructLiteral(dtos[i], isVariable) == Ok(lits[i])
    {
      LiteralRoundTrip(literals[ids[i]], isVariable);
    }
    var read := ReconstructLiterals(dtos, isVariable);
    assert read.Ok?;
    assert read.value == lits;
  }

  /** The serialiser's replacement of a unit: a formula is written as it is; a clause is
      written with its literals and with its oriented and active-event lists as positions. */
  function SerializeUnit(u: Unit, literals: Literals): (r: UnitDto)
    requires u.ClauseUnit? ==> ClauseStored(u.clause, literals)
    ensures r.kind == Some(if u.FormulaUnit? then "Formula" else "Clause")
    ensures u.ClauseUnit? ==> r.literalsNewEvent.Some? && |r.literalsNewEvent.value| == |u.clause.literalsNewEvent|
    ensures u.ClauseUnit? ==> (r.literalsActiveEvent == Some(None) <==> u.clause.literalsActiveEvent.None?)
  {
    match u
    case FormulaUnit(f) => UnitDto(Some("Formula"), Some(f), None, None, None, None, None)
    case ClauseUnit(c) =>
      var ne := c.literalsNewEvent;
      UnitDto(Some("Clause"), None, Some(SerializeLiterals(ne, literals)),
              Some(Encode(c.premiseLiterals, ne)), Some(Encode(c.conclusionLiterals, ne)),
              Some(Encode(c.contextLiterals, ne)),
              Some(if c.literalsActiveEvent.None? then None else Some(Encode(c.literalsActiveEvent.value, ne))))
  }

  /** `reconstructUnit`: a unit of type `"Formula"` needs its text; any other type is read as a
      clause, which needs all five lists; its literals are fresh objects with the ids
      `FreshIds(next, ..)`, and its lists are decoded against them. */
  function ReconstructUnit(dto: UnitDto, isVariable: string -> bool, next: int): (r: Result<(Unit, seq<LiteralObj>)>)
    ensures dto.kind.None? ==> r == Err(AssertionFailed)
    ensures dto.kind == Some("Formula") ==> (r.Ok? <==> dto.formula.Some?) && (r.Ok? ==> r.value == (FormulaUnit(dto.formula.value), []))
    ensures (dto.kind.Some? && dto.kind != Some("Formula") &&
             (dto.literalsNewEvent.None? || dto.premiseLiterals.None? || dto.conclusionLiterals.None? ||
              dto.contextLiterals.None? || dto.literalsActiveEvent.None?)) ==> r == Err(AssertionFailed)
    ensures r.Ok? && r.value.0.ClauseUnit? ==>
              r.value.0.clause.literalsNewEvent == FreshIds(next, |r.value.1|) &&
              ClauseStored(r.value.0.clause, Arena(r.value.1, next))
    ensures r.Ok? ==> forall i :: 0 <= i < |r.value.1| ==> r.value.1[i].literalInParent.None?
  {
    if dto.kind.None? then Err(AssertionFailed)
    else if dto.kind.value == "Formula" then
      if dto.formula.None? then Err(AssertionFailed) else Ok((FormulaUnit(dto.formula.value), []))
    else if dto.literalsNewEvent.None? || dto.premiseLiterals.None? || dto.conclusionLiterals.None? ||
            dto.contextLiterals.None? || dto.literalsActiveEvent.None? then Err(AssertionFailed)
    else
      match ReconstructLiterals(dto.literalsNewEvent.value, isVariable)
      case Err(e) => Err(e)
      case Ok(lits) =>
        var ids := FreshIds(next, |lits|);
        ArenaIds(lits, next);
        var premise := Decode(dto.premiseLiterals.value, ids);
        var conclusion := Decode(dto.conclusionLiterals.value, ids);
        var context := Decode(dto.contextLiterals.value, ids);
        var active := if dto.literalsActiveEvent.value.None? then Ok(None)
                      else match Decode(dto.literalsActiveEvent.value.value, ids)
                        case Err(e) => Err(e)
                        case Ok(xs) => Ok(Some(xs));
        if premise.Err? || conclusion.Err? || context.Err? || active.Err? then Err(IndexOutOfRange)
        else Ok((ClauseUnit(Clause(ids, premise.value, conclusion.value, context.value, active.value)), lits))
  }

  /** A literal as it is read back: the same, but linked to no parent literal. */
  function Unlinked(l: LiteralObj): LiteralObj
  {
    l.(literalInParent := None)
  }

  predicate ArgsFlagsAgree(l: LiteralObj, isVariable: string -> bool)
  {
    forall i :: 0 <= i < |l.args| ==> FlagsAgree(l.args[i], isVariable)
  }

  /** A position holding `x` with no `x` before it is the first position of `x`. */
  lemma FirstIndexAt(x: LitId, s: seq<LitId>, i: nat)
    requires i < |s| && s[i] == x && forall j :: 0 <= j < i ==> s[j] != x
    ensures FirstIndex(x, s) == Some(i)
  {
    var f := FirstIndex(x, s);
    assert f.Some? && s[f.value] == x;
    assert !(f.value < i) && !(i < f.value);
  }

  /** The k-th encoded position is the first occurrence of the k-th literal that occurs. */
  lemma EncodedIsFirst(ids: seq<LitId>, newEvent: seq<LitId>, k: nat)
    requires k < |Encode(ids, newEvent)|
    ensures Present(ids, newEvent)[k] in newEvent
    ensures FirstIndex(Present(ids, newEvent)[k], newEvent) == Some(Encode(ids, newEvent)[k])
  {
    EncodeFirst(ids, newEvent, k);
    var i := Encode(ids, newEvent)[k];
    FirstIndexAt(Present(ids, newEvent)[k], newEvent, i);
  }

  /** `list'`, read back against the fresh literals `newEvent'`, holds at each place the fresh
      copy of the literal `list` holds there; a literal of `list` missing from `newEvent` is
      dropped, and two places holding the same literal object still hold the same object. */
  predicate ListReloaded(list': seq<LitId>, list: seq<LitId>, newEvent: seq<LitId>, newEvent': seq<LitId>)
    requires |newEvent'| == |newEvent|
  {
    var present := Present(list, newEvent);
    |list'| == |present| &&
    forall k :: 0 <= k < |present| ==> list'[k] == newEvent'[FirstIndex(present[k], newEvent).value]
  }

  /** Decoding an encoded list against fresh literals keeps its places. */
  lemma ListRoundTrip(list: seq<LitId>, newEvent: seq<LitId>, newEvent': seq<LitId>)
    requires |newEvent'| == |newEvent|
    ensures Decode(Encode(list, newEvent), newEvent').Ok?
    ensures ListReloaded(Decode(Encode(list, newEvent), newEvent').value, list, newEvent, newEvent')
  {
    EncodeDecode(list, newEvent);
    forall k | 0 <= k < |Encode(list, newEvent)|
      ensures FirstIndex(Present(list, newEvent)[k], newEvent) == Some(Encode(list, newEvent)[k])
    {
      EncodedIsFirst(list, newEvent, k);
    }
  }

  /** The clause `c'` over `arena` is the clause `c` over `literals` read back: its literals
      are fresh, distinct objects with the same content and no parent literal, and each of its
      lists holds the fresh copies of the literals `c`'s list holds; a clause never activated
      stays so. */
  predicate ClauseReloaded(c: Clause, literals: Literals, c': Clause, arena: Literals)
    requires ClauseStored(c, literals)
  {
    |c'.literalsNewEvent| == |c.literalsNewEvent| && Dags.Distinct(c'.literalsNewEvent) &&
    (forall i :: 0 <= i < |c.literalsNewEvent| ==>
       c'.literalsNewEvent[i] in arena && arena[c'.literalsNewEvent[i]] == Unlinked(literals[c.literalsNewEvent[i]])) &&
    ListReloaded(c'.premiseLiterals, c.premiseLiterals, c.literalsNewEvent, c'.literalsNewEvent) &&
    ListReloaded(c'.conclusionLiterals, c.conclusionLiterals, c.literalsNewEvent, c'.literalsNewEvent) &&
    ListReloaded(c'.contextLiterals, c.contextLiterals, c.literalsNewEvent, c'.literalsNewEvent) &&
    (c'.literalsActiveEvent.Some? <==> c.literalsActiveEvent.Some?) &&
    (c.literalsActiveEvent.Some? && c'.literalsActiveEvent.Some? ==>
       ListReloaded(c'.literalsActiveEvent.value, c.literalsActiveEvent.value, c.literalsNewEvent, c'.literalsNewEvent))
  }

  /** `reconstructUnit` on a clause whose literals and lists all read back. */
  lemma ReconstructClause(dto: UnitDto, isVariable: string -> bool, next: int, lits: seq<LiteralObj>)
    requires dto.kind.Some? && dto.kind.value != "Formula"
    requires dto.literalsNewEvent.Some? && dto.premiseLiterals.Some? && dto.conclusionLiterals.Some? &&
             dto.contextLiterals.Some? && dto.literalsActiveEvent.Some?
    requires ReconstructLiterals(dto.literalsNewEvent.value, isVariable) == Ok(lits)
    requires var ids := FreshIds(next, |lits|);
             Decode(dto.premiseLiterals.value, ids).Ok? && Decode(dto.conclusionLiterals.value, ids).Ok? &&
             Decode(dto.contextLiterals.value, ids).Ok? &&
             (dto.literalsActiveEvent.value.Some? ==> Decode(dto.literalsActiveEvent.value.value, ids).Ok?)
    ensures var ids := FreshIds(next, |lits|);
            ReconstructUnit(dto, isVariable, next) ==
              Ok((ClauseUnit(Clause(ids, Decode(dto.premiseLiterals.value, ids).value,
                                    Decode(dto.conclusionLiterals.value, ids).value,
                                    Decode(dto.contextLiterals.value, ids).value,
                                    if dto.literalsActiveEvent.value.None? then None
                                    else Some(Decode(dto.literalsActiveEvent.value.value, ids).value))), lits))
  {
  }

  /** A clause read back is the clause written, up to the identity of its literal objects. */
  lemma UnitRoundTrip(c: Clause, literals: Literals, isVariable: string -> bool, next: int)
    requires ClauseStored(c, literals)
    requires forall i :: 0 <= i < |c.literalsNewEvent| ==> ArgsFlagsAgree(literals[c.literalsNewEvent[i]], isVariable)
    ensures var r := ReconstructUnit(SerializeUnit(ClauseUnit(c), literals), isVariable, next);
            r.Ok? && r.value.0.ClauseUnit? && ClauseReloaded(c, literals, r.value.0.clause, Arena(r.value.1, next))
  {
    UnitReads(c, literals, isVariable, next);
    ReloadedClauseIs(c, literals, next);
  }

  /** `list` encoded against `newEvent` and decoded against `ids`. */
  function DecodedList(list: seq<LitId>, newEvent: seq<LitId>, ids: seq<LitId>): seq<LitId>
    requires |ids| == |newEvent|
  {
    ListRoundTrip(list, newEvent, ids);
    Decode(Encode(list, newEvent), ids).value
  }

  /** The clause `c` reads back as: fresh ids from `next`, each list decoded against them. */
  function ReloadedClause(c: Clause, next: int): Clause
  {
    var ne := c.literalsNewEvent;
    var ids := FreshIds(next, |ne|);
    Clause(ids, DecodedList(c.premiseLiterals, ne, ids), DecodedList(c.conclusionLiterals, ne, ids),
           DecodedList(c.contextLiterals, ne, ids),
           if c.literalsActiveEvent.None? then None else Some(DecodedList(c.literalsActiveEvent.value, ne, ids)))
  }

  lemma UnitReads(c: Clause, literals: Literals, isVariable: string -> bool, next: int)
    requires ClauseStored(c, literals)
    requires forall i :: 0 <= i < |c.literalsNewEvent| ==> ArgsFlagsAgree(literals[c.literalsNewEvent[i]], isVariable)
    ensures ReconstructUnit(SerializeUnit(ClauseUnit(c), literals), isVariable, next) ==
            Ok((ClauseUnit(ReloadedClause(c, next)), UnlinkedAll(c.literalsNewEvent, literals)))
  {
    var ne := c.literalsNewEvent;
    LiteralsRoundTrip(ne, literals, isVariable);
    var lits := UnlinkedAll(ne, literals);
    var ids := FreshIds(next, |lits|);
    ListRoundTrip(c.premiseLiterals, ne, ids);
    ListRoundTrip(c.conclusionLiterals, ne, ids);
    ListRoundTrip(c.contextLiterals, ne, ids);
    if c.literalsActiveEvent.Some? {
      ListRoundTrip(c.literalsActiveEvent.value, ne, ids);
    }
    ReconstructClause(SerializeUnit(ClauseUnit(c), literals), isVariable, next, lits);
  }

  lemma ReloadedClauseIs(c: Clause, literals: Literals, next: int)
    requires ClauseStored(c, literals)
    ensures ClauseReloaded(c, literals, ReloadedClause(c, next), Arena(UnlinkedAll(c.literalsNewEvent, literals), next))
  {
    var ne := c.literalsNewEvent;
    var lits := UnlinkedAll(ne, literals);
    var ids := FreshIds(next, |lits|);
    ArenaIds(lits, next);
    ListRoundTrip(c.premiseLiterals, ne, ids);
    ListRoundTrip(c.conclusionLiterals, ne, ids);
    ListRoundTrip(c.contextLiterals, ne, ids);
    if c.literalsActiveEvent.Some? {
      ListRoundTrip(c.literalsActiveEvent.value, ne, ids);
    }
  }

  // Nodes.

  /** The statistics map rebuilt from its `[key, value]` pairs, one `set` after the other. */
  function StatisticsOf(pairs: seq<(string, int)>): (r: map<string, int>)
    ensures forall key :: key in r <==> exists i :: 0 <= i < |pairs| && pairs[i].0 == key
    decreases |pairs|
  {
    if pairs == [] then map[]
    else
      var init := pairs[..|pairs| - 1];
      assert forall i :: 0 <= i < |init| ==> init[i] == pairs[i];
      StatisticsOf(init)[pairs[|pairs| - 1].0 := pairs[|pairs| - 1].1]
  }

  /** Of several pairs with the same key, the last one gives the value. */
  lemma {:induction false} StatisticsLastWins(pairs: seq<(string, int)>, i: nat)
    requires i < |pairs| && forall j :: i < j < |pairs| ==> pairs[j].0 != pairs[i].0
    ensures pairs[i].0 in StatisticsOf(pairs) && StatisticsOf(pairs)[pairs[i].0] == pairs[i].1
    decreases |pairs|
  {
    if i < |pairs| - 1 {
      StatisticsLastWins(pairs[..|pairs| - 1], i);
    }
  }

  /** `Array.from(map.entries())`: the entries of the map, each key once, in the map's
      insertion order, which the model does not keep (any order of the keys is chosen). */
  ghost function MapEntries(m: map<string, int>): (r: seq<(string, int)>)
    ensures |r| == |m|
    decreases |m|
  {
    if m == map[] then []
    else
      var key :| key in m;
      var rest := m - {key};
      assert |rest| == |m| - 1;
      MapEntries(rest) + [(key, m[key])]
  }

  /** A statistics map survives being written as pairs and read back. */
  lemma {:induction false} StatisticsRoundTrip(m: map<string, int>)
    ensures StatisticsOf(MapEntries(m)) == m
    decreases |m|
  {
    if m != map[] {
      var entries := MapEntries(m);
      var key := entries[|entries| - 1].0;
      var rest := m - {key};
      assert entries == MapEntries(rest) + [(key, m[key])];
      assert entries[..|entries| - 1] == MapEntries(rest);
      StatisticsRoundTrip(rest);
      assert StatisticsOf(entries) == rest[key := m[key]];
      KeyRestored(m, key);
    }
  }

  /** Taking a key out and putting its value back gives the map again. */
  lemma KeyRestored(m: map<string, int>, key: string)
    requires key in m
    ensures (m - {key})[key := m[key]] == m
  {
    var back := (m - {key})[key := m[key]];
    assert forall k :: k in back <==> k in m;
    assert forall k :: k in back ==> back[k] == m[k];
  }

  /** A node as `JSON.stringify` writes it: every field, the statistics as entries, and the
      layout position the frontend gives every node it draws. */
  ghost function SerializeNode(n: SatNode, literals: Literals): (r: NodeDto)
    requires n.unit.ClauseUnit? ==> ClauseStored(n.unit.clause, literals)
    ensures r.id == Some(n.id) && r.unit == Some(SerializeUnit(n.unit, literals))
  {
    NodeDto(Some(n.id), Some(SerializeUnit(n.unit, literals)), Some(n.inferenceRule), Some(n.parents),
            Some(MapEntries(n.statistics)), Some(n.isFromPreprocessing), Some(n.newTime), Some(n.activeTime),
            Some(n.deletionTime), Some(n.deletionParents), Some(()), Some(n.isBoundary))
  }

  /** Some key of a serialised node is absent. */
  predicate NodeKeyMissing(dto: NodeDto)
  {
    dto.id.None? || dto.unit.None? || dto.inferenceRule.None? || dto.parents.None? || dto.statistics.None? ||
    dto.isFromPreprocessing.None? || dto.newTime.None? || dto.activeTime.None? || dto.deletionTime.None? ||
    dto.deletionParents.None? || dto.position.None? || dto.isBoundary.None?
  }

  /** `reconstructSatNode`: all twelve keys must be present; the unit is read with fresh
      literal objects numbered from `next`, and the statistics map is rebuilt from its pairs. */
  function ReconstructNode(dto: NodeDto, isVariable: string -> bool, next: int): (r: Result<(SatNode, seq<LiteralObj>)>)
    ensures NodeKeyMissing(dto) ==> r == Err(AssertionFailed)
    ensures r.Ok? ==> Some(r.value.0.id) == dto.id && Some(r.value.0.parents) == dto.parents &&
                      ReconstructUnit(dto.unit.value, isVariable, next) == Ok((r.value.0.unit, r.value.1))
    ensures r.Ok? && r.value.0.unit.ClauseUnit? ==> ClauseStored(r.value.0.unit.clause, Arena(r.value.1, next))
  {
    if NodeKeyMissing(dto) then Err(AssertionFailed)
    else
      match ReconstructUnit(dto.unit.value, isVariable, next)
      case Err(e) => Err(e)
      case Ok((unit, lits)) =>
        Ok((SatNode(dto.id.value, unit, dto.inferenceRule.value, dto.parents.value, StatisticsOf(dto.statistics.value),
                    dto.isFromPreprocessing.value, dto.newTime.value, dto.activeTime.value, dto.deletionTime.value,
                    dto.deletionParents.value, dto.isBoundary.value), lits))
  }

  /** The node `n'` over `arena` is the node `n` over `literals` read back: every field is the
      same, and its clause is the clause read back. */
  predicate NodeReloaded(n: SatNode, literals: Literals, n': SatNode, arena: Literals)
    requires n.unit.ClauseUnit? ==> ClauseStored(n.unit.clause, literals)
  {
    n'.(unit := n.unit) == n &&
    (n.unit.FormulaUnit? ==> n'.unit == n.unit) &&
    (n.unit.ClauseUnit? ==> n'.unit.ClauseUnit? && ClauseReloaded(n.unit.clause, literals, n'.unit.clause, arena))
  }

  /** The literals of the node's clause, if any, have the variable flags `isVariable` gives. */
  predicate NodeFlagsAgree(n: SatNode, literals: Literals, isVariable: string -> bool)
    requires n.unit.ClauseUnit? ==> ClauseStored(n.unit.clause, literals)
  {
    n.unit.ClauseUnit? ==>
      forall i :: 0 <= i < |n.unit.clause.literalsNewEvent| ==>
        ArgsFlagsAgree(literals[n.unit.clause.literalsNewEvent[i]], isVariable)
  }

  /** A node read back is the node written. */
  lemma NodeRoundTrip(n: SatNode, literals: Literals, isVariable: string -> bool, next: int)
    requires n.unit.ClauseUnit? ==> ClauseStored(n.unit.clause, literals)
    requires NodeFlagsAgree(n, literals, isVariable)
    ensures var r := ReconstructNode(SerializeNode(n, literals), isVariable, next);
            r.Ok? && NodeReloaded(n, literals, r.value.0, Arena(r.value.1, next))
  {
    var u := ReconstructUnit(SerializeUnit(n.unit, literals), isVariable, next);
    if n.unit.ClauseUnit? {
      UnitRoundTrip(n.unit.clause, literals, isVariable, next);
    }
    assert u.Ok?;
    NodeFieldsRead(n, literals, isVariable, next);
  }

  /** Every field of a written node but its unit reads back unchanged. */
  lemma NodeFieldsRead(n: SatNode, literals: Literals, isVariable: string -> bool, next: int)
    requires n.unit.ClauseUnit? ==> ClauseStored(n.unit.clause, literals)
    requires ReconstructUnit(SerializeUnit(n.unit, literals), isVariable, next).Ok?
    ensures ReconstructNode(SerializeNode(n, literals), isVariable, next) ==
            Ok((n.(unit := ReconstructUnit(SerializeUnit(n.unit, literals), isVariable, next).value.0),
                ReconstructUnit(SerializeUnit(n.unit, literals), isVariable, next).value.1))
  {
    StatisticsRoundTrip(n.statistics);
  }

  // Dags.

  /** The node map as `[id, node]` pairs, in the map's insertion order `order`. */
  ghost function SerializeNodes(nodes: SatNodes, literals: Literals, order: seq<int>): (r: seq<(int, NodeDto)>)
    requires Stored(nodes, literals)
    requires forall i :: 0 <= i < |order| ==> order[i] in nodes
    ensures |r| == |order|
    ensures forall i :: 0 <= i < |order| ==> r[i].0 == order[i]
    decreases |order|
  {
    if order == [] then []
    else
      StoredNode(nodes, literals, order[0]);
      [(order[0], SerializeNode(nodes[order[0]], literals))] + SerializeNodes(nodes, literals, order[1..])
  }

  /** `serializeDag`: a passive dag may not be saved. */
  ghost function SerializeDag(nodes: SatNodes, literals: Literals, isPassiveDag: bool, order: seq<int>): (r: Result<DagDto>)
    requires Stored(nodes, literals) && Dags.Enumerates(order, nodes.Keys)
    ensures r.Err? <==> isPassiveDag
  {
    if isPassiveDag then Err(AssertionFailed) else Ok(DagDto(Some(SerializeNodes(nodes, literals, order))))
  }

  /** One `[id, node]` pair read: a later pair replaces an earlier one with the same id, and
      the literals of the node are numbered on from `next`. */
  function ReadPair(pair: (int, NodeDto), isVariable: string -> bool, nodes: SatNodes, literals: Literals,
                    next: int, order: seq<int>): (r: Result<(SatNodes, Literals, int, seq<int>)>)
  {
    Added(pair.0, ReconstructNode(pair.1, isVariable, next), nodes, literals, next, order)
  }

  /** The state after the node read under `id`, or the failure to read it. */
  function Added(id: int, read: Result<(SatNode, seq<LiteralObj>)>, nodes: SatNodes, literals: Literals,
                 next: int, order: seq<int>): Result<(SatNodes, Literals, int, seq<int>)>
  {
    if read.Err? then Err(read.error)
    else Ok((nodes[id := read.value.0], literals + Arena(read.value.1, next), next + |read.value.1|,
             if id in nodes then order else order + [id]))
  }

  /** The node list read in order. The result holds the nodes, the literal arena, and the ids
      in the order in which the node map first saw them. */
  function ReadNodes(pairs: seq<(int, NodeDto)>, isVariable: string -> bool, nodes: SatNodes, literals: Literals,
                     next: int, order: seq<int>): (r: Result<(SatNodes, Literals, seq<int>)>)
    decreases |pairs|
  {
    if pairs == [] then Ok((nodes, literals, order))
    else
      match ReadPair(pairs[0], isVariable, nodes, literals, next, order)
      case Err(e) => Err(e)
      case Ok((nodes', literals', next', order')) => ReadNodes(pairs[1..], isVariable, nodes', literals', next', order')
  }

  /** The rest of the pairs read after a step that left `state`. */
  function ReadNodesFrom(pairs: seq<(int, NodeDto)>, isVariable: string -> bool,
                         state: (SatNodes, Literals, int, seq<int>)): Result<(SatNodes, Literals, seq<int>)>
  {
    ReadNodes(pairs, isVariable, state.0, state.1, state.2, state.3)
  }

  /** Reading the pairs from `i` on fails when pair `i`'s node cannot be read. */
  lemma ReadNodesFails(pairs: seq<(int, NodeDto)>, i: nat, isVariable: string -> bool, nodes: SatNodes,
                       literals: Literals, next: int, order: seq<int>)
    requires i < |pairs| && ReconstructNode(pairs[i].1, isVariable, next).Err?
    ensures ReadNodes(pairs[i..], isVariable, nodes, literals, next, order) ==
            Err(ReconstructNode(pairs[i].1, isVariable, next).error)
  {
    ReadNodesAt(pairs, i, isVariable, nodes, literals, next, order);
    ReadPairIs(pairs[i], isVariable, nodes, literals, next, order, ReconstructNode(pairs[i].1, isVariable, next));
  }

  /** Otherwise it goes on from the state reading pair `i` leaves. */
  lemma ReadNodesAdvance(pairs: seq<(int, NodeDto)>, i: nat, isVariable: string -> bool, nodes: SatNodes,
                         literals: Literals, next: int, order: seq<int>,
                         nodes': SatNodes, literals': Literals, next': int, order': seq<int>)
    requires i < |pairs| && ReadPair(pairs[i], isVariable, nodes, literals, next, order) == Ok((nodes', literals', next', order'))
    ensures ReadNodes(pairs[i..], isVariable, nodes, literals, next, order) ==
            ReadNodes(pairs[i + 1..], isVariable, nodes', literals', next', order')
  {
    ReadNodesAt(pairs, i, isVariable, nodes, literals, next, order);
    assert ReadNodes(pairs[i + 1..], isVariable, nodes', literals', next', order') ==
           ReadNodesFrom(pairs[i + 1..], isVariable, (nodes', literals', next', order'));
  }

  lemma ReadNodesRead(pairs: seq<(int, NodeDto)>, i: nat, isVariable: string -> bool, nodes: SatNodes,
                      literals: Literals, next: int, order: seq<int>, node: SatNode, lits: seq<LiteralObj>,
                      nodes': SatNodes, literals': Literals, next': int, order': seq<int>)
    requires i < |pairs| && ReconstructNode(pairs[i].1, isVariable, next) == Ok((node, lits))
    requires nodes' == nodes[pairs[i].0 := node] && literals' == literals + Arena(lits, next) && next' == next + |lits|
    requires order' == if pairs[i].0 in nodes then order else order + [pairs[i].0]
    ensures ReadNodes(pairs[i..], isVariable, nodes, literals, next, order) ==
            ReadNodes(pairs[i + 1..], isVariable, nodes', literals', next', order')
  {
    ReadPairRead(pairs[i], isVariable, nodes, literals, next, order, node, lits);
    ReadNodesAdvance(pairs, i, isVariable, nodes, literals, next, order, nodes', literals', next', order');
  }

  lemma ReadNodesAt(pairs: seq<(int, NodeDto)>, i: nat, isVariable: string -> bool, nodes: SatNodes,
                    literals: Literals, next: int, order: seq<int>)
    requires i < |pairs|
    ensures ReadPair(pairs[i], isVariable, nodes, literals, next, order).Err? ==>
              ReadNodes(pairs[i..], isVariable, nodes, literals, next, order) ==
              Err(ReadPair(pairs[i], isVariable, nodes, literals, next, order).error)
    ensures ReadPair(pairs[i], isVariable, nodes, literals, next, order).Ok? ==>
              ReadNodes(pairs[i..], isVariable, nodes, literals, next, order) ==
              ReadNodesFrom(pairs[i + 1..], isVariable, ReadPair(pairs[i], isVariable, nodes, literals, next, order).value)
  {
    assert pairs[i..][1..] == pairs[i + 1..] && pairs[i..][0] == pairs[i];
  }

  lemma ReadPairIs(pair: (int, NodeDto), isVariable: string -> bool, nodes: SatNodes, literals: Literals,
                   next: int, order: seq<int>, read: Result<(SatNode, seq<LiteralObj>)>)
    requires read == ReconstructNode(pair.1, isVariable, next)
    ensures read.Err? ==> ReadPair(pair, isVariable, nodes, literals, next, order) == Err(read.error)
    ensures read.Ok? ==> ReadPair(pair, isVariable, nodes, literals, next, order) ==
                         Ok((nodes[pair.0 := read.value.0], literals + Arena(read.value.1, next),
                             next + |read.value.1|, if pair.0 in nodes then order else order + [pair.0]))
  {
  }

  /** `reconstructDag` up to the parent-literal computation: the `nodes` key must be present. */
  function ReconstructDag(dto: DagDto, isVariable: string -> bool): (r: Result<(SatNodes, Literals, seq<int>)>)
    ensures dto.nodes.None? ==> r == Err(AssertionFailed)
  {
    if dto.nodes.None? then Err(AssertionFailed) else ReadNodes(dto.nodes.value, isVariable, map[], map[], 0, [])
  }

  /** Every id of the arena lies below `next`. */
  predicate Below(literals: Literals, next: int)
  {
    forall x :: x in literals ==> x < next
  }

  lemma ClauseStoredGrows(c: Clause, a: Literals, b: Literals)
    requires ClauseStored(c, a) && a.Keys <= b.Keys
    ensures ClauseStored(c, b)
  {
  }

  /** One node read: the dag stays closed under its references. */
  lemma ReadStepStored(nodes: SatNodes, literals: Literals, id: int, node: SatNode, lits: seq<LiteralObj>, next: int)
    requires Stored(nodes, literals)
    requires node.unit.ClauseUnit? ==> ClauseStored(node.unit.clause, Arena(lits, next))
    requires forall i :: 0 <= i < |lits| ==> lits[i].literalInParent.None?
    ensures Stored(nodes[id := node], literals + Arena(lits, next))
  {
    var grown := literals + Arena(lits, next);
    ArenaIds(lits, next);
    forall x | x in nodes && nodes[x].unit.ClauseUnit?
      ensures ClauseStored(nodes[x].unit.clause, grown)
    {
      StoredNode(nodes, literals, x);
      ClauseStoredGrows(nodes[x].unit.clause, literals, grown);
    }
    if node.unit.ClauseUnit? {
      ClauseStoredGrows(node.unit.clause, Arena(lits, next), grown);
    }
    ArenaUnlinked(lits, next);
    forall x | x in grown && grown[x].literalInParent.Some?
      ensures grown[x].literalInParent.value in grown
    {
      assert x !in Arena(lits, next);
    }
  }

  /** Adding a key to a map keeps the first-seen order an enumeration of its keys. */
  lemma EnumeratesInsert(order: seq<int>, keys: set<int>, id: int)
    requires Dags.Enumerates(order, keys)
    ensures Dags.Enumerates(if id in keys then order else order + [id], keys + {id})
  {
  }

  lemma ReadPairStored(pair: (int, NodeDto), isVariable: string -> bool, nodes: SatNodes, literals: Literals,
                       next: int, order: seq<int>)
    requires Stored(nodes, literals) && Dags.Enumerates(order, nodes.Keys)
    ensures var r := ReadPair(pair, isVariable, nodes, literals, next, order);
            r.Ok? ==> Stored(r.value.0, r.value.1) && Dags.Enumerates(r.value.3, r.value.0.Keys)
  {
    var read := ReconstructNode(pair.1, isVariable, next);
    if read.Ok? {
      var node, lits := read.value.0, read.value.1;
      ReadStepStored(nodes, literals, pair.0, node, lits, next);
      EnumeratesInsert(order, nodes.Keys, pair.0);
      assert nodes[pair.0 := node].Keys == nodes.Keys + {pair.0};
    }
  }

  /** The nodes and literals read are closed under their references, and the order lists every
      node once: what the parent-literal computation needs. */
  lemma {:induction false} ReadNodesStored(pairs: seq<(int, NodeDto)>, isVariable: string -> bool, nodes: SatNodes,
                                           literals: Literals, next: int, order: seq<int>)
    requires Stored(nodes, literals) && Dags.Enumerates(order, nodes.Keys)
    ensures var r := ReadNodes(pairs, isVariable, nodes, literals, next, order);
            r.Ok? ==> Stored(r.value.0, r.value.1) && Dags.Enumerates(r.value.2, r.value.0.Keys)
    decreases |pairs|
  {
    if pairs != [] {
      var step := ReadPair(pairs[0], isVariable, nodes, literals, next, order);
      if step.Ok? {
        ReadPairStored(pairs[0], isVariable, nodes, literals, next, order);
        ReadNodesStored(pairs[1..], isVariable, step.value.0, step.value.1, step.value.2, step.value.3);
      }
    }
  }



  /** Every entry of `a` is an entry of `b`. */
  predicate SubArena(a: Literals, b: Literals)
  {
    forall x :: x in a ==> x in b && b[x] == a[x]
  }

  /** Each node of `read` is the node of `nodes` under its id, read back over `arena`. */
  predicate AllReloaded(nodes: SatNodes, literals: Literals, read: SatNodes, arena: Literals)
    requires Stored(nodes, literals)
  {
    read.Keys <= nodes.Keys &&
    forall x :: x in read ==> (StoredNode(nodes, literals, x); NodeReloaded(nodes[x], literals, read[x], arena))
  }

  /** A node read back stays read back when the arena grows. */
  lemma ReloadedGrows(n: SatNode, literals: Literals, n': SatNode, a: Literals, b: Literals)
    requires n.unit.ClauseUnit? ==> ClauseStored(n.unit.clause, literals)
    requires NodeReloaded(n, literals, n', a) && SubArena(a, b)
    ensures NodeReloaded(n, literals, n', b)
  {
  }

  lemma ReadPairRead(pair: (int, NodeDto), isVariable: string -> bool, nodes: SatNodes, literals: Literals,
                     next: int, order: seq<int>, node: SatNode, lits: seq<LiteralObj>)
    requires ReconstructNode(pair.1, isVariable, next) == Ok((node, lits))
    ensures ReadPair(pair, isVariable, nodes, literals, next, order) ==
            Ok((nodes[pair.0 := node], literals + Arena(lits, next), next + |lits|,
                if pair.0 in nodes then order else order + [pair.0]))
  {
    var read: Result<(SatNode, seq<LiteralObj>)> := Ok((node, lits));
    assert ReadPair(pair, isVariable, nodes, literals, next, order) == Added(pair.0, read, nodes, literals, next, order);
  }

  lemma ReadPairOk(pair: (int, NodeDto), isVariable: string -> bool, nodes: SatNodes, literals: Literals,
                   next: int, order: seq<int>, node: SatNode, lits: seq<LiteralObj>)
    requires ReconstructNode(pair.1, isVariable, next) == Ok((node, lits)) && pair.0 !in nodes
    ensures ReadPair(pair, isVariable, nodes, literals, next, order) ==
            Ok((nodes[pair.0 := node], literals + Arena(lits, next), next + |lits|, order + [pair.0]))
  {
    ReadPairRead(pair, isVariable, nodes, literals, next, order, node, lits);
  }

  /** One node read into a partly read dag: when the node read back is the node of `nodes`
      under `id`, it joins the nodes read back so far, at the end of the order. */
  lemma ReadPairReloaded(nodes: SatNodes, literals: Literals, isVariable: string -> bool, id: int, dto: NodeDto,
                         node: SatNode, lits: seq<LiteralObj>, read: SatNodes, arena: Literals, next: int, order: seq<int>)
    returns (read': SatNodes, arena': Literals, next': int)
    requires Stored(nodes, literals) && id in nodes && id !in read
    requires ReconstructNode(dto, isVariable, next) == Ok((node, lits))
    requires NodeReloaded(nodes[id], literals, node, Arena(lits, next))
    requires AllReloaded(nodes, literals, read, arena) && Below(arena, next)
    ensures ReadPair((id, dto), isVariable, read, arena, next, order) == Ok((read', arena', next', order + [id]))
    ensures read'.Keys == read.Keys + {id} && Below(arena', next') && AllReloaded(nodes, literals, read', arena')
  {
    ReadPairOk((id, dto), isVariable, read, arena, next, order, node, lits);
    GrownReloaded(nodes, literals, id, node, lits, read, arena, next);
    read', arena', next' := read[id := node], arena + Arena(lits, next), next + |lits|;
  }

  /** The arena grown by a node's fresh literals still holds the nodes read before, and
      holds the new one. */
  lemma GrownReloaded(nodes: SatNodes, literals: Literals, id: int, node: SatNode, lits: seq<LiteralObj>,
                      read: SatNodes, arena: Literals, next: int)
    requires Stored(nodes, literals) && id in nodes
    requires NodeReloaded(nodes[id], literals, node, Arena(lits, next))
    requires AllReloaded(nodes, literals, read, arena) && Below(arena, next)
    ensures Below(arena + Arena(lits, next), next + |lits|)
    ensures AllReloaded(nodes, literals, read[id := node], arena + Arena(lits, next))
  {
    StoredNode(nodes, literals, id);
    var grown := arena + Arena(lits, next);
    ArenaIds(lits, next);
    assert SubArena(Arena(lits, next), grown);
    assert SubArena(arena, grown);
    ReloadedGrows(nodes[id], literals, node, Arena(lits, next), grown);
    AllReloadedInsert(nodes, literals, read, arena, grown, id, node);
  }

  /** Growing the arena and adding one node read back keeps all nodes read back. */
  lemma AllReloadedInsert(nodes: SatNodes, literals: Literals, read: SatNodes, arena: Literals, grown: Literals,
                          id: int, node: SatNode)
    requires Stored(nodes, literals) && id in nodes
    requires AllReloaded(nodes, literals, read, arena) && SubArena(arena, grown)
    requires NodeReloaded(nodes[id], literals, node, grown)
    ensures AllReloaded(nodes, literals, read[id := node], grown)
  {
    forall x | x in read[id := node]
      ensures NodeReloaded(nodes[x], literals, read[id := node][x], grown)
    {
      StoredNode(nodes, literals, x);
      if x != id {
        ReloadedGrows(nodes[x], literals, read[x], arena, grown);
      }
    }
  }



  /** `dto` reads back as the node `n`, whatever number its fresh literals start from. */
  ghost predicate ReadsBack(dto: NodeDto, nodes: SatNodes, literals: Literals, id: int, isVariable: string -> bool)
    requires Stored(nodes, literals) && id in nodes
  {
    StoredNode(nodes, literals, id);
    forall next: int {:trigger ReconstructNode(dto, isVariable, next)} ::
      var r := ReconstructNode(dto, isVariable, next);
      r.Ok? && NodeReloaded(nodes[id], literals, r.value.0, Arena(r.value.1, next))
  }

  /** Reading back pairs that each read back as the node of `nodes` under the id `order` gives
      in the same place adds each node, read back, in order. */
  lemma {:induction false} ReadSerialized(nodes: SatNodes, literals: Literals, isVariable: string -> bool,
                                          order: seq<int>, pairs: seq<(int, NodeDto)>,
                                          read: SatNodes, arena: Literals, next: int, acc: seq<int>)
    returns (read': SatNodes, arena': Literals)
    requires Stored(nodes, literals)
    requires |pairs| == |order|
    requires forall i :: 0 <= i < |order| ==> order[i] in nodes && order[i] !in read && pairs[i].0 == order[i]
    requires forall i :: 0 <= i < |order| ==> ReadsBack(pairs[i].1, nodes, literals, order[i], isVariable)
    requires Dags.Distinct(order)
    requires AllReloaded(nodes, literals, read, arena) && Below(arena, next)
    ensures ReadNodes(pairs, isVariable, read, arena, next, acc) == Ok((read', arena', acc + order))
    ensures (forall x :: x in read' <==> x in read || x in order) && AllReloaded(nodes, literals, read', arena')
    decreases |order|
  {
    if order == [] {
      assert acc + order == acc;
      read', arena' := read, arena;
    } else {
      var id, dto := order[0], pairs[0].1;
      StoredNode(nodes, literals, id);
      assert ReadsBack(dto, nodes, literals, id, isVariable);
      var rn := ReconstructNode(dto, isVariable, next);
      var node, lits := rn.value.0, rn.value.1;
      var read1, arena1, next1 := ReadPairReloaded(nodes, literals, isVariable, id, dto, node, lits, read, arena, next, acc);
      assert pairs[0] == (id, dto);
      read', arena' := ReadSerialized(nodes, literals, isVariable, order[1..], pairs[1..], read1, arena1, next1, acc + [id]);
      AppendFirst(acc, order);
    }
  }

  lemma AppendFirst(acc: seq<int>, order: seq<int>)
    requires order != []
    ensures acc + [order[0]] + order[1..] == acc + order
  {
    assert [order[0]] + order[1..] == order;
  }

  /** A dag that is not passive, saved and read back, has the same nodes in the same order,
      each read back: the same fields, and clauses whose literals are fresh copies of the
      original ones in the same places. (The parent links are then recomputed.) */
  lemma DagRoundTrip(nodes: SatNodes, literals: Literals, isVariable: string -> bool, order: seq<int>)
    returns (read': SatNodes, arena': Literals)
    requires Stored(nodes, literals) && Dags.Enumerates(order, nodes.Keys)
    requires forall x :: x in nodes ==> NodeFlagsAgree(nodes[x], literals, isVariable)
    ensures SerializeDag(nodes, literals, false, order).Ok?
    ensures ReconstructDag(SerializeDag(nodes, literals, false, order).value, isVariable) == Ok((read', arena', order))
    ensures read'.Keys == nodes.Keys && AllReloaded(nodes, literals, read', arena')
  {
    var pairs := SerializeNodes(nodes, literals, order);
    read', arena' := ReadAllSerialized(nodes, literals, isVariable, order);
    var dto := SerializeDag(nodes, literals, false, order).value;
    assert dto == DagDto(Some(pairs));
    ReconstructDagIs(dto, pairs, isVariable, Ok((read', arena', order)));
  }

  /** The serialised nodes, read in order into empty tables, give back every node. */
  lemma ReadAllSerialized(nodes: SatNodes, literals: Literals, isVariable: string -> bool, order: seq<int>)
    returns (read': SatNodes, arena': Literals)
    requires Stored(nodes, literals) && Dags.Enumerates(order, nodes.Keys)
    requires forall x :: x in nodes ==> NodeFlagsAgree(nodes[x], literals, isVariable)
    ensures ReadNodes(SerializeNodes(nodes, literals, order), isVariable, map[], map[], 0, []) == Ok((read', arena', order))
    ensures read'.Keys == nodes.Keys && AllReloaded(nodes, literals, read', arena')
  {
    var pairs := SerializeNodes(nodes, literals, order);
    AllReadBack(nodes, literals, isVariable, order);
    read', arena' := ReadSerialized(nodes, literals, isVariable, order, pairs, map[], map[], 0, []);
    SameKeys(read', nodes, order);
    assert [] + order == order;
  }

  lemma SameKeys(read: SatNodes, nodes: SatNodes, order: seq<int>)
    requires forall x :: x in read <==> x in order
    requires Dags.Enumerates(order, nodes.Keys)
    ensures read.Keys == nodes.Keys
  {
    forall x
      ensures x in read <==> x in nodes
    {
      if x in order {
        var i :| 0 <= i < |order| && order[i] == x;
      }
    }
  }

  lemma ReconstructDagIs(dto: DagDto, pairs: seq<(int, NodeDto)>, isVariable: string -> bool,
                         r: Result<(SatNodes, Literals, seq<int>)>)
    requires dto == DagDto(Some(pairs)) && ReadNodes(pairs, isVariable, map[], map[], 0, []) == r
    ensures ReconstructDag(dto, isVariable) == r
  {
  }

  /** Each serialised node reads back as the node it was written from. */
  lemma {:induction false} AllReadBack(nodes: SatNodes, literals: Literals, isVariable: string -> bool, order: seq<int>)
    requires Stored(nodes, literals) && forall i :: 0 <= i < |order| ==> order[i] in nodes
    requires forall x :: x in nodes ==> NodeFlagsAgree(nodes[x], literals, isVariable)
    ensures forall i :: 0 <= i < |order| ==>
              ReadsBack(SerializeNodes(nodes, literals, order)[i].1, nodes, literals, order[i], isVariable)
    decreases |order|
  {
    if order != [] {
      var pairs := SerializeNodes(nodes, literals, order);
      var rest := SerializeNodes(nodes, literals, order[1..]);
      AllReadBack(nodes, literals, isVariable, order[1..]);
      StoredNode(nodes, literals, order[0]);
      SerializedReadsBack(nodes, literals, isVariable, order[0]);
      forall i | 1 <= i < |order|
        ensures ReadsBack(pairs[i].1, nodes, literals, order[i], isVariable)
      {
        assert pairs[i] == rest[i - 1] && order[i] == order[1..][i - 1];
      }
    }
  }

  lemma SerializedReadsBack(nodes: SatNodes, literals: Literals, isVariable: string -> bool, id: int)
    requires Stored(nodes, literals) && id in nodes
    requires NodeFlagsAgree(nodes[id], literals, isVariable)
    ensures ReadsBack(SerializeNode(nodes[id], literals), nodes, literals, id, isVariable)
  {
    StoredNode(nodes, literals, id);
    forall next: int
      ensures var r := ReconstructNode(SerializeNode(nodes[id], literals), isVariable, next);
              r.Ok? && NodeReloaded(nodes[id], literals, r.value.0, Arena(r.value.1, next))
    {
      NodeRoundTrip(nodes[id], literals, isVariable, next);
    }
  }

  /** `deserializeDag` after parsing: the dag read back, with the parent literal of every
      literal computed again. */
  function Deserialized(dto: DagDto, isVariable: string -> bool, matches: ParentLiterals.Matcher): (r: Result<(SatNodes, Literals)>)
  {
    match ReconstructDag(dto, isVariable)
    case Err(e) => Err(e)
    case Ok((nodes, literals, order)) =>
      ReadNodesStored(dto.nodes.value, isVariable, map[], map[], 0, []);
      match ParentLiterals.LinkAll(matches, nodes, literals, literals, order)
      case Err(e) => Err(e)
      case Ok(linked) => Ok((nodes, linked))
  }

  /** `reconstructDag`: the pairs read one after the other into a new node map, a new dag
      over it, and `computeParentLiterals` run on that dag. */
  method DeserializeDag(dto: DagDto, isVariable: string -> bool, matches: ParentLiterals.Matcher) returns (r: Result<SatDag>)
    ensures var spec := Deserialized(dto, isVariable, matches);
            (r.Ok? <==> spec.Ok?) && (r.Err? ==> r.error == spec.error) &&
            (r.Ok? ==> fresh(r.value) && r.value.nodes == spec.value.0 && r.value.literals == spec.value.1 &&
                       !r.value.isPassiveDag)
  {
    if dto.nodes.None? {
      return Err(AssertionFailed);
    }
    var pairs := dto.nodes.value;
    var nodes: SatNodes, literals: Literals, next, order := map[], map[], 0, [];
    for i := 0 to |pairs|
      invariant ReconstructDag(dto, isVariable) == ReadNodes(pairs[i..], isVariable, nodes, literals, next, order)
    {
      var read := ReconstructNode(pairs[i].1, isVariable, next);
      if read.Err? {
        ReadNodesFails(pairs, i, isVariable, nodes, literals, next, order);
        return Err(read.error);
      }
      ghost var (nodes0, literals0, next0, order0) := (nodes, literals, next, order);
      var (node, lits) := read.value;
      var id := pairs[i].0;
      if id !in nodes {
        order := order + [id];
      }
      nodes := nodes[id := node];
      literals := literals + Arena(lits, next);
      next := next + |lits|;
      ReadNodesRead(pairs, i, isVariable, nodes0, literals0, next0, order0, node, lits, nodes, literals, next, order);
    }
    assert pairs[|pairs|..] == [];
    ReadNodesStored(pairs, isVariable, map[], map[], 0, []);
    var dag := new SatDag(nodes, literals, false);
    var linked := ParentLiterals.ComputeParentLiterals(matches, dag, order);
    if linked.Err? {
      return Err(linked.error);
    }
    return Ok(dag);
  }
}
