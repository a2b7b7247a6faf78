/** The dag of the newer frontend as its clause-orientation and serialization code sees it
    (src/model/clause-orientation.ts, src/model/serialization.ts; the classes themselves, in
    src/model/dag.ts, sat-node.ts, unit.ts and literal.ts, are not part of this model). A
    literal is an object whose identity matters (`===`), so the literals live in an arena
    keyed by `LitId`, and clauses hold lists of those ids. */
module SatModel {
  import opened Wrappers
  import opened Substitutions

  type LitId = int

  /** Why a literal sits where it sits: chosen by the user, inherited from a parent literal,
      guessed by the heuristic, or not decided yet (`"none"`). */
  datatype Reason = User | Inherited | Heuristic | NoReason

  /** A literal object: its content, its display flags, its orientation reason, and the
      literal of the parent clause it comes from (`literalInParent`). */
  datatype LiteralObj = LiteralObj(name: string, args: seq<STerm>, negated: bool,
                                   isSelected: bool, representation: int, hideBracketsAssoc: bool,
                                   nonStrictForNegatedStrictInequalities: bool,
                                   orientationReason: Reason, literalInParent: Option<LitId>)
  {
    /** What literal comparison looks at. */
    function Content(): SLiteral { SLiteral(name, args, negated) }
  }

  /** A clause: its literals in the order of the new event, its three oriented lists, and its
      literals in the order of the active event when it was activated. */
  datatype Clause = Clause(literalsNewEvent: seq<LitId>, premiseLiterals: seq<LitId>,
                           conclusionLiterals: seq<LitId>, contextLiterals: seq<LitId>,
                           literalsActiveEvent: Option<seq<LitId>>)
  {
    /** `premiseLiterals.concat(conclusionLiterals, contextLiterals)`. */
    function Oriented(): seq<LitId> { premiseLiterals + conclusionLiterals + contextLiterals }
  }

  datatype Unit = FormulaUnit(formula: string) | ClauseUnit(clause: Clause)

  /** A node of the dag; `null` times are `None`. */
  datatype SatNode = SatNode(id: int, unit: Unit, inferenceRule: string, parents: seq<int>,
                             statistics: map<string, int>, isFromPreprocessing: bool,
                             newTime: Option<int>, activeTime: Option<int>, deletionTime: Option<int>,
                             deletionParents: seq<int>, isBoundary: bool)

  type SatNodes = map<int, SatNode>
  type Literals = map<LitId, LiteralObj>

  /** The dag whose clauses and literals the orientation code updates in place. */
  class SatDag {
    var nodes: SatNodes
    var literals: Literals
    const isPassiveDag: bool

    constructor (nodes: SatNodes, literals: Literals, isPassiveDag: bool)
      ensures this.nodes == nodes && this.literals == literals && this.isPassiveDag == isPassiveDag
    {
      this.nodes := nodes;
      this.literals := literals;
      this.isPassiveDag := isPassiveDag;
    }
  }

  /** `dag.get(id)`: the node, or a failure for an id that is not in the dag. */
  function Get(nodes: SatNodes, id: int): (r: Result<SatNode>)
    ensures r.Ok? <==> id in nodes
    ensures r.Ok? ==> r.value == nodes[id]
  {
    if id in nodes then Ok(nodes[id]) else Err(KeyMissing)
  }

  /** Every literal id the clause names, in any of its lists, is in the arena. */
  predicate ClauseStored(c: Clause, literals: Literals)
  {
    (forall k :: 0 <= k < |c.literalsNewEvent| ==> c.literalsNewEvent[k] in literals) &&
    (forall k :: 0 <= k < |c.premiseLiterals| ==> c.premiseLiterals[k] in literals) &&
    (forall k :: 0 <= k < |c.conclusionLiterals| ==> c.conclusionLiterals[k] in literals) &&
    (forall k :: 0 <= k < |c.contextLiterals| ==> c.contextLiterals[k] in literals) &&
    (c.literalsActiveEvent.Some? ==> forall k :: 0 <= k < |c.literalsActiveEvent.value| ==> c.literalsActiveEvent.value[k] in literals)
  }

  /** Every literal id a clause of the dag names, and every parent literal a literal names,
      is in the arena: the references of the object graph all lead somewhere. */
  predicate Stored(nodes: SatNodes, literals: Literals)
  {
    (forall id :: id in nodes && nodes[id].unit.ClauseUnit? ==> ClauseStored(nodes[id].unit.clause, literals)) &&
    LinksStored(literals)
  }

  /** Every parent literal a literal names is in the arena. */
  predicate LinksStored(literals: Literals)
  {
    forall x :: x in literals && literals[x].literalInParent.Some? ==> literals[x].literalInParent.value in literals
  }

  lemma StoredNode(nodes: SatNodes, literals: Literals, id: int)
    requires Stored(nodes, literals) && id in nodes
    ensures nodes[id].unit.ClauseUnit? ==> ClauseStored(nodes[id].unit.clause, literals)
  {
  }
}
