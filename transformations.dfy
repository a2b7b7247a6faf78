/** The graph transformations of the Python backends (visualization_backend/model/
    transformations.py and its earlier copy proof_visualization/model/transformations.py) and
    of the TypeScript frontend (visualization-frontend/src/model/transformations.ts): keeping
    the derivations of a set of clauses, keeping the consequences of a set of clauses with
    parentless "Boundary" copies where the kept part starts, and keeping the derivations of
    the activated clauses.

    The generations differ in two ways the model keeps apart. The Python functions alias the
    caller's id set and grow it; TypeScript copies it first. The Python boundary copy is built
    through the node constructor and the time setters, so it strips quotes again and loses the
    deletion data; TypeScript copies every field. The TypeScript `node.copy()` the source calls
    is defined nowhere in it; the model assumes it returns an equal node value. */
module Transformations {
  import opened Wrappers
  import opened Dags
  import opened Traversal
  import Lifecycle
  import ReprUtil

  /** Which generation's boundary copy to build. */
  datatype Flavour = Python | TypeScript

  /** The new, passive and active times are set in lifecycle order, as the node setters
      guarantee for every node built through them. */
  predicate TimesInOrder(n: DagNode)
  {
    (n.passiveTime.Some? ==> n.newTime.Some?) && (n.activeTime.Some? ==> n.passiveTime.Some?)
  }

  /** The setter calls the Python `create_boundary_node` makes on the fresh copy: each time that
      is set on the original, in the order new, passive, active. */
  function BoundaryEvents(n: DagNode): seq<Lifecycle.Event>
  {
    (if n.newTime.Some? then [Lifecycle.New(n.newTime.value)] else []) +
    (if n.passiveTime.Some? then [Lifecycle.Passive(n.passiveTime.value)] else []) +
    (if n.activeTime.Some? then [Lifecycle.Active(n.activeTime.value)] else [])
  }

  /** The setter calls succeed exactly when the original's times are in order, and then leave
      the original's three times and no deletion data. */
  lemma BoundarySetterRun(n: DagNode)
    ensures Lifecycle.Run(Lifecycle.Fresh(), BoundaryEvents(n)).Ok? <==> TimesInOrder(n)
    ensures TimesInOrder(n) ==>
              Lifecycle.Run(Lifecycle.Fresh(), BoundaryEvents(n)) ==
              Ok(Lifecycle.Stamps(n.newTime, n.passiveTime, n.activeTime, None, None))
  {
    var f := Lifecycle.Fresh();
    var a := if n.newTime.Some? then [Lifecycle.New(n.newTime.value)] else [];
    var b := if n.passiveTime.Some? then [Lifecycle.Passive(n.passiveTime.value)] else [];
    var c := if n.activeTime.Some? then [Lifecycle.Active(n.activeTime.value)] else [];
    assert BoundaryEvents(n) == a + b + c;
    assert [] + a == a;
    Lifecycle.RunOptional(f, [], n.newTime.Some?, Lifecycle.New(TimeOr0(n.newTime)));
    Lifecycle.RunOptional(f, a, n.passiveTime.Some?, Lifecycle.Passive(TimeOr0(n.passiveTime)));
    Lifecycle.RunOptional(f, a + b, n.activeTime.Some?, Lifecycle.Active(TimeOr0(n.activeTime)));
    SetterOutcome(n, Lifecycle.Run(f, []), Lifecycle.Run(f, a), Lifecycle.Run(f, a + b), Lifecycle.Run(f, a + b + c));
  }

  function TimeOr0(t: Option<int>): int { if t.Some? then t.value else 0 }

  /** The outcome of the three optional setter calls, step by step. */
  lemma SetterOutcome(n: DagNode, r0: Result<Lifecycle.Stamps>, r1: Result<Lifecycle.Stamps>,
                      r2: Result<Lifecycle.Stamps>, r3: Result<Lifecycle.Stamps>)
    requires r0 == Ok(Lifecycle.Fresh())
    requires r1 == if !n.newTime.Some? || r0.Err? then r0 else Lifecycle.Step(r0.value, Lifecycle.New(TimeOr0(n.newTime)))
    requires r2 == if !n.passiveTime.Some? || r1.Err? then r1 else Lifecycle.Step(r1.value, Lifecycle.Passive(TimeOr0(n.passiveTime)))
    requires r3 == if !n.activeTime.Some? || r2.Err? then r2 else Lifecycle.Step(r2.value, Lifecycle.Active(TimeOr0(n.activeTime)))
    ensures r3.Ok? <==> TimesInOrder(n)
    ensures TimesInOrder(n) ==> r3 == Ok(Lifecycle.Stamps(n.newTime, n.passiveTime, n.activeTime, None, None))
  {
  }

  /** The Python boundary copy: same number, statistics, preprocessing flag and times, the
      clause passed through the constructor's quote removal, rule "Boundary", no parents and
      no deletion data. The setters' assertions hold because the times are in order. */
  function BoundaryPython(n: DagNode): (b: DagNode)
    requires TimesInOrder(n)
    ensures b.number == n.number && b.statistics == n.statistics && b.isFromPreprocessing == n.isFromPreprocessing
    ensures b.clause == ReprUtil.RemoveQuotes(n.clause) && b.inferenceRule == "Boundary" && b.parents == []
    ensures Lifecycle.Run(Lifecycle.Fresh(), BoundaryEvents(n)) ==
            Ok(Lifecycle.Stamps(b.newTime, b.passiveTime, b.activeTime, b.deletionTime, b.deletionParents))
  {
    BoundarySetterRun(n);
    DagNode(n.number, ReprUtil.RemoveQuotes(n.clause), "Boundary", [], n.statistics, n.isFromPreprocessing,
            n.newTime, n.passiveTime, n.activeTime, None, None)
  }

  /** The TypeScript boundary copy: every field kept except the rule, which becomes
      "Boundary", and the parents, which become empty. */
  function BoundaryTypeScript(n: DagNode): (b: DagNode)
    ensures b.inferenceRule == "Boundary" && b.parents == []
    ensures b.(inferenceRule := n.inferenceRule, parents := n.parents) == n
  {
    n.(inferenceRule := "Boundary", parents := [])
  }

  /** The two copies agree except for the deletion data when the clause holds no quote. */
  lemma BoundariesAgree(n: DagNode)
    requires TimesInOrder(n) && forall i :: 0 <= i < |n.clause| ==> n.clause[i] != '\'' && n.clause[i] != '"'
    ensures BoundaryPython(n) == BoundaryTypeScript(n).(deletionTime := None, deletionParents := None)
  {
  }

  function Boundary(flavour: Flavour, n: DagNode): DagNode
    requires flavour == Python ==> TimesInOrder(n)
  {
    if flavour == Python then BoundaryPython(n) else BoundaryTypeScript(n)
  }

  /** Every node of the table has its times in order. */
  predicate AllTimesInOrder(nodes: NodeTable)
  {
    forall k :: k in nodes ==> TimesInOrder(nodes[k])
  }

  // filter_non_parents

  /** An id is an ancestor of `s` exactly when it is in `s` or is a parent of an ancestor. */
  lemma AncestorsByChildren(nodes: NodeTable, s: set<int>, k: int)
    requires k in nodes
    ensures k in Ancestors(nodes, s) <==>
            k in s || exists c :: c in nodes && k in nodes[c].parents && c in Ancestors(nodes, s)
  {
    if k in Ancestors(nodes, s) && k !in s {
      var a := AncestorsElim(nodes, s, k);
      var c := ReachLastStep(nodes, a, k);
      AncestorsIntro(nodes, s, a, c);
    }
    if k in s {
      ReachRefl(nodes, k);
      AncestorsIntro(nodes, s, k, k);
    } else if exists c :: c in nodes && k in nodes[c].parents && c in Ancestors(nodes, s) {
      var c :| c in nodes && k in nodes[c].parents && c in Ancestors(nodes, s);
      var a := AncestorsElim(nodes, s, c);
      ReachAppend(nodes, a, c, k);
      AncestorsIntro(nodes, s, a, k);
    }
  }

  /** The state of `filter_non_parents` once the ids of `done` were handed out: the kept
      nodes are the handed-out ancestors of `relevant`, unchanged, and the grown set adds
      their parents to `relevant`. */
  ghost predicate ParentsFilterState(nodes: NodeTable, relevant: set<int>, done: seq<int>,
                                     kept: NodeTable, grown: set<int>)
  {
    (forall k :: k in kept <==> k in done && k in Ancestors(nodes, relevant)) &&
    (forall k :: k in kept ==> k in nodes && kept[k] == nodes[k]) &&
    grown == relevant + ParentIdsOf(nodes, kept.Keys)
  }

  /** Every node of the table appears in the order. */
  ghost predicate Lists(nodes: NodeTable, order: seq<int>)
  {
    forall k :: k in nodes ==> k in order
  }

  /** The loop of `filter_non_parents`: the reverse post-order `order` of the whole table is
      split into the ids still pending (handed out from the end) and those handed out. */
  ghost predicate ParentsFilterLoop(nodes: NodeTable, relevant: set<int>, order: seq<int>, pending: seq<int>,
                                    done: seq<int>, kept: NodeTable, grown: set<int>)
  {
    PostOrdered(nodes, order) && Lists(nodes, order) && order == pending + done &&
    ParentsFilterState(nodes, relevant, done, kept, grown)
  }

  /** Before anything is handed out, nothing is kept and the set is the caller's. */
  lemma ParentsFilterStart(nodes: NodeTable, relevant: set<int>, order: seq<int>)
    requires PostOrdered(nodes, order) && Lists(nodes, order)
    ensures ParentsFilterLoop(nodes, relevant, order, order, [], map[], relevant)
  {
    assert ParentIdsOf(nodes, {}) == {};
    assert order + [] == order;
  }

  /** In a post-order, a child of the id handed out next was handed out already. */
  lemma ChildHandedOut(nodes: NodeTable, order: seq<int>, pending: seq<int>, id: int, done: seq<int>, c: int)
    requires PostOrdered(nodes, order) && order == pending + [id] + done
    requires c in order && id in nodes[c].parents
    ensures c in done
  {
    var m := |pending|;
    var j :| 0 <= j < |order| && order[j] == c;
    assert id in order[..j];
    var i :| 0 <= i < j && order[..j][i] == id;
    assert order[i] == id && order[m] == id;
    assert m < j;
    assert done[j - m - 1] == c;
  }

  /** When the reverse post-order hands out `id`, all of its children were handed out
      already, so it is in the grown set exactly when it is an ancestor of `relevant`. */
  lemma ParentsFilterDecides(nodes: NodeTable, relevant: set<int>, order: seq<int>, pending: seq<int>, id: int,
                             done: seq<int>, kept: NodeTable, grown: set<int>)
    requires ParentsFilterLoop(nodes, relevant, order, pending + [id], done, kept, grown)
    ensures id in nodes
    ensures id in grown <==> id in Ancestors(nodes, relevant)
  {
    assert order[|pending|] == id;
    AncestorsByChildren(nodes, relevant, id);
    if id in Ancestors(nodes, relevant) && id !in relevant {
      var c :| c in nodes && id in nodes[c].parents && c in Ancestors(nodes, relevant);
      ChildHandedOut(nodes, order, pending, id, done, c);
      assert c in kept;
      assert id in ParentIdsOf(nodes, kept.Keys);
    }
    if id in grown && id !in relevant {
      var c :| c in kept.Keys && c in nodes && id in nodes[c].parents;
    }
  }

  /** One step of the loop keeps its state: the handed-out id is kept, and its parents join
      the set, exactly when it is in the set. */
  lemma ParentsFilterStep(nodes: NodeTable, relevant: set<int>, order: seq<int>, pending: seq<int>, id: int,
                          done: seq<int>, kept: NodeTable, grown: set<int>)
    requires ParentsFilterLoop(nodes, relevant, order, pending + [id], done, kept, grown)
    ensures id in nodes
    ensures id in grown ==>
              ParentsFilterLoop(nodes, relevant, order, pending, [id] + done, kept[id := nodes[id]],
                                grown + (set p | p in nodes[id].parents))
    ensures id !in grown ==> ParentsFilterLoop(nodes, relevant, order, pending, [id] + done, kept, grown)
  {
    ParentsFilterDecides(nodes, relevant, order, pending, id, done, kept, grown);
    assert pending + [id] + done == pending + ([id] + done);
    if id in grown {
      ParentsFilterKeep(nodes, relevant, done, id, kept, grown);
    } else {
      assert forall k :: k in [id] + done <==> k == id || k in done;
    }
  }

  /** Keeping an ancestor adds it to the kept nodes and its parents to the set. */
  lemma ParentsFilterKeep(nodes: NodeTable, relevant: set<int>, done: seq<int>, id: int, kept: NodeTable, grown: set<int>)
    requires ParentsFilterState(nodes, relevant, done, kept, grown)
    requires id in nodes && id in Ancestors(nodes, relevant)
    ensures ParentsFilterState(nodes, relevant, [id] + done, kept[id := nodes[id]], grown + (set p | p in nodes[id].parents))
  {
    var kept' := kept[id := nodes[id]];
    forall k
      ensures k in kept' <==> k in [id] + done && k in Ancestors(nodes, relevant)
    {
      assert k in [id] + done <==> k == id || k in done;
    }
    ParentIdsOfAdd(nodes, kept.Keys, id);
    assert (set p | p in nodes[id].parents) == set j | 0 <= j < |nodes[id].parents| :: nodes[id].parents[j];
    assert kept'.Keys == kept.Keys + {id};
  }

  /** Once the whole order was handed out, the kept nodes are all the ancestors. */
  lemma ParentsFilterDone(nodes: NodeTable, relevant: set<int>, order: seq<int>, done: seq<int>,
                          kept: NodeTable, grown: set<int>)
    requires ParentsFilterLoop(nodes, relevant, order, [], done, kept, grown)
    ensures kept.Keys == Ancestors(nodes, relevant)
  {
    assert done == order;
    forall k
      ensures k in kept.Keys <==> k in Ancestors(nodes, relevant)
    {
      if k in Ancestors(nodes, relevant) {
        assert k in nodes;
        assert k in done;
      }
    }
  }

  /** An order holding the ancestors of the leaves holds every node. */
  lemma ListsAll(nodes: NodeTable, order: seq<int>)
    requires WellFormed(nodes) && forall k :: k in order <==> k in Ancestors(nodes, LeafIds(nodes))
    ensures Lists(nodes, order)
  {
    LeavesReachAll(nodes);
    forall k | k in nodes
      ensures k in order
    {
      assert k in Ancestors(nodes, LeafIds(nodes));
    }
  }

  /** The reverse post-order over a well-formed dag, Python's or TypeScript's: it will hand
      out every node of the table, children before parents. */
  method StartWalk(dag: Dag, unboundCheck: bool) returns (walk: ReversePostOrder)
    requires WellFormedDag(dag)
    ensures fresh(walk) && walk.Valid() && walk.nodes == dag.nodes
    ensures PostOrdered(dag.nodes, walk.ids) && Lists(dag.nodes, walk.ids)
  {
    LeavesAreSinkSeeds(dag);
    if unboundCheck {
      walk := new ReversePostOrder.WithUnboundCheck(dag);
    } else {
      walk := new ReversePostOrder(dag);
    }
    ListsAll(dag.nodes, walk.ids);
  }

  /** `filter_non_parents` and `filterNonParents` on a well-formed dag whose nodes are keyed by
      their numbers: going over the reverse post-order (which hands out every node before its
      parents), a node in the grown set is kept, unchanged, and its parents join the set. The
      kept nodes are exactly the ancestors of `relevant`; the grown set is `relevant` with the
      parents of the kept nodes added. `unboundCheck` selects TypeScript's traversal. */
  method FilterNonParentsCore(dag: Dag, relevant: set<int>, unboundCheck: bool) returns (kept: NodeTable, grown: set<int>)
    requires WellFormedDag(dag) && KeyedByNumber(dag.nodes)
    ensures kept.Keys == Ancestors(dag.nodes, relevant)
    ensures forall k :: k in kept ==> kept[k] == dag.nodes[k]
    ensures grown == relevant + ParentIdsOf(dag.nodes, kept.Keys)
  {
    var walk := StartWalk(dag, unboundCheck);
    ghost var order := walk.ids;
    ghost var done: seq<int> := [];
    ParentsFilterStart(dag.nodes, relevant, order);
    grown := relevant;
    kept := map[];
    while walk.HasNext()
      invariant walk.Valid() && walk.nodes == dag.nodes
      invariant ParentsFilterLoop(dag.nodes, relevant, order, walk.ids, done, kept, grown)
      decreases |walk.ids|
    {
      var r;
      ghost var id;
      r, id := walk.GetNext();
      ParentsFilterStep(dag.nodes, relevant, order, walk.ids, id, done, kept, grown);
      var currentNode := r.value;
      var currentNodeId := currentNode.number;
      assert currentNodeId == id && currentNode == dag.nodes[id];
      if currentNodeId in grown {
        grown := grown + (set p | p in currentNode.parents);
        kept := kept[currentNodeId := currentNode];
      }
      done := [id] + done;
    }
    ParentsFilterDone(dag.nodes, relevant, order, done, kept, grown);
  }

  /** The caller's id set, which the Python filters grow in place. */
  class IdSet {
    var ids: set<int>

    constructor (ids: set<int>)
      ensures this.ids == ids
    {
      this.ids := ids;
    }
  }

  /** The Python `filter_non_parents`: the dag of the ancestors of the caller's ids, whose set
      is grown by the parents of the kept nodes (the "new set" the comment speaks of is the
      caller's own). */
  method FilterNonParentsPython(dag: Dag, relevantIds: IdSet) returns (result: Dag)
    requires WellFormedDag(dag) && KeyedByNumber(dag.nodes)
    modifies relevantIds
    ensures result.nodes.Keys == Ancestors(dag.nodes, old(relevantIds.ids))
    ensures forall k :: k in result.nodes ==> result.nodes[k] == dag.nodes[k]
    ensures result.leaves == LeafIds(result.nodes)
    ensures relevantIds.ids == old(relevantIds.ids) + ParentIdsOf(dag.nodes, result.nodes.Keys)
  {
    var kept, grown := FilterNonParentsCore(dag, relevantIds.ids, false);
    relevantIds.ids := grown;
    result := MakeDag(kept);
  }

  /** The TypeScript `filterNonParents`: the same nodes, computed on a copy of the id set. The
      TypeScript dag keeps no leaves; the result's leaves are those of the kept table. */
  method FilterNonParentsTypeScript(dag: Dag, relevantIds: set<int>) returns (result: NodeTable)
    requires WellFormedDag(dag) && KeyedByNumber(dag.nodes)
    ensures result.Keys == Ancestors(dag.nodes, relevantIds)
    ensures forall k :: k in result ==> result[k] == dag.nodes[k]
  {
    var kept, _ := FilterNonParentsCore(dag, relevantIds, true);
    result := kept;
  }

  /** The result of the parents filter is a well-formed dag again: every parent of a kept node
      is kept. */
  lemma AncestorsClosed(nodes: NodeTable, s: set<int>)
    requires Closed(nodes)
    ensures ParentClosed(nodes, Ancestors(nodes, s))
  {
    forall k, p | k in Ancestors(nodes, s) && p in nodes[k].parents
      ensures p in Ancestors(nodes, s)
    {
      var a := AncestorsElim(nodes, s, k);
      ReachAppend(nodes, a, k, p);
      AncestorsIntro(nodes, s, a, p);
    }
  }

  // filter_non_active_deriving_nodes

  /** The first loop of `filter_non_active_deriving_nodes`: the numbers of the nodes that
      have an activation time, which on a table keyed by number are their keys. */
  method ActivatedNodes(nodes: NodeTable) returns (activated: set<int>)
    requires KeyedByNumber(nodes)
    ensures activated == ActiveIds(nodes)
  {
    activated := {};
    var keys := nodes.Keys;
    while keys != {}
      invariant keys <= nodes.Keys
      invariant activated == ActiveIds(nodes) - keys
      decreases keys
    {
      HasElement(keys);
      var k :| k in keys;
      if nodes[k].activeTime.Some? {
        activated := activated + {nodes[k].number};
      }
      keys := keys - {k};
    }
  }

  /** `filter_non_active_deriving_nodes`: the dag of the activated nodes and all their
      transitive parents. */
  method FilterNonActiveDerivingNodes(dag: Dag) returns (result: Dag)
    requires WellFormedDag(dag) && KeyedByNumber(dag.nodes)
    ensures result.nodes.Keys == Ancestors(dag.nodes, ActiveIds(dag.nodes))
    ensures forall k :: k in result.nodes ==> result.nodes[k] == dag.nodes[k]
    ensures result.leaves == LeafIds(result.nodes)
  {
    var activated := ActivatedNodes(dag.nodes);
    var activatedNodes := new IdSet(activated);
    result := FilterNonParentsPython(dag, activatedNodes);
  }

  // filter_non_consequences

  /** An id is a consequence of `s` exactly when it is in `s` or has a consequence as parent. */
  lemma DescendantsByParents(nodes: NodeTable, s: set<int>, k: int)
    requires Closed(nodes) && k in nodes
    ensures k in Descendants(nodes, s) <==>
            k in s || exists p :: p in nodes[k].parents && p in Descendants(nodes, s)
  {
    if k in Descendants(nodes, s) && k !in s {
      var a :| a in s && Reach(nodes, k, a);
      var p := ReachFirstStep(nodes, k, a);
      assert p in nodes && p in Descendants(nodes, s);
    }
    if k in s {
      ReachRefl(nodes, k);
      assert k in Descendants(nodes, s);
    } else if exists p :: p in nodes[k].parents && p in Descendants(nodes, s) {
      var p :| p in nodes[k].parents && p in Descendants(nodes, s);
      var a :| a in s && Reach(nodes, p, a);
      ReachPrepend(nodes, k, p, a);
      assert k in Descendants(nodes, s);
    }
  }

  /** Some parent of `k` is in `d`. */
  ghost predicate HasParentIn(nodes: NodeTable, d: set<int>, k: int)
  {
    k in nodes && exists p :: p in nodes[k].parents && p in d
  }

  /** Once the ids of `visited` were handed out, the consequences filter holds an entry for `k`
      when `k` is a handed-out consequence, or a parent outside the consequences `d` of a
      handed-out consequence that has a consequence parent. */
  ghost predicate Contributes(nodes: NodeTable, d: set<int>, visited: set<int>, k: int)
  {
    k in nodes &&
    ((k in visited && k in d) ||
     (k !in d && exists c :: c in visited && c in d && c in nodes && k in nodes[c].parents && HasParentIn(nodes, d, c)))
  }

  /** The Python boundary copies need ordered times; TypeScript copies any node. */
  ghost predicate CanCopy(flavour: Flavour, nodes: NodeTable)
  {
    flavour == Python ==> AllTimesInOrder(nodes)
  }

  /** The entry the consequences filter holds for `k`: the node itself when it is a consequence
      with a consequence parent, its boundary copy otherwise. */
  ghost function Kept(flavour: Flavour, nodes: NodeTable, d: set<int>, k: int): DagNode
    requires k in nodes && CanCopy(flavour, nodes)
  {
    if k in d && HasParentIn(nodes, d, k) then nodes[k] else Boundary(flavour, nodes[k])
  }

  /** What `filter_non_consequences` computes: the consequences of `relevant`, each with its
      derivation cut off where it leaves the consequences. A consequence none of whose parents
      is a consequence becomes a parentless boundary copy; the other parents of a consequence
      whose derivation continues inside are kept as boundary copies. */
  ghost function Consequences(flavour: Flavour, nodes: NodeTable, relevant: set<int>): NodeTable
    requires CanCopy(flavour, nodes)
  {
    var d := Descendants(nodes, relevant);
    map k | k in nodes && Contributes(nodes, d, nodes.Keys, k) :: Kept(flavour, nodes, d, k)
  }

  /** The consequences filter gives a dag again: every parent of a kept node is kept, and the
      boundary copies have no parents. */
  lemma ConsequencesClosed(flavour: Flavour, nodes: NodeTable, relevant: set<int>)
    requires Closed(nodes) && CanCopy(flavour, nodes)
    ensures Closed(Consequences(flavour, nodes, relevant))
    ensures forall k :: k in Consequences(flavour, nodes, relevant) ==>
              Consequences(flavour, nodes, relevant)[k].parents == [] ||
              Consequences(flavour, nodes, relevant)[k] == nodes[k]
  {
    var d := Descendants(nodes, relevant);
    var c := Consequences(flavour, nodes, relevant);
    forall k, p | k in c && p in c[k].parents
      ensures p in c
    {
      assert k in d && HasParentIn(nodes, d, k) && c[k] == nodes[k];
      assert p in nodes;
      if p !in d {
        assert Contributes(nodes, d, nodes.Keys, p);
      }
    }
  }

  /** Every consequence is kept, as itself or as a boundary copy; the other kept nodes are
      boundary copies of parents of kept nodes, so none of them is a conclusion of the result. */
  lemma ConsequencesKept(flavour: Flavour, nodes: NodeTable, relevant: set<int>)
    requires CanCopy(flavour, nodes)
    ensures Descendants(nodes, relevant) <= Consequences(flavour, nodes, relevant).Keys
    ensures forall k :: k in Consequences(flavour, nodes, relevant) && k !in Descendants(nodes, relevant) ==>
              Consequences(flavour, nodes, relevant)[k].inferenceRule == "Boundary" &&
              k !in LeafIds(Consequences(flavour, nodes, relevant))
  {
    var d := Descendants(nodes, relevant);
    var c := Consequences(flavour, nodes, relevant);
    forall k | k in d
      ensures k in c
    {
      assert Contributes(nodes, d, nodes.Keys, k);
    }
    forall k | k in c && k !in d
      ensures k !in LeafIds(c)
    {
      var ch :| ch in nodes.Keys && ch in d && ch in nodes && k in nodes[ch].parents && HasParentIn(nodes, d, ch);
      assert ch in c && c[ch] == nodes[ch];
      assert k in ParentIdsOf(c, c.Keys);
    }
  }

  /** The state of the filter's loop once the ids of `visited` were handed out: the set holds
      `relevant` and the handed-out consequences, the table the entries they contribute. */
  ghost predicate ConsequencesState(flavour: Flavour, nodes: NodeTable, relevant: set<int>, visited: set<int>,
                                    found: set<int>, remaining: NodeTable)
  {
    var d := Descendants(nodes, relevant);
    CanCopy(flavour, nodes) &&
    (forall k :: k in found <==> k in relevant || (k in visited && k in d)) &&
    (forall k :: k in remaining <==> Contributes(nodes, d, visited, k)) &&
    (forall k :: k in remaining ==> k in nodes && remaining[k] == Kept(flavour, nodes, d, k))
  }

  /** Nothing handed out: the set is the caller's, the table empty. */
  lemma ConsequencesStart(flavour: Flavour, nodes: NodeTable, relevant: set<int>)
    requires CanCopy(flavour, nodes)
    ensures ConsequencesState(flavour, nodes, relevant, {}, relevant, map[])
  {
  }

  /** When a node is handed out after all its parents, the set tells of each parent whether it
      is a consequence, and the node is one exactly when it is in `relevant` or has a
      consequence parent. */
  lemma ConsequencesDecide(flavour: Flavour, nodes: NodeTable, relevant: set<int>, visited: set<int>,
                           found: set<int>, remaining: NodeTable, x: int)
    requires Closed(nodes) && ConsequencesState(flavour, nodes, relevant, visited, found, remaining)
    requires x in nodes && x !in visited && forall p :: p in nodes[x].parents ==> p in visited
    ensures forall p :: p in nodes[x].parents ==> (p in found <==> p in Descendants(nodes, relevant))
    ensures (exists p :: p in nodes[x].parents && p in found) <==> HasParentIn(nodes, Descendants(nodes, relevant), x)
    ensures x in Descendants(nodes, relevant) <==> x in found || HasParentIn(nodes, Descendants(nodes, relevant), x)
  {
    var d := Descendants(nodes, relevant);
    forall p | p in nodes[x].parents
      ensures p in found <==> p in d
    {
      if p in relevant {
        ReachRefl(nodes, p);
        assert p in d;
      }
    }
    DescendantsByParents(nodes, relevant, x);
  }

  /** Handing out a node that is no consequence changes nothing. */
  lemma ConsequencesSkip(flavour: Flavour, nodes: NodeTable, relevant: set<int>, visited: set<int>,
                         found: set<int>, remaining: NodeTable, x: int)
    requires ConsequencesState(flavour, nodes, relevant, visited, found, remaining)
    requires x !in Descendants(nodes, relevant)
    ensures ConsequencesState(flavour, nodes, relevant, visited + {x}, found, remaining)
  {
    var d := Descendants(nodes, relevant);
    forall k
      ensures Contributes(nodes, d, visited + {x}, k) <==> Contributes(nodes, d, visited, k)
    {
      if Contributes(nodes, d, visited + {x}, k) && !(k in visited + {x} && k in d) {
        var c :| c in visited + {x} && c in d && c in nodes && k in nodes[c].parents && HasParentIn(nodes, d, c);
        assert c in visited;
      }
    }
  }

  /** Handing out a consequence `x`: after the boundary copies of its parents outside the set
      were added (when it has a consequence parent), storing its own entry gives the state with
      `x` handed out and in the set. */
  lemma ConsequencesKeep(flavour: Flavour, nodes: NodeTable, relevant: set<int>, visited: set<int>,
                         found: set<int>, remaining: NodeTable, x: int, withParents: NodeTable)
    requires Closed(nodes) && ConsequencesState(flavour, nodes, relevant, visited, found, remaining)
    requires x in nodes && x in Descendants(nodes, relevant) && x !in visited
    requires forall p :: p in nodes[x].parents ==> p in visited && (p in found <==> p in Descendants(nodes, relevant))
    requires forall k :: k in withParents <==>
               k in remaining || (HasParentIn(nodes, Descendants(nodes, relevant), x) && k in nodes[x].parents && k !in found + {x})
    requires forall k :: k in withParents ==>
               (k in remaining && withParents[k] == remaining[k]) ||
               (k in nodes[x].parents && k !in found + {x} && withParents[k] == Boundary(flavour, nodes[k]))
    ensures ConsequencesState(flavour, nodes, relevant, visited + {x}, found + {x},
                              withParents[x := Kept(flavour, nodes, Descendants(nodes, relevant), x)])
  {
    var d := Descendants(nodes, relevant);
    var kept := withParents[x := Kept(flavour, nodes, d, x)];
    KeepContributes(flavour, nodes, d, visited, found, remaining, x, withParents);
    forall k | k in kept
      ensures k in nodes && kept[k] == Kept(flavour, nodes, d, k)
    {
      if k != x && !(k in remaining && withParents[k] == remaining[k]) {
        assert k in nodes && k !in d;
      }
    }
  }

  /** The membership half of `ConsequencesKeep`. */
  lemma KeepContributes(flavour: Flavour, nodes: NodeTable, d: set<int>, visited: set<int>,
                        found: set<int>, remaining: NodeTable, x: int, withParents: NodeTable)
    requires Closed(nodes) && x in nodes && x in d && x !in visited
    requires forall k :: k in remaining <==> Contributes(nodes, d, visited, k)
    requires forall p :: p in nodes[x].parents ==> p in visited && (p in found <==> p in d)
    requires forall k :: k in withParents <==>
               k in remaining || (HasParentIn(nodes, d, x) && k in nodes[x].parents && k !in found + {x})
    ensures forall k :: k in withParents || k == x <==> Contributes(nodes, d, visited + {x}, k)
  {
    var v' := visited + {x};
    forall k
      ensures k in withParents || k == x <==> Contributes(nodes, d, v', k)
    {
      if Contributes(nodes, d, v', k) && k != x && !(k in v' && k in d) {
        var c :| c in v' && c in d && c in nodes && k in nodes[c].parents && HasParentIn(nodes, d, c);
        if c != x {
          assert Contributes(nodes, d, visited, k);
        } else {
          assert k !in found;
        }
      }
      if k in withParents && k !in remaining && k != x {
        assert k in nodes[x].parents && k !in d && k in nodes;
        assert Contributes(nodes, d, v', k);
      }
      if k in remaining && k != x {
        assert Contributes(nodes, d, visited, k);
      }
    }
  }

  /** Once every node was handed out, the table is the consequences and the set holds
      `relevant` and all consequences. */
  lemma ConsequencesDone(flavour: Flavour, nodes: NodeTable, relevant: set<int>, found: set<int>, remaining: NodeTable)
    requires ConsequencesState(flavour, nodes, relevant, nodes.Keys, found, remaining)
    ensures remaining == Consequences(flavour, nodes, relevant)
    ensures found == relevant + Descendants(nodes, relevant)
  {
    ConsequencesTableDone(flavour, nodes, relevant, found, remaining);
    var d := Descendants(nodes, relevant);
    assert forall k :: k in found <==> k in relevant || (k in nodes.Keys && k in d);
    assert found == relevant + d by {
      assert d <= nodes.Keys;
    }
  }

  lemma ConsequencesTableDone(flavour: Flavour, nodes: NodeTable, relevant: set<int>, found: set<int>, remaining: NodeTable)
    requires ConsequencesState(flavour, nodes, relevant, nodes.Keys, found, remaining)
    ensures remaining == Consequences(flavour, nodes, relevant)
  {
    var d := Descendants(nodes, relevant);
    var c := Consequences(flavour, nodes, relevant);
    forall k | k in remaining ensures k in c && c[k] == remaining[k] {
      assert Contributes(nodes, d, nodes.Keys, k);
    }
    forall k | k in c ensures k in remaining {
      assert Contributes(nodes, d, nodes.Keys, k);
    }
    SameTable(remaining, c);
  }

  /** Two tables with the same keys and the same entries are equal. */
  lemma SameTable(a: NodeTable, b: NodeTable)
    requires forall k :: k in a ==> k in b && b[k] == a[k]
    requires forall k :: k in b ==> k in a
    ensures a == b
  {
    assert forall k :: k in a <==> k in b;
    assert forall k :: k in a ==> a[k] == b[k];
  }

  /** The post-order over a well-formed dag visits every node. */
  lemma PostOrderVisitedAll(walk: PostOrder, dag: Dag)
    requires WellFormedDag(dag) && walk.Valid() && walk.dag == dag && walk.Remaining() == {}
    ensures walk.visited == dag.nodes.Keys
  {
    walk.VisitedAll();
    LeavesReachAll(dag.nodes);
  }

  /** The post-order over a well-formed dag, before anything is handed out. */
  method StartPostOrder(dag: Dag) returns (walk: PostOrder)
    requires WellFormedDag(dag)
    ensures fresh(walk) && walk.Valid() && walk.dag == dag && walk.visited == {}
  {
    LeavesAreSinkSeeds(dag);
    walk := new PostOrder(dag);
  }

  /** Python's `has_next` or TypeScript's unbound `hasNext`. */
  method HasNextOf(walk: PostOrder, flavour: Flavour) returns (b: bool)
    requires walk.Valid()
    modifies walk
    ensures walk.Valid() && walk.visited == old(walk.visited) && walk.emitted == old(walk.emitted)
    ensures b <==> walk.Remaining() != {}
  {
    if flavour == Python {
      b := walk.HasNext();
    } else {
      b := walk.HasNextUnbound();
    }
  }

  /** The first inner loop: whether some parent is in the set. */
  method ExistsRelevantParent(parents: seq<int>, found: set<int>) returns (existsRelevantParent: bool)
    ensures existsRelevantParent <==> exists p :: p in parents && p in found
  {
    existsRelevantParent := false;
    for i := 0 to |parents|
      invariant existsRelevantParent <==> exists p :: p in parents[..i] && p in found
    {
      assert parents[..i + 1] == parents[..i] + [parents[i]];
      if parents[i] in found {
        existsRelevantParent := true;
        var w := parents[i];
        assert w in parents[..i + 1] && w in found;
      }
    }
    assert parents[..|parents|] == parents;
  }

  /** A parent of a node is a node with a child, and its boundary copy keeps its number. */
  lemma ParentCopy(dag: Dag, flavour: Flavour, x: int, p: int)
    requires WellFormedDag(dag) && KeyedByNumber(dag.nodes) && CanCopy(flavour, dag.nodes)
    requires x in dag.nodes && p in dag.nodes[x].parents
    ensures p in dag.nodes && p !in dag.leaves
    ensures (flavour == Python ==> TimesInOrder(dag.nodes[p])) && Boundary(flavour, dag.nodes[p]).number == p
  {
  }

  /** One step of `AddBoundaryParents`. */
  lemma BoundaryParentsStep(parents: seq<int>, i: nat, found: set<int>, remaining: NodeTable,
                            before: NodeTable, after: NodeTable, boundaryOf: map<int, DagNode>)
    requires i < |parents| && forall j :: 0 <= j < |parents| ==> parents[j] in boundaryOf
    requires forall k :: k in before <==> k in remaining || (k in parents[..i] && k !in found)
    requires forall k :: k in before ==>
               before[k] == if k in parents[..i] && k !in found then boundaryOf[k] else remaining[k]
    requires after == if parents[i] in found then before else before[parents[i] := boundaryOf[parents[i]]]
    ensures forall k :: k in after <==> k in remaining || (k in parents[..i + 1] && k !in found)
    ensures forall k :: k in after ==>
              after[k] == if k in parents[..i + 1] && k !in found then boundaryOf[k] else remaining[k]
  {
    assert parents[..i + 1] == parents[..i] + [parents[i]];
  }

  /** The second inner loop: each parent of `x` outside the set is stored as a boundary copy.
      Such a parent has a child, so it is no leaf of the dag. */
  method AddBoundaryParents(dag: Dag, flavour: Flavour, x: int, found: set<int>, remaining: NodeTable)
      returns (withParents: NodeTable)
    requires WellFormedDag(dag) && KeyedByNumber(dag.nodes) && CanCopy(flavour, dag.nodes) && x in dag.nodes
    ensures forall k :: k in withParents <==> k in remaining || (k in dag.nodes[x].parents && k !in found)
    ensures forall k :: k in withParents ==>
              withParents[k] == if k in dag.nodes[x].parents && k !in found then Boundary(flavour, dag.nodes[k]) else remaining[k]
  {
    var parents := dag.nodes[x].parents;
    ghost var boundaryOf := map k | k in parents :: Boundary(flavour, dag.nodes[k]);
    assert forall j :: 0 <= j < |parents| ==> parents[j] in boundaryOf;
    withParents := remaining;
    for i := 0 to |parents|
      invariant forall k :: k in withParents <==> k in remaining || (k in parents[..i] && k !in found)
      invariant forall k :: k in withParents ==>
                  withParents[k] == if k in parents[..i] && k !in found then boundaryOf[k] else remaining[k]
    {
      ghost var before := withParents;
      var parentId := parents[i];
      assert boundaryOf[parentId] == Boundary(flavour, dag.nodes[parentId]);
      withParents := AddBoundaryParent(dag, flavour, x, found, parentId, withParents);
      BoundaryParentsStep(parents, i, found, remaining, before, withParents, boundaryOf);
    }
    assert parents[..|parents|] == parents;
  }

  /** The body of the second inner loop for the parent `parentId` of `x`. */
  method AddBoundaryParent(dag: Dag, flavour: Flavour, x: int, found: set<int>, parentId: int, withParents: NodeTable)
      returns (r: NodeTable)
    requires WellFormedDag(dag) && KeyedByNumber(dag.nodes) && CanCopy(flavour, dag.nodes)
    requires x in dag.nodes && parentId in dag.nodes[x].parents
    ensures parentId in dag.nodes
    ensures r == if parentId in found then withParents else withParents[parentId := Boundary(flavour, dag.nodes[parentId])]
  {
    r := withParents;
    if parentId !in found {
      ParentCopy(dag, flavour, x, parentId);
      var boundaryNode := Boundary(flavour, dag.nodes[parentId]);
      var boundaryNodeId := boundaryNode.number;
      assert boundaryNodeId !in dag.leaves;
      r := r[boundaryNodeId := boundaryNode];
    }
  }

  /** The body of the filter's loop for the handed-out node `currentNode`, all of whose
      parents were handed out before it. */
  method VisitForConsequences(dag: Dag, flavour: Flavour, relevant: set<int>, ghost visited: set<int>,
                              found: set<int>, remaining: NodeTable, handedOut: DagNode, ghost id: int)
      returns (found': set<int>, remaining': NodeTable)
    requires WellFormedDag(dag) && KeyedByNumber(dag.nodes)
    requires ConsequencesState(flavour, dag.nodes, relevant, visited, found, remaining)
    requires id in dag.nodes && id !in visited && handedOut == dag.nodes[id]
    requires forall p :: p in dag.nodes[id].parents ==> p in visited
    ensures ConsequencesState(flavour, dag.nodes, relevant, visited + {id}, found', remaining')
  {
    ghost var d := Descendants(dag.nodes, relevant);
    var currentNode := handedOut;
    var currentNodeId := currentNode.number;
    ConsequencesDecide(flavour, dag.nodes, relevant, visited, found, remaining, id);
    var existsRelevantParent := ExistsRelevantParent(currentNode.parents, found);
    assert existsRelevantParent <==> HasParentIn(dag.nodes, d, id);
    var isRelevant := currentNodeId in found || existsRelevantParent;
    found', remaining' := found, remaining;
    if isRelevant {
      found' := found + {currentNodeId};
      if existsRelevantParent {
        remaining' := AddBoundaryParents(dag, flavour, currentNodeId, found', remaining);
      } else {
        currentNode := Boundary(flavour, currentNode);
      }
      ConsequencesKeep(flavour, dag.nodes, relevant, visited, found, remaining, id, remaining');
      remaining' := remaining'[currentNodeId := currentNode];
    } else {
      ConsequencesSkip(flavour, dag.nodes, relevant, visited, found, remaining, id);
    }
  }

  /** `filter_non_consequences` and `filterNonConsequences` on a well-formed dag keyed by
      number: going over the post-order (which hands out every node after its parents), a node
      that is in the set or has a parent in it joins the set and is stored, as itself when it
      has a parent in the set (and then each parent outside the set is stored as a boundary
      copy) and as a boundary copy otherwise. The result is `Consequences`; the set ends as
      `relevant` with all consequences added. */
  method FilterNonConsequencesCore(dag: Dag, relevant: set<int>, flavour: Flavour)
      returns (remaining: NodeTable, found: set<int>)
    requires WellFormedDag(dag) && KeyedByNumber(dag.nodes) && CanCopy(flavour, dag.nodes)
    ensures remaining == Consequences(flavour, dag.nodes, relevant)
    ensures found == relevant + Descendants(dag.nodes, relevant)
  {
    ghost var d := Descendants(dag.nodes, relevant);
    found := relevant;
    remaining := map[];
    ConsequencesStart(flavour, dag.nodes, relevant);
    var walk := StartPostOrder(dag);
    var more := HasNextOf(walk, flavour);
    while more
      invariant walk.Valid() && walk.dag == dag
      invariant more <==> walk.Remaining() != {}
      invariant ConsequencesState(flavour, dag.nodes, relevant, walk.visited, found, remaining)
      decreases |walk.Remaining()|
    {
      ghost var visited := walk.visited;
      var r;
      ghost var id;
      r, id := walk.GetNext();
      VisitShrinks(walk.Reachable(), visited, id);
      found, remaining := VisitForConsequences(dag, flavour, relevant, visited, found, remaining, r.value, id);
      more := HasNextOf(walk, flavour);
    }
    PostOrderVisitedAll(walk, dag);
    ConsequencesDone(flavour, dag.nodes, relevant, found, remaining);
  }

  /** The Python `filter_non_consequences`: the caller's set grows by every consequence. */
  method FilterNonConsequencesPython(dag: Dag, relevantIds: IdSet) returns (result: Dag)
    requires WellFormedDag(dag) && KeyedByNumber(dag.nodes) && AllTimesInOrder(dag.nodes)
    modifies relevantIds
    ensures result.nodes == Consequences(Python, dag.nodes, old(relevantIds.ids))
    ensures result.leaves == LeafIds(result.nodes)
    ensures relevantIds.ids == old(relevantIds.ids) + Descendants(dag.nodes, old(relevantIds.ids))
  {
    var remaining, found := FilterNonConsequencesCore(dag, relevantIds.ids, Python);
    relevantIds.ids := found;
    result := MakeDag(remaining);
  }

  /** The TypeScript `filterNonConsequences`: the same on a copy of the set, with the
      TypeScript boundary copies. */
  method FilterNonConsequencesTypeScript(dag: Dag, relevantIds: set<int>) returns (result: NodeTable)
    requires WellFormedDag(dag) && KeyedByNumber(dag.nodes)
    ensures result == Consequences(TypeScript, dag.nodes, relevantIds)
  {
    var remaining, _ := FilterNonConsequencesCore(dag, relevantIds, TypeScript);
    result := remaining;
  }
}
