/** The search for common consequences: the nodes whose derivation contains every id of a
    given set. The older Python backend (proof_visualization/model/search.py) and the
    TypeScript frontend (visualization-frontend/src/model/find-node.ts) walk the dag in
    post-order and keep, for every visited node, the relevant ids found among the node itself
    and its transitive parents. Python merges a parent's set with `update` after indexing the
    dictionary; TypeScript copies it element by element after a `get` cast to a set. */
module Search {
  import opened Wrappers
  import opened Dags
  import opened Traversal
  import opened Transformations

  /** The ids of `relevant` occurring in the derivation of `k`: `k` itself and its
      transitive parents. */
  ghost function RelevantAbove(nodes: NodeTable, relevant: set<int>, k: int): set<int>
  {
    set r | r in relevant && r in nodes && Reach(nodes, k, r)
  }

  /** `k` is a node whose derivation contains every id of `relevant`. */
  ghost predicate IsCommonConsequence(nodes: NodeTable, relevant: set<int>, k: int)
  {
    k in nodes && forall r :: r in relevant ==> r in nodes && Reach(nodes, k, r)
  }

  /** The common consequences among `order`, in the order given. */
  ghost function CommonAmong(nodes: NodeTable, relevant: set<int>, order: seq<int>): seq<int>
  {
    if order == [] then []
    else
      var last := order[|order| - 1];
      CommonAmong(nodes, relevant, order[..|order| - 1]) +
      (if IsCommonConsequence(nodes, relevant, last) then [last] else [])
  }

  /** The node's own contribution: itself when it is relevant. */
  function Own(relevant: set<int>, k: int): set<int>
  {
    if k in relevant then {k} else {}
  }

  /** The union of the recorded sets of `ps`. */
  function UnionOf(table: map<int, set<int>>, ps: seq<int>): set<int>
    requires forall j :: 0 <= j < |ps| ==> ps[j] in table
  {
    if ps == [] then {} else UnionOf(table, ps[..|ps| - 1]) + table[ps[|ps| - 1]]
  }

  /** Every recorded set holds the relevant ids in the derivation of its node. */
  ghost predicate Records(nodes: NodeTable, relevant: set<int>, table: map<int, set<int>>)
  {
    forall k :: k in table ==> table[k] == RelevantAbove(nodes, relevant, k)
  }

  /** The state of the search loop after yielding `emitted`, the set of visited ids. */
  ghost predicate SearchState(nodes: NodeTable, relevant: set<int>, visited: set<int>, emitted: seq<int>,
                              table: map<int, set<int>>, found: seq<int>)
  {
    table.Keys == visited && Records(nodes, relevant, table) &&
    found == CommonAmong(nodes, relevant, emitted)
  }

  // ---------------------------------------------------------------------------------------
  // What the recorded sets and the size test mean

  lemma {:induction false} UnionOfMeaning(table: map<int, set<int>>, ps: seq<int>, r: int)
    requires forall j :: 0 <= j < |ps| ==> ps[j] in table
    ensures r in UnionOf(table, ps) <==> exists j :: 0 <= j < |ps| && r in table[ps[j]]
  {
    if ps != [] {
      var init := ps[..|ps| - 1];
      UnionOfMeaning(table, init, r);
      if r in UnionOf(table, init) {
        var j :| 0 <= j < |init| && r in table[init[j]];
        assert ps[j] == init[j];
      }
      if exists j :: 0 <= j < |ps| && r in table[ps[j]] {
        var j :| 0 <= j < |ps| && r in table[ps[j]];
        if j < |init| {
          assert init[j] == ps[j];
        }
      }
    }
  }

  /** A node's set is its own contribution and the sets of its parents: the recurrence
      both loops compute. */
  lemma RelevantAboveStep(nodes: NodeTable, relevant: set<int>, table: map<int, set<int>>, k: int)
    requires Closed(nodes) && k in nodes && Records(nodes, relevant, table)
    requires forall j :: 0 <= j < |nodes[k].parents| ==> nodes[k].parents[j] in table
    ensures RelevantAbove(nodes, relevant, k) == Own(relevant, k) + UnionOf(table, nodes[k].parents)
  {
    var ps := nodes[k].parents;
    forall r
      ensures r in RelevantAbove(nodes, relevant, k) <==> r in Own(relevant, k) + UnionOf(table, ps)
    {
      UnionOfMeaning(table, ps, r);
      if r in RelevantAbove(nodes, relevant, k) && r != k {
        var p := ReachFirstStep(nodes, k, r);
        var j :| 0 <= j < |ps| && ps[j] == p;
        assert r in table[ps[j]];
      }
      if r in UnionOf(table, ps) {
        var j :| 0 <= j < |ps| && r in table[ps[j]];
        ReachPrepend(nodes, k, ps[j], r);
      }
      if r in Own(relevant, k) {
        ReachRefl(nodes, k);
      }
    }
  }

  /** Sets stay within `relevant`, so equal sizes is the full-containment test. */
  lemma SizeTest(nodes: NodeTable, relevant: set<int>, k: int)
    requires k in nodes
    ensures RelevantAbove(nodes, relevant, k) <= relevant
    ensures |relevant| == |RelevantAbove(nodes, relevant, k)| <==> IsCommonConsequence(nodes, relevant, k)
  {
    var above := RelevantAbove(nodes, relevant, k);
    if |relevant| == |above| && !IsCommonConsequence(nodes, relevant, k) {
      var r :| r in relevant && !(r in nodes && Reach(nodes, k, r));
      SubsetCard(above, relevant - {r});
      assert false;
    }
    if IsCommonConsequence(nodes, relevant, k) {
      forall r | r in relevant ensures r in above {
        assert r in nodes && Reach(nodes, k, r);
      }
      assert above == relevant;
    }
  }

  lemma {:induction false} CommonAmongMeaning(nodes: NodeTable, relevant: set<int>, order: seq<int>, x: int)
    ensures x in CommonAmong(nodes, relevant, order) <==> x in order && IsCommonConsequence(nodes, relevant, x)
  {
    if order != [] {
      var init := order[..|order| - 1];
      CommonAmongMeaning(nodes, relevant, init, x);
      assert order == init + [order[|order| - 1]];
    }
  }

  /** The result lists no id twice when the walk yields none twice. */
  lemma {:induction false} CommonAmongDistinct(nodes: NodeTable, relevant: set<int>, order: seq<int>)
    requires Distinct(order)
    ensures Distinct(CommonAmong(nodes, relevant, order))
  {
    if order != [] {
      var init := order[..|order| - 1];
      var last := order[|order| - 1];
      assert forall i, j :: 0 <= i < j < |init| ==> init[i] == order[i] && init[j] == order[j];
      CommonAmongDistinct(nodes, relevant, init);
      var c0 := CommonAmong(nodes, relevant, init);
      if last in c0 {
        CommonAmongMeaning(nodes, relevant, init, last);
        assert false;
      }
      var c := CommonAmong(nodes, relevant, order);
      if IsCommonConsequence(nodes, relevant, last) {
        assert c == c0 + [last];
      } else {
        assert c == c0;
      }
      forall i, j | 0 <= i < j < |c| ensures c[i] != c[j] {
        assert c[i] == c0[i] && c0[i] in c0;
        if j == |c0| {
          assert c[j] == last;
        } else {
          assert c[j] == c0[j];
          assert c0[i] != c0[j];
        }
      }
    }
  }

  /** With no relevant ids, every traversed node is returned. */
  lemma {:induction false} NothingRelevantKeepsAll(nodes: NodeTable, order: seq<int>)
    requires forall i :: 0 <= i < |order| ==> order[i] in nodes
    ensures CommonAmong(nodes, {}, order) == order
  {
    if order != [] {
      var init := order[..|order| - 1];
      NothingRelevantKeepsAll(nodes, init);
      assert order == init + [order[|order| - 1]];
    }
  }

  /** For a single id `x`, the common consequences are `x` and the nodes having `x` as a
      transitive parent. */
  lemma OneRelevantIsDescendants(nodes: NodeTable, x: int, k: int)
    requires Closed(nodes)
    ensures IsCommonConsequence(nodes, {x}, k) <==> k in Descendants(nodes, {x})
  {
    if k in Descendants(nodes, {x}) && k != x {
      var c := ReachLastStep(nodes, k, x);
    }
  }

  // ---------------------------------------------------------------------------------------
  // The loop

  lemma SearchStart(nodes: NodeTable, relevant: set<int>)
    ensures SearchState(nodes, relevant, {}, [], map[], [])
  {
  }

  lemma SearchStep(nodes: NodeTable, relevant: set<int>, visited: set<int>, emitted: seq<int>,
                   table: map<int, set<int>>, found: seq<int>, id: int, relevantParents: set<int>)
    requires SearchState(nodes, relevant, visited, emitted, table, found)
    requires id in nodes && id !in visited && relevantParents == RelevantAbove(nodes, relevant, id)
    ensures SearchState(nodes, relevant, visited + {id}, emitted + [id], table[id := relevantParents],
                        found + (if |relevant| == |relevantParents| then [id] else []))
  {
    SizeTest(nodes, relevant, id);
    assert (emitted + [id])[..|emitted|] == emitted;
  }

  /** Python's inner loop: each parent's set is looked up (raising `KeyError` when the parent
      was not recorded) and merged with `update`. */
  method RelevantParentsPython(table: map<int, set<int>>, relevantIds: set<int>, currentNodeId: int,
                               parents: seq<int>) returns (r: Result<set<int>>)
    ensures r.Ok? <==> forall j :: 0 <= j < |parents| ==> parents[j] in table
    ensures r.Err? ==> r.error == KeyMissing
    ensures r.Ok? ==> r.value == Own(relevantIds, currentNodeId) + UnionOf(table, parents)
  {
    var relevantParents := if currentNodeId in relevantIds then {currentNodeId} else {};
    for i := 0 to |parents|
      invariant forall j :: 0 <= j < i ==> parents[j] in table
      invariant relevantParents == Own(relevantIds, currentNodeId) + UnionOf(table, parents[..i])
    {
      var parentId := parents[i];
      if parentId !in table {
        return Err(KeyMissing);
      }
      assert parents[..i + 1][..i] == parents[..i];
      relevantParents := relevantParents + table[parentId];
    }
    assert parents[..|parents|] == parents;
    r := Ok(relevantParents);
  }

  /** TypeScript's innermost loop: the elements of one set added one at a time. */
  method AddEach(into: set<int>, from: set<int>) returns (r: set<int>)
    ensures r == into + from
  {
    r := into;
    var rest := from;
    while rest != {}
      invariant rest <= from && r + rest == into + from
      decreases |rest|
    {
      HasElement(rest);
      var x :| x in rest;
      r := r + {x};
      rest := rest - {x};
    }
  }

  /** TypeScript's inner loop: each parent's set is fetched with `get` and cast to a set; a
      missing entry would be `undefined`, which a `for ... of` rejects. */
  method RelevantParentsTypeScript(table: map<int, set<int>>, relevantIds: set<int>, currentNodeId: int,
                                   parents: seq<int>) returns (r: Result<set<int>>)
    ensures r.Ok? <==> forall j :: 0 <= j < |parents| ==> parents[j] in table
    ensures r.Err? ==> r.error == BadType
    ensures r.Ok? ==> r.value == Own(relevantIds, currentNodeId) + UnionOf(table, parents)
  {
    var relevantParents := {};
    if currentNodeId in relevantIds {
      relevantParents := relevantParents + {currentNodeId};
    }
    for i := 0 to |parents|
      invariant forall j :: 0 <= j < i ==> parents[j] in table
      invariant relevantParents == Own(relevantIds, currentNodeId) + UnionOf(table, parents[..i])
    {
      var parentId := parents[i];
      if parentId !in table {
        return Err(BadType);
      }
      assert parents[..i + 1][..i] == parents[..i];
      relevantParents := AddEach(relevantParents, table[parentId]);
    }
    assert parents[..|parents|] == parents;
    r := Ok(relevantParents);
  }

  /** One step of the loop: the yielded node's set is computed from its parents' sets,
      recorded, and the node kept when its set holds every relevant id. */
  method VisitForSearch(flavour: Flavour, nodes: NodeTable, relevantIds: set<int>, ghost visited: set<int>,
                        ghost emitted: seq<int>, table: map<int, set<int>>, found: seq<int>,
                        currentNode: DagNode, ghost id: int)
      returns (table': map<int, set<int>>, found': seq<int>)
    requires Closed(nodes) && KeyedByNumber(nodes)
    requires SearchState(nodes, relevantIds, visited, emitted, table, found)
    requires id in nodes && id !in visited && currentNode == nodes[id]
    requires forall p :: p in nodes[id].parents ==> p in visited
    ensures SearchState(nodes, relevantIds, visited + {id}, emitted + [id], table', found')
  {
    var currentNodeId := currentNode.number;
    forall j | 0 <= j < |currentNode.parents| ensures currentNode.parents[j] in table {
      var p := currentNode.parents[j];
      assert p in nodes[id].parents;
    }
    var r;
    if flavour == Python {
      r := RelevantParentsPython(table, relevantIds, currentNodeId, currentNode.parents);
    } else {
      r := RelevantParentsTypeScript(table, relevantIds, currentNodeId, currentNode.parents);
    }
    if r.Err? {
      // every parent was yielded, and so recorded, before the node itself
      assert false;
    }
    var relevantParents := r.value;
    RelevantAboveStep(nodes, relevantIds, table, id);
    table' := table[currentNodeId := relevantParents];
    found' := found;
    if |relevantIds| == |relevantParents| {
      found' := found' + [currentNodeId];
    }
    SearchStep(nodes, relevantIds, visited, emitted, table, found, id, relevantParents);
  }

  lemma EmittedAll(walk: PostOrder, dag: Dag)
    requires WellFormedDag(dag) && walk.Valid() && walk.dag == dag && walk.Remaining() == {}
    ensures PostOrdered(dag.nodes, walk.emitted) && forall k :: k in walk.emitted <==> k in dag.nodes
  {
    PostOrderVisitedAll(walk, dag);
  }

  /** `findCommonConsequences`: the common consequences of `relevantIds`, in the order the
      post-order walk (returned as `order`) yields them. */
  method FindCommonConsequences(flavour: Flavour, dag: Dag, relevantIds: set<int>)
      returns (commonConsequences: seq<int>, ghost order: seq<int>)
    requires WellFormedDag(dag) && KeyedByNumber(dag.nodes)
    ensures PostOrdered(dag.nodes, order) && forall k :: k in order <==> k in dag.nodes
    ensures commonConsequences == CommonAmong(dag.nodes, relevantIds, order)
  {
    var idToRelevantParents: map<int, set<int>> := map[];
    commonConsequences := [];
    var walk := StartPostOrder(dag);
    var more := HasNextOf(walk, flavour);
    while more
      invariant walk.Valid() && walk.dag == dag
      invariant more <==> walk.Remaining() != {}
      invariant SearchState(dag.nodes, relevantIds, walk.visited, walk.emitted, idToRelevantParents,
                            commonConsequences)
      decreases |walk.Remaining()|
    {
      ghost var visited := walk.visited;
      ghost var emitted := walk.emitted;
      var r;
      ghost var id;
      r, id := walk.GetNext();
      VisitShrinks(walk.Reachable(), visited, id);
      idToRelevantParents, commonConsequences :=
        VisitForSearch(flavour, dag.nodes, relevantIds, visited, emitted, idToRelevantParents,
                       commonConsequences, r.value, id);
      more := HasNextOf(walk, flavour);
    }
    EmittedAll(walk, dag);
    order := walk.emitted;
  }

  /** What the result holds: exactly the nodes whose derivation contains every relevant id,
      each once. */
  lemma FindCommonConsequencesMeaning(dag: Dag, relevantIds: set<int>, order: seq<int>, x: int)
    requires PostOrdered(dag.nodes, order)
    ensures var c := CommonAmong(dag.nodes, relevantIds, order);
            (x in c <==> IsCommonConsequence(dag.nodes, relevantIds, x) && x in order) && Distinct(c)
  {
    CommonAmongMeaning(dag.nodes, relevantIds, order, x);
    CommonAmongDistinct(dag.nodes, relevantIds, order);
  }
}
