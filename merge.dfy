// Merging of preprocessing chains: the Python `merge_preprocessing`, which rewrites the parent
// lists of the dag's nodes in place and keeps what the old leaves still reach, and the
// TypeScript `mergePreprocessing`, which rewrites a copy of the table and deletes the ids it
// merged away.

module Merge {
  import opened Wrappers
  import opened Dags
  import opened Traversal
  import opened Transformations

  /** Parentless parents with this rule are dropped: they belong to the background theory. */
  const ChoiceAxiom := "choice axiom"

  /** A rank witnessing that the table is acyclic, fixed once for all. */
  ghost function RankOf(nodes: NodeTable): (rank: map<int, nat>)
    requires WellFormed(nodes)
    ensures RankedBy(nodes, rank)
  {
    var rank :| RankedBy(nodes, rank); rank
  }

  /** What a parent `p` contributes to the new parent list of a preprocessing node, given
      the parent as it stands after its own merge: itself when it has no parents left (unless
      it is a choice axiom), and otherwise its parents. */
  function Contribution(p: int, parentNode: DagNode): seq<int>
  {
    if |parentNode.parents| == 0 then
      (if parentNode.inferenceRule != ChoiceAxiom then [p] else [])
    else
      parentNode.parents
  }

  /** The parent list of `k` once the merge went over it: unchanged for a node outside
      preprocessing, and otherwise the contributions of its parents, in order. */
  ghost function MergedParents(nodes: NodeTable, k: int): seq<int>
    requires WellFormed(nodes) && k in nodes
    decreases RankOf(nodes)[k], |nodes[k].parents| + 1
  {
    if nodes[k].isFromPreprocessing then MergeOver(nodes, k, |nodes[k].parents|) else nodes[k].parents
  }

  /** The contributions of the first `n` parents of `k`. */
  ghost function MergeOver(nodes: NodeTable, k: int, n: nat): seq<int>
    requires WellFormed(nodes) && k in nodes && n <= |nodes[k].parents|
    decreases RankOf(nodes)[k], n
  {
    if n == 0 then []
    else
      var p := nodes[k].parents[n - 1];
      RankStep(nodes, RankOf(nodes), k, p);
      MergeOver(nodes, k, n - 1) + Contribution(p, nodes[p].(parents := MergedParents(nodes, p)))
  }

  /** The node `k` once the merge went over it. */
  ghost function MergedNode(nodes: NodeTable, k: int): DagNode
    requires WellFormed(nodes) && k in nodes
  {
    nodes[k].(parents := MergedParents(nodes, k))
  }

  /** The whole table after the merge: same ids, and only preprocessing nodes change. */
  ghost function Merged(nodes: NodeTable): (r: NodeTable)
    requires WellFormed(nodes)
    ensures r.Keys == nodes.Keys
    ensures forall k :: k in nodes && !nodes[k].isFromPreprocessing ==> r[k] == nodes[k]
    ensures forall k :: k in nodes ==> r[k].(parents := nodes[k].parents) == nodes[k]
  {
    map k | k in nodes :: MergedNode(nodes, k)
  }

  /** The assertion of both versions: every parent of a preprocessing node is from
      preprocessing too. */
  predicate Checked(nodes: NodeTable, k: int)
  {
    k in nodes && nodes[k].isFromPreprocessing ==>
      forall p :: p in nodes[k].parents && p in nodes ==> nodes[p].isFromPreprocessing
  }

  /** The table on which the merge runs to its end. */
  predicate PreprocessingClosed(nodes: NodeTable)
  {
    forall k :: k in nodes ==> Checked(nodes, k)
  }

  /** Some node names `q` as a parent. */
  ghost predicate IsParent(nodes: NodeTable, q: int)
  {
    exists m :: m in nodes && q in nodes[m].parents
  }

  /** A merged parent list only names parents of the original table, ranked below the node. */
  lemma {:induction false} MergedParentsFrom(nodes: NodeTable, k: int, q: int)
    requires WellFormed(nodes) && k in nodes && q in MergedParents(nodes, k)
    ensures q in nodes && RankOf(nodes)[q] < RankOf(nodes)[k] && IsParent(nodes, q)
    decreases RankOf(nodes)[k], |nodes[k].parents| + 1
  {
    if nodes[k].isFromPreprocessing {
      MergeOverFrom(nodes, k, |nodes[k].parents|, q);
    } else {
      RankStep(nodes, RankOf(nodes), k, q);
    }
  }

  lemma {:induction false} MergeOverFrom(nodes: NodeTable, k: int, n: nat, q: int)
    requires WellFormed(nodes) && k in nodes && n <= |nodes[k].parents| && q in MergeOver(nodes, k, n)
    ensures q in nodes && RankOf(nodes)[q] < RankOf(nodes)[k] && IsParent(nodes, q)
    decreases RankOf(nodes)[k], n
  {
    var p := nodes[k].parents[n - 1];
    RankStep(nodes, RankOf(nodes), k, p);
    if q in MergeOver(nodes, k, n - 1) {
      MergeOverFrom(nodes, k, n - 1, q);
    } else if |MergedParents(nodes, p)| == 0 {
      assert q == p;
    } else {
      MergedParentsFrom(nodes, p, q);
    }
  }

  /** The point of the merge: on a table where the assertion holds, every parent a
      preprocessing node keeps is a preprocessing node with no parents left, and no choice
      axiom. */
  lemma {:induction false} MergedParentsAreSources(nodes: NodeTable, k: int, q: int)
    requires WellFormed(nodes) && PreprocessingClosed(nodes)
    requires k in nodes && nodes[k].isFromPreprocessing && q in MergedParents(nodes, k)
    ensures q in nodes && nodes[q].isFromPreprocessing
    ensures MergedParents(nodes, q) == [] && nodes[q].inferenceRule != ChoiceAxiom
    decreases RankOf(nodes)[k], |nodes[k].parents| + 1
  {
    MergeOverAreSources(nodes, k, |nodes[k].parents|, q);
  }

  lemma {:induction false} MergeOverAreSources(nodes: NodeTable, k: int, n: nat, q: int)
    requires WellFormed(nodes) && PreprocessingClosed(nodes)
    requires k in nodes && nodes[k].isFromPreprocessing && n <= |nodes[k].parents|
    requires q in MergeOver(nodes, k, n)
    ensures q in nodes && nodes[q].isFromPreprocessing
    ensures MergedParents(nodes, q) == [] && nodes[q].inferenceRule != ChoiceAxiom
    decreases RankOf(nodes)[k], n
  {
    var p := nodes[k].parents[n - 1];
    RankStep(nodes, RankOf(nodes), k, p);
    if q in MergeOver(nodes, k, n - 1) {
      MergeOverAreSources(nodes, k, n - 1, q);
    } else {
      assert Checked(nodes, k);
      if |MergedParents(nodes, p)| == 0 {
        assert q == p;
      } else {
        MergedParentsAreSources(nodes, p, q);
      }
    }
  }

  /** The merged table is again a well-formed table, and the old leaves are still named as
      nobody's parent in it. */
  lemma MergedWellFormed(d: Dag)
    requires WellFormedDag(d)
    ensures WellFormed(Merged(d.nodes)) && SinkSeeds(Dag(Merged(d.nodes), d.leaves))
    ensures KeyedByNumber(d.nodes) ==> KeyedByNumber(Merged(d.nodes))
  {
    var m := Merged(d.nodes);
    var rank := RankOf(d.nodes);
    forall k, q | k in m && q in m[k].parents
      ensures q in m && q in rank && rank[q] < rank[k] && q !in d.leaves
    {
      MergedParentsFrom(d.nodes, k, q);
    }
    assert RankedBy(m, rank);
  }

  /** The state of the table after the merge went over the ids `visited`: those carry their
      merged node and passed the assertion, and every other id still carries its original
      node. */
  ghost predicate MergeState(nodes: NodeTable, visited: set<int>, current: NodeTable)
    requires WellFormed(nodes)
  {
    current.Keys == nodes.Keys &&
    (forall k :: k in visited ==> k in nodes && current[k] == MergedNode(nodes, k) && Checked(nodes, k)) &&
    (forall k :: k in nodes && k !in visited ==> current[k] == nodes[k])
  }

  /** The current table has the original ids, and each with its original preprocessing flag. */
  ghost predicate FlagsKept(nodes: NodeTable, current: NodeTable)
  {
    current.Keys == nodes.Keys &&
    forall k :: k in nodes ==> current[k].isFromPreprocessing == nodes[k].isFromPreprocessing
  }

  /** The ids of `ps` already carry their merged node in the current table. */
  ghost predicate MergedAt(nodes: NodeTable, current: NodeTable, ps: seq<int>)
    requires WellFormed(nodes)
  {
    forall p :: p in ps ==> p in nodes && p in current && current[p] == MergedNode(nodes, p)
  }

  /** What the loop body reads off the state. */
  lemma StateGives(nodes: NodeTable, visited: set<int>, current: NodeTable, ps: seq<int>)
    requires WellFormed(nodes) && MergeState(nodes, visited, current)
    requires forall p :: p in ps ==> p in visited
    ensures FlagsKept(nodes, current) && MergedAt(nodes, current, ps)
  {
  }

  /** A failing assertion on a grandparent shows that the table is not closed. */
  lemma GrandparentFails(nodes: NodeTable, p: int, q: int)
    requires WellFormed(nodes) && p in nodes && nodes[p].isFromPreprocessing
    requires q in MergedParents(nodes, p) && q in nodes && !nodes[q].isFromPreprocessing
    ensures !PreprocessingClosed(nodes)
  {
    if PreprocessingClosed(nodes) {
      MergedParentsAreSources(nodes, p, q);
      assert false;
    }
  }

  /** What one parent contributes in the Python loop: itself when it has no parents (unless
      it is a choice axiom), then each of its parents, each asserted to be from preprocessing.
      The parent's entry in the current table is already merged. */
  method ParentContributionPython(dag: Dag, current: NodeTable, parentId: int,
                                  parentNode: DagNode)
      returns (r: Result<seq<int>>)
    requires WellFormed(dag.nodes) && FlagsKept(dag.nodes, current)
    requires parentId in dag.nodes && parentNode == MergedNode(dag.nodes, parentId) && parentNode.isFromPreprocessing
    ensures r.Err? ==> r.error == AssertionFailed && !PreprocessingClosed(dag.nodes)
    ensures r.Ok? ==> r.value == Contribution(parentId, MergedNode(dag.nodes, parentId))
  {
    var contribution: seq<int> := [];
    if |parentNode.parents| == 0 {
      if parentNode.inferenceRule != ChoiceAxiom {
        contribution := [parentId];
      }
    }
    for j := 0 to |parentNode.parents|
      invariant contribution == (if |parentNode.parents| == 0 then Contribution(parentId, parentNode)
                                 else parentNode.parents[..j])
    {
      var parent2Id := parentNode.parents[j];
      MergedParentsFrom(dag.nodes, parentId, parent2Id);
      var parent2Node := current[parent2Id];
      if !parent2Node.isFromPreprocessing {
        GrandparentFails(dag.nodes, parentId, parent2Id);
        return Err(AssertionFailed);
      }
      contribution := contribution + [parent2Id];
    }
    assert parentNode.parents[..|parentNode.parents|] == parentNode.parents;
    return Ok(contribution);
  }

  /** Every id of `ps` is a preprocessing node of the table. */
  ghost predicate AllFromPreprocessing(nodes: NodeTable, ps: seq<int>)
  {
    forall p :: p in ps ==> p in nodes && nodes[p].isFromPreprocessing
  }

  lemma FromPreprocessingAppend(nodes: NodeTable, ps: seq<int>, i: nat)
    requires i < |ps| && AllFromPreprocessing(nodes, ps[..i])
    requires ps[i] in nodes && nodes[ps[i]].isFromPreprocessing
    ensures AllFromPreprocessing(nodes, ps[..i + 1])
  {
    assert ps[..i + 1] == ps[..i] + [ps[i]];
  }

  lemma FromPreprocessingChecked(nodes: NodeTable, k: int)
    requires k in nodes && AllFromPreprocessing(nodes, nodes[k].parents[..|nodes[k].parents|])
    ensures Checked(nodes, k)
  {
    assert nodes[k].parents[..|nodes[k].parents|] == nodes[k].parents;
  }

  /** One more parent adds its contribution. */
  lemma MergeOverNext(nodes: NodeTable, k: int, i: nat)
    requires WellFormed(nodes) && k in nodes && i < |nodes[k].parents|
    ensures nodes[k].parents[i] in nodes
    ensures MergeOver(nodes, k, i + 1) ==
            MergeOver(nodes, k, i) + Contribution(nodes[k].parents[i], MergedNode(nodes, nodes[k].parents[i]))
  {
    RankStep(nodes, RankOf(nodes), k, nodes[k].parents[i]);
  }

  /** The body of the Python loop for a preprocessing node: the new parent list, built from
      the parents as they stand in the current table (already merged, since a post-order hands
      out parents first), or a failed assertion. */
  method NewParentsPython(dag: Dag, current: NodeTable, ghost id: int,
                          currentNode: DagNode)
      returns (r: Result<seq<int>>)
    requires WellFormed(dag.nodes) && FlagsKept(dag.nodes, current)
    requires id in dag.nodes && currentNode == dag.nodes[id] && currentNode.isFromPreprocessing
    requires MergedAt(dag.nodes, current, currentNode.parents)
    ensures r.Err? ==> r.error == AssertionFailed && !PreprocessingClosed(dag.nodes)
    ensures r.Ok? ==> Checked(dag.nodes, id) && r.value == MergedParents(dag.nodes, id)
  {
    var newParents: seq<int> := [];
    for i := 0 to |currentNode.parents|
      invariant newParents == MergeOver(dag.nodes, id, i)
      invariant AllFromPreprocessing(dag.nodes, currentNode.parents[..i])
    {
      var parentId := currentNode.parents[i];
      RankStep(dag.nodes, RankOf(dag.nodes), id, parentId);
      var parentNode := current[parentId];
      if !parentNode.isFromPreprocessing {
        assert !Checked(dag.nodes, id);
        return Err(AssertionFailed);
      }
      var contribution := ParentContributionPython(dag, current, parentId, parentNode);
      if contribution.Err? {
        return Err(AssertionFailed);
      }
      MergeOverNext(dag.nodes, id, i);
      FromPreprocessingAppend(dag.nodes, currentNode.parents, i);
      newParents := newParents + contribution.value;
    }
    FromPreprocessingChecked(dag.nodes, id);
    return Ok(newParents);
  }

  /** Going over a node outside preprocessing keeps the state as it is. */
  lemma MergeSkip(nodes: NodeTable, visited: set<int>, current: NodeTable, id: int)
    requires WellFormed(nodes) && MergeState(nodes, visited, current)
    requires id in nodes && id !in visited && !nodes[id].isFromPreprocessing
    ensures MergeState(nodes, visited + {id}, current)
  {
  }

  /** Going over a preprocessing node stores its merged node. */
  lemma MergeStep(nodes: NodeTable, visited: set<int>, current: NodeTable, id: int, newParents: seq<int>)
    requires WellFormed(nodes) && MergeState(nodes, visited, current)
    requires id in nodes && id !in visited && Checked(nodes, id) && newParents == MergedParents(nodes, id)
    ensures MergeState(nodes, visited + {id}, current[id := nodes[id].(parents := newParents)])
  {
  }

  /** The body of the Python loop: a preprocessing node handed out by the walk gets its new
      parent list, written into the table; any other node is left alone. */
  method VisitForMerge(dag: Dag, current: NodeTable, ghost visited: set<int>, currentNode: DagNode, ghost id: int)
      returns (r: Result<NodeTable>)
    requires WellFormedDag(dag) && KeyedByNumber(dag.nodes) && MergeState(dag.nodes, visited, current)
    requires id in dag.nodes && id !in visited && currentNode == dag.nodes[id]
    requires forall p :: p in currentNode.parents ==> p in visited
    ensures r.Err? ==> r.error == AssertionFailed && !PreprocessingClosed(dag.nodes)
    ensures r.Ok? ==> MergeState(dag.nodes, visited + {id}, r.value)
  {
    if currentNode.isFromPreprocessing {
      StateGives(dag.nodes, visited, current, currentNode.parents);
      var newParents := NewParentsPython(dag, current, id, currentNode);
      if newParents.Err? {
        return Err(AssertionFailed);
      }
      MergeStep(dag.nodes, visited, current, id, newParents.value);
      return Ok(current[currentNode.number := currentNode.(parents := newParents.value)]);
    }
    MergeSkip(dag.nodes, visited, current, id);
    return Ok(current);
  }

  /** Once every id was gone over, the table is the merged one and the assertion held
      everywhere. */
  lemma MergeDone(nodes: NodeTable, current: NodeTable)
    requires WellFormed(nodes) && MergeState(nodes, nodes.Keys, current)
    ensures current == Merged(nodes) && PreprocessingClosed(nodes)
  {
  }

  /** A post-order over any well-formed table whose seeds are named as nobody's parent. */
  method StartWalkOn(d: Dag) returns (walk: PostOrder)
    requires WellFormed(d.nodes) && SinkSeeds(d)
    ensures fresh(walk) && walk.Valid() && walk.dag == d && walk.visited == {}
  {
    walk := new PostOrder(d);
  }

  /** The second loop of `merge_preprocessing`: the nodes the post-order reaches, stored
      under their numbers. */
  method CollectReachable(d: Dag) returns (remaining: NodeTable)
    requires WellFormed(d.nodes) && SinkSeeds(d) && KeyedByNumber(d.nodes)
    ensures remaining == ReachedNodes(d)
  {
    remaining := map[];
    var walk := StartWalkOn(d);
    var more := walk.HasNext();
    while more
      invariant walk.Valid() && walk.dag == d
      invariant more <==> walk.Remaining() != {}
      invariant Collected(d, walk.visited, remaining)
      decreases |walk.Remaining()|
    {
      ghost var visited := walk.visited;
      var r;
      ghost var id;
      r, id := walk.GetNext();
      VisitShrinks(walk.Reachable(), visited, id);
      var currentNode := r.value;
      CollectStep(d, visited, remaining, id, currentNode);
      remaining := remaining[currentNode.number := currentNode];
      more := walk.HasNext();
    }
    walk.VisitedAll();
    CollectedAll(d, walk.visited, remaining);
  }

  /** The nodes of `visited`, stored under their own ids. */
  ghost predicate Collected(d: Dag, visited: set<int>, remaining: NodeTable)
  {
    remaining.Keys == visited && forall k :: k in visited ==> k in d.nodes && remaining[k] == d.nodes[k]
  }

  lemma CollectStep(d: Dag, visited: set<int>, remaining: NodeTable, id: int, node: DagNode)
    requires Collected(d, visited, remaining) && KeyedByNumber(d.nodes) && id in d.nodes && node == d.nodes[id]
    ensures Collected(d, visited + {id}, remaining[node.number := node])
  {
  }

  lemma CollectedAll(d: Dag, visited: set<int>, remaining: NodeTable)
    requires Collected(d, visited, remaining) && visited == Ancestors(d.nodes, d.leaves)
    ensures remaining == ReachedNodes(d)
  {
  }

  /** The nodes reached from the seeds, under their ids. */
  ghost function ReachedNodes(d: Dag): (r: NodeTable)
    ensures r.Keys <= d.nodes.Keys
  {
    map k | k in Ancestors(d.nodes, d.leaves) :: d.nodes[k]
  }

  /** What the Python merge keeps: the merged nodes the old leaves still reach. */
  ghost function ReachableMerged(d: Dag): NodeTable
    requires WellFormed(d.nodes)
  {
    ReachedNodes(Dag(Merged(d.nodes), d.leaves))
  }

  /** The first loop of `merge_preprocessing`: a post-order walk rewrites, in place, the
      parent list of every preprocessing node it hands out. A parent or grandparent outside
      preprocessing fails the assertion. */
  method RewriteParents(dag: Dag) returns (result: Result<NodeTable>)
    requires WellFormedDag(dag) && KeyedByNumber(dag.nodes)
    ensures result.Ok? <==> PreprocessingClosed(dag.nodes)
    ensures result.Err? ==> result.error == AssertionFailed
    ensures result.Ok? ==> result.value == Merged(dag.nodes)
  {
    var updated := dag.nodes;
    var walk := StartPostOrder(dag);
    var more := walk.HasNext();
    while more
      invariant walk.Valid() && walk.dag == dag
      invariant more <==> walk.Remaining() != {}
      invariant MergeState(dag.nodes, walk.visited, updated)
      decreases |walk.Remaining()|
    {
      ghost var visited := walk.visited;
      var r;
      ghost var id;
      r, id := walk.GetNext();
      VisitShrinks(walk.Reachable(), visited, id);
      var visit := VisitForMerge(dag, updated, visited, r.value, id);
      if visit.Err? {
        return Err(AssertionFailed);
      }
      updated := visit.value;
      more := walk.HasNext();
    }
    PostOrderVisitedAll(walk, dag);
    MergeDone(dag.nodes, updated);
    return Ok(updated);
  }

  /** `merge_preprocessing`: rewrites the parent lists in place, then a second walk from the
      (old) leaves collects what is still reached, as a new dag. `updated` is the caller's
      table after a successful call: its node objects are the ones rewritten. */
  method MergePreprocessingPython(dag: Dag) returns (result: Result<Dag>, updated: NodeTable)
    requires WellFormedDag(dag) && KeyedByNumber(dag.nodes)
    ensures result.Ok? <==> PreprocessingClosed(dag.nodes)
    ensures result.Err? ==> result.error == AssertionFailed
    ensures result.Ok? ==> updated == Merged(dag.nodes)
    ensures result.Ok? ==> result.value.nodes == ReachableMerged(dag) && result.value.leaves == LeafIds(result.value.nodes)
  {
    var rewritten := RewriteParents(dag);
    if rewritten.Err? {
      return Err(AssertionFailed), dag.nodes;
    }
    updated := rewritten.value;
    MergedWellFormed(dag);
    var remaining := CollectReachable(Dag(updated, dag.leaves));
    var merged := MakeDag(remaining);
    result := Ok(merged);
  }

  /** A parent the TypeScript merge removes once a preprocessing child went over it: a choice
      axiom left without parents, or any parent that still has parents after its own merge. */
  ghost predicate Dropped(nodes: NodeTable, p: int)
    requires WellFormed(nodes) && p in nodes
  {
    |MergedParents(nodes, p)| > 0 || nodes[p].inferenceRule == ChoiceAxiom
  }

  /** The ids the TypeScript merge marks for removal while going over the preprocessing
      nodes of `visited`. */
  ghost function RemovedAmong(nodes: NodeTable, visited: set<int>): (r: set<int>)
    requires WellFormed(nodes)
    ensures r <= nodes.Keys
  {
    set k, p | k in visited && k in nodes && nodes[k].isFromPreprocessing && p in nodes[k].parents &&
               p in nodes && Dropped(nodes, p) :: p
  }

  /** The parents of `k` among its first `n` that are removed. */
  ghost function DroppedParents(nodes: NodeTable, k: int, n: nat): set<int>
    requires WellFormed(nodes) && k in nodes && n <= |nodes[k].parents|
  {
    set p | p in nodes[k].parents[..n] && p in nodes && Dropped(nodes, p)
  }

  /** What the TypeScript merge returns: the merged table without the removed ids. */
  ghost function MergedCopy(nodes: NodeTable): (r: NodeTable)
    requires WellFormed(nodes)
    ensures r.Keys == nodes.Keys - RemovedAmong(nodes, nodes.Keys)
  {
    var m := Merged(nodes);
    map k | k in nodes && k !in RemovedAmong(nodes, nodes.Keys) :: m[k]
  }

  /** What one parent contributes in the TypeScript loop, and whether it is to be removed. The
      parent's entry in the copied table is already merged. */
  method ParentContributionTypeScript(dag: Dag, current: NodeTable, parentId: int, parentNode: DagNode)
      returns (r: Result<seq<int>>, remove: bool)
    requires WellFormed(dag.nodes) && FlagsKept(dag.nodes, current)
    requires parentId in dag.nodes && parentNode == MergedNode(dag.nodes, parentId) && parentNode.isFromPreprocessing
    ensures r.Err? ==> r.error == AssertionFailed && !PreprocessingClosed(dag.nodes)
    ensures r.Ok? ==> r.value == Contribution(parentId, MergedNode(dag.nodes, parentId))
    ensures r.Ok? ==> (remove <==> Dropped(dag.nodes, parentId))
  {
    var contribution: seq<int> := [];
    if |parentNode.parents| == 0 {
      if parentNode.inferenceRule == ChoiceAxiom {
        return Ok(contribution), true;
      }
      return Ok([parentId]), false;
    }
    for j := 0 to |parentNode.parents|
      invariant contribution == parentNode.parents[..j]
    {
      var parent2Id := parentNode.parents[j];
      MergedParentsFrom(dag.nodes, parentId, parent2Id);
      var parent2Node := current[parent2Id];
      if !parent2Node.isFromPreprocessing {
        GrandparentFails(dag.nodes, parentId, parent2Id);
        return Err(AssertionFailed), false;
      }
      contribution := contribution + [parent2Id];
    }
    assert parentNode.parents[..|parentNode.parents|] == parentNode.parents;
    return Ok(contribution), true;
  }

  /** One more parent adds itself to the removed ones when it is dropped. */
  lemma DroppedParentsNext(nodes: NodeTable, k: int, i: nat)
    requires WellFormed(nodes) && k in nodes && i < |nodes[k].parents|
    ensures nodes[k].parents[i] in nodes
    ensures DroppedParents(nodes, k, i + 1) ==
            DroppedParents(nodes, k, i) + (if Dropped(nodes, nodes[k].parents[i]) then {nodes[k].parents[i]} else {})
  {
    var ps := nodes[k].parents;
    RankStep(nodes, RankOf(nodes), k, ps[i]);
    assert ps[..i + 1] == ps[..i] + [ps[i]];
  }

  /** The body of the TypeScript loop for a preprocessing node: the updated parent list and
      the parents to remove, or a failed assertion. */
  method NewParentsTypeScript(dag: Dag, current: NodeTable, ghost id: int, currentNode: DagNode)
      returns (r: Result<seq<int>>, removed: set<int>)
    requires WellFormed(dag.nodes) && FlagsKept(dag.nodes, current)
    requires id in dag.nodes && currentNode == dag.nodes[id] && currentNode.isFromPreprocessing
    requires MergedAt(dag.nodes, current, currentNode.parents)
    ensures r.Err? ==> r.error == AssertionFailed && !PreprocessingClosed(dag.nodes)
    ensures r.Ok? ==> Checked(dag.nodes, id) && r.value == MergedParents(dag.nodes, id)
    ensures r.Ok? ==> removed == DroppedParents(dag.nodes, id, |currentNode.parents|)
  {
    var updatedParents: seq<int> := [];
    removed := {};
    for i := 0 to |currentNode.parents|
      invariant updatedParents == MergeOver(dag.nodes, id, i)
      invariant removed == DroppedParents(dag.nodes, id, i)
      invariant AllFromPreprocessing(dag.nodes, currentNode.parents[..i])
    {
      var parentId := currentNode.parents[i];
      RankStep(dag.nodes, RankOf(dag.nodes), id, parentId);
      var parentNode := current[parentId];
      if !parentNode.isFromPreprocessing {
        assert !Checked(dag.nodes, id);
        return Err(AssertionFailed), {};
      }
      var contribution, remove := ParentContributionTypeScript(dag, current, parentId, parentNode);
      if contribution.Err? {
        return Err(AssertionFailed), {};
      }
      MergeOverNext(dag.nodes, id, i);
      DroppedParentsNext(dag.nodes, id, i);
      FromPreprocessingAppend(dag.nodes, currentNode.parents, i);
      updatedParents := updatedParents + contribution.value;
      if remove {
        removed := removed + {parentId};
      }
    }
    FromPreprocessingChecked(dag.nodes, id);
    return Ok(updatedParents), removed;
  }

  /** Going over `id` adds the parents it drops to the removed ones. */
  lemma RemovedStep(nodes: NodeTable, visited: set<int>, id: int)
    requires WellFormed(nodes) && id in nodes
    ensures RemovedAmong(nodes, visited + {id}) ==
            RemovedAmong(nodes, visited) +
            (if nodes[id].isFromPreprocessing then DroppedParents(nodes, id, |nodes[id].parents|) else {})
  {
    assert nodes[id].parents[..|nodes[id].parents|] == nodes[id].parents;
  }

  /** The body of the TypeScript loop: the node under the handed-out id is read from the
      copied table; a preprocessing node is replaced by a copy with the updated parents. */
  method VisitForMergeTypeScript(dag: Dag, nodes: NodeTable, nodeIdsToRemove: set<int>, ghost visited: set<int>,
                                 currentNodeId: int)
      returns (r: Result<(NodeTable, set<int>)>)
    requires WellFormedDag(dag) && MergeState(dag.nodes, visited, nodes)
    requires nodeIdsToRemove == RemovedAmong(dag.nodes, visited)
    requires currentNodeId in dag.nodes && currentNodeId !in visited
    requires forall p :: p in dag.nodes[currentNodeId].parents ==> p in visited
    ensures r.Err? ==> r.error == AssertionFailed && !PreprocessingClosed(dag.nodes)
    ensures r.Ok? ==> MergeState(dag.nodes, visited + {currentNodeId}, r.value.0)
    ensures r.Ok? ==> r.value.1 == RemovedAmong(dag.nodes, visited + {currentNodeId})
  {
    var currentNode := nodes[currentNodeId];
    RemovedStep(dag.nodes, visited, currentNodeId);
    if currentNode.isFromPreprocessing {
      StateGives(dag.nodes, visited, nodes, currentNode.parents);
      var updatedParents, removed := NewParentsTypeScript(dag, nodes, currentNodeId, currentNode);
      if updatedParents.Err? {
        return Err(AssertionFailed);
      }
      MergeStep(dag.nodes, visited, nodes, currentNodeId, updatedParents.value);
      var updatedNode := currentNode.(parents := updatedParents.value);
      return Ok((nodes[currentNodeId := updatedNode], nodeIdsToRemove + removed));
    }
    MergeSkip(dag.nodes, visited, nodes, currentNodeId);
    return Ok((nodes, nodeIdsToRemove));
  }

  /** The first loop of `mergePreprocessing`, over a copy of the table: the post-order (with
      the unbound `hasNext`) hands out ids, and each preprocessing node is replaced by a copy
      with its updated parents, while the dropped parents are collected. */
  method RewriteCopy(dag: Dag) returns (result: Result<(NodeTable, set<int>)>)
    requires WellFormedDag(dag) && KeyedByNumber(dag.nodes)
    ensures result.Ok? <==> PreprocessingClosed(dag.nodes)
    ensures result.Err? ==> result.error == AssertionFailed
    ensures result.Ok? ==> result.value.0 == Merged(dag.nodes)
    ensures result.Ok? ==> result.value.1 == RemovedAmong(dag.nodes, dag.nodes.Keys)
  {
    var nodes := dag.nodes;
    var nodeIdsToRemove: set<int> := {};
    var walk := StartPostOrder(dag);
    var more := walk.HasNextUnbound();
    while more
      invariant walk.Valid() && walk.dag == dag
      invariant more <==> walk.Remaining() != {}
      invariant MergeState(dag.nodes, walk.visited, nodes)
      invariant nodeIdsToRemove == RemovedAmong(dag.nodes, walk.visited)
      decreases |walk.Remaining()|
    {
      ghost var visited := walk.visited;
      var r;
      ghost var id;
      r, id := walk.GetNext();
      VisitShrinks(walk.Reachable(), visited, id);
      var currentNodeId := r.value.number;
      var visit := VisitForMergeTypeScript(dag, nodes, nodeIdsToRemove, visited, currentNodeId);
      if visit.Err? {
        return Err(AssertionFailed);
      }
      nodes, nodeIdsToRemove := visit.value.0, visit.value.1;
      more := walk.HasNextUnbound();
    }
    PostOrderVisitedAll(walk, dag);
    MergeDone(dag.nodes, nodes);
    return Ok((nodes, nodeIdsToRemove));
  }

  /** The state of the deletion loop: the ids of `deleted` are gone, and nothing else
      changed. */
  ghost predicate DeletedSoFar(merged: NodeTable, deleted: set<int>, nodes: NodeTable)
  {
    nodes.Keys == merged.Keys - deleted && forall k :: k in nodes ==> nodes[k] == merged[k]
  }

  lemma DeleteStep(merged: NodeTable, deleted: set<int>, nodes: NodeTable, x: int)
    requires DeletedSoFar(merged, deleted, nodes) && x in nodes
    ensures DeletedSoFar(merged, deleted + {x}, nodes - {x})
  {
  }

  /** The deletion loop of `mergePreprocessing`: every id marked for removal is deleted, and
      each delete finds its id (the assertion on its success holds). */
  method DeleteAll(merged: NodeTable, nodeIdsToRemove: set<int>) returns (nodes: NodeTable)
    requires nodeIdsToRemove <= merged.Keys
    ensures DeletedSoFar(merged, nodeIdsToRemove, nodes)
  {
    nodes := merged;
    var pending := nodeIdsToRemove;
    while pending != {}
      invariant pending <= nodeIdsToRemove
      invariant DeletedSoFar(merged, nodeIdsToRemove - pending, nodes)
      decreases pending
    {
      HasElement(pending);
      var nodeIdToRemove :| nodeIdToRemove in pending;
      assert nodeIdToRemove in nodes;
      DeleteStep(merged, nodeIdsToRemove - pending, nodes, nodeIdToRemove);
      nodes := nodes - {nodeIdToRemove};
      assert nodeIdsToRemove - (pending - {nodeIdToRemove}) == (nodeIdsToRemove - pending) + {nodeIdToRemove};
      pending := pending - {nodeIdToRemove};
    }
  }

  lemma DeletedAll(nodes: NodeTable, rest: NodeTable)
    requires WellFormed(nodes) && DeletedSoFar(Merged(nodes), RemovedAmong(nodes, nodes.Keys), rest)
    ensures rest == MergedCopy(nodes)
  {
  }

  /** `mergePreprocessing`: rewrites a copy of the table, then deletes every id marked for
      removal. The caller's table is not touched. */
  method MergePreprocessingTypeScript(dag: Dag) returns (result: Result<NodeTable>)
    requires WellFormedDag(dag) && KeyedByNumber(dag.nodes)
    ensures result.Ok? <==> PreprocessingClosed(dag.nodes)
    ensures result.Err? ==> result.error == AssertionFailed
    ensures result.Ok? ==> result.value == MergedCopy(dag.nodes)
  {
    var rewritten := RewriteCopy(dag);
    if rewritten.Err? {
      return Err(AssertionFailed);
    }
    var nodes := DeleteAll(rewritten.value.0, rewritten.value.1);
    DeletedAll(dag.nodes, nodes);
    return Ok(nodes);
  }

  /** After the Python merge, every parent of a preprocessing node of the returned dag is in
      the dag, has no parents and is no choice axiom. */
  lemma PythonMergeSources(dag: Dag, k: int, q: int)
    requires WellFormedDag(dag) && PreprocessingClosed(dag.nodes)
    requires k in ReachableMerged(dag) && ReachableMerged(dag)[k].isFromPreprocessing
    requires q in ReachableMerged(dag)[k].parents
    ensures q in ReachableMerged(dag) && ReachableMerged(dag)[q].parents == []
    ensures ReachableMerged(dag)[q].inferenceRule != ChoiceAxiom
  {
    var m := Merged(dag.nodes);
    MergedWellFormed(dag);
    AncestorsClosed(m, dag.leaves);
    ParentClosedStep(m, Ancestors(m, dag.leaves), k, q);
    MergedParentsAreSources(dag.nodes, k, q);
  }

  /** The same holds of the TypeScript result: a parent a preprocessing node keeps is never
      among the removed ids. */
  lemma TypeScriptMergeSources(nodes: NodeTable, k: int, q: int)
    requires WellFormed(nodes) && PreprocessingClosed(nodes)
    requires k in MergedCopy(nodes) && MergedCopy(nodes)[k].isFromPreprocessing
    requires q in MergedCopy(nodes)[k].parents
    ensures q in MergedCopy(nodes) && MergedCopy(nodes)[q].parents == []
    ensures MergedCopy(nodes)[q].inferenceRule != ChoiceAxiom
  {
    MergedParentsAreSources(nodes, k, q);
    assert !Dropped(nodes, q);
    assert q !in RemovedAmong(nodes, nodes.Keys);
  }

  /** A node of the example table. */
  function ExampleNode(number: int, rule: string, parents: seq<int>, preprocessing: bool): DagNode
  {
    DagNode(number, "", rule, parents, map[], preprocessing, None, None, None, None, None)
  }

  /** Input 1 is rewritten to 2 and then to 3 during preprocessing, and clause 4 of the
      saturation uses 2. */
  function ExampleTable(): NodeTable
  {
    map[1 := ExampleNode(1, "input", [], true),
        2 := ExampleNode(2, "cnf transformation", [1], true),
        3 := ExampleNode(3, "flattening", [2], true),
        4 := ExampleNode(4, "resolution", [2], false)]
  }

  lemma ExampleShape()
    ensures WellFormedDag(Dag(ExampleTable(), {3, 4})) && PreprocessingClosed(ExampleTable())
  {
    ExampleLinks();
    ExampleAcyclic();
    ExampleLeaves();
  }

  lemma ExampleAcyclic()
    ensures Acyclic(ExampleTable())
  {
    var t := ExampleTable();
    var rank: map<int, nat> := map[1 := 1, 2 := 2, 3 := 3, 4 := 4];
    ExampleLinks();
    assert forall k :: k in t ==> k in rank && rank[k] == k;
    assert RankedBy(t, rank);
  }

  /** The parent links of the example all go to 1 or 2, downwards, between preprocessing nodes. */
  lemma ExampleLinks()
    ensures forall k, p :: k in ExampleTable() && p in ExampleTable()[k].parents ==>
              p in ExampleTable() && p < k && ExampleTable()[p].isFromPreprocessing && (p == 1 || p == 2)
  {
    var t := ExampleTable();
    forall k, p | k in t && p in t[k].parents
      ensures p in t && p < k && t[p].isFromPreprocessing && (p == 1 || p == 2)
    {
      assert k == 2 || k == 3 || k == 4;
    }
  }

  lemma ExampleLeaves()
    ensures LeafIds(ExampleTable()) == {3, 4}
  {
    var t := ExampleTable();
    ExampleLinks();
    assert 1 in t[2].parents && 2 in t[3].parents;
  }

  /** The two generations part ways when a preprocessing node with parents is used both by a
      later preprocessing step and outside preprocessing: the Python merge keeps it, since
      clause 4 still reaches it, while the TypeScript merge deletes it and leaves clause 4
      naming a parent that is no longer in the table. */
  lemma MergeGenerationsDiffer()
    ensures WellFormedDag(Dag(ExampleTable(), {3, 4})) && PreprocessingClosed(ExampleTable())
    ensures 2 in ReachableMerged(Dag(ExampleTable(), {3, 4}))
    ensures 2 !in MergedCopy(ExampleTable()) && 4 in MergedCopy(ExampleTable())
    ensures MergedCopy(ExampleTable())[4].parents == [2]
    ensures !Closed(MergedCopy(ExampleTable()))
  {
    ExampleShape();
    var t := ExampleTable();
    assert MergedParents(t, 1) == [];
    assert MergedParents(t, 2) == MergeOver(t, 2, 1) == [1];
    assert Dropped(t, 2);
    assert 2 in RemovedAmong(t, t.Keys) by {
      assert 3 in t && t[3].isFromPreprocessing && 2 in t[3].parents;
    }
    var m := Merged(t);
    assert m[4].parents == [2];
    ReachPrepend(m, 4, 2, 2) by { ReachRefl(m, 2); }
    AncestorsIntro(m, {3, 4}, 4, 2);
    assert 4 !in RemovedAmong(t, t.Keys);
  }
}
