/** The two traversals of a derivation dag, shared by the Python model and the TypeScript
    frontend (proof_visualization/model/traversal.py, visualization-frontend/src/model/
    traversal.ts). `PostOrder` is the iterative depth-first post-order: a stack seeded with the
    leaves and a visited set; a node is yielded once all of its parents were yielded.
    `ReversePostOrder` collects that sequence eagerly and hands it out back to front. */
module Traversal {
  import opened Wrappers
  import opened Dags

  /** What the traversal needs of its seeds: they are ids of the table that no node names as a
      parent. The leaves a dag computes have this shape; a table whose parent lists were
      rewritten after the leaves were computed may leave only a subset of the new leaves. */
  predicate SinkSeeds(d: Dag)
  {
    forall l :: l in d.leaves ==> l in d.nodes && forall m :: m in d.nodes ==> l !in d.nodes[m].parents
  }

  /** The dag's leaves are sink seeds. */
  lemma LeavesAreSinkSeeds(d: Dag)
    requires d.leaves == LeafIds(d.nodes)
    ensures SinkSeeds(d)
  {
  }

  /** The seeds at the positions below `n`. */
  ghost function SeedsBelow(seeds: seq<int>, n: nat): set<int>
  {
    set i | 0 <= i < n && i < |seeds| :: seeds[i]
  }

  /** The stack's shape: its bottom `base` entries are the first seeds, all unvisited; above
      them lie only parents pushed on the way up, which are not seeds; every entry is
      reachable. */
  ghost predicate StackShape(dag: Dag, seeds: seq<int>, base: nat, todo: seq<int>, visited: set<int>)
  {
    base <= |seeds| && base <= |todo| && todo[..base] == seeds[..base] && (base == 0 ==> todo == []) &&
    (forall i :: 0 <= i < base ==> seeds[i] !in visited) &&
    (forall i :: base <= i < |todo| ==> todo[i] in dag.nodes && todo[i] !in dag.leaves) &&
    (forall i :: 0 <= i < |todo| ==> todo[i] in Ancestors(dag.nodes, dag.leaves))
  }

  /** The visited ids hold their parents, and everything reachable but unvisited lies below a
      seed still at the bottom of the stack. */
  ghost predicate Covered(dag: Dag, seeds: seq<int>, base: nat, visited: set<int>)
  {
    var reachable := Ancestors(dag.nodes, dag.leaves);
    ParentClosed(dag.nodes, visited) && visited <= reachable &&
    reachable - visited <= Ancestors(dag.nodes, SeedsBelow(seeds, base))
  }

  /** The yielded sequence lists the visited ids in post-order. */
  ghost predicate Emission(dag: Dag, visited: set<int>, emitted: seq<int>)
  {
    PostOrdered(dag.nodes, emitted) && (forall k :: k in visited <==> k in emitted)
  }

  /** The invariant of a post-order traversal in progress over `dag`, with `rank` witnessing
      acyclicity, `seeds` the leaves in the order they were pushed, `base` how many of them are
      still at the bottom of the stack `todo`, and `emitted` the ids yielded so far. */
  ghost predicate ValidState(dag: Dag, rank: map<int, nat>, seeds: seq<int>, base: nat,
                             todo: seq<int>, visited: set<int>, emitted: seq<int>)
  {
    Closed(dag.nodes) && RankedBy(dag.nodes, rank) && SinkSeeds(dag) && Enumerates(seeds, dag.leaves) &&
    StackShape(dag, seeds, base, todo, visited) && Covered(dag, seeds, base, visited) &&
    Emission(dag, visited, emitted)
  }

  /** Visiting the top of the stack, all of whose parents are visited, keeps the invariant;
      the seed count drops by one when the top was the last seed still stacked. */
  lemma VisitKeepsState(dag: Dag, rank: map<int, nat>, seeds: seq<int>, base: nat,
                        todo: seq<int>, visited: set<int>, emitted: seq<int>) returns (newBase: nat)
    requires ValidState(dag, rank, seeds, base, todo, visited, emitted)
    requires |todo| > 0 && todo[|todo| - 1] !in visited
    requires forall p :: p in dag.nodes[todo[|todo| - 1]].parents ==> p in visited
    ensures var x := todo[|todo| - 1];
            x in dag.nodes && x in Ancestors(dag.nodes, dag.leaves) &&
            ValidState(dag, rank, seeds, newBase, todo[..|todo| - 1], visited + {x}, emitted + [x])
  {
    var x := todo[|todo| - 1];
    newBase := VisitKeepsStack(dag, seeds, base, todo, visited);
    var oldSeeds := SeedsBelow(seeds, base);
    if newBase < base {
      SeedsBelowLast(seeds, newBase);
      assert oldSeeds == SeedsBelow(seeds, newBase) + {x};
    }
    CoverAfterVisit(dag.nodes, Ancestors(dag.nodes, dag.leaves), visited, oldSeeds, SeedsBelow(seeds, newBase), x);
    PostOrderedAppend(dag.nodes, emitted, x);
  }

  /** Pushing an unvisited parent of a stacked node keeps the stack's shape. */
  lemma PushKeepsStack(dag: Dag, rank: map<int, nat>, seeds: seq<int>, base: nat, todo: seq<int>,
                       visited: set<int>, child: int, parent: int)
    requires Closed(dag.nodes) && SinkSeeds(dag) && StackShape(dag, seeds, base, todo, visited)
    requires child in todo && child in dag.nodes && parent in dag.nodes[child].parents && parent !in visited
    ensures StackShape(dag, seeds, base, todo + [parent], visited)
  {
    var j :| 0 <= j < |todo| && todo[j] == child;
    var a := AncestorsElim(dag.nodes, dag.leaves, child);
    ReachAppend(dag.nodes, a, child, parent);
    AncestorsIntro(dag.nodes, dag.leaves, a, parent);
    var longer := todo + [parent];
    assert longer[..base] == todo[..base];
  }

  /** Pushing an unvisited parent of a stacked node keeps the invariant. */
  lemma PushKeepsState(dag: Dag, rank: map<int, nat>, seeds: seq<int>, base: nat,
                       todo: seq<int>, visited: set<int>, emitted: seq<int>, child: int, parent: int)
    requires ValidState(dag, rank, seeds, base, todo, visited, emitted)
    requires child in todo && child in dag.nodes && parent in dag.nodes[child].parents && parent !in visited
    ensures ValidState(dag, rank, seeds, base, todo + [parent], visited, emitted)
  {
    PushKeepsStack(dag, rank, seeds, base, todo, visited, child, parent);
    var longer := todo + [parent];
    assert longer[..base] == todo[..base];
  }

  lemma VisitKeepsStack(dag: Dag, seeds: seq<int>, base: nat, todo: seq<int>, visited: set<int>) returns (newBase: nat)
    requires Enumerates(seeds, dag.leaves) && StackShape(dag, seeds, base, todo, visited)
    requires |todo| > 0 && todo[|todo| - 1] !in visited
    ensures var x := todo[|todo| - 1];
            x in dag.nodes && x in Ancestors(dag.nodes, dag.leaves) &&
            (newBase == base || (newBase + 1 == base && seeds[newBase] == x)) &&
            StackShape(dag, seeds, newBase, todo[..|todo| - 1], visited + {x})
  {
    var x := todo[|todo| - 1];
    if |todo| == base {
      assert todo[..base][base - 1] == seeds[base - 1];
      newBase := base - 1;
    } else {
      assert x !in dag.leaves;
      newBase := base;
    }
    var rest := todo[..|todo| - 1];
    assert rest[..newBase] == todo[..newBase];
    forall i | 0 <= i < newBase ensures seeds[i] != x {
      if newBase < base {
        assert seeds[i] != seeds[newBase];
      } else {
        assert seeds[i] in dag.leaves;
      }
    }
  }

  class PostOrder {
    const dag: Dag
    var todo: seq<int>
    var visited: set<int>
    /** A rank witnessing acyclicity; the seeds in the order they were pushed; how many of them
        are still at the bottom of the stack; the ids yielded so far, in order. */
    ghost const rank: map<int, nat>
    ghost const seeds: seq<int>
    ghost var base: nat
    ghost var emitted: seq<int>

    /** The ids the traversal can reach: the seeds and their transitive parents. */
    ghost function Reachable(): set<int>
    {
      Ancestors(dag.nodes, dag.leaves)
    }

    /** The ids still to be yielded. */
    ghost function Remaining(): set<int>
      reads this
    {
      Reachable() - visited
    }

    ghost predicate Valid()
      reads this
    {
      ValidState(dag, rank, seeds, base, todo, visited, emitted)
    }

    /** The stack starts as the leaves (in the order the set gives them) and nothing is
        visited. */
    constructor (dag: Dag)
      requires WellFormed(dag.nodes) && SinkSeeds(dag)
      ensures Valid() && this.dag == dag && visited == {} && emitted == []
      ensures Enumerates(todo, dag.leaves)
      ensures Remaining() == Ancestors(dag.nodes, dag.leaves)
    {
      EnumerationExists(dag.leaves);
      var leaves :| Enumerates(leaves, dag.leaves);
      var r :| RankedBy(dag.nodes, r);
      this.dag := dag;
      todo := leaves;
      visited := {};
      rank := r;
      seeds := leaves;
      base := |leaves|;
      emitted := [];
      new;
      forall l | l in dag.leaves ensures l in Reachable() {
        ReachRefl(dag.nodes, l);
        AncestorsIntro(dag.nodes, dag.leaves, l, l);
      }
      assert SeedsBelow(leaves, |leaves|) == dag.leaves by {
        forall l | l in dag.leaves ensures l in SeedsBelow(leaves, |leaves|) {
          var i :| 0 <= i < |leaves| && leaves[i] == l;
        }
      }
    }

    /** Python's `has_next`: discards visited ids from the top of the stack, and answers
        whether an unvisited one is left. */
    method HasNext() returns (b: bool)
      requires Valid()
      modifies this
      ensures Valid() && visited == old(visited) && emitted == old(emitted)
      ensures b <==> Remaining() != {}
    {
      while |todo| > 0
        invariant Valid() && visited == old(visited) && emitted == old(emitted)
        decreases |todo|
      {
        var last := todo[|todo| - 1];
        if last in visited {
          PopVisited();
        } else {
          assert last in Remaining();
          return true;
        }
      }
      NothingStacked();
      return false;
    }

    /** TypeScript's `hasNext` reads `this.todo[length - 1]`, where `length` is not the stack's
        but the browser's global `window.length`, normally 0; the entry read is `undefined`,
        which is never visited, so the answer is whether the stack is non-empty. On a valid
        state this agrees with Python's answer: the bottom of a non-empty stack is always an
        unvisited seed. */
    method HasNextUnbound() returns (b: bool)
      requires Valid()
      ensures b <==> Remaining() != {}
    {
      b := |todo| > 0;
      if b {
        assert todo[..base][0] == todo[0];
        assert seeds[0] in dag.leaves && seeds[0] !in visited;
        ReachRefl(dag.nodes, seeds[0]);
        AncestorsIntro(dag.nodes, dag.leaves, seeds[0], seeds[0]);
        assert seeds[0] in Remaining();
      } else {
        NothingStacked();
      }
    }

    /** Once nothing is left, the yielded ids are the reachable ones, in post-order. */
    lemma Finished()
      requires Valid() && Remaining() == {}
      ensures PostOrdered(dag.nodes, emitted)
      ensures forall k :: k in emitted <==> k in Ancestors(dag.nodes, dag.leaves)
    {
      assert Covered(dag, seeds, base, visited) && Emission(dag, visited, emitted);
      forall k ensures k in emitted <==> k in Ancestors(dag.nodes, dag.leaves) {
        if k in Ancestors(dag.nodes, dag.leaves) {
          assert k !in Remaining();
        }
      }
    }

    /** Once nothing is left, the visited ids are the reachable ones. */
    lemma VisitedAll()
      requires Valid() && Remaining() == {}
      ensures visited == Reachable()
    {
      assert Covered(dag, seeds, base, visited);
      forall k
        ensures k in visited <==> k in Reachable()
      {
        if k in Reachable() {
          assert k !in Remaining();
        }
      }
    }

    /** With an empty stack nothing is left. */
    lemma NothingStacked()
      requires Valid() && |todo| == 0
      ensures Remaining() == {}
    {
      assert SeedsBelow(seeds, base) == {};
      forall k | k in Remaining() ensures false {
        var a := AncestorsElim(dag.nodes, SeedsBelow(seeds, base), k);
      }
    }

    /** Pops a visited id; it is never one of the seeds still counted at the bottom. */
    method PopVisited()
      requires Valid() && |todo| > 0 && todo[|todo| - 1] in visited
      modifies this
      ensures Valid() && visited == old(visited) && emitted == old(emitted)
      ensures todo == old(todo[..|todo| - 1])
    {
      todo := todo[..|todo| - 1];
      assert todo[..base] == old(todo)[..base];
    }

    /** `get_next`: the next node of the post-order, that is, an unvisited reachable node whose
        parents were all yielded before; fails once everything was yielded. */
    method GetNext() returns (r: Result<DagNode>, ghost id: int)
      requires Valid()
      modifies this
      ensures Valid()
      ensures r.Err? <==> old(Remaining()) == {}
      ensures r.Err? ==> r.error == AssertionFailed && visited == old(visited) && emitted == old(emitted)
      ensures r.Ok? ==> id in old(Remaining()) && id in dag.nodes && r.value == dag.nodes[id]
      ensures r.Ok? ==> forall p :: p in dag.nodes[id].parents ==> p in old(visited)
      ensures r.Ok? ==> visited == old(visited) + {id} && emitted == old(emitted) + [id]
    {
      id := 0;
      while |todo| > 0
        invariant Valid() && visited == old(visited) && emitted == old(emitted)
        decreases if |todo| > 0 && todo[|todo| - 1] !in visited then 0 else 1,
                  if |todo| > 0 && todo[|todo| - 1] !in visited && todo[|todo| - 1] in rank then rank[todo[|todo| - 1]] else |todo|
      {
        var currentId := todo[|todo| - 1];
        var currentNode := dag.nodes[currentId];
        if currentId !in visited {
          var existsUnvisitedParent := PushUnvisitedParents(currentId);
          if !existsUnvisitedParent {
            Visit(currentId);
            return Ok(currentNode), currentId;
          }
        } else {
          PopVisited();
        }
      }
      NothingStacked();
      return Err(AssertionFailed), id;
    }

    /** The inner loop of `get_next`: pushes every unvisited parent of the stack's top, in the
        order of the parent list, and tells whether there was one. */
    method PushUnvisitedParents(currentId: int) returns (existsUnvisitedParent: bool)
      requires Valid() && |todo| > 0 && currentId == todo[|todo| - 1] && currentId !in visited
      modifies this`todo
      ensures Valid() && visited == old(visited) && emitted == old(emitted)
      ensures existsUnvisitedParent <==> exists p :: p in dag.nodes[currentId].parents && p !in visited
      ensures |todo| > 0 && todo[|todo| - 1] !in visited && todo[|todo| - 1] in rank
      ensures existsUnvisitedParent ==> rank[todo[|todo| - 1]] < rank[currentId]
      ensures !existsUnvisitedParent ==> todo == old(todo)
    {
      ghost var before := todo;
      var parents := dag.nodes[currentId].parents;
      existsUnvisitedParent := false;
      var i := 0;
      while i < |parents|
        invariant 0 <= i <= |parents|
        invariant Valid()
        invariant |todo| >= |before| && todo[..|before|] == before
        invariant forall j :: |before| <= j < |todo| ==> todo[j] in parents && todo[j] !in visited
        invariant existsUnvisitedParent <==> |todo| > |before|
        invariant existsUnvisitedParent <==> exists j :: 0 <= j < i && parents[j] !in visited
      {
        var parent := parents[i];
        if parent !in visited {
          Push(currentId, parent);
          existsUnvisitedParent := true;
        }
        i := i + 1;
      }
      if existsUnvisitedParent {
        var top := todo[|todo| - 1];
        assert top in parents;
        RankStep(dag.nodes, rank, currentId, top);
      } else {
        assert todo == before;
        forall p | p in parents ensures p in visited {
          var j :| 0 <= j < |parents| && parents[j] == p;
        }
      }
    }

    /** Pushes an unvisited parent of a stacked node. */
    method Push(child: int, parent: int)
      requires Valid() && child in todo && child in dag.nodes
      requires parent in dag.nodes[child].parents && parent !in visited
      modifies this`todo
      ensures Valid() && todo == old(todo) + [parent]
    {
      PushKeepsState(dag, rank, seeds, base, todo, visited, emitted, child, parent);
      todo := todo + [parent];
    }

    /** Visiting the top of the stack once all its parents are visited: it is yielded and
        popped, and the seed count shrinks when it was the last seed still stacked. */
    method Visit(currentId: int)
      requires Valid() && |todo| > 0 && currentId == todo[|todo| - 1] && currentId !in visited
      requires forall p :: p in dag.nodes[currentId].parents ==> p in visited
      modifies this
      ensures Valid()
      ensures visited == old(visited) + {currentId} && emitted == old(emitted) + [currentId]
      ensures currentId in old(Remaining()) && currentId in dag.nodes
    {
      var newBase := VisitKeepsState(dag, rank, seeds, base, todo, visited, emitted);
      base := newBase;
      visited := visited + {currentId};
      todo := todo[..|todo| - 1];
      emitted := emitted + [currentId];
    }
  }

  lemma VisitShrinks(reachable: set<int>, visited: set<int>, x: int)
    requires x in reachable && x !in visited
    ensures |reachable - (visited + {x})| < |reachable - visited|
  {
    assert reachable - visited == (reachable - (visited + {x})) + {x};
  }

  lemma SeedsBelowLast(seeds: seq<int>, n: nat)
    requires n < |seeds|
    ensures SeedsBelow(seeds, n + 1) == SeedsBelow(seeds, n) + {seeds[n]}
  {
  }

  /** Visiting `x`, whose parents are all visited, leaves everything else that was below the
      old seeds below the new ones, when the new seeds lack at most `x`. */
  lemma CoverAfterVisit(nodes: NodeTable, reachable: set<int>, visited: set<int>,
                        oldSeeds: set<int>, newSeeds: set<int>, x: int)
    requires ParentClosed(nodes, visited) && x in nodes
    requires forall p :: p in nodes[x].parents ==> p in visited
    requires reachable - visited <= Ancestors(nodes, oldSeeds)
    requires oldSeeds <= newSeeds + {x}
    ensures reachable - (visited + {x}) <= Ancestors(nodes, newSeeds)
  {
    forall k | k in reachable - (visited + {x}) ensures k in Ancestors(nodes, newSeeds) {
      var a := AncestorsElim(nodes, oldSeeds, k);
      if a == x {
        var p := ReachFirstStep(nodes, a, k);
        ReachStaysInside(nodes, visited, p, k);
      }
      AncestorsIntro(nodes, newSeeds, a, k);
    }
  }

  /** `order` holds the nodes of `ids`, position by position. */
  ghost predicate NodesOf(nodes: NodeTable, order: seq<DagNode>, ids: seq<int>)
  {
    |order| == |ids| && forall i :: 0 <= i < |ids| ==> ids[i] in nodes && order[i] == nodes[ids[i]]
  }

  lemma NodesOfAppend(nodes: NodeTable, order: seq<DagNode>, ids: seq<int>, x: int)
    requires NodesOf(nodes, order, ids) && x in nodes
    ensures NodesOf(nodes, order + [nodes[x]], ids + [x])
  {
  }

  /** The reverse post-order: the post-order is collected when the iterator is built, then
      handed out from its end. `ids` are the ids of `postOrder`, position by position. */
  class ReversePostOrder {
    var postOrder: seq<DagNode>
    ghost var ids: seq<int>
    ghost const nodes: NodeTable

    ghost predicate Valid()
      reads this
    {
      PostOrdered(nodes, ids) && NodesOf(nodes, postOrder, ids)
    }

    /** Builds a post-order iterator and drains it, asking Python's `has_next` or, with
        `unboundCheck`, TypeScript's `hasNext` before each step. */
    static method CollectPostOrder(dag: Dag, unboundCheck: bool) returns (order: seq<DagNode>, ghost seen: seq<int>)
      requires WellFormed(dag.nodes) && SinkSeeds(dag)
      ensures PostOrdered(dag.nodes, seen) && NodesOf(dag.nodes, order, seen)
      ensures forall k :: k in seen <==> k in Ancestors(dag.nodes, dag.leaves)
    {
      var it := new PostOrder(dag);
      order, seen := Drain(it, unboundCheck);
    }

    static method Drain(it: PostOrder, unboundCheck: bool) returns (order: seq<DagNode>, ghost seen: seq<int>)
      requires it.Valid() && it.emitted == []
      modifies it
      ensures PostOrdered(it.dag.nodes, seen) && NodesOf(it.dag.nodes, order, seen)
      ensures forall k :: k in seen <==> k in Ancestors(it.dag.nodes, it.dag.leaves)
    {
      order := [];
      seen := [];
      var more;
      if unboundCheck { more := it.HasNextUnbound(); } else { more := it.HasNext(); }
      while more
        invariant it.Valid() && seen == it.emitted
        invariant NodesOf(it.dag.nodes, order, seen)
        invariant more <==> it.Remaining() != {}
        decreases |it.Remaining()|
      {
        ghost var before := it.visited;
        var r;
        ghost var id;
        r, id := it.GetNext();
        VisitShrinks(it.Reachable(), before, id);
        NodesOfAppend(it.dag.nodes, order, seen, id);
        order := order + [r.value];
        seen := seen + [id];
        if unboundCheck { more := it.HasNextUnbound(); } else { more := it.HasNext(); }
      }
      it.Finished();
    }

    /** Python's constructor. */
    constructor (dag: Dag)
      requires WellFormed(dag.nodes) && SinkSeeds(dag)
      ensures Valid() && nodes == dag.nodes
      ensures forall k :: k in ids <==> k in Ancestors(dag.nodes, dag.leaves)
    {
      var order, seen := CollectPostOrder(dag, false);
      postOrder := order;
      ids := seen;
      nodes := dag.nodes;
    }

    /** TypeScript's constructor, whose loop asks the unbound `hasNext`. */
    constructor WithUnboundCheck(dag: Dag)
      requires WellFormed(dag.nodes) && SinkSeeds(dag)
      ensures Valid() && nodes == dag.nodes
      ensures forall k :: k in ids <==> k in Ancestors(dag.nodes, dag.leaves)
    {
      var order, seen := CollectPostOrder(dag, true);
      postOrder := order;
      ids := seen;
      nodes := dag.nodes;
    }

    /** `has_next` / `hasNext`: whether ids are left to hand out. */
    predicate HasNext()
      reads this
      requires Valid()
      ensures HasNext() <==> ids != []
    {
      |postOrder| > 0
    }

    /** `get_next` / `getNext`: asserts that a node is left and hands out the last one; each of
        its parents is still to come, so every node comes before all of its parents. */
    method GetNext() returns (r: Result<DagNode>, ghost id: int)
      requires Valid()
      modifies this
      ensures Valid()
      ensures r.Err? <==> old(ids) == []
      ensures r.Err? ==> r.error == AssertionFailed && ids == old(ids) && postOrder == old(postOrder)
      ensures r.Ok? ==> old(ids) == ids + [id] && id in nodes && r.value == nodes[id] &&
                        forall p :: p in nodes[id].parents ==> p in ids
    {
      id := 0;
      if |postOrder| == 0 {
        return Err(AssertionFailed), id;
      }
      r := Ok(postOrder[|postOrder| - 1]);
      id := ids[|ids| - 1];
      PostOrderedPrefix(nodes, ids, |ids| - 1);
      assert ids[..|ids| - 1] + [id] == ids;
      postOrder := postOrder[..|postOrder| - 1];
      ids := ids[..|ids| - 1];
    }
  }
}
