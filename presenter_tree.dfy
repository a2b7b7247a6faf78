/** The presenter's tree (presenter/tree.py): the node table and leaves its parser builds,
    a lookup, a depth-first walk from the leaves towards the inputs that keeps no visited
    set, and a text rendering of the whole walk. */
module PresenterTree {
  import opened Wrappers
  import opened Text
  import opened NodeAssembly
  import opened Dags
  import ReprUtil
  import PresenterUtil
  import UnfilteredParsing

  type InferenceNode = UnfilteredParsing.InferenceNode
  type NodeTable = UnfilteredParsing.NodeTable

  datatype Tree = Tree(nodes: NodeTable, leaves: set<InferenceNode>)

  /** `get`: the node stored under the id; `None` when there is none. */
  function Get(tree: Tree, nodeId: int): (r: Option<InferenceNode>)
    ensures r.Some? <==> nodeId in tree.nodes
    ensures r.Some? ==> r.value == tree.nodes[nodeId]
  {
    if nodeId in tree.nodes then Some(tree.nodes[nodeId]) else None
  }

  /** A node of the tree: a leaf or a stored node. */
  ghost predicate InTree(tree: Tree, n: InferenceNode)
  {
    n in tree.leaves || exists k :: k in tree.nodes && tree.nodes[k] == n
  }

  /** Every node of the stack is a node of the tree. */
  ghost predicate AllInTree(tree: Tree, stack: seq<InferenceNode>)
  {
    forall i :: 0 <= i < |stack| ==> InTree(tree, stack[i])
  }

  /** The walk can push the node's parents: it has a parent set, every id of which is stored. */
  ghost predicate Expands(tree: Tree, n: InferenceNode)
  {
    n.parents.Some? && n.parents.value <= tree.nodes.Keys
  }

  /** How expanding `n` fails: iterating a placeholder's `None` parents raises a `TypeError`,
      looking up an unknown parent id a `KeyError`. */
  ghost predicate FailsWith(tree: Tree, n: InferenceNode, e: Error)
  {
    (e == BadType && n.parents.None?) || (e == KeyMissing && n.parents.Some? && !(n.parents.value <= tree.nodes.Keys))
  }

  /** What a complete walk yields: every leaf, only nodes of the tree, each expandable, and
      with each yielded node the nodes of all its parents. */
  ghost predicate Yields(tree: Tree, out: seq<InferenceNode>)
  {
    (forall n :: n in tree.leaves ==> n in out) &&
    (forall i :: 0 <= i < |out| ==> InTree(tree, out[i]) && Expands(tree, out[i])) &&
    (forall i, p :: 0 <= i < |out| && p in UnfilteredParsing.ParentIds(out[i].parents) ==>
                    p in tree.nodes && tree.nodes[p] in out)
  }

  /** Every number is a natural, and a node's parents have smaller numbers, as the prover
      numbers its clauses. */
  ghost predicate RankedNode(n: InferenceNode)
  {
    n.number >= 0 && forall p :: p in UnfilteredParsing.ParentIds(n.parents) ==> 0 <= p < n.number
  }

  /** The shape the walk needs to end: nodes stored under their numbers, all ranked. Without
      it a cycle of parents makes the walk run forever. */
  ghost predicate Ranked(tree: Tree)
  {
    (forall k :: k in tree.nodes ==> tree.nodes[k].number == k && RankedNode(tree.nodes[k])) &&
    (forall n :: n in tree.leaves ==> RankedNode(n))
  }

  lemma InTreeRanked(tree: Tree, n: InferenceNode)
    requires Ranked(tree) && InTree(tree, n)
    ensures RankedNode(n)
  {
    if n !in tree.leaves {
      var k :| k in tree.nodes && tree.nodes[k] == n;
    }
  }

  /** 2 to the power `n`, 1 below zero. */
  function Pow2(n: int): (r: nat)
    ensures r >= 1
    decreases n
  {
    if n <= 0 then 1 else 2 * Pow2(n - 1)
  }

  /** The sum of 2 to the power of each id. */
  function PowSum(ids: seq<int>): nat
  {
    if ids == [] then 0 else PowSum(ids[..|ids| - 1]) + Pow2(ids[|ids| - 1])
  }

  /** The walk's measure: the sum of 2 to the power of each pending node's number. Pushing the
      distinct, smaller parents of a popped node adds less than the node took away. */
  ghost function Weight(stack: seq<InferenceNode>): nat
  {
    if stack == [] then 0 else Weight(stack[..|stack| - 1]) + Pow2(stack[|stack| - 1].number)
  }

  lemma WeightPush(stack: seq<InferenceNode>, n: InferenceNode)
    ensures Weight(stack + [n]) == Weight(stack) + Pow2(n.number)
  {
    assert (stack + [n])[..|stack|] == stack;
  }

  /** The ids of `ids` other than `m`, in order. */
  function Without(ids: seq<int>, m: int): (r: seq<int>)
    ensures forall x :: x in r <==> x in ids && x != m
  {
    if ids == [] then []
    else Without(ids[..|ids| - 1], m) + (if ids[|ids| - 1] == m then [] else [ids[|ids| - 1]])
  }

  lemma {:induction false} WithoutDistinct(ids: seq<int>, m: int)
    requires Distinct(ids)
    ensures Distinct(Without(ids, m))
  {
    if ids != [] {
      var init := ids[..|ids| - 1];
      var x := ids[|ids| - 1];
      WithoutDistinct(init, m);
      assert x !in init by {
        forall i | 0 <= i < |init| ensures init[i] != x {
          assert init[i] == ids[i];
        }
      }
    }
  }

  lemma {:induction false} PowSumWithout(ids: seq<int>, m: int)
    requires Distinct(ids)
    ensures PowSum(ids) == PowSum(Without(ids, m)) + (if m in ids then Pow2(m) else 0)
  {
    if ids != [] {
      var init := ids[..|ids| - 1];
      var x := ids[|ids| - 1];
      assert ids == init + [x];
      assert x !in init by {
        forall i | 0 <= i < |init| ensures init[i] != x {
          assert init[i] == ids[i];
        }
      }
      PowSumWithout(init, m);
      var w := Without(init, m);
      if x != m {
        assert (w + [x])[..|w|] == w;
        assert m in ids <==> m in init;
      } else {
        assert Without(ids, m) == w;
      }
    }
  }

  /** Every id lies in `[0, n)`. */
  predicate Below(ids: seq<int>, n: int)
  {
    forall i :: 0 <= i < |ids| ==> 0 <= ids[i] < n
  }

  /** Distinct ids below `n` weigh less than `n` itself: the sum of distinct powers of two
      below 2^n is at most 2^n - 1. */
  lemma {:induction false} DistinctBelow(ids: seq<int>, n: int)
    requires Distinct(ids)
    requires Below(ids, n)
    ensures PowSum(ids) < Pow2(n)
    decreases n
  {
    if n <= 0 {
      NothingBelow(ids, n);
    } else {
      TopRemoved(ids, n);
      DistinctBelow(Without(ids, n - 1), n - 1);
      Pow2Step(n);
    }
  }

  /** No id lies below a bound that is not positive. */
  lemma NothingBelow(ids: seq<int>, n: int)
    requires n <= 0
    ensures Below(ids, n) <==> ids == []
  {
    if ids != [] {
      assert !(0 <= ids[0] < n);
    }
  }

  /** Taking the id `n - 1` out leaves distinct ids below it that weigh the rest. */
  lemma TopRemoved(ids: seq<int>, n: int)
    requires n > 0 && Distinct(ids)
    requires Below(ids, n)
    ensures Distinct(Without(ids, n - 1)) && Below(Without(ids, n - 1), n - 1)
    ensures PowSum(ids) <= PowSum(Without(ids, n - 1)) + Pow2(n - 1)
  {
    PowSumWithout(ids, n - 1);
    WithoutDistinct(ids, n - 1);
    WithoutBelow(ids, n);
  }

  lemma Pow2Step(n: int)
    requires n > 0
    ensures Pow2(n) == 2 * Pow2(n - 1)
  {
  }

  /** Removing the largest possible id leaves ids below it. */
  lemma WithoutBelow(ids: seq<int>, n: int)
    requires Below(ids, n)
    ensures Below(Without(ids, n - 1), n - 1)
  {
    var w := Without(ids, n - 1);
    forall i | 0 <= i < |w| ensures 0 <= w[i] < n - 1 {
      assert w[i] in w;
      assert w[i] in ids;
    }
  }

  lemma HasNode(s: set<InferenceNode>)
    requires s != {}
    ensures exists n :: n in s
  {
    if forall n :: n !in s {
      assert false;
    }
  }

  /** The iteration order of Python sets of ids, which the model leaves open: each set is
      listed once, the same set always in the same order. */
  ghost predicate SetOrder(order: set<int> -> seq<int>)
  {
    forall ps :: Enumerates(order(ps), ps)
  }

  /** `xs` lists each node of `s` exactly once: the iteration order of the leaf set. */
  ghost predicate ListsOnce(xs: seq<InferenceNode>, s: set<InferenceNode>)
  {
    (forall n :: n in xs <==> n in s) && forall i, j :: 0 <= i < j < |xs| ==> xs[i] != xs[j]
  }

  /** The nodes stored under the ids, in order. */
  function NodesOf(tree: Tree, ids: seq<int>): (r: seq<InferenceNode>)
    requires forall j :: 0 <= j < |ids| ==> ids[j] in tree.nodes
    ensures |r| == |ids| && forall j :: 0 <= j < |ids| ==> r[j] == tree.nodes[ids[j]]
  {
    seq(|ids|, j requires 0 <= j < |ids| => tree.nodes[ids[j]])
  }

  /** The pushed nodes weigh what their ids do, each node being stored under its number. */
  lemma {:induction false} WeightOfPushed(tree: Tree, stack: seq<InferenceNode>, ids: seq<int>)
    requires forall k :: k in tree.nodes ==> tree.nodes[k].number == k
    requires forall j :: 0 <= j < |ids| ==> ids[j] in tree.nodes
    ensures Weight(stack + NodesOf(tree, ids)) == Weight(stack) + PowSum(ids)
  {
    if ids == [] {
      assert stack + NodesOf(tree, ids) == stack;
    } else {
      var init := ids[..|ids| - 1];
      WeightOfPushed(tree, stack, init);
      var s := stack + NodesOf(tree, init);
      assert stack + NodesOf(tree, ids) == s + [tree.nodes[ids[|ids| - 1]]];
      assert (s + [tree.nodes[ids[|ids| - 1]]])[..|s|] == s;
    }
  }

  /** `stack.extend(self.nodes[parent] for parent in ...)`: the parents' nodes pushed in the
      set's iteration order `ids`; an unknown id raises. */
  method PushParents(tree: Tree, stack: seq<InferenceNode>, ps: set<int>, ids: seq<int>)
      returns (r: Result<seq<InferenceNode>>)
    requires Enumerates(ids, ps)
    ensures r.Ok? <==> ps <= tree.nodes.Keys
    ensures r.Err? ==> r.error == KeyMissing
    ensures r.Ok? ==> r.value == stack + NodesOf(tree, ids)
  {
    var s := stack;
    for j := 0 to |ids|
      invariant forall i :: 0 <= i < j ==> ids[i] in tree.nodes
      invariant s == stack + NodesOf(tree, ids[..j])
    {
      if ids[j] !in tree.nodes {
        assert ids[j] in ps;
        return Err(KeyMissing);
      }
      assert NodesOf(tree, ids[..j + 1]) == NodesOf(tree, ids[..j]) + [tree.nodes[ids[j]]];
      s := s + [tree.nodes[ids[j]]];
    }
    assert ids[..|ids|] == ids;
    assert ps <= tree.nodes.Keys by {
      forall k | k in ps ensures k in tree.nodes {
        var i :| 0 <= i < |ids| && ids[i] == k;
      }
    }
    r := Ok(s);
  }

  /** After a pop and push, the stack holds what was below the popped node, the nodes of all
      its parents, and only nodes of the tree. */
  lemma StepKeeps(tree: Tree, rest: seq<InferenceNode>, next: InferenceNode, pushed: seq<int>)
    requires next.parents.Some? && Enumerates(pushed, next.parents.value) && next.parents.value <= tree.nodes.Keys
    requires forall i :: 0 <= i < |rest| ==> InTree(tree, rest[i])
    ensures var s := rest + NodesOf(tree, pushed);
            (forall i :: 0 <= i < |rest| ==> rest[i] in s) &&
            (forall p :: p in UnfilteredParsing.ParentIds(next.parents) ==> tree.nodes[p] in s) &&
            (forall i :: 0 <= i < |s| ==> InTree(tree, s[i]))
  {
    var s := rest + NodesOf(tree, pushed);
    forall p | p in UnfilteredParsing.ParentIds(next.parents) ensures tree.nodes[p] in s {
      var j :| 0 <= j < |pushed| && pushed[j] == p;
      assert s[|rest| + j] == tree.nodes[p];
    }
    forall i | 0 <= i < |rest| ensures rest[i] in s {
      assert s[i] == rest[i];
    }
    forall i | 0 <= i < |s| ensures InTree(tree, s[i]) {
      if i >= |rest| {
        assert s[i] == tree.nodes[pushed[i - |rest|]];
      } else {
        assert s[i] == rest[i];
      }
    }
  }

  /** A pop and push lowers the weight: the parents are distinct and numbered below the node. */
  lemma StepWeighs(tree: Tree, rest: seq<InferenceNode>, next: InferenceNode, pushed: seq<int>)
    requires Ranked(tree) && InTree(tree, next)
    requires next.parents.Some? && Enumerates(pushed, next.parents.value) && next.parents.value <= tree.nodes.Keys
    ensures Weight(rest + NodesOf(tree, pushed)) < Weight(rest + [next])
  {
    InTreeRanked(tree, next);
    forall j | 0 <= j < |pushed| ensures 0 <= pushed[j] < next.number {
      assert pushed[j] in UnfilteredParsing.ParentIds(next.parents);
    }
    DistinctBelow(pushed, next.number);
    WeightOfPushed(tree, rest, pushed);
    WeightPush(rest, next);
  }

  /** One step of the walk: pop the top node, push its parents' nodes in the set's order, and
      yield it. */
  method WalkStep(tree: Tree, order: set<int> -> seq<int>, stack: seq<InferenceNode>, out: seq<InferenceNode>)
      returns (r: Result<(seq<InferenceNode>, seq<InferenceNode>)>, ghost failed: InferenceNode)
    requires Ranked(tree) && SetOrder(order) && stack != [] && AllInTree(tree, stack)
    ensures r.Err? ==> failed == stack[|stack| - 1] && FailsWith(tree, failed, r.error)
    ensures r.Ok? ==> var (stack', out') := r.value;
                      var top := stack[|stack| - 1];
                      out' == out + [top] && Expands(tree, top) &&
                      stack' == stack[..|stack| - 1] + NodesOf(tree, order(top.parents.value)) &&
                      (forall i :: 0 <= i < |stack| - 1 ==> stack[i] in stack') &&
                      (forall p :: p in UnfilteredParsing.ParentIds(top.parents) ==> tree.nodes[p] in stack') &&
                      AllInTree(tree, stack') && Weight(stack') < Weight(stack)
  {
    var next := stack[|stack| - 1];
    var rest := stack[..|stack| - 1];
    failed := next;
    if next.parents.None? {
      return Err(BadType), failed;
    }
    var pushed := order(next.parents.value);
    var extended := PushParents(tree, rest, next.parents.value, pushed);
    if extended.Err? {
      return Err(extended.error), failed;
    }
    var s := extended.value;
    StepKeeps(tree, rest, next, pushed);
    StepWeighs(tree, rest, next, pushed);
    r := Ok((s, out + [next]));
  }

  /** What the walk keeps while it runs: the yielded nodes are expandable nodes of the tree,
      and every leaf, and every parent of a yielded node, is yielded or still stacked. */
  ghost predicate Pending(tree: Tree, stack: seq<InferenceNode>, out: seq<InferenceNode>)
  {
    (forall i :: 0 <= i < |out| ==> InTree(tree, out[i]) && Expands(tree, out[i])) &&
    (forall n :: n in tree.leaves ==> n in stack || n in out) &&
    (forall i, p :: 0 <= i < |out| && p in UnfilteredParsing.ParentIds(out[i].parents) ==>
                    p in tree.nodes && (tree.nodes[p] in stack || tree.nodes[p] in out))
  }

  /** Yielding the top node and keeping the rest of the stack and the top's parents keeps what
      the walk keeps. */
  lemma PendingStep(tree: Tree, stack: seq<InferenceNode>, out: seq<InferenceNode>, stack': seq<InferenceNode>)
    requires Pending(tree, stack, out) && stack != []
    requires InTree(tree, stack[|stack| - 1]) && Expands(tree, stack[|stack| - 1])
    requires forall i :: 0 <= i < |stack| - 1 ==> stack[i] in stack'
    requires forall p :: p in UnfilteredParsing.ParentIds(stack[|stack| - 1].parents) ==> tree.nodes[p] in stack'
    ensures Pending(tree, stack', out + [stack[|stack| - 1]])
  {
    var top := stack[|stack| - 1];
    assert forall n :: n in stack ==> n in stack' || n == top by {
      forall n | n in stack ensures n in stack' || n == top {
        var i :| 0 <= i < |stack| && stack[i] == n;
        if i < |stack| - 1 {
          assert stack[i] in stack';
        }
      }
    }
    var out' := out + [top];
    forall i | 0 <= i < |out'| ensures InTree(tree, out'[i]) && Expands(tree, out'[i]) {
      if i < |out| {
        assert out'[i] == out[i];
      }
    }
    forall i, p | 0 <= i < |out'| && p in UnfilteredParsing.ParentIds(out'[i].parents)
      ensures p in tree.nodes && (tree.nodes[p] in stack' || tree.nodes[p] in out')
    {
      if i < |out| {
        assert out'[i] == out[i];
      }
    }
  }

  /** Popping an expandable node: the walk's future from the new stack, after the yields so far
      and the node, is the future it had. */
  lemma IterateAdvance(tree: Tree, order: set<int> -> seq<int>, out: seq<InferenceNode>, stack: seq<InferenceNode>)
    requires Ranked(tree) && SetOrder(order) && AllRanked(stack) && stack != []
    requires Expands(tree, stack[|stack| - 1])
    ensures AllRanked(stack[..|stack| - 1] + NodesOf(tree, order(stack[|stack| - 1].parents.value)))
    ensures Then(Ok(out + [stack[|stack| - 1]]), WalkFrom(tree, order, stack[..|stack| - 1] + NodesOf(tree, order(stack[|stack| - 1].parents.value)))) ==
            Then(Ok(out), WalkFrom(tree, order, stack))
  {
    var rest, top := stack[..|stack| - 1], stack[|stack| - 1];
    assert stack == rest + [top];
    StepWalk(tree, order, rest, top);
    var next := rest + NodesOf(tree, order(top.parents.value));
    ThenAssoc(Ok(out), Ok([top]), WalkFrom(tree, order, next));
  }

  /** The walk starts from the leaves, with nothing yielded. */
  lemma IterateStart(tree: Tree, order: set<int> -> seq<int>, leaves: seq<InferenceNode>)
    requires Ranked(tree) && SetOrder(order) && ListsOnce(leaves, tree.leaves)
    ensures AllInTree(tree, leaves) && AllRanked(leaves) && Pending(tree, leaves, [])
    ensures Then(Ok([]), WalkFrom(tree, order, leaves)) == WalkFrom(tree, order, leaves)
  {
    forall i | 0 <= i < |leaves| ensures InTree(tree, leaves[i]) {
      assert leaves[i] in leaves;
    }
    InTreeAllRanked(tree, leaves);
    ThenNothing(WalkFrom(tree, order, leaves));
  }

  /** With the stack empty, the walk has yielded all it had to, and a complete walk's yield. */
  lemma IterateDone(tree: Tree, order: set<int> -> seq<int>, out: seq<InferenceNode>)
    requires Ranked(tree) && SetOrder(order) && Pending(tree, [], out)
    ensures Then(Ok(out), WalkFrom(tree, order, [])) == Ok(out) && Yields(tree, out)
  {
    assert out + [] == out;
  }

  /** Popping a node that cannot be expanded: the walk ends with its error. */
  lemma IterateFails(tree: Tree, order: set<int> -> seq<int>, out: seq<InferenceNode>, stack: seq<InferenceNode>, e: Error)
    requires Ranked(tree) && SetOrder(order) && AllRanked(stack) && stack != []
    requires FailsWith(tree, stack[|stack| - 1], e)
    ensures Then(Ok(out), WalkFrom(tree, order, stack)) == Err(e)
  {
    var rest, top := stack[..|stack| - 1], stack[|stack| - 1];
    assert stack == rest + [top];
    FailWalk(tree, order, rest, top, e);
  }

  /** `__iter__`, run to the end from the leaves listed in the set's order: the depth-first
      walk `WalkFrom`, which yields a node once per parent path that reaches it, or the error
      it raises on the first node it cannot expand. */
  method Iterate(tree: Tree, order: set<int> -> seq<int>, leaves: seq<InferenceNode>) returns (r: Result<seq<InferenceNode>>)
    requires Ranked(tree) && SetOrder(order) && ListsOnce(leaves, tree.leaves)
    ensures AllRanked(leaves) && r == WalkFrom(tree, order, leaves)
    ensures r.Ok? ==> Yields(tree, r.value)
    ensures r.Err? ==> exists n :: InTree(tree, n) && FailsWith(tree, n, r.error)
  {
    var stack := leaves;
    var out: seq<InferenceNode> := [];
    IterateStart(tree, order, leaves);
    while stack != []
      invariant AllInTree(tree, stack) && AllRanked(stack) && AllRanked(leaves)
      invariant Then(Ok(out), WalkFrom(tree, order, stack)) == WalkFrom(tree, order, leaves)
      invariant Pending(tree, stack, out)
      decreases Weight(stack)
    {
      var step;
      ghost var failed;
      step, failed := WalkStep(tree, order, stack, out);
      if step.Err? {
        IterateFails(tree, order, out, stack, step.error);
        assert stack[|stack| - 1] in stack;
        return Err(step.error);
      }
      IterateAdvance(tree, order, out, stack);
      PendingStep(tree, stack, out, step.value.0);
      stack, out := step.value.0, step.value.1;
      InTreeAllRanked(tree, stack);
    }
    IterateDone(tree, order, out);
    r := Ok(out);
  }

  /** The node a chain of parent ids has reached after its first `i` steps from the leaf. */
  ghost function ChainNode(tree: Tree, leaf: InferenceNode, ids: seq<int>, i: nat): InferenceNode
    requires i <= |ids| && forall j :: 0 <= j < |ids| ==> ids[j] in tree.nodes
  {
    if i == 0 then leaf else tree.nodes[ids[i - 1]]
  }

  /** A chain from a leaf: each id is a parent of the node reached before it. */
  ghost predicate ParentChain(tree: Tree, leaf: InferenceNode, ids: seq<int>)
  {
    leaf in tree.leaves && (forall j :: 0 <= j < |ids| ==> ids[j] in tree.nodes) &&
    forall j :: 0 <= j < |ids| ==> ids[j] in UnfilteredParsing.ParentIds(ChainNode(tree, leaf, ids, j).parents)
  }

  /** A complete walk yields every node reachable from a leaf through parents. */
  lemma {:induction false} YieldsReachable(tree: Tree, out: seq<InferenceNode>, leaf: InferenceNode, ids: seq<int>)
    requires Yields(tree, out)
    requires ParentChain(tree, leaf, ids)
    ensures ChainNode(tree, leaf, ids, |ids|) in out
  {
    if ids != [] {
      var init := ids[..|ids| - 1];
      assert ParentChain(tree, leaf, init) by {
        forall j | 0 <= j < |init| ensures init[j] in UnfilteredParsing.ParentIds(ChainNode(tree, leaf, init, j).parents) {
          assert ChainNode(tree, leaf, init, j) == ChainNode(tree, leaf, ids, j);
        }
      }
      YieldsReachable(tree, out, leaf, init);
      var prev := ChainNode(tree, leaf, init, |init|);
      assert prev == ChainNode(tree, leaf, ids, |ids| - 1);
      var j :| 0 <= j < |out| && out[j] == prev;
      var p := ids[|ids| - 1];
      assert p in UnfilteredParsing.ParentIds(out[j].parents);
      assert tree.nodes[p] in out;
    }
  }

  /** Every node of the stack is ranked. */
  ghost predicate AllRanked(stack: seq<InferenceNode>)
  {
    forall i :: 0 <= i < |stack| ==> RankedNode(stack[i])
  }

  lemma InTreeAllRanked(tree: Tree, stack: seq<InferenceNode>)
    requires Ranked(tree) && AllInTree(tree, stack)
    ensures AllRanked(stack)
  {
    forall i | 0 <= i < |stack| ensures RankedNode(stack[i]) {
      InTreeRanked(tree, stack[i]);
    }
  }

  /** The parents of a ranked node are numbered below it. */
  lemma ParentsBelow(n: InferenceNode)
    requires RankedNode(n) && n.parents.Some?
    ensures forall p :: p in n.parents.value ==> 0 <= p < n.number
  {
    forall p | p in n.parents.value ensures 0 <= p < n.number {
      assert p in UnfilteredParsing.ParentIds(n.parents);
    }
  }

  lemma SomeId(s: set<int>)
    requires s != {}
    ensures exists p :: p in s
  {
    if forall p :: p !in s {
      assert false;
    }
  }

  /** Runs `a`, then `b`: their yields one after the other, or the first error. */
  function Then(a: Result<seq<InferenceNode>>, b: Result<seq<InferenceNode>>): (r: Result<seq<InferenceNode>>)
    ensures r.Ok? <==> a.Ok? && b.Ok?
    ensures r.Ok? ==> r.value == a.value + b.value
    ensures r.Err? ==> r.error == (if a.Err? then a.error else b.error)
  {
    if a.Err? then a else if b.Err? then b else Ok(a.value + b.value)
  }

  lemma ThenNothing(b: Result<seq<InferenceNode>>)
    ensures Then(Ok([]), b) == b
  {
    if b.Ok? {
      assert [] + b.value == b.value;
    }
  }

  lemma ThenAssoc(a: Result<seq<InferenceNode>>, b: Result<seq<InferenceNode>>, c: Result<seq<InferenceNode>>)
    ensures Then(Then(a, b), c) == Then(a, Then(b, c))
  {
    if a.Ok? && b.Ok? && c.Ok? {
      assert (a.value + b.value) + c.value == a.value + (b.value + c.value);
    }
  }

  /** The walk from one popped node: the node, then the walks from its parents' nodes, the
      parent pushed last first; a placeholder's `None` parents raise a `TypeError`, an unknown
      parent id a `KeyError`. */
  ghost function Tour(tree: Tree, order: set<int> -> seq<int>, n: InferenceNode): Result<seq<InferenceNode>>
    requires Ranked(tree) && SetOrder(order) && RankedNode(n)
    decreases n.number + 1, 0
  {
    if n.parents.None? then Err(BadType)
    else if !(n.parents.value <= tree.nodes.Keys) then Err(KeyMissing)
    else
      ParentsBelow(n);
      Then(Ok([n]), Tours(tree, order, order(n.parents.value), n.number))
  }

  /** The walks from the nodes of `ids` pushed in that order: the last one first. */
  ghost function Tours(tree: Tree, order: set<int> -> seq<int>, ids: seq<int>, bound: int): Result<seq<InferenceNode>>
    requires Ranked(tree) && SetOrder(order)
    requires forall j :: 0 <= j < |ids| ==> ids[j] in tree.nodes && 0 <= ids[j] < bound
    decreases bound, |ids|
  {
    if ids == [] then Ok([])
    else Then(Tour(tree, order, tree.nodes[ids[|ids| - 1]]), Tours(tree, order, ids[..|ids| - 1], bound))
  }

  /** The walk from a whole stack: the top node's walk, then the walk from what is below it. */
  ghost function WalkFrom(tree: Tree, order: set<int> -> seq<int>, stack: seq<InferenceNode>): Result<seq<InferenceNode>>
    requires Ranked(tree) && SetOrder(order) && AllRanked(stack)
    decreases |stack|
  {
    if stack == [] then Ok([])
    else Then(Tour(tree, order, stack[|stack| - 1]), WalkFrom(tree, order, stack[..|stack| - 1]))
  }

  /** Stacking a ranked node onto a stack: its walk comes first. */
  lemma WalkSnoc(tree: Tree, order: set<int> -> seq<int>, below: seq<InferenceNode>, top: InferenceNode)
    requires Ranked(tree) && SetOrder(order) && AllRanked(below) && RankedNode(top)
    ensures AllRanked(below + [top])
    ensures WalkFrom(tree, order, below + [top]) == Then(Tour(tree, order, top), WalkFrom(tree, order, below))
  {
    var s := below + [top];
    assert AllRanked(s) by {
      forall i | 0 <= i < |s| ensures RankedNode(s[i]) {
        if i < |below| {
          assert s[i] == below[i];
        }
      }
    }
    assert s[..|below|] == below;
  }

  /** The nodes of the tree pushed onto a ranked stack keep it ranked. */
  lemma PushedRanked(tree: Tree, rest: seq<InferenceNode>, ids: seq<int>)
    requires Ranked(tree) && AllRanked(rest)
    requires forall j :: 0 <= j < |ids| ==> ids[j] in tree.nodes
    ensures AllRanked(rest + NodesOf(tree, ids))
  {
    var s := rest + NodesOf(tree, ids);
    forall i | 0 <= i < |s| ensures RankedNode(s[i]) {
      if i >= |rest| {
        var k := ids[i - |rest|];
        assert k in tree.nodes && s[i] == tree.nodes[k];
      } else {
        assert s[i] == rest[i];
      }
    }
  }

  lemma NodesOfSnoc(tree: Tree, ids: seq<int>)
    requires ids != [] && forall j :: 0 <= j < |ids| ==> ids[j] in tree.nodes
    ensures NodesOf(tree, ids) == NodesOf(tree, ids[..|ids| - 1]) + [tree.nodes[ids[|ids| - 1]]]
  {
  }

  /** Pushing the nodes of `ids` onto a stack puts their walks before the stack's own. */
  lemma {:induction false} WalkPush(tree: Tree, order: set<int> -> seq<int>, rest: seq<InferenceNode>, ids: seq<int>, bound: int)
    requires Ranked(tree) && SetOrder(order) && AllRanked(rest)
    requires forall j :: 0 <= j < |ids| ==> ids[j] in tree.nodes && 0 <= ids[j] < bound
    ensures AllRanked(rest + NodesOf(tree, ids))
    ensures WalkFrom(tree, order, rest + NodesOf(tree, ids)) == Then(Tours(tree, order, ids, bound), WalkFrom(tree, order, rest))
    decreases |ids|
  {
    PushedRanked(tree, rest, ids);
    if ids == [] {
      assert rest + NodesOf(tree, ids) == rest;
      ThenNothing(WalkFrom(tree, order, rest));
    } else {
      var init := ids[..|ids| - 1];
      var top := tree.nodes[ids[|ids| - 1]];
      WalkPush(tree, order, rest, init, bound);
      var below := rest + NodesOf(tree, init);
      NodesOfSnoc(tree, ids);
      assert rest + NodesOf(tree, ids) == below + [top];
      WalkSnoc(tree, order, below, top);
      ThenAssoc(Tour(tree, order, top), Tours(tree, order, init, bound), WalkFrom(tree, order, rest));
    }
  }

  /** Popping an expandable node and pushing its parents' nodes leaves the walk's future as it
      was: the node, then what the new stack yields. */
  lemma StepWalk(tree: Tree, order: set<int> -> seq<int>, rest: seq<InferenceNode>, top: InferenceNode)
    requires Ranked(tree) && SetOrder(order) && AllRanked(rest) && RankedNode(top) && Expands(tree, top)
    ensures AllRanked(rest + [top]) && AllRanked(rest + NodesOf(tree, order(top.parents.value)))
    ensures WalkFrom(tree, order, rest + [top]) ==
            Then(Ok([top]), WalkFrom(tree, order, rest + NodesOf(tree, order(top.parents.value))))
  {
    var ids := order(top.parents.value);
    assert forall j :: 0 <= j < |ids| ==> ids[j] in top.parents.value;
    ParentsBelow(top);
    WalkPush(tree, order, rest, ids, top.number);
    var s := rest + [top];
    assert AllRanked(s) by {
      forall i | 0 <= i < |s| ensures RankedNode(s[i]) {
        if i < |rest| {
          assert s[i] == rest[i];
        }
      }
    }
    assert s[..|rest|] == rest;
    ThenAssoc(Ok([top]), Tours(tree, order, ids, top.number), WalkFrom(tree, order, rest));
  }

  /** A popped node that cannot be expanded ends the walk with its error. */
  lemma FailWalk(tree: Tree, order: set<int> -> seq<int>, rest: seq<InferenceNode>, top: InferenceNode, e: Error)
    requires Ranked(tree) && SetOrder(order) && AllRanked(rest) && RankedNode(top) && FailsWith(tree, top, e)
    ensures AllRanked(rest + [top]) && WalkFrom(tree, order, rest + [top]) == Err(e)
  {
    var s := rest + [top];
    assert AllRanked(s) by {
      forall i | 0 <= i < |s| ensures RankedNode(s[i]) {
        if i < |rest| {
          assert s[i] == rest[i];
        }
      }
    }
    assert s[..|rest|] == rest;
  }

  /** `m` is `n` or lies above it along parent ids stored in the tree. */
  ghost predicate Reaches(tree: Tree, n: InferenceNode, m: InferenceNode)
    requires Ranked(tree) && RankedNode(n)
    decreases n.number
  {
    if n == m then true
    else if n.parents.None? then false
    else
      ParentsBelow(n);
      exists p :: p in n.parents.value && p in tree.nodes && Reaches(tree, tree.nodes[p], m)
  }

  /** The walks from a list of ids succeed exactly when the walk from each of them does. */
  lemma {:induction false} ToursOk(tree: Tree, order: set<int> -> seq<int>, ids: seq<int>, bound: int)
    requires Ranked(tree) && SetOrder(order)
    requires forall j :: 0 <= j < |ids| ==> ids[j] in tree.nodes && 0 <= ids[j] < bound
    ensures Tours(tree, order, ids, bound).Ok? <==>
            forall j :: 0 <= j < |ids| ==> Tour(tree, order, tree.nodes[ids[j]]).Ok?
    decreases |ids|
  {
    if ids != [] {
      var init := ids[..|ids| - 1];
      ToursOk(tree, order, init, bound);
      assert forall j :: 0 <= j < |init| ==> init[j] == ids[j];
    }
  }

  /** The walk from a node succeeds exactly when every node it reaches can be expanded. */
  lemma {:induction false} TourOkExactly(tree: Tree, order: set<int> -> seq<int>, n: InferenceNode)
    requires Ranked(tree) && SetOrder(order) && RankedNode(n)
    ensures Tour(tree, order, n).Ok? <==> forall m :: Reaches(tree, n, m) ==> Expands(tree, m)
    decreases n.number
  {
    if Expands(tree, n) {
      var ps := n.parents.value;
      var ids := order(ps);
      ParentsBelow(n);
      ToursOk(tree, order, ids, n.number);
      forall p | p in ps
        ensures Tour(tree, order, tree.nodes[p]).Ok? <==> forall m :: Reaches(tree, tree.nodes[p], m) ==> Expands(tree, m)
      {
        TourOkExactly(tree, order, tree.nodes[p]);
      }
      if Tour(tree, order, n).Ok? {
        forall m | Reaches(tree, n, m) ensures Expands(tree, m) {
          if n != m {
            var p :| p in ps && p in tree.nodes && Reaches(tree, tree.nodes[p], m);
            var j :| 0 <= j < |ids| && ids[j] == p;
          }
        }
      } else {
        var j :| 0 <= j < |ids| && !Tour(tree, order, tree.nodes[ids[j]]).Ok?;
        var p := ids[j];
        var m :| Reaches(tree, tree.nodes[p], m) && !Expands(tree, m);
        assert Reaches(tree, n, m);
      }
    } else {
      assert Reaches(tree, n, n);
    }
  }

  /** The walk from a stack succeeds exactly when every node reached from a stacked node can be
      expanded: a failing reachable node is always met. */
  lemma {:induction false} WalkOkExactly(tree: Tree, order: set<int> -> seq<int>, stack: seq<InferenceNode>)
    requires Ranked(tree) && SetOrder(order) && AllRanked(stack)
    ensures WalkFrom(tree, order, stack).Ok? <==>
            forall i, m :: 0 <= i < |stack| && Reaches(tree, stack[i], m) ==> Expands(tree, m)
    decreases |stack|
  {
    if stack != [] {
      var init := stack[..|stack| - 1];
      assert AllRanked(init);
      WalkOkExactly(tree, order, init);
      TourOkExactly(tree, order, stack[|stack| - 1]);
      assert forall i :: 0 <= i < |init| ==> init[i] == stack[i];
    }
  }

  /** The number of parent paths from `n` up to `m`, the empty path included. */
  ghost function Paths(tree: Tree, n: InferenceNode, m: InferenceNode): nat
    requires Ranked(tree) && RankedNode(n)
    decreases n.number + 1, 0
  {
    (if n == m then 1 else 0) +
    (if n.parents.Some? then ParentsBelow(n); PathsOver(tree, n.parents.value * tree.nodes.Keys, m, n.number) else 0)
  }

  /** The paths up to `m` from the nodes of the ids in `s`, added up. */
  ghost function PathsOver(tree: Tree, s: set<int>, m: InferenceNode, bound: int): nat
    requires Ranked(tree) && forall p :: p in s ==> p in tree.nodes && 0 <= p < bound
    decreases bound, |s|
  {
    if s == {} then 0
    else
      SomeId(s);
      var p :| p in s;
      Paths(tree, tree.nodes[p], m) + PathsOver(tree, s - {p}, m, bound)
  }

  /** The sum does not depend on which id is taken first. */
  lemma {:induction false} PathsOverRemove(tree: Tree, s: set<int>, m: InferenceNode, bound: int, x: int)
    requires Ranked(tree) && forall p :: p in s ==> p in tree.nodes && 0 <= p < bound
    requires x in s
    ensures PathsOver(tree, s, m, bound) == Paths(tree, tree.nodes[x], m) + PathsOver(tree, s - {x}, m, bound)
    decreases |s|
  {
    var y :| y in s && PathsOver(tree, s, m, bound) == Paths(tree, tree.nodes[y], m) + PathsOver(tree, s - {y}, m, bound);
    if y != x {
      PathsOverRemove(tree, s - {y}, m, bound, x);
      PathsOverRemove(tree, s - {x}, m, bound, y);
      assert s - {y} - {x} == s - {x} - {y};
    }
  }

  /** There is a path from `n` up to `m` exactly when `m` is reached from `n`. */
  lemma {:induction false} PathsPositive(tree: Tree, n: InferenceNode, m: InferenceNode)
    requires Ranked(tree) && RankedNode(n)
    ensures Paths(tree, n, m) > 0 <==> Reaches(tree, n, m)
    decreases n.number + 1, 0
  {
    if n.parents.Some? {
      ParentsBelow(n);
      PathsOverPositive(tree, n.parents.value * tree.nodes.Keys, m, n.number);
    }
  }

  lemma {:induction false} PathsOverPositive(tree: Tree, s: set<int>, m: InferenceNode, bound: int)
    requires Ranked(tree) && forall p :: p in s ==> p in tree.nodes && 0 <= p < bound
    ensures PathsOver(tree, s, m, bound) > 0 <==> exists p :: p in s && Reaches(tree, tree.nodes[p], m)
    decreases bound, |s|
  {
    if s != {} {
      SomeId(s);
      var x :| x in s;
      PathsOverRemove(tree, s, m, bound, x);
      PathsPositive(tree, tree.nodes[x], m);
      PathsOverPositive(tree, s - {x}, m, bound);
      if exists p :: p in s && Reaches(tree, tree.nodes[p], m) {
        var p :| p in s && Reaches(tree, tree.nodes[p], m);
        if p != x {
          assert p in s - {x};
        }
      }
    }
  }

  /** A successful walk from a node yields each node once per parent path that reaches it: there
      is no visited set, so a node above two paths is yielded twice. */
  lemma {:induction false} TourCount(tree: Tree, order: set<int> -> seq<int>, n: InferenceNode, m: InferenceNode)
    requires Ranked(tree) && SetOrder(order) && RankedNode(n) && Tour(tree, order, n).Ok?
    ensures multiset(Tour(tree, order, n).value)[m] == Paths(tree, n, m)
    decreases n.number + 1, 0
  {
    var ps := n.parents.value;
    assert ps * tree.nodes.Keys == ps;
    ParentsBelow(n);
    ToursCount(tree, order, order(ps), ps, n.number, m);
  }

  lemma {:induction false} ToursCount(tree: Tree, order: set<int> -> seq<int>, ids: seq<int>, s: set<int>, bound: int, m: InferenceNode)
    requires Ranked(tree) && SetOrder(order) && Enumerates(ids, s)
    requires forall j :: 0 <= j < |ids| ==> ids[j] in tree.nodes && 0 <= ids[j] < bound
    requires Tours(tree, order, ids, bound).Ok?
    ensures forall p :: p in s ==> p in tree.nodes && 0 <= p < bound
    ensures multiset(Tours(tree, order, ids, bound).value)[m] == PathsOver(tree, s, m, bound)
    decreases bound, |ids|
  {
    if ids == [] {
      if s != {} {
        SomeId(s);
      }
    } else {
      var x := ids[|ids| - 1];
      var init := ids[..|ids| - 1];
      assert Enumerates(init, s - {x}) by {
        forall k | k in s - {x} ensures k in init {
          var i :| 0 <= i < |ids| && ids[i] == k;
          assert i < |ids| - 1;
          assert init[i] == k;
        }
      }
      TourCount(tree, order, tree.nodes[x], m);
      ToursCount(tree, order, init, s - {x}, bound, m);
      PathsOverRemove(tree, s, m, bound, x);
    }
  }

  /** The paths up to `m` from every node of a stack. */
  ghost function WalkPaths(tree: Tree, stack: seq<InferenceNode>, m: InferenceNode): nat
    requires Ranked(tree) && AllRanked(stack)
    decreases |stack|
  {
    if stack == [] then 0 else WalkPaths(tree, stack[..|stack| - 1], m) + Paths(tree, stack[|stack| - 1], m)
  }

  /** A successful walk from a stack yields each node once per parent path from a stacked node. */
  lemma {:induction false} WalkCount(tree: Tree, order: set<int> -> seq<int>, stack: seq<InferenceNode>, m: InferenceNode)
    requires Ranked(tree) && SetOrder(order) && AllRanked(stack) && WalkFrom(tree, order, stack).Ok?
    ensures multiset(WalkFrom(tree, order, stack).value)[m] == WalkPaths(tree, stack, m)
    decreases |stack|
  {
    if stack != [] {
      WalkCount(tree, order, stack[..|stack| - 1], m);
      TourCount(tree, order, stack[|stack| - 1], m);
    }
  }

  lemma {:induction false} WalkPathsPositive(tree: Tree, stack: seq<InferenceNode>, m: InferenceNode)
    requires Ranked(tree) && AllRanked(stack)
    ensures WalkPaths(tree, stack, m) > 0 <==> exists i :: 0 <= i < |stack| && Reaches(tree, stack[i], m)
    decreases |stack|
  {
    if stack != [] {
      var init := stack[..|stack| - 1];
      WalkPathsPositive(tree, init, m);
      PathsPositive(tree, stack[|stack| - 1], m);
      assert forall i :: 0 <= i < |init| ==> init[i] == stack[i];
      if exists i :: 0 <= i < |stack| && Reaches(tree, stack[i], m) {
        var i :| 0 <= i < |stack| && Reaches(tree, stack[i], m);
        if i < |init| {
          assert Reaches(tree, init[i], m);
        }
      }
    }
  }

  /** A successful walk yields exactly the nodes reached from a stacked node, and no other. */
  lemma WalkYieldsReached(tree: Tree, order: set<int> -> seq<int>, stack: seq<InferenceNode>, m: InferenceNode)
    requires Ranked(tree) && SetOrder(order) && AllRanked(stack) && WalkFrom(tree, order, stack).Ok?
    ensures m in WalkFrom(tree, order, stack).value <==> exists i :: 0 <= i < |stack| && Reaches(tree, stack[i], m)
  {
    WalkCount(tree, order, stack, m);
    WalkPathsPositive(tree, stack, m);
  }

  /** A node reached through two different parents of `n` is yielded at least twice by the walk
      from `n`. */
  lemma TwoParentsTwice(tree: Tree, order: set<int> -> seq<int>, n: InferenceNode, p: int, q: int, m: InferenceNode)
    requires Ranked(tree) && SetOrder(order) && RankedNode(n) && Tour(tree, order, n).Ok?
    requires n.parents.Some? && p in n.parents.value && q in n.parents.value && p != q
    requires p in tree.nodes && q in tree.nodes
    requires Reaches(tree, tree.nodes[p], m) && Reaches(tree, tree.nodes[q], m)
    ensures multiset(Tour(tree, order, n).value)[m] >= 2
  {
    TourCount(tree, order, n, m);
    var s := n.parents.value * tree.nodes.Keys;
    ParentsBelow(n);
    PathsOverRemove(tree, s, m, n.number, p);
    PathsOverRemove(tree, s - {p}, m, n.number, q);
    PathsPositive(tree, tree.nodes[p], m);
    PathsPositive(tree, tree.nodes[q], m);
  }

  /** A node's text (presenter/parsing/inference_node.py): its clause without single quotes;
      a placeholder's `None` clause, or an empty one, gives the empty text. */
  function NodeRepr(n: InferenceNode): (r: string)
    ensures '\'' !in r
    ensures n.clause.Some? && '\'' !in n.clause.value ==> r == n.clause.value
    ensures n.clause.None? ==> r == ""
  {
    if n.clause.Some? && n.clause.value != "" then RemoveAll(n.clause.value, {'\''}) else ""
  }

  function NodeReprs(ns: seq<InferenceNode>): (r: seq<string>)
    ensures |r| == |ns| && forall i :: 0 <= i < |ns| ==> r[i] == NodeRepr(ns[i])
  {
    seq(|ns|, i requires 0 <= i < |ns| => NodeRepr(ns[i]))
  }

  /** The title: the counts of nodes and leaves, each noun singular exactly for a count of one. */
  function Title(tree: Tree): string
  {
    "Tree with " + ReprUtil.CountRepr(|tree.nodes|, "node", "nodes") + " and " +
    ReprUtil.CountRepr(|tree.leaves|, "leaf", "leaves")
  }

  /** The rendering: the title bar, the walk's nodes, a rule, the leaves, the closing bar. */
  function ReprText(tree: Tree, yielded: seq<InferenceNode>, leafOrder: seq<InferenceNode>): string
  {
    Join([ReprUtil.TitleRepr(Title(tree)), Join(NodeReprs(yielded), "\n"), ReprUtil.Separator(),
          Join(NodeReprs(leafOrder), "\n"), PresenterUtil.LastLine()], "\n")
  }

  /** `__repr__`: walks the whole tree, then lists the leaves in the same set order the walk
      started from; fails where the walk does. */
  method Repr(tree: Tree, order: set<int> -> seq<int>, leaves: seq<InferenceNode>)
      returns (r: Result<string>, ghost yielded: seq<InferenceNode>)
    requires Ranked(tree) && SetOrder(order) && ListsOnce(leaves, tree.leaves)
    ensures AllRanked(leaves)
    ensures r.Ok? ==> Yields(tree, yielded) && WalkFrom(tree, order, leaves) == Ok(yielded) &&
                      r.value == ReprText(tree, yielded, leaves)
    ensures r.Err? ==> WalkFrom(tree, order, leaves) == Err(r.error) &&
                       exists n :: InTree(tree, n) && FailsWith(tree, n, r.error)
  {
    var walk := Iterate(tree, order, leaves);
    if walk.Err? {
      return Err(walk.error), [];
    }
    yielded := walk.value;
    r := Ok(Join([ReprUtil.TitleRepr(Title(tree)), Join(NodeReprs(walk.value), "\n"), ReprUtil.Separator(),
                  Join(NodeReprs(leaves), "\n"), PresenterUtil.LastLine()], "\n"));
  }

  /** The rendering opens with the title bar on its own line and closes with the bar of '='. */
  lemma ReprFrame(tree: Tree, yielded: seq<InferenceNode>, leafOrder: seq<InferenceNode>)
    ensures StartsWith(ReprText(tree, yielded, leafOrder), ReprUtil.TitleRepr(Title(tree)) + "\n")
    ensures EndsWith(ReprText(tree, yielded, leafOrder), "\n" + PresenterUtil.LastLine())
  {
    JoinFrame([ReprUtil.TitleRepr(Title(tree)), Join(NodeReprs(yielded), "\n"), ReprUtil.Separator(),
               Join(NodeReprs(leafOrder), "\n"), PresenterUtil.LastLine()], "\n");
  }
}
