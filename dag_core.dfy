/** The derivation graph shared by every generation of the visualiser: a table of nodes keyed
    by clause id, each node naming the ids of its parents (the premises it was inferred from).
    The leaves are the ids no node names as a parent, i.e. the final conclusions. This module
    holds the node record, the well-formedness conditions (every parent is in the table, and the
    parent relation is acyclic, witnessed by a rank that decreases from child to parent), and
    reachability along parent links, on which the traversals and the transformations are
    specified. */
module Dags {
  import opened Wrappers

  /** A node as the dags hold it: the union of the fields of the Python and TypeScript nodes. */
  datatype DagNode = DagNode(number: int, clause: string, inferenceRule: string, parents: seq<int>,
                             statistics: map<string, int>, isFromPreprocessing: bool,
                             newTime: Option<int>, passiveTime: Option<int>, activeTime: Option<int>,
                             deletionTime: Option<int>, deletionParents: Option<seq<int>>)

  type NodeTable = map<int, DagNode>

  /** A dag: its node table and the leaves computed when it was built. */
  datatype Dag = Dag(nodes: NodeTable, leaves: set<int>)

  /** The ids named as a parent by the nodes of `keys`. */
  function ParentIdsOf(nodes: NodeTable, keys: set<int>): set<int>
  {
    set k, p | k in keys && k in nodes && p in nodes[k].parents :: p
  }

  /** The ids that no node names as a parent: the conclusions of the derivation. */
  function LeafIds(nodes: NodeTable): (r: set<int>)
    ensures forall k :: k in r <==> k in nodes && forall m :: m in nodes ==> k !in nodes[m].parents
  {
    var nonLeaves := ParentIdsOf(nodes, nodes.Keys);
    assert forall k, m :: m in nodes && k in nodes[m].parents ==> k in nonLeaves;
    set k | k in nodes && k !in nonLeaves
  }

  /** Every id named as a parent is in the table. */
  predicate Closed(nodes: NodeTable)
  {
    forall k, p :: k in nodes && p in nodes[k].parents ==> p in nodes
  }

  /** `rank` strictly decreases from every node to each of its parents. */
  predicate RankedBy(nodes: NodeTable, rank: map<int, nat>)
  {
    (forall k :: k in nodes ==> k in rank) &&
    (forall k, p :: k in nodes && p in nodes[k].parents && p in nodes ==> p in rank && rank[p] < rank[k])
  }

  /** No chain of parent links returns to where it started. */
  ghost predicate Acyclic(nodes: NodeTable)
  {
    exists rank :: RankedBy(nodes, rank)
  }

  /** The table as every traversal needs it. */
  ghost predicate WellFormed(nodes: NodeTable)
  {
    Closed(nodes) && Acyclic(nodes)
  }

  /** The stored leaves are what the constructor computes. */
  ghost predicate WellFormedDag(d: Dag)
  {
    WellFormed(d.nodes) && d.leaves == LeafIds(d.nodes)
  }

  /** Each node is stored under its own number. */
  predicate KeyedByNumber(nodes: NodeTable)
  {
    forall k :: k in nodes ==> nodes[k].number == k
  }

  // Reachability along parent links.

  /** A chain of parent links: each element is in the table and the next is one of its parents. */
  ghost predicate IsPath(nodes: NodeTable, path: seq<int>)
  {
    |path| >= 1 && forall i :: 0 <= i < |path| - 1 ==> path[i] in nodes && path[i + 1] in nodes[path[i]].parents
  }

  /** `b` is `a` or one of its transitive parents. */
  ghost predicate Reach(nodes: NodeTable, a: int, b: int)
  {
    exists path :: IsPath(nodes, path) && path[0] == a && path[|path| - 1] == b
  }

  /** The ids in the table that are ids of `s` or transitive parents of them. */
  ghost function Ancestors(nodes: NodeTable, s: set<int>): set<int>
  {
    set k | k in nodes && exists a :: a in s && Reach(nodes, a, k)
  }

  /** The ids in the table having an id of `s` as themselves or as a transitive parent. */
  ghost function Descendants(nodes: NodeTable, s: set<int>): set<int>
  {
    set k | k in nodes && exists a :: a in s && Reach(nodes, k, a)
  }

  lemma ReachRefl(nodes: NodeTable, a: int)
    ensures Reach(nodes, a, a)
  {
    assert IsPath(nodes, [a]);
  }

  lemma ReachPrepend(nodes: NodeTable, a: int, p: int, b: int)
    requires a in nodes && p in nodes[a].parents && Reach(nodes, p, b)
    ensures Reach(nodes, a, b)
  {
    var path :| IsPath(nodes, path) && path[0] == p && path[|path| - 1] == b;
    var longer := [a] + path;
    assert forall i :: 1 <= i < |longer| ==> longer[i] == path[i - 1];
    assert IsPath(nodes, longer);
  }

  lemma ReachAppend(nodes: NodeTable, a: int, c: int, b: int)
    requires Reach(nodes, a, c) && c in nodes && b in nodes[c].parents
    ensures Reach(nodes, a, b)
  {
    var path :| IsPath(nodes, path) && path[0] == a && path[|path| - 1] == c;
    var longer := path + [b];
    assert forall i :: 0 <= i < |path| ==> longer[i] == path[i];
    assert IsPath(nodes, longer);
  }

  /** A chain of more than one node starts with a parent link. */
  lemma ReachFirstStep(nodes: NodeTable, a: int, b: int) returns (p: int)
    requires Reach(nodes, a, b) && a != b
    ensures a in nodes && p in nodes[a].parents && Reach(nodes, p, b)
  {
    var path :| IsPath(nodes, path) && path[0] == a && path[|path| - 1] == b;
    p := path[1];
    var rest := path[1..];
    assert forall i :: 0 <= i < |rest| ==> rest[i] == path[i + 1];
    assert IsPath(nodes, rest);
  }

  /** A chain of more than one node ends with a parent link. */
  lemma ReachLastStep(nodes: NodeTable, a: int, b: int) returns (c: int)
    requires Reach(nodes, a, b) && a != b
    ensures c in nodes && b in nodes[c].parents && Reach(nodes, a, c)
  {
    var path :| IsPath(nodes, path) && path[0] == a && path[|path| - 1] == b;
    c := path[|path| - 2];
    var init := path[..|path| - 1];
    assert forall i :: 0 <= i < |init| ==> init[i] == path[i];
    assert IsPath(nodes, init);
  }

  lemma AncestorsIntro(nodes: NodeTable, s: set<int>, a: int, k: int)
    requires a in s && k in nodes && Reach(nodes, a, k)
    ensures k in Ancestors(nodes, s)
  {
  }

  lemma AncestorsElim(nodes: NodeTable, s: set<int>, k: int) returns (a: int)
    requires k in Ancestors(nodes, s)
    ensures a in s && k in nodes && Reach(nodes, a, k)
  {
    a :| a in s && Reach(nodes, a, k);
  }

  /** Every id of `ids` is in the table, none occurs twice, and each node's parents occur
      before it: the order of a post-order traversal. */
  ghost predicate PostOrdered(nodes: NodeTable, ids: seq<int>)
  {
    (forall i :: 0 <= i < |ids| ==> ids[i] in nodes) &&
    (forall i, j :: 0 <= i < j < |ids| ==> ids[i] != ids[j]) &&
    (forall i, p :: 0 <= i < |ids| && p in nodes[ids[i]].parents ==> p in ids[..i])
  }

  lemma PostOrderedAppend(nodes: NodeTable, ids: seq<int>, x: int)
    requires PostOrdered(nodes, ids) && x in nodes && x !in ids
    requires forall p :: p in nodes[x].parents ==> p in ids
    ensures PostOrdered(nodes, ids + [x])
  {
    var longer := ids + [x];
    assert longer[..|ids|] == ids;
    forall i, p | 0 <= i < |longer| && p in nodes[longer[i]].parents
      ensures p in longer[..i]
    {
      if i < |ids| {
        assert longer[i] == ids[i];
        assert p in ids[..i];
        assert longer[..i] == ids[..i];
      }
    }
  }

  lemma PostOrderedPrefix(nodes: NodeTable, ids: seq<int>, n: nat)
    requires PostOrdered(nodes, ids) && n <= |ids|
    ensures PostOrdered(nodes, ids[..n])
  {
    var pre := ids[..n];
    forall i, p | 0 <= i < |pre| && p in nodes[pre[i]].parents
      ensures p in pre[..i]
    {
      assert pre[i] == ids[i];
      assert pre[..i] == ids[..i];
    }
  }

  /** Every finite set of ids can be listed. */
  lemma {:induction false} EnumerationExists(s: set<int>)
    ensures exists xs :: Enumerates(xs, s)
    decreases |s|
  {
    if s == {} {
      assert Enumerates([], s);
    } else {
      HasElement(s);
      var x :| x in s;
      EnumerationExists(s - {x});
      var xs :| Enumerates(xs, s - {x});
      var ys := xs + [x];
      assert forall i :: 0 <= i < |xs| ==> ys[i] == xs[i];
      assert Enumerates(ys, s);
    }
  }

  /** The set holds, with every member, all of the member's parents. */
  predicate ParentClosed(nodes: NodeTable, v: set<int>)
  {
    forall k :: k in v ==> k in nodes && forall p :: p in nodes[k].parents ==> p in v
  }

  lemma ParentClosedStep(nodes: NodeTable, v: set<int>, k: int, p: int)
    requires ParentClosed(nodes, v) && k in v && p in nodes[k].parents
    ensures p in v
  {
  }

  /** A parent-closed set holds everything reachable from its members. */
  lemma {:induction false} ReachStaysInside(nodes: NodeTable, v: set<int>, a: int, b: int)
    requires ParentClosed(nodes, v) && a in v && Reach(nodes, a, b)
    ensures b in v
  {
    var path :| IsPath(nodes, path) && path[0] == a && path[|path| - 1] == b;
    var i := 0;
    while i < |path| - 1
      invariant 0 <= i < |path| && path[i] in v
    {
      ParentClosedStep(nodes, v, path[i], path[i + 1]);
      i := i + 1;
    }
  }

  lemma RankStep(nodes: NodeTable, rank: map<int, nat>, k: int, p: int)
    requires Closed(nodes) && RankedBy(nodes, rank) && k in nodes && p in nodes[k].parents
    ensures p in nodes && p in rank && k in rank && rank[p] < rank[k]
  {
  }

  /** A rank decreases strictly along a chain of more than one node. */
  lemma {:induction false} ReachLowersRank(nodes: NodeTable, rank: map<int, nat>, a: int, b: int)
    requires Closed(nodes) && RankedBy(nodes, rank) && a in nodes && Reach(nodes, a, b) && a != b
    ensures b in nodes && b in rank && rank[b] < rank[a]
  {
    var path :| IsPath(nodes, path) && path[0] == a && path[|path| - 1] == b;
    RankStep(nodes, rank, path[0], path[1]);
    var i := 1;
    while i < |path| - 1
      invariant 1 <= i < |path| && path[i] in nodes && path[i] in rank && rank[path[i]] < rank[a]
    {
      RankStep(nodes, rank, path[i], path[i + 1]);
      i := i + 1;
    }
  }

  /** The ids in the table ranked above `k`. */
  ghost function Higher(nodes: NodeTable, rank: map<int, nat>, k: int): set<int>
    requires forall j :: j in nodes ==> j in rank
    requires k in rank
  {
    set j | j in nodes && rank[j] > rank[k]
  }

  lemma HigherShrinks(nodes: NodeTable, rank: map<int, nat>, k: int, m: int)
    requires Closed(nodes) && RankedBy(nodes, rank) && k in nodes && m in nodes && k in nodes[m].parents
    ensures |Higher(nodes, rank, m)| < |Higher(nodes, rank, k)|
  {
    var a, b := Higher(nodes, rank, m), Higher(nodes, rank, k);
    assert rank[k] < rank[m];
    assert a <= b;
    assert m in b - a;
    assert b == a + (b - a);
  }

  /** On a well-formed table every node lies below some leaf. */
  lemma {:induction false} BelowSomeLeaf(nodes: NodeTable, rank: map<int, nat>, k: int)
    requires Closed(nodes) && RankedBy(nodes, rank) && k in nodes
    ensures exists l :: l in LeafIds(nodes) && Reach(nodes, l, k)
    decreases |Higher(nodes, rank, k)|
  {
    if forall m :: m in nodes ==> k !in nodes[m].parents {
      assert k in LeafIds(nodes);
      ReachRefl(nodes, k);
    } else {
      var m :| m in nodes && k in nodes[m].parents;
      HigherShrinks(nodes, rank, k, m);
      BelowSomeLeaf(nodes, rank, m);
      var l :| l in LeafIds(nodes) && Reach(nodes, l, m);
      ReachAppend(nodes, l, m, k);
    }
  }

  /** On a well-formed table the leaves reach every node. */
  lemma LeavesReachAll(nodes: NodeTable)
    requires WellFormed(nodes)
    ensures Ancestors(nodes, LeafIds(nodes)) == nodes.Keys
  {
    var rank :| RankedBy(nodes, rank);
    forall k | k in nodes
      ensures k in Ancestors(nodes, LeafIds(nodes))
    {
      BelowSomeLeaf(nodes, rank, k);
      var l :| l in LeafIds(nodes) && Reach(nodes, l, k);
    }
  }

  /** The constructor of the Python and JavaScript dags: gathers every id named as a parent,
      then keeps the table's ids outside that set. Dictionary order is not modelled: keys are
      taken in an arbitrary order. The argument type checks are carried by the types. */
  method MakeDag(nodes: NodeTable) returns (d: Dag)
    ensures d.nodes == nodes && d.leaves == LeafIds(nodes)
  {
    var nonLeaves: set<int> := {};
    var pending := nodes.Keys;
    while pending != {}
      invariant pending <= nodes.Keys
      invariant nonLeaves == ParentIdsOf(nodes, nodes.Keys - pending)
      decreases pending
    {
      HasElement(pending);
      var k :| k in pending;
      var ps := nodes[k].parents;
      var i := 0;
      while i < |ps|
        invariant 0 <= i <= |ps|
        invariant nonLeaves == ParentIdsOf(nodes, nodes.Keys - pending) + set j | 0 <= j < i :: ps[j]
      {
        nonLeaves := nonLeaves + {ps[i]};
        i := i + 1;
      }
      ParentIdsOfAdd(nodes, nodes.Keys - pending, k);
      assert nodes.Keys - (pending - {k}) == (nodes.Keys - pending) + {k};
      pending := pending - {k};
    }
    var leaves: set<int> := {};
    var rest := nodes.Keys;
    while rest != {}
      invariant rest <= nodes.Keys
      invariant leaves == set k | k in nodes.Keys - rest && k !in nonLeaves
      decreases rest
    {
      HasElement(rest);
      var k :| k in rest;
      if k !in nonLeaves {
        leaves := leaves + {k};
      }
      rest := rest - {k};
    }
    d := Dag(nodes, leaves);
  }

  lemma ParentIdsOfAdd(nodes: NodeTable, done: set<int>, k: int)
    requires k in nodes
    ensures ParentIdsOf(nodes, done + {k}) ==
            ParentIdsOf(nodes, done) + set j | 0 <= j < |nodes[k].parents| :: nodes[k].parents[j]
  {
    var ps := nodes[k].parents;
    forall p | p in ParentIdsOf(nodes, done + {k})
      ensures p in ParentIdsOf(nodes, done) + set j | 0 <= j < |ps| :: ps[j]
    {
      var c :| c in done + {k} && c in nodes && p in nodes[c].parents;
      if c == k {
        var j :| 0 <= j < |ps| && ps[j] == p;
      }
    }
    forall j | 0 <= j < |ps|
      ensures ps[j] in ParentIdsOf(nodes, done + {k})
    {
      var c, q := k, ps[j];
      assert c in done + {k} && c in nodes && q in nodes[c].parents;
    }
  }

  /** A non-empty set has an element. */
  lemma HasElement(s: set<int>)
    requires s != {}
    ensures exists y :: y in s
  {
    if forall y :: y !in s {
      assert false;
    }
  }

  // The lookups.

  /** Python's `get` and the TypeScript table lookup: the node, or nothing for an absent id. */
  function Get(d: Dag, id: int): (r: Option<DagNode>)
    ensures r.Some? <==> id in d.nodes
    ensures r.Some? ==> r.value == d.nodes[id]
  {
    if id in d.nodes then Some(d.nodes[id]) else None
  }

  /** JavaScript's `get`: asserts that the id is present. */
  function GetAsserted(d: Dag, id: int): (r: Result<DagNode>)
    ensures r.Ok? <==> id in d.nodes
    ensures r.Ok? ==> Some(r.value) == Get(d, id)
  {
    if id in d.nodes then Ok(d.nodes[id]) else Err(AssertionFailed)
  }

  /** JavaScript's `has`: exactly the ids for which `get` finds a node. */
  function Has(d: Dag, id: int): (r: bool)
    ensures r <==> Get(d, id).Some?
    ensures r <==> GetAsserted(d, id).Ok?
  {
    id in d.nodes
  }

  /** The table TypeScript's `fromDto` builds: each node stored under its own number, going
      over the nodes in order, so that a later node with the same number replaces an earlier
      one. */
  function TableOf(dtos: seq<DagNode>): (nodes: NodeTable)
    ensures KeyedByNumber(nodes)
  {
    if |dtos| == 0 then map[]
    else TableOf(dtos[..|dtos| - 1])[dtos[|dtos| - 1].number := dtos[|dtos| - 1]]
  }

  /** TypeScript's `fromDto`: fills a fresh table node by node. Converting each transferred
      node is the identity here. */
  method FromDto(dtos: seq<DagNode>) returns (nodes: NodeTable)
    ensures nodes == TableOf(dtos)
  {
    nodes := map[];
    var i := 0;
    while i < |dtos|
      invariant 0 <= i <= |dtos| && nodes == TableOf(dtos[..i])
    {
      assert dtos[..i + 1][..i] == dtos[..i];
      nodes := nodes[dtos[i].number := dtos[i]];
      i := i + 1;
    }
    assert dtos[..|dtos|] == dtos;
  }

  /** An id is in the table `fromDto` builds exactly when some node carries that number, and
      it holds the last such node. */
  lemma {:induction false} TableOfMeaning(dtos: seq<DagNode>, k: int)
    ensures k in TableOf(dtos) <==> exists i :: 0 <= i < |dtos| && dtos[i].number == k
    ensures k in TableOf(dtos) ==>
              exists i :: 0 <= i < |dtos| && TableOf(dtos)[k] == dtos[i] &&
                          forall j :: i < j < |dtos| ==> dtos[j].number != k
  {
    if |dtos| > 0 {
      var init := dtos[..|dtos| - 1];
      var last := |dtos| - 1;
      var t := TableOf(dtos);
      assert t == TableOf(init)[dtos[last].number := dtos[last]];
      TableOfMeaning(init, k);
      assert forall i :: 0 <= i < |init| ==> init[i] == dtos[i];
      if dtos[last].number == k {
        assert t[k] == dtos[last];
      } else if k in TableOf(init) {
        var i :| 0 <= i < |init| && TableOf(init)[k] == init[i] &&
                 forall j :: i < j < |init| ==> init[j].number != k;
        assert t[k] == dtos[i];
        assert forall j :: i < j < |dtos| ==> dtos[j].number != k;
      } else {
        assert k !in t;
        assert forall i :: 0 <= i < |dtos| ==> dtos[i].number != k;
      }
    }
  }

  /** TypeScript's `hasNodes`: the table is not empty. */
  function HasNodes(d: Dag): (r: bool)
    ensures r <==> exists k :: k in d.nodes
  {
    NonEmptyMap(d.nodes);
    |d.nodes| > 0
  }

  lemma NonEmptyMap(m: NodeTable)
    ensures |m| > 0 <==> exists k :: k in m
  {
    if |m| > 0 {
      assert |m.Keys| > 0;
      HasElement(m.Keys);
      var k :| k in m.Keys;
    }
  }

  lemma EmptySet(s: set<int>)
    ensures |s| == 0 <==> forall k :: k !in s
  {
    if |s| > 0 {
      HasElement(s);
      var k :| k in s;
    }
  }

  // History steps.

  /** The ids of the nodes that were activated at some point. */
  function ActiveIds(nodes: NodeTable): set<int>
  {
    set k | k in nodes && nodes[k].activeTime.Some?
  }

  /** Python's `number_of_history_steps`: the number of nodes with an activation time. */
  function NumberOfHistorySteps(d: Dag): (n: nat)
    ensures n <= |d.nodes|
    ensures n == 0 <==> forall k :: k in d.nodes ==> d.nodes[k].activeTime.None?
  {
    assert ActiveIds(d.nodes) <= d.nodes.Keys;
    SubsetCard(ActiveIds(d.nodes), d.nodes.Keys);
    assert forall k :: k in d.nodes && d.nodes[k].activeTime.Some? ==> k in ActiveIds(d.nodes);
    EmptySet(ActiveIds(d.nodes));
    |ActiveIds(d.nodes)|
  }

  lemma SubsetCard(a: set<int>, b: set<int>)
    requires a <= b
    ensures |a| <= |b|
  {
    assert b == a + (b - a);
  }

  /** Python's `last_step`: the step count, never negative. */
  function LastStep(d: Dag): (n: int)
    ensures n == NumberOfHistorySteps(d) && 0 <= n <= |d.nodes|
  {
    var length := NumberOfHistorySteps(d);
    if length > 0 then length else 0
  }

  /** JavaScript's `numberOfHistorySteps`: a loop counting the nodes whose activation time is
      defined. */
  method CountHistorySteps(d: Dag) returns (counter: nat)
    ensures counter == NumberOfHistorySteps(d)
  {
    counter := 0;
    var rest := d.nodes.Keys;
    while rest != {}
      invariant rest <= d.nodes.Keys
      invariant counter == |ActiveIds(d.nodes) - rest|
      decreases rest
    {
      HasElement(rest);
      var k :| k in rest;
      if d.nodes[k].activeTime.Some? {
        assert ActiveIds(d.nodes) - (rest - {k}) == (ActiveIds(d.nodes) - rest) + {k};
        counter := counter + 1;
      } else {
        assert ActiveIds(d.nodes) - (rest - {k}) == ActiveIds(d.nodes) - rest;
      }
      rest := rest - {k};
    }
  }

  /** A time JavaScript treats as true: defined and not zero. */
  predicate Truthy(t: Option<int>)
  {
    t.Some? && t.value != 0
  }

  function TruthyActiveIds(nodes: NodeTable): set<int>
  {
    set k | k in nodes && Truthy(nodes[k].activeTime)
  }

  /** TypeScript's `numberOfHistorySteps`: the `if (node.activeTime)` test skips an activation
      time of 0, so it counts at most what Python counts, and the same exactly when no node was
      activated at time 0. */
  method CountTruthyHistorySteps(d: Dag) returns (counter: nat)
    ensures counter == |TruthyActiveIds(d.nodes)| && counter <= NumberOfHistorySteps(d)
    ensures counter == NumberOfHistorySteps(d) <==> forall k :: k in d.nodes ==> d.nodes[k].activeTime != Some(0)
  {
    counter := 0;
    var rest := d.nodes.Keys;
    while rest != {}
      invariant rest <= d.nodes.Keys
      invariant counter == |TruthyActiveIds(d.nodes) - rest|
      decreases rest
    {
      HasElement(rest);
      var k :| k in rest;
      if Truthy(d.nodes[k].activeTime) {
        assert TruthyActiveIds(d.nodes) - (rest - {k}) == (TruthyActiveIds(d.nodes) - rest) + {k};
        counter := counter + 1;
      } else {
        assert TruthyActiveIds(d.nodes) - (rest - {k}) == TruthyActiveIds(d.nodes) - rest;
      }
      rest := rest - {k};
    }
    TruthyCount(d.nodes);
  }

  lemma TruthyCount(nodes: NodeTable)
    ensures |TruthyActiveIds(nodes)| <= |ActiveIds(nodes)|
    ensures |TruthyActiveIds(nodes)| == |ActiveIds(nodes)| <==> forall k :: k in nodes ==> nodes[k].activeTime != Some(0)
  {
    forall k | k in TruthyActiveIds(nodes) ensures k in ActiveIds(nodes) { }
    SubsetCard(TruthyActiveIds(nodes), ActiveIds(nodes));
    if exists k :: k in nodes && nodes[k].activeTime == Some(0) {
      var k :| k in nodes && nodes[k].activeTime == Some(0);
      assert k in ActiveIds(nodes) - TruthyActiveIds(nodes);
      assert ActiveIds(nodes) == TruthyActiveIds(nodes) + (ActiveIds(nodes) - TruthyActiveIds(nodes));
    } else {
      forall k | k in ActiveIds(nodes) ensures k in TruthyActiveIds(nodes) { }
      assert TruthyActiveIds(nodes) == ActiveIds(nodes);
    }
  }

  /** A JavaScript number: a value, or NaN. */
  datatype JsNumber = Num(value: int) | NaN

  /** `Math.max(x, 0)`: NaN if either argument is NaN. */
  function JsMax0(x: JsNumber): JsNumber
  {
    match x
    case NaN => NaN
    case Num(v) => Num(if v > 0 then v else 0)
  }

  /** JavaScript's `lastStep` as written: it passes the method `numberOfHistorySteps` itself,
      not its result, to `Math.max`; a function converts to NaN. */
  function LastStepAsWritten(d: Dag): (r: JsNumber)
  {
    var length := NaN;
    JsMax0(length)
  }

  /** The discrepancy: for every dag, `lastStep` is not the step count. */
  lemma LastStepAsWrittenIsNaN(d: Dag)
    ensures LastStepAsWritten(d) == NaN && LastStepAsWritten(d) != Num(NumberOfHistorySteps(d))
  {
  }

  /** JavaScript's `lastStep` as evidently intended: the step count, as Python's `last_step`. */
  function LastStepCorrected(d: Dag): (r: JsNumber)
    ensures r == Num(LastStep(d)) && r.value == NumberOfHistorySteps(d) >= 0
  {
    JsMax0(Num(NumberOfHistorySteps(d)))
  }

  // Children.

  /** `count` copies of `x`. */
  function Copies(x: int, count: nat): (r: seq<int>)
    ensures |r| == count && forall i :: 0 <= i < count ==> r[i] == x
  {
    if count == 0 then [] else Copies(x, count - 1) + [x]
  }

  /** How often `x` occurs in `s`. */
  function Occurrences(s: seq<int>, x: int): (n: nat)
    ensures n <= |s|
    ensures n > 0 <==> x in s
  {
    if |s| == 0 then 0 else Occurrences(s[..|s| - 1], x) + (if s[|s| - 1] == x then 1 else 0)
  }

  /** The numbers of the nodes of `order` naming `id` as a parent, each once per occurrence
      of `id` in its parent list. */
  function ChildrenIn(nodes: NodeTable, order: seq<int>, id: int): seq<int>
    requires forall i :: 0 <= i < |order| ==> order[i] in nodes
  {
    if |order| == 0 then []
    else
      var m := nodes[order[|order| - 1]];
      ChildrenIn(nodes, order[..|order| - 1], id) + Copies(m.number, Occurrences(m.parents, id))
  }

  /** A node's number is among the children exactly when the node names the id as a parent. */
  lemma {:induction false} ChildrenInMeaning(nodes: NodeTable, order: seq<int>, id: int, x: int)
    requires forall i :: 0 <= i < |order| ==> order[i] in nodes
    ensures x in ChildrenIn(nodes, order, id) <==>
            exists i :: 0 <= i < |order| && nodes[order[i]].number == x && id in nodes[order[i]].parents
  {
    if |order| > 0 {
      var init := order[..|order| - 1];
      ChildrenInMeaning(nodes, init, id, x);
      var m := nodes[order[|order| - 1]];
      var c := Copies(m.number, Occurrences(m.parents, id));
      assert x in c <==> m.number == x && id in m.parents by {
        if x in c { var j :| 0 <= j < |c| && c[j] == x; }
        if m.number == x && id in m.parents { assert c[0] == x; }
      }
      if exists i :: 0 <= i < |order| && nodes[order[i]].number == x && id in nodes[order[i]].parents {
        var i :| 0 <= i < |order| && nodes[order[i]].number == x && id in nodes[order[i]].parents;
        if i < |order| - 1 { assert init[i] == order[i]; }
      }
      if exists i :: 0 <= i < |init| && nodes[init[i]].number == x && id in nodes[init[i]].parents {
        var i :| 0 <= i < |init| && nodes[init[i]].number == x && id in nodes[init[i]].parents;
        assert order[i] == init[i];
      }
    }
  }

  /** No id occurs twice. */
  predicate Distinct(s: seq<int>)
  {
    forall i, j :: 0 <= i < j < |s| ==> s[i] != s[j]
  }

  /** `order` lists each id of `keys` exactly once. */
  predicate Enumerates(order: seq<int>, keys: set<int>)
  {
    (forall i :: 0 <= i < |order| ==> order[i] in keys) &&
    (forall k :: k in keys ==> k in order) &&
    (forall i, j :: 0 <= i < j < |order| ==> order[i] != order[j])
  }

  /** `children` of both the Python and the JavaScript dag: fails for an unknown id; otherwise,
      going over the nodes (in an order the model leaves open, returned as `order`) and over
      each one's parents, appends the node's number once per occurrence of the id. */
  method Children(d: Dag, id: int) returns (r: Result<seq<int>>, ghost order: seq<int>)
    ensures r.Err? <==> id !in d.nodes
    ensures r.Ok? ==> Enumerates(order, d.nodes.Keys) && r.value == ChildrenIn(d.nodes, order, id)
  {
    order := [];
    if id !in d.nodes {
      return Err(KeyMissing), order;
    }
    var children: seq<int> := [];
    var rest := d.nodes.Keys;
    while rest != {}
      invariant rest <= d.nodes.Keys
      invariant forall i :: 0 <= i < |order| ==> order[i] in d.nodes.Keys - rest
      invariant forall k :: k in d.nodes.Keys - rest ==> k in order
      invariant forall i, j :: 0 <= i < j < |order| ==> order[i] != order[j]
      invariant children == ChildrenIn(d.nodes, order, id)
      decreases rest
    {
      HasElement(rest);
      var k :| k in rest;
      var node := d.nodes[k];
      var i := 0;
      var found: seq<int> := [];
      while i < |node.parents|
        invariant 0 <= i <= |node.parents|
        invariant found == Copies(node.number, Occurrences(node.parents[..i], id))
      {
        assert node.parents[..i + 1][..i] == node.parents[..i];
        if node.parents[i] == id {
          found := found + [node.number];
        }
        i := i + 1;
      }
      assert node.parents[..i] == node.parents;
      children := children + found;
      order := order + [k];
      assert order[..|order| - 1] == order[..|order| - 1];
      rest := rest - {k};
    }
    r := Ok(children);
  }
}
