/** The Flask-era controller (proof_visualization/controller/controller.py): reducing the dag to
    a selection of nodes, the one-level undo that swaps the session's dag back, and the rule that
    decides which edges of the layout are drawn. Python objects are shared by reference, so the
    node is a class whose `parents` the reduction overwrites; the dag holds the node objects in
    a table keyed by id. The session is an object with the slots the controller reads and
    writes; the node positions come from a layout routine, which is a parameter here. */
module Controller {
  import opened Wrappers
  import opened Text
  import opened AppHelpers

  /** A node of the dag. Only `parents` is ever written after construction. */
  class PyNode {
    const number: int
    var parents: seq<int>
    const children: set<int>
    const inferenceRule: string
    const passiveTime: Option<int>
    const activeTime: Option<int>

    constructor (number: int, parents: seq<int>, children: set<int>, inferenceRule: string,
                 passiveTime: Option<int>, activeTime: Option<int>)
      ensures this.number == number && this.parents == parents && this.children == children
      ensures this.inferenceRule == inferenceRule
      ensures this.passiveTime == passiveTime && this.activeTime == activeTime
    {
      this.number := number;
      this.parents := parents;
      this.children := children;
      this.inferenceRule := inferenceRule;
      this.passiveTime := passiveTime;
      this.activeTime := activeTime;
    }
  }

  type Table = map<int, PyNode>

  /** A dag: its node table and the leaves computed when it was built. */
  datatype PyDag = PyDag(nodes: Table, leaves: set<int>)

  /** The node objects of a table. */
  function Objects(nodes: Table): set<PyNode>
  {
    set k | k in nodes :: nodes[k]
  }

  /** The ids that no node of the table names as a parent. */
  function LeavesOf(nodes: Table): set<int>
    reads Objects(nodes)
  {
    set k | k in nodes && forall m :: m in nodes ==> k !in nodes[m].parents
  }

  /** `dag.get(id)`: the node, or `None`. */
  function Lookup(nodes: Table, id: int): Option<PyNode>
  {
    if id in nodes then Some(nodes[id]) else None
  }

  /** `{dag.get(i) for i in ids}`. */
  function Lookups(nodes: Table, ids: set<int>): set<Option<PyNode>>
  {
    set i | i in ids :: Lookup(nodes, i)
  }

  /** `dag.get(child) for child in node.children`. */
  function ChildLookups(nodes: Table, node: PyNode): set<Option<PyNode>>
  {
    set c | c in node.children :: Lookup(nodes, c)
  }

  /** The children looked up for every node of a set. */
  function AllChildLookups(nodes: Table, ns: set<Option<PyNode>>): set<Option<PyNode>>
  {
    set n, c | n in ns && n.Some? && c in n.value.children :: Lookup(nodes, c)
  }

  /** What the reduction gathers: the selected nodes and their direct children, with `None`
      for an id missing from the table. */
  function Reached(nodes: Table, selection: set<int>): set<Option<PyNode>>
  {
    Lookups(nodes, selection) + AllChildLookups(nodes, Lookups(nodes, selection))
  }

  /** The selected node objects. */
  function Selected(nodes: Table, selection: set<int>): set<PyNode>
  {
    set s | s in selection && s in nodes :: nodes[s]
  }

  /** `{node.number: node for node in gathered}`: every key is the number of its node, the node
      was gathered, and every gathered node's number is a key. */
  predicate KeyedBy(table: Table, gathered: set<Option<PyNode>>)
  {
    (forall k :: k in table ==> table[k].number == k && Some(table[k]) in gathered) &&
    (forall n :: n in gathered && n.Some? ==> n.value.number in table)
  }

  lemma AllChildLookupsAdd(nodes: Table, ns: set<Option<PyNode>>, n: PyNode)
    ensures AllChildLookups(nodes, ns + {Some(n)}) == AllChildLookups(nodes, ns) + ChildLookups(nodes, n)
  {
    var a := AllChildLookups(nodes, ns + {Some(n)});
    var b := AllChildLookups(nodes, ns) + ChildLookups(nodes, n);
    forall x | x in a ensures x in b {
      var m, c :| m in ns + {Some(n)} && m.Some? && c in m.value.children && x == Lookup(nodes, c);
    }
    forall x | x in b ensures x in a {
      if x in ChildLookups(nodes, n) {
        var c :| c in n.children && x == Lookup(nodes, c);
        assert Some(n) in ns + {Some(n)};
      } else {
        var m, c :| m in ns && m.Some? && c in m.value.children && x == Lookup(nodes, c);
        assert m in ns + {Some(n)};
      }
    }
  }

  /** Adding a node's children to what was gathered for the done nodes gives what is gathered
      once that node is done too. */
  lemma GatherStep(nodes: Table, start: set<Option<PyNode>>, done: set<Option<PyNode>>,
                   gathered: set<Option<PyNode>>, n: Option<PyNode>)
    requires gathered == start + AllChildLookups(nodes, done) && n.Some?
    ensures gathered + ChildLookups(nodes, n.value) == start + AllChildLookups(nodes, done + {n})
  {
    AllChildLookupsAdd(nodes, done, n.value);
  }

  /** A looked-up node that is present is a selected node. */
  lemma LookupSelected(nodes: Table, selection: set<int>, n: Option<PyNode>)
    requires n in Lookups(nodes, selection) && n.Some?
    ensures n.value in Selected(nodes, selection)
  {
    var s :| s in selection && Lookup(nodes, s) == n;
  }

  /** The loop of `reduce_to_selection`: goes over a snapshot of the selected nodes (in an
      order the model leaves open), empties each one's `parents` in place and adds its children
      to the gathered set; the children themselves are not expanded. Emptying the parents of a
      missing selected node (`None`) fails, possibly after some selected nodes have lost their
      parents already. */
  method EmptySelectedParents(nodes: Table, selection: set<int>) returns (r: Result<set<Option<PyNode>>>)
    modifies Selected(nodes, selection)
    ensures r.Ok? <==> None !in Lookups(nodes, selection)
    ensures r.Ok? ==> r.value == Reached(nodes, selection)
    ensures forall n :: n in Selected(nodes, selection) ==> n.parents == [] || n.parents == old(n.parents)
    ensures r.Ok? ==> forall n :: n in Selected(nodes, selection) ==> n.parents == []
  {
    ghost var selected := Selected(nodes, selection);
    var selectedNodes := Lookups(nodes, selection);
    ghost var start := selectedNodes;
    ghost var done: set<Option<PyNode>> := {};
    var todo := selectedNodes;
    while todo != {}
      invariant start == done + todo && None !in done
      invariant selectedNodes == start + AllChildLookups(nodes, done)
      invariant forall n :: n in selected ==> n.parents == [] || n.parents == old(n.parents)
      invariant forall n :: n in done ==> n.value.parents == []
      decreases |todo|
    {
      var node :| node in todo;
      todo := todo - {node};
      if node.None? {
        return Err(BadType);
      }
      LookupSelected(nodes, selection, node);
      node.value.parents := [];
      GatherStep(nodes, start, done, selectedNodes, node);
      selectedNodes := selectedNodes + ChildLookups(nodes, node.value);
      done := done + {node};
    }
    AllSelectedEmptied(nodes, selection, done);
    r := Ok(selectedNodes);
  }

  lemma AllSelectedEmptied(nodes: Table, selection: set<int>, done: set<Option<PyNode>>)
    requires Lookups(nodes, selection) <= done && forall n :: n in done ==> n.Some? && n.value.parents == []
    ensures forall n :: n in Selected(nodes, selection) ==> n.parents == []
  {
    forall n | n in Selected(nodes, selection) ensures n.parents == [] {
      var s :| s in selection && s in nodes && n == nodes[s];
      assert Lookup(nodes, s) in done;
    }
  }

  /** `{node.number: node for node in gathered}`, going over the set in an order the model
      leaves open; of two nodes with the same number the later one stays. */
  method KeyByNumber(gathered: set<Option<PyNode>>) returns (table: Table)
    requires None !in gathered
    ensures KeyedBy(table, gathered)
  {
    table := map[];
    var rest := gathered;
    while rest != {}
      invariant rest <= gathered
      invariant forall k :: k in table ==> table[k].number == k && Some(table[k]) in gathered
      invariant forall n :: n in gathered - rest && n.Some? ==> n.value.number in table
      decreases |rest|
    {
      var n :| n in rest;
      rest := rest - {n};
      table := table[n.value.number := n.value];
    }
  }

  /** `reduce_to_selection`: the selected nodes lose their parents in place, and the result
      holds them and their direct children, keyed by number. A selected id or a child id
      missing from the table fails. */
  method ReduceToSelection(dag: PyDag, selection: set<int>) returns (r: Result<PyDag>)
    modifies Selected(dag.nodes, selection)
    ensures r.Ok? <==> None !in Reached(dag.nodes, selection)
    ensures forall n :: n in Selected(dag.nodes, selection) ==> n.parents == [] || n.parents == old(n.parents)
    ensures r.Ok? ==> forall n :: n in Selected(dag.nodes, selection) ==> n.parents == []
    ensures r.Ok? ==> KeyedBy(r.value.nodes, Reached(dag.nodes, selection))
    ensures r.Ok? ==> r.value.leaves == LeavesOf(r.value.nodes)
  {
    var gathered := EmptySelectedParents(dag.nodes, selection);
    if gathered.Err? {
      return Err(gathered.error);
    }
    if None in gathered.value {
      return Err(BadType);
    }
    var table := KeyByNumber(gathered.value);
    r := Ok(PyDag(table, LeavesOf(table)));
  }

  /** Every node is stored under its own number. */
  predicate KeyedByNumber(nodes: Table)
  {
    forall k :: k in nodes ==> nodes[k].number == k
  }

  /** The ids of the selection and of the direct children of its nodes. */
  function ReducedIds(nodes: Table, selection: set<int>): set<int>
  {
    selection + set s, c | s in selection && s in nodes && c in nodes[s].children :: c
  }

  /** In a table keyed by number, the reduced dag holds exactly the selected ids and the ids of
      their direct children (no grandchildren), each with the original node object. */
  lemma ReducedTable(nodes: Table, selection: set<int>, table: Table)
    requires KeyedByNumber(nodes) && None !in Reached(nodes, selection)
    requires KeyedBy(table, Reached(nodes, selection))
    ensures table.Keys == ReducedIds(nodes, selection)
    ensures forall k :: k in table ==> table[k] == nodes[k]
  {
    var gathered := Reached(nodes, selection);
    forall k | k in table ensures k in ReducedIds(nodes, selection) && table[k] == nodes[k] {
      var n := Some(table[k]);
      if n in Lookups(nodes, selection) {
        var s :| s in selection && Lookup(nodes, s) == n;
        assert nodes[s].number == s;
      } else {
        var m, c :| m in Lookups(nodes, selection) && m.Some? && c in m.value.children && n == Lookup(nodes, c);
        var s :| s in selection && Lookup(nodes, s) == m;
        assert nodes[c].number == c;
      }
    }
    forall k | k in ReducedIds(nodes, selection) ensures k in table {
      if k in selection {
        assert Lookup(nodes, k) in gathered;
      } else {
        var s, c :| s in selection && s in nodes && c in nodes[s].children && k == c;
        assert Lookup(nodes, s) in Lookups(nodes, selection);
        assert Lookup(nodes, c) in gathered;
      }
    }
  }

  lemma SelectedWithin(nodes: Table, selection: set<int>)
    ensures Selected(nodes, selection) <= Objects(nodes)
  {
  }

  /** The node positions of a layout; their coordinates are not modelled. */
  datatype NodePosition = NodePosition(id: int)
  type Positions = seq<NodePosition>

  /** The session slots the controller uses. */
  class Session {
    var dag: PyDag
    var positions: Positions
    var oldDag: Option<PyDag>
    var oldPositions: Option<Positions>
    var historyState: int
    const totalHistoryLength: int

    /** The session after `init_dag` and `init_controller`: the history shows the last step. */
    constructor (dag: PyDag, positions: Positions, totalHistoryLength: int)
      ensures this.dag == dag && this.positions == positions
      ensures this.oldDag == None && this.oldPositions == None
      ensures this.totalHistoryLength == totalHistoryLength && this.historyState == totalHistoryLength - 1
    {
      this.dag := dag;
      this.positions := positions;
      this.oldDag := None;
      this.oldPositions := None;
      this.totalHistoryLength := totalHistoryLength;
      this.historyState := totalHistoryLength - 1;
    }
  }

  /** The selected ids, read with `int()`. */
  function SelectionIds(selection: seq<string>): (r: Result<set<int>>)
    ensures r.Ok? <==> AllIntegers(selection)
    ensures r.Ok? ==> forall k :: 0 <= k < |selection| ==> ParsePyInt(selection[k]).value in r.value
    ensures r.Ok? ==> forall i :: i in r.value ==> exists k :: 0 <= k < |selection| && ParsePyInt(selection[k]) == Some(i)
  {
    match ParseAll(selection)
    case Ok(values) => Ok(set k | 0 <= k < |values| :: values[k])
    case Err(e) => Err(e)
  }

  /** Shows a new dag: lays it out and moves the history to its last step. */
  method Show(session: Session, dag: PyDag, layout: PyDag -> Positions)
    modifies session`dag, session`positions, session`historyState
    ensures session.dag == dag && session.positions == layout(dag)
    ensures session.historyState == session.totalHistoryLength - 1
  {
    session.dag := dag;
    session.positions := layout(dag);
    session.historyState := session.totalHistoryLength - 1;
  }

  /** Reducing the dag to the selected ids and showing the reduction. Only selected nodes lose
      their parents. */
  method ReduceAndShow(session: Session, ids: set<int>, layout: PyDag -> Positions)
    returns (r: Result<()>)
    modifies session`dag, session`positions, session`historyState, Objects(session.dag.nodes)
    ensures r.Ok? <==> None !in Reached(old(session.dag.nodes), ids)
    ensures r.Ok? ==> KeyedBy(session.dag.nodes, Reached(old(session.dag.nodes), ids))
    ensures r.Ok? ==> session.positions == layout(session.dag)
    ensures r.Ok? ==> session.historyState == session.totalHistoryLength - 1
    ensures r.Ok? ==> forall n :: n in Selected(old(session.dag.nodes), ids) ==> n.parents == []
    ensures r.Err? ==> session.dag == old(session.dag) && session.positions == old(session.positions) &&
                       session.historyState == old(session.historyState)
    ensures forall n :: n in Objects(old(session.dag.nodes)) ==> n.parents == [] || n.parents == old(n.parents)
    ensures forall n :: n in Objects(old(session.dag.nodes)) && n !in Selected(old(session.dag.nodes), ids) ==>
              n.parents == old(n.parents)
  {
    var dag := session.dag;
    SelectedWithin(dag.nodes, ids);
    var reduced := ReduceToSelection(dag, ids);
    if reduced.Err? {
      return Err(reduced.error);
    }
    Show(session, reduced.value, layout);
    r := Ok(());
  }

  /** Reading the selection, reducing the dag to it and showing the reduction: the part of
      `init_selection_dag` after the save. Only selected nodes lose their parents. */
  method InstallReduction(session: Session, selection: seq<string>, layout: PyDag -> Positions)
    returns (r: Result<()>)
    modifies session`dag, session`positions, session`historyState, Objects(session.dag.nodes)
    ensures r.Ok? <==> SelectionIds(selection).Ok? && None !in Reached(old(session.dag.nodes), SelectionIds(selection).value)
    ensures r.Ok? ==> KeyedBy(session.dag.nodes, Reached(old(session.dag.nodes), SelectionIds(selection).value))
    ensures r.Ok? ==> session.positions == layout(session.dag)
    ensures r.Ok? ==> session.historyState == session.totalHistoryLength - 1
    ensures r.Ok? ==> forall n :: n in Selected(old(session.dag.nodes), SelectionIds(selection).value) ==> n.parents == []
    ensures r.Err? ==> session.dag == old(session.dag) && session.positions == old(session.positions) &&
                       session.historyState == old(session.historyState)
    ensures forall n :: n in Objects(old(session.dag.nodes)) ==> n.parents == [] || n.parents == old(n.parents)
    ensures SelectionIds(selection).Ok? ==>
              forall n :: n in Objects(old(session.dag.nodes)) && n !in Selected(old(session.dag.nodes), SelectionIds(selection).value) ==>
                n.parents == old(n.parents)
  {
    var ids := SelectionIds(selection);
    if ids.Err? {
      return Err(ids.error);
    }
    r := ReduceAndShow(session, ids.value, layout);
  }

  /** Saves the dag and positions for the undo. */
  method Save(session: Session)
    modifies session`oldDag, session`oldPositions
    ensures session.oldDag == Some(session.dag) && session.oldPositions == Some(session.positions)
  {
    session.oldDag := Some(session.dag);
    session.oldPositions := Some(session.positions);
  }

  /** `init_selection_dag`: saves the dag and positions for the undo, then replaces the dag by
      its reduction to the selection, lays it out and moves the history to its last step. The
      save happens first, so it stays even when reading the selection or reducing fails. */
  method InitSelectionDag(session: Session, selection: seq<string>, layout: PyDag -> Positions)
    returns (r: Result<()>)
    modifies session, Objects(session.dag.nodes)
    ensures session.oldDag == Some(old(session.dag)) && session.oldPositions == Some(old(session.positions))
    ensures r.Ok? <==> SelectionIds(selection).Ok? && None !in Reached(old(session.dag.nodes), SelectionIds(selection).value)
    ensures r.Ok? ==> KeyedBy(session.dag.nodes, Reached(old(session.dag.nodes), SelectionIds(selection).value))
    ensures r.Ok? ==> session.positions == layout(session.dag)
    ensures r.Ok? ==> session.historyState == session.totalHistoryLength - 1
    ensures r.Ok? ==> forall n :: n in Selected(old(session.dag.nodes), SelectionIds(selection).value) ==> n.parents == []
    ensures r.Err? ==> session.dag == old(session.dag) && session.positions == old(session.positions) &&
                       session.historyState == old(session.historyState)
    ensures forall n :: n in Objects(old(session.dag.nodes)) ==> n.parents == [] || n.parents == old(n.parents)
    ensures SelectionIds(selection).Ok? ==>
              forall n :: n in Objects(old(session.dag.nodes)) && n !in Selected(old(session.dag.nodes), SelectionIds(selection).value) ==>
                n.parents == old(n.parents)
  {
    Save(session);
    r := InstallReduction(session, selection, layout);
  }

  /** `reset_dag`: puts the saved dag and positions back when a dag was saved, and otherwise
      changes nothing. The saved node objects are the ones the reduction changed. */
  method ResetDag(session: Session) returns (r: Result<()>)
    modifies session`dag, session`positions
    ensures old(session.oldDag).None? ==> r.Ok? && session.dag == old(session.dag) && session.positions == old(session.positions)
    ensures old(session.oldDag).Some? ==> session.dag == old(session.oldDag).value
    ensures old(session.oldDag).Some? && old(session.oldPositions).Some? ==> r.Ok? && session.positions == old(session.oldPositions).value
    ensures old(session.oldDag).Some? && old(session.oldPositions).None? ==> r == Err(KeyMissing)
  {
    if session.oldDag.Some? {
      session.dag := session.oldDag.value;
      if session.oldPositions.None? {
        return Err(KeyMissing);
      }
      session.positions := session.oldPositions.value;
    }
    r := Ok(());
  }

  /** The drawing rule of `get_layout`: an edge to a child is shown once the child has a
      passive time, not 0, at or before the history state. */
  predicate EdgeVisible(child: PyNode, historyState: int)
  {
    child.passiveTime.Some? && child.passiveTime.value != 0 && child.passiveTime.value <= historyState
  }

  /** The edges `get_layout` draws from a node: one to each child in the table, with its
      visibility. */
  function EdgeData(nodes: Table, node: PyNode, historyState: int): (r: set<(int, int, bool)>)
    ensures forall e :: e in r ==> e.0 == node.number && e.1 in node.children && e.1 in nodes
    ensures forall c :: c in node.children && c in nodes ==> (node.number, c, EdgeVisible(nodes[c], historyState)) in r
  {
    set c | c in node.children && c in nodes :: (node.number, c, EdgeVisible(nodes[c], historyState))
  }

  /** An edge once shown stays shown as the history moves on, and an edge is never shown for a
      child with no passive time. */
  lemma EdgeVisibleLater(child: PyNode, earlier: int, later: int)
    requires earlier <= later
    ensures EdgeVisible(child, earlier) ==> EdgeVisible(child, later)
    ensures child.passiveTime.None? || child.passiveTime == Some(0) ==> !EdgeVisible(child, later)
  {
  }

  /** Adds a parentless copy of each selected node to the table of the children, keyed by
      its number. */
  method AddParentlessCopies(children0: Table, start: set<Option<PyNode>>, children: set<Option<PyNode>>)
    returns (table: Table)
    requires None !in start
    requires KeyedBy(children0, children)
    ensures forall k :: k in table ==>
              table[k].number == k && ((fresh(table[k]) && table[k].parents == []) || Some(table[k]) in children)
    ensures forall n :: n in children && n.Some? ==> n.value.number in table
    ensures forall n :: n in start ==> n.value.number in table
  {
    table := children0;
    var rest := start;
    while rest != {}
      invariant rest <= start
      invariant forall k :: k in table ==>
                  table[k].number == k && ((fresh(table[k]) && table[k].parents == []) || Some(table[k]) in children)
      invariant forall n :: n in children && n.Some? ==> n.value.number in table
      invariant forall n :: n in start - rest ==> n.value.number in table
      decreases |rest|
    {
      var n :| n in rest;
      rest := rest - {n};
      var copy := new PyNode(n.value.number, [], n.value.children, n.value.inferenceRule,
                             n.value.passiveTime, n.value.activeTime);
      table := table[copy.number := copy];
    }
  }

  /** The reduction as it was evidently meant: the selected nodes are copied with no parents
      and the input dag is left as it was; children that are not selected are shared. */
  method ReduceToSelectionCopying(dag: PyDag, selection: set<int>) returns (r: Result<PyDag>)
    ensures r.Ok? <==> None !in Reached(dag.nodes, selection)
    ensures r.Ok? ==> forall k :: k in r.value.nodes ==> r.value.nodes[k].number == k
    ensures r.Ok? ==> forall n :: n in Reached(dag.nodes, selection) && n.Some? ==> n.value.number in r.value.nodes
    ensures r.Ok? ==> forall k :: k in r.value.nodes ==>
              (fresh(r.value.nodes[k]) && r.value.nodes[k].parents == []) ||
              Some(r.value.nodes[k]) in AllChildLookups(dag.nodes, Lookups(dag.nodes, selection))
  {
    var start := Lookups(dag.nodes, selection);
    if None in start {
      return Err(BadType);
    }
    var children := AllChildLookups(dag.nodes, start);
    if None in children {
      return Err(BadType);
    }
    var table := KeyByNumber(children);
    table := AddParentlessCopies(table, start, children);
    r := Ok(PyDag(table, LeavesOf(table)));
  }

  /** `init_selection_dag` with the copying reduction. */
  method InitSelectionDagCopying(session: Session, selection: seq<string>, layout: PyDag -> Positions)
    returns (r: Result<()>)
    modifies session
    ensures session.oldDag == Some(old(session.dag)) && session.oldPositions == Some(old(session.positions))
    ensures r.Ok? <==> SelectionIds(selection).Ok? && None !in Reached(old(session.dag.nodes), SelectionIds(selection).value)
    ensures r.Ok? ==> session.positions == layout(session.dag)
    ensures r.Ok? ==> session.historyState == session.totalHistoryLength - 1
  {
    session.oldDag := Some(session.dag);
    session.oldPositions := Some(session.positions);
    var ids := SelectionIds(selection);
    if ids.Err? {
      return Err(ids.error);
    }
    var reduced := ReduceToSelectionCopying(session.dag, ids.value);
    if reduced.Err? {
      return Err(reduced.error);
    }
    Show(session, reduced.value, layout);
    r := Ok(());
  }

  /** With the copying reduction, selecting and then resetting gives back the dag exactly as
      it was, whether or not the selection could be reduced: the same table, and every node
      with the parents it had. */
  method SelectThenResetCopying(session: Session, selection: seq<string>, layout: PyDag -> Positions)
    returns (r: Result<()>)
    modifies session
    ensures r.Ok? <==> SelectionIds(selection).Ok? && None !in Reached(old(session.dag.nodes), SelectionIds(selection).value)
    ensures session.dag == old(session.dag) && session.positions == old(session.positions)
    ensures forall n :: n in Objects(old(session.dag.nodes)) ==> n.parents == old(n.parents)
  {
    r := InitSelectionDagCopying(session, selection, layout);
    var reset := ResetDag(session);
    if reset.Err? {
      r := reset;
    }
  }

  /** The two-node dag `1 -> 2` used by the examples below: node 2 was derived from node 1. */
  method TwoNodeSession() returns (session: Session, n1: PyNode, n2: PyNode)
    ensures fresh(session) && fresh(n1) && fresh(n2)
    ensures session.dag.nodes == map[1 := n1, 2 := n2] && session.oldDag == None
    ensures n1.number == 1 && n1.parents == [] && n1.children == {2}
    ensures n2.number == 2 && n2.parents == [1] && n2.children == {}
  {
    n1 := new PyNode(1, [], {2}, "input", Some(1), Some(2));
    n2 := new PyNode(2, [1], {}, "resolution", Some(3), None);
    var nodes := map[1 := n1, 2 := n2];
    session := new Session(PyDag(nodes, LeavesOf(nodes)), [], 4);
  }

  /** As written: selecting node 2 and then resetting gives back the old table, but node 2 has
      lost its parent 1, because the reduction emptied it in place on the shared object. */
  method ResetLosesParents() returns (before: seq<int>, after: seq<int>)
    ensures before == [1] && after == []
  {
    var session, n1, n2 := TwoNodeSession();
    before := n2.parents;
    ParsePyIntOfTwo();
    var nodes := session.dag.nodes;
    assert Lookups(nodes, {2}) == {Some(n2)};
    assert AllChildLookups(nodes, {Some(n2)}) == {};
    assert n2 in Selected(nodes, {2});
    var r := InitSelectionDag(session, ["2"], _ => []);
    assert r.Ok?;
    var reset := ResetDag(session);
    assert session.dag.nodes == nodes;
    after := session.dag.nodes[2].parents;
  }

  /** With the copying reduction the same steps give node 2 its parent back. */
  method ResetKeepsParents() returns (before: seq<int>, after: seq<int>)
    ensures before == [1] && after == [1]
  {
    var session, n1, n2 := TwoNodeSession();
    before := n2.parents;
    ParsePyIntOfTwo();
    var r := SelectThenResetCopying(session, ["2"], _ => []);
    after := session.dag.nodes[2].parents;
  }

  lemma ParsePyIntOfTwo()
    ensures SelectionIds(["2"]) == Ok({2})
  {
    ParsePyIntOfNat(2);
    assert NatToString(2) == "2";
    assert ParsePyInt("2") == Some(2);
    var pieces := ["2"];
    assert pieces[0] == "2";
    assert AllIntegers(pieces);
    var values := ParseAll(pieces).value;
    assert ReadAs(pieces, values) && values[0] == 2;
    assert values == [2];
    assert (set k | 0 <= k < |[2]| :: [2][k]) == {2};
  }
}
