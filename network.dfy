/** The frontend's helpers for the proof-obligation (pob) view of a Spacer run
    (visualization-frontend/src/helpers/network.ts): the lemmas learnt for each pob with the
    lowest and highest level each lemma was seen at, the text of each expression, and the
    layout that hides an expanded pob when a sibling expands the same expression. The tree is
    a JSON object keyed by node id; iterating it visits the keys in an order given here as a
    list. A level is a number or the string `"oo"`; JavaScript's `<` and `>` compare numbers,
    and any comparison with `"oo"` is false. */
module Network {
  import opened Wrappers
  import Dags

  datatype Level = Finite(n: int) | Infinity

  /** A node of the pob tree, with the fields the helpers read and write; `to_be_vis` may be
      absent. */
  datatype PobNode = PobNode(nodeID: int, exprID: int, expr: string, eventType: string, level: Level,
                             pobID: int, parent: int, children: seq<int>, toBeVis: Option<bool>)

  const AddLemma := "EType.ADD_LEM"
  const ExpandPob := "EType.EXP_POB"

  // buildPobLemmasMap

  /** `[exprID, min, max]`. */
  datatype LemmaEntry = LemmaEntry(exprID: int, min: Level, max: Level)

  type PobLemmas = map<int, seq<LemmaEntry>>

  /** JavaScript's `a > b` and `a < b` on levels. */
  predicate Greater(a: Level, b: Level) { a.Finite? && b.Finite? && a.n > b.n }
  predicate Less(a: Level, b: Level) { a.Finite? && b.Finite? && a.n < b.n }

  /** A lemma seen again at `level`: the max becomes the level if it is larger or is `"oo"`,
      and the min becomes the level if it is smaller. */
  function Widen(e: LemmaEntry, level: Level): (r: LemmaEntry)
    ensures r.exprID == e.exprID
    ensures level == Infinity ==> r.max == Infinity && r.min == e.min
    ensures e.max == Infinity ==> r.max == Infinity
    ensures e.min == Infinity ==> r.min == Infinity
  {
    var max := if Greater(level, e.max) || level == Infinity then level else e.max;
    var min := if Less(level, e.min) then level else e.min;
    LemmaEntry(e.exprID, min, max)
  }

  /** The position of the first entry for `exprID`. */
  function Find(entries: seq<LemmaEntry>, exprID: int): (r: Option<nat>)
    ensures r.Some? ==> r.value < |entries| && entries[r.value].exprID == exprID &&
                        forall k :: 0 <= k < r.value ==> entries[k].exprID != exprID
    ensures r.None? ==> forall k :: 0 <= k < |entries| ==> entries[k].exprID != exprID
  {
    if |entries| == 0 then None
    else if entries[0].exprID == exprID then Some(0)
    else match Find(entries[1..], exprID)
      case None => None
      case Some(k) => Some(k + 1)
  }

  /** The first entry for `exprID` is at `k` when it matches and none before it does. */
  lemma FindAt(entries: seq<LemmaEntry>, exprID: int, k: nat)
    requires k < |entries| && entries[k].exprID == exprID
    requires forall j :: 0 <= j < k ==> entries[j].exprID != exprID
    ensures Find(entries, exprID) == Some(k)
  {
  }

  /** The inner loop's effect: the lemma's entry is widened, or appended if it is new. */
  function Record(entries: seq<LemmaEntry>, exprID: int, level: Level): (r: seq<LemmaEntry>)
    ensures Find(r, exprID).Some?
    ensures Find(entries, exprID).Some? ==> |r| == |entries|
    ensures Find(entries, exprID).None? ==> |r| == |entries| + 1
  {
    match Find(entries, exprID)
    case Some(k) =>
      var r := entries[k := Widen(entries[k], level)];
      FindAt(r, exprID, k);
      r
    case None =>
      var r := entries + [LemmaEntry(exprID, level, level)];
      FindAt(r, exprID, |entries|);
      r
  }

  /** The lemma loop of one ADD_LEM node: scans the pob's list, widening the first entry with
      the same expression and stopping there, or appends a new entry. */
  method RecordLemma(entries: seq<LemmaEntry>, exprID: int, level: Level) returns (r: seq<LemmaEntry>)
    ensures r == Record(entries, exprID, level)
  {
    r := entries;
    var existPrevLemma := false;
    var i := 0;
    while i < |r|
      invariant 0 <= i <= |r| && r == entries && !existPrevLemma
      invariant forall k :: 0 <= k < i ==> entries[k].exprID != exprID
    {
      if r[i].exprID == exprID {
        FindAt(entries, exprID, i);
        existPrevLemma := true;
        r := r[i := Widen(r[i], level)];
        break;
      }
      i := i + 1;
    }
    if !existPrevLemma {
      r := r + [LemmaEntry(exprID, level, level)];
    }
  }

  /** One node of the tree: only lemma additions are recorded, under their pob. */
  function StepLemmas(m: PobLemmas, node: PobNode): PobLemmas
  {
    if node.eventType != AddLemma then m
    else m[node.pobID := Record(if node.pobID in m then m[node.pobID] else [], node.exprID, node.level)]
  }

  /** The map after the given nodes, in iteration order. */
  function LemmasOf(nodes: seq<PobNode>): PobLemmas
  {
    if |nodes| == 0 then map[] else StepLemmas(LemmasOf(nodes[..|nodes| - 1]), nodes[|nodes| - 1])
  }

  /** `buildPobLemmasMap`. */
  method BuildPobLemmasMap(nodes: seq<PobNode>) returns (m: PobLemmas)
    ensures m == LemmasOf(nodes)
  {
    m := map[];
    for i := 0 to |nodes|
      invariant m == LemmasOf(nodes[..i])
    {
      assert nodes[..i + 1][..i] == nodes[..i];
      var node := nodes[i];
      if node.eventType == AddLemma {
        if node.pobID !in m {
          m := m[node.pobID := []];
        }
        var list := RecordLemma(m[node.pobID], node.exprID, node.level);
        m := m[node.pobID := list];
      }
    }
    assert nodes[..|nodes|] == nodes;
  }

  /** The levels at which a lemma was added to a pob, in iteration order. */
  function Levels(nodes: seq<PobNode>, pobID: int, exprID: int): seq<Level>
  {
    if |nodes| == 0 then []
    else
      var last := nodes[|nodes| - 1];
      Levels(nodes[..|nodes| - 1], pobID, exprID) +
      (if last.eventType == AddLemma && last.pobID == pobID && last.exprID == exprID then [last.level] else [])
  }

  /** The entry a lemma seen at these levels ends with. */
  function Summary(levels: seq<Level>, exprID: int): LemmaEntry
    requires |levels| > 0
  {
    if |levels| == 1 then LemmaEntry(exprID, levels[0], levels[0])
    else Widen(Summary(levels[..|levels| - 1], exprID), levels[|levels| - 1])
  }

  /** What the summary of a lemma says: the max is `"oo"` exactly when some level was `"oo"`,
      and otherwise the largest level; the min is `"oo"` exactly when the first level was
      (no number compares below `"oo"`), and otherwise the smallest numeric level. */
  lemma {:induction false} SummaryBounds(levels: seq<Level>, exprID: int)
    requires |levels| > 0
    ensures Summary(levels, exprID).exprID == exprID
    ensures Summary(levels, exprID).max == Infinity <==> Infinity in levels
    ensures Summary(levels, exprID).min == Infinity <==> levels[0] == Infinity
    ensures Summary(levels, exprID).max.Finite? ==>
              Summary(levels, exprID).max in levels &&
              forall k :: 0 <= k < |levels| ==> levels[k].Finite? && levels[k].n <= Summary(levels, exprID).max.n
    ensures Summary(levels, exprID).min.Finite? ==>
              Summary(levels, exprID).min in levels &&
              forall k :: 0 <= k < |levels| && levels[k].Finite? ==> Summary(levels, exprID).min.n <= levels[k].n
  {
    if |levels| > 1 {
      var init := levels[..|levels| - 1];
      var last := levels[|levels| - 1];
      SummaryBounds(init, exprID);
      assert levels == init + [last];
      assert init[0] == levels[0];
      var e := Summary(init, exprID);
      var r := Summary(levels, exprID);
      assert r == Widen(e, last);
      if r.max.Finite? {
        assert e.max.Finite? && last.Finite?;
        forall k | 0 <= k < |levels| ensures levels[k].Finite? && levels[k].n <= r.max.n {
          if k < |levels| - 1 {
            assert levels[k] == init[k];
          }
        }
      }
      if r.min.Finite? {
        forall k | 0 <= k < |levels| && levels[k].Finite? ensures r.min.n <= levels[k].n {
          if k < |levels| - 1 {
            assert levels[k] == init[k];
          }
        }
      }
    }
  }

  /** Adding one lemma leaves the entries of other lemmas where they were. */
  lemma RecordOthers(entries: seq<LemmaEntry>, exprID: int, level: Level, other: int)
    requires other != exprID
    ensures Find(Record(entries, exprID, level), other) == Find(entries, other)
    ensures Find(entries, other).Some? ==>
              Record(entries, exprID, level)[Find(entries, other).value] == entries[Find(entries, other).value]
  {
    var r := Record(entries, exprID, level);
    assert forall k :: 0 <= k < |entries| ==> r[k].exprID == entries[k].exprID;
    match Find(entries, other)
    case Some(k) => FindAt(r, other, k);
    case None =>
      assert forall k :: 0 <= k < |r| ==> r[k].exprID != other;
  }

  /** The lemma just recorded has its first entry where it had it, widened, or a new entry. */
  lemma RecordSame(entries: seq<LemmaEntry>, exprID: int, level: Level)
    ensures Find(entries, exprID).Some? ==>
              Find(Record(entries, exprID, level), exprID) == Find(entries, exprID) &&
              Record(entries, exprID, level)[Find(entries, exprID).value] ==
              Widen(entries[Find(entries, exprID).value], level)
    ensures Find(entries, exprID).None? ==>
              Find(Record(entries, exprID, level), exprID) == Some(|entries|) &&
              Record(entries, exprID, level)[|entries|] == LemmaEntry(exprID, level, level)
  {
    var r := Record(entries, exprID, level);
    match Find(entries, exprID)
    case Some(k) => FindAt(r, exprID, k);
    case None => FindAt(r, exprID, |entries|);
  }

  /** A pob's list holds an entry for a lemma exactly when some ADD_LEM node added that lemma
      to that pob, and the entry is the summary of the levels it was added at. */
  lemma {:induction false} LemmasMeaning(nodes: seq<PobNode>, pobID: int, exprID: int)
    ensures var m := LemmasOf(nodes);
            (pobID in m && Find(m[pobID], exprID).Some?) <==> |Levels(nodes, pobID, exprID)| > 0
    ensures var m := LemmasOf(nodes);
            |Levels(nodes, pobID, exprID)| > 0 ==>
              m[pobID][Find(m[pobID], exprID).value] == Summary(Levels(nodes, pobID, exprID), exprID)
  {
    if |nodes| > 0 {
      var init := nodes[..|nodes| - 1];
      var last := nodes[|nodes| - 1];
      LemmasMeaning(init, pobID, exprID);
      var m0 := LemmasOf(init);
      var levels0 := Levels(init, pobID, exprID);
      var levels := Levels(nodes, pobID, exprID);
      if last.eventType == AddLemma && last.pobID == pobID {
        var entries := if pobID in m0 then m0[pobID] else [];
        assert LemmasOf(nodes)[pobID] == Record(entries, last.exprID, last.level);
        if last.exprID == exprID {
          RecordSame(entries, exprID, last.level);
          assert levels == levels0 + [last.level];
          if |levels0| > 0 {
            assert levels[..|levels| - 1] == levels0;
          }
        } else {
          RecordOthers(entries, last.exprID, last.level, exprID);
          assert levels == levels0;
        }
      } else {
        assert levels == levels0;
        assert LemmasOf(nodes) == m0 || (last.eventType == AddLemma && pobID != last.pobID);
      }
    }
  }

  /** No lemma appears twice in a pob's list. */
  predicate UniqueLemmas(entries: seq<LemmaEntry>)
  {
    forall i, j :: 0 <= i < j < |entries| ==> entries[i].exprID != entries[j].exprID
  }

  lemma {:induction false} LemmasUnique(nodes: seq<PobNode>)
    ensures forall pobID :: pobID in LemmasOf(nodes) ==> UniqueLemmas(LemmasOf(nodes)[pobID])
  {
    if |nodes| > 0 {
      var init := nodes[..|nodes| - 1];
      var last := nodes[|nodes| - 1];
      LemmasUnique(init);
      var m0 := LemmasOf(init);
      if last.eventType == AddLemma {
        var entries := if last.pobID in m0 then m0[last.pobID] else [];
        var r := Record(entries, last.exprID, last.level);
        assert UniqueLemmas(entries);
        match Find(entries, last.exprID)
        case Some(k) =>
          assert forall i :: 0 <= i < |r| ==> r[i].exprID == entries[i].exprID;
        case None =>
          assert r == entries + [LemmaEntry(last.exprID, last.level, last.level)];
      }
    }
  }

  // buildExprMap

  /** The map after the given nodes: each node stores its expression under its expression id. */
  function ExprMapOf(nodes: seq<PobNode>): map<int, string>
  {
    if |nodes| == 0 then map[]
    else ExprMapOf(nodes[..|nodes| - 1])[nodes[|nodes| - 1].exprID := nodes[|nodes| - 1].expr]
  }

  /** `buildExprMap`. */
  method BuildExprMap(nodes: seq<PobNode>) returns (m: map<int, string>)
    ensures m == ExprMapOf(nodes)
  {
    m := map[];
    for i := 0 to |nodes|
      invariant m == ExprMapOf(nodes[..i])
    {
      assert nodes[..i + 1][..i] == nodes[..i];
      m := m[nodes[i].exprID := nodes[i].expr];
    }
    assert nodes[..|nodes|] == nodes;
  }

  /** Every expression id of the tree is a key, and it maps to the expression of the last node
      with that id. */
  lemma {:induction false} ExprMapLastWins(nodes: seq<PobNode>, k: nat)
    requires k < |nodes|
    requires forall j :: k < j < |nodes| ==> nodes[j].exprID != nodes[k].exprID
    ensures nodes[k].exprID in ExprMapOf(nodes) && ExprMapOf(nodes)[nodes[k].exprID] == nodes[k].expr
  {
    if k < |nodes| - 1 {
      ExprMapLastWins(nodes[..|nodes| - 1], k);
    }
  }

  lemma {:induction false} ExprMapKeys(nodes: seq<PobNode>, x: int)
    ensures x in ExprMapOf(nodes) <==> exists k :: 0 <= k < |nodes| && nodes[k].exprID == x
  {
    if |nodes| > 0 {
      var init := nodes[..|nodes| - 1];
      ExprMapKeys(init, x);
      if x in ExprMapOf(init) {
        var k :| 0 <= k < |init| && init[k].exprID == x;
        assert nodes[k].exprID == x;
      }
      if exists k :: 0 <= k < |nodes| && nodes[k].exprID == x {
        var k :| 0 <= k < |nodes| && nodes[k].exprID == x;
        if k < |init| {
          assert init[k].exprID == x;
        }
      }
    }
  }

  // PobVisLayout

  type PobTree = map<int, PobNode>

  /** The sibling loop: the first sibling (by key) that is another node with the same
      expression; a key missing from the tree reads `undefined` and fails. */
  function FindSibling(tree: PobTree, siblings: seq<int>, node: PobNode): (r: Result<Option<int>>)
    ensures r.Ok? && r.value.Some? ==>
              r.value.value in tree && r.value.value in siblings &&
              tree[r.value.value].nodeID != node.nodeID && tree[r.value.value].exprID == node.exprID
    ensures r.Ok? && r.value.None? ==>
              forall k :: 0 <= k < |siblings| ==>
                siblings[k] in tree && !(tree[siblings[k]].nodeID != node.nodeID && tree[siblings[k]].exprID == node.exprID)
    ensures r.Err? ==> exists k :: 0 <= k < |siblings| && siblings[k] !in tree
  {
    if |siblings| == 0 then Ok(None)
    else if siblings[0] !in tree then Err(BadType)
    else if tree[siblings[0]].nodeID != node.nodeID && tree[siblings[0]].exprID == node.exprID then Ok(Some(siblings[0]))
    else
      var r := FindSibling(tree, siblings[1..], node);
      assert r.Err? ==> exists k :: 0 <= k < |siblings| - 1 && siblings[1..][k] !in tree;
      r
  }

  /** Two trees hold the same nodes apart from their links and visibility flags, and a flag
      only ever changes to `false`. */
  predicate Kept(before: PobTree, after: PobTree)
  {
    after.Keys == before.Keys &&
    forall k :: k in before ==>
      after[k].nodeID == before[k].nodeID && after[k].exprID == before[k].exprID &&
      after[k].expr == before[k].expr && after[k].eventType == before[k].eventType &&
      after[k].level == before[k].level && after[k].pobID == before[k].pobID &&
      (after[k].toBeVis == before[k].toBeVis || after[k].toBeVis == Some(false))
  }

  lemma KeptTrans(a: PobTree, b: PobTree, c: PobTree)
    requires Kept(a, b) && Kept(b, c)
    ensures Kept(a, c)
  {
  }

  /** Hiding a node keeps the tree. */
  lemma KeptHide(tree: PobTree, id: int)
    requires id in tree
    ensures Kept(tree, tree[id := tree[id].(toBeVis := Some(false))])
  {
  }

  /** Replacing a node's children keeps the tree. */
  lemma KeptRelink(tree: PobTree, p: int, children: seq<int>)
    requires p in tree
    ensures Kept(tree, tree[p := tree[p].(children := children)])
  {
  }

  /** The children loop: each child now names the sibling as its parent, and is appended to
      the sibling's children; a child missing from the tree fails. */
  function Repoint(tree: PobTree, children: seq<int>, sibling: int): (r: Result<PobTree>)
    requires sibling in tree
    ensures r.Ok? ==> Kept(tree, r.value)
    ensures r.Ok? <==> forall k :: 0 <= k < |children| ==> children[k] in tree
    decreases |children|
  {
    if |children| == 0 then Ok(tree)
    else if children[0] !in tree then Err(BadType)
    else
      var t := RepointOne(tree, children[0], sibling);
      var r := Repoint(t, children[1..], sibling);
      assert r.Ok? ==> Kept(tree, r.value) by {
        if r.Ok? { KeptTrans(tree, t, r.value); }
      }
      assert r.Ok? <==> forall k :: 0 <= k < |children| ==> children[k] in tree by {
        assert forall k :: 1 <= k < |children| ==> children[k] == children[1..][k - 1];
      }
      r
  }

  /** One child moved under the sibling. */
  function RepointOne(tree: PobTree, child: int, sibling: int): (r: PobTree)
    requires child in tree && sibling in tree
    ensures Kept(tree, r)
  {
    var t := tree[child := tree[child].(parent := tree[sibling].nodeID)];
    t[sibling := t[sibling].(children := t[sibling].children + [child])]
  }

  /** The new child list of the parent: every entry but the hidden node's id. */
  function WithoutNode(children: seq<int>, nodeID: int): (r: seq<int>)
    ensures forall x :: x in r <==> x in children && x != nodeID
    ensures |r| <= |children|
  {
    if |children| == 0 then []
    else (if children[0] != nodeID then [children[0]] else []) + WithoutNode(children[1..], nodeID)
  }

  /** One iteration of the layout loop. A node that is not an expanded pob is hidden. An
      expanded pob with a sibling expanding the same expression is hidden, its children move
      under that sibling, and it leaves its parent's children. A missing parent fails. */
  function LayoutStep(tree: PobTree, id: int): (r: Result<PobTree>)
    requires id in tree
    ensures r.Ok? ==> Kept(tree, r.value)
    ensures r.Ok? && tree[id].eventType != ExpandPob ==> r.value[id].toBeVis == Some(false)
  {
    var node := tree[id];
    if node.eventType != ExpandPob then Ok(tree[id := node.(toBeVis := Some(false))])
    else if node.parent !in tree then Err(BadType)
    else
      var p := node.parent;
      match FindSibling(tree, tree[p].children, node)
      case Err(e) => Err(e)
      case Ok(None) => Ok(tree)
      case Ok(Some(sibling)) =>
        var hidden := tree[id := node.(toBeVis := Some(false))];
        KeptHide(tree, id);
        match Repoint(hidden, node.children, sibling)
        case Err(e) => Err(e)
        case Ok(moved) =>
          var r := moved[p := moved[p].(children := WithoutNode(moved[p].children, node.nodeID))];
          KeptTrans(tree, hidden, moved);
          KeptRelink(moved, p, WithoutNode(moved[p].children, node.nodeID));
          KeptTrans(tree, moved, r);
          Ok(r)
  }

  /** The layout loop over the keys from `order` on. */
  function LayoutFrom(tree: PobTree, order: seq<int>): (r: Result<PobTree>)
    requires forall k :: 0 <= k < |order| ==> order[k] in tree
    ensures r.Ok? ==> Kept(tree, r.value)
  {
    if |order| == 0 then Ok(tree)
    else
      match LayoutStep(tree, order[0])
      case Err(e) => Err(e)
      case Ok(t) =>
        var r := LayoutFrom(t, order[1..]);
        if r.Ok? then KeptTrans(tree, t, r.value); r else r
  }

  /** The sibling loop as written, with its early exit. */
  method FindSiblingLoop(tree: PobTree, siblings: seq<int>, node: PobNode) returns (r: Result<Option<int>>)
    ensures r == FindSibling(tree, siblings, node)
  {
    var i := 0;
    while i < |siblings|
      invariant 0 <= i <= |siblings|
      invariant FindSibling(tree, siblings, node) == FindSibling(tree, siblings[i..], node)
    {
      assert siblings[i..][1..] == siblings[i + 1..];
      if siblings[i] !in tree {
        return Err(BadType);
      }
      var sibl := tree[siblings[i]];
      if sibl.nodeID != node.nodeID && sibl.exprID == node.exprID {
        return Ok(Some(siblings[i]));
      }
      i := i + 1;
    }
    r := Ok(None);
  }

  /** The children loop as written. */
  method RepointLoop(tree: PobTree, children: seq<int>, sibling: int) returns (r: Result<PobTree>)
    requires sibling in tree
    ensures r == Repoint(tree, children, sibling)
  {
    var t := tree;
    for i := 0 to |children|
      invariant sibling in t
      invariant Repoint(tree, children, sibling) == Repoint(t, children[i..], sibling)
    {
      assert children[i..][1..] == children[i + 1..];
      var childID := children[i];
      if childID !in t {
        return Err(BadType);
      }
      t := t[childID := t[childID].(parent := t[sibling].nodeID)];
      t := t[sibling := t[sibling].(children := t[sibling].children + [childID])];
    }
    r := Ok(t);
  }

  /** The parent's new child list, built by the filtering loop. */
  method WithoutNodeLoop(children: seq<int>, nodeID: int) returns (r: seq<int>)
    ensures r == WithoutNode(children, nodeID)
  {
    r := [];
    var i := |children|;
    var tail := [];
    while i > 0
      invariant 0 <= i <= |children|
      invariant tail == WithoutNode(children[i..], nodeID)
    {
      i := i - 1;
      assert children[i..][1..] == children[i + 1..];
      tail := (if children[i] != nodeID then [children[i]] else []) + tail;
    }
    r := tail;
  }

  /** `PobVisLayout`: works on a copy (the input is a value here, so it cannot change) and
      runs the layout step on every key in iteration order. */
  method PobVisLayout(tree: PobTree, order: seq<int>) returns (r: Result<PobTree>)
    requires Dags.Enumerates(order, tree.Keys)
    ensures r == LayoutFrom(tree, order)
  {
    var treeCloned := tree;
    for i := 0 to |order|
      invariant treeCloned.Keys == tree.Keys
      invariant LayoutFrom(tree, order) == LayoutFrom(treeCloned, order[i..])
    {
      assert order[i..][1..] == order[i + 1..];
      assert order[i] in tree.Keys;
      var node := treeCloned[order[i]];
      if node.eventType != ExpandPob {
        treeCloned := treeCloned[order[i] := node.(toBeVis := Some(false))];
      } else {
        if node.parent !in treeCloned {
          return Err(BadType);
        }
        var p := node.parent;
        var found := FindSiblingLoop(treeCloned, treeCloned[p].children, node);
        if found.Err? {
          return Err(found.error);
        }
        if found.value.Some? {
          var sibling := found.value.value;
          var hidden := treeCloned[order[i] := node.(toBeVis := Some(false))];
          var moved := RepointLoop(hidden, node.children, sibling);
          if moved.Err? {
            return Err(moved.error);
          }
          var newChildren := WithoutNodeLoop(moved.value[p].children, node.nodeID);
          treeCloned := moved.value[p := moved.value[p].(children := newChildren)];
        }
      }
    }
    r := Ok(treeCloned);
  }

  /** After the layout every node that is not an expanded pob is hidden, and no node is
      shown that was hidden before. */
  lemma {:induction false} LayoutHidesOthers(tree: PobTree, order: seq<int>, k: int)
    requires forall j :: 0 <= j < |order| ==> order[j] in tree
    requires LayoutFrom(tree, order).Ok? && k in order && tree[k].eventType != ExpandPob
    ensures LayoutFrom(tree, order).value[k].toBeVis == Some(false)
  {
    var t := LayoutStep(tree, order[0]).value;
    var r := LayoutFrom(t, order[1..]).value;
    if order[0] == k {
      assert t[k].toBeVis == Some(false);
      assert Kept(t, r);
    } else {
      assert k in order[1..];
      LayoutHidesOthers(t, order[1..], k);
    }
  }

  /** Moving children under a sibling: each child names the sibling as its parent, the
      sibling's children gain them in order, and nodes outside the move are untouched. */
  lemma {:induction false} RepointEffect(tree: PobTree, children: seq<int>, sibling: int)
    requires sibling in tree && Repoint(tree, children, sibling).Ok?
    ensures var r := Repoint(tree, children, sibling).value;
            (forall k :: 0 <= k < |children| ==> r[children[k]].parent == tree[sibling].nodeID) &&
            r[sibling].children == tree[sibling].children + children &&
            (sibling !in children ==> r[sibling].parent == tree[sibling].parent) &&
            (forall x :: x in tree && x != sibling && x !in children ==> r[x] == tree[x])
    decreases |children|
  {
    if |children| > 0 {
      var t := RepointOne(tree, children[0], sibling);
      RepointOneEffect(tree, children[0], sibling);
      RepointEffect(t, children[1..], sibling);
      var r := Repoint(tree, children, sibling).value;
      assert r == Repoint(t, children[1..], sibling).value;
      RepointStep(tree, t, r, children, sibling);
    }
  }

  /** The inductive step of `RepointEffect`, over the tree after the first child moved (`t`)
      and after the rest moved (`r`). */
  lemma RepointStep(tree: PobTree, t: PobTree, r: PobTree, children: seq<int>, sibling: int)
    requires |children| > 0 && sibling in tree && t.Keys == tree.Keys && r.Keys == t.Keys
    requires forall k :: 0 <= k < |children| ==> children[k] in tree
    requires t[children[0]].parent == tree[sibling].nodeID
    requires t[sibling].nodeID == tree[sibling].nodeID
    requires t[sibling].children == tree[sibling].children + [children[0]]
    requires sibling != children[0] ==> t[sibling].parent == tree[sibling].parent
    requires forall x :: x in tree && x != sibling && x != children[0] ==> t[x] == tree[x]
    requires forall k :: 0 <= k < |children[1..]| ==> r[children[1..][k]].parent == t[sibling].nodeID
    requires r[sibling].children == t[sibling].children + children[1..]
    requires sibling !in children[1..] ==> r[sibling].parent == t[sibling].parent
    requires forall x :: x in t && x != sibling && x !in children[1..] ==> r[x] == t[x]
    ensures (forall k :: 0 <= k < |children| ==> r[children[k]].parent == tree[sibling].nodeID) &&
            r[sibling].children == tree[sibling].children + children &&
            (sibling !in children ==> r[sibling].parent == tree[sibling].parent) &&
            (forall x :: x in tree && x != sibling && x !in children ==> r[x] == tree[x])
  {
    assert r[sibling].children == (tree[sibling].children + [children[0]]) + children[1..];
    ChildrenNameSibling(t, r, children, sibling, tree[sibling].nodeID);
    assert children == [children[0]] + children[1..];
  }

  /** Once the first child names the sibling's id and the rest of the move makes every later
      child name it too, every child names it. */
  lemma ChildrenNameSibling(t: PobTree, r: PobTree, children: seq<int>, sibling: int, id: int)
    requires |children| > 0 && sibling in t && t.Keys == r.Keys
    requires forall k :: 0 <= k < |children| ==> children[k] in t
    requires t[children[0]].parent == id
    requires forall k :: 0 <= k < |children[1..]| ==> r[children[1..][k]].parent == id
    requires sibling !in children[1..] ==> r[sibling].parent == t[sibling].parent
    requires forall x :: x in t && x != sibling && x !in children[1..] ==> r[x] == t[x]
    ensures forall k :: 0 <= k < |children| ==> r[children[k]].parent == id
  {
    forall k | 0 <= k < |children| ensures r[children[k]].parent == id {
      if k > 0 {
        assert children[k] == children[1..][k - 1];
      } else if children[0] in children[1..] {
        var j :| 0 <= j < |children[1..]| && children[1..][j] == children[0];
      }
    }
  }

  /** What moving one child does to the tree. */
  lemma RepointOneEffect(tree: PobTree, child: int, sibling: int)
    requires child in tree && sibling in tree
    ensures var t := RepointOne(tree, child, sibling);
            t.Keys == tree.Keys &&
            t[child].parent == tree[sibling].nodeID &&
            t[sibling].nodeID == tree[sibling].nodeID &&
            t[sibling].children == tree[sibling].children + [child] &&
            (sibling != child ==> t[sibling].parent == tree[sibling].parent) &&
            (forall x :: x in tree && x != sibling && x != child ==> t[x] == tree[x])
  {
  }

  /** The step that hides a duplicate expanded pob: it is hidden, it leaves its parent's
      children, its children name the sibling as parent, and (when the parent is not the
      sibling itself) they are appended to the sibling's children. */
  lemma MergeStep(tree: PobTree, id: int, sibling: int)
    requires id in tree && tree[id].eventType == ExpandPob && tree[id].parent in tree
    requires FindSibling(tree, tree[tree[id].parent].children, tree[id]) == Ok(Some(sibling))
    requires LayoutStep(tree, id).Ok?
    ensures var node := tree[id];
            var r := LayoutStep(tree, id).value;
            r[id].toBeVis == Some(false) &&
            node.nodeID !in r[node.parent].children &&
            (forall k :: 0 <= k < |node.children| ==>
               r[node.children[k]].parent == tree[sibling].nodeID) &&
            (node.parent != sibling ==> r[sibling].children == tree[sibling].children + node.children)
  {
    var node := tree[id];
    var hidden := tree[id := node.(toBeVis := Some(false))];
    RepointEffect(hidden, node.children, sibling);
    assert hidden[sibling].nodeID == tree[sibling].nodeID;
    assert id != sibling;
    var moved := Repoint(hidden, node.children, sibling).value;
    assert moved[id].toBeVis == Some(false) by {
      if id !in node.children {
        assert moved[id] == hidden[id];
      }
    }
  }
}
