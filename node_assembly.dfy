/** The node tables the older parsers assemble (proof_visualization/model/parsing.py,
    proofvisualization/model/parsing.py, presenter/parsing/vampire_parser.py, vampire_parser.py):
    each parsed inference is stored under its number, and its number is added to the
    `children` set of each parent; a parent not seen yet gets a placeholder node that holds
    the child. The node records differ only in the types of their clause and parents, so they
    share one datatype. */
module NodeAssembly {
  import opened Dags

  /** A parsed inference: number, clause and rule (of type `C`), parents (of type `P`) and the
      set of the numbers of the nodes derived from it, which callers grow. */
  datatype Node<C, P> = Node(number: int, clause: C, inferenceRule: C, parents: P, children: set<int>)

  type Table<C, P> = map<int, Node<C, P>>

  /** The placeholder for a parent not seen yet: its tag stands in for clause and rule. */
  function Placeholder<C, P>(parent: int, child: int, tag: C, noParents: P): (n: Node<C, P>)
    ensures n.number == parent && n.children == {child}
  {
    Node(parent, tag, tag, noParents, {child})
  }

  /** One step of `add_as_child`: `nodes[parent].children.add(child)`, or, on `KeyError`, a
      placeholder stored under `parent`. */
  function ChildAdded<C, P>(t: Table<C, P>, parent: int, child: int, tag: C, noParents: P): Table<C, P>
  {
    if parent in t then t[parent := t[parent].(children := t[parent].children + {child})]
    else t[parent := Placeholder(parent, child, tag, noParents)]
  }

  /** The table once `child` was added under every id of `ps`, in whatever order. */
  ghost function Linked<C, P>(t: Table<C, P>, ps: set<int>, child: int, tag: C, noParents: P): Table<C, P>
  {
    map k | k in t.Keys + ps ::
      if k !in ps then t[k]
      else if k in t then t[k].(children := t[k].children + {child})
      else Placeholder(k, child, tag, noParents)
  }

  /** What linking does: it adds the parents' ids, changes nothing but children, grows each
      parent's children by exactly the child, and leaves every other node alone. */
  lemma LinkedMeaning<C, P>(t: Table<C, P>, ps: set<int>, child: int, tag: C, noParents: P, k: int, x: int)
    ensures var r := Linked(t, ps, child, tag, noParents);
            (k in r <==> k in t || k in ps) &&
            (k in r ==> (x in r[k].children <==> (k in ps && x == child) || (k in t && x in t[k].children))) &&
            (k in t ==> r[k] == t[k].(children := r[k].children)) &&
            (k in r && k !in t ==> r[k] == Placeholder(k, child, tag, noParents))
  {
  }

  /** Adding the child under one more parent extends the linked set; adding it again changes
      nothing. */
  lemma ChildAddedStep<C, P>(t: Table<C, P>, done: set<int>, p: int, child: int, tag: C, noParents: P)
    ensures ChildAdded(Linked(t, done, child, tag, noParents), p, child, tag, noParents)
            == Linked(t, done + {p}, child, tag, noParents)
  {
    var before := Linked(t, done, child, tag, noParents);
    var after := ChildAdded(before, p, child, tag, noParents);
    var goal := Linked(t, done + {p}, child, tag, noParents);
    assert after.Keys == goal.Keys;
    forall k | k in goal ensures after[k] == goal[k] {
      if k == p && p in done {
        assert before[k].children + {child} == before[k].children;
      }
    }
  }

  lemma LinkedNone<C, P>(t: Table<C, P>, child: int, tag: C, noParents: P)
    ensures Linked(t, {}, child, tag, noParents) == t
  {
  }

  /** Python's `for parent in node.parents` over a list. */
  method AddAsChildOfEach<C, P>(t: Table<C, P>, parents: seq<int>, child: int, tag: C, noParents: P)
      returns (r: Table<C, P>)
    ensures r == Linked(t, Ids(parents), child, tag, noParents)
  {
    r := t;
    LinkedNone(t, child, tag, noParents);
    for i := 0 to |parents|
      invariant r == Linked(t, Ids(parents[..i]), child, tag, noParents)
    {
      ChildAddedStep(t, Ids(parents[..i]), parents[i], child, tag, noParents);
      PrefixIdsStep(parents, i);
      r := ChildAdded(r, parents[i], child, tag, noParents);
    }
    assert parents[..|parents|] == parents;
  }

  /** The ids a list holds. */
  function Ids(ps: seq<int>): set<int>
  {
    set p | p in ps
  }

  lemma PrefixIdsStep(ps: seq<int>, i: nat)
    requires i < |ps|
    ensures Ids(ps[..i + 1]) == Ids(ps[..i]) + {ps[i]}
  {
    assert ps[..i + 1] == ps[..i] + [ps[i]];
  }

  /** Python's `for parent in node.parents` over a set, in the set's own order. */
  method AddAsChildOfAll<C, P>(t: Table<C, P>, parents: set<int>, child: int, tag: C, noParents: P)
      returns (r: Table<C, P>)
    ensures r == Linked(t, parents, child, tag, noParents)
  {
    r := t;
    var rest := parents;
    ghost var done: set<int> := {};
    LinkedNone(t, child, tag, noParents);
    while rest != {}
      invariant done + rest == parents && r == Linked(t, done, child, tag, noParents)
      decreases |rest|
    {
      HasElement(rest);
      var parent :| parent in rest;
      ChildAddedStep(t, done, parent, child, tag, noParents);
      r := ChildAdded(r, parent, child, tag, noParents);
      rest := rest - {parent};
      done := done + {parent};
    }
  }

  /** The ids of the nodes without children. */
  function ChildlessIds<C, P>(t: Table<C, P>): (r: set<int>)
    ensures forall k :: k in r <==> k in t && t[k].children == {}
  {
    set k | k in t && t[k].children == {}
  }

  /** The table the parsers build from their parsed nodes, in order: each node is stored
      under its number, replacing whatever was there, then added as a child of each parent.
      `parentIds` reads the ids out of a node's parents. */
  ghost function Assembled<C, P>(parsed: seq<Node<C, P>>, parentIds: P -> set<int>, tag: C, noParents: P): Table<C, P>
  {
    if parsed == [] then map[]
    else
      var n := parsed[|parsed| - 1];
      Linked(Assembled(parsed[..|parsed| - 1], parentIds, tag, noParents)[n.number := n], parentIds(n.parents),
             n.number, tag, noParents)
  }

  /** Some parsed node is numbered `k` or names it as a parent. */
  ghost predicate Mentions<C, P>(parsed: seq<Node<C, P>>, parentIds: P -> set<int>, k: int)
  {
    exists i :: 0 <= i < |parsed| && (parsed[i].number == k || k in parentIds(parsed[i].parents))
  }

  /** Some parsed node numbered `x` names `k` as a parent. */
  ghost predicate DerivedFrom<C, P>(parsed: seq<Node<C, P>>, parentIds: P -> set<int>, x: int, k: int)
  {
    exists i :: 0 <= i < |parsed| && parsed[i].number == x && k in parentIds(parsed[i].parents)
  }

  /** None of the parsed nodes has children yet, as every parser creates them. */
  ghost predicate Fresh<C, P>(parsed: seq<Node<C, P>>)
  {
    forall i :: 0 <= i < |parsed| ==> parsed[i].children == {}
  }

  lemma MentionsStep<C, P>(parsed: seq<Node<C, P>>, parentIds: P -> set<int>, k: int)
    requires parsed != []
    ensures var n := parsed[|parsed| - 1];
            Mentions(parsed, parentIds, k) <==>
            Mentions(parsed[..|parsed| - 1], parentIds, k) || n.number == k || k in parentIds(n.parents)
  {
    var init := parsed[..|parsed| - 1];
    if Mentions(parsed, parentIds, k) {
      var i :| 0 <= i < |parsed| && (parsed[i].number == k || k in parentIds(parsed[i].parents));
      if i < |init| { assert init[i] == parsed[i]; }
    }
    if Mentions(init, parentIds, k) {
      var i :| 0 <= i < |init| && (init[i].number == k || k in parentIds(init[i].parents));
      assert parsed[i] == init[i];
    }
  }

  lemma DerivedFromStep<C, P>(parsed: seq<Node<C, P>>, parentIds: P -> set<int>, x: int, k: int)
    requires parsed != []
    ensures var n := parsed[|parsed| - 1];
            DerivedFrom(parsed, parentIds, x, k) <==>
            DerivedFrom(parsed[..|parsed| - 1], parentIds, x, k) || (n.number == x && k in parentIds(n.parents))
  {
    var init := parsed[..|parsed| - 1];
    if DerivedFrom(parsed, parentIds, x, k) {
      var i :| 0 <= i < |parsed| && parsed[i].number == x && k in parentIds(parsed[i].parents);
      if i < |init| { assert init[i] == parsed[i]; }
    }
    if DerivedFrom(init, parentIds, x, k) {
      var i :| 0 <= i < |init| && init[i].number == x && k in parentIds(init[i].parents);
      assert parsed[i] == init[i];
    }
  }

  /** The assembled table holds exactly the numbers and parents the parsed nodes mention,
      every node is stored under its own number, and every recorded child really names the
      node as a parent. */
  lemma {:induction false} AssembledShape<C, P>(parsed: seq<Node<C, P>>, parentIds: P -> set<int>, tag: C, noParents: P,
                                                k: int, x: int)
    requires Fresh(parsed)
    ensures var t := Assembled(parsed, parentIds, tag, noParents);
            (k in t <==> Mentions(parsed, parentIds, k)) &&
            (k in t ==> t[k].number == k) &&
            (k in t && x in t[k].children ==> DerivedFrom(parsed, parentIds, x, k))
  {
    if parsed != [] {
      var init := parsed[..|parsed| - 1];
      var n := parsed[|parsed| - 1];
      var before := Assembled(init, parentIds, tag, noParents);
      AssembledShape(init, parentIds, tag, noParents, k, x);
      MentionsStep(parsed, parentIds, k);
      DerivedFromStep(parsed, parentIds, x, k);
      LinkedMeaning(before[n.number := n], parentIds(n.parents), n.number, tag, noParents, k, x);
    }
  }

  lemma {:induction false} AssembledNumber<C, P>(parsed: seq<Node<C, P>>, parentIds: P -> set<int>, tag: C, noParents: P, k: int)
    requires k in Assembled(parsed, parentIds, tag, noParents)
    ensures Assembled(parsed, parentIds, tag, noParents)[k].number == k
  {
    var init := parsed[..|parsed| - 1];
    var n := parsed[|parsed| - 1];
    var before := Assembled(init, parentIds, tag, noParents);
    LinkedMeaning(before[n.number := n], parentIds(n.parents), n.number, tag, noParents, k, k);
    if k in before && k != n.number {
      AssembledNumber(init, parentIds, tag, noParents, k);
    }
  }

  /** The nodes without children, as the parsers collect them from the table's values. */
  function ChildlessNodes<C(==), P(==)>(t: Table<C, P>): (r: set<Node<C, P>>)
    ensures r <= t.Values
    ensures forall k :: k in t ==> (t[k] in r <==> t[k].children == {})
  {
    set k | k in t && t[k].children == {} :: t[k]
  }

  /** Collecting numbers of childless values gives the childless ids, since every node is
      stored under its own number. */
  lemma AssembledLeafNumbers<C, P>(parsed: seq<Node<C, P>>, parentIds: P -> set<int>, tag: C, noParents: P)
    ensures var t := Assembled(parsed, parentIds, tag, noParents);
            (set n | n in ChildlessNodes(t) :: n.number) == ChildlessIds(t)
  {
    var t := Assembled(parsed, parentIds, tag, noParents);
    forall k | k in t ensures t[k].number == k {
      AssembledNumber(parsed, parentIds, tag, noParents, k);
    }
  }

  /** Storing a node while keeping the children already recorded under its number. */
  function StoredKeepingChildren<C, P>(t: Table<C, P>, node: Node<C, P>): (r: Table<C, P>)
    ensures r.Keys == t.Keys + {node.number}
    ensures r[node.number].children == (if node.number in t then t[node.number].children else node.children)
    ensures forall k :: k in t && k != node.number ==> r[k] == t[k]
  {
    t[node.number := node.(children := if node.number in t then t[node.number].children else node.children)]
  }

  /** `Assembled` with a stored node keeping the children recorded before it was read. */
  ghost function AssembledKeepingChildren<C, P>(parsed: seq<Node<C, P>>, parentIds: P -> set<int>, tag: C, noParents: P)
    : Table<C, P>
  {
    if parsed == [] then map[]
    else
      var n := parsed[|parsed| - 1];
      Linked(StoredKeepingChildren(AssembledKeepingChildren(parsed[..|parsed| - 1], parentIds, tag, noParents), n),
             parentIds(n.parents), n.number, tag, noParents)
  }

  /** With children kept, a node's children are exactly the numbers of the parsed nodes naming
      it as a parent, whatever the order of the lines. */
  lemma {:induction false} KeepingChildrenIsExact<C, P>(parsed: seq<Node<C, P>>, parentIds: P -> set<int>, tag: C, noParents: P,
                                                        k: int, x: int)
    requires Fresh(parsed)
    ensures var t := AssembledKeepingChildren(parsed, parentIds, tag, noParents);
            (k in t <==> Mentions(parsed, parentIds, k)) &&
            (k in t ==> (x in t[k].children <==> DerivedFrom(parsed, parentIds, x, k)))
  {
    if parsed != [] {
      var init := parsed[..|parsed| - 1];
      var n := parsed[|parsed| - 1];
      var before := AssembledKeepingChildren(init, parentIds, tag, noParents);
      KeepingChildrenIsExact(init, parentIds, tag, noParents, k, x);
      MentionsStep(parsed, parentIds, k);
      DerivedFromStep(parsed, parentIds, x, k);
      LinkedMeaning(StoredKeepingChildren(before, n), parentIds(n.parents), n.number, tag, noParents, k, x);
    }
  }

  /** With children kept, the leaves are exactly the mentioned ids that no parsed node names
      as a parent: the conclusions. */
  lemma KeepingChildrenLeaves<C, P>(parsed: seq<Node<C, P>>, parentIds: P -> set<int>, tag: C, noParents: P, k: int)
    requires Fresh(parsed)
    ensures k in ChildlessIds(AssembledKeepingChildren(parsed, parentIds, tag, noParents)) <==>
            Mentions(parsed, parentIds, k) && forall i :: 0 <= i < |parsed| ==> k !in parentIds(parsed[i].parents)
  {
    var t := AssembledKeepingChildren(parsed, parentIds, tag, noParents);
    KeepingChildrenIsExact(parsed, parentIds, tag, noParents, k, 0);
    if k in t && t[k].children != {} {
      HasElement(t[k].children);
      var x :| x in t[k].children;
      KeepingChildrenIsExact(parsed, parentIds, tag, noParents, k, x);
    }
    if k in t && exists i :: 0 <= i < |parsed| && k in parentIds(parsed[i].parents) {
      var i :| 0 <= i < |parsed| && k in parentIds(parsed[i].parents);
      KeepingChildrenIsExact(parsed, parentIds, tag, noParents, k, parsed[i].number);
    }
  }
}
