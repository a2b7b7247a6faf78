/** The `[SA] active:` line grammar the older parsers share,
    `^\[SA\] active: ([\d]+)\. (.*) ?\[(\D*) ?([\d,]*)\]$`
    (proof_visualization/model/parsing.py:12, proofvisualization/model/parsing.py:16,
    presenter/parsing/vampire_parser.py:15-16): the plain unit grammar behind a fixed prefix. */
module ActiveLines {
  import opened Wrappers
  import opened Text
  import opened ClauseSyntax
  import LineParser

  const ActivePrefix: string := "[SA] active: "

  /** The groups of an active line, or `None` where `re.match` gives `None`. */
  function MatchActive(line: string): (r: Option<UnitFields>)
    ensures r.Some? ==> StartsWith(line, ActivePrefix)
    ensures r.Some? ==> AllDigits(r.value.idText) && IsParentsText(r.value.parentsText)
  {
    if StartsWith(line, ActivePrefix) then MatchUnit(line[|ActivePrefix|..], Plain) else None
  }

  /** The groups the plain grammar finds in a unit as the prover writes it: the greedy clause
      group keeps the space before the bracket. */
  function PlainUnitOf(id: nat, clause: string, rule: string, ps: seq<nat>): UnitFields
  {
    LineParser.UnitOf(id, clause, rule, ps).(clause := clause + " ")
  }

  lemma PlainUnitMatches(id: nat, clause: string, rule: string, ps: seq<nat>)
    requires LineParser.PlainRule(rule)
    ensures MatchUnit(LineParser.FormatUnit(id, clause, rule, ps), Plain) == Some(PlainUnitOf(id, clause, rule, ps))
  {
    var f := PlainUnitOf(id, clause, rule, ps);
    var g := LineParser.RuleGroup(rule, ps);
    assert NoDigits(g) && '[' !in g by {
      if |ps| > 0 {
        assert forall i :: 0 <= i < |g| ==> i < |rule| ==> g[i] == rule[i];
      }
    }
    var tail := g + (LineParser.FormatParents(ps) + ("]" + ""));
    assert Unparse(f, Plain) == LineParser.FormatUnit(id, clause, rule, ps) by {
      assert (clause + " ") + ("[" + tail) == clause + (" [" + tail);
    }
    MatchUnitComplete(NatToString(id), clause + " ", g, LineParser.FormatParents(ps), "", Plain);
  }

  /** An active line as the prover writes it matches, with exactly its groups. */
  lemma MatchActiveFormatted(id: nat, clause: string, rule: string, ps: seq<nat>)
    requires LineParser.PlainRule(rule)
    ensures MatchActive(ActivePrefix + LineParser.FormatUnit(id, clause, rule, ps)) == Some(PlainUnitOf(id, clause, rule, ps))
  {
    var u := LineParser.FormatUnit(id, clause, rule, ps);
    var line := ActivePrefix + u;
    assert line[..|ActivePrefix|] == ActivePrefix && line[|ActivePrefix|..] == u;
    PlainUnitMatches(id, clause, rule, ps);
  }

  /** The integer groups and stripped texts of an active line as written. */
  lemma PlainUnitValues(id: nat, clause: string, rule: string, ps: seq<nat>)
    requires LineParser.PlainClause(clause) && LineParser.PlainRule(rule)
    ensures var f := PlainUnitOf(id, clause, rule, ps);
            DigitsValue(f.idText) == id && RStrip(f.clause) == clause && RStrip(f.rule) == rule &&
            LineParser.ParentList(f.parentsText) == ps
  {
    NatToStringValue(id);
    assert (clause + " ")[..|clause|] == clause;
    LineParser.RStripPlain(clause);
    LineParser.RStripRuleGroup(rule, ps);
    LineParser.FormattedParents(ps);
  }
}

/** The parser of the first Python backend (proof_visualization/model/parsing.py): only active
    lines become nodes, and `analyse` assembles them into a table, synthesising a `'Preproc'`
    node for a parent it has not seen. A node read later under the same number replaces the
    stored one, placeholder included, together with its children. */
module ActiveParsing {
  import opened Wrappers
  import opened Text
  import opened ActiveLines
  import opened NodeAssembly
  import LineParser
  import ProofNode

  type Node = ProofNode.Node
  type NodeTable = Table<string, seq<int>>

  const PreprocessingLabel: string := "Preproc"

  /** `parse_line`: the node of an active line, `None` for any other line. */
  function ParseLine(line: string): (r: Option<Node>)
    ensures r.Some? <==> MatchActive(line).Some?
    ensures r.Some? ==> r.value.children == {} && r.value.number >= 0
  {
    var m := MatchActive(line);
    if m.None? then None
    else
      var f := m.value;
      Some(ProofNode.Make(DigitsValue(f.idText), RStrip(f.clause), RStrip(f.rule), LineParser.ParentList(f.parentsText)))
  }

  /** An active line as the prover writes it reads back as the node it describes. */
  lemma ParseLineRoundTrip(id: nat, clause: string, rule: string, ps: seq<nat>)
    requires LineParser.PlainClause(clause) && LineParser.PlainRule(rule)
    ensures ParseLine(ActivePrefix + LineParser.FormatUnit(id, clause, rule, ps)) == Some(ProofNode.Make(id, clause, rule, ps))
  {
    MatchActiveFormatted(id, clause, rule, ps);
    PlainUnitValues(id, clause, rule, ps);
  }

  /** The lines' parses, in order, before the filter. */
  function ParseEach(lines: seq<string>): (r: seq<Option<Node>>)
    ensures |r| == |lines| && forall i :: 0 <= i < |lines| ==> r[i] == ParseLine(lines[i])
  {
    seq(|lines|, i requires 0 <= i < |lines| => ParseLine(lines[i]))
  }

  /** `parse`: the nodes of the active lines, in order. */
  function Parse(lines: seq<string>): (r: seq<Node>)
    ensures |r| <= |lines|
  {
    Present(ParseEach(lines))
  }

  /** Parsing works line by line: the nodes of two chunks are those of each, in order. */
  lemma ParseAppend(a: seq<string>, b: seq<string>)
    ensures Parse(a + b) == Parse(a) + Parse(b)
  {
    assert ParseEach(a + b) == ParseEach(a) + ParseEach(b);
    PresentAppend(ParseEach(a), ParseEach(b));
  }

  /** A node comes from an active line, every active line gives one, and none has children. */
  lemma ParsedFromLine(lines: seq<string>, n: Node)
    ensures n in Parse(lines) <==> exists i :: 0 <= i < |lines| && ParseLine(lines[i]) == Some(n)
    ensures n in Parse(lines) ==> n.children == {}
  {
    PresentMeaning(ParseEach(lines), n);
  }

  lemma ParsedFresh(lines: seq<string>)
    ensures Fresh(Parse(lines))
  {
    forall i | 0 <= i < |Parse(lines)| ensures Parse(lines)[i].children == {} {
      ParsedFromLine(lines, Parse(lines)[i]);
    }
  }

  /** The table `analyse` builds from the parsed nodes. */
  ghost function Analysed(parsed: seq<Node>): NodeTable
  {
    Assembled(parsed, Ids, PreprocessingLabel, [])
  }

  /** `analyse`: the table and its leaves, the numbers of the nodes without children. */
  method Analyse(parsedLines: seq<Node>) returns (nodes: NodeTable, leaves: set<int>)
    ensures nodes == Analysed(parsedLines)
    ensures leaves == ChildlessIds(nodes)
  {
    nodes := map[];
    for i := 0 to |parsedLines|
      invariant nodes == Analysed(parsedLines[..i])
    {
      var node := parsedLines[i];
      assert parsedLines[..i + 1][..i] == parsedLines[..i];
      nodes := nodes[node.number := node];
      nodes := AddAsChildOfEach(nodes, node.parents, node.number, PreprocessingLabel, []);
    }
    assert parsedLines[..|parsedLines|] == parsedLines;
    AssembledLeafNumbers(parsedLines, Ids, PreprocessingLabel, []);
    leaves := set n | n in ChildlessNodes(nodes) :: n.number;
  }

  /** `process`: parse the output's lines, then assemble them. */
  method Process(vampireOutput: string) returns (nodes: NodeTable, leaves: set<int>)
    ensures nodes == Analysed(Parse(Split(vampireOutput, '\n')))
    ensures leaves == ChildlessIds(nodes)
  {
    nodes, leaves := Analyse(Parse(Split(vampireOutput, '\n')));
  }

  /** What `process` builds: the ids the active lines mention, each node under its number,
      and children that each name their node as a parent. */
  lemma ProcessShape(vampireOutput: string, k: int, x: int)
    ensures var parsed := Parse(Split(vampireOutput, '\n'));
            var t := Analysed(parsed);
            (k in t <==> Mentions(parsed, Ids, k)) &&
            (k in t ==> t[k].number == k) &&
            (k in t && x in t[k].children ==> DerivedFrom(parsed, Ids, x, k))
  {
    ParsedFresh(Split(vampireOutput, '\n'));
    AssembledShape(Parse(Split(vampireOutput, '\n')), Ids, PreprocessingLabel, [], k, x);
  }

  /** A child read before its parent's own line: the placeholder made for the parent holds
      the child, but the parent's line then replaces it, and the parent ends up a leaf. */
  lemma PlaceholderOverwriteDropsChild()
    ensures var child := ProofNode.Make(2, "q", "resolution", [1]);
            var parent := ProofNode.Make(1, "p", "input", []);
            var t := Analysed([child, parent]);
            1 in child.parents && 1 in t && t[1].children == {} && 1 in ChildlessIds(t)
  {
    var child := ProofNode.Make(2, "q", "resolution", [1]);
    var parent := ProofNode.Make(1, "p", "input", []);
    var ps := [child, parent];
    assert ps[..1] == [child] && ps[..1][..0] == [];
    var t1 := Analysed([child]);
    assert Ids(child.parents) == {1};
    LinkedMeaning(map[][2 := child], {1}, 2, PreprocessingLabel, [], 1, 2);
    assert 1 in t1;
    assert Ids(parent.parents) == {};
    LinkedNone(t1[1 := parent], 1, PreprocessingLabel, []);
  }

  /** The table `analyse` evidently means to build: a parent read after its child keeps it. */
  ghost function AnalysedKeepingChildren(parsed: seq<Node>): NodeTable
  {
    AssembledKeepingChildren(parsed, Ids, PreprocessingLabel, [])
  }

  /** `analyse` keeping children: each node's children are exactly the numbers of the parsed
      nodes naming it as a parent, and the leaves exactly the ids no parsed node names as a
      parent. */
  lemma AnalysedKeepingChildrenIsExact(lines: seq<string>, k: int, x: int)
    ensures var parsed := Parse(lines);
            var t := AnalysedKeepingChildren(parsed);
            (k in t <==> Mentions(parsed, Ids, k)) &&
            (k in t ==> (x in t[k].children <==> DerivedFrom(parsed, Ids, x, k))) &&
            (k in ChildlessIds(t) <==> Mentions(parsed, Ids, k) && forall i :: 0 <= i < |parsed| ==> k !in Ids(parsed[i].parents))
  {
    ParsedFresh(lines);
    KeepingChildrenIsExact(Parse(lines), Ids, PreprocessingLabel, [], k, x);
    KeepingChildrenLeaves(Parse(lines), Ids, PreprocessingLabel, [], k);
  }

  /** The same two lines with children kept: the parent holds its child. */
  lemma KeepingChildrenKeepsChild()
    ensures var child := ProofNode.Make(2, "q", "resolution", [1]);
            var parent := ProofNode.Make(1, "p", "input", []);
            var t := AnalysedKeepingChildren([child, parent]);
            1 in t && t[1].children == {2} && 1 !in ChildlessIds(t)
  {
    var child := ProofNode.Make(2, "q", "resolution", [1]);
    var parent := ProofNode.Make(1, "p", "input", []);
    var ps := [child, parent];
    assert ps[..1] == [child] && ps[..1][..0] == [];
    var t1 := AnalysedKeepingChildren([child]);
    assert Ids(child.parents) == {1};
    assert AssembledKeepingChildren([child][..0], Ids, PreprocessingLabel, []) == map[];
    LinkedMeaning(StoredKeepingChildren(map[], child), {1}, 2, PreprocessingLabel, [], 1, 2);
    assert [child][..0] == [];
    assert t1[1] == Placeholder(1, 2, PreprocessingLabel, []);
    assert Ids(parent.parents) == {};
    LinkedNone(StoredKeepingChildren(t1, parent), 1, PreprocessingLabel, []);
    assert AnalysedKeepingChildren(ps) == StoredKeepingChildren(t1, parent);
  }
}

/** The parser of proofvisualization/model/parsing.py: the same active-line grammar, parents
    read into a set, and placeholders whose clause, rule and parents are `None`. Its `parse`
    does not filter: a line that is not active reaches `analyse` as `None`, where reading its
    number raises. proofvisualization/model/node.py is not part of this model; its nodes are
    taken to be the records the presenter uses (presenter/parsing/inference_node.py). */
module UnfilteredParsing {
  import opened Wrappers
  import opened Text
  import opened ActiveLines
  import opened NodeAssembly
  import LineParser

  type InferenceNode = Node<Option<string>, Option<set<int>>>
  type NodeTable = Table<Option<string>, Option<set<int>>>

  /** The ids in a node's parents; a placeholder's `None` holds none. */
  function ParentIds(ps: Option<set<int>>): (r: set<int>)
    ensures ps.Some? ==> r == ps.value
    ensures ps.None? ==> r == {}
  {
    if ps.Some? then ps.value else {}
  }

  /** `parse_line`: the node of an active line, `None` for any other line. */
  function ParseLine(line: string): (r: Option<InferenceNode>)
    ensures r.Some? <==> MatchActive(line).Some?
    ensures r.Some? ==> r.value.clause.Some? && r.value.inferenceRule.Some? && r.value.parents.Some? &&
                        r.value.children == {} && r.value.number >= 0
  {
    var m := MatchActive(line);
    if m.None? then None
    else
      var f := m.value;
      Some(Node(DigitsValue(f.idText), Some(RStrip(f.clause)), Some(RStrip(f.rule)),
                Some(Ids(LineParser.ParentList(f.parentsText))), {}))
  }

  /** An active line as the prover writes it reads back as the node it describes, its
      parents as a set. */
  lemma ParseLineRoundTrip(id: nat, clause: string, rule: string, ps: seq<nat>)
    requires LineParser.PlainClause(clause) && LineParser.PlainRule(rule)
    ensures ParseLine(ActivePrefix + LineParser.FormatUnit(id, clause, rule, ps)) ==
            Some(Node(id, Some(clause), Some(rule), Some(set p | p in ps), {}))
  {
    MatchActiveFormatted(id, clause, rule, ps);
    PlainUnitValues(id, clause, rule, ps);
  }

  /** `parse`: one parse per line, `None` included. */
  function Parse(lines: seq<string>): (r: seq<Option<InferenceNode>>)
    ensures |r| == |lines| && forall i :: 0 <= i < |lines| ==> r[i] == ParseLine(lines[i])
  {
    seq(|lines|, i requires 0 <= i < |lines| => ParseLine(lines[i]))
  }

  /** The present parses of a prefix grow by the next line's parse, if any. */
  lemma PresentStep(lines: seq<string>, i: nat)
    requires i < |lines|
    ensures Present(Parse(lines[..i + 1])) ==
            Present(Parse(lines[..i])) + (if ParseLine(lines[i]).Some? then [ParseLine(lines[i]).value] else [])
  {
    assert Parse(lines[..i + 1])[..i] == Parse(lines[..i]);
  }

  /** Every present parse is fresh: no children yet. */
  lemma PresentFresh(lines: seq<string>)
    ensures Fresh(Present(Parse(lines)))
  {
    var ps := Present(Parse(lines));
    forall i | 0 <= i < |ps| ensures ps[i].children == {} {
      PresentMeaning(Parse(lines), ps[i]);
    }
  }

  /** Each parsed line can be read: it is present, with parents. */
  ghost predicate AllParsed(parsed: seq<Option<InferenceNode>>)
  {
    forall i :: 0 <= i < |parsed| ==> parsed[i].Some? && parsed[i].value.parents.Some?
  }

  /** The table `analyse` builds from the nodes it reads. */
  ghost function Analysed(parsed: seq<InferenceNode>): NodeTable
  {
    Assembled(parsed, ParentIds, None, None)
  }

  /** Analysing one more node: store it, then link it under its parents. */
  lemma AnalysedStep(parsed: seq<InferenceNode>, n: InferenceNode)
    ensures Analysed(parsed + [n]) == Linked(Analysed(parsed)[n.number := n], ParentIds(n.parents), n.number, None, None)
  {
    assert (parsed + [n])[..|parsed|] == parsed;
  }

  datatype Dag = Dag(nodes: NodeTable, leaves: set<InferenceNode>)

  /** One pass of the loop: store the node and add it as a child of each parent. */
  method AnalyseNode(nodes: NodeTable, node: InferenceNode) returns (r: NodeTable)
    requires node.parents.Some?
    ensures r == Linked(nodes[node.number := node], ParentIds(node.parents), node.number, None, None)
  {
    r := nodes[node.number := node];
    r := AddAsChildOfAll(r, node.parents.value, node.number, None, None);
  }

  /** `analyse`: fails as soon as it reads a `None` (no number) or a node without parents;
      otherwise the table and the set of nodes without children. */
  method Analyse(parsedLines: seq<Option<InferenceNode>>) returns (r: Result<Dag>)
    ensures r.Ok? <==> AllParsed(parsedLines)
    ensures r.Err? ==> r.error == BadType
    ensures r.Ok? ==> r.value.nodes == Analysed(Present(parsedLines)) && r.value.leaves == ChildlessNodes(r.value.nodes)
  {
    var nodes: NodeTable := map[];
    for i := 0 to |parsedLines|
      invariant AllParsed(parsedLines[..i])
      invariant nodes == Analysed(Present(parsedLines[..i]))
    {
      var current := parsedLines[i];
      if current.None? || current.value.parents.None? {
        assert !AllParsed(parsedLines) by {
          assert !(parsedLines[i].Some? && parsedLines[i].value.parents.Some?);
        }
        return Err(BadType);
      }
      assert parsedLines[..i + 1][..i] == parsedLines[..i];
      assert Present(parsedLines[..i + 1]) == Present(parsedLines[..i]) + [current.value];
      AnalysedStep(Present(parsedLines[..i]), current.value);
      nodes := AnalyseNode(nodes, current.value);
    }
    assert parsedLines[..|parsedLines|] == parsedLines;
    r := Ok(Dag(nodes, ChildlessNodes(nodes)));
  }

  /** `process`: parse every line of the output, then analyse. */
  method Process(vampireOutput: string) returns (r: Result<Dag>)
    ensures r.Ok? <==> AllParsed(Parse(Split(vampireOutput, '\n')))
    ensures r.Ok? ==> r.value.nodes == Analysed(Present(Parse(Split(vampireOutput, '\n'))))
  {
    r := Analyse(Parse(Split(vampireOutput, '\n')));
  }

  /** The parses can all be read exactly when every line is an active line. */
  lemma AllParsedMeaning(lines: seq<string>)
    ensures AllParsed(Parse(lines)) <==> forall i :: 0 <= i < |lines| ==> MatchActive(lines[i]).Some?
  {
    if forall i :: 0 <= i < |lines| ==> MatchActive(lines[i]).Some? {
      forall i | 0 <= i < |lines| ensures Parse(lines)[i].Some? && Parse(lines)[i].value.parents.Some? {
        assert Parse(lines)[i] == ParseLine(lines[i]);
      }
    }
  }

  /** An output ending in a newline, as the prover's does, has an empty last line, which is
      not active: `process` raises on it whatever the lines before. */
  lemma TrailingNewlineRejected(lines: seq<string>)
    requires forall k :: 0 <= k < |lines| ==> '\n' !in lines[k]
    ensures var parsed := Parse(Split(Join(lines + [""], "\n"), '\n'));
            |parsed| > 0 && parsed[|parsed| - 1].None? && !AllParsed(parsed)
  {
    SplitJoin(lines + [""], '\n');
    var parsed := Parse(Split(Join(lines + [""], "\n"), '\n'));
    assert parsed[|parsed| - 1] == ParseLine("");
  }
}

/** The presenter's parser (presenter/parsing/vampire_parser.py): `parse_line` raises on a line
    that is not active, `parse` skips such lines, and assembles the rest as
    proofvisualization/model/parsing.py does. */
module PresenterParsing {
  import opened Wrappers
  import opened Text
  import opened NodeAssembly
  import UnfilteredParsing
  import PresenterTree

  type InferenceNode = UnfilteredParsing.InferenceNode

  /** `parse_line`: the node of an active line; `AttributeError` on any other line. */
  function ParseLine(line: string): (r: Result<InferenceNode>)
    ensures r.Ok? <==> UnfilteredParsing.ParseLine(line).Some?
    ensures r.Ok? ==> Some(r.value) == UnfilteredParsing.ParseLine(line)
    ensures r.Err? ==> r.error == BadType
  {
    match UnfilteredParsing.ParseLine(line)
    case Some(n) => Ok(n)
    case None => Err(BadType)
  }

  /** The table `parse` builds: that of the active lines, in order, the others skipped. */
  ghost function Parsed(lines: seq<string>): UnfilteredParsing.NodeTable
  {
    UnfilteredParsing.Analysed(Present(UnfilteredParsing.Parse(lines)))
  }

  /** `parse`: never fails; the tree of the active lines' table and its childless nodes. */
  method Parse(vampireOutput: string) returns (tree: PresenterTree.Tree)
    ensures tree.nodes == Parsed(Split(vampireOutput, '\n'))
    ensures tree.leaves == ChildlessNodes(tree.nodes)
  {
    var nodes: UnfilteredParsing.NodeTable := map[];
    var lines := Split(vampireOutput, '\n');
    for i := 0 to |lines|
      invariant nodes == Parsed(lines[..i])
    {
      var current := ParseLine(lines[i]);
      UnfilteredParsing.PresentStep(lines, i);
      assert lines[..i + 1][..i] == lines[..i];
      ghost var before := Present(UnfilteredParsing.Parse(lines[..i]));
      if current.Ok? {
        assert Present(UnfilteredParsing.Parse(lines[..i + 1])) == before + [current.value];
        UnfilteredParsing.AnalysedStep(before, current.value);
        nodes := UnfilteredParsing.AnalyseNode(nodes, current.value);
        assert nodes == UnfilteredParsing.Analysed(before + [current.value]);
      } else {
        assert Present(UnfilteredParsing.Parse(lines[..i + 1])) == before;
      }
    }
    assert lines[..|lines|] == lines;
    tree := PresenterTree.Tree(nodes, ChildlessNodes(nodes));
  }

  /** What `parse` builds: exactly the ids the active lines mention, each node under its own
      number, and only children that name their node as a parent. */
  lemma ParsedShape(lines: seq<string>, k: int, x: int)
    ensures var parsed := Present(UnfilteredParsing.Parse(lines));
            var t := Parsed(lines);
            (k in t <==> Mentions(parsed, UnfilteredParsing.ParentIds, k)) &&
            (k in t ==> t[k].number == k) &&
            (k in t && x in t[k].children ==> DerivedFrom(parsed, UnfilteredParsing.ParentIds, x, k))
  {
    UnfilteredParsing.PresentFresh(lines);
    AssembledShape(Present(UnfilteredParsing.Parse(lines)), UnfilteredParsing.ParentIds, None, None, k, x);
  }
}

/** The earliest builder (vampire_parser.py): it reads a whole proof, whose lines carry no
    `[SA] active:` prefix, from its last line to its first. A line that does not match is
    skipped; an `input` line adds no edges; any other line is added as a child of each of its
    parents, which must already be in the table, since the `KeyError` is not caught. */
module TreeBuilding {
  import opened Wrappers
  import opened Text
  import opened ClauseSyntax
  import opened NodeAssembly
  import ActiveLines
  import LineParser

  type InferenceNode = Node<string, set<int>>
  type NodeTable = Table<string, set<int>>

  const InputRule: string := "input"

  /** `parse`: the number, clause, rule and parent set of a unit line; `None` where the
      match fails and `.groups()` raises. */
  function ParseUnit(line: string): (r: Option<InferenceNode>)
    ensures r.Some? <==> MatchUnit(line, Plain).Some?
    ensures r.Some? ==> r.value.children == {} && r.value.number >= 0
  {
    var m := MatchUnit(line, Plain);
    if m.None? then None
    else
      var f := m.value;
      Some(Node(DigitsValue(f.idText), RStrip(f.clause), RStrip(f.rule), Ids(LineParser.ParentList(f.parentsText)), {}))
  }

  /** A unit as the prover writes it reads back as the node it describes. */
  lemma ParseUnitRoundTrip(id: nat, clause: string, rule: string, ps: seq<nat>)
    requires LineParser.PlainClause(clause) && LineParser.PlainRule(rule)
    ensures ParseUnit(LineParser.FormatUnit(id, clause, rule, ps)) == Some(Node(id, clause, rule, Ids(ps), {}))
  {
    ActiveLines.PlainUnitMatches(id, clause, rule, ps);
    ActiveLines.PlainUnitValues(id, clause, rule, ps);
  }

  /** The parses of the lines in the order `build_tree` reads them, last line first. */
  function ReadOrder(lines: seq<string>): (r: seq<Option<InferenceNode>>)
    ensures |r| == |lines| && forall i :: 0 <= i < |lines| ==> r[i] == ParseUnit(lines[|lines| - 1 - i])
  {
    seq(|lines|, i requires 0 <= i < |lines| => ParseUnit(lines[|lines| - 1 - i]))
  }

  /** The units read, in reading order. */
  function UnitsOf(lines: seq<string>): seq<InferenceNode>
  {
    Present(ReadOrder(lines))
  }

  /** Storing a unit, then (unless it is an input) adding it to each parent's children;
      a parent not in the table raises. */
  ghost function Added(t: NodeTable, n: InferenceNode): (r: Result<NodeTable>)
    ensures r.Err? <==> n.inferenceRule != InputRule && !(n.parents <= t.Keys + {n.number})
    ensures r.Ok? ==> r.value.Keys == t.Keys + {n.number}
  {
    var stored := t[n.number := n];
    if n.inferenceRule == InputRule then Ok(stored)
    else if n.parents <= stored.Keys then Ok(Linked(stored, n.parents, n.number, "", {}))
    else Err(KeyMissing)
  }

  /** The table after the units, in reading order, or the first error. */
  ghost function Built(units: seq<InferenceNode>): Result<NodeTable>
  {
    if units == [] then Ok(map[])
    else
      var before := Built(units[..|units| - 1]);
      if before.Err? then before else Added(before.value, units[|units| - 1])
  }

  /** `build_tree`: the table of the proof's units, or `KeyError` when a unit names a parent
      not read yet. The `roots` set it fills is never returned. */
  method BuildTree(proof: string) returns (r: Result<NodeTable>)
    ensures r == Built(UnitsOf(Split(proof, '\n')))
  {
    var lines := Split(proof, '\n');
    var nodes: NodeTable := map[];
    for j := 0 to |lines|
      invariant Built(Present(ReadOrder(lines)[..j])) == Ok(nodes)
    {
      var parsed := ParseUnit(lines[|lines| - 1 - j]);
      ReadStep(lines, j, nodes);
      if parsed.Some? {
        var node := parsed.value;
        nodes := nodes[node.number := node];
        if node.inferenceRule != InputRule {
          if !(node.parents <= nodes.Keys) {
            ErrorStays(lines, j + 1);
            return Err(KeyMissing);
          }
          nodes := AddAsChildOfAll(nodes, node.parents, node.number, "", {});
        }
      }
    }
    assert ReadOrder(lines)[..|lines|] == ReadOrder(lines);
    r := Ok(nodes);
  }

  /** Reading line `j` from the end applies its unit, if any, to the table so far. */
  lemma ReadStep(lines: seq<string>, j: nat, nodes: NodeTable)
    requires j < |lines| && Built(Present(ReadOrder(lines)[..j])) == Ok(nodes)
    ensures var u := ParseUnit(lines[|lines| - 1 - j]);
            Built(Present(ReadOrder(lines)[..j + 1])) == if u.None? then Ok(nodes) else Added(nodes, u.value)
  {
    var order := ReadOrder(lines);
    assert order[j] == ParseUnit(lines[|lines| - 1 - j]);
    BuiltPrefixStep(order, j, nodes);
  }

  /** Extending the read prefix by one option applies its unit, if any. */
  lemma BuiltPrefixStep(order: seq<Option<InferenceNode>>, j: nat, nodes: NodeTable)
    requires j < |order| && Built(Present(order[..j])) == Ok(nodes)
    ensures Built(Present(order[..j + 1])) == if order[j].None? then Ok(nodes) else Added(nodes, order[j].value)
  {
    assert order[..j + 1][..j] == order[..j];
    if order[j].Some? {
      assert Present(order[..j + 1]) == Present(order[..j]) + [order[j].value];
      BuiltStep(Present(order[..j]), order[j].value);
    } else {
      assert Present(order[..j + 1]) == Present(order[..j]);
    }
  }

  /** Units read from lines have no children yet. */
  lemma UnitsFresh(lines: seq<string>)
    ensures Fresh(UnitsOf(lines))
  {
    var units := UnitsOf(lines);
    forall i | 0 <= i < |units| ensures units[i].children == {} {
      PresentMeaning(ReadOrder(lines), units[i]);
    }
  }

  /** Once reading fails, the lines further up change nothing. */
  lemma ErrorStays(lines: seq<string>, j: nat)
    requires j <= |lines| && Built(Present(ReadOrder(lines)[..j])).Err?
    ensures Built(UnitsOf(lines)) == Built(Present(ReadOrder(lines)[..j]))
  {
    var order := ReadOrder(lines);
    assert order == order[..j] + order[j..];
    PresentAppend(order[..j], order[j..]);
    BuiltErrorStays(Present(order[..j]), Present(order[j..]));
  }

  lemma {:induction false} BuiltErrorStays(a: seq<InferenceNode>, b: seq<InferenceNode>)
    requires Built(a).Err?
    ensures Built(a + b) == Built(a)
    decreases |b|
  {
    if b != [] {
      var b0 := b[..|b| - 1];
      BuiltErrorStays(a, b0);
      assert (a + b)[..|a + b| - 1] == a + b0;
    } else {
      assert a + b == a;
    }
  }

  lemma BuiltStep(units: seq<InferenceNode>, n: InferenceNode)
    ensures Built(units + [n]) == (if Built(units).Err? then Built(units) else Added(Built(units).value, n))
  {
    assert (units + [n])[..|units|] == units;
  }

  /** Every parent of unit `i` that is not an input is the number of unit `i` or of a unit
      read before it. */
  ghost predicate ParentsRead(units: seq<InferenceNode>, i: nat)
    requires i < |units|
  {
    units[i].inferenceRule != InputRule ==>
      forall p :: p in units[i].parents ==> exists j :: 0 <= j <= i && units[j].number == p
  }

  /** When `build_tree` succeeds, its table holds exactly the units' numbers. */
  lemma {:induction false} BuiltKeys(units: seq<InferenceNode>, k: int)
    ensures Built(units).Ok? ==> (k in Built(units).value <==> exists j :: 0 <= j < |units| && units[j].number == k)
  {
    if units != [] {
      var init := units[..|units| - 1];
      BuiltKeys(init, k);
      if exists j :: 0 <= j < |units| - 1 && units[j].number == k {
        var j :| 0 <= j < |units| - 1 && units[j].number == k;
        assert init[j].number == k;
      }
      if exists j :: 0 <= j < |init| && init[j].number == k {
        var j :| 0 <= j < |init| && init[j].number == k;
        assert units[j].number == k;
      }
    }
  }

  /** `build_tree` succeeds exactly when each unit's parents were read before it, that is,
      appear further down the proof. */
  lemma {:induction false} BuiltOk(units: seq<InferenceNode>)
    ensures Built(units).Ok? <==> forall i :: 0 <= i < |units| ==> ParentsRead(units, i)
  {
    if units != [] {
      var init := units[..|units| - 1];
      var n := units[|units| - 1];
      BuiltOk(init);
      forall i | 0 <= i < |init| ensures ParentsRead(units, i) <==> ParentsRead(init, i) {
        assert forall j :: 0 <= j <= i ==> units[j] == init[j];
      }
      var before := Built(init);
      if before.Ok? {
        forall p | p in n.parents
          ensures p in before.value.Keys + {n.number} <==> exists j :: 0 <= j <= |init| && units[j].number == p
        {
          BuiltKeys(init, p);
          if exists j :: 0 <= j < |init| && init[j].number == p {
            var j :| 0 <= j < |init| && init[j].number == p;
            assert units[j].number == p;
          }
        }
        assert Built(units).Ok? <==> ParentsRead(units, |init|);
      } else {
        var i :| 0 <= i < |init| && !ParentsRead(init, i);
        assert !ParentsRead(units, i);
      }
    }
  }

  /** A node's children in the table are units that name it as a parent. */
  lemma {:induction false} BuiltChildren(units: seq<InferenceNode>, k: int, x: int)
    requires Fresh(units)
    ensures Built(units).Ok? && k in Built(units).value && x in Built(units).value[k].children ==>
            exists j :: 0 <= j < |units| && units[j].number == x && k in units[j].parents
  {
    if units != [] {
      var init := units[..|units| - 1];
      var n := units[|units| - 1];
      BuiltChildren(init, k, x);
      var before := Built(init);
      if before.Ok? {
        var stored := before.value[n.number := n];
        if n.inferenceRule != InputRule && n.parents <= stored.Keys {
          LinkedMeaning(stored, n.parents, n.number, "", {}, k, x);
        }
        if exists j :: 0 <= j < |init| && init[j].number == x && k in init[j].parents {
          var j :| 0 <= j < |init| && init[j].number == x && k in init[j].parents;
          assert units[j] == init[j];
        }
      }
    }
  }

  /** Two lines are read bottom line first. */
  lemma TwoUnits(top: string, bottom: string, t: InferenceNode, b: InferenceNode)
    requires ParseUnit(top) == Some(t) && ParseUnit(bottom) == Some(b)
    ensures UnitsOf([top, bottom]) == [b, t]
  {
    assert ReadOrder([top, bottom]) == [Some(b), Some(t)];
    PresentPair(b, t);
  }

  lemma PresentPair<T>(x: T, y: T)
    ensures Present([Some(x), Some(y)]) == [x, y]
  {
    assert [Some(x), Some(y)][..1] == [Some(x)];
    assert [Some(x)][..0] == [];
  }

  /** A proof listed premise first, ascending by clause number, fails: reading from the end,
      the conclusion names a parent not read yet. */
  lemma AscendingProofFails(top: string, bottom: string, premise: InferenceNode, conclusion: InferenceNode)
    requires ParseUnit(top) == Some(premise) && ParseUnit(bottom) == Some(conclusion)
    requires premise.number in conclusion.parents && premise.number != conclusion.number
    requires conclusion.inferenceRule != InputRule
    ensures Built(UnitsOf([top, bottom])) == Err(KeyMissing)
  {
    TwoUnits(top, bottom, premise, conclusion);
    BuiltStep([], conclusion);
    BuiltStep([conclusion], premise);
  }
}
