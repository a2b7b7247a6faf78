/** The node of the current Python backend (visualization_backend/model/node.py): one clause
    of the prover's output, with its derivation and the times the saturation loop reported for
    it. The setters update the node in place; each one's guard is the corresponding
    `Lifecycle` step, and the node's times always form an ordered record. */
module BackendNode {
  import opened Wrappers
  import Lifecycle
  import ReprUtil

  class Node {
    var number: int
    var clause: string
    var inferenceRule: string
    var parents: seq<int>
    var children: seq<int>
    var statistics: map<string, int>
    var isFromPreprocessing: bool
    var newTime: Option<int>
    var passiveTime: Option<int>
    var activeTime: Option<int>
    var deletionTime: Option<int>
    var deletionParents: Option<seq<int>>

    /** The node's clock readings as one value. */
    function Stamps(): Lifecycle.Stamps
      reads this
    {
      Lifecycle.Stamps(newTime, passiveTime, activeTime, deletionTime, deletionParents)
    }

    /** What the setters keep: the times are set in lifecycle order and a deletion-parent
        list exists exactly when a deletion time does. */
    predicate Valid()
      reads this
    {
      Lifecycle.Ordered(Stamps())
    }

    /** A node as the parser hands it over: the clause loses its quote characters, there are no
        children and no time is set. The argument type checks are carried by the parameter
        types. */
    constructor (number: int, clause: string, inferenceRule: string, parents: seq<int>,
                 statistics: map<string, int>, isFromPreprocessing: bool)
      ensures Valid() && Stamps() == Lifecycle.Fresh()
      ensures this.number == number && this.clause == ReprUtil.RemoveQuotes(clause)
      ensures this.inferenceRule == inferenceRule && this.parents == parents
      ensures this.statistics == statistics && this.isFromPreprocessing == isFromPreprocessing
      ensures children == []
    {
      this.number := number;
      this.clause := ReprUtil.RemoveQuotes(clause);
      this.inferenceRule := inferenceRule;
      this.parents := parents;
      this.children := [];
      this.statistics := statistics;
      this.isFromPreprocessing := isFromPreprocessing;
      newTime := None;
      passiveTime := None;
      activeTime := None;
      deletionTime := None;
      deletionParents := None;
    }

    /** The fields other than the clock readings are those of the state before. */
    twostate predicate SameData()
      reads this
    {
      number == old(number) && clause == old(clause) && inferenceRule == old(inferenceRule) &&
      parents == old(parents) && children == old(children) && statistics == old(statistics) &&
      isFromPreprocessing == old(isFromPreprocessing)
    }

    method SetNewTime(lineNumber: int)
      requires Valid() && Lifecycle.CanSetNew(Stamps())
      modifies this
      ensures Valid() && SameData()
      ensures Lifecycle.Step(old(Stamps()), Lifecycle.New(lineNumber)) == Ok(Stamps())
    {
      newTime := Some(lineNumber);
    }

    method SetPassiveTime(lineNumber: int)
      requires Valid() && Lifecycle.CanSetPassive(Stamps())
      modifies this
      ensures Valid() && SameData()
      ensures Lifecycle.Step(old(Stamps()), Lifecycle.Passive(lineNumber)) == Ok(Stamps())
    {
      passiveTime := Some(lineNumber);
    }

    method SetActiveTime(lineNumber: int)
      requires Valid() && Lifecycle.CanSetActive(Stamps())
      modifies this
      ensures Valid() && SameData()
      ensures Lifecycle.Step(old(Stamps()), Lifecycle.Active(lineNumber)) == Ok(Stamps())
    {
      activeTime := Some(lineNumber);
    }

    /** Setting the deletion time also starts an empty deletion-parent list. */
    method SetDeletionTime(lineNumber: int)
      requires Valid() && Lifecycle.CanSetDeletion(Stamps())
      modifies this
      ensures Valid() && SameData()
      ensures Lifecycle.Step(old(Stamps()), Lifecycle.Deletion(lineNumber)) == Ok(Stamps())
      ensures deletionParents == Some([])
    {
      deletionTime := Some(lineNumber);
      deletionParents := Some([]);
    }

    /** Appends one id to the deletion-parent list of a deleted node. */
    method AddDeletionParent(deletionParent: int)
      requires Valid() && deletionTime.Some?
      modifies this
      ensures Valid() && SameData()
      ensures Lifecycle.Step(old(Stamps()), Lifecycle.DeletionParent(deletionParent)) == Ok(Stamps())
      ensures deletionParents == Some(old(deletionParents.value) + [deletionParent])
      ensures newTime == old(newTime) && passiveTime == old(passiveTime) && activeTime == old(activeTime)
      ensures deletionTime == old(deletionTime)
    {
      deletionParents := Some(deletionParents.value + [deletionParent]);
    }

    /** Replaces the clause text as given, without removing quotes. */
    method SetClause(newClause: string)
      requires Valid()
      modifies this
      ensures Valid() && clause == newClause && Stamps() == old(Stamps())
      ensures number == old(number) && inferenceRule == old(inferenceRule) && parents == old(parents)
      ensures children == old(children) && statistics == old(statistics)
      ensures isFromPreprocessing == old(isFromPreprocessing)
    {
      clause := newClause;
    }

    method SetStatistics(newStatistics: map<string, int>)
      requires Valid()
      modifies this
      ensures Valid() && statistics == newStatistics && Stamps() == old(Stamps())
      ensures number == old(number) && clause == old(clause) && inferenceRule == old(inferenceRule)
      ensures parents == old(parents) && children == old(children)
      ensures isFromPreprocessing == old(isFromPreprocessing)
    {
      statistics := newStatistics;
    }

    /** `str` and `repr` are the clause. */
    function Str(): (r: string)
      reads this
      ensures r == clause
    {
      clause
    }
  }
}

/** The nodes of the earlier Python backend (visualization-backend/proof_visualization/model/
    node.py) and of the JavaScript frontend (visualization-frontend/src/model/node.js): only the
    new, passive and active times, statistics as a list of numbers. The two share their setters;
    they differ in the constructor, which strips quotes from the clause in Python and keeps it
    in JavaScript. */
module TimedNode {
  import opened Wrappers
  import Lifecycle
  import ReprUtil

  class Node {
    var number: int
    var clause: string
    var inferenceRule: string
    var parents: seq<int>
    var statistics: seq<int>
    var isFromPreprocessing: bool
    var newTime: Option<int>
    var passiveTime: Option<int>
    var activeTime: Option<int>

    /** The readings as a lifecycle record that is never deleted. */
    function Stamps(): (r: Lifecycle.Stamps)
      reads this
      ensures r.deletionTime.None? && r.deletionParents.None?
    {
      Lifecycle.Stamps(newTime, passiveTime, activeTime, None, None)
    }

    predicate Valid()
      reads this
    {
      Lifecycle.Ordered(Stamps())
    }

    /** The Python constructor: quote characters are removed from the clause. */
    constructor FromPython(number: int, clause: string, inferenceRule: string, parents: seq<int>,
                           statistics: seq<int>, isFromPreprocessing: bool)
      ensures Valid() && Stamps() == Lifecycle.Fresh()
      ensures this.number == number && this.clause == ReprUtil.RemoveQuotes(clause)
      ensures this.inferenceRule == inferenceRule && this.parents == parents
      ensures this.statistics == statistics && this.isFromPreprocessing == isFromPreprocessing
    {
      this.number := number;
      this.clause := ReprUtil.RemoveQuotes(clause);
      this.inferenceRule := inferenceRule;
      this.parents := parents;
      this.statistics := statistics;
      this.isFromPreprocessing := isFromPreprocessing;
      newTime := None;
      passiveTime := None;
      activeTime := None;
    }

    /** The JavaScript constructor: the clause is stored as given. */
    constructor FromJs(number: int, clause: string, inferenceRule: string, parents: seq<int>,
                       statistics: seq<int>, isFromPreprocessing: bool)
      ensures Valid() && Stamps() == Lifecycle.Fresh()
      ensures this.number == number && this.clause == clause
      ensures this.inferenceRule == inferenceRule && this.parents == parents
      ensures this.statistics == statistics && this.isFromPreprocessing == isFromPreprocessing
    {
      this.number := number;
      this.clause := clause;
      this.inferenceRule := inferenceRule;
      this.parents := parents;
      this.statistics := statistics;
      this.isFromPreprocessing := isFromPreprocessing;
      newTime := None;
      passiveTime := None;
      activeTime := None;
    }

    twostate predicate SameData()
      reads this
    {
      number == old(number) && clause == old(clause) && inferenceRule == old(inferenceRule) &&
      parents == old(parents) && statistics == old(statistics) &&
      isFromPreprocessing == old(isFromPreprocessing)
    }

    method SetNewTime(time: int)
      requires Valid() && Lifecycle.CanSetNew(Stamps())
      modifies this
      ensures Valid() && SameData()
      ensures Lifecycle.Step(old(Stamps()), Lifecycle.New(time)) == Ok(Stamps())
    {
      newTime := Some(time);
    }

    method SetPassiveTime(time: int)
      requires Valid() && Lifecycle.CanSetPassive(Stamps())
      modifies this
      ensures Valid() && SameData()
      ensures Lifecycle.Step(old(Stamps()), Lifecycle.Passive(time)) == Ok(Stamps())
    {
      passiveTime := Some(time);
    }

    method SetActiveTime(time: int)
      requires Valid() && Lifecycle.CanSetActive(Stamps())
      modifies this
      ensures Valid() && SameData()
      ensures Lifecycle.Step(old(Stamps()), Lifecycle.Active(time)) == Ok(Stamps())
    {
      activeTime := Some(time);
    }

    function Str(): (r: string)
      reads this
      ensures r == clause
    {
      clause
    }
  }
}

/** The node of the oldest Python model (proof_visualization/model/node.py): a value built once;
    callers fill in its children. */
module ProofNode {
  import ReprUtil
  import NodeAssembly

  /** Clause and rule are strings; parents a list. */
  type Node = NodeAssembly.Node<string, seq<int>>

  /** The constructor: a falsy clause becomes empty, quotes are removed, children start empty. */
  function Make(number: int, clause: string, inferenceRule: string, parents: seq<int>): (n: Node)
    ensures n.number == number && n.inferenceRule == inferenceRule && n.parents == parents
    ensures n.children == {}
    ensures forall i :: 0 <= i < |n.clause| ==> n.clause[i] != '\'' && n.clause[i] != '"'
    ensures (forall i :: 0 <= i < |clause| ==> clause[i] != '\'' && clause[i] != '"') ==> n.clause == clause
  {
    NodeAssembly.Node(number, ReprUtil.RemoveQuotes(clause), inferenceRule, parents, {})
  }

  /** `str` and `repr` are the clause. */
  function Str(n: Node): (r: string)
    ensures r == n.clause
  {
    n.clause
  }
}
