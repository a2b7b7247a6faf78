/** Matching each literal of a derived clause with the literal of its parent clause it comes
    from (src/model/clause-orientation.ts, `computeParentLiterals` and its three cases). An
    assignment maps the position of a literal in the clause to the position of its parent
    literal in the parent's list. */
module ParentLiterals {
  import opened Wrappers
  import opened Substitutions
  import opened SatModel
  import Dags

  type Assignment = map<nat, nat>

  /** Literal comparison as the matching cases call it, `literalsMatch(l1, l2,
      allowSubstitutions)`. Everything below is stated for any comparison: the program's
      is `AsWrittenMatcher`, the intended one `CorrectedMatcher`. */
  type Matcher = (SLiteral, SLiteral, bool) -> Result<bool>

  /** How a call of `literalsMatch` ends, as a result: a failed assertion, or `Diverges` for a
      call that does not return. */
  function OutcomeResult(o: MatchOutcome): (r: Result<bool>)
    ensures r.Ok? <==> o.Returns?
    ensures o.Returns? ==> r.value == o.value
    ensures o == AssertionFails ==> r == Err(AssertionFailed)
    ensures o == RunsOutOfFuel ==> r == Err(Diverges)
  {
    match o
    case Returns(b) => Ok(b)
    case AssertionFails => Err(AssertionFailed)
    case RunsOutOfFuel => Err(Diverges)
  }

  /** `literalsMatch` as clause-orientation.ts calls it, `fuel` bounding the chains of bound
      variables `computeSubstitution` follows. */
  function AsWrittenMatcher(fuel: nat): Matcher
  {
    (l1: SLiteral, l2: SLiteral, allowSubstitutions: bool) => OutcomeResult(LiteralsMatch(l1, l2, allowSubstitutions, fuel))
  }

  /** `literalsMatch` with a bound variable matching exactly its binding. */
  const CorrectedMatcher: Matcher := LiteralsMatchCorrected

  // Case 1: same number of literals, same positions.

  /** The parent positions when literal l comes from parent literal l. */
  function Identity(n: nat): (m: Assignment)
    ensures forall l :: l in m <==> 0 <= l < n
    ensures forall l :: l in m ==> m[l] == l
  {
    if n == 0 then map[] else Identity(n - 1)[n - 1 := n - 1]
  }

  /** `computeParentLiteralsCase1` as a function: literal i comes from parent literal i;
      the lengths must agree. */
  function Case1(n: nat, parentCount: nat): (r: Result<Assignment>)
    ensures r.Ok? <==> n == parentCount
    ensures r.Err? ==> r.error == AssertionFailed
    ensures r.Ok? ==> r.value == Identity(n)
  {
    if n != parentCount then Err(AssertionFailed) else Ok(Identity(n))
  }

  /** The loop of case 1. */
  method ComputeParentLiteralsCase1(n: nat, parentCount: nat) returns (r: Result<Assignment>)
    ensures r == Case1(n, parentCount)
  {
    if n != parentCount {
      return Err(AssertionFailed);
    }
    var links: Assignment := map[];
    for i := 0 to n
      invariant links == Identity(i)
    {
      links := links[i := i];
    }
    return Ok(links);
  }

  // Case 2: literals removed, order kept.

  /** The loop of case 2 from literal `i` and parent literal `j`, with the links made so far
      and `found` telling whether a parent literal was skipped already. A literal that
      matches the current parent literal is linked to it; otherwise the parent literal is
      skipped, which is allowed once unless several removals are. Running past the parent
      list reads `undefined`, which literal comparison cannot take apart. */
  function Case2Run(matches: Matcher, lits: seq<SLiteral>, parents: seq<SLiteral>, allowSubstitutions: bool,
                    allowMultipleRemovals: bool, i: nat, j: nat, found: bool, links: Assignment): Result<Assignment>
    requires i <= |lits|
    decreases |parents| - j
  {
    if i == |lits| then Ok(links)
    else if j >= |parents| then Err(BadType)
    else
      match matches(lits[i], parents[j], allowSubstitutions)
      case Err(e) => Err(e)
      case Ok(true) =>
        Case2Run(matches, lits, parents, allowSubstitutions, allowMultipleRemovals, i + 1, j + 1, found, links[i := j])
      case Ok(false) =>
        if found && !allowMultipleRemovals then Err(AssertionFailed)
        else Case2Run(matches, lits, parents, allowSubstitutions, allowMultipleRemovals, i, j + 1, true, links)
  }

  /** `computeParentLiteralsCase2`: the length assertion, then the loop from the start. */
  function Case2(matches: Matcher, lits: seq<SLiteral>, parents: seq<SLiteral>, allowSubstitutions: bool,
                 allowMultipleRemovals: bool): Result<Assignment>
  {
    if !(if allowMultipleRemovals then |lits| < |parents| else |lits| + 1 == |parents|) then Err(AssertionFailed)
    else Case2Run(matches, lits, parents, allowSubstitutions, allowMultipleRemovals, 0, 0, false, map[])
  }

  /** What the case-2 loop keeps about its links once literals before `i` are linked and
      parent literals before `j` are used up: every such literal is linked, at or after its
      own position and before `j`, in increasing order, to a parent literal it matches; and
      without multiple removals exactly the skips recorded by `found` have happened. */
  ghost predicate Case2Linked(matches: Matcher, m: Assignment, lits: seq<SLiteral>, parents: seq<SLiteral>,
                              allowSubstitutions: bool, allowMultipleRemovals: bool, i: nat, j: nat, found: bool)
  {
    i <= |lits| && i <= j <= |parents| &&
    (forall k :: k in m <==> 0 <= k < i) &&
    (forall k :: k in m ==> k <= m[k] < j) &&
    (forall k, k' :: k in m && k' in m && k < k' ==> m[k] < m[k']) &&
    (forall k :: k in m && k < |lits| && m[k] < |parents| ==> matches(lits[k], parents[m[k]], allowSubstitutions) == Ok(true)) &&
    (!allowMultipleRemovals ==> j == i + (if found then 1 else 0) && forall k :: k in m ==> m[k] <= k + 1)
  }

  /** The links of a successful case 2, as its lemma below states them. */
  ghost predicate Case2Links(matches: Matcher, m: Assignment, lits: seq<SLiteral>, parents: seq<SLiteral>,
                             allowSubstitutions: bool, allowMultipleRemovals: bool)
  {
    (forall k :: k in m <==> 0 <= k < |lits|) &&
    (forall k :: k in m ==> k <= m[k] < |parents|) &&
    (forall k, k' :: k in m && k' in m && k < k' ==> m[k] < m[k']) &&
    (forall k :: k in m && k < |lits| && m[k] < |parents| ==> matches(lits[k], parents[m[k]], allowSubstitutions) == Ok(true)) &&
    (!allowMultipleRemovals ==> forall k :: k in m ==> m[k] <= k + 1)
  }

  lemma Case2LinkedMatch(matches: Matcher, links: Assignment, lits: seq<SLiteral>, parents: seq<SLiteral>,
                         allowSubstitutions: bool, allowMultipleRemovals: bool, i: nat, j: nat, found: bool)
    requires Case2Linked(matches, links, lits, parents, allowSubstitutions, allowMultipleRemovals, i, j, found)
    requires i < |lits| && j < |parents| && matches(lits[i], parents[j], allowSubstitutions) == Ok(true)
    ensures Case2Linked(matches, links[i := j], lits, parents, allowSubstitutions, allowMultipleRemovals, i + 1, j + 1, found)
  {
  }

  lemma Case2LinkedSkip(matches: Matcher, links: Assignment, lits: seq<SLiteral>, parents: seq<SLiteral>,
                        allowSubstitutions: bool, allowMultipleRemovals: bool, i: nat, j: nat, found: bool)
    requires Case2Linked(matches, links, lits, parents, allowSubstitutions, allowMultipleRemovals, i, j, found)
    requires j < |parents| && (allowMultipleRemovals || !found)
    ensures Case2Linked(matches, links, lits, parents, allowSubstitutions, allowMultipleRemovals, i, j + 1, true)
  {
  }

  lemma {:induction false} Case2RunShape(matches: Matcher, lits: seq<SLiteral>, parents: seq<SLiteral>, allowSubstitutions: bool,
                                         allowMultipleRemovals: bool, i: nat, j: nat, found: bool, links: Assignment)
    requires Case2Linked(matches, links, lits, parents, allowSubstitutions, allowMultipleRemovals, i, j, found)
    requires Case2Run(matches, lits, parents, allowSubstitutions, allowMultipleRemovals, i, j, found, links).Ok?
    ensures Case2Links(matches, Case2Run(matches, lits, parents, allowSubstitutions, allowMultipleRemovals, i, j, found, links).value,
                       lits, parents, allowSubstitutions, allowMultipleRemovals)
    decreases |parents| - j
  {
    if i == |lits| {
    } else if matches(lits[i], parents[j], allowSubstitutions) == Ok(true) {
      Case2LinkedMatch(matches, links, lits, parents, allowSubstitutions, allowMultipleRemovals, i, j, found);
      Case2RunShape(matches, lits, parents, allowSubstitutions, allowMultipleRemovals, i + 1, j + 1, found, links[i := j]);
    } else {
      Case2LinkedSkip(matches, links, lits, parents, allowSubstitutions, allowMultipleRemovals, i, j, found);
      Case2RunShape(matches, lits, parents, allowSubstitutions, allowMultipleRemovals, i, j + 1, true, links);
    }
  }

  /** Case 2 links every literal, to strictly increasing parent positions, each to a parent
      literal it matches; without multiple removals at most one parent literal is skipped,
      so literal k comes from parent literal k or k + 1. */
  lemma Case2Shape(matches: Matcher, lits: seq<SLiteral>, parents: seq<SLiteral>, allowSubstitutions: bool, allowMultipleRemovals: bool)
    requires Case2(matches, lits, parents, allowSubstitutions, allowMultipleRemovals).Ok?
    ensures var m := Case2(matches, lits, parents, allowSubstitutions, allowMultipleRemovals).value;
            (forall k :: k in m <==> 0 <= k < |lits|) &&
            (forall k :: k in m ==> k <= m[k] < |parents|) &&
            (forall k, k' :: k in m && k' in m && k < k' ==> m[k] < m[k']) &&
            (forall k :: k in m ==> matches(lits[k], parents[m[k]], allowSubstitutions) == Ok(true)) &&
            (!allowMultipleRemovals ==> forall k :: k in m ==> m[k] <= k + 1)
  {
    assert Case2Linked(matches, map[], lits, parents, allowSubstitutions, allowMultipleRemovals, 0, 0, false);
    Case2RunShape(matches, lits, parents, allowSubstitutions, allowMultipleRemovals, 0, 0, false, map[]);
  }

  /** The case-2 loop with its two indices. */
  method ComputeParentLiteralsCase2(matches: Matcher, lits: seq<SLiteral>, parents: seq<SLiteral>, allowSubstitutions: bool,
                                    allowMultipleRemovals: bool) returns (r: Result<Assignment>)
    ensures r == Case2(matches, lits, parents, allowSubstitutions, allowMultipleRemovals)
  {
    if !(if allowMultipleRemovals then |lits| < |parents| else |lits| + 1 == |parents|) {
      return Err(AssertionFailed);
    }
    var foundRemovedLit := false;
    var i, j := 0, 0;
    var links: Assignment := map[];
    while i < |lits|
      invariant i <= |lits|
      invariant Case2(matches, lits, parents, allowSubstitutions, allowMultipleRemovals) ==
                Case2Run(matches, lits, parents, allowSubstitutions, allowMultipleRemovals, i, j, foundRemovedLit, links)
      decreases |parents| - j
    {
      if j >= |parents| {
        return Err(BadType);
      }
      var success := matches(lits[i], parents[j], allowSubstitutions);
      if success.Err? {
        return Err(success.error);
      }
      if success.value {
        links := links[i := j];
        i, j := i + 1, j + 1;
      } else {
        if foundRemovedLit && !allowMultipleRemovals {
          return Err(AssertionFailed);
        }
        foundRemovedLit := true;
        j := j + 1;
      }
    }
    return Ok(links);
  }

  /** Factoring `p(Y, c)` from the parent `p(X, X) | r`: the program links the literal to
      `p(X, X)`, of which it is no instance, while the intended comparison rejects the pair,
      skips both parent literals and fails the assertion against a second skip. */
  lemma FactoringLinksDiffer(fuel: nat)
    requires fuel >= 1
    ensures Case2(AsWrittenMatcher(fuel), [FactoredInstance()], [FactoredPattern(), FactoredRest()], true, false) == Ok(map[0 := 0])
    ensures Case2(CorrectedMatcher, [FactoredInstance()], [FactoredPattern(), FactoredRest()], true, false) == Err(AssertionFailed)
  {
    var lits, parents := [FactoredInstance()], [FactoredPattern(), FactoredRest()];
    UnsoundMatch(fuel);
    assert AsWrittenMatcher(fuel)(lits[0], parents[0], true) == Ok(true);
    assert Case2Run(AsWrittenMatcher(fuel), lits, parents, true, false, 1, 1, false, map[0 := 0]) == Ok(map[0 := 0]);
    assert CorrectedMatcher(lits[0], parents[0], true) == Ok(false);
    assert CorrectedMatcher(lits[0], parents[1], true) == Ok(false);
    assert Case2Run(CorrectedMatcher, lits, parents, true, false, 0, 1, true, map[]) == Err(AssertionFailed);
  }

  /** `r`, the other literal of the factored parent. */
  function FactoredRest(): SLiteral { SLiteral("r", [], false) }

  // Case 3: one literal rewritten and moved to the front.

  /** The first loop of case 3 from `i`: the first position from which literal i does not
      match parent literal i - 1, or the number of literals when every shifted pair matches. */
  function ShiftedEnd(matches: Matcher, lits: seq<SLiteral>, parents: seq<SLiteral>, allowSubstitutions: bool, i: nat): (r: Result<nat>)
    requires |lits| == |parents| && 1 <= i <= |lits|
    ensures r.Ok? ==> i <= r.value <= |lits|
    decreases |lits| - i
  {
    if i == |lits| then Ok(i)
    else
      match matches(lits[i], parents[i - 1], allowSubstitutions)
      case Err(e) => Err(e)
      case Ok(true) => ShiftedEnd(matches, lits, parents, allowSubstitutions, i + 1)
      case Ok(false) => Ok(i)
  }

  /** The second loop's assertion, from `i`: each remaining literal matches the parent literal
      at its own position. */
  function UnshiftedCheck(matches: Matcher, lits: seq<SLiteral>, parents: seq<SLiteral>, allowSubstitutions: bool, i: nat): Result<bool>
    requires |lits| == |parents| && i <= |lits|
    decreases |lits| - i
  {
    if i == |lits| then Ok(true)
    else
      match matches(lits[i], parents[i], allowSubstitutions)
      case Err(e) => Err(e)
      case Ok(false) => Err(AssertionFailed)
      case Ok(true) => UnshiftedCheck(matches, lits, parents, allowSubstitutions, i + 1)
  }

  /** Where literal l of case 3 comes from when the rewritten literal was parent literal k. */
  function RotatedPosition(l: nat, k: nat): nat
  {
    if l == 0 then k else if l <= k then l - 1 else l
  }

  /** The parent positions of case 3 for the first n literals: the first k + 1 parent
      literals rotated so that k comes first. */
  function Rotation(n: nat, k: nat): Assignment
  {
    if n == 0 then map[] else Rotation(n - 1, k)[n - 1 := RotatedPosition(n - 1, k)]
  }

  lemma {:induction false} RotationShape(n: nat, k: nat)
    ensures forall l :: l in Rotation(n, k) <==> 0 <= l < n
    ensures forall l :: l in Rotation(n, k) ==> Rotation(n, k)[l] == RotatedPosition(l, k)
  {
    if n > 0 {
      RotationShape(n - 1, k);
    }
  }

  /** The rotation as an assignment: one parent position per literal, no position used
      twice, `k` first, then the positions before `k`, then the rest in place. */
  lemma RotationMap(n: nat, k: nat)
    requires k < n
    ensures var m := Rotation(n, k);
            (forall l :: l in m <==> 0 <= l < n) &&
            (forall l :: l in m ==> m[l] < n) &&
            (forall l, l' :: l in m && l' in m && m[l] == m[l'] ==> l == l') &&
            m[0] == k && (forall l :: 1 <= l <= k ==> m[l] == l - 1) && (forall l :: k < l < n ==> m[l] == l)
  {
    RotationShape(n, k);
  }

  /** What the first loop of case 3 has linked before literal i: each literal to the parent
      literal before it. */
  function ShiftedLinks(i: nat): Assignment
  {
    if i <= 1 then map[] else ShiftedLinks(i - 1)[i - 1 := i - 2]
  }

  lemma {:induction false} ShiftedLinksShape(i: nat)
    ensures forall l :: l in ShiftedLinks(i) <==> 1 <= l < i
    ensures forall l :: l in ShiftedLinks(i) ==> ShiftedLinks(i)[l] == l - 1
  {
    if i > 1 {
      ShiftedLinksShape(i - 1);
    }
  }

  /** Once the rewritten literal is found to be parent literal i - 1, the shifted links and
      the link of literal 0 form the rotation of the first i positions. */
  lemma RotationStart(i: nat)
    requires i >= 1
    ensures ShiftedLinks(i)[0 := i - 1] == Rotation(i, i - 1)
  {
    ShiftedLinksShape(i);
    RotationShape(i, i - 1);
    var m, m' := ShiftedLinks(i)[0 := i - 1], Rotation(i, i - 1);
    assert forall l :: l in m <==> l in m';
    assert forall l :: l in m ==> m[l] == m'[l];
  }

  /** `computeParentLiteralsCase3`: equal lengths asserted; with no literal at all the
      corner-case assertion `i === literals.length` fails. */
  function Case3(matches: Matcher, lits: seq<SLiteral>, parents: seq<SLiteral>, allowSubstitutions: bool,
                 allowSimultaneousSuperposition: bool): Result<Assignment>
  {
    if |lits| != |parents| || |lits| == 0 then Err(AssertionFailed)
    else
      match ShiftedEnd(matches, lits, parents, allowSubstitutions, 1)
      case Err(e) => Err(e)
      case Ok(i) =>
        if !allowSimultaneousSuperposition && UnshiftedCheck(matches, lits, parents, allowSubstitutions, i).Err? then
          Err(UnshiftedCheck(matches, lits, parents, allowSubstitutions, i).error)
        else Ok(Rotation(|lits|, i - 1))
  }

  lemma {:induction false} ShiftedEndMatches(matches: Matcher, lits: seq<SLiteral>, parents: seq<SLiteral>, allowSubstitutions: bool, i: nat)
    requires |lits| == |parents| && 1 <= i <= |lits|
    requires ShiftedEnd(matches, lits, parents, allowSubstitutions, i).Ok?
    ensures forall l :: i <= l < ShiftedEnd(matches, lits, parents, allowSubstitutions, i).value ==>
              matches(lits[l], parents[l - 1], allowSubstitutions) == Ok(true)
    decreases |lits| - i
  {
    if i < |lits| && matches(lits[i], parents[i - 1], allowSubstitutions) == Ok(true) {
      ShiftedEndMatches(matches, lits, parents, allowSubstitutions, i + 1);
    }
  }

  lemma {:induction false} UnshiftedCheckMatches(matches: Matcher, lits: seq<SLiteral>, parents: seq<SLiteral>, allowSubstitutions: bool, i: nat)
    requires |lits| == |parents| && i <= |lits|
    requires UnshiftedCheck(matches, lits, parents, allowSubstitutions, i).Ok?
    ensures forall l :: i <= l < |lits| ==> matches(lits[l], parents[l], allowSubstitutions) == Ok(true)
    decreases |lits| - i
  {
    if i < |lits| {
      UnshiftedCheckMatches(matches, lits, parents, allowSubstitutions, i + 1);
    }
  }

  /** Case 3 is a permutation of the positions: literal 0 comes from some parent literal k,
      literals 1 to k from the parent literal before them (and match it), and the later
      literals from the parent literal at their own position (and match it unless
      simultaneous superposition is allowed). */
  lemma Case3Shape(matches: Matcher, lits: seq<SLiteral>, parents: seq<SLiteral>, allowSubstitutions: bool,
                   allowSimultaneousSuperposition: bool)
    requires Case3(matches, lits, parents, allowSubstitutions, allowSimultaneousSuperposition).Ok?
    ensures var m := Case3(matches, lits, parents, allowSubstitutions, allowSimultaneousSuperposition).value;
            |lits| == |parents| && |lits| > 0 &&
            (forall l :: l in m <==> 0 <= l < |lits|) &&
            (forall l :: l in m ==> m[l] < |lits|) &&
            (forall l, l' :: l in m && l' in m && m[l] == m[l'] ==> l == l') &&
            (forall l :: 1 <= l <= m[0] ==> m[l] == l - 1 && matches(lits[l], parents[l - 1], allowSubstitutions) == Ok(true)) &&
            (forall l :: m[0] < l < |lits| ==>
               m[l] == l && (!allowSimultaneousSuperposition ==> matches(lits[l], parents[l], allowSubstitutions) == Ok(true)))
  {
    var i := ShiftedEnd(matches, lits, parents, allowSubstitutions, 1).value;
    assert Case3(matches, lits, parents, allowSubstitutions, allowSimultaneousSuperposition).value == Rotation(|lits|, i - 1);
    RotationMap(|lits|, i - 1);
    ShiftedEndMatches(matches, lits, parents, allowSubstitutions, 1);
    if !allowSimultaneousSuperposition {
      UnshiftedCheckMatches(matches, lits, parents, allowSubstitutions, i);
    }
  }

  lemma RotationStep(i: nat, k: nat)
    requires k < i
    ensures Rotation(i, k)[i := i] == Rotation(i + 1, k)
  {
  }

  lemma UnshiftedStep(matches: Matcher, lits: seq<SLiteral>, parents: seq<SLiteral>, allowSubstitutions: bool, i: nat)
    requires |lits| == |parents| && i < |lits|
    requires matches(lits[i], parents[i], allowSubstitutions) == Ok(true)
    ensures UnshiftedCheck(matches, lits, parents, allowSubstitutions, i) == UnshiftedCheck(matches, lits, parents, allowSubstitutions, i + 1)
  {
  }

  lemma Case3FailsUnshifted(matches: Matcher, lits: seq<SLiteral>, parents: seq<SLiteral>, allowSubstitutions: bool,
                            i: nat, l: nat)
    requires |lits| == |parents| && 1 <= i <= l < |lits|
    requires ShiftedEnd(matches, lits, parents, allowSubstitutions, 1) == Ok(i)
    requires UnshiftedCheck(matches, lits, parents, allowSubstitutions, i) == UnshiftedCheck(matches, lits, parents, allowSubstitutions, l)
    requires matches(lits[l], parents[l], allowSubstitutions) != Ok(true)
    ensures Case3(matches, lits, parents, allowSubstitutions, false) ==
            if matches(lits[l], parents[l], allowSubstitutions).Err? then Err(matches(lits[l], parents[l], allowSubstitutions).error)
            else Err(AssertionFailed)
  {
  }

  lemma Case3Succeeds(matches: Matcher, lits: seq<SLiteral>, parents: seq<SLiteral>, allowSubstitutions: bool,
                      allowSimultaneousSuperposition: bool, i: nat)
    requires |lits| == |parents| && 1 <= i <= |lits|
    requires ShiftedEnd(matches, lits, parents, allowSubstitutions, 1) == Ok(i)
    requires !allowSimultaneousSuperposition ==> UnshiftedCheck(matches, lits, parents, allowSubstitutions, i) == Ok(true)
    ensures Case3(matches, lits, parents, allowSubstitutions, allowSimultaneousSuperposition) == Ok(Rotation(|lits|, i - 1))
  {
  }

  /** The two loops of case 3. */
  method ComputeParentLiteralsCase3(matches: Matcher, lits: seq<SLiteral>, parents: seq<SLiteral>, allowSubstitutions: bool,
                                    allowSimultaneousSuperposition: bool) returns (r: Result<Assignment>)
    ensures r == Case3(matches, lits, parents, allowSubstitutions, allowSimultaneousSuperposition)
  {
    if |lits| != |parents| {
      return Err(AssertionFailed);
    }
    var foundRewrittenLiteral := false;
    var i := 1;
    var links: Assignment := map[];
    while i < |lits|
      invariant 1 <= i && (|lits| > 0 ==> i <= |lits|)
      invariant |lits| > 0 ==> ShiftedEnd(matches, lits, parents, allowSubstitutions, 1) == ShiftedEnd(matches, lits, parents, allowSubstitutions, i)
      invariant links == ShiftedLinks(i)
    {
      var success := matches(lits[i], parents[i - 1], allowSubstitutions);
      if success.Err? {
        assert ShiftedEnd(matches, lits, parents, allowSubstitutions, i) == Err(success.error);
        return Err(success.error);
      }
      if success.value {
        links := links[i := i - 1];
        i := i + 1;
      } else {
        links := links[0 := i - 1];
        foundRewrittenLiteral := true;
        break;
      }
    }
    if !foundRewrittenLiteral {
      if i != |lits| {
        return Err(AssertionFailed);
      }
      links := links[0 := |parents| - 1];
    }
    ghost var k := i - 1;
    assert ShiftedEnd(matches, lits, parents, allowSubstitutions, 1) == Ok(i);
    RotationStart(i);
    while i < |lits|
      invariant k < i <= |lits|
      invariant links == Rotation(i, k)
      invariant !allowSimultaneousSuperposition ==>
                  UnshiftedCheck(matches, lits, parents, allowSubstitutions, k + 1) == UnshiftedCheck(matches, lits, parents, allowSubstitutions, i)
    {
      if !allowSimultaneousSuperposition {
        var success := matches(lits[i], parents[i], allowSubstitutions);
        if success != Ok(true) {
          Case3FailsUnshifted(matches, lits, parents, allowSubstitutions, k + 1, i);
          return if success.Err? then Err(success.error) else Err(AssertionFailed);
        }
        UnshiftedStep(matches, lits, parents, allowSubstitutions, i);
      }
      RotationStep(i, k);
      links := links[i := i];
      i := i + 1;
    }
    Case3Succeeds(matches, lits, parents, allowSubstitutions, allowSimultaneousSuperposition, k + 1);
    return Ok(links);
  }

  // Linking the literals of the clauses of a dag.

  /** One `setLiteralInParent` call: the literal and its parent literal. */
  type Link = (LitId, LitId)

  /** The contents of the literals named by `ids`. */
  function Contents(literals: Literals, ids: seq<LitId>): (r: seq<SLiteral>)
    requires forall k :: 0 <= k < |ids| ==> ids[k] in literals
    ensures |r| == |ids|
    ensures forall k :: 0 <= k < |ids| ==> r[k] == literals[ids[k]].Content()
  {
    if ids == [] then [] else [literals[ids[0]].Content()] + Contents(literals, ids[1..])
  }

  /** The links an assignment of positions stands for, literal by literal from position `p`. */
  function LinkPairs(lits: seq<LitId>, parentLits: seq<LitId>, m: Assignment, p: nat): (r: seq<Link>)
    ensures forall k :: 0 <= k < |r| ==> r[k].0 in lits && r[k].1 in parentLits
    decreases |lits| - p
  {
    if p >= |lits| then []
    else (if p in m && m[p] < |parentLits| then [(lits[p], parentLits[m[p]])] else []) + LinkPairs(lits, parentLits, m, p + 1)
  }

  lemma {:induction false} LinkPairsFull(lits: seq<LitId>, parentLits: seq<LitId>, m: Assignment, p: nat)
    requires p <= |lits|
    requires forall q :: p <= q < |lits| ==> q in m && m[q] < |parentLits|
    ensures |LinkPairs(lits, parentLits, m, p)| == |lits| - p
    ensures forall k :: 0 <= k < |lits| - p ==> LinkPairs(lits, parentLits, m, p)[k] == (lits[p + k], parentLits[m[p + k]])
    decreases |lits| - p
  {
    if p < |lits| {
      LinkPairsFull(lits, parentLits, m, p + 1);
    }
  }

  /** The parent literals of `parent` as they were when the child was generated at
      `newTime`: in active-event order if the parent was activated by then, in new-event
      order otherwise; a missing active-event list fails the assertion on it. */
  function ParentList(parent: Clause, activeTime: Option<int>, newTime: int): (r: Result<seq<LitId>>)
    ensures activeTime.Some? && activeTime.value <= newTime ==>
              r == if parent.literalsActiveEvent.Some? then Ok(parent.literalsActiveEvent.value) else Err(AssertionFailed)
    ensures !(activeTime.Some? && activeTime.value <= newTime) ==> r == Ok(parent.literalsNewEvent)
  {
    if activeTime.Some? && activeTime.value <= newTime then
      if parent.literalsActiveEvent.Some? then Ok(parent.literalsActiveEvent.value) else Err(AssertionFailed)
    else Ok(parent.literalsNewEvent)
  }

  /** The rules whose first parent is the main premise (the first test of
      `computeParentLiterals`). */
  predicate SingleParentRule(rule: string, parentCount: int)
  {
    rule == "evaluation" || rule == "forward subsumption demodulation" ||
    (rule == "term algebras injectivity" && parentCount == 1) ||
    rule == "subsumption resolution" || rule == "equality resolution" ||
    rule == "trivial inequality removal" || rule == "factoring" || rule == "duplicate literal removal" ||
    (rule == "term algebras distinctness" && parentCount == 1) ||
    rule == "forward demodulation" || rule == "backward demodulation" || rule == "equality factoring"
  }

  predicate Case1Rule(rule: string, n: int, parentCount: int)
  {
    (rule == "evaluation" && n == parentCount) || rule == "forward subsumption demodulation" || rule == "term algebras injectivity"
  }

  predicate Case2Rule(rule: string, n: int, parentCount: int)
  {
    rule == "subsumption resolution" || rule == "equality resolution" || rule == "trivial inequality removal" ||
    rule == "factoring" || rule == "duplicate literal removal" || rule == "term algebras distinctness" ||
    (rule == "evaluation" && n + 1 == parentCount)
  }

  predicate Case3Rule(rule: string)
  {
    rule == "forward demodulation" || rule == "backward demodulation" || rule == "equality factoring"
  }

  /** The links one main-premise inference gives its clause `lits` from the parent list. */
  function SingleParentLinks(matches: Matcher, rule: string, literals: Literals, lits: seq<LitId>, parentLits: seq<LitId>): Result<seq<Link>>
    requires forall k :: 0 <= k < |lits| ==> lits[k] in literals
    requires forall k :: 0 <= k < |parentLits| ==> parentLits[k] in literals
  {
    var contents, parentContents := Contents(literals, lits), Contents(literals, parentLits);
    if Case1Rule(rule, |lits|, |parentLits|) then
      match Case1(|lits|, |parentLits|)
      case Err(e) => Err(e)
      case Ok(m) => Ok(LinkPairs(lits, parentLits, m, 0))
    else if Case2Rule(rule, |lits|, |parentLits|) then
      match Case2(matches, contents, parentContents,
                  rule == "equality resolution" || rule == "factoring",
                  rule == "trivial inequality removal" || rule == "duplicate literal removal")
      case Err(e) => Err(e)
      case Ok(m) => Ok(LinkPairs(lits, parentLits, m, 0))
    else if Case3Rule(rule) then
      match Case3(matches, contents, parentContents, rule == "equality factoring", false)
      case Err(e) => Err(e)
      case Ok(m) => Ok(LinkPairs(lits, parentLits, m, 0))
    else Ok([])
  }

  /** Case 1 links literal k of the clause to parent literal k. */
  lemma Case1RuleLinks(matches: Matcher, rule: string, literals: Literals, lits: seq<LitId>, parentLits: seq<LitId>)
    requires forall k :: 0 <= k < |lits| ==> lits[k] in literals
    requires forall k :: 0 <= k < |parentLits| ==> parentLits[k] in literals
    requires Case1Rule(rule, |lits|, |parentLits|)
    requires SingleParentLinks(matches, rule, literals, lits, parentLits).Ok?
    ensures var links := SingleParentLinks(matches, rule, literals, lits, parentLits).value;
            |links| == |lits| == |parentLits| && forall k :: 0 <= k < |lits| ==> links[k] == (lits[k], parentLits[k])
  {
    var m := Case1(|lits|, |parentLits|).value;
    assert SingleParentLinks(matches, rule, literals, lits, parentLits) == Ok(LinkPairs(lits, parentLits, m, 0));
    LinkPairsFull(lits, parentLits, m, 0);
  }

  /** The links of a successful case 2 from the contents of `lits` and `parentLits`: every
      literal, in order, to a parent literal it matches. */
  lemma Case2LinksMatch(matches: Matcher, literals: Literals, lits: seq<LitId>, parentLits: seq<LitId>,
                        allowSubstitutions: bool, allowMultipleRemovals: bool)
    requires forall k :: 0 <= k < |lits| ==> lits[k] in literals
    requires forall k :: 0 <= k < |parentLits| ==> parentLits[k] in literals
    requires Case2(matches, Contents(literals, lits), Contents(literals, parentLits), allowSubstitutions, allowMultipleRemovals).Ok?
    ensures var m := Case2(matches, Contents(literals, lits), Contents(literals, parentLits), allowSubstitutions, allowMultipleRemovals).value;
            var links := LinkPairs(lits, parentLits, m, 0);
            |links| == |lits| &&
            forall k :: 0 <= k < |lits| ==>
              links[k].0 == lits[k] && links[k].1 in parentLits &&
              matches(literals[links[k].0].Content(), literals[links[k].1].Content(), allowSubstitutions) == Ok(true)
  {
    var contents, parentContents := Contents(literals, lits), Contents(literals, parentLits);
    var m := Case2(matches, contents, parentContents, allowSubstitutions, allowMultipleRemovals).value;
    Case2Shape(matches, contents, parentContents, allowSubstitutions, allowMultipleRemovals);
    LinksOfMatchingAssignment(matches, literals, lits, parentLits, allowSubstitutions, m);
  }

  /** The links of an assignment that sends every literal to a parent literal it matches. */
  lemma LinksOfMatchingAssignment(matches: Matcher, literals: Literals, lits: seq<LitId>, parentLits: seq<LitId>,
                                  allowSubstitutions: bool, m: Assignment)
    requires forall k :: 0 <= k < |lits| ==> lits[k] in literals
    requires forall k :: 0 <= k < |parentLits| ==> parentLits[k] in literals
    requires forall l :: l in m <==> 0 <= l < |lits|
    requires forall l :: l in m ==> m[l] < |parentLits|
    requires forall l :: l in m ==>
               matches(Contents(literals, lits)[l], Contents(literals, parentLits)[m[l]], allowSubstitutions) == Ok(true)
    ensures var links := LinkPairs(lits, parentLits, m, 0);
            |links| == |lits| &&
            forall k :: 0 <= k < |lits| ==>
              links[k].0 == lits[k] && links[k].1 in parentLits &&
              matches(literals[links[k].0].Content(), literals[links[k].1].Content(), allowSubstitutions) == Ok(true)
  {
    LinkPairsFull(lits, parentLits, m, 0);
    var links := LinkPairs(lits, parentLits, m, 0);
    forall k | 0 <= k < |lits|
      ensures links[k].0 == lits[k] && links[k].1 in parentLits &&
              matches(literals[links[k].0].Content(), literals[links[k].1].Content(), allowSubstitutions) == Ok(true)
    {
      assert k in m && m[k] < |parentLits|;
      LinkMatches(matches, literals, lits, parentLits, allowSubstitutions, k, m[k], links[k]);
    }
  }

  /** A link from literal k to parent literal j whose contents match. */
  lemma LinkMatches(matches: Matcher, literals: Literals, lits: seq<LitId>, parentLits: seq<LitId>,
                    allowSubstitutions: bool, k: nat, j: nat, link: Link)
    requires forall k :: 0 <= k < |lits| ==> lits[k] in literals
    requires forall k :: 0 <= k < |parentLits| ==> parentLits[k] in literals
    requires k < |lits| && j < |parentLits| && link == (lits[k], parentLits[j])
    requires matches(Contents(literals, lits)[k], Contents(literals, parentLits)[j], allowSubstitutions) == Ok(true)
    ensures link.0 == lits[k] && link.1 in parentLits
    ensures matches(literals[link.0].Content(), literals[link.1].Content(), allowSubstitutions) == Ok(true)
  {
  }

  /** Case 2 links every literal of the clause, in order, to a parent literal it matches. */
  lemma Case2RuleLinks(matches: Matcher, rule: string, literals: Literals, lits: seq<LitId>, parentLits: seq<LitId>)
    requires forall k :: 0 <= k < |lits| ==> lits[k] in literals
    requires forall k :: 0 <= k < |parentLits| ==> parentLits[k] in literals
    requires !Case1Rule(rule, |lits|, |parentLits|) && Case2Rule(rule, |lits|, |parentLits|)
    requires SingleParentLinks(matches, rule, literals, lits, parentLits).Ok?
    ensures var links := SingleParentLinks(matches, rule, literals, lits, parentLits).value;
            |links| == |lits| &&
            forall k :: 0 <= k < |lits| ==>
              links[k].0 == lits[k] && links[k].1 in parentLits &&
              matches(literals[links[k].0].Content(), literals[links[k].1].Content(),
                            rule == "equality resolution" || rule == "factoring") == Ok(true)
  {
    var allowSubstitutions := rule == "equality resolution" || rule == "factoring";
    var allowMultipleRemovals := rule == "trivial inequality removal" || rule == "duplicate literal removal";
    var m := Case2(matches, Contents(literals, lits), Contents(literals, parentLits), allowSubstitutions, allowMultipleRemovals).value;
    assert SingleParentLinks(matches, rule, literals, lits, parentLits) == Ok(LinkPairs(lits, parentLits, m, 0));
    Case2LinksMatch(matches, literals, lits, parentLits, allowSubstitutions, allowMultipleRemovals);
  }

  /** The links of a successful case 3 from the contents of `lits` and `parentLits`. */
  lemma Case3Links(matches: Matcher, literals: Literals, lits: seq<LitId>, parentLits: seq<LitId>,
                   allowSubstitutions: bool, allowSimultaneousSuperposition: bool)
    requires forall k :: 0 <= k < |lits| ==> lits[k] in literals
    requires forall k :: 0 <= k < |parentLits| ==> parentLits[k] in literals
    requires Case3(matches, Contents(literals, lits), Contents(literals, parentLits), allowSubstitutions, allowSimultaneousSuperposition).Ok?
    ensures var m := Case3(matches, Contents(literals, lits), Contents(literals, parentLits), allowSubstitutions, allowSimultaneousSuperposition).value;
            var links := LinkPairs(lits, parentLits, m, 0);
            |links| == |lits| == |parentLits| &&
            forall k :: 1 <= k < |lits| ==> links[k] == (lits[k], parentLits[k - 1]) || links[k] == (lits[k], parentLits[k])
  {
    var contents, parentContents := Contents(literals, lits), Contents(literals, parentLits);
    var m := Case3(matches, contents, parentContents, allowSubstitutions, allowSimultaneousSuperposition).value;
    Case3Shape(matches, contents, parentContents, allowSubstitutions, allowSimultaneousSuperposition);
    forall l | 1 <= l < |lits|
      ensures m[l] == l - 1 || m[l] == l
    {
      if l <= m[0] {
        assert m[l] == l - 1;
      }
    }
    LinksOfNearAssignment(lits, parentLits, m);
  }

  /** An assignment sending every literal after the first to the parent position at or just
      before its own links each of them to one of those two parent literals. */
  lemma LinksOfNearAssignment(lits: seq<LitId>, parentLits: seq<LitId>, m: Assignment)
    requires |lits| == |parentLits| && forall l :: l in m <==> 0 <= l < |lits|
    requires forall l :: l in m ==> m[l] < |lits|
    requires forall l :: 1 <= l < |lits| ==> m[l] == l - 1 || m[l] == l
    ensures var links := LinkPairs(lits, parentLits, m, 0);
            |links| == |lits| &&
            forall k :: 1 <= k < |lits| ==> links[k] == (lits[k], parentLits[k - 1]) || links[k] == (lits[k], parentLits[k])
  {
    LinkPairsFull(lits, parentLits, m, 0);
    var links := LinkPairs(lits, parentLits, m, 0);
    forall k | 1 <= k < |lits|
      ensures links[k] == (lits[k], parentLits[k - 1]) || links[k] == (lits[k], parentLits[k])
    {
      assert links[0 + k] == (lits[0 + k], parentLits[m[0 + k]]);
    }
  }

  /** Case 3 links every literal after the first to the parent literal at its own or the
      previous position. */
  lemma Case3RuleLinks(matches: Matcher, rule: string, literals: Literals, lits: seq<LitId>, parentLits: seq<LitId>)
    requires forall k :: 0 <= k < |lits| ==> lits[k] in literals
    requires forall k :: 0 <= k < |parentLits| ==> parentLits[k] in literals
    requires !Case1Rule(rule, |lits|, |parentLits|) && !Case2Rule(rule, |lits|, |parentLits|) && Case3Rule(rule)
    requires SingleParentLinks(matches, rule, literals, lits, parentLits).Ok?
    ensures var links := SingleParentLinks(matches, rule, literals, lits, parentLits).value;
            |links| == |lits| == |parentLits| &&
            forall k :: 1 <= k < |lits| ==> links[k] == (lits[k], parentLits[k - 1]) || links[k] == (lits[k], parentLits[k])
  {
    var m := Case3(matches, Contents(literals, lits), Contents(literals, parentLits), rule == "equality factoring", false).value;
    assert SingleParentLinks(matches, rule, literals, lits, parentLits) == Ok(LinkPairs(lits, parentLits, m, 0));
    Case3Links(matches, literals, lits, parentLits, rule == "equality factoring", false);
  }

  /** The links of a resolution or superposition: the literals before the split come from
      the left parent, the others from the right one. */
  function TwoParentLinks(matches: Matcher, rule: string, literals: Literals, lits: seq<LitId>, left: seq<LitId>, right: seq<LitId>): Result<seq<Link>>
    requires forall k :: 0 <= k < |lits| ==> lits[k] in literals
    requires forall k :: 0 <= k < |left| ==> left[k] in literals
    requires forall k :: 0 <= k < |right| ==> right[k] in literals
  {
    if |left| == 0 || |right| == 0 then Err(AssertionFailed)
    else if rule == "resolution" then
      if |lits| + 2 != |left| + |right| then Err(AssertionFailed)
      else
        var split := |left| - 1;
        match Case2(matches, Contents(literals, lits[..split]), Contents(literals, left), true, false)
        case Err(e) => Err(e)
        case Ok(m1) =>
          match Case2(matches, Contents(literals, lits[split..]), Contents(literals, right), true, false)
          case Err(e) => Err(e)
          case Ok(m2) => Ok(LinkPairs(lits[..split], left, m1, 0) + LinkPairs(lits[split..], right, m2, 0))
    else
      if |lits| + 1 != |left| + |right| then Err(AssertionFailed)
      else
        var split := |left|;
        match Case3(matches, Contents(literals, lits[..split]), Contents(literals, left), true, true)
        case Err(e) => Err(e)
        case Ok(m1) =>
          match Case2(matches, Contents(literals, lits[split..]), Contents(literals, right), true, false)
          case Err(e) => Err(e)
          case Ok(m2) => Ok(LinkPairs(lits[..split], left, m1, 0) + LinkPairs(lits[split..], right, m2, 0))
  }

  /** A resolution or superposition links the literals before the split (one less than the
      left parent's length for resolution, that length for superposition) into the left
      parent's list and the others into the right parent's list. */
  lemma TwoParentLinksSides(matches: Matcher, rule: string, literals: Literals, lits: seq<LitId>, left: seq<LitId>, right: seq<LitId>)
    requires forall k :: 0 <= k < |lits| ==> lits[k] in literals
    requires forall k :: 0 <= k < |left| ==> left[k] in literals
    requires forall k :: 0 <= k < |right| ==> right[k] in literals
    requires TwoParentLinks(matches, rule, literals, lits, left, right).Ok?
    ensures |left| > 0 && |right| > 0
    ensures rule == "resolution" ==> |lits| + 2 == |left| + |right|
    ensures rule != "resolution" ==> |lits| + 1 == |left| + |right|
    ensures var split := if rule == "resolution" then |left| - 1 else |left|;
            forall l :: l in TwoParentLinks(matches, rule, literals, lits, left, right).value ==>
              (l.0 in lits[..split] && l.1 in left) || (l.0 in lits[split..] && l.1 in right)
  {
  }

  /** The links `computeParentLiterals` makes for one node: none for boundary nodes,
      formulas, other rules, or parents that are not clauses. */
  function NodeLinks(matches: Matcher, nodes: SatNodes, literals: Literals, node: SatNode): Result<seq<Link>>
    requires Stored(nodes, literals)
    requires node.unit.ClauseUnit? ==> ClauseStored(node.unit.clause, literals)
  {
    if node.isBoundary || !node.unit.ClauseUnit? then Ok([])
    else if SingleParentRule(node.inferenceRule, |node.parents|) then
      SingleParentNodeLinks(matches, nodes, literals, node)
    else if node.inferenceRule == "resolution" || node.inferenceRule == "superposition" then
      TwoParentNodeLinks(matches, nodes, literals, node)
    else Ok([])
  }

  /** The links of a clause derived from one parent: the parent's literals as the clause saw
      them, matched against the clause's new literals. */
  function SingleParentNodeLinks(matches: Matcher, nodes: SatNodes, literals: Literals, node: SatNode): Result<seq<Link>>
    requires Stored(nodes, literals) && node.unit.ClauseUnit? && ClauseStored(node.unit.clause, literals)
  {
    if |node.parents| == 0 then Err(AssertionFailed)
    else
      match Get(nodes, node.parents[0])
      case Err(e) => Err(e)
      case Ok(parent) =>
        if !parent.unit.ClauseUnit? then Ok([])
        else if node.newTime.None? || parent.newTime.None? then Err(AssertionFailed)
        else
          match ParentList(parent.unit.clause, parent.activeTime, node.newTime.value)
          case Err(e) => Err(e)
          case Ok(parentLits) =>
            SingleParentLinks(matches, node.inferenceRule, literals, node.unit.clause.literalsNewEvent, parentLits)
  }

  /** The links of a resolvent or superposition: both parents' literals as the clause saw
      them, matched against the clause's new literals. */
  function TwoParentNodeLinks(matches: Matcher, nodes: SatNodes, literals: Literals, node: SatNode): Result<seq<Link>>
    requires Stored(nodes, literals) && node.unit.ClauseUnit? && ClauseStored(node.unit.clause, literals)
  {
    if |node.parents| != 2 then Err(AssertionFailed)
    else
      match Get(nodes, node.parents[0])
      case Err(e) => Err(e)
      case Ok(leftNode) =>
        match Get(nodes, node.parents[1])
        case Err(e) => Err(e)
        case Ok(rightNode) =>
          if !leftNode.unit.ClauseUnit? || !rightNode.unit.ClauseUnit? then Ok([])
          else if node.newTime.None? || leftNode.newTime.None? || rightNode.newTime.None? then Err(AssertionFailed)
          else
            match ParentList(leftNode.unit.clause, leftNode.activeTime, node.newTime.value)
            case Err(e) => Err(e)
            case Ok(left) =>
              match ParentList(rightNode.unit.clause, rightNode.activeTime, node.newTime.value)
              case Err(e) => Err(e)
              case Ok(right) =>
                TwoParentLinks(matches, node.inferenceRule, literals, node.unit.clause.literalsNewEvent, left, right)
  }

  /** `SingleParentLinks` with the case loops. */
  method SingleParentLinksOf(matches: Matcher, rule: string, literals: Literals, lits: seq<LitId>, parentLits: seq<LitId>) returns (r: Result<seq<Link>>)
    requires forall k :: 0 <= k < |lits| ==> lits[k] in literals
    requires forall k :: 0 <= k < |parentLits| ==> parentLits[k] in literals
    ensures r == SingleParentLinks(matches, rule, literals, lits, parentLits)
  {
    var contents, parentContents := Contents(literals, lits), Contents(literals, parentLits);
    var m: Result<Assignment>;
    if Case1Rule(rule, |lits|, |parentLits|) {
      m := ComputeParentLiteralsCase1(|lits|, |parentLits|);
    } else if Case2Rule(rule, |lits|, |parentLits|) {
      m := ComputeParentLiteralsCase2(matches, contents, parentContents,
                                      rule == "equality resolution" || rule == "factoring",
                                      rule == "trivial inequality removal" || rule == "duplicate literal removal");
    } else if Case3Rule(rule) {
      m := ComputeParentLiteralsCase3(matches, contents, parentContents, rule == "equality factoring", false);
    } else {
      return Ok([]);
    }
    if m.Err? {
      return Err(m.error);
    }
    return Ok(LinkPairs(lits, parentLits, m.value, 0));
  }

  /** `TwoParentLinks` with the case loops. */
  method TwoParentLinksOf(matches: Matcher, rule: string, literals: Literals, lits: seq<LitId>, left: seq<LitId>, right: seq<LitId>) returns (r: Result<seq<Link>>)
    requires forall k :: 0 <= k < |lits| ==> lits[k] in literals
    requires forall k :: 0 <= k < |left| ==> left[k] in literals
    requires forall k :: 0 <= k < |right| ==> right[k] in literals
    ensures r == TwoParentLinks(matches, rule, literals, lits, left, right)
  {
    if |left| == 0 || |right| == 0 {
      return Err(AssertionFailed);
    }
    var split: nat;
    var m1: Result<Assignment>;
    if rule == "resolution" {
      if |lits| + 2 != |left| + |right| {
        return Err(AssertionFailed);
      }
      split := |left| - 1;
      m1 := ComputeParentLiteralsCase2(matches, Contents(literals, lits[..split]), Contents(literals, left), true, false);
    } else {
      if |lits| + 1 != |left| + |right| {
        return Err(AssertionFailed);
      }
      split := |left|;
      m1 := ComputeParentLiteralsCase3(matches, Contents(literals, lits[..split]), Contents(literals, left), true, true);
    }
    if m1.Err? {
      return Err(m1.error);
    }
    var m2 := ComputeParentLiteralsCase2(matches, Contents(literals, lits[split..]), Contents(literals, right), true, false);
    if m2.Err? {
      return Err(m2.error);
    }
    return Ok(LinkPairs(lits[..split], left, m1.value, 0) + LinkPairs(lits[split..], right, m2.value, 0));
  }

  /** The body of the loop of `computeParentLiterals` for one node, with the case loops. */
  method NodeLinksOf(matches: Matcher, nodes: SatNodes, literals: Literals, node: SatNode) returns (r: Result<seq<Link>>)
    requires Stored(nodes, literals)
    requires node.unit.ClauseUnit? ==> ClauseStored(node.unit.clause, literals)
    ensures r == NodeLinks(matches, nodes, literals, node)
  {
    if node.isBoundary || !node.unit.ClauseUnit? {
      r := Ok([]);
    } else if SingleParentRule(node.inferenceRule, |node.parents|) {
      r := SingleParentNodeLinksOf(matches, nodes, literals, node);
    } else if node.inferenceRule == "resolution" || node.inferenceRule == "superposition" {
      r := TwoParentNodeLinksOf(matches, nodes, literals, node);
    } else {
      r := Ok([]);
    }
  }

  /** The one-parent branch of the loop body. */
  method SingleParentNodeLinksOf(matches: Matcher, nodes: SatNodes, literals: Literals, node: SatNode) returns (r: Result<seq<Link>>)
    requires Stored(nodes, literals) && node.unit.ClauseUnit? && ClauseStored(node.unit.clause, literals)
    ensures r == SingleParentNodeLinks(matches, nodes, literals, node)
  {
    var lits := node.unit.clause.literalsNewEvent;
    if |node.parents| == 0 {
      return Err(AssertionFailed);
    }
    var parent := Get(nodes, node.parents[0]);
    if parent.Err? {
      return Err(parent.error);
    }
    if !parent.value.unit.ClauseUnit? {
      return Ok([]);
    }
    if node.newTime.None? || parent.value.newTime.None? {
      return Err(AssertionFailed);
    }
    var parentLits := ParentList(parent.value.unit.clause, parent.value.activeTime, node.newTime.value);
    if parentLits.Err? {
      return Err(parentLits.error);
    }
    r := SingleParentLinksOf(matches, node.inferenceRule, literals, lits, parentLits.value);
  }

  /** The two-parent branch of the loop body. */
  method TwoParentNodeLinksOf(matches: Matcher, nodes: SatNodes, literals: Literals, node: SatNode) returns (r: Result<seq<Link>>)
    requires Stored(nodes, literals) && node.unit.ClauseUnit? && ClauseStored(node.unit.clause, literals)
    ensures r == TwoParentNodeLinks(matches, nodes, literals, node)
  {
    var lits := node.unit.clause.literalsNewEvent;
    if |node.parents| != 2 {
      return Err(AssertionFailed);
    }
    var leftNode := Get(nodes, node.parents[0]);
    if leftNode.Err? {
      return Err(leftNode.error);
    }
    var rightNode := Get(nodes, node.parents[1]);
    if rightNode.Err? {
      return Err(rightNode.error);
    }
    if !leftNode.value.unit.ClauseUnit? || !rightNode.value.unit.ClauseUnit? {
      return Ok([]);
    }
    if node.newTime.None? || leftNode.value.newTime.None? || rightNode.value.newTime.None? {
      return Err(AssertionFailed);
    }
    var left := ParentList(leftNode.value.unit.clause, leftNode.value.activeTime, node.newTime.value);
    if left.Err? {
      return Err(left.error);
    }
    var right := ParentList(rightNode.value.unit.clause, rightNode.value.activeTime, node.newTime.value);
    if right.Err? {
      return Err(right.error);
    }
    r := TwoParentLinksOf(matches, node.inferenceRule, literals, lits, left.value, right.value);
  }

  /** `literal.setLiteralInParent(parentLiteral)` in the arena. */
  function SetLink(literals: Literals, link: Link): Literals
  {
    if link.0 in literals then literals[link.0 := literals[link.0].(literalInParent := Some(link.1))] else literals
  }

  /** The links applied one after the other. */
  function Linked(literals: Literals, links: seq<Link>): Literals
    decreases |links|
  {
    if links == [] then literals else Linked(SetLink(literals, links[0]), links[1..])
  }

  /** The parent literal the last link for `a` names, if any. */
  function LastLink(links: seq<Link>, a: LitId): Option<LitId>
    decreases |links|
  {
    if links == [] then None
    else
      match LastLink(links[1..], a)
      case Some(b) => Some(b)
      case None => if links[0].0 == a then Some(links[0].1) else None
  }

  /** Linking changes nothing but `literalInParent`, and each literal ends up with the
      parent literal of its last link, or keeps its old one when no link names it. */
  lemma {:induction false} LinkedSetsLastLink(literals: Literals, links: seq<Link>)
    ensures Linked(literals, links).Keys == literals.Keys
    ensures forall a :: a in literals ==>
              Linked(literals, links)[a] ==
              literals[a].(literalInParent := if LastLink(links, a).Some? then LastLink(links, a) else literals[a].literalInParent)
    decreases |links|
  {
    if links != [] {
      LinkedSetsLastLink(SetLink(literals, links[0]), links[1..]);
    }
  }

  /** Applying links to the dag's literals. */
  method SetLiteralsInParent(dag: SatDag, links: seq<Link>)
    modifies dag
    ensures dag.literals == Linked(old(dag.literals), links)
    ensures dag.nodes == old(dag.nodes)
  {
    for i := 0 to |links|
      invariant Linked(dag.literals, links[i..]) == Linked(old(dag.literals), links)
      invariant dag.nodes == old(dag.nodes)
    {
      assert links[i..][1..] == links[i + 1..];
      dag.literals := SetLink(dag.literals, links[i]);
    }
  }

  /** The arena after the nodes of `order` were linked one after the other, the links being
      computed from the literal contents of `arena`. */
  function LinkAll(matches: Matcher, nodes: SatNodes, arena: Literals, literals: Literals, order: seq<int>): Result<Literals>
    requires Stored(nodes, arena)
    requires forall k :: 0 <= k < |order| ==> order[k] in nodes
    decreases |order|
  {
    if order == [] then Ok(literals)
    else
      StoredNode(nodes, arena, order[0]);
      match NodeLinks(matches, nodes, arena, nodes[order[0]])
      case Err(e) => Err(e)
      case Ok(links) => LinkAll(matches, nodes, arena, Linked(literals, links), order[1..])
  }

  /** `computeParentLiterals`: every node of the dag, in the order of `order` (the insertion
      order of the node map), gets its literals linked to their parent literals. */
  method ComputeParentLiterals(matches: Matcher, dag: SatDag, order: seq<int>) returns (r: Result<()>)
    requires Stored(dag.nodes, dag.literals)
    requires Dags.Enumerates(order, dag.nodes.Keys)
    modifies dag
    ensures dag.nodes == old(dag.nodes)
    ensures var spec := LinkAll(matches, old(dag.nodes), old(dag.literals), old(dag.literals), order);
            if spec.Ok? then r == Ok(()) && dag.literals == spec.value else r == Err(spec.error)
  {
    var arena := dag.literals;
    for i := 0 to |order|
      invariant dag.nodes == old(dag.nodes)
      invariant LinkAll(matches, dag.nodes, arena, arena, order) == LinkAll(matches, dag.nodes, arena, dag.literals, order[i..])
    {
      assert order[i..][1..] == order[i + 1..];
      StoredNode(dag.nodes, arena, order[i]);
      var links := NodeLinksOf(matches, dag.nodes, arena, dag.nodes[order[i]]);
      if links.Err? {
        return Err(links.error);
      }
      SetLiteralsInParent(dag, links.value);
    }
    return Ok(());
  }
}
