/** The life of a clause as the saturation loop reports it: it is created (new), put on the
    passive queue, selected (active), and possibly deleted, with the nodes whose inferences
    deleted it recorded afterwards. The node classes' setters guard each step with assertions;
    this module states those guards once, as a step function, and proves what every sequence of
    successful steps looks like. */
module Lifecycle {
  import opened Wrappers

  /** The clock readings a node collects; `None` is Python's `None` and JavaScript's
      `undefined`. */
  datatype Stamps = Stamps(newTime: Option<int>, passiveTime: Option<int>, activeTime: Option<int>,
                           deletionTime: Option<int>, deletionParents: Option<seq<int>>)

  /** The readings of a node just constructed: all unset. */
  function Fresh(): Stamps { Stamps(None, None, None, None, None) }

  /** One setter call: set_new_time, set_passive_time, set_active_time, set_deletion_time,
      add_deletion_parent. */
  datatype Event = New(time: int) | Passive(time: int) | Active(time: int) | Deletion(time: int) | DeletionParent(id: int)

  /** The new time requires all three times unset. */
  predicate CanSetNew(s: Stamps) { s.newTime.None? && s.passiveTime.None? && s.activeTime.None? }
  /** The passive time requires the new time set and the passive and active times unset. */
  predicate CanSetPassive(s: Stamps) { s.newTime.Some? && s.passiveTime.None? && s.activeTime.None? }
  /** The active time requires the new and passive times set and the active time unset. */
  predicate CanSetActive(s: Stamps) { s.newTime.Some? && s.passiveTime.Some? && s.activeTime.None? }
  /** The deletion time requires the new time set and the deletion time unset. */
  predicate CanSetDeletion(s: Stamps) { s.newTime.Some? && s.deletionTime.None? }

  /** The readings that successful setter calls can leave: passive after new, active after
      passive, deletion after new, and a deletion-parent list exactly when deleted. */
  predicate Ordered(s: Stamps)
  {
    (s.passiveTime.Some? ==> s.newTime.Some?) &&
    (s.activeTime.Some? ==> s.passiveTime.Some?) &&
    (s.deletionTime.Some? ==> s.newTime.Some?) &&
    (s.deletionTime.Some? <==> s.deletionParents.Some?)
  }

  /** One setter: the new readings, or the failed assertion. add_deletion_parent asserts only
      the deletion time; appending to an unset list would raise as well. */
  function Step(s: Stamps, e: Event): (r: Result<Stamps>)
    ensures r.Ok? && Ordered(s) ==> Ordered(r.value)
  {
    match e
    case New(t) => if CanSetNew(s) then Ok(s.(newTime := Some(t))) else Err(AssertionFailed)
    case Passive(t) => if CanSetPassive(s) then Ok(s.(passiveTime := Some(t))) else Err(AssertionFailed)
    case Active(t) => if CanSetActive(s) then Ok(s.(activeTime := Some(t))) else Err(AssertionFailed)
    case Deletion(t) =>
      if CanSetDeletion(s) then Ok(s.(deletionTime := Some(t), deletionParents := Some([])))
      else Err(AssertionFailed)
    case DeletionParent(p) =>
      if s.deletionTime.None? then Err(AssertionFailed)
      else if s.deletionParents.None? then Err(BadType)
      else Ok(s.(deletionParents := Some(s.deletionParents.value + [p])))
  }

  /** The setters called in order; the first failed assertion ends the run. */
  function Run(s: Stamps, es: seq<Event>): (r: Result<Stamps>)
  {
    if |es| == 0 then Ok(s)
    else
      var before := Run(s, es[..|es| - 1]);
      if before.Err? then before else Step(before.value, es[|es| - 1])
  }

  /** Every run of setters from a fresh node leaves ordered readings. */
  lemma {:induction false} RunKeepsOrdered(es: seq<Event>)
    requires Run(Fresh(), es).Ok?
    ensures Ordered(Run(Fresh(), es).value)
  {
    if |es| > 0 {
      RunKeepsOrdered(es[..|es| - 1]);
    }
  }

  /** A run followed by one more setter call, or by none. */
  lemma RunOptional(s: Stamps, es: seq<Event>, present: bool, e: Event)
    ensures Run(s, es + (if present then [e] else [])) ==
            if !present || Run(s, es).Err? then Run(s, es) else Step(Run(s, es).value, e)
  {
    if present {
      assert (es + [e])[..|es|] == es;
    } else {
      assert es + [] == es;
    }
  }

  /** A run that succeeds succeeded on every prefix. */
  lemma {:induction false} RunPrefix(s: Stamps, es: seq<Event>, j: nat)
    requires j <= |es| && Run(s, es).Ok?
    ensures Run(s, es[..j]).Ok?
  {
    if j < |es| {
      assert es[..|es| - 1][..j] == es[..j];
      RunPrefix(s, es[..|es| - 1], j);
    } else {
      assert es[..j] == es;
    }
  }

  /** Once a setter call fails, the run stays failed. */
  lemma {:induction false} RunFailureSticks(s: Stamps, es: seq<Event>, j: nat)
    requires j <= |es| && Run(s, es[..j]).Err?
    ensures Run(s, es).Err?
  {
    if j < |es| {
      assert es[..|es| - 1][..j] == es[..j];
      RunFailureSticks(s, es[..|es| - 1], j);
    } else {
      assert es[..j] == es;
    }
  }

  /** The kinds of setter call, for counting. */
  datatype Kind = NewKind | PassiveKind | ActiveKind | DeletionKind | DeletionParentKind

  function KindOf(e: Event): Kind
  {
    match e
    case New(_) => NewKind
    case Passive(_) => PassiveKind
    case Active(_) => ActiveKind
    case Deletion(_) => DeletionKind
    case DeletionParent(_) => DeletionParentKind
  }

  /** How many calls of one kind a sequence holds. */
  function Count(es: seq<Event>, k: Kind): (n: nat)
    ensures n <= |es|
  {
    if |es| == 0 then 0 else Count(es[..|es| - 1], k) + (if KindOf(es[|es| - 1]) == k then 1 else 0)
  }

  function CountOfSet(o: Option<int>): nat { if o.Some? then 1 else 0 }

  /** In a successful run from a fresh node, each of the four times was set once if it is set
      and never otherwise: no setter succeeds twice. */
  lemma {:induction false} SetAtMostOnce(es: seq<Event>)
    requires Run(Fresh(), es).Ok?
    ensures var s := Run(Fresh(), es).value;
            Count(es, NewKind) == CountOfSet(s.newTime) && Count(es, PassiveKind) == CountOfSet(s.passiveTime) &&
            Count(es, ActiveKind) == CountOfSet(s.activeTime) && Count(es, DeletionKind) == CountOfSet(s.deletionTime)
  {
    if |es| > 0 {
      SetAtMostOnce(es[..|es| - 1]);
    }
  }

  /** The times a successful run leaves are the times its calls passed. */
  lemma {:induction false} TimesComeFromCalls(es: seq<Event>)
    requires Run(Fresh(), es).Ok?
    ensures var s := Run(Fresh(), es).value;
            (forall t :: s.newTime == Some(t) <==> New(t) in es) &&
            (forall t :: s.passiveTime == Some(t) <==> Passive(t) in es) &&
            (forall t :: s.activeTime == Some(t) <==> Active(t) in es) &&
            (forall t :: s.deletionTime == Some(t) <==> Deletion(t) in es)
  {
    if |es| > 0 {
      var init := es[..|es| - 1];
      TimesComeFromCalls(init);
      SetAtMostOnce(init);
      assert es == init + [es[|es| - 1]];
      var before := Run(Fresh(), init).value;
      CountNoneAbsent(init, before);
    }
  }

  /** A kind counted zero times does not occur. */
  lemma {:induction false} CountZero(es: seq<Event>, k: Kind, e: Event)
    requires Count(es, k) == 0 && KindOf(e) == k
    ensures e !in es
  {
    if |es| > 0 {
      assert es == es[..|es| - 1] + [es[|es| - 1]];
      CountZero(es[..|es| - 1], k, e);
    }
  }

  lemma CountNoneAbsent(init: seq<Event>, s: Stamps)
    requires Count(init, NewKind) == CountOfSet(s.newTime) && Count(init, PassiveKind) == CountOfSet(s.passiveTime)
    requires Count(init, ActiveKind) == CountOfSet(s.activeTime) && Count(init, DeletionKind) == CountOfSet(s.deletionTime)
    ensures s.newTime.None? ==> forall t :: New(t) !in init
    ensures s.passiveTime.None? ==> forall t :: Passive(t) !in init
    ensures s.activeTime.None? ==> forall t :: Active(t) !in init
    ensures s.deletionTime.None? ==> forall t :: Deletion(t) !in init
  {
    forall t ensures s.newTime.None? ==> New(t) !in init { if s.newTime.None? { CountZero(init, NewKind, New(t)); } }
    forall t ensures s.passiveTime.None? ==> Passive(t) !in init { if s.passiveTime.None? { CountZero(init, PassiveKind, Passive(t)); } }
    forall t ensures s.activeTime.None? ==> Active(t) !in init { if s.activeTime.None? { CountZero(init, ActiveKind, Active(t)); } }
    forall t ensures s.deletionTime.None? ==> Deletion(t) !in init { if s.deletionTime.None? { CountZero(init, DeletionKind, Deletion(t)); } }
  }

  /** The ids the deletion-parent calls passed, in order. */
  function DeletionIds(es: seq<Event>): (ids: seq<int>)
    ensures |ids| <= |es|
  {
    if |es| == 0 then []
    else DeletionIds(es[..|es| - 1]) + (if es[|es| - 1].DeletionParent? then [es[|es| - 1].id] else [])
  }

  /** A deleted node's deletion-parent list holds exactly the ids the deletion-parent calls of
      the run passed, in call order; a node never deleted had no such call succeed. */
  lemma {:induction false} DeletionParentsFromCalls(es: seq<Event>)
    requires Run(Fresh(), es).Ok?
    ensures var s := Run(Fresh(), es).value;
            (s.deletionTime.Some? ==> s.deletionParents == Some(DeletionIds(es))) &&
            (s.deletionTime.None? ==> DeletionIds(es) == [])
  {
    if |es| > 0 {
      var init := es[..|es| - 1];
      DeletionParentsFromCalls(init);
      var before := Run(Fresh(), init).value;
      if !es[|es| - 1].DeletionParent? {
        assert DeletionIds(es) == DeletionIds(init) + [];
        if before.deletionTime.None? && es[|es| - 1].Deletion? {
          assert Run(Fresh(), es).value.deletionParents == Some([]);
          assert DeletionIds(es) == [];
        } else {
          assert Run(Fresh(), es).value.deletionParents == before.deletionParents;
          assert Run(Fresh(), es).value.deletionTime == before.deletionTime;
          assert before.deletionTime.Some? ==> before.deletionParents == Some(DeletionIds(init));
          assert DeletionIds(es) == DeletionIds(init);
        }
      }
    }
  }

  /** The order of a successful run: every passive call comes after the new call, every active
      call after the passive call, and the deletion time and deletion parents after the new
      time and the deletion time respectively. */
  lemma RunOrder(es: seq<Event>, j: nat)
    requires j < |es| && Run(Fresh(), es).Ok?
    ensures es[j].Passive? ==> Count(es[..j], NewKind) == 1
    ensures es[j].Active? ==> Count(es[..j], PassiveKind) == 1
    ensures es[j].Deletion? ==> Count(es[..j], NewKind) == 1
    ensures es[j].DeletionParent? ==> Count(es[..j], DeletionKind) == 1
  {
    RunPrefix(Fresh(), es, j + 1);
    var pre := es[..j + 1];
    assert pre[..|pre| - 1] == es[..j] && pre[|pre| - 1] == es[j];
    SetAtMostOnce(es[..j]);
  }
}
