/** How the Flask-era visualiser colours a node at a point of the history
    (proof_visualization/controller/representation_util.py): theory axioms get their own
    colours, an activated clause is drawn as active, a clause only put into the passive set as
    passive, and a clause the saturation has not reached yet either as preprocessing or not at
    all. Times are Python values that may be `None`; a time of 0 is falsy and counts as unset. */
module Representation {
  import opened Wrappers

  /** The keys of `REPRESENTATIONS`. */
  datatype Kind = Active | Passive | ActiveTheoryAxiom | PassiveTheoryAxiom | Preprocessing | Hidden

  /** A colour scheme: background, border, text, shape, highlight. */
  datatype Style = Style(background: string, border: string, text: string, shape: string, highlight: string)

  const TheoryAxiomRule := "theory axiom"
  const PreprocessingLabel := "Preproc"

  /** The `REPRESENTATIONS` table. */
  function StyleOf(k: Kind): (r: Style)
    ensures r.shape == "box"
    ensures k == Hidden <==> r.background == "#ffffff00"
  {
    match k
    case Active => Style("#dddddd", "#bbbbbb", "#000000", "box", "#ee8866")
    case Passive => Style("#eeeeee", "#dddddd", "#000000", "box", "#f6c3b2")
    case ActiveTheoryAxiom => Style("#77aadd", "#4477aa", "#000000", "box", "#ee8866")
    case PassiveTheoryAxiom => Style("#bbd4ee", "#bbd4ee", "#000000", "box", "#f6c3b2")
    case Preprocessing => Style("#44bb99", "#009988", "#000000", "box", "#ee8866")
    case Hidden => Style("#ffffff00", "#ffffff00", "#ffffff00", "box", "#ffffff00")
  }

  /** `t and t <= history_state`: the time is set, not 0, and not after the state shown. */
  predicate Reached(t: Option<int>, historyState: int)
  {
    t.Some? && t.value != 0 && t.value <= historyState
  }

  /** `compute_representation`. */
  function ComputeRepresentation(inferenceRule: string, activeTime: Option<int>, passiveTime: Option<int>,
                                 historyState: int): (r: Kind)
    ensures r in {ActiveTheoryAxiom, PassiveTheoryAxiom} ==> inferenceRule == TheoryAxiomRule
    ensures r in {Active, ActiveTheoryAxiom} <==> Reached(activeTime, historyState)
    ensures r in {Passive, PassiveTheoryAxiom} <==> !Reached(activeTime, historyState) && Reached(passiveTime, historyState)
    ensures r == Preprocessing <==>
              !Reached(activeTime, historyState) && !Reached(passiveTime, historyState) && inferenceRule == PreprocessingLabel
    ensures inferenceRule == TheoryAxiomRule && Reached(activeTime, historyState) ==> r == ActiveTheoryAxiom
    ensures inferenceRule == TheoryAxiomRule && Reached(passiveTime, historyState) ==> r != Passive
  {
    if inferenceRule == TheoryAxiomRule && Reached(activeTime, historyState) then ActiveTheoryAxiom
    else if inferenceRule == TheoryAxiomRule && Reached(passiveTime, historyState) then PassiveTheoryAxiom
    else if Reached(activeTime, historyState) then Active
    else if Reached(passiveTime, historyState) then Passive
    else if inferenceRule == PreprocessingLabel then Preprocessing
    else Hidden
  }

  /** How far along its life the picture shows a node: not reached, passive, active. */
  function Stage(k: Kind): nat
  {
    match k
    case Active | ActiveTheoryAxiom => 2
    case Passive | PassiveTheoryAxiom => 1
    case Preprocessing | Hidden => 0
  }

  /** Moving the history forward never takes a node back: active stays active, passive
      becomes passive or active, and the theory-axiom colouring does not change sides. */
  lemma {:induction false} LaterStateNeverRegresses(inferenceRule: string, activeTime: Option<int>,
                                                    passiveTime: Option<int>, earlier: int, later: int)
    requires earlier <= later
    ensures var before := ComputeRepresentation(inferenceRule, activeTime, passiveTime, earlier);
            var after := ComputeRepresentation(inferenceRule, activeTime, passiveTime, later);
            Stage(before) <= Stage(after) &&
            (before in {ActiveTheoryAxiom, PassiveTheoryAxiom} ==> after in {ActiveTheoryAxiom, PassiveTheoryAxiom}) &&
            (before == Preprocessing ==> after != Hidden)
  {
    assert Reached(activeTime, earlier) ==> Reached(activeTime, later);
    assert Reached(passiveTime, earlier) ==> Reached(passiveTime, later);
  }

  /** A time of 0 counts as no time: such a node is coloured as if the field were `None`. */
  lemma ZeroIsUnset(inferenceRule: string, passiveTime: Option<int>, historyState: int)
    ensures ComputeRepresentation(inferenceRule, Some(0), passiveTime, historyState) ==
            ComputeRepresentation(inferenceRule, None, passiveTime, historyState)
  {
  }
}
