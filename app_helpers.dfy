/** The two request helpers of the newer Flask backend (visualization-backend/app.py): moving
    the history slider one step, back, or to a position, clamped to the steps the dag has; and
    reading a comma-separated node selection. The request and the session are Flask objects;
    here the request's parameters are a map and the session an object with the two entries the
    helper touches. */
module AppHelpers {
  import opened Wrappers
  import opened Text
  import Dags

  /** A request's query parameters. */
  type Params = map<string, string>

  /** `request_params.get(key)` is truthy: the parameter is present and not empty. */
  predicate Truthy(params: Params, key: string) { key in params && params[key] != "" }

  /** The session entries the helper reads and writes. */
  class AppSession {
    var historyState: int
    var dags: seq<Dags.Dag>

    constructor (historyState: int, dags: seq<Dags.Dag>)
      ensures this.historyState == historyState && this.dags == dags
    {
      this.historyState := historyState;
      this.dags := dags;
    }
  }

  /** The candidate state before clamping: one step on, one step back, the slider's position,
      or 0, with that precedence. Only a slider value `int()` rejects fails. */
  function Candidate(params: Params, previous: int): (r: Result<int>)
    ensures r.Err? <==> !Truthy(params, "increase") && !Truthy(params, "decrease") &&
                        Truthy(params, "slide") && ParsePyInt(params["slide"]).None?
  {
    if Truthy(params, "increase") then Ok(previous + 1)
    else if Truthy(params, "decrease") then Ok(previous - 1)
    else if Truthy(params, "slide") then
      (match ParsePyInt(params["slide"])
       case Some(v) => Ok(v)
       case None => Err(BadInteger))
    else Ok(0)
  }

  /** `min(max(0, candidate), last_step)`. */
  function Clamp(candidate: int, lastStep: int): int
  {
    var lower := if candidate > 0 then candidate else 0;
    if lower < lastStep then lower else lastStep
  }

  /** The state the helper stores, given the previous state and the first dag of the session.
      It always lies between 0 and the dag's last step; a step on from the last step stays
      there; one back from 0 stays at 0; a slider position inside the range is taken as is. */
  function NewHistoryState(params: Params, previous: int, dag: Dags.Dag): (r: Result<int>)
    ensures r.Ok? <==> Candidate(params, previous).Ok?
    ensures r.Ok? ==> 0 <= r.value <= Dags.LastStep(dag)
    ensures Truthy(params, "increase") && previous >= Dags.LastStep(dag) ==> r == Ok(Dags.LastStep(dag))
    ensures Truthy(params, "increase") && 0 <= previous < Dags.LastStep(dag) ==> r == Ok(previous + 1)
    ensures !Truthy(params, "increase") && Truthy(params, "decrease") && previous <= 1 ==> r == Ok(0)
    ensures Candidate(params, previous).Ok? && 0 <= Candidate(params, previous).value <= Dags.LastStep(dag) ==>
              r == Candidate(params, previous)
  {
    match Candidate(params, previous)
    case Ok(c) => Ok(Clamp(c, Dags.LastStep(dag)))
    case Err(e) => Err(e)
  }

  /** `_calculate_new_history_state`: writes the new state into the session and nothing else.
      A slider value that is not an integer, or a session without dags, raises before the
      write. */
  method CalculateNewHistoryState(session: AppSession, params: Params) returns (r: Result<()>)
    modifies session`historyState
    ensures r.Ok? <==> |session.dags| > 0 && Candidate(params, old(session.historyState)).Ok?
    ensures r.Ok? ==> Ok(session.historyState) == NewHistoryState(params, old(session.historyState), session.dags[0])
    ensures r.Err? ==> session.historyState == old(session.historyState)
  {
    var candidate := Candidate(params, session.historyState);
    if candidate.Err? {
      return Err(candidate.error);
    }
    var historyState := if candidate.value > 0 then candidate.value else 0;
    if |session.dags| == 0 {
      return Err(IndexOutOfRange);
    }
    var lastStep := Dags.LastStep(session.dags[0]);
    historyState := if historyState < lastStep then historyState else lastStep;
    session.historyState := historyState;
    r := Ok(());
  }

  /** `_as_list`: no selection for an absent or empty string, otherwise the comma-separated
      pieces read as integers, in order; one piece `int()` rejects fails the whole list. */
  function AsList(selection: Option<string>): (r: Result<seq<int>>)
    ensures selection.None? || selection.value == "" ==> r == Ok([])
    ensures selection.Some? && selection.value != "" ==>
              (r.Ok? <==> AllIntegers(Split(selection.value, ','))) &&
              (r.Ok? ==> ReadAs(Split(selection.value, ','), r.value))
  {
    if selection.None? || selection.value == "" then Ok([])
    else ParseAll(Split(selection.value, ','))
  }

  /** Every piece is a numeral `int()` accepts. */
  predicate AllIntegers(pieces: seq<string>)
  {
    forall k :: 0 <= k < |pieces| ==> ParsePyInt(pieces[k]).Some?
  }

  /** `values` are the pieces read one by one. */
  predicate ReadAs(pieces: seq<string>, values: seq<int>)
  {
    |values| == |pieces| && forall k :: 0 <= k < |pieces| ==> ParsePyInt(pieces[k]) == Some(values[k])
  }

  /** Each piece read as an integer, or the failure of the first that is not one. */
  function ParseAll(pieces: seq<string>): (r: Result<seq<int>>)
    ensures r.Ok? <==> AllIntegers(pieces)
    ensures r.Ok? ==> ReadAs(pieces, r.value)
  {
    if AllIntegers(pieces) then Ok(seq(|pieces|, k requires 0 <= k < |pieces| => ParsePyInt(pieces[k]).value))
    else Err(BadInteger)
  }

  /** The ids as the frontend sends them: decimal numerals joined by commas. */
  function SelectionString(ids: seq<nat>): string
  {
    Join(Numerals(ids), ",")
  }

  function Numerals(ids: seq<nat>): (r: seq<string>)
    ensures |r| == |ids| && forall k :: 0 <= k < |ids| ==> r[k] == NatToString(ids[k])
  {
    if |ids| == 0 then [] else [NatToString(ids[0])] + Numerals(ids[1..])
  }

  /** Reading a selection the frontend wrote gives back its ids. */
  lemma SelectionRoundTrip(ids: seq<nat>)
    ensures AsList(Some(SelectionString(ids))) == Ok(ids)
  {
    var pieces := Numerals(ids);
    if |ids| == 0 {
      assert SelectionString(ids) == "";
    } else {
      NumeralsRead(ids);
      SplitJoin(pieces, ',');
      JoinNonEmpty(pieces, ",");
      assert AsList(Some(SelectionString(ids))) == ParseAll(pieces);
      ReadAsUnique(pieces, ParseAll(pieces).value, ids);
    }
  }

  /** The numerals contain no comma and `int()` reads each back as its id. */
  lemma NumeralsRead(ids: seq<nat>)
    ensures ReadAs(Numerals(ids), ids)
    ensures forall k :: 0 <= k < |ids| ==> ',' !in Numerals(ids)[k]
  {
    var pieces := Numerals(ids);
    forall k | 0 <= k < |pieces|
      ensures ',' !in pieces[k] && ParsePyInt(pieces[k]) == Some(ids[k] as int)
    {
      assert AllDigits(pieces[k]);
      ParsePyIntOfNat(ids[k]);
    }
  }

  /** The pieces determine what they are read as. */
  lemma ReadAsUnique(pieces: seq<string>, a: seq<int>, b: seq<int>)
    requires ReadAs(pieces, a) && ReadAs(pieces, b)
    ensures a == b
  {
    forall k | 0 <= k < |a| ensures a[k] == b[k] {
      assert Some(a[k]) == ParsePyInt(pieces[k]) == Some(b[k]);
    }
  }

  lemma JoinNonEmpty(xs: seq<string>, sep: string)
    requires |xs| > 0 && |xs[0]| > 0
    ensures |Join(xs, sep)| > 0
  {
  }
}
