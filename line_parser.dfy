/** The saturation-era parser of Vampire's output (visualization_backend/model/parsing.py).
    A line is tried against three grammars in a fixed order: a saturation line
    `[SA] <kind>: <unit>`, a bare preprocessing line `<unit>`, and a reduction continuation
    `     <kind> <unit>`. Lines of kind `passive` and lines matching nothing are dropped, and
    reading stops after the line announcing a refutation. */
module LineParser {
  import opened Wrappers
  import opened Text
  import opened ClauseSyntax
  import ReprUtil

  /** One recognised line: its kind, the unit's id, clause text, inference rule, parent ids
      and statistics. */
  datatype ParsedLine = ParsedLine(lineType: string, unitId: int, unitString: string,
                                   inferenceRule: string, parents: seq<int>,
                                   statistics: map<string, int>)

  const Preprocessing: string := "preprocessing"
  const Passive: string := "passive"
  const RefutationMarker: string := "% Refutation found. Thanks to"
  const SaturationPrefix: string := "[SA] "
  const ReductionIndent: string := "     "

  /** The characters of the kind group `[a-z ]`. */
  predicate IsKindChar(c: char) { IsLower(c) || c == ' ' }
  predicate AllKindChars(s: string) { forall i :: 0 <= i < |s| ==> IsKindChar(s[i]) }

  /** Length of the longest prefix of kind characters. */
  function KindRun(s: string): (k: nat)
    ensures k <= |s| && AllKindChars(s[..k]) && (k < |s| ==> !IsKindChar(s[k]))
  {
    if |s| > 0 && IsKindChar(s[0]) then
      var k := 1 + KindRun(s[1..]);
      assert s[..k] == [s[0]] + s[1..][..k - 1];
      k
    else 0
  }

  lemma {:induction false} KindRunIs(kind: string, rest: string)
    requires AllKindChars(kind) && (|rest| > 0 ==> !IsKindChar(rest[0]))
    ensures KindRun(kind + rest) == |kind|
  {
    if |kind| > 0 {
      assert (kind + rest)[1..] == kind[1..] + rest;
      KindRunIs(kind[1..], rest);
    }
  }

  /** `^\[SA\] ([a-z ]{3,15}): <unit>$`. */
  function MatchSaturation(line: string): (r: Option<(string, UnitFields)>)
    ensures r.Some? ==> 3 <= |r.value.0| <= 15 && AllKindChars(r.value.0)
    ensures r.Some? ==> AllDigits(r.value.1.idText) && IsParentsText(r.value.1.parentsText)
    ensures r.Some? ==> r.value.1.statsText == "" || IsStatsText(r.value.1.statsText)
  {
    if |line| < 5 || line[..5] != SaturationPrefix then None else MatchKindColon(line[5..])
  }

  /** `([a-z ]{3,15}): <unit>`. The kind group can only end at the colon, so it is the longest
      run of kind characters. */
  function MatchKindColon(rest: string): (r: Option<(string, UnitFields)>)
    ensures r.Some? ==> 3 <= |r.value.0| <= 15 && AllKindChars(r.value.0)
    ensures r.Some? ==> AllDigits(r.value.1.idText) && IsParentsText(r.value.1.parentsText)
    ensures r.Some? ==> r.value.1.statsText == "" || IsStatsText(r.value.1.statsText)
  {
    var k := KindRun(rest);
    if k < 3 || k > 15 || |rest| < k + 2 || rest[k] != ':' || rest[k + 1] != ' ' then None
    else
      var u := MatchUnit(rest[k + 2..], WithStatistics);
      if u.None? then None else Some((rest[..k], u.value))
  }

  /** A kind followed by a colon, a space and the unit splits back at the end of its run. */
  lemma KindColonSplit(kind: string, unit: string, rest: string)
    requires AllKindChars(kind) && rest == kind + (": " + unit)
    ensures KindRun(rest) == |kind| && |rest| >= |kind| + 2 && rest[|kind|] == ':' && rest[|kind| + 1] == ' '
    ensures rest[KindRun(rest) + 2..] == unit && rest[..KindRun(rest)] == kind
  {
    KindRunIs(kind, ": " + unit);
    assert rest[..|kind|] == kind && rest[|kind| + 2..] == unit;
  }

  /** Reading a saturation line back: a kind of 3 to 15 kind characters followed by a
      colon, a space and a matching unit is recognised with exactly those groups. */
  lemma MatchKindColonOf(kind: string, unit: string, f: UnitFields)
    requires 3 <= |kind| <= 15 && AllKindChars(kind) && MatchUnit(unit, WithStatistics) == Some(f)
    ensures MatchKindColon(kind + (": " + unit)).Some?
    ensures MatchKindColon(kind + (": " + unit)).value.0 == kind
    ensures MatchKindColon(kind + (": " + unit)).value.1 == f
  {
    KindColonSplit(kind, unit, kind + (": " + unit));
  }

  lemma MatchSaturationOf(kind: string, unit: string, f: UnitFields)
    requires 3 <= |kind| <= 15 && AllKindChars(kind) && MatchUnit(unit, WithStatistics) == Some(f)
    ensures MatchSaturation(SaturationPrefix + (kind + (": " + unit))) == Some((kind, f))
  {
    var line := SaturationPrefix + (kind + (": " + unit));
    PrefixSplit(SaturationPrefix, kind + (": " + unit), line);
    MatchKindColonOf(kind, unit, f);
    SomePair(MatchKindColon(line[5..]), kind, f);
  }

  lemma PrefixSplit(pre: string, rest: string, line: string)
    requires |pre| == 5 && line == pre + rest
    ensures |line| >= 5 && line[..5] == pre && line[5..] == rest
  {
  }

  lemma SomePair<A, B>(x: Option<(A, B)>, a: A, b: B)
    requires x.Some? && x.value.0 == a && x.value.1 == b
    ensures x == Some((a, b))
  {
  }

  /** `^     ([a-z ]{5,12}) <unit>$`. The group and the space after it form the longest run of
      kind characters after the indentation, since the unit starts with a digit. */
  function MatchReduction(line: string): (r: Option<(string, UnitFields)>)
    ensures r.Some? ==> 5 <= |r.value.0| <= 12 && AllKindChars(r.value.0)
    ensures r.Some? ==> AllDigits(r.value.1.idText) && IsParentsText(r.value.1.parentsText)
    ensures r.Some? ==> r.value.1.statsText == "" || IsStatsText(r.value.1.statsText)
  {
    if |line| < 5 || line[..5] != ReductionIndent then None
    else
      var rest := line[5..];
      var k := KindRun(rest);
      if k < 6 || k > 13 || rest[k - 1] != ' ' then None
      else
        var u := MatchUnit(rest[k..], WithStatistics);
        KindRunPrefix(rest, k - 1);
        if u.None? then None else Some((rest[..k - 1], u.value))
  }

  /** Every prefix of the kind run holds kind characters only. */
  lemma KindRunPrefix(s: string, j: nat)
    requires j <= KindRun(s)
    ensures AllKindChars(s[..j])
  {
    var k := KindRun(s);
    forall i | 0 <= i < j ensures IsKindChar(s[..j][i]) {
      assert s[..j][i] == s[..k][i];
    }
  }

  /** The comma-separated ids of a parent list, empty pieces dropped. */
  function ParentIds(pieces: seq<string>): (r: seq<int>)
    requires forall k :: 0 <= k < |pieces| ==> AllDigits(pieces[k])
    ensures |r| <= |pieces|
    ensures forall i :: 0 <= i < |r| ==> r[i] >= 0
  {
    if |pieces| == 0 then []
    else (if pieces[0] == "" then [] else [DigitsValue(pieces[0]) as int]) + ParentIds(pieces[1..])
  }

  lemma {:induction false} SplitOfParentsText(s: string)
    requires IsParentsText(s)
    ensures forall k :: 0 <= k < |Split(s, ',')| ==> AllDigits(Split(s, ',')[k])
    decreases |s|
  {
    if ',' in s {
      var k := IndexOf(s, ',');
      var t := s[k + 1..];
      assert IsParentsText(t) by {
        forall i | 0 <= i < |t| ensures IsDigit(t[i]) || t[i] == ',' {
          assert t[i] == s[k + 1 + i];
        }
      }
      SplitOfParentsText(s[k + 1..]);
      assert AllDigits(s[..k]) by {
        forall i | 0 <= i < k ensures IsDigit(s[..k][i]) { assert s[..k][i] == s[i] && s[i] != ','; }
      }
    } else {
      assert Split(s, ',') == [s];
    }
  }

  /** `[int(p) for p in parents.split(',') if p]`. */
  function ParentList(s: string): (r: seq<int>)
    requires IsParentsText(s)
  {
    SplitOfParentsText(s);
    ParentIds(Split(s, ','))
  }

  /** The `key:value` pairs found in a statistics block, in order (`re.findall` of
      `([a-z]\w*):(\d*)`: every entry of a valid block is one whole match). */
  function KeyValues(es: seq<string>): (r: seq<(string, string)>)
    requires AllStatEntries(es)
    ensures |r| == |es|
    ensures forall i :: 0 <= i < |r| ==> es[i] == r[i].0 + ":" + r[i].1 && AllDigits(r[i].1)
  {
    if |es| == 0 then []
    else
      var p := es[0];
      var c := IndexOf(p, ':');
      assert p == p[..c] + ":" + p[c + 1..];
      [(p[..c], p[c + 1..])] + KeyValues(es[1..])
  }

  /** `dict((key, int(value)) for ...)`: later keys overwrite earlier ones, and the first value
      int() rejects raises. */
  function IntPairs(kvs: seq<(string, string)>, m: map<string, int>): (r: Result<map<string, int>>)
    ensures r.Ok? ==> m.Keys <= r.value.Keys
    ensures r.Ok? ==> forall i :: 0 <= i < |kvs| ==> kvs[i].0 in r.value
  {
    if |kvs| == 0 then Ok(m)
    else
      var v := ParsePyInt(kvs[0].1);
      if v.None? then Err(BadInteger)
      else IntPairs(kvs[1..], m[kvs[0].0 := v.value])
  }

  /** The statistics of a line: empty without a block, otherwise its pairs. */
  function LineStatistics(statsText: string): (r: Result<map<string, int>>)
    requires statsText == "" || IsStatsText(statsText)
  {
    if statsText == "" then Ok(map[])
    else IntPairs(KeyValues(Split(statsText[2..|statsText| - 1], ',')), map[])
  }

  /** The groups of a matching line turned into a parsed line: the id as an int, the clause
      right-stripped and without quotes, the rule right-stripped, the parents as ints. */
  function Build(lineType: string, f: UnitFields): (r: Result<ParsedLine>)
    requires AllDigits(f.idText) && IsParentsText(f.parentsText)
    requires f.statsText == "" || IsStatsText(f.statsText)
  {
    var stats := LineStatistics(f.statsText);
    if stats.Err? then Err(stats.error)
    else Ok(ParsedLine(lineType, DigitsValue(f.idText), ReprUtil.RemoveQuotes(RStrip(f.clause)),
                       RStrip(f.rule), ParentList(f.parentsText), stats.value))
  }

  /** What a kept line holds: a non-negative id, a clause without quotes (it may still end in
      whitespace, since the quotes are removed after stripping), a right-stripped rule,
      non-negative parent ids. */
  predicate WellFormedLine(p: ParsedLine)
  {
    p.unitId >= 0 &&
    (forall i :: 0 <= i < |p.unitString| ==> p.unitString[i] != '\'' && p.unitString[i] != '"') &&
    (|p.inferenceRule| == 0 || !IsSpace(p.inferenceRule[|p.inferenceRule| - 1])) &&
    (forall i :: 0 <= i < |p.parents| ==> p.parents[i] >= 0)
  }

  lemma BuildWellFormed(lineType: string, f: UnitFields)
    requires AllDigits(f.idText) && IsParentsText(f.parentsText)
    requires f.statsText == "" || IsStatsText(f.statsText)
    ensures Build(lineType, f).Ok? ==> WellFormedLine(Build(lineType, f).value)
  {
    var stats := LineStatistics(f.statsText);
    if stats.Ok? {
      var clause := ReprUtil.RemoveQuotes(RStrip(f.clause));
      var rule := RStrip(f.rule);
      var parents := ParentList(f.parentsText);
      assert Build(lineType, f).value == ParsedLine(lineType, DigitsValue(f.idText), clause, rule, parents, stats.value);
    }
  }

  lemma BuildKeepsKind(lineType: string, f: UnitFields)
    requires AllDigits(f.idText) && IsParentsText(f.parentsText)
    requires f.statsText == "" || IsStatsText(f.statsText)
    ensures Build(lineType, f).Ok? ==> Build(lineType, f).value.lineType == lineType
  {
  }

  /** parse_line: the first grammar that matches decides; `None` for a passive line or for a
      line no grammar matches; an error when a statistics value is not an integer. */
  function ParseLine(line: string): (r: Result<Option<ParsedLine>>)
  {
    var sat := MatchSaturation(line);
    if sat.Some? then
      if sat.value.0 == Passive then Ok(None)
      else FromBuild(Build(sat.value.0, sat.value.1))
    else
      var pre := MatchUnit(line, WithStatistics);
      if pre.Some? then FromBuild(Build(Preprocessing, pre.value))
      else
        var red := MatchReduction(line);
        if red.Some? then FromBuild(Build(red.value.0, red.value.1))
        else Ok(None)
  }

  function FromBuild(b: Result<ParsedLine>): (r: Result<Option<ParsedLine>>)
    ensures b.Ok? <==> r.Ok? && r.value.Some?
    ensures b.Ok? ==> r.value.value == b.value
    ensures b.Err? ==> r == Err(b.error)
  {
    if b.Ok? then Ok(Some(b.value)) else Err(b.error)
  }

  /** Every line parse_line keeps is well formed. */
  lemma ParseLineWellFormed(line: string)
    requires ParseLine(line).Ok? && ParseLine(line).value.Some?
    ensures WellFormedLine(ParseLine(line).value.value)
  {
    var sat := MatchSaturation(line);
    if sat.Some? {
      BuildWellFormed(sat.value.0, sat.value.1);
    } else if MatchUnit(line, WithStatistics).Some? {
      BuildWellFormed(Preprocessing, MatchUnit(line, WithStatistics).value);
    } else {
      var red := MatchReduction(line).value;
      BuildWellFormed(red.0, red.1);
    }
  }

  /** `Ok(None)` exactly for passive saturation lines and lines no grammar matches. */
  lemma ParseLineDropsExactly(line: string)
    ensures ParseLine(line) == Ok(None) <==>
              (MatchSaturation(line).Some? && MatchSaturation(line).value.0 == Passive) ||
              (MatchSaturation(line).None? && MatchUnit(line, WithStatistics).None? && MatchReduction(line).None?)
  {
  }

  /** The grammars are tried in order: a saturation line keeps its kind, otherwise a bare unit
      is a preprocessing line, and only then is the reduction form tried. */
  lemma ParseLineOrder(line: string)
    requires ParseLine(line).Ok? && ParseLine(line).value.Some?
    ensures var p := ParseLine(line).value.value;
      if MatchSaturation(line).Some? then p.lineType == MatchSaturation(line).value.0
      else if MatchUnit(line, WithStatistics).Some? then p.lineType == Preprocessing
      else MatchReduction(line).Some? && p.lineType == MatchReduction(line).value.0
  {
    var sat := MatchSaturation(line);
    if sat.Some? {
      BuildKeepsKind(sat.value.0, sat.value.1);
    } else if MatchUnit(line, WithStatistics).Some? {
      BuildKeepsKind(Preprocessing, MatchUnit(line, WithStatistics).value);
    } else {
      var red := MatchReduction(line).value;
      BuildKeepsKind(red.0, red.1);
    }
  }

  /** One line's contribution to parse: what parse_line gave for it and whether it is the
      refutation marker. */
  datatype Outcome = Outcome(parsed: Result<Option<ParsedLine>>, isMarker: bool)

  function Outcomes(lines: seq<string>): (r: seq<Outcome>)
    ensures |r| == |lines|
    ensures forall i :: 0 <= i < |lines| ==>
              r[i] == Outcome(ParseLine(lines[i]), StartsWith(lines[i], RefutationMarker))
  {
    if |lines| == 0 then []
    else [Outcome(ParseLine(lines[0]), StartsWith(lines[0], RefutationMarker))] + Outcomes(lines[1..])
  }

  /** parse's loop over the outcomes: kept lines in order, the first error raised, nothing
      after the first marker. */
  function Collect(outs: seq<Outcome>): (r: Result<seq<ParsedLine>>)
    ensures r.Ok? ==> |r.value| <= |outs|
  {
    if |outs| == 0 then Ok([])
    else
      var p := outs[0].parsed;
      if p.Err? then Err(p.error)
      else
        var here := Here(p.value);
        if outs[0].isMarker then Ok(here)
        else Prepend(here, Collect(outs[1..]))
  }

  /** What a kept line adds to the result. */
  function Here(p: Option<ParsedLine>): (r: seq<ParsedLine>)
    ensures p.Some? ==> r == [p.value]
    ensures p.None? ==> r == []
  {
    if p.Some? then [p.value] else []
  }

  /** Whole-output parsing, up to and including the refutation marker line. */
  function ParseLines(lines: seq<string>): (r: Result<seq<ParsedLine>>)
  {
    Collect(Outcomes(lines))
  }

  function Prepend(xs: seq<ParsedLine>, r: Result<seq<ParsedLine>>): Result<seq<ParsedLine>>
  {
    if r.Ok? then Ok(xs + r.value) else r
  }

  lemma PrependAssoc(xs: seq<ParsedLine>, ys: seq<ParsedLine>, r: Result<seq<ParsedLine>>)
    ensures Prepend(xs, Prepend(ys, r)) == Prepend(xs + ys, r)
  {
    if r.Ok? { assert xs + (ys + r.value) == xs + ys + r.value; }
  }

  /** parse: the lines in order, dropping the ones parse_line gives nothing for, and stopping
      after the refutation marker. */
  method Parse(lines: seq<string>) returns (r: Result<seq<ParsedLine>>)
    ensures r == ParseLines(lines)
  {
    ghost var outs := Outcomes(lines);
    var parsed: seq<ParsedLine> := [];
    var i := 0;
    CollectStart(outs);
    while i < |lines|
      invariant 0 <= i <= |lines|
      invariant Prepend(parsed, Collect(outs[i..])) == Collect(outs)
    {
      var p := ParseLine(lines[i]);
      CollectAdvance(parsed, outs, i);
      if p.Err? {
        return Err(p.error);
      }
      parsed := parsed + Here(p.value);
      if StartsWith(lines[i], RefutationMarker) {
        return Ok(parsed);
      }
      i := i + 1;
    }
    CollectNothing(outs[i..]);
    PrependNothing(parsed);
    return Ok(parsed);
  }

  lemma CollectStart(outs: seq<Outcome>)
    ensures Prepend([], Collect(outs[0..])) == Collect(outs)
  {
    assert outs[0..] == outs;
    if Collect(outs).Ok? { assert [] + Collect(outs).value == Collect(outs).value; }
  }

  lemma CollectNothing(outs: seq<Outcome>)
    requires |outs| == 0
    ensures Collect(outs) == Ok([])
  {
  }

  lemma PrependNothing(parsed: seq<ParsedLine>)
    ensures Prepend(parsed, Ok([])) == Ok(parsed)
  {
    assert parsed + [] == parsed;
  }

  /** One step of parse's loop keeps its invariant: an error ends the result, the marker line
      completes it, any other line moves on. */
  lemma CollectAdvance(parsed: seq<ParsedLine>, outs: seq<Outcome>, i: nat)
    requires i < |outs| && Prepend(parsed, Collect(outs[i..])) == Collect(outs)
    ensures outs[i].parsed.Err? ==> Collect(outs) == Err(outs[i].parsed.error)
    ensures outs[i].parsed.Ok? && outs[i].isMarker ==> Collect(outs) == Ok(parsed + Here(outs[i].parsed.value))
    ensures outs[i].parsed.Ok? && !outs[i].isMarker ==>
              Prepend(parsed + Here(outs[i].parsed.value), Collect(outs[i + 1..])) == Collect(outs)
  {
    assert outs[i..][0] == outs[i] && outs[i..][1..] == outs[i + 1..];
    if outs[i].parsed.Ok? {
      PrependAssoc(parsed, Here(outs[i].parsed.value), Collect(outs[i + 1..]));
    }
  }

  /** Nothing after a marker is read: whatever follows it, the result is the same. */
  lemma {:induction false} CollectStopsAtMarker(outs: seq<Outcome>, i: nat, rest: seq<Outcome>)
    requires i < |outs| && outs[i].isMarker
    ensures Collect(outs[..i + 1] + rest) == Collect(outs[..i + 1])
  {
    if i > 0 {
      CollectStopsAtMarker(outs[1..], i - 1, rest);
      assert (outs[..i + 1] + rest)[1..] == outs[1..][..i] + rest;
      assert outs[..i + 1][1..] == outs[1..][..i];
    }
  }

  /** Nothing after the refutation marker is read: whatever follows the marker line, the
      result is the same. */
  lemma MarkerStopsParsing(lines: seq<string>, i: nat, rest: seq<string>)
    requires i < |lines| && StartsWith(lines[i], RefutationMarker)
    ensures ParseLines(lines[..i + 1] + rest) == ParseLines(lines[..i + 1])
  {
    var whole := lines[..i + 1] + rest;
    assert whole[..i + 1] == lines[..i + 1] && whole[i] == lines[i];
    var outs := Outcomes(whole);
    OutcomesPrefix(whole, i + 1);
    assert outs[i].isMarker;
    CollectStopsAtMarker(outs, i, outs[i + 1..]);
    assert outs == outs[..i + 1] + outs[i + 1..];
  }

  /** The outcomes of a prefix are the prefix of the outcomes. */
  lemma OutcomesPrefix(lines: seq<string>, k: nat)
    requires k <= |lines|
    ensures Outcomes(lines[..k]) == Outcomes(lines)[..k]
  {
    var a := Outcomes(lines[..k]);
    var b := Outcomes(lines)[..k];
    forall j | 0 <= j < k
      ensures a[j] == b[j]
    {
      assert lines[..k][j] == lines[j];
    }
  }

  /** Every collected line is a kept outcome with no marker before it. */
  lemma {:induction false} CollectedComeFromOutcomes(outs: seq<Outcome>, k: nat)
    requires Collect(outs).Ok? && k < |Collect(outs).value|
    ensures exists j :: 0 <= j < |outs| && outs[j].parsed == Ok(Some(Collect(outs).value[k])) &&
                        forall m :: 0 <= m < j ==> !outs[m].isMarker
  {
    var p := outs[0].parsed;
    var here := Here(p.value);
    if k < |here| {
      assert outs[0].parsed == Ok(Some(Collect(outs).value[k]));
    } else {
      CollectedComeFromOutcomes(outs[1..], k - |here|);
      var j :| 0 <= j < |outs[1..]| && outs[1..][j].parsed == Ok(Some(Collect(outs[1..]).value[k - |here|])) &&
               forall m :: 0 <= m < j ==> !outs[1..][m].isMarker;
      assert Collect(outs).value == here + Collect(outs[1..]).value;
      forall m | 0 <= m < j + 1 ensures !outs[m].isMarker {
        if m > 0 { assert outs[m] == outs[1..][m - 1]; }
      }
    }
  }

  /** Every parsed line comes from a line that parse_line keeps, and no line before it is the
      refutation marker. */
  lemma ParsedLinesComeFromLines(lines: seq<string>, k: nat)
    requires ParseLines(lines).Ok? && k < |ParseLines(lines).value|
    ensures exists j :: 0 <= j < |lines| && ParseLine(lines[j]) == Ok(Some(ParseLines(lines).value[k])) &&
                        forall m :: 0 <= m < j ==> !StartsWith(lines[m], RefutationMarker)
  {
    var outs := Outcomes(lines);
    CollectedComeFromOutcomes(outs, k);
    var j :| 0 <= j < |outs| && outs[j].parsed == Ok(Some(Collect(outs).value[k])) &&
             forall m :: 0 <= m < j ==> !outs[m].isMarker;
    assert ParseLine(lines[j]) == Ok(Some(ParseLines(lines).value[k]));
  }

  /** parseStatistics's loop over the comma-separated pieces: each is cut at its colons, the
      second part goes through int(), and later keys overwrite earlier ones. */
  function StatsPairs(pieces: seq<string>, m: map<string, int>): (r: Result<map<string, int>>)
    ensures r.Ok? ==> m.Keys <= r.value.Keys
  {
    if |pieces| == 0 then Ok(m)
    else
      var kv := Split(pieces[0], ':');
      if |kv| < 2 then Err(IndexOutOfRange)
      else
        var v := ParsePyInt(kv[1]);
        if v.None? then Err(BadInteger) else StatsPairs(pieces[1..], m[kv[0] := v.value])
  }

  /** What parseStatistics returns or raises for a statistics string. */
  function StatisticsOf(text: string): (r: Result<map<string, int>>)
  {
    var s := RemoveAll(text, {' '});
    if s == "" then Ok(map[])
    else if s[0] != '{' || s[|s| - 1] != '}' then Err(AssertionFailed)
    else StatsPairs(Split(s[1..|s| - 1], ','), map[])
  }

  /** parseStatistics: spaces removed, nothing for an empty string, otherwise a braced list of
      `key:value` pairs. */
  method ParseStatistics(text: string) returns (r: Result<map<string, int>>)
    ensures r == StatisticsOf(text)
  {
    var s := RemoveAll(text, {' '});
    if s == "" {
      return Ok(map[]);
    }
    if s[0] != '{' || s[|s| - 1] != '}' {
      return Err(AssertionFailed);
    }
    var pieces := Split(s[1..|s| - 1], ',');
    var statistics: map<string, int> := map[];
    StatisticsOfBraced(text, s);
    assert pieces[0..] == pieces;
    var i := 0;
    while i < |pieces|
      invariant 0 <= i <= |pieces|
      invariant StatsPairs(pieces[i..], statistics) == StatisticsOf(text)
    {
      StatsAdvance(pieces, i, statistics);
      var kv := Split(pieces[i], ':');
      if |kv| < 2 {
        return Err(IndexOutOfRange);
      }
      var v := ParsePyInt(kv[1]);
      if v.None? {
        return Err(BadInteger);
      }
      statistics := statistics[kv[0] := v.value];
      i := i + 1;
    }
    StatsDone(pieces, statistics);
    return Ok(statistics);
  }

  lemma StatsAdvance(pieces: seq<string>, i: nat, m: map<string, int>)
    requires i < |pieces|
    ensures |Split(pieces[i], ':')| < 2 ==> StatsPairs(pieces[i..], m) == Err(IndexOutOfRange)
    ensures |Split(pieces[i], ':')| >= 2 && ParsePyInt(Split(pieces[i], ':')[1]).None? ==>
              StatsPairs(pieces[i..], m) == Err(BadInteger)
    ensures |Split(pieces[i], ':')| >= 2 && ParsePyInt(Split(pieces[i], ':')[1]).Some? ==>
              StatsPairs(pieces[i..], m) ==
              StatsPairs(pieces[i + 1..], m[Split(pieces[i], ':')[0] := ParsePyInt(Split(pieces[i], ':')[1]).value])
  {
    assert pieces[i..][0] == pieces[i] && pieces[i..][1..] == pieces[i + 1..];
  }

  lemma StatsDone(pieces: seq<string>, m: map<string, int>)
    ensures StatsPairs(pieces[|pieces|..], m) == Ok(m)
  {
    assert pieces[|pieces|..] == [];
  }

  /** A string of spaces holds no statistics. */
  lemma StatisticsOfBlank(text: string)
    requires forall i :: 0 <= i < |text| ==> text[i] == ' '
    ensures StatisticsOf(text) == Ok(map[])
  {
    assert RemoveAll(text, {' '}) == "" by { BlankRemoved(text); }
  }

  lemma {:induction false} BlankRemoved(text: string)
    requires forall i :: 0 <= i < |text| ==> text[i] == ' '
    ensures RemoveAll(text, {' '}) == ""
  {
    if |text| > 0 { BlankRemoved(text[1..]); }
  }

  /** Empty braces are not an empty block: the single empty piece has no value part. */
  lemma StatisticsOfEmptyBraces()
    ensures StatisticsOf("{}") == Err(IndexOutOfRange)
  {
    assert RemoveAll("{}", {' '}) == "{}" by {
      assert RemoveAll("}", {' '}) == "}";
    }
    assert "{}"[1..1] == "";
    assert Split("", ',') == [""];
    assert Split("", ':') == [""];
  }

  /** Cutting `a c b` at its only `c`. */
  lemma SplitOnce(a: string, b: string, c: char)
    requires c !in a && c !in b
    ensures Split(a + [c] + b, c) == [a, b]
  {
    var s := a + [c] + b;
    assert s[|a|] == c;
    IndexOfIs(s, c, |a|);
    assert s[..|a|] == a && s[|a| + 1..] == b;
  }

  lemma IndexOfIs(s: string, c: char, k: nat)
    requires k < |s| && s[k] == c && c !in s[..k]
    ensures c in s && IndexOf(s, c) == k
  {
    if k > 0 {
      assert s[1..][..k - 1] == s[..k][1..];
      IndexOfIs(s[1..], c, k - 1);
    }
  }

  /** On every statistics block the line grammar accepts, parseStatistics and parse_line's
      findall agree: both give the same map or both reject the same value. */
  lemma StatisticsAgree(t: string)
    requires IsStatsText(t)
    ensures StatisticsOf(t) == LineStatistics(t)
  {
    StatsTextChars(t);
    var rest := t[1..];
    NoSpaceKept(rest);
    SlicesOfRest(t);
    StatisticsOfBraced(t, rest);
    PairsAgree(Split(t[2..|t| - 1], ','), map[]);
  }

  lemma StatisticsOfBraced(text: string, s: string)
    requires RemoveAll(text, {' '}) == s && |s| >= 2 && s[0] == '{' && s[|s| - 1] == '}'
    ensures StatisticsOf(text) == StatsPairs(Split(s[1..|s| - 1], ','), map[])
  {
  }

  lemma SlicesOfRest(t: string)
    requires |t| >= 3 && t[0] == ' '
    ensures t[1..][1..|t[1..]| - 1] == t[2..|t| - 1]
    ensures t[1..][0] == t[1] && t[1..][|t[1..]| - 1] == t[|t| - 1]
    ensures RemoveAll(t, {' '}) == RemoveAll(t[1..], {' '})
  {
    LeadingBlankRemoved(t);
  }

  lemma LeadingBlankRemoved(t: string)
    requires |t| > 0 && t[0] == ' '
    ensures RemoveAll(t, {' '}) == RemoveAll(t[1..], {' '})
  {
    var rest := RemoveAll(t[1..], {' '});
    assert RemoveAll(t, {' '}) == "" + rest;
    assert "" + rest == rest;
  }

  lemma NoSpaceKept(s: string)
    requires forall c :: c in s ==> IsStatsChar(c)
    ensures RemoveAll(s, {' '}) == s
  {
    forall i | 0 <= i < |s| ensures s[i] !in {' '} {
      assert s[i] in s;
    }
  }

  lemma {:induction false} PairsAgree(es: seq<string>, m: map<string, int>)
    requires AllStatEntries(es)
    ensures StatsPairs(es, m) == IntPairs(KeyValues(es), m)
  {
    if |es| > 0 {
      var p := es[0];
      var c := IndexOf(p, ':');
      assert p == p[..c] + [':'] + p[c + 1..];
      var digits := p[c + 1..];
      assert ':' !in digits by {
        forall i | 0 <= i < |digits| ensures digits[i] != ':' { }
      }
      SplitOnce(p[..c], p[c + 1..], ':');
      var kvs := KeyValues(es);
      assert kvs[0] == (p[..c], p[c + 1..]);
      assert kvs[1..] == KeyValues(es[1..]);
      var v := ParsePyInt(p[c + 1..]);
      if v.Some? {
        PairsAgree(es[1..], m[p[..c] := v.value]);
      }
    }
  }

  /** The statistics block Vampire writes for a list of named counters. */
  function FormatStatistics(keys: seq<string>, vals: seq<nat>): (r: string)
    requires |keys| == |vals|
  {
    "{" + Join(Entries(keys, vals), [',']) + "}"
  }

  function Entries(keys: seq<string>, vals: seq<nat>): (r: seq<string>)
    requires |keys| == |vals|
    ensures |r| == |keys|
    ensures forall i :: 0 <= i < |r| ==> r[i] == keys[i] + [':'] + NatToString(vals[i])
  {
    if |keys| == 0 then [] else [keys[0] + [':'] + NatToString(vals[0])] + Entries(keys[1..], vals[1..])
  }

  /** The map a list of counters stands for: later keys overwrite earlier ones. */
  function CounterMap(keys: seq<string>, vals: seq<nat>, m: map<string, int>): (r: map<string, int>)
    requires |keys| == |vals|
    ensures r.Keys == m.Keys + set i | 0 <= i < |keys| :: keys[i]
  {
    if |keys| == 0 then m else CounterMap(keys[1..], vals[1..], m[keys[0] := vals[0]])
  }

  predicate PlainKey(k: string) { forall i :: 0 <= i < |k| ==> k[i] != ' ' && k[i] != ',' && k[i] != ':' }

  /** Reading a written statistics block back gives the counters, provided there is at least
      one (`{}` is rejected) and no key holds a space, a comma or a colon. */
  lemma StatisticsRoundTrip(keys: seq<string>, vals: seq<nat>)
    requires |keys| == |vals| && |keys| > 0
    requires forall i :: 0 <= i < |keys| ==> PlainKey(keys[i])
    ensures StatisticsOf(FormatStatistics(keys, vals)) == Ok(CounterMap(keys, vals, map[]))
  {
    var es := Entries(keys, vals);
    var inner := Join(es, [',']);
    var s := FormatStatistics(keys, vals);
    forall i | 0 <= i < |es| ensures ',' !in es[i] && ' ' !in es[i] {
      NoCommaInEntry(keys[i], vals[i]);
    }
    SplitJoin(es, ',');
    JoinNoSpace(es);
    assert s == ("{" + inner) + "}";
    NoSpaceInBraces(inner);
    assert s[1..|s| - 1] == inner;
    EntriesRead(keys, vals, map[]);
  }

  lemma NoCommaInEntry(key: string, val: nat)
    requires PlainKey(key)
    ensures ',' !in key + [':'] + NatToString(val) && ' ' !in key + [':'] + NatToString(val)
    ensures ':' !in key && ':' !in NatToString(val)
  {
    var d := NatToString(val);
    assert ',' !in d && ' ' !in d && ':' !in d by {
      forall i | 0 <= i < |d| ensures d[i] != ',' && d[i] != ' ' && d[i] != ':' { }
    }
    assert ',' !in key && ' ' !in key && ':' !in key by {
      forall i | 0 <= i < |key| ensures key[i] != ',' && key[i] != ' ' && key[i] != ':' { }
    }
  }

  lemma {:induction false} JoinNoSpace(es: seq<string>)
    requires forall i :: 0 <= i < |es| ==> ' ' !in es[i]
    ensures ' ' !in Join(es, [','])
  {
    if |es| > 1 { JoinNoSpace(es[1..]); }
  }

  lemma NoSpaceInBraces(inner: string)
    requires ' ' !in inner
    ensures RemoveAll("{" + inner + "}", {' '}) == "{" + inner + "}"
  {
    var s := "{" + inner + "}";
    forall i | 0 <= i < |s| ensures s[i] !in {' '} {
      if 0 < i < |s| - 1 { assert s[i] == inner[i - 1]; }
    }
  }

  lemma {:induction false} EntriesRead(keys: seq<string>, vals: seq<nat>, m: map<string, int>)
    requires |keys| == |vals|
    requires forall i :: 0 <= i < |keys| ==> PlainKey(keys[i])
    ensures StatsPairs(Entries(keys, vals), m) == Ok(CounterMap(keys, vals, m))
  {
    if |keys| > 0 {
      var rest := Entries(keys[1..], vals[1..]);
      assert Entries(keys, vals) == [keys[0] + [':'] + NatToString(vals[0])] + rest;
      HeadEntryRead(keys[0], vals[0], rest, m);
      EntriesRead(keys[1..], vals[1..], m[keys[0] := vals[0]]);
    }
  }

  /** The loop's first piece `key:value` is cut at its colon, read by int() and stored. */
  lemma HeadEntryRead(key: string, val: nat, rest: seq<string>, m: map<string, int>)
    requires PlainKey(key)
    ensures StatsPairs([key + [':'] + NatToString(val)] + rest, m) == StatsPairs(rest, m[key := val])
  {
    var pieces := [key + [':'] + NatToString(val)] + rest;
    NoCommaInEntry(key, val);
    SplitOnce(key, NatToString(val), ':');
    ParsePyIntOfNat(val);
    assert pieces[0] == key + [':'] + NatToString(val) && pieces[1..] == rest;
  }

  /** Decimal ids separated by commas, as Vampire writes a parent list. */
  function ParentTexts(ps: seq<nat>): (r: seq<string>)
    ensures |r| == |ps| && forall i :: 0 <= i < |r| ==> r[i] == NatToString(ps[i])
  {
    if |ps| == 0 then [] else [NatToString(ps[0])] + ParentTexts(ps[1..])
  }

  function FormatParents(ps: seq<nat>): (r: string)
    ensures IsParentsText(r) && (r == "" || IsDigit(r[0]))
  {
    JoinedIds(ParentTexts(ps));
    Join(ParentTexts(ps), [','])
  }

  lemma {:induction false} JoinedIds(xs: seq<string>)
    requires forall i :: 0 <= i < |xs| ==> |xs[i]| > 0 && AllDigits(xs[i])
    ensures IsParentsText(Join(xs, [',']))
    ensures |xs| > 0 ==> |Join(xs, [','])| > 0 && Join(xs, [','])[0] == xs[0][0]
  {
    if |xs| > 1 {
      JoinedIds(xs[1..]);
      var j := Join(xs, [',']);
      var t := Join(xs[1..], [',']);
      assert j == xs[0] + [','] + t;
      forall i | 0 <= i < |j| ensures IsDigit(j[i]) || j[i] == ',' {
        if i < |xs[0]| { assert j[i] == xs[0][i]; }
        else if i > |xs[0]| { assert j[i] == t[i - |xs[0]| - 1]; }
      }
    }
  }

  lemma {:induction false} IdsOfTexts(ps: seq<nat>)
    ensures ParentIds(ParentTexts(ps)) == ps
  {
    if |ps| > 0 {
      NatToStringValue(ps[0]);
      assert ParentTexts(ps)[1..] == ParentTexts(ps[1..]);
      IdsOfTexts(ps[1..]);
    }
  }

  /** A written parent list reads back as the ids. */
  lemma FormattedParents(ps: seq<nat>)
    ensures ParentList(FormatParents(ps)) == ps
  {
    var xs := ParentTexts(ps);
    JoinedIds(xs);
    if |ps| == 0 {
      assert Split("", ',') == [""];
    } else {
      forall k | 0 <= k < |xs| ensures ',' !in xs[k] {
        assert forall i :: 0 <= i < |xs[k]| ==> IsDigit(xs[k][i]);
      }
      SplitJoin(xs, ',');
      IdsOfTexts(ps);
    }
  }

  /** The rule group as the grammar captures it: the space before a parent list belongs to it. */
  function RuleGroup(rule: string, ps: seq<nat>): string { if |ps| == 0 then rule else rule + " " }

  /** The groups of a unit as Vampire writes it, without statistics. */
  function UnitOf(id: nat, clause: string, rule: string, ps: seq<nat>): UnitFields
  {
    UnitFields(NatToString(id), clause, RuleGroup(rule, ps), FormatParents(ps), "")
  }

  /** `<id>. <clause> [<rule> <parents>]`. */
  function FormatUnit(id: nat, clause: string, rule: string, ps: seq<nat>): string
  {
    Unparse(UnitOf(id, clause, rule, ps), WithStatistics)
  }

  /** A clause the parser keeps as written: no quotes, no trailing whitespace. */
  predicate PlainClause(c: string)
  {
    (forall i :: 0 <= i < |c| ==> c[i] != '\'' && c[i] != '"') && (|c| == 0 || !IsSpace(c[|c| - 1]))
  }

  /** A rule name the grammar reads back: no digit, no opening bracket, no trailing whitespace. */
  predicate PlainRule(r: string)
  {
    NoDigits(r) && '[' !in r && (|r| == 0 || !IsSpace(r[|r| - 1]))
  }

  lemma UnitOfMatches(id: nat, clause: string, rule: string, ps: seq<nat>)
    requires PlainRule(rule)
    ensures MatchUnit(FormatUnit(id, clause, rule, ps), WithStatistics) == Some(UnitOf(id, clause, rule, ps))
  {
    FormattedParents(ps);
    var g := RuleGroup(rule, ps);
    assert NoDigits(g) && '[' !in g by {
      if |ps| > 0 {
        assert forall i :: 0 <= i < |g| ==> i < |rule| ==> g[i] == rule[i];
      }
    }
    MatchUnitComplete(NatToString(id), clause, g, FormatParents(ps), "", WithStatistics);
  }

  lemma BuildOfUnit(lineType: string, id: nat, clause: string, rule: string, ps: seq<nat>)
    requires PlainClause(clause) && PlainRule(rule)
    ensures Build(lineType, UnitOf(id, clause, rule, ps)) == Ok(ParsedLine(lineType, id, clause, rule, ps, map[]))
  {
    FormattedParents(ps);
    NatToStringValue(id);
    RStripPlain(clause);
    RStripRuleGroup(rule, ps);
  }

  lemma RStripPlain(s: string)
    requires |s| == 0 || !IsSpace(s[|s| - 1])
    ensures RStrip(s) == s
  {
  }

  lemma RStripRuleGroup(rule: string, ps: seq<nat>)
    requires |rule| == 0 || !IsSpace(rule[|rule| - 1])
    ensures RStrip(RuleGroup(rule, ps)) == rule
  {
    if |ps| > 0 {
      var g := rule + " ";
      assert g[..|g| - 1] == rule;
    }
  }

  lemma FirstOfUnit(f: UnitFields, d: Dialect)
    requires |f.idText| > 0
    ensures |Unparse(f, d)| > 0 && Unparse(f, d)[0] == f.idText[0]
  {
  }

  lemma NoSaturationPrefix(line: string)
    requires |line| > 0 && IsDigit(line[0])
    ensures |line| < 5 || line[..5] != SaturationPrefix
  {
    if |line| >= 5 { assert line[..5][0] == line[0]; }
  }

  lemma ParseLineAsUnit(line: string, f: UnitFields)
    requires |line| > 0 && IsDigit(line[0]) && MatchUnit(line, WithStatistics) == Some(f)
    ensures ParseLine(line) == FromBuild(Build(Preprocessing, f))
  {
    NoSaturationPrefix(line);
  }

  /** A preprocessing line as Vampire writes it reads back as exactly its parts. */
  lemma PreprocessingRoundTrip(id: nat, clause: string, rule: string, ps: seq<nat>)
    requires PlainClause(clause) && PlainRule(rule)
    ensures ParseLine(FormatUnit(id, clause, rule, ps)) == Ok(Some(ParsedLine(Preprocessing, id, clause, rule, ps, map[])))
  {
    var f := UnitOf(id, clause, rule, ps);
    var line := FormatUnit(id, clause, rule, ps);
    UnitOfMatches(id, clause, rule, ps);
    FirstOfUnit(f, WithStatistics);
    ParseLineAsUnit(line, f);
    BuildOfUnit(Preprocessing, id, clause, rule, ps);
  }

  lemma ParseLineAsSaturation(line: string, kind: string, f: UnitFields)
    requires MatchSaturation(line) == Some((kind, f))
    ensures kind == Passive ==> ParseLine(line) == Ok(None)
    ensures kind != Passive ==> ParseLine(line) == FromBuild(Build(kind, f))
  {
  }

  /** `[SA] <kind>: <unit>` reads back as its kind and parts; a passive one is dropped. */
  lemma SaturationRoundTrip(kind: string, id: nat, clause: string, rule: string, ps: seq<nat>)
    requires 3 <= |kind| <= 15 && AllKindChars(kind)
    requires PlainClause(clause) && PlainRule(rule)
    ensures var line := SaturationPrefix + (kind + (": " + FormatUnit(id, clause, rule, ps)));
            ParseLine(line) == if kind == Passive then Ok(None)
                               else Ok(Some(ParsedLine(kind, id, clause, rule, ps, map[])))
  {
    var f := UnitOf(id, clause, rule, ps);
    var unit := FormatUnit(id, clause, rule, ps);
    UnitOfMatches(id, clause, rule, ps);
    MatchSaturationOf(kind, unit, f);
    ParseLineAsSaturation(SaturationPrefix + (kind + (": " + unit)), kind, f);
    BuildOfUnit(kind, id, clause, rule, ps);
  }

  /** A kind, a space and a unit split back after the space: the unit starts with a digit. */
  lemma KindSpaceSplit(kind: string, unit: string, rest: string)
    requires AllKindChars(kind) && |unit| > 0 && IsDigit(unit[0]) && rest == kind + (" " + unit)
    ensures KindRun(rest) == |kind| + 1 && rest[KindRun(rest) - 1] == ' '
    ensures rest[KindRun(rest)..] == unit && rest[..KindRun(rest) - 1] == kind
  {
    var k := kind + " ";
    assert AllKindChars(k) by {
      forall i | 0 <= i < |k| ensures IsKindChar(k[i]) {
        if i < |kind| { assert k[i] == kind[i]; }
      }
    }
    assert rest == k + unit;
    KindRunIs(k, unit);
    assert rest[..|kind|] == kind && rest[|kind| + 1..] == unit;
  }

  lemma MatchReductionOf(kind: string, unit: string, f: UnitFields)
    requires 5 <= |kind| <= 12 && AllKindChars(kind)
    requires |unit| > 0 && IsDigit(unit[0]) && MatchUnit(unit, WithStatistics) == Some(f)
    ensures MatchReduction(ReductionIndent + (kind + (" " + unit))) == Some((kind, f))
  {
    var line := ReductionIndent + (kind + (" " + unit));
    PrefixSplit(ReductionIndent, kind + (" " + unit), line);
    KindSpaceSplit(kind, unit, line[5..]);
    var r := MatchReduction(line);
    assert r.Some? && r.value.0 == kind && r.value.1 == f;
    SomePair(r, kind, f);
  }

  lemma ParseLineAsReduction(line: string, kind: string, f: UnitFields)
    requires |line| > 0 && line[0] == ' ' && MatchReduction(line) == Some((kind, f))
    ensures ParseLine(line) == FromBuild(Build(kind, f))
  {
    NoSaturationPrefixAtSpace(line);
  }

  lemma NoSaturationPrefixAtSpace(line: string)
    requires |line| > 0 && line[0] == ' '
    ensures |line| < 5 || line[..5] != SaturationPrefix
    ensures DigitRun(line) == 0
  {
    if |line| >= 5 { assert line[..5][0] == line[0]; }
  }

  /** A reduction continuation `     <kind> <unit>` reads back as its kind and parts. */
  lemma ReductionRoundTrip(kind: string, id: nat, clause: string, rule: string, ps: seq<nat>)
    requires 5 <= |kind| <= 12 && AllKindChars(kind)
    requires PlainClause(clause) && PlainRule(rule)
    ensures ParseLine(ReductionIndent + (kind + (" " + FormatUnit(id, clause, rule, ps)))) ==
            Ok(Some(ParsedLine(kind, id, clause, rule, ps, map[])))
  {
    var f := UnitOf(id, clause, rule, ps);
    var unit := FormatUnit(id, clause, rule, ps);
    UnitOfMatches(id, clause, rule, ps);
    FirstOfUnit(f, WithStatistics);
    MatchReductionOf(kind, unit, f);
    var line := ReductionIndent + (kind + (" " + unit));
    assert line[0] == ' ';
    ParseLineAsReduction(line, kind, f);
    BuildOfUnit(kind, id, clause, rule, ps);
  }
}
