/** A recogniser for the unit part of a Vampire output line, `<id>. <clause> [<rule> <parents>]`,
    as the regular expressions of the parsers match it. Two dialects exist: the saturation-era
    one (visualization_backend/model/parsing.py:10) wants a space before the bracket and allows a
    trailing `{key:value,...}` statistics block; the older one
    (proof_visualization/model/parsing.py:12, vampire_parser.py:11) takes an optional space and no
    statistics. The greedy `(.*)` of both makes the clause as long as possible: the bracket that
    is chosen is the last one after which the rest of the line still matches. */
module ClauseSyntax {
  import opened Wrappers
  import opened Text

  datatype Dialect = WithStatistics | Plain

  /** The groups of a match: the id digits, the clause, the rule (`\D*`), the parent list
      (`[\d,]*`) and the statistics block (empty when absent). */
  datatype UnitFields = UnitFields(idText: string, clause: string, rule: string, parentsText: string, statsText: string)

  predicate NoDigits(s: string) { forall i :: 0 <= i < |s| ==> !IsDigit(s[i]) }
  predicate IsParentsText(s: string) { forall i :: 0 <= i < |s| ==> IsDigit(s[i]) || s[i] == ',' }

  /** Length of the longest prefix of digits. */
  function DigitRun(s: string): (k: nat)
    ensures k <= |s| && AllDigits(s[..k]) && (k < |s| ==> !IsDigit(s[k]))
  {
    if |s| > 0 && IsDigit(s[0]) then
      var k := 1 + DigitRun(s[1..]);
      assert s[..k] == [s[0]] + s[1..][..k - 1];
      k
    else 0
  }

  /** Length of the longest prefix without digits (what a greedy `\D*` takes). */
  function NonDigitRun(s: string): (k: nat)
    ensures k <= |s| && NoDigits(s[..k]) && (k < |s| ==> IsDigit(s[k]))
  {
    if |s| > 0 && !IsDigit(s[0]) then
      var k := 1 + NonDigitRun(s[1..]);
      assert s[..k] == [s[0]] + s[1..][..k - 1];
      k
    else 0
  }

  /** One `key:value` entry of a statistics block: `[a-z]\w*:\d*`. */
  predicate IsStatEntry(p: string)
  {
    ':' in p && var c := IndexOf(p, ':');
    c >= 1 && IsLower(p[0]) && (forall i :: 0 <= i < c ==> IsWordChar(p[i])) && AllDigits(p[c + 1..])
  }

  /** A statistics block: ` {` entries separated by commas `}`. */
  predicate IsStatsText(t: string)
  {
    |t| >= 3 && t[0] == ' ' && t[1] == '{' && t[|t| - 1] == '}' &&
    AllStatEntries(Split(t[2..|t| - 1], ','))
  }

  predicate AllStatEntries(es: seq<string>) { forall k :: 0 <= k < |es| ==> IsStatEntry(es[k]) }

  /** The characters a statistics block is made of after its leading space. */
  predicate IsStatsChar(c: char) { IsWordChar(c) || c == ':' || c == ',' || c == '{' || c == '}' }

  lemma StatEntryChars(p: string)
    requires IsStatEntry(p)
    ensures forall c :: c in p ==> IsStatsChar(c)
  {
    var c := IndexOf(p, ':');
    forall i | 0 <= i < |p| ensures IsStatsChar(p[i]) {
      if i > c { assert p[c + 1..][i - c - 1] == p[i]; }
    }
  }

  lemma {:induction false} JoinedEntriesChars(es: seq<string>)
    requires AllStatEntries(es)
    ensures forall c :: c in Join(es, ",") ==> IsStatsChar(c)
  {
    if |es| > 0 {
      StatEntryChars(es[0]);
      if |es| > 1 { JoinedEntriesChars(es[1..]); }
    }
  }

  /** A statistics block holds no space after its first character, and no square bracket. */
  lemma StatsTextChars(t: string)
    requires IsStatsText(t)
    ensures forall c :: c in t[1..] ==> IsStatsChar(c)
    ensures ']' !in t && '[' !in t
  {
    var inner := t[2..|t| - 1];
    JoinSplit(inner, ',');
    JoinedEntriesChars(Split(inner, ','));
    assert t[1..] == "{" + inner + "}";
    assert t == [t[0]] + t[1..];
  }

  /** The last position of `c` in `s`. */
  function LastIndexOf(s: string, c: char): (r: Option<nat>)
    ensures r.None? <==> c !in s
    ensures r.Some? ==> r.value < |s| && s[r.value] == c && c !in s[r.value + 1..]
  {
    if |s| == 0 then None
    else if s[|s| - 1] == c then Some(|s| - 1)
    else
      var r := LastIndexOf(s[..|s| - 1], c);
      if r.Some? then
        assert s[r.value + 1..] == s[..|s| - 1][r.value + 1..] + [s[|s| - 1]];
        r
      else
        assert s == s[..|s| - 1] + [s[|s| - 1]];
        r
  }

  /** What follows the opening bracket: `(\D*) ?([\d,]*)\]` then, in the statistics dialect,
      an optional statistics block, up to the end of the line. Gives the rule, the parents text
      and the statistics block. */
  function MatchTail(u: string, d: Dialect): (r: Option<(string, string, string)>)
    ensures r.Some? ==> NoDigits(r.value.0) && IsParentsText(r.value.1)
    ensures r.Some? ==> r.value.1 == "" || IsDigit(r.value.1[0])
    ensures r.Some? ==> r.value.2 == "" || (d == WithStatistics && IsStatsText(r.value.2))
  {
    var k := LastIndexOf(u, ']');
    if k.None? then None
    else
      var inner, after := u[..k.value], u[k.value + 1..];
      var a := NonDigitRun(inner);
      if (after == "" || (d == WithStatistics && IsStatsText(after))) && IsParentsText(inner[a..]) then
        Some((inner[..a], inner[a..], after))
      else None
  }

  /** The groups of a tail match put back together give the tail. */
  lemma MatchTailSound(u: string, d: Dialect)
    requires MatchTail(u, d).Some?
    ensures var t := MatchTail(u, d).value; u == t.0 + (t.1 + ("]" + t.2))
  {
    var k := LastIndexOf(u, ']').value;
    var inner, after := u[..k], u[k + 1..];
    var a := NonDigitRun(inner);
    assert MatchTail(u, d).value == (inner[..a], inner[a..], after);
    SplitAtBracket(u, k);
    SplitAt(inner, a);
    AppendAssoc(inner[..a], inner[a..], "]" + after);
  }

  /** A string is what comes before position `k`, the bracket at `k`, and what follows. */
  lemma SplitAtBracket(u: string, k: nat)
    requires k < |u| && u[k] == ']'
    ensures u == u[..k] + ("]" + u[k + 1..])
  {
  }

  lemma SplitAt(s: string, a: nat)
    requires a <= |s|
    ensures s == s[..a] + s[a..]
  {
  }

  lemma {:induction false} LastIndexOfIs(s: string, c: char, k: nat)
    requires k < |s| && s[k] == c && c !in s[k + 1..]
    ensures LastIndexOf(s, c) == Some(k)
  {
    if k < |s| - 1 {
      assert s[|s| - 1] in s[k + 1..];
      assert s[..|s| - 1][k + 1..] == s[k + 1..|s| - 1];
      LastIndexOfIs(s[..|s| - 1], c, k);
    }
  }

  lemma {:induction false} NonDigitRunAtLeast(rule: string, rest: string)
    requires NoDigits(rule)
    ensures NonDigitRun(rule + rest) >= |rule|
    ensures rest == "" || IsDigit(rest[0]) ==> NonDigitRun(rule + rest) == |rule|
  {
    if |rule| > 0 {
      assert (rule + rest)[1..] == rule[1..] + rest;
      NonDigitRunAtLeast(rule[1..], rest);
    } else {
      assert rule + rest == rest;
    }
  }

  lemma {:induction false} DigitRunIs(idText: string, rest: string)
    requires AllDigits(idText) && |rest| > 0 && !IsDigit(rest[0])
    ensures DigitRun(idText + rest) == |idText|
  {
    if |idText| > 0 {
      assert (idText + rest)[1..] == idText[1..] + rest;
      DigitRunIs(idText[1..], rest);
    } else {
      assert idText + rest == rest;
    }
  }

  lemma StatsTextNoBracket(t: string)
    requires IsStatsText(t)
    ensures ']' !in t && '[' !in t
  {
    StatsTextChars(t);
  }

  /** Every decomposition the regular expression admits is found. */
  lemma MatchTailComplete(rule: string, parents: string, stats: string, d: Dialect)
    requires NoDigits(rule) && IsParentsText(parents)
    requires stats == "" || (d == WithStatistics && IsStatsText(stats))
    ensures MatchTail(rule + (parents + ("]" + stats)), d).Some?
    ensures parents == "" || IsDigit(parents[0]) ==>
              MatchTail(rule + (parents + ("]" + stats)), d) == Some((rule, parents, stats))
  {
    var u := rule + (parents + ("]" + stats));
    TailShape(rule, parents, stats);
    NonDigitRunAtLeast(rule, parents);
    var a := NonDigitRun(rule + parents);
    ParentsAfterRule(rule, parents, a);
    MatchTailAt(u, d, |rule| + |parents|, a);
  }

  /** The closing bracket of a tail is the one after the parents: the statistics hold none. */
  lemma TailShape(rule: string, parents: string, stats: string)
    requires stats == "" || IsStatsText(stats)
    ensures var u := rule + (parents + ("]" + stats)); var k := |rule| + |parents|;
            LastIndexOf(u, ']') == Some(k) && u[..k] == rule + parents && u[k + 1..] == stats
  {
    if stats != "" { StatsTextNoBracket(stats); }
    CloseAt(rule + parents, stats);
    AppendAssoc(rule, parents, "]" + stats);
  }

  lemma AppendAssoc(a: string, b: string, c: string)
    ensures a + (b + c) == (a + b) + c
  {
  }

  lemma CloseAt(inner: string, stats: string)
    requires ']' !in stats
    ensures var u := inner + ("]" + stats);
            LastIndexOf(u, ']') == Some(|inner|) && u[..|inner|] == inner && u[|inner| + 1..] == stats
  {
    var u := inner + ("]" + stats);
    PrefixAndRest(inner, "]", stats);
    LastIndexOfIs(u, ']', |inner|);
  }

  /** Cutting `rule parents` anywhere inside the parents leaves a parents text, and cutting it
      where the rule ends gives back both parts. */
  lemma ParentsAfterRule(rule: string, parents: string, a: nat)
    requires IsParentsText(parents) && |rule| <= a <= |rule| + |parents|
    ensures IsParentsText((rule + parents)[a..])
    ensures a == |rule| ==> (rule + parents)[..a] == rule && (rule + parents)[a..] == parents
  {
    var v := (rule + parents)[a..];
    forall i | 0 <= i < |v| ensures IsDigit(v[i]) || v[i] == ',' {
      assert v[i] == parents[a - |rule| + i];
    }
  }

  lemma MatchTailAt(u: string, d: Dialect, k: nat, a: nat)
    requires LastIndexOf(u, ']') == Some(k) && a == NonDigitRun(u[..k])
    requires u[k + 1..] == "" || (d == WithStatistics && IsStatsText(u[k + 1..]))
    requires IsParentsText(u[..k][a..])
    ensures MatchTail(u, d) == Some((u[..k][..a], u[..k][a..], u[k + 1..]))
  {
  }

  /** Position `p` opens the rule part: an opening bracket, after a space in the statistics dialect. */
  predicate OpensAt(r: string, p: nat, d: Dialect)
  {
    p < |r| && r[p] == '[' && (d == Plain || (p >= 1 && r[p - 1] == ' '))
  }

  /** Position `p` can hold the bracket of a match: it opens and the rest of the line matches. */
  predicate BracketAt(r: string, p: nat, d: Dialect)
  {
    OpensAt(r, p, d) && MatchTail(r[p + 1..], d).Some?
  }

  /** The last opening position below `hi`. */
  function LastOpening(r: string, hi: nat, d: Dialect): (p: Option<nat>)
    requires hi <= |r|
    ensures p.Some? ==> p.value < hi && OpensAt(r, p.value, d)
    ensures p.Some? ==> forall q :: p.value < q < hi ==> !OpensAt(r, q, d)
    ensures p.None? ==> forall q :: 0 <= q < hi ==> !OpensAt(r, q, d)
  {
    if hi == 0 then None
    else if OpensAt(r, hi - 1, d) then Some(hi - 1)
    else LastOpening(r, hi - 1, d)
  }

  /** A later opening inside a matching tail also has a matching tail: the rule group `\D*`
      holds every later bracket, and a suffix of it is still free of digits. */
  lemma LaterOpeningMatches(r: string, p: nat, q: nat, d: Dialect)
    requires BracketAt(r, p, d) && p < q && OpensAt(r, q, d)
    ensures BracketAt(r, q, d)
  {
    var u := r[p + 1..];
    var t := MatchTail(u, d).value;
    MatchTailSound(u, d);
    var j := q - p - 1;
    SuffixOfSuffix(r, p + 1, j);
    LaterBracketInRule(u, t.0, t.1, t.2, j);
    MatchTailComplete(t.0[j + 1..], t.1, t.2, d);
    BracketAtOf(r, q, d, t.0[j + 1..] + (t.1 + ("]" + t.2)));
  }

  lemma BracketAtOf(r: string, q: nat, d: Dialect, v: string)
    requires OpensAt(r, q, d) && r[q + 1..] == v && MatchTail(v, d).Some?
    ensures BracketAt(r, q, d)
  {
  }

  lemma SuffixOfSuffix(r: string, a: nat, j: nat)
    requires a + j < |r|
    ensures r[a..][j] == r[a + j] && r[a..][j + 1..] == r[a + j + 1..]
  {
  }

  /** In a tail `rule parents ] stats`, an opening bracket can only lie inside the rule, and what
      follows it is again of that shape. */
  lemma LaterBracketInRule(u: string, rule: string, parents: string, stats: string, j: nat)
    requires u == rule + (parents + ("]" + stats))
    requires NoDigits(rule) && IsParentsText(parents) && (stats == "" || IsStatsText(stats))
    requires j < |u| && u[j] == '['
    ensures j < |rule| && NoDigits(rule[j + 1..])
    ensures u[j + 1..] == rule[j + 1..] + (parents + ("]" + stats))
  {
    NoOpeningAfterRule(u, rule, parents, stats);
    var w := parents + ("]" + stats);
    var rest := rule[j + 1..];
    assert NoDigits(rest) by {
      forall i | 0 <= i < |rest| ensures !IsDigit(rest[i]) {
        assert rest[i] == rule[j + 1 + i];
      }
    }
    assert u[j + 1..] == rule[j + 1..] + w;
  }

  /** The regular expression's greedy choice is the last opening: when any bracket position
      matches, the last opening matches as well. */
  lemma GreedyIsLastOpening(r: string, p: nat, d: Dialect)
    requires BracketAt(r, p, d)
    ensures LastOpening(r, |r|, d).Some? && BracketAt(r, LastOpening(r, |r|, d).value, d)
    ensures LastOpening(r, |r|, d).value >= p
  {
    var l := LastOpening(r, |r|, d).value;
    if l != p { LaterOpeningMatches(r, p, l, d); }
  }

  function Opening(d: Dialect): string { if d == WithStatistics then " [" else "[" }

  /** `(\d+)\. (.*)` followed by the bracket part, against a whole string. */
  function MatchUnit(s: string, d: Dialect): (r: Option<UnitFields>)
    ensures r.Some? ==> |r.value.idText| > 0 && AllDigits(r.value.idText)
    ensures r.Some? ==> NoDigits(r.value.rule) && IsParentsText(r.value.parentsText)
    ensures r.Some? ==> r.value.statsText == "" || (d == WithStatistics && IsStatsText(r.value.statsText))
  {
    var k := DigitRun(s);
    if k == 0 || |s| < k + 2 || s[k] != '.' || s[k + 1] != ' ' then None
    else
      var body := s[k + 2..];
      var p := LastOpening(body, |body|, d);
      if p.None? then None
      else
        var t := MatchTail(body[p.value + 1..], d);
        if t.None? then None
        else
          var clause := if d == WithStatistics then body[..p.value - 1] else body[..p.value];
          Some(UnitFields(s[..k], clause, t.value.0, t.value.1, t.value.2))
  }

  /** The line a match's groups stand for. */
  function Unparse(f: UnitFields, d: Dialect): string
  {
    f.idText + (". " + (f.clause + (Opening(d) + (f.rule + (f.parentsText + ("]" + f.statsText))))))
  }

  /** Cutting a line at a bracket position: the clause before it, the dialect's opening, the tail. */
  lemma CutAtBracket(body: string, p: nat, d: Dialect)
    requires p < |body| && body[p] == '[' && (d == Plain || (p >= 1 && body[p - 1] == ' '))
    ensures d == WithStatistics ==> body == body[..p - 1] + (Opening(d) + body[p + 1..])
    ensures d == Plain ==> body == body[..p] + (Opening(d) + body[p + 1..])
  {
    if d == WithStatistics {
      assert body[p - 1..p + 1] == Opening(d);
      assert body == body[..p - 1] + body[p - 1..p + 1] + body[p + 1..];
    } else {
      assert body == body[..p] + body[p..p + 1] + body[p + 1..];
    }
  }

  lemma CutAfterId(s: string, k: nat)
    requires k + 2 <= |s| && s[k] == '.' && s[k + 1] == ' '
    ensures s == s[..k] + (". " + s[k + 2..])
  {
    assert s[k..k + 2] == ". ";
    assert s == s[..k] + s[k..k + 2] + s[k + 2..];
  }

  /** The groups of a match put back together give the line. */
  lemma MatchUnitSound(s: string, d: Dialect)
    requires MatchUnit(s, d).Some?
    ensures Unparse(MatchUnit(s, d).value, d) == s
  {
    var f := MatchUnit(s, d).value;
    var k := DigitRun(s);
    var body := s[k + 2..];
    var p := LastOpening(body, |body|, d).value;
    var tail := body[p + 1..];
    MatchTailSound(tail, d);
    CutAtBracket(body, p, d);
    assert body == f.clause + (Opening(d) + tail);
    CutAfterId(s, k);
  }

  /** A match is found exactly when some bracket position of the line after `<id>. ` matches. */
  lemma MatchUnitWhenBracket(s: string, d: Dialect, k: nat, p: nat)
    requires 0 < k && k + 2 <= |s| && AllDigits(s[..k]) && s[k] == '.' && s[k + 1] == ' '
    requires BracketAt(s[k + 2..], p, d)
    ensures MatchUnit(s, d).Some?
  {
    IdEnds(s, k);
    GreedyIsLastOpening(s[k + 2..], p, d);
    MatchUnitFound(s, d, k);
  }

  lemma IdEnds(s: string, k: nat)
    requires k < |s| && AllDigits(s[..k]) && !IsDigit(s[k])
    ensures DigitRun(s) == k
  {
    assert s[..k] + s[k..] == s;
    DigitRunIs(s[..k], s[k..]);
  }

  lemma MatchUnitFound(s: string, d: Dialect, k: nat)
    requires DigitRun(s) == k && 0 < k && k + 2 <= |s| && s[k] == '.' && s[k + 1] == ' '
    requires LastOpening(s[k + 2..], |s[k + 2..]|, d).Some?
    requires BracketAt(s[k + 2..], LastOpening(s[k + 2..], |s[k + 2..]|, d).value, d)
    ensures MatchUnit(s, d).Some?
  {
  }

  lemma {:induction false} LastOpeningIs(r: string, hi: nat, p0: nat, d: Dialect)
    requires p0 < hi <= |r| && OpensAt(r, p0, d)
    requires forall q :: p0 < q < hi ==> r[q] != '['
    ensures LastOpening(r, hi, d) == Some(p0)
  {
    if hi - 1 > p0 { LastOpeningIs(r, hi - 1, p0, d); }
  }

  /** MatchUnit's result read off from where the id ends and where the bracket opens. */
  lemma MatchUnitAt(s: string, d: Dialect, k: nat, p: nat, t: (string, string, string))
    requires DigitRun(s) == k && 0 < k && k + 2 <= |s| && s[k] == '.' && s[k + 1] == ' '
    requires LastOpening(s[k + 2..], |s[k + 2..]|, d) == Some(p)
    requires MatchTail(s[k + 2..][p + 1..], d) == Some(t)
    ensures MatchUnit(s, d) == Some(UnitFields(s[..k], if d == WithStatistics then s[k + 2..][..p - 1] else s[k + 2..][..p], t.0, t.1, t.2))
  {
  }

  /** A line built from the grammar's parts is matched with exactly those parts, provided the
      rule holds no opening bracket (a later bracket would win the greedy choice) and the parent
      list is empty or starts with a digit (otherwise the greedy rule group takes its commas). */
  lemma MatchUnitComplete(idText: string, clause: string, rule: string, parents: string, stats: string, d: Dialect)
    requires |idText| > 0 && AllDigits(idText)
    requires NoDigits(rule) && '[' !in rule && IsParentsText(parents) && (parents == "" || IsDigit(parents[0]))
    requires stats == "" || (d == WithStatistics && IsStatsText(stats))
    ensures var f := UnitFields(idText, clause, rule, parents, stats);
            MatchUnit(Unparse(f, d), d) == Some(f)
  {
    var s := Unparse(UnitFields(idText, clause, rule, parents, stats), d);
    var k := |idText|;
    var p0 := |clause| + |Opening(d)| - 1;
    UnparsedParts(idText, clause, rule, parents, stats, d, s, k, p0);
    MatchUnitAt(s, d, k, p0, (rule, parents, stats));
  }

  /** Where the id ends and the bracket opens in a line built from the grammar's parts, and what
      the pieces around them are. */
  lemma UnparsedParts(idText: string, clause: string, rule: string, parents: string, stats: string, d: Dialect,
                      s: string, k: nat, p0: nat)
    requires |idText| > 0 && AllDigits(idText)
    requires NoDigits(rule) && '[' !in rule && IsParentsText(parents) && (parents == "" || IsDigit(parents[0]))
    requires stats == "" || (d == WithStatistics && IsStatsText(stats))
    requires s == Unparse(UnitFields(idText, clause, rule, parents, stats), d)
    requires k == |idText| && p0 == |clause| + |Opening(d)| - 1
    ensures DigitRun(s) == k && k + 2 <= |s| && s[k] == '.' && s[k + 1] == ' ' &&
            LastOpening(s[k + 2..], |s[k + 2..]|, d) == Some(p0) &&
            MatchTail(s[k + 2..][p0 + 1..], d) == Some((rule, parents, stats)) &&
            s[..k] == idText &&
            (if d == WithStatistics then s[k + 2..][..p0 - 1] else s[k + 2..][..p0]) == clause
  {
    var tail := rule + (parents + ("]" + stats));
    NoOpeningInTail(rule, parents, stats);
    MatchTailComplete(rule, parents, stats, d);
    BracketPart(clause, tail, d);
    IdPart(idText, clause + (Opening(d) + tail));
  }

  /** After `<id>. `: the id is the digit run, followed by the dot and the blank. */
  lemma IdPart(idText: string, body: string)
    requires |idText| > 0 && AllDigits(idText)
    ensures var s := idText + (". " + body);
            DigitRun(s) == |idText| && |idText| + 2 <= |s| && s[|idText|] == '.' && s[|idText| + 1] == ' ' &&
            s[..|idText|] == idText && s[|idText| + 2..] == body
  {
    PrefixAndRest(idText, ". ", body);
    DigitRunIs(idText, ". " + body);
  }

  /** The dialect's opening after the clause is the last one when the tail has no bracket. */
  lemma BracketPart(clause: string, tail: string, d: Dialect)
    requires '[' !in tail
    ensures var body := clause + (Opening(d) + tail);
            var p0 := |clause| + |Opening(d)| - 1;
            LastOpening(body, |body|, d) == Some(p0) && body[p0 + 1..] == tail &&
            (if d == WithStatistics then body[..p0 - 1] else body[..p0]) == clause
  {
    var body := clause + (Opening(d) + tail);
    var p0 := |clause| + |Opening(d)| - 1;
    PrefixAndRest(clause, Opening(d), tail);
    assert body[p0] == '[' && OpensAt(body, p0, d);
    forall q | p0 < q < |body| ensures body[q] != '[' {
      assert body[q] == tail[q - p0 - 1];
    }
    LastOpeningIs(body, |body|, p0, d);
  }

  lemma PrefixAndRest(a: string, b: string, c: string)
    ensures (a + (b + c))[..|a|] == a && (a + (b + c))[|a| + |b|..] == c
    ensures (a + (b + c))[|a|..|a| + |b|] == b
  {
    assert a + (b + c) == a + b + c;
  }

  lemma NoOpeningAfterRule(u: string, rule: string, parents: string, stats: string)
    requires u == rule + (parents + ("]" + stats))
    requires IsParentsText(parents) && (stats == "" || IsStatsText(stats))
    ensures forall i :: |rule| <= i < |u| ==> u[i] != '['
  {
    if stats != "" { StatsTextNoBracket(stats); }
    var w := parents + ("]" + stats);
    forall i | |rule| <= i < |u| ensures u[i] != '[' {
      assert u[i] == w[i - |rule|];
      if i - |rule| < |parents| {
        assert w[i - |rule|] == parents[i - |rule|];
      } else if i - |rule| > |parents| {
        assert w[i - |rule|] == stats[i - |rule| - |parents| - 1];
      }
    }
  }

  lemma NoOpeningInTail(rule: string, parents: string, stats: string)
    requires '[' !in rule && IsParentsText(parents) && (stats == "" || IsStatsText(stats))
    ensures '[' !in rule + (parents + ("]" + stats))
  {
    if stats != "" { StatsTextNoBracket(stats); }
    assert '[' !in parents by {
      forall i | 0 <= i < |parents| ensures parents[i] != '[' { }
    }
  }
}
