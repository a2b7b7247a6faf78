/** Text helpers of the Python models: counts with a singular or plural noun, a centred
    title bar, rule lines and quote removal (proof_visualization/model/util.py). The
    presenter's copy (presenter/util.py) differs only in its last line. */
module ReprUtil {
  import opened Wrappers
  import opened Text

  const Border: char := '='
  const SeparatorChar: char := '-'
  const LineLength: nat := 50

  /** `"<count> <noun>"` where the noun is singular exactly when the count is one. */
  function CountRepr(count: nat, singular: string, plural: string): (r: string)
    ensures StartsWith(r, NatToString(count) + " ")
    ensures r[|NatToString(count)| + 1..] == (if count == 1 then singular else plural)
  {
    NatToString(count) + " " + (if count == 1 then singular else plural)
  }

  /** The noun can be read back: the number in front is the count. */
  lemma CountReprReadsBack(count: nat, singular: string, plural: string)
    requires ' ' !in singular && ' ' !in plural
    ensures ParsePyInt(Split(CountRepr(count, singular, plural), ' ')[0]) == Some(count)
  {
    var n := NatToString(count);
    var r := CountRepr(count, singular, plural);
    assert ' ' !in n by {
      forall i | 0 <= i < |n| ensures n[i] != ' ' { assert IsDigit(n[i]); }
    }
    assert r[|n|] == ' ' && r[..|n|] == n;
    assert IndexOf(r, ' ') == |n|;
    ParsePyIntOfNat(count);
  }

  /** `" <s> "` centred in a line of 50 '=' as Python's format spec `{:=^50}` does it: the
      left padding is half the room, rounded down; a text of 50 characters or more is not padded. */
  function TitleRepr(s: string): (r: string)
    ensures |r| == if |s| + 2 >= LineLength then |s| + 2 else LineLength
    ensures var left := (|r| - (|s| + 2)) / 2;
            r[left..left + |s| + 2] == " " + s + " " &&
            (forall i :: 0 <= i < left ==> r[i] == Border) &&
            (forall i :: left + |s| + 2 <= i < |r| ==> r[i] == Border)
    ensures var left := (|r| - (|s| + 2)) / 2; |r| - (left + |s| + 2) - left in {0, 1}
  {
    var body := " " + s + " ";
    if |body| >= LineLength then body
    else
      var room := LineLength - |body|;
      Repeat(Border, room / 2) + body + Repeat(Border, room - room / 2)
  }

  datatype SetOrDash = Shown(ids: set<int>) | Dash

  /** A set as itself when it is non-empty, otherwise the dash placeholder. */
  function SetRepr(s: set<int>): (r: SetOrDash)
    ensures r.Dash? <==> s == {}
    ensures r.Shown? ==> r.ids == s
  {
    if s != {} then Shown(s) else Dash
  }

  function Separator(): (r: string)
    ensures |r| == LineLength && forall i :: 0 <= i < |r| ==> r[i] == SeparatorChar
  {
    Repeat(SeparatorChar, LineLength)
  }

  function LastLine(): (r: string)
    ensures |r| == LineLength + 1 && r[LineLength] == '\n'
    ensures forall i :: 0 <= i < LineLength ==> r[i] == Border
  {
    Repeat(Border, LineLength) + "\n"
  }

  /** The text without any single or double quote; the empty string stays empty. */
  function RemoveQuotes(s: string): (r: string)
    ensures forall i :: 0 <= i < |r| ==> r[i] != '\'' && r[i] != '"'
    ensures (forall i :: 0 <= i < |s| ==> s[i] != '\'' && s[i] != '"') ==> r == s
  {
    if |s| == 0 then "" else RemoveAll(s, {'\'', '"'})
  }

  /** Only the quotes go: the other characters are kept, in their order. */
  lemma RemoveQuotesKeepsOthers(a: string, b: string, c: char)
    ensures RemoveQuotes(a + b) == RemoveQuotes(a) + RemoveQuotes(b)
    ensures RemoveQuotes([c]) == if c == '\'' || c == '"' then "" else [c]
  {
    RemoveAllAppend(a, b, {'\'', '"'});
    RemoveAllSingle(c, {'\'', '"'});
  }

  lemma RemoveQuotesIdempotent(s: string)
    ensures RemoveQuotes(RemoveQuotes(s)) == RemoveQuotes(s)
  {
  }
}

/** presenter/util.py: the same helpers, except that its closing line has no newline. */
module PresenterUtil {
  import opened Text
  import ReprUtil

  function LastLine(): (r: string)
    ensures |r| == ReprUtil.LineLength && forall i :: 0 <= i < |r| ==> r[i] == ReprUtil.Border
    ensures r + "\n" == ReprUtil.LastLine()
  {
    Repeat(ReprUtil.Border, ReprUtil.LineLength)
  }
}
