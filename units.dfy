/** Units of the TypeScript frontend (visualization-frontend/src/model/unit.ts): a formula kept
    as text, or a clause of literals together with the number of literals the prover selected,
    and the two printers, plain and with the selected literals in bold. */
module Units {
  import opened Wrappers
  import opened Text
  import opened Terms

  /** `Formula` keeps the text; `Clause` has its literals and `numberOfSelectedLiterals`,
      where `None` stands for the source's `null`. */
  datatype Unit = Formula(formula: string) | Clause(literals: seq<Literal>, selected: Option<int>)

  const Bar := " | "

  /** The printed literals, one per literal, in order. */
  function LiteralStrings(ls: seq<Literal>): (r: seq<string>)
    ensures |r| == |ls| && forall i :: 0 <= i < |ls| ==> r[i] == LiteralString(ls[i])
  {
    seq(|ls|, i requires 0 <= i < |ls| => LiteralString(ls[i]))
  }

  /** `toString`: a formula's text, or the literals separated by ` | `. */
  function UnitString(u: Unit): string
  {
    match u
    case Formula(f) => f
    case Clause(ls, _) => Join(LiteralStrings(ls), Bar)
  }

  /** Each piece preceded by ` | `, as the second loop of `toHTMLString` appends them. */
  function Suffixed(xs: seq<string>): string
  {
    if xs == [] then "" else Suffixed(xs[..|xs| - 1]) + Bar + xs[|xs| - 1]
  }

  /** `toHTMLString`: unformatted without selection information; otherwise the first
      `numberOfSelectedLiterals` literals in bold, which must be at least one and at most all
      of them. */
  function HtmlOf(u: Unit): (r: Result<string>)
    ensures r.Err? <==> u.Clause? && u.selected.Some? && !(1 <= u.selected.value <= |u.literals|)
    ensures r.Err? ==> r.error == AssertionFailed
  {
    match u
    case Formula(f) => Ok(f)
    case Clause(ls, None) => Ok(UnitString(u))
    case Clause(ls, Some(n)) =>
      if n < 1 || n > |ls| then Err(AssertionFailed)
      else
        var strs := LiteralStrings(ls);
        Ok("<b>" + Join(strs[..n], Bar) + "</b>" + Suffixed(strs[n..]))
  }

  /** Appending one piece to a non-empty join. */
  lemma {:induction false} JoinSnoc(xs: seq<string>, x: string, sep: string)
    requires |xs| > 0
    ensures Join(xs + [x], sep) == Join(xs, sep) + sep + x
  {
    if |xs| > 1 {
      JoinSnoc(xs[1..], x, sep);
      assert (xs + [x])[1..] == xs[1..] + [x];
    } else {
      assert (xs + [x])[1..] == [x];
    }
  }

  /** A join splits after its first `n` pieces into their join and the suffixed rest. */
  lemma {:induction false} JoinSplitAt(xs: seq<string>, n: nat)
    requires 1 <= n <= |xs|
    ensures Join(xs, Bar) == Join(xs[..n], Bar) + Suffixed(xs[n..])
    decreases |xs| - n
  {
    if n == |xs| {
      assert xs[..n] == xs;
      assert xs[n..] == [];
    } else {
      var m := |xs| - 1;
      JoinSplitAt(xs[..m], n);
      assert xs[..m][..n] == xs[..n];
      assert xs[n..][..|xs[n..]| - 1] == xs[..m][n..];
      JoinSnoc(xs[..m], xs[m], Bar);
      assert xs[..m] + [xs[m]] == xs;
    }
  }

  /** The bold printout differs from the plain one only by the tags around the selected
      literals; without selection information the two printouts agree. */
  lemma HtmlIsBoldedString(u: Unit)
    requires HtmlOf(u).Ok?
    ensures u.Clause? && u.selected.Some? ==>
              exists k :: 0 <= k <= |UnitString(u)| &&
                HtmlOf(u).value == "<b>" + UnitString(u)[..k] + "</b>" + UnitString(u)[k..]
    ensures !(u.Clause? && u.selected.Some?) ==> HtmlOf(u).value == UnitString(u)
  {
    if u.Clause? && u.selected.Some? {
      var strs := LiteralStrings(u.literals);
      var n := u.selected.value;
      var bold := Join(strs[..n], Bar);
      JoinSplitAt(strs, n);
      var s := UnitString(u);
      assert s == bold + Suffixed(strs[n..]);
      assert s[..|bold|] == bold && s[|bold|..] == Suffixed(strs[n..]);
    }
  }

  /** The bold part holds exactly the first `n` printed literals. */
  lemma HtmlBoldsSelected(ls: seq<Literal>, n: int)
    requires 1 <= n <= |ls|
    ensures HtmlOf(Clause(ls, Some(n))) ==
              Ok("<b>" + Join(LiteralStrings(ls[..n]), Bar) + "</b>" + Suffixed(LiteralStrings(ls[n..])))
  {
    assert LiteralStrings(ls)[..n] == LiteralStrings(ls[..n]);
    assert LiteralStrings(ls)[n..] == LiteralStrings(ls[n..]);
  }

  lemma SuffixedStep(xs: seq<string>, n: nat, i: nat)
    requires n <= i < |xs|
    ensures Suffixed(xs[n..i + 1]) == Suffixed(xs[n..i]) + (Bar + xs[i])
  {
    assert xs[n..i + 1][..i - n] == xs[n..i];
  }

  /** The first loop of `toHTMLString`: the opening tag and the selected literals. */
  method BoldPart(strs: seq<string>, n: int) returns (s: string)
    requires 1 <= n <= |strs|
    ensures s == "<b>" + Join(strs[..n], Bar)
  {
    s := "<b>" + strs[0];
    assert strs[..1] == [strs[0]];
    for i := 1 to n
      invariant s == "<b>" + Join(strs[..i], Bar)
    {
      JoinSnoc(strs[..i], strs[i], Bar);
      assert strs[..i + 1] == strs[..i] + [strs[i]];
      s := s + (Bar + strs[i]);
    }
  }

  /** The second loop of `toHTMLString`: every remaining literal after a bar. */
  method AppendRest(prefix: string, strs: seq<string>, n: int) returns (s: string)
    requires 0 <= n <= |strs|
    ensures s == prefix + Suffixed(strs[n..])
  {
    s := prefix;
    for i := n to |strs|
      invariant s == prefix + Suffixed(strs[n..i])
    {
      SuffixedStep(strs, n, i);
      s := s + (Bar + strs[i]);
    }
    assert strs[n..|strs|] == strs[n..];
  }

  /** `Clause.toHTMLString`. */
  method ToHtmlString(u: Unit) returns (r: Result<string>)
    ensures r == HtmlOf(u)
  {
    if u.Formula? {
      return Ok(u.formula);
    }
    if u.selected.None? {
      return Ok(UnitString(u));
    }
    var n := u.selected.value;
    if n < 1 || n > |u.literals| {
      return Err(AssertionFailed);
    }
    var strs := LiteralStrings(u.literals);
    var s := BoldPart(strs, n);
    s := AppendRest(s + "</b>", strs, n);
    return Ok(s);
  }
}
