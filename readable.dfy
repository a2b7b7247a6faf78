/** The frontend's rendering of a prover invariant, given as an S-expression, into infix text
    (visualization-frontend/src/helpers/readable.ts). The S-expression reader is a library
    call; here its result is a tree of symbols and lists. The renderer is JavaScript that
    indexes whatever it is given: a list yields its elements, a string yields its characters (a
    one-character string), and indexing past the end yields `undefined`, whose length cannot be
    read. Those JavaScript rules are modelled, so a symbol that starts with an operator
    character is taken apart as the code takes it apart. */
module Readable {
  import opened Wrappers
  import opened Text

  /** What the S-expression reader returns: symbols (strings) and lists. */
  datatype SExp = Sym(name: string) | List(items: seq<SExp>)

  /** What `parseResult` returns: a string it built, or the array (or string) it was given. */
  datatype Value = Text(s: string) | Tree(e: SExp)

  /** JavaScript's string conversion: a string is itself, an array its elements' conversions
      joined by commas (nested arrays flatten). */
  function JsString(e: SExp): string
  {
    match e
    case Sym(s) => s
    case List(items) => Join(seq(|items|, k requires 0 <= k < |items| => JsString(items[k])), ",")
  }

  /** `"" + lst[k]` for an element that may be `undefined`. */
  function Str(v: Option<SExp>): string
  {
    if v.Some? then JsString(v.value) else "undefined"
  }

  function Shown(v: Value): string
  {
    match v
    case Text(s) => s
    case Tree(e) => JsString(e)
  }

  /** `lst.length`. */
  function Length(e: SExp): nat
  {
    match e
    case Sym(s) => |s|
    case List(items) => |items|
  }

  /** `lst[k]`: an element of a list, a one-character string of a string, or `undefined`. */
  function Elem(e: SExp, k: nat): (r: Option<SExp>)
    ensures r.Some? <==> k < Length(e)
  {
    match e
    case Sym(s) => if k < |s| then Some(Sym([s[k]])) else None
    case List(items) => if k < |items| then Some(items[k]) else None
  }

  /** `lst.splice(1)`: the elements after the first; a string has no `splice`. */
  function Rest(e: SExp): (r: Result<SExp>)
    ensures r.Ok? <==> e.List?
    ensures r.Ok? ==> |e.items| == 0 || r.value == List(e.items[1..])
  {
    match e
    case Sym(_) => Err(BadType)
    case List(items) => Ok(List(if |items| == 0 then [] else items[1..]))
  }

  /** The keys of `logSym` and the symbols they stand for. */
  predicate IsConnective(h: Option<SExp>)
  {
    h.Some? && JsString(h.value) in {"and", "or"}
  }

  function ConnectiveSymbol(name: string): string
  {
    if name == "and" then "&&" else "||"
  }

  /** `logOp`: the operators written between their two operands. */
  const LogOps: set<string> := {"=", "<=", ">=", ">", "<", "+", "*", "/"}

  /** An operator written infix: one of `logOp`, or `-` with exactly two operands. */
  predicate IsInfix(e: SExp, h: Option<SExp>)
  {
    (h.Some? && h.value.Sym? && h.value.name in LogOps) || (h == Some(Sym("-")) && Length(e) == 3)
  }

  /** A measure that the renderer's recursive calls decrease. */
  function Size(e: SExp): (n: nat)
    ensures n >= 1
  {
    match e
    case Sym(s) => |s| + 1
    case List(items) => 1 + Sum(seq(|items|, k requires 0 <= k < |items| => Size(items[k])))
  }

  function Sum(xs: seq<nat>): nat
  {
    if |xs| == 0 then 0 else xs[0] + Sum(xs[1..])
  }

  lemma {:induction false} SumBounds(xs: seq<nat>, k: nat)
    requires k < |xs|
    ensures xs[k] <= Sum(xs)
  {
    if k > 0 {
      SumBounds(xs[1..], k - 1);
    }
  }

  function OSize(v: Option<SExp>): nat
  {
    if v.Some? then Size(v.value) else 0
  }

  /** Every element but the first is smaller than the value it comes from, and the first is
      no larger. */
  lemma ElemSmaller(e: SExp, k: nat)
    ensures OSize(Elem(e, k)) <= Size(e)
    ensures k > 0 ==> OSize(Elem(e, k)) < Size(e)
    ensures e.List? ==> OSize(Elem(e, k)) < Size(e)
  {
    if e.List? && k < |e.items| {
      var sizes := seq(|e.items|, j requires 0 <= j < |e.items| => Size(e.items[j]));
      SumBounds(sizes, k);
    }
  }

  /** Dropping the first element of a non-empty list makes it smaller. */
  lemma RestSmaller(e: SExp)
    requires e.List? && |e.items| > 0
    ensures Size(List(e.items[1..])) < Size(e)
  {
    var items := e.items;
    var sizes := seq(|items|, j requires 0 <= j < |items| => Size(items[j]));
    var rest := items[1..];
    assert seq(|rest|, j requires 0 <= j < |rest| => Size(rest[j])) == sizes[1..];
  }

  /** `parseResult(lst, sep)`: renders an S-expression as infix text. `sep` is `""`, or the
      connective whose children are being joined. */
  function Render(v: Option<SExp>, sep: string): (r: Result<Value>)
    ensures v.None? ==> r.Err?
    ensures v.Some? && Length(v.value) == 0 ==> r == Ok(Text(""))
    decreases OSize(v), if sep == "" then 0 else 1
  {
    if v.None? then Err(BadType)
    else
      var e := v.value;
      var h := Elem(e, 0);
      ElemSmaller(e, 0);
      ElemSmaller(e, 1);
      ElemSmaller(e, 2);
      if Length(e) < 1 then Ok(Text(""))
      else if IsConnective(h) then
        (match Rest(e)
         case Err(x) => Err(x)
         case Ok(t) => RestSmaller(e); Render(Some(t), ConnectiveSymbol(JsString(h.value))))
      else if IsInfix(e, h) then
        (match (Render(Elem(e, 1), ""), Render(Elem(e, 2), ""))
         case (Ok(a), Ok(b)) => Ok(Text("(" + Shown(a) + " " + h.value.name + " " + Shown(b) + ")"))
         case (Err(x), _) => Err(x)
         case (_, Err(x)) => Err(x))
      else if h == Some(Sym("select")) then Ok(Text(Str(Elem(e, 1)) + "[" + Str(Elem(e, 2)) + "]"))
      else if h == Some(Sym("not")) then
        (match Render(Elem(e, 1), "")
         case Ok(a) => Ok(Text("!" + Shown(a)))
         case Err(x) => Err(x))
      else if sep != "" && Length(e) == 1 then Render(h, "")
      else if sep != "" then
        (match (Render(h, ""), Rest(e))
         case (Ok(a), Ok(t)) =>
           RestSmaller(e);
           (match Render(Some(t), sep)
            case Ok(b) => Ok(Text(Shown(a) + " " + sep + "\n" + Shown(b)))
            case Err(x) => Err(x))
         case (Err(x), _) => Err(x)
         case (_, Err(x)) => Err(x))
      else if h == Some(Sym("-")) then Ok(Text(Str(h) + Str(Elem(e, 1))))
      else if e.List? && h.value.Sym? && Length(e) > 1 then
        (match Render(Elem(e, 1), "")
         case Ok(a) => Ok(Text(h.value.name + ": (" + Shown(a) + ")"))
         case Err(x) => Err(x))
      else Ok(Tree(e))
  }

  /** The symbols the renderer treats specially when they head a list. */
  const Keywords: set<string> := LogOps + {"-", "select", "not"}

  /** A child of a connective that the renderer does not mistake for an operator: a list whose
      text is not a connective's name, or a symbol that is no keyword. */
  predicate Plain(c: SExp)
  {
    JsString(c) !in {"and", "or"} && !(c.Sym? && c.name in Keywords)
  }

  /** The children rendered one by one, or the first failure. */
  function RenderAll(cs: seq<SExp>): (r: Result<seq<string>>)
    ensures r.Ok? ==> |r.value| == |cs|
    ensures r.Ok? ==> forall k :: 0 <= k < |cs| ==> Render(Some(cs[k]), "").Ok? && r.value[k] == Shown(Render(Some(cs[k]), "").value)
  {
    if |cs| == 0 then Ok([])
    else
      match (Render(Some(cs[0]), ""), RenderAll(cs[1..]))
      case (Ok(a), Ok(rest)) => Ok([Shown(a)] + rest)
      case (Err(x), _) => Err(x)
      case (_, Err(x)) => Err(x)
  }

  /** A list headed by a connective renders as its remaining elements joined by the
      connective's symbol. */
  lemma RenderHeadedByConnective(e: SExp, sep: string)
    requires e.List? && |e.items| > 0 && IsConnective(Elem(e, 0))
    ensures Render(Some(e), sep) == Render(Some(List(e.items[1..])), ConnectiveSymbol(JsString(e.items[0])))
  {
  }

  /** A list of two or more elements whose head is plain, under a connective, renders as the
      head, the separator, and the rest under the same connective. */
  lemma RenderUnderConnective(e: SExp, sep: string)
    requires e.List? && |e.items| > 1 && Plain(e.items[0]) && sep != ""
    ensures Render(Some(e), sep).Ok? <==>
              Render(Some(e.items[0]), "").Ok? && Render(Some(List(e.items[1..])), sep).Ok?
    ensures Render(Some(e), sep).Ok? ==>
              Render(Some(e), sep).value ==
              Text(Shown(Render(Some(e.items[0]), "").value) + " " + sep + "\n" + Shown(Render(Some(List(e.items[1..])), sep).value))
  {
    assert Elem(e, 0) == Some(e.items[0]);
  }

  /** A head followed by ` sep`, a line break and the joined rest is the join of the whole. */
  lemma JoinStep(h: string, t: string, rest: seq<string>, sep: string)
    requires |rest| >= 1 && t == Join(rest, " " + sep + "\n")
    ensures h + " " + sep + "\n" + t == Join([h] + rest, " " + sep + "\n")
  {
    assert ([h] + rest)[1..] == rest;
  }

  /** The children of a connective, rendered one by one and joined by the connective's symbol
      and a line break, with no separator after the last. */
  lemma {:induction false} ConnectiveChildren(cs: seq<SExp>, sep: string)
    requires sep in {"&&", "||"}
    requires forall k :: 0 <= k < |cs| ==> Plain(cs[k])
    requires RenderAll(cs).Ok?
    ensures Render(Some(List(cs)), sep).Ok?
    ensures Shown(Render(Some(List(cs)), sep).value) == Join(RenderAll(cs).value, " " + sep + "\n")
  {
    var e := List(cs);
    if |cs| == 1 {
      assert Elem(e, 0) == Some(cs[0]);
    } else if |cs| > 1 {
      assert Plain(cs[0]);
      RenderUnderConnective(e, sep);
      assert e.items[1..] == cs[1..];
      ConnectiveChildren(cs[1..], sep);
      var h := Shown(Render(Some(cs[0]), "").value);
      var rest := RenderAll(cs[1..]).value;
      assert RenderAll(cs).value == [h] + rest;
      JoinStep(h, Shown(Render(Some(List(cs[1..])), sep).value), rest, sep);
    }
  }

  /** `(and c1 … cn)` and `(or c1 … cn)` render as their children joined by ` && ` or ` || `
      and a line break. */
  lemma Connective(name: string, cs: seq<SExp>)
    requires name in {"and", "or"}
    requires forall k :: 0 <= k < |cs| ==> Plain(cs[k])
    requires RenderAll(cs).Ok?
    ensures Render(Some(List([Sym(name)] + cs)), "").Ok?
    ensures Shown(Render(Some(List([Sym(name)] + cs)), "").value) ==
            Join(RenderAll(cs).value, " " + ConnectiveSymbol(name) + "\n")
  {
    var e := List([Sym(name)] + cs);
    assert Elem(e, 0) == Some(Sym(name));
    assert JsString(Sym(name)) == name;
    RenderHeadedByConnective(e, "");
    assert e.items[1..] == cs;
    ConnectiveChildren(cs, ConnectiveSymbol(name));
  }

  /** A binary operator renders as `(lhs op rhs)`; `-` only with exactly two operands. */
  lemma Infix(op: string, lhs: SExp, rhs: SExp, sep: string)
    requires op in LogOps || op == "-"
    requires Render(Some(lhs), "").Ok? && Render(Some(rhs), "").Ok?
    ensures Render(Some(List([Sym(op), lhs, rhs])), sep) ==
            Ok(Text("(" + Shown(Render(Some(lhs), "").value) + " " + op + " " + Shown(Render(Some(rhs), "").value) + ")"))
  {
    var e := List([Sym(op), lhs, rhs]);
    assert Elem(e, 0) == Some(Sym(op)) && Elem(e, 1) == Some(lhs) && Elem(e, 2) == Some(rhs);
    assert JsString(Sym(op)) == op;
  }

  /** An operator of `logOp` with only one operand reads `undefined` and fails. */
  lemma InfixMissingOperand(op: string, lhs: SExp)
    requires op in LogOps
    ensures Render(Some(List([Sym(op), lhs])), "").Err?
  {
    var e := List([Sym(op), lhs]);
    assert Elem(e, 0) == Some(Sym(op)) && Elem(e, 2) == None;
  }

  /** `(select a i)` renders as `a[i]` with both parts as JavaScript prints them. */
  lemma Select(a: SExp, i: SExp, sep: string)
    ensures Render(Some(List([Sym("select"), a, i])), sep) == Ok(Text(JsString(a) + "[" + JsString(i) + "]"))
  {
    var e := List([Sym("select"), a, i]);
    assert Elem(e, 0) == Some(Sym("select")) && Elem(e, 1) == Some(a) && Elem(e, 2) == Some(i);
    assert JsString(Sym("select")) == "select";
  }

  /** `(not x)` renders as `!x`. */
  lemma Not(x: SExp, sep: string)
    requires Render(Some(x), "").Ok?
    ensures Render(Some(List([Sym("not"), x])), sep) == Ok(Text("!" + Shown(Render(Some(x), "").value)))
  {
    var e := List([Sym("not"), x]);
    assert Elem(e, 0) == Some(Sym("not")) && Elem(e, 1) == Some(x);
    assert JsString(Sym("not")) == "not";
  }

  /** `(- x)` renders as `-x`, with `x` as JavaScript prints it. */
  lemma Negative(x: SExp)
    ensures Render(Some(List([Sym("-"), x])), "") == Ok(Text("-" + JsString(x)))
  {
    var e := List([Sym("-"), x]);
    assert Elem(e, 0) == Some(Sym("-")) && Elem(e, 1) == Some(x);
    assert JsString(Sym("-")) == "-";
  }

  /** Any other list headed by a symbol renders as `head: (second)`; later elements are
      dropped. */
  lemma Labelled(head: string, second: SExp, more: seq<SExp>)
    requires head !in Keywords && head !in {"and", "or"}
    requires Render(Some(second), "").Ok?
    ensures Render(Some(List([Sym(head), second] + more)), "") ==
            Ok(Text(head + ": (" + Shown(Render(Some(second), "").value) + ")"))
  {
    var e := List([Sym(head), second] + more);
    assert Elem(e, 0) == Some(Sym(head)) && Elem(e, 1) == Some(second);
    assert JsString(Sym(head)) == head;
  }

  /** A symbol that does not start with an operator character or `-` is returned as is. */
  lemma PlainSymbol(s: string)
    requires |s| > 0 && [s[0]] !in Keywords
    ensures Render(Some(Sym(s)), "") == Ok(Tree(Sym(s)))
  {
    assert Elem(Sym(s), 0) == Some(Sym([s[0]]));
    assert JsString(Sym([s[0]])) == [s[0]];
  }

  /** `toReadable`'s guard: an expression that does not start with `(` is wrapped in one. */
  function Wrapped(expr: string): (r: string)
    ensures |r| > 0 && r[0] == '('
    ensures |expr| > 0 && expr[0] == '(' ==> r == expr
    ensures !(|expr| > 0 && expr[0] == '(') ==> r == "(" + expr + ")"
  {
    if |expr| > 0 && expr[0] == '(' then expr else "(" + expr + ")"
  }

  lemma WrappedIdempotent(expr: string)
    ensures Wrapped(Wrapped(expr)) == Wrapped(expr)
  {
  }

  // Renaming the invariant's variables.

  /** ASCII case folding, as a regular expression with the `i` flag compares characters. */
  function Lower(c: char): char
  {
    if 'A' <= c <= 'Z' then (c as int - 'A' as int + 'a' as int) as char else c
  }

  /** The pattern occurs at `k`, letters compared without case. */
  predicate MatchesAt(text: string, k: nat, pat: string)
  {
    k + |pat| <= |text| && forall j :: 0 <= j < |pat| ==> Lower(text[k + j]) == Lower(pat[j])
  }

  /** `text.replace(new RegExp(pat, "gi"), rep)` for a pattern without special characters:
      matches are taken from left to right and do not overlap. */
  function ReplaceAll(text: string, pat: string, rep: string): (r: string)
    requires |pat| > 0
    decreases |text|
  {
    if |text| < |pat| then text
    else if MatchesAt(text, 0, pat) then rep + ReplaceAll(text[|pat|..], pat, rep)
    else [text[0]] + ReplaceAll(text[1..], pat, rep)
  }

  /** Matching one position further into the text is matching in the text without its first
      character. */
  lemma MatchesShift(text: string, k: nat, pat: string)
    requires |text| > 0
    ensures MatchesAt(text[1..], k, pat) <==> MatchesAt(text, k + 1, pat)
  {
    if k + 1 + |pat| <= |text| {
      var rest := text[1..];
      forall j | 0 <= j < |pat|
        ensures (Lower(rest[k + j]) == Lower(pat[j])) == (Lower(text[k + 1 + j]) == Lower(pat[j]))
      {
        assert rest[k + j] == text[k + 1 + j];
      }
    }
  }

  /** Text before the first occurrence is copied unchanged. */
  lemma {:induction false} ReplaceAllSkips(text: string, pat: string, rep: string, n: nat)
    requires |pat| > 0 && n <= |text|
    requires forall k :: 0 <= k < n ==> !MatchesAt(text, k, pat)
    ensures ReplaceAll(text, pat, rep) == text[..n] + ReplaceAll(text[n..], pat, rep)
    decreases n
  {
    if n == 0 {
      assert text[..0] == "" && text[0..] == text;
    } else if |text| < |pat| {
      assert text[..n] + text[n..] == text;
    } else {
      assert !MatchesAt(text, 0, pat);
      forall k | 0 <= k < n - 1 ensures !MatchesAt(text[1..], k, pat) {
        MatchesShift(text, k, pat);
      }
      ReplaceAllSkips(text[1..], pat, rep, n - 1);
      assert text[1..][..n - 1] == text[1..n];
      assert text[1..][n - 1..] == text[n..];
      assert [text[0]] + text[1..n] == text[..n];
    }
  }

  /** A text in which the pattern does not occur is left as it is. */
  lemma ReplaceAllNoMatch(text: string, pat: string, rep: string)
    requires |pat| > 0
    requires forall k :: 0 <= k < |text| ==> !MatchesAt(text, k, pat)
    ensures ReplaceAll(text, pat, rep) == text
  {
    ReplaceAllSkips(text, pat, rep, |text|);
    assert text[..|text|] == text;
  }

  /** The first occurrence, in whatever letter case, is replaced, with the text before it kept
      and the text after it processed in turn. */
  lemma ReplaceAllFirstMatch(before: string, occurrence: string, after: string, pat: string, rep: string)
    requires |pat| > 0 && |occurrence| == |pat| && MatchesAt(occurrence, 0, pat)
    requires forall k :: 0 <= k < |before| ==> !MatchesAt(before + occurrence + after, k, pat)
    ensures ReplaceAll(before + occurrence + after, pat, rep) == before + rep + ReplaceAll(after, pat, rep)
  {
    var text := before + occurrence + after;
    ReplaceAllSkips(text, pat, rep, |before|);
    var tail := text[|before|..];
    assert tail == occurrence + after;
    assert MatchesAt(tail, 0, pat) by {
      forall j | 0 <= j < |pat| ensures tail[j] == occurrence[j] { }
    }
    assert tail[|pat|..] == after;
    assert text[..|before|] == before;
  }

  /** `new RegExp("Inv_" + i + "_n", "gi")`'s pattern. */
  function VarPattern(i: nat): (p: string)
    ensures |p| > 0
  {
    "Inv_" + NatToString(i) + "_n"
  }

  /** The text after the first `n` renamings, in the order the loop does them. */
  function Renamed(text: string, names: seq<string>, n: nat): string
    requires n <= |names|
  {
    if n == 0 then text else ReplaceAll(Renamed(text, names, n - 1), VarPattern(n - 1), names[n - 1])
  }

  /** `replaceVarNames`: a rendered string has each `Inv_<i>_n`, in any letter case, replaced
      by the `i`-th comma-separated name, for `i` from the first name to the last; a value that
      is not a string is returned unchanged. */
  method ReplaceVarNames(expr: Value, varList: string) returns (r: Value)
    ensures expr.Tree? ==> r == expr
    ensures expr.Text? ==> r == Text(Renamed(expr.s, Split(varList, ','), |Split(varList, ',')|))
  {
    if expr.Tree? {
      return expr;
    }
    var newList := Split(varList, ',');
    var s := expr.s;
    for i := 0 to |newList|
      invariant s == Renamed(expr.s, newList, i)
    {
      s := ReplaceAll(s, VarPattern(i), newList[i]);
    }
    r := Text(s);
  }

  /** `toReadable`, with the S-expression reader passed in: wraps the expression in brackets
      if needed, renders it, and renames the variables unless the name list is empty. */
  method ToReadable(expr: string, varList: string, parse: string -> Result<SExp>) returns (r: Result<Value>)
    ensures parse(Wrapped(expr)).Err? ==> r == Err(parse(Wrapped(expr)).error)
    ensures parse(Wrapped(expr)).Ok? && varList == "" ==> r == Render(Some(parse(Wrapped(expr)).value), "")
    ensures parse(Wrapped(expr)).Ok? && varList != "" ==>
              var rendered := Render(Some(parse(Wrapped(expr)).value), "");
              (r.Ok? <==> rendered.Ok?) &&
              (rendered.Ok? && rendered.value.Tree? ==> r == rendered) &&
              (rendered.Ok? && rendered.value.Text? ==>
                 r == Ok(Text(Renamed(rendered.value.s, Split(varList, ','), |Split(varList, ',')|))))
  {
    var wrapped := expr;
    if !(|expr| > 0 && expr[0] == '(') {
      wrapped := "(" + expr + ")";
    }
    var tree := parse(wrapped);
    if tree.Err? {
      return Err(tree.error);
    }
    var reorderResult := Render(Some(tree.value), "");
    if reorderResult.Err? || varList == "" {
      return reorderResult;
    }
    var renamed := ReplaceVarNames(reorderResult.value, varList);
    r := Ok(renamed);
  }

  /** With a name list, `Inv_0_n` written in any letter case becomes the first name. */
  lemma RenamesFirstVariable(occurrence: string, name: string)
    requires |occurrence| == |VarPattern(0)| && MatchesAt(occurrence, 0, VarPattern(0))
    requires ',' !in name
    ensures Renamed(occurrence, Split(name, ','), 1) == name
  {
    var pat := VarPattern(0);
    assert Split(name, ',') == [name];
    assert Renamed(occurrence, [name], 0) == occurrence;
    assert occurrence[|pat|..] == "";
    assert ReplaceAll("", pat, name) == "";
    assert ReplaceAll(occurrence, pat, name) == name + ReplaceAll(occurrence[|pat|..], pat, name);
  }
}
