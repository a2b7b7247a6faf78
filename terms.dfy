/** Terms and literals of the TypeScript frontend (visualization-frontend/src/model/literal.ts)
    and their printers. */
module Terms {
  import opened Text

  /** `FunctionApplication`: a name applied to argument terms; a constant has no arguments. */
  datatype Term = Term(name: string, args: seq<Term>)

  /** `Literal`: a predicate symbol or `=` applied to terms, possibly negated. */
  datatype Literal = Literal(name: string, args: seq<Term>, negated: bool)

  /** `FunctionApplication.toString`: a constant prints as its bare name, any other term as
      its name followed by its arguments in brackets, separated by commas without spaces. */
  function TermString(t: Term): string
    decreases t
  {
    if |t.args| == 0 then t.name else t.name + "(" + Join(ArgStrings(t.args), ",") + ")"
  }

  /** The printed arguments, one per argument, in order. */
  function ArgStrings(ts: seq<Term>): (r: seq<string>)
    ensures |r| == |ts|
    decreases ts
  {
    seq(|ts|, i requires 0 <= i < |ts| => TermString(ts[i]))
  }

  /** `Literal.toString`: `!` for a negated literal, then the name and the bracketed
      arguments; the brackets are printed even when there are no arguments. */
  function LiteralString(l: Literal): string
  {
    (if l.negated then "!" else "") + l.name + "(" + Join(ArgStrings(l.args), ",") + ")"
  }

  /** A printed literal starts with `!` exactly when it is negated (for a name that does not
      itself start with `!`), names the predicate right after that mark, and always ends with
      a closing bracket. */
  lemma LiteralStringShape(l: Literal)
    requires l.name == "" || l.name[0] != '!'
    ensures var r := LiteralString(l);
            var mark := if l.negated then "!" else "";
            (StartsWith(r, "!") <==> l.negated) &&
            StartsWith(r, mark + l.name + "(") && EndsWith(r, ")")
  {
    var r := LiteralString(l);
    var mark := if l.negated then "!" else "";
    var body := Join(ArgStrings(l.args), ",");
    assert r == (mark + l.name + "(") + (body + ")");
    if !l.negated {
      assert r == l.name + "(" + body + ")";
      assert |r| > 0;
      assert r[0] != '!';
    }
  }
}
