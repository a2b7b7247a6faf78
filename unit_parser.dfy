/** The frontend's parser for terms (visualization-frontend/src/model/unit-parser.ts,
    `parseFunctionApplication`): the text is cut into tokens, an empty pair of brackets is
    inserted after every name that is not already applied, and a stack of frames folds the
    tokens into a term. */
module TermParsing {
  import opened Wrappers
  import opened Text
  import opened Terms

  /** The characters that end a name and form a token of their own. */
  predicate IsDelim(c: char) { c == '(' || c == ')' || c == ',' }

  /** Any token other than a bracket or a comma. */
  predicate IsNameToken(t: string) { t != "(" && t != ")" && t != "," }

  /** A token as the lexer cuts it: one delimiter, or a non-empty run without delimiters. */
  predicate IsToken(t: string)
  {
    (|t| == 1 && IsDelim(t[0])) || (|t| > 0 && forall i :: 0 <= i < |t| ==> !IsDelim(t[i]))
  }

  /** The length of the longest delimiter-free prefix. */
  function RunLength(s: string): (k: nat)
    ensures k <= |s| && (forall i :: 0 <= i < k ==> !IsDelim(s[i])) && (k < |s| ==> IsDelim(s[k]))
  {
    if s == [] || IsDelim(s[0]) then 0 else 1 + RunLength(s[1..])
  }

  /** The length of the token at the front of a non-empty string. */
  function HeadLength(s: string): (k: nat)
    requires s != ""
    ensures 0 < k <= |s|
  {
    if IsDelim(s[0]) then 1 else RunLength(s)
  }

  /** The tokens of a string, front to back (part 1 of `parseFunctionApplication`). */
  function Lex(s: string): seq<string>
    decreases |s|
  {
    if s == "" then [] else [s[..HeadLength(s)]] + Lex(s[HeadLength(s)..])
  }

  /** The concatenation of a sequence of strings. */
  function Concat(ts: seq<string>): string
  {
    if ts == [] then "" else ts[0] + Concat(ts[1..])
  }

  /** Lexing loses nothing: the tokens concatenate back to the input. */
  lemma {:induction false} LexConcat(s: string)
    ensures Concat(Lex(s)) == s
    decreases |s|
  {
    if s != "" {
      var k := HeadLength(s);
      LexConcat(s[k..]);
      var ts := Lex(s);
      assert ts[1..] == Lex(s[k..]);
      assert s == s[..k] + s[k..];
    }
  }

  /** Each token is a delimiter or a non-empty run of other characters. */
  lemma {:induction false} LexTokensAreTokens(s: string)
    ensures var ts := Lex(s); forall i :: 0 <= i < |ts| ==> IsToken(ts[i])
    decreases |s|
  {
    if s != "" {
      var k := HeadLength(s);
      LexTokensAreTokens(s[k..]);
      var ts := Lex(s);
      assert ts[1..] == Lex(s[k..]);
      if IsDelim(s[0]) { assert ts[0] == [s[0]]; }
      forall i | 0 <= i < |ts| ensures IsToken(ts[i]) {
        if i > 0 { assert ts[i] == ts[1..][i - 1]; }
      }
    }
  }

  /** A run is never followed by another run: the token after a name is a delimiter. */
  lemma {:induction false} LexNameFollowed(s: string)
    ensures var ts := Lex(s);
            forall i :: 0 <= i < |ts| - 1 && IsNameToken(ts[i]) ==> |ts[i + 1]| == 1 && IsDelim(ts[i + 1][0])
    decreases |s|
  {
    if s != "" {
      var k := HeadLength(s);
      var rest := s[k..];
      LexNameFollowed(rest);
      var ts := Lex(s);
      assert ts[1..] == Lex(rest);
      if !IsDelim(s[0]) && rest != "" {
        assert IsDelim(rest[0]) && HeadLength(rest) == 1;
        assert ts[1] == Lex(rest)[0] == rest[..1];
      }
      if IsDelim(s[0]) { assert ts[0] == [s[0]]; }
      forall i | 0 <= i < |ts| - 1 && IsNameToken(ts[i]) ensures |ts[i + 1]| == 1 && IsDelim(ts[i + 1][0]) {
        if i > 0 { assert ts[i] == Lex(rest)[i - 1] && ts[i + 1] == Lex(rest)[i]; }
      }
    }
  }

  /** A run of `k` non-delimiters followed by a delimiter or the end is one token. */
  lemma LexRun(u: string, k: nat)
    requires 0 < k <= |u| && (forall i :: 0 <= i < k ==> !IsDelim(u[i])) && (k == |u| || IsDelim(u[k]))
    ensures Lex(u) == [u[..k]] + Lex(u[k..])
  {
    assert HeadLength(u) == k;
  }

  lemma LexDelim(c: char, u: string)
    requires IsDelim(c)
    ensures Lex([c] + u) == [[c]] + Lex(u)
  {
    assert ([c] + u)[..1] == [c] && ([c] + u)[1..] == u;
  }

  /** The token at `pos` ends at `e`: lexing from `pos` yields it, then lexes from `e`. */
  lemma LexAt(s: string, pos: nat, e: nat)
    requires pos < e <= |s| && e == pos + HeadLength(s[pos..])
    ensures Lex(s[pos..]) == [s[pos..e]] + Lex(s[e..])
  {
    assert s[pos..][..e - pos] == s[pos..e];
    assert s[pos..][e - pos..] == s[e..];
  }

  /** Part 1 of `parseFunctionApplication`: the lexing loop. */
  method LexTokens(s: string) returns (tokens: seq<string>)
    ensures tokens == Lex(s)
  {
    tokens := [];
    var pos := 0;
    while pos < |s|
      invariant 0 <= pos <= |s| && tokens + Lex(s[pos..]) == Lex(s)
    {
      var tokenEnd := pos + 1;
      if !IsDelim(s[pos]) {
        while tokenEnd < |s| && !IsDelim(s[tokenEnd])
          invariant pos < tokenEnd <= |s| && forall i :: pos <= i < tokenEnd ==> !IsDelim(s[i])
        {
          tokenEnd := tokenEnd + 1;
        }
        RunLengthIs(s[pos..], tokenEnd - pos);
      }
      LexAt(s, pos, tokenEnd);
      tokens := tokens + [s[pos..tokenEnd]];
      pos := tokenEnd;
    }
  }

  /** A maximal run of non-delimiters has the run's length. */
  lemma {:induction false} RunLengthIs(u: string, k: nat)
    requires k <= |u| && (forall i :: 0 <= i < k ==> !IsDelim(u[i])) && (k == |u| || IsDelim(u[k]))
    ensures RunLength(u) == k
    decreases k
  {
    if k > 0 {
      RunLengthIs(u[1..], k - 1);
    }
  }

  /** The tokens after part 2: every name not already followed by an opening bracket gets an
      empty pair of brackets, so that constants become applications to no arguments. */
  function Bracketed(ts: seq<string>): (r: seq<string>)
  {
    if ts == [] then []
    else if IsNameToken(ts[0]) && (|ts| == 1 || ts[1] != "(") then [ts[0], "(", ")"] + Bracketed(ts[1..])
    else [ts[0]] + Bracketed(ts[1..])
  }

  /** After bracket insertion every name is immediately followed by an opening bracket. */
  lemma {:induction false} BracketedNamesApplied(ts: seq<string>)
    ensures forall i :: 0 <= i < |Bracketed(ts)| && IsNameToken(Bracketed(ts)[i]) ==>
              i + 1 < |Bracketed(ts)| && Bracketed(ts)[i + 1] == "("
  {
    if ts != [] {
      BracketedNamesApplied(ts[1..]);
      var rest := Bracketed(ts[1..]);
      if IsNameToken(ts[0]) && |ts| > 1 && ts[1] == "(" {
        assert rest[0] == "(";
      }
    }
  }

  /** Part 2 of `parseFunctionApplication`: the loop that splices `(` and `)` in after each
      constant, re-reading the growing array. */
  method InsertBrackets(orig: seq<string>) returns (tokens: seq<string>)
    ensures tokens == Bracketed(orig)
  {
    tokens := orig;
    var i := 0;
    ghost var m := 0;
    ghost var done: seq<string> := [];
    while i < |tokens|
      invariant 0 <= m <= |orig| && 0 <= i <= |done|
      invariant tokens == done + orig[m..]
      invariant done + Bracketed(orig[m..]) == Bracketed(orig)
      invariant forall j :: i <= j < |done| ==> !IsNameToken(done[j])
      decreases 3 * (|orig| - m) + (|done| - i)
    {
      var token := tokens[i];
      if i == |done| {
        BracketedStep(done, orig, m);
      } else {
        assert token == done[i];
      }
      if IsNameToken(token) && (i + 1 == |tokens| || tokens[i + 1] != "(") {
        InsertedPair(done, token, orig[m + 1..]);
        tokens := tokens[..i + 1] + ["("] + tokens[i + 1..];
        tokens := tokens[..i + 2] + [")"] + tokens[i + 2..];
        done, m := done + [token, "(", ")"], m + 1;
      } else if i == |done| {
        done, m := done + [token], m + 1;
      }
      i := i + 1;
    }
    assert done == tokens;
  }

  /** One step of bracket insertion, as the loop of `InsertBrackets` sees it at its frontier. */
  lemma BracketedStep(done: seq<string>, orig: seq<string>, m: nat)
    requires m < |orig|
    ensures done + orig[m..] == done + [orig[m]] + orig[m + 1..]
    ensures var t := done + orig[m..];
            t[|done|] == orig[m] && (|done| + 1 < |t| ==> t[|done| + 1] == orig[m + 1])
    ensures IsNameToken(orig[m]) && (m + 1 == |orig| || orig[m + 1] != "(") ==>
              (done + [orig[m], "(", ")"]) + Bracketed(orig[m + 1..]) == done + Bracketed(orig[m..])
    ensures !(IsNameToken(orig[m]) && (m + 1 == |orig| || orig[m + 1] != "(")) ==>
              (done + [orig[m]]) + Bracketed(orig[m + 1..]) == done + Bracketed(orig[m..])
  {
    assert orig[m..] == [orig[m]] + orig[m + 1..];
    BracketedCons(orig[m], orig[m + 1..]);
  }

  /** Inserting `(` and then `)` after the frontier name. */
  lemma InsertedPair(done: seq<string>, x: string, tail: seq<string>)
    ensures var t := done + [x] + tail;
            var i := |done|;
            var t1 := t[..i + 1] + ["("] + t[i + 1..];
            t1[..i + 2] + [")"] + t1[i + 2..] == done + [x, "(", ")"] + tail
  {
  }

  /** An entry of a frame: a name waiting for its arguments, or a finished term. */
  datatype Item = Name(name: string) | Applied(term: Term)

  /** The finished terms of a frame, when every entry is one. */
  predicate AllApplied(frame: seq<Item>)
  {
    forall i :: 0 <= i < |frame| ==> frame[i].Applied?
  }

  function TermsOf(frame: seq<Item>): (r: seq<Term>)
    requires AllApplied(frame)
    ensures |r| == |frame| && forall i :: 0 <= i < |frame| ==> r[i] == frame[i].term
  {
    seq(|frame|, i requires 0 <= i < |frame| => frame[i].term)
  }

  /** The stack with `x` pushed onto its top frame. */
  function Push(stack: seq<seq<Item>>, x: Item): (r: seq<seq<Item>>)
    requires |stack| > 0
    ensures |r| == |stack|
  {
    stack[..|stack| - 1] + [stack[|stack| - 1] + [x]]
  }

  /** One token of part 3: a name goes onto the top frame, `(` opens a frame, `)` closes the
      top frame and applies the name below it to the closed frame's terms, and `,` is
      ignored. Closing the only frame leaves no frame to pop the name from, which raises;
      a missing name or a frame entry of the wrong kind is a value of the wrong type. */
  function Apply(stack: seq<seq<Item>>, token: string): (r: Result<seq<seq<Item>>>)
    requires |stack| > 0
    ensures r.Ok? ==> |r.value| > 0
  {
    if IsNameToken(token) then Ok(Push(stack, Name(token)))
    else if token == "(" then Ok(stack + [[]])
    else if token == ")" then
      if |stack| < 2 then Err(BadType)
      else
        var args := stack[|stack| - 1];
        var below := stack[|stack| - 2];
        if below == [] || !below[|below| - 1].Name? || !AllApplied(args) then Err(BadType)
        else
          var f := Term(below[|below| - 1].name, TermsOf(args));
          Ok(stack[..|stack| - 2] + [below[..|below| - 1] + [Applied(f)]])
    else Ok(stack)
  }

  /** The stack after the tokens, or the first error. */
  function Run(stack: seq<seq<Item>>, tokens: seq<string>): Result<seq<seq<Item>>>
    requires |stack| > 0
    decreases |tokens|
  {
    if tokens == [] then Ok(stack)
    else
      var next := Apply(stack, tokens[0]);
      if next.Err? then next else Run(next.value, tokens[1..])
  }

  /** Part 3 and the final check: exactly one frame must remain, and its first entry is the
      result; an empty frame or a bare name there is not a term. */
  function ParseTokens(tokens: seq<string>): Result<Term>
  {
    var r := Run([[]], tokens);
    if r.Err? then Err(r.error)
    else if |r.value| != 1 then Err(AssertionFailed)
    else if r.value[0] == [] || r.value[0][0].Name? then Err(BadType)
    else Ok(r.value[0][0].term)
  }

  /** What `parseFunctionApplication` returns for a string. */
  function FunctionApplicationOf(s: string): Result<Term>
  {
    ParseTokens(Bracketed(Lex(s)))
  }

  /** `parseFunctionApplication`: lexing, bracket insertion and the stack parse. */
  method ParseFunctionApplication(s: string) returns (r: Result<Term>)
    ensures r == FunctionApplicationOf(s)
  {
    var lexed := LexTokens(s);
    var tokens := InsertBrackets(lexed);
    var stack: seq<seq<Item>> := [[]];
    for pos := 0 to |tokens|
      invariant |stack| > 0 && Run([[]], tokens) == Run(stack, tokens[pos..])
    {
      assert tokens[pos..][1..] == tokens[pos + 1..];
      var next := Apply(stack, tokens[pos]);
      if next.Err? {
        return Err(next.error);
      }
      stack := next.value;
    }
    if |stack| != 1 {
      return Err(AssertionFailed);
    }
    if stack[0] == [] || stack[0][0].Name? {
      return Err(BadType);
    }
    r := Ok(stack[0][0].term);
  }

  /** A term the printer and the parser agree on: every name is non-empty and free of
      brackets and commas. */
  predicate WellNamed(t: Term)
    decreases t
  {
    t.name != "" && (forall i :: 0 <= i < |t.name| ==> !IsDelim(t.name[i])) &&
    forall i :: 0 <= i < |t.args| ==> WellNamed(t.args[i])
  }

  /** The tokens of a printed term. */
  function TermTokens(t: Term): seq<string>
    decreases t
  {
    if |t.args| == 0 then [t.name] else [t.name, "("] + ArgTokens(t.args) + [")"]
  }

  function ArgTokens(ts: seq<Term>): seq<string>
    decreases ts
  {
    if |ts| == 0 then [] else if |ts| == 1 then TermTokens(ts[0])
    else TermTokens(ts[0]) + [","] + ArgTokens(ts[1..])
  }

  /** The tokens of a printed term once every name is applied. */
  function FullTokens(t: Term): seq<string>
    decreases t
  {
    [t.name, "("] + FullArgs(t.args) + [")"]
  }

  function FullArgs(ts: seq<Term>): seq<string>
    decreases ts
  {
    if |ts| == 0 then [] else if |ts| == 1 then FullTokens(ts[0])
    else FullTokens(ts[0]) + [","] + FullArgs(ts[1..])
  }

  function AppliedAll(ts: seq<Term>): (r: seq<Item>)
    ensures |r| == |ts| && AllApplied(r) && TermsOf(r) == ts
  {
    seq(|ts|, i requires 0 <= i < |ts| => Applied(ts[i]))
  }

  /** A name followed by a delimiter or nothing is one token. */
  lemma LexName(name: string, rest: string)
    requires name != "" && (forall i :: 0 <= i < |name| ==> !IsDelim(name[i])) && (rest == "" || IsDelim(rest[0]))
    ensures Lex(name + rest) == [name] + Lex(rest)
  {
    var u := name + rest;
    LexRun(u, |name|);
    assert u[..|name|] == name && u[|name|..] == rest;
  }

  lemma {:induction false} LexTerm(t: Term, rest: string)
    requires WellNamed(t) && (rest == "" || IsDelim(rest[0]))
    ensures Lex(TermString(t) + rest) == TermTokens(t) + Lex(rest)
    decreases t, 1
  {
    if |t.args| == 0 {
      LexName(t.name, rest);
    } else {
      var body := Join(ArgStrings(t.args), ",");
      var after := [')'] + rest;
      var openTail := ['('] + (body + after);
      assert TermString(t) + rest == t.name + openTail;
      calc {
        Lex(t.name + openTail);
        { LexName(t.name, openTail); }
        [t.name] + Lex(openTail);
        { LexDelim('(', body + after); }
        [t.name] + (["("] + Lex(body + after));
        { LexArgs(t.args, after); }
        [t.name] + (["("] + (ArgTokens(t.args) + Lex(after)));
        { LexDelim(')', rest); }
        [t.name] + (["("] + (ArgTokens(t.args) + ([")"] + Lex(rest))));
        TermTokens(t) + Lex(rest);
      }
    }
  }

  lemma {:induction false} LexArgs(ts: seq<Term>, rest: string)
    requires |ts| > 0 && (forall i :: 0 <= i < |ts| ==> WellNamed(ts[i])) && (rest == "" || IsDelim(rest[0]))
    ensures Lex(Join(ArgStrings(ts), ",") + rest) == ArgTokens(ts) + Lex(rest)
    decreases ts, 0
  {
    if |ts| == 1 {
      LexTerm(ts[0], rest);
    } else {
      var tail := Join(ArgStrings(ts[1..]), ",");
      var after := [','] + (tail + rest);
      assert ArgStrings(ts)[1..] == ArgStrings(ts[1..]);
      assert Join(ArgStrings(ts), ",") + rest == TermString(ts[0]) + after;
      calc {
        Lex(TermString(ts[0]) + after);
        { LexTerm(ts[0], after); }
        TermTokens(ts[0]) + Lex(after);
        { LexDelim(',', tail + rest); }
        TermTokens(ts[0]) + ([","] + Lex(tail + rest));
        { LexArgs(ts[1..], rest); }
        TermTokens(ts[0]) + ([","] + (ArgTokens(ts[1..]) + Lex(rest)));
        ArgTokens(ts) + Lex(rest);
      }
    }
  }

  lemma BracketedCons(x: string, ts: seq<string>)
    ensures Bracketed([x] + ts) ==
            if IsNameToken(x) && (ts == [] || ts[0] != "(") then [x, "(", ")"] + Bracketed(ts) else [x] + Bracketed(ts)
  {
    assert ([x] + ts)[1..] == ts;
  }

  lemma NameIsNameToken(name: string)
    requires name != "" && forall i :: 0 <= i < |name| ==> !IsDelim(name[i])
    ensures IsNameToken(name)
  {
    assert !IsDelim(name[0]);
  }

  lemma {:induction false} BracketTerm(t: Term, rest: seq<string>)
    requires WellNamed(t) && (rest == [] || rest[0] != "(")
    ensures Bracketed(TermTokens(t) + rest) == FullTokens(t) + Bracketed(rest)
    decreases t, 1
  {
    NameIsNameToken(t.name);
    if |t.args| == 0 {
      BracketedCons(t.name, rest);
      assert FullArgs(t.args) == [];
      assert FullTokens(t) == [t.name, "(", ")"];
    } else {
      var after := [")"] + rest;
      var inner := ArgTokens(t.args) + after;
      var openTail := ["("] + inner;
      assert TermTokens(t) + rest == [t.name] + openTail;
      calc {
        Bracketed([t.name] + openTail);
        { BracketedCons(t.name, openTail); }
        [t.name] + Bracketed(openTail);
        { BracketedCons("(", inner); }
        [t.name] + (["("] + Bracketed(inner));
        { BracketArgs(t.args, after); }
        [t.name] + (["("] + (FullArgs(t.args) + Bracketed(after)));
        { BracketedCons(")", rest); }
        [t.name] + (["("] + (FullArgs(t.args) + ([")"] + Bracketed(rest))));
        FullTokens(t) + Bracketed(rest);
      }
    }
  }

  lemma {:induction false} BracketArgs(ts: seq<Term>, rest: seq<string>)
    requires |ts| > 0 && (forall i :: 0 <= i < |ts| ==> WellNamed(ts[i])) && (rest == [] || rest[0] != "(")
    ensures Bracketed(ArgTokens(ts) + rest) == FullArgs(ts) + Bracketed(rest)
    decreases ts, 0
  {
    if |ts| == 1 {
      BracketTerm(ts[0], rest);
    } else {
      var tail := ArgTokens(ts[1..]);
      var after := [","] + (tail + rest);
      assert ArgTokens(ts) + rest == TermTokens(ts[0]) + after;
      calc {
        Bracketed(TermTokens(ts[0]) + after);
        { BracketTerm(ts[0], after); }
        FullTokens(ts[0]) + Bracketed(after);
        { BracketedCons(",", tail + rest); }
        FullTokens(ts[0]) + ([","] + Bracketed(tail + rest));
        { BracketArgs(ts[1..], rest); }
        FullTokens(ts[0]) + ([","] + (FullArgs(ts[1..]) + Bracketed(rest)));
        FullArgs(ts) + Bracketed(rest);
      }
    }
  }

  lemma RunCons(stack: seq<seq<Item>>, x: string, ts: seq<string>)
    requires |stack| > 0 && Apply(stack, x).Ok?
    ensures Run(stack, [x] + ts) == Run(Apply(stack, x).value, ts)
  {
    assert ([x] + ts)[1..] == ts;
  }

  /** Closing the frame of a term's arguments applies its name to them. */
  lemma CloseFrame(stack: seq<seq<Item>>, t: Term)
    requires |stack| > 0
    ensures Apply(Push(stack, Name(t.name)) + [AppliedAll(t.args)], ")") == Ok(Push(stack, Applied(t)))
  {
    var named := Push(stack, Name(t.name));
    var filled := named + [AppliedAll(t.args)];
    var below := filled[|filled| - 2];
    assert below == stack[|stack| - 1] + [Name(t.name)];
    assert below[..|below| - 1] == stack[|stack| - 1];
    assert filled[..|filled| - 2] == stack[..|stack| - 1];
    assert Term(t.name, TermsOf(AppliedAll(t.args))) == t;
  }

  lemma {:induction false} RunTerm(stack: seq<seq<Item>>, t: Term, rest: seq<string>)
    requires |stack| > 0 && WellNamed(t)
    ensures Run(stack, FullTokens(t) + rest) == Run(Push(stack, Applied(t)), rest)
    decreases t, 2
  {
    NameIsNameToken(t.name);
    var named := Push(stack, Name(t.name));
    var closing := [")"] + rest;
    var inner := FullArgs(t.args) + closing;
    assert FullTokens(t) + rest == [t.name] + (["("] + inner);
    RunCons(stack, t.name, ["("] + inner);
    RunCons(named, "(", inner);
    RunArgs(named, [], t.args, closing);
    assert [] + AppliedAll(t.args) == AppliedAll(t.args);
    CloseFrame(stack, t);
    RunCons(named + [AppliedAll(t.args)], ")", rest);
  }

  lemma {:induction false} RunArgs(stack: seq<seq<Item>>, frame: seq<Item>, ts: seq<Term>, rest: seq<string>)
    requires |stack| > 0 && forall i :: 0 <= i < |ts| ==> WellNamed(ts[i])
    ensures Run(stack + [frame], FullArgs(ts) + rest) == Run(stack + [frame + AppliedAll(ts)], rest)
    decreases ts, 1
  {
    if |ts| == 0 {
      assert frame + AppliedAll(ts) == frame;
      assert FullArgs(ts) + rest == rest;
    } else {
      var grown := frame + [Applied(ts[0])];
      assert Push(stack + [frame], Applied(ts[0])) == stack + [grown];
      AppliedAllCons(frame, ts);
      if |ts| == 1 {
        assert AppliedAll(ts[1..]) == [] && grown + [] == grown;
        assert FullArgs(ts) == FullTokens(ts[0]);
        RunTerm(stack + [frame], ts[0], rest);
      } else {
        RunSeveralArgs(stack, frame, ts, rest);
      }
    }
  }

  /** `RunArgs` for two or more arguments: the first, a comma, then the others. */
  lemma {:induction false} RunSeveralArgs(stack: seq<seq<Item>>, frame: seq<Item>, ts: seq<Term>, rest: seq<string>)
    requires |stack| > 0 && |ts| > 1 && forall i :: 0 <= i < |ts| ==> WellNamed(ts[i])
    ensures Run(stack + [frame], FullArgs(ts) + rest) == Run(stack + [(frame + [Applied(ts[0])]) + AppliedAll(ts[1..])], rest)
    decreases ts, 0
  {
    var grown := frame + [Applied(ts[0])];
    assert Push(stack + [frame], Applied(ts[0])) == stack + [grown];
    var tail := FullArgs(ts[1..]);
    var after := [","] + (tail + rest);
    assert FullArgs(ts) + rest == FullTokens(ts[0]) + after;
    calc {
      Run(stack + [frame], FullTokens(ts[0]) + after);
      { RunTerm(stack + [frame], ts[0], after); }
      Run(stack + [grown], after);
      { RunComma(stack + [grown], tail + rest); }
      Run(stack + [grown], tail + rest);
      { RunArgs(stack, grown, ts[1..], rest); }
      Run(stack + [grown + AppliedAll(ts[1..])], rest);
    }
  }

  /** A comma between arguments leaves the stack as it is. */
  lemma RunComma(stack: seq<seq<Item>>, ts: seq<string>)
    requires |stack| > 0
    ensures Run(stack, [","] + ts) == Run(stack, ts)
  {
    assert ([","] + ts)[1..] == ts;
  }

  lemma AppliedAllCons(frame: seq<Item>, ts: seq<Term>)
    requires |ts| > 0
    ensures (frame + [Applied(ts[0])]) + AppliedAll(ts[1..]) == frame + AppliedAll(ts)
  {
  }

  /** Printing a term and parsing the printout gives the term back, provided its names are
      non-empty and free of brackets and commas. */
  lemma PrintParseRoundTrip(t: Term)
    requires WellNamed(t)
    ensures FunctionApplicationOf(TermString(t)) == Ok(t)
  {
    LexTerm(t, "");
    assert TermString(t) + "" == TermString(t);
    BracketTerm(t, []);
    RunTerm([[]], t, []);
    assert TermTokens(t) + [] == TermTokens(t) && FullTokens(t) + [] == FullTokens(t);
    var empty: seq<seq<Item>> := [[]];
    assert empty[..0] == [] && empty[0] + [Applied(t)] == [Applied(t)];
    assert Push(empty, Applied(t)) == [[Applied(t)]];
  }
}

/** Literals, clauses and units as the frontend reads them from the prover's output
    (visualization-frontend/src/model/unit-parser.ts: `parseLiteral`, `parseClause` and
    `parseUnit`). */
module UnitParsing {
  import opened Wrappers
  import opened Text
  import opened Terms
  import opened Units
  import opened TermParsing

  /** An equality of the terms written `lhs` and `rhs`; an error in the left side comes first. */
  function Equation(lhs: string, rhs: string, negated: bool): (r: Result<Literal>)
    ensures r.Ok? ==> r.value.name == "=" && |r.value.args| == 2 && r.value.negated == negated
  {
    match FunctionApplicationOf(lhs)
    case Err(e) => Err(e)
    case Ok(a) =>
      match FunctionApplicationOf(rhs)
      case Err(e) => Err(e)
      case Ok(b) => Ok(Literal("=", [a, b], negated))
  }

  /** `parseLiteral`: an equality is written infix as `a = b` or `a != b`, with the sign
      surrounded by single spaces, and its first `=` decides the split; any other literal is a
      term, negated by a leading `~`. */
  function LiteralOf(s: string): (r: Result<Literal>)
    ensures r.Ok? && '=' in s ==> r.value.name == "=" && |r.value.args| == 2
    ensures r.Ok? && '=' !in s ==> r.value.negated == (|s| > 0 && s[0] == '~')
  {
    if '=' in s then
      var p := IndexOf(s, '=');
      if p >= 1 && s[p - 1] == '!' then
        if p < 2 || s[p - 2] != ' ' || p + 1 >= |s| || s[p + 1] != ' ' then Err(AssertionFailed)
        else Equation(s[..p - 2], s[p + 2..], true)
      else if p < 1 || s[p - 1] != ' ' || p + 1 >= |s| || s[p + 1] != ' ' then Err(AssertionFailed)
      else Equation(s[..p - 1], s[p + 2..], false)
    else
      var negated := |s| > 0 && s[0] == '~';
      match FunctionApplicationOf(if negated then s[1..] else s)
      case Err(e) => Err(e)
      case Ok(t) => Ok(Literal(t.name, t.args, negated))
  }

  /** The literals of the pieces, in order, or the first piece's error. */
  function LiteralsOf(pieces: seq<string>): (r: Result<seq<Literal>>)
    ensures r.Ok? ==> |r.value| == |pieces| && forall i :: 0 <= i < |pieces| ==> LiteralOf(pieces[i]) == Ok(r.value[i])
    ensures r.Err? ==> exists i :: 0 <= i < |pieces| && LiteralOf(pieces[i]) == Err(r.error)
  {
    if pieces == [] then Ok([])
    else
      match LiteralOf(pieces[0])
      case Err(e) => Err(e)
      case Ok(l) =>
        match LiteralsOf(pieces[1..])
        case Err(e) => assert pieces[1..][0] in pieces; Err(e)
        case Ok(ls) => Ok([l] + ls)
  }

  /** `parseClause`: the literals between the ` | ` separators. */
  function ClauseOf(s: string, selected: Option<int>): (r: Result<Unit>)
    ensures r.Ok? ==> r.value.Clause? && r.value.selected == selected && |r.value.literals| == |SplitOn(s, Bar)|
  {
    match LiteralsOf(SplitOn(s, Bar))
    case Err(e) => Err(e)
    case Ok(ls) => Ok(Clause(ls, selected))
  }

  /** The characters `parseUnit` accepts in a clause from preprocessing. */
  predicate ClauseChar(c: char)
  {
    IsLetter(c) || IsDigit(c) || c in "()=,~!$ |'"
  }

  predicate ClauseText(s: string)
  {
    |s| > 0 && forall i :: 0 <= i < |s| ==> ClauseChar(s[i])
  }

  /** The prover's `nSel` statistic, when it reported one. */
  function SelectedOf(statistics: map<string, int>): Option<int>
  {
    if "nSel" in statistics then Some(statistics["nSel"]) else None
  }

  /** `parseUnit`: a unit that is not from preprocessing is always a clause; one from
      preprocessing is a clause when every character belongs to the clause notation, and is
      kept as a formula's text otherwise. */
  function ParseUnit(s: string, isFromPreprocessing: bool, statistics: map<string, int>): (r: Result<Unit>)
    ensures isFromPreprocessing && !ClauseText(s) ==> r == Ok(Formula(s))
    ensures !isFromPreprocessing || ClauseText(s) ==> r.Ok? ==> r.value.Clause? && r.value.selected == SelectedOf(statistics)
  {
    if !isFromPreprocessing || ClauseText(s) then ClauseOf(s, SelectedOf(statistics))
    else Ok(Formula(s))
  }

  /** A character the prover's notation allows inside a symbol. */
  predicate SymbolChar(c: char) { !IsDelim(c) && c != '=' && c != '|' }

  /** A term whose names are non-empty and made of symbol characters. */
  predicate Symbolic(t: Term)
    decreases t
  {
    t.name != "" && (forall i :: 0 <= i < |t.name| ==> SymbolChar(t.name[i])) &&
    forall i :: 0 <= i < |t.args| ==> Symbolic(t.args[i])
  }

  /** A literal the prover can write: an equality of two symbolic terms, or a symbolic
      atom whose name does not start with the negation sign. */
  predicate Readable(l: Literal)
  {
    if l.name == "=" then |l.args| == 2 && Symbolic(l.args[0]) && Symbolic(l.args[1])
    else Symbolic(Term(l.name, l.args)) && l.name[0] != '~'
  }

  /** How the prover writes a literal: equalities infix, negation as a leading `~`. */
  function LiteralNotation(l: Literal): string
  {
    if l.name == "=" && |l.args| == 2 then
      TermString(l.args[0]) + (if l.negated then " != " else " = ") + TermString(l.args[1])
    else (if l.negated then "~" else "") + TermString(Term(l.name, l.args))
  }

  lemma {:induction false} SymbolicWellNamed(t: Term)
    requires Symbolic(t)
    ensures WellNamed(t)
    decreases t
  {
    forall i | 0 <= i < |t.args| ensures WellNamed(t.args[i]) {
      SymbolicWellNamed(t.args[i]);
    }
  }

  /** Text made of symbol characters and delimiters only. */
  predicate TermChars(s: string)
  {
    forall i :: 0 <= i < |s| ==> SymbolChar(s[i]) || IsDelim(s[i])
  }

  lemma TermCharsConcat(a: string, b: string)
    requires TermChars(a) && TermChars(b)
    ensures TermChars(a + b)
  {
    forall i | 0 <= i < |a + b| ensures SymbolChar((a + b)[i]) || IsDelim((a + b)[i]) {
      if i >= |a| { assert (a + b)[i] == b[i - |a|]; }
    }
  }

  /** A printed symbolic term is made of symbol characters and delimiters, and starts with
      its name. */
  lemma {:induction false} SymbolicString(t: Term)
    requires Symbolic(t)
    ensures TermChars(TermString(t))
    ensures TermString(t)[0] == t.name[0]
    decreases t, 1
  {
    assert TermChars(t.name);
    if |t.args| > 0 {
      SymbolicArgs(t.args);
      var body := Join(ArgStrings(t.args), ",");
      TermCharsConcat(t.name, "(");
      TermCharsConcat(t.name + "(", body);
      TermCharsConcat(t.name + "(" + body, ")");
      assert TermString(t) == t.name + "(" + body + ")";
    }
  }

  lemma {:induction false} SymbolicArgs(ts: seq<Term>)
    requires forall i :: 0 <= i < |ts| ==> Symbolic(ts[i])
    ensures TermChars(Join(ArgStrings(ts), ","))
    decreases ts, 0
  {
    if |ts| > 0 {
      SymbolicString(ts[0]);
      if |ts| > 1 {
        SymbolicArgs(ts[1..]);
        assert ArgStrings(ts)[1..] == ArgStrings(ts[1..]);
        var rest := Join(ArgStrings(ts[1..]), ",");
        TermCharsConcat(TermString(ts[0]), ",");
        TermCharsConcat(TermString(ts[0]) + ",", rest);
      }
    }
  }

  /** No `=` and no `|` occurs in a printed symbolic term. */
  lemma SymbolicPlain(t: Term)
    requires Symbolic(t)
    ensures '=' !in TermString(t) && '|' !in TermString(t)
  {
    SymbolicString(t);
  }

  /** Reading the prover's notation of a literal gives the literal back. */
  lemma LiteralRoundTrip(l: Literal)
    requires Readable(l)
    ensures LiteralOf(LiteralNotation(l)) == Ok(l)
  {
    if l.name == "=" {
      EquationRoundTrip(l.args[0], l.args[1], l.negated);
      assert l == Literal("=", [l.args[0], l.args[1]], l.negated);
    } else {
      AtomRoundTrip(l);
    }
  }

  lemma EquationRoundTrip(a: Term, b: Term, negated: bool)
    requires Symbolic(a) && Symbolic(b)
    ensures LiteralOf(LiteralNotation(Literal("=", [a, b], negated))) == Ok(Literal("=", [a, b], negated))
  {
    SymbolicPlain(a);
    SymbolicWellNamed(a);
    SymbolicWellNamed(b);
    PrintParseRoundTrip(a);
    PrintParseRoundTrip(b);
    InfixSplit(TermString(a), TermString(b), negated);
  }

  /** An infix equality is split at its sign when the left side has no `=`. */
  lemma InfixSplit(lhs: string, rhs: string, negated: bool)
    requires '=' !in lhs
    ensures LiteralOf(lhs + (if negated then " != " else " = ") + rhs) == Equation(lhs, rhs, negated)
  {
    if negated {
      InfixSplitNegated(lhs, rhs);
    } else {
      InfixSplitPlain(lhs, rhs);
    }
  }

  lemma InfixSplitNegated(lhs: string, rhs: string)
    requires '=' !in lhs
    ensures LiteralOf(lhs + " != " + rhs) == Equation(lhs, rhs, true)
  {
    var s := lhs + " != " + rhs;
    var p := |lhs| + 2;
    assert s[p] == '=' && s[..p] == lhs + " !";
    IndexOfFirst(s, '=', p);
    assert s[..p - 2] == lhs && s[p + 2..] == rhs;
  }

  lemma InfixSplitPlain(lhs: string, rhs: string)
    requires '=' !in lhs
    ensures LiteralOf(lhs + " = " + rhs) == Equation(lhs, rhs, false)
  {
    var s := lhs + " = " + rhs;
    var p := |lhs| + 1;
    assert s[p] == '=' && s[..p] == lhs + " ";
    IndexOfFirst(s, '=', p);
    assert s[..p - 1] == lhs && s[p + 2..] == rhs;
  }

  /** An equality sign without a space before it is rejected. */
  lemma UnspacedEqualityRejected(lhs: string, rhs: string)
    requires '=' !in lhs && lhs != "" && lhs[|lhs| - 1] != ' ' && lhs[|lhs| - 1] != '!'
    ensures LiteralOf(lhs + "=" + rhs) == Err(AssertionFailed)
  {
    var s := lhs + "=" + rhs;
    assert s[|lhs|] == '=' && s[..|lhs|] == lhs;
    IndexOfFirst(s, '=', |lhs|);
    assert s[|lhs| - 1] == lhs[|lhs| - 1];
  }

  lemma AtomRoundTrip(l: Literal)
    requires Readable(l) && l.name != "="
    ensures LiteralOf(LiteralNotation(l)) == Ok(l)
  {
    var t := Term(l.name, l.args);
    SymbolicPlain(t);
    SymbolicString(t);
    SymbolicWellNamed(t);
    PrintParseRoundTrip(t);
    var s := LiteralNotation(l);
    var mark := if l.negated then "~" else "";
    assert s == mark + TermString(t);
    assert '=' !in s;
    var negated := |s| > 0 && s[0] == '~';
    if l.negated {
      assert s[0] == '~' && s[1..] == TermString(t);
    } else {
      assert s[0] == l.name[0];
    }
    assert negated == l.negated;
    assert (if negated then s[1..] else s) == TermString(t);
  }

  /** `IndexOf` finds the first occurrence. */
  lemma IndexOfFirst(s: string, c: char, p: nat)
    requires p < |s| && s[p] == c && c !in s[..p]
    ensures IndexOf(s, c) == p
  {
  }

  /** The prover's notation of a clause: its literals separated by ` | `. */
  function ClauseNotation(ls: seq<Literal>): (r: string)
  {
    Join(seq(|ls|, i requires 0 <= i < |ls| => LiteralNotation(ls[i])), Bar)
  }

  /** Reading the notation of a clause of readable literals gives them back, with the
      selection count taken from the statistics. */
  lemma ClauseRoundTrip(ls: seq<Literal>, statistics: map<string, int>)
    requires |ls| > 0 && forall i :: 0 <= i < |ls| ==> Readable(ls[i])
    ensures ParseUnit(ClauseNotation(ls), false, statistics) == Ok(Clause(ls, SelectedOf(statistics)))
  {
    var pieces := seq(|ls|, i requires 0 <= i < |ls| => LiteralNotation(ls[i]));
    forall i | 0 <= i < |ls| ensures '|' !in pieces[i] && LiteralOf(pieces[i]) == Ok(ls[i]) {
      NotationHasNoBar(ls[i]);
      LiteralRoundTrip(ls[i]);
    }
    SplitOnJoinBars(pieces);
    LiteralsOfRead(pieces, ls);
  }

  lemma NotationHasNoBar(l: Literal)
    requires Readable(l)
    ensures '|' !in LiteralNotation(l)
  {
    if l.name == "=" {
      SymbolicPlain(l.args[0]);
      SymbolicPlain(l.args[1]);
    } else {
      SymbolicPlain(Term(l.name, l.args));
    }
  }

  lemma {:induction false} LiteralsOfRead(pieces: seq<string>, ls: seq<Literal>)
    requires |pieces| == |ls| && forall i :: 0 <= i < |ls| ==> LiteralOf(pieces[i]) == Ok(ls[i])
    ensures LiteralsOf(pieces) == Ok(ls)
  {
    if |ls| > 0 {
      LiteralsOfRead(pieces[1..], ls[1..]);
      assert [ls[0]] + ls[1..] == ls;
    }
  }

  /** The frontend prints negation as `!` but reads it as `~`: re-reading the printout of a
      non-equality literal yields a positive literal, whose name carries the printed mark. */
  lemma PrintedLiteralReread(l: Literal)
    requires Readable(l) && l.name != "=" && |l.args| > 0
    ensures LiteralOf(LiteralString(l)) == Ok(Literal((if l.negated then "!" else "") + l.name, l.args, false))
  {
    var name := (if l.negated then "!" else "") + l.name;
    var t := Term(name, l.args);
    assert Symbolic(Term(l.name, l.args));
    assert Symbolic(t);
    assert LiteralString(l) == TermString(t);
    SymbolicPlain(t);
    SymbolicWellNamed(t);
    PrintParseRoundTrip(t);
    assert name[0] != '~';
    SymbolicString(t);
  }
}
