/** Character and string operations of Python and JavaScript that the model relies on:
    digit strings, int(), rstrip(), str.split with one separator and join. */
module Text {
  import opened Wrappers

  /** The ASCII digits, which the model takes a regular-expression `\d` and int() to accept. */
  predicate IsDigit(c: char) { '0' <= c <= '9' }
  predicate IsLower(c: char) { 'a' <= c <= 'z' }
  predicate IsLetter(c: char) { 'a' <= c <= 'z' || 'A' <= c <= 'Z' }
  /** The ASCII characters of a regular-expression `\w`. */
  predicate IsWordChar(c: char) { IsLetter(c) || IsDigit(c) || c == '_' }
  /** The characters Python's str.strip() and str.rstrip() remove: the ASCII blanks and
      controls `\t` to `\r` and `\x1c` to `\x1f`, and the Unicode spaces and separators. */
  predicate IsSpace(c: char)
  {
    c == ' ' || '\t' <= c <= '\r' || '\U{1C}' <= c <= '\U{1F}' || c == '\U{85}' || c == '\U{A0}' ||
    c == '\U{1680}' || '\U{2000}' <= c <= '\U{200A}' || c == '\U{2028}' || c == '\U{2029}' ||
    c == '\U{202F}' || c == '\U{205F}' || c == '\U{3000}'
  }

  predicate AllDigits(s: string) { forall i :: 0 <= i < |s| ==> IsDigit(s[i]) }

  /** The value of a string of decimal digits, most significant first. */
  function DigitsValue(s: string): nat
    requires AllDigits(s)
  {
    if |s| == 0 then 0 else 10 * DigitsValue(s[..|s| - 1]) + (s[|s| - 1] as int - '0' as int)
  }

  /** Decimal notation of a natural number, as Python's str() and JavaScript's String() write it. */
  function NatToString(n: nat): (r: string)
    ensures |r| > 0 && AllDigits(r)
    ensures (|r| > 1 ==> r[0] != '0')
    decreases n
  {
    if n < 10 then [('0' as int + n) as char]
    else NatToString(n / 10) + [('0' as int + n % 10) as char]
  }

  lemma {:induction false} NatToStringValue(n: nat)
    ensures DigitsValue(NatToString(n)) == n
    decreases n
  {
    if n >= 10 {
      NatToStringValue(n / 10);
      var s := NatToString(n);
      assert s[..|s| - 1] == NatToString(n / 10);
    }
  }

  /** Python's int() on a string: surrounding whitespace, an optional sign, at least one ASCII digit. */
  function ParsePyInt(s: string): (r: Option<int>)
    ensures r.Some? ==> |Strip(s)| > 0
  {
    var t := Strip(s);
    if |t| > 0 && (t[0] == '+' || t[0] == '-') && |t| > 1 && AllDigits(t[1..]) then
      var v: int := DigitsValue(t[1..]); Some(if t[0] == '-' then -v else v)
    else if |t| > 0 && AllDigits(t) then Some(DigitsValue(t))
    else None
  }

  lemma ParsePyIntOfNat(n: nat)
    ensures ParsePyInt(NatToString(n)) == Some(n)
  {
    var s := NatToString(n);
    StripOfNoSpace(s);
    NatToStringValue(n);
  }

  function RStrip(s: string): (r: string)
    ensures |r| <= |s| && r == s[..|r|]
    ensures |r| == 0 || !IsSpace(r[|r| - 1])
    ensures forall i :: |r| <= i < |s| ==> IsSpace(s[i])
  {
    if |s| > 0 && IsSpace(s[|s| - 1]) then RStrip(s[..|s| - 1]) else s
  }

  function LStrip(s: string): (r: string)
    ensures |r| <= |s| && r == s[|s| - |r|..]
    ensures |r| == 0 || !IsSpace(r[0])
  {
    if |s| > 0 && IsSpace(s[0]) then LStrip(s[1..]) else s
  }

  function Strip(s: string): string { LStrip(RStrip(s)) }

  lemma StripOfNoSpace(s: string)
    requires AllDigits(s)
    ensures Strip(s) == s
  {
    assert |s| == 0 || !IsSpace(s[|s| - 1]);
    assert RStrip(s) == s;
    assert |s| == 0 || !IsSpace(s[0]);
  }

  /** The string with every character in `drop` removed, as repeated str.replace(c, ""). */
  function RemoveAll(s: string, drop: set<char>): (r: string)
    ensures forall i :: 0 <= i < |r| ==> r[i] !in drop
    ensures |r| <= |s|
    ensures (forall i :: 0 <= i < |s| ==> s[i] !in drop) ==> r == s
  {
    if |s| == 0 then "" else (if s[0] in drop then "" else [s[0]]) + RemoveAll(s[1..], drop)
  }

  /** Removal goes character by character: on a concatenation it removes from each part. */
  lemma {:induction false} RemoveAllAppend(a: string, b: string, drop: set<char>)
    ensures RemoveAll(a + b, drop) == RemoveAll(a, drop) + RemoveAll(b, drop)
    decreases |a|
  {
    if |a| == 0 {
      assert a + b == b;
    } else {
      assert (a + b)[1..] == a[1..] + b;
      RemoveAllAppend(a[1..], b, drop);
    }
  }

  /** A single character is dropped exactly when it is in `drop`. */
  lemma RemoveAllSingle(c: char, drop: set<char>)
    ensures RemoveAll([c], drop) == if c in drop then "" else [c]
  {
    assert [c][1..] == "";
  }

  /** Python's str.split(sep) and JavaScript's String.split(sep) for a one-character separator. */
  function Split(s: string, sep: char): (r: seq<string>)
    ensures |r| > 0
    ensures forall k :: 0 <= k < |r| ==> sep !in r[k]
    decreases |s|
  {
    if sep !in s then [s]
    else
      var k := IndexOf(s, sep);
      [s[..k]] + Split(s[k + 1..], sep)
  }

  /** The first position of `c` in `s`. */
  function IndexOf(s: string, c: char): (k: nat)
    requires c in s
    ensures k < |s| && s[k] == c && c !in s[..k]
  {
    if s[0] == c then 0 else 1 + IndexOf(s[1..], c)
  }

  function Join(xs: seq<string>, sep: string): string
  {
    if |xs| == 0 then "" else if |xs| == 1 then xs[0] else xs[0] + sep + Join(xs[1..], sep)
  }

  lemma {:induction false} JoinSplit(s: string, sep: char)
    ensures Join(Split(s, sep), [sep]) == s
    decreases |s|
  {
    if sep in s {
      var k := IndexOf(s, sep);
      JoinSplit(s[k + 1..], sep);
      assert s == s[..k] + [sep] + s[k + 1..];
    }
  }

  /** Splitting a join gives back the pieces, provided none contains the separator. */
  lemma {:induction false} SplitJoin(xs: seq<string>, sep: char)
    requires |xs| > 0
    requires forall k :: 0 <= k < |xs| ==> sep !in xs[k]
    ensures Split(Join(xs, [sep]), sep) == xs
  {
    if |xs| > 1 {
      var s := Join(xs, [sep]);
      assert s == xs[0] + [sep] + Join(xs[1..], [sep]);
      assert s[|xs[0]|] == sep;
      assert s[..|xs[0]|] == xs[0];
      assert IndexOf(s, sep) == |xs[0]|;
      assert s[|xs[0]| + 1..] == Join(xs[1..], [sep]);
      SplitJoin(xs[1..], sep);
    }
  }

  predicate StartsWith(s: string, p: string) { |p| <= |s| && s[..|p|] == p }

  predicate EndsWith(s: string, p: string) { |p| <= |s| && s[|s| - |p|..] == p }

  /** Whatever follows a prefix, the whole starts with that prefix. */
  lemma StartsWithAppend(a: string, b: string)
    ensures StartsWith(a + b, a)
  {
    assert (a + b)[..|a|] == a;
  }

  /** A suffix of the tail is a suffix of the whole. */
  lemma EndsWithAppend(a: string, b: string, t: string)
    requires EndsWith(b, t)
    ensures EndsWith(a + b, t)
  {
    assert (a + b)[|a + b| - |t|..] == b[|b| - |t|..];
  }

  /** A join of two or more pieces starts with the first and a separator, and ends with a
      separator and the last. */
  lemma {:induction false} JoinFrame(xs: seq<string>, sep: string)
    requires |xs| >= 2
    ensures StartsWith(Join(xs, sep), xs[0] + sep) && EndsWith(Join(xs, sep), sep + xs[|xs| - 1])
  {
    var rest := Join(xs[1..], sep);
    assert Join(xs, sep) == (xs[0] + sep) + rest;
    StartsWithAppend(xs[0] + sep, rest);
    if |xs| > 2 {
      JoinFrame(xs[1..], sep);
      assert xs[1..][|xs[1..]| - 1] == xs[|xs| - 1];
      EndsWithAppend(xs[0] + sep, rest, sep + xs[|xs| - 1]);
    } else {
      assert rest == xs[1];
      assert (xs[0] + sep) + rest == xs[0] + (sep + xs[1]);
      EndsWithAppend(xs[0], sep + xs[1], sep + xs[1]);
    }
  }

  function Repeat(c: char, n: nat): (r: string)
    ensures |r| == n && forall i :: 0 <= i < n ==> r[i] == c
  {
    if n == 0 then "" else [c] + Repeat(c, n - 1)
  }

  /** Whether `sep` occurs in `s` starting at position `k`. */
  predicate OccursAt(s: string, sep: string, k: nat)
  {
    k + |sep| <= |s| && s[k..k + |sep|] == sep
  }

  /** The first position where `sep` occurs in `s`, if any. */
  function FirstOccurrence(s: string, sep: string): (r: Option<nat>)
    ensures r.Some? ==> OccursAt(s, sep, r.value)
    decreases |s|
  {
    if |s| < |sep| then None
    else if s[..|sep|] == sep then Some(0)
    else
      match FirstOccurrence(s[1..], sep)
      case None => None
      case Some(k) => assert s[1..][k..k + |sep|] == s[k + 1..k + 1 + |sep|]; Some(k + 1)
  }

  /** An occurrence with none before it is the first. */
  lemma {:induction false} FirstOccurrenceAt(s: string, sep: string, k: nat)
    requires OccursAt(s, sep, k) && forall j :: 0 <= j < k ==> !OccursAt(s, sep, j)
    ensures FirstOccurrence(s, sep) == Some(k)
    decreases k
  {
    if k > 0 {
      assert !OccursAt(s, sep, 0);
      forall j | 0 <= j < k - 1 ensures !OccursAt(s[1..], sep, j) {
        assert !OccursAt(s, sep, j + 1);
        assert j + 1 + |sep| <= |s| ==> s[1..][j..j + |sep|] == s[j + 1..j + 1 + |sep|];
      }
      assert s[1..][k - 1..k - 1 + |sep|] == s[k..k + |sep|];
      FirstOccurrenceAt(s[1..], sep, k - 1);
    }
  }

  /** JavaScript's String.split(sep) for a non-empty separator string: the pieces between
      the occurrences of `sep`, found from left to right. */
  function SplitOn(s: string, sep: string): (r: seq<string>)
    requires |sep| > 0
    ensures |r| > 0
    decreases |s|
  {
    match FirstOccurrence(s, sep)
    case None => [s]
    case Some(k) => [s[..k]] + SplitOn(s[k + |sep|..], sep)
  }

  /** Joining the pieces with the separator gives the string back. */
  lemma {:induction false} JoinSplitOn(s: string, sep: string)
    requires |sep| > 0
    ensures Join(SplitOn(s, sep), sep) == s
    decreases |s|
  {
    match FirstOccurrence(s, sep)
    case None =>
    case Some(k) =>
      var rest := s[k + |sep|..];
      JoinSplitOn(rest, sep);
      var xs := SplitOn(s, sep);
      assert xs[1..] == SplitOn(rest, sep);
      assert s == s[..k] + sep + rest;
  }

  /** An occurrence fixes each character it covers. */
  lemma OccursAtChar(s: string, sep: string, k: nat, i: nat)
    requires i < |sep|
    ensures OccursAt(s, sep, k) ==> s[k + i] == sep[i]
  {
    if OccursAt(s, sep, k) {
      assert s[k..k + |sep|][i] == s[k + i];
    }
  }

  /** Splitting at ` | ` undoes joining with it, provided no piece contains a bar. */
  lemma {:induction false} SplitOnJoinBars(xs: seq<string>)
    requires |xs| > 0 && forall k :: 0 <= k < |xs| ==> '|' !in xs[k]
    ensures SplitOn(Join(xs, " | "), " | ") == xs
  {
    if |xs| == 1 {
      SplitOnBarless(xs[0]);
    } else {
      var rest := Join(xs[1..], " | ");
      assert Join(xs, " | ") == xs[0] + " | " + rest;
      SplitOnBarlessHead(xs[0], rest);
      SplitOnJoinBars(xs[1..]);
    }
  }

  /** A piece without a bar is not split. */
  lemma SplitOnBarless(x: string)
    requires '|' !in x
    ensures SplitOn(x, " | ") == [x]
  {
    forall j | 0 <= j <= |x| ensures !OccursAt(x, " | ", j) {
      OccursAtChar(x, " | ", j, 1);
      assert j + 1 < |x| ==> x[j + 1] in x;
    }
  }

  /** A first piece without a bar is split off at the separator that follows it. */
  lemma SplitOnBarlessHead(x: string, rest: string)
    requires '|' !in x
    ensures SplitOn(x + " | " + rest, " | ") == [x] + SplitOn(rest, " | ")
  {
    var sep := " | ";
    var s := x + sep + rest;
    forall j | 0 <= j < |x| ensures !OccursAt(s, sep, j) {
      OccursAtChar(s, sep, j, 1);
      assert s[j + 1] == if j + 1 < |x| then x[j + 1] else ' ';
    }
    assert s[|x|..|x| + 3] == sep;
    FirstOccurrenceAt(s, sep, |x|);
    assert s[..|x|] == x && s[|x| + 3..] == rest;
  }
}
