/** Option and Result values used throughout the model for "absent" and "raised". */
module Wrappers {

  datatype Option<T> = None | Some(value: T)
  {
    predicate IsSome() { this.Some? }

    function GetOr(default: T): (r: T)
    {
      match this
      case None => default
      case Some(v) => v
    }
  }

  /** Failure kinds of the source: a failed `assert`, a missing dictionary key, an index past
      the end of a list, a string int() rejects, a value of the wrong type (a JavaScript
      `undefined`, or a Python `None` used as an object), and a computation that never returns. */
  datatype Error = AssertionFailed | KeyMissing | IndexOutOfRange | BadInteger | BadType | Diverges

  datatype Result<T> = Ok(value: T) | Err(error: Error)
  {
    predicate IsOk() { this.Ok? }
  }

  /** The values of the present options, in order. */
  function Present<T>(opts: seq<Option<T>>): (r: seq<T>)
    ensures |r| <= |opts|
  {
    if opts == [] then []
    else Present(opts[..|opts| - 1]) + (if opts[|opts| - 1].Some? then [opts[|opts| - 1].value] else [])
  }

  lemma {:induction false} PresentAppend<T>(a: seq<Option<T>>, b: seq<Option<T>>)
    ensures Present(a + b) == Present(a) + Present(b)
    decreases |b|
  {
    if b == [] {
      assert a + b == a;
    } else {
      var b0 := b[..|b| - 1];
      PresentAppend(a, b0);
      assert (a + b)[..|a + b| - 1] == a + b0;
    }
  }

  lemma {:induction false} PresentMeaning<T>(opts: seq<Option<T>>, x: T)
    ensures x in Present(opts) <==> Some(x) in opts
  {
    if opts != [] {
      PresentMeaning(opts[..|opts| - 1], x);
      assert opts == opts[..|opts| - 1] + [opts[|opts| - 1]];
    }
  }
}
