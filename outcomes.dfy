/** Option, and the outcome of a Python call that may let an exception escape. */
module Outcomes {

  datatype Option<+T> = None | Some(value: T) {
    /** The value, or `fallback` when there is none. */
    function GetOr(fallback: T): T {
      if Some? then value else fallback
    }
  }

  /** `Raised` stands for an exception the Python code does not catch and
      that reaches the caller: a `KeyError`, `ValueError` or `TypeError`, an
      `IOError` from opening a file, or the `MissingSchema` that `requests`
      raises for a request without a URL. */
  datatype Outcome<+T> = Returned(value: T) | Raised

  /** `pages` followed by the rest, or nothing when the rest is nothing. */
  function Prefixed<T>(pages: seq<T>, rest: Option<seq<T>>): Option<seq<T>> {
    match rest
    case None => None
    case Some(items) => Some(pages + items)
  }

  lemma PrefixedAppend<T>(a: seq<T>, b: seq<T>, rest: Option<seq<T>>)
    ensures Prefixed(a, Prefixed(b, rest)) == Prefixed(a + b, rest)
  {
    if rest.Some? {
      assert a + (b + rest.value) == (a + b) + rest.value;
    }
  }

  lemma PrefixedNothing<T>(rest: Option<seq<T>>)
    ensures Prefixed([], rest) == rest
  {
    if rest.Some? {
      assert [] + rest.value == rest.value;
    }
  }

  /** `pages` followed by the rest, or `Raised` when the rest raises. */
  function Prepend<T>(pages: seq<T>, rest: Outcome<seq<T>>): Outcome<seq<T>> {
    if rest.Raised? then Raised else Returned(pages + rest.value)
  }

  lemma PrependAppend<T>(a: seq<T>, b: seq<T>, rest: Outcome<seq<T>>)
    ensures Prepend(a, Prepend(b, rest)) == Prepend(a + b, rest)
  {
    if rest.Returned? {
      assert a + (b + rest.value) == a + b + rest.value;
    }
  }

  lemma PrependNothing<T>(rest: Outcome<seq<T>>)
    ensures Prepend([], rest) == rest
  {
    if rest.Returned? {
      assert [] + rest.value == rest.value;
    }
  }
}
