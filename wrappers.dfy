/**
 * Option and Result, and the failures the pipeline raises.
 *
 * Every failure of the source is a Python `ValueError` with a message; the
 * constructors of `ValueError` below name those messages, so a model that
 * returns `Err(e)` is the source raising that error.
 */
module Wrappers {

  /** `None` stands for Python's `None` wherever the source allows it. */
  datatype Option<+T> = None | Some(value: T) {
    function GetOr(default: T): T {
      match this
      case Some(v) => v
      case None => default
    }
  }

  /** The messages of the `ValueError`s raised by the core. */
  datatype ValueError =
    | UnclosedSection          // "Invalid markdown, formatted section not closed"
    | InvalidHeadingLevel(level: nat)  // "Invalid heading level: {level}"
    | InvalidCodeBlock         // "Invalid code block"
    | InvalidQuoteBlock        // "Invalid quote block"
    | LeafWithoutValue         // "Invalid HTML: LeafNode must have a value"
    | ParentWithoutTag         // "ParentNode must have a tag"
    | ParentWithoutChildren    // "ParentNode must have children"

  /** A computation that either returns a value or raises a `ValueError`. */
  datatype Result<+T> = Ok(value: T) | Err(error: ValueError) {
    predicate IsFailure() {
      Err?
    }

    function PropagateFailure<U>(): Result<U>
      requires Err?
    {
      Err(error)
    }

    function Extract(): T
      requires Ok?
    {
      value
    }
  }

  /** `Prepend(a, r)`: the list `a` followed by the list `r` computes, or `r`'s error. */
  function Prepend<T>(a: seq<T>, r: Result<seq<T>>): Result<seq<T>> {
    match r
    case Ok(b) => Ok(a + b)
    case Err(e) => Err(e)
  }

  lemma PrependEmpty<T>(r: Result<seq<T>>)
    ensures Prepend([], r) == r
  {
    if r.Ok? {
      assert [] + r.value == r.value;
    }
  }

  lemma PrependNil<T>(a: seq<T>, r: Result<seq<T>>)
    requires r == Ok([])
    ensures Prepend(a, r) == Ok(a)
  {
    assert a + [] == a;
  }

  lemma PrependAppend<T>(a: seq<T>, b: seq<T>, r: Result<seq<T>>)
    ensures Prepend(a, Prepend(b, r)) == Prepend(a + b, r)
  {
    if r.Ok? {
      assert a + (b + r.value) == (a + b) + r.value;
    }
  }
}
