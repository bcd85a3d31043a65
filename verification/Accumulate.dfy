/**
 * Loops that append to a list, against functions that build it from the front: what the function
 * returns is what the loop has so far, followed by what the function makes of the rest.
 */
module Accumulate {
  import opened Results

  ghost predicate Continues<S, T>(whole: Result<(S, seq<T>)>, done: seq<T>, rest: Result<(S, seq<T>)>) {
    match rest
    case Ok((s, more)) => whole == Ok((s, done + more))
    case Err(e) => whole == Err(e)
  }

  lemma ContinuesStart<S, T>(whole: Result<(S, seq<T>)>)
    ensures Continues(whole, [], whole)
  {
    if whole.Ok? {
      assert [] + whole.value.1 == whole.value.1;
    }
  }

  /** One element moves from the rest to the loop. */
  lemma ContinuesStep<S, T>(whole: Result<(S, seq<T>)>, done: seq<T>, x: T, rest: Result<(S, seq<T>)>)
    requires match rest
             case Ok((s, more)) => Continues(whole, done, Ok((s, [x] + more)))
             case Err(e) => Continues(whole, done, rest)
    ensures Continues(whole, done + [x], rest)
  {
    if rest.Ok? {
      assert done + [x] + rest.value.1 == done + ([x] + rest.value.1);
    }
  }
}
