/** Optional results, and the larger of two numbers. */
module Wrappers {
  datatype Option<T> = None | Some(value: T)

  function Max(a: nat, b: nat): nat {
    if a < b then b else a
  }

  /** The list `r`, if there is one, with `es` in front. */
  function Before<T>(es: seq<T>, r: Option<seq<T>>): Option<seq<T>> {
    match r
    case None => None
    case Some(more) => Some(es + more)
  }

  lemma BeforeBefore<T>(a: seq<T>, b: seq<T>, r: Option<seq<T>>)
    ensures Before(a, Before(b, r)) == Before(a + b, r)
  {
    if r.Some? {
      assert a + (b + r.value) == a + b + r.value;
    }
  }
}
