/** Optional values, errors and the three ways a remote fetch can end. */
module Outcomes {

  datatype Option<+T> = None | Some(value: T)

  /** An error value returned by the gRPC layer (dial or query); its text is opaque. */
  datatype Error = Error(message: string)

  /** How a fetch ended, as seen by its Go caller:
      - Done: nil error, with every record gathered;
      - Aborted: non-nil error, with the records gathered before the failure;
      - Panicked: a nil pointer was dereferenced, so nothing is returned at all. */
  datatype Outcome<+T> =
    | Done(items: seq<T>)
    | Aborted(items: seq<T>, err: Error)
    | Panicked

  /** Records gathered before a later stage of the same fetch ran. */
  function Prepend<T>(prefix: seq<T>, later: Outcome<T>): (r: Outcome<T>)
    ensures r.Panicked? <==> later.Panicked?
    ensures r.Done? <==> later.Done?
    ensures !r.Panicked? ==> r.items == prefix + later.items
    ensures r.Aborted? ==> r.err == later.err
  {
    match later
    case Done(xs) => Done(prefix + xs)
    case Aborted(xs, e) => Aborted(prefix + xs, e)
    case Panicked => Panicked
  }

  lemma PrependTwice<T>(a: seq<T>, b: seq<T>, later: Outcome<T>)
    ensures Prepend(a, Prepend(b, later)) == Prepend(a + b, later)
  {
    if !later.Panicked? {
      assert a + (b + later.items) == (a + b) + later.items;
    }
  }
}
