/** A paginated query seen from the client: a script of replies, the i-th
    answering the i-th request, followed while replies carry a next key. */
module Paging {
  import opened Outcomes

  /** An opaque continuation token (a byte string in the protocol). */
  type Key = seq<bv8>

  datatype PageRequest = PageRequest(key: Option<Key>, limit: nat)

  /** The pagination descriptor of a reply; an absent descriptor is a nil pointer. */
  datatype PageResponse = PageResponse(nextKey: Option<Key>)

  datatype Reply<T> =
    | Page(items: seq<T>, pagination: Option<PageResponse>)
    | Failed(err: Error)

  /** The requests a fetch issued, and how it ended. */
  datatype Paged<T> = Paged(outcome: Outcome<T>, requests: seq<PageRequest>)

  /** A reply after which the client asks for another page. */
  predicate Continues<T>(r: Reply<T>) {
    r.Page? && r.pagination.Some? && r.pagination.value.nextKey.Some?
  }

  function NextKey<T>(r: Reply<T>): (k: Option<Key>)
    ensures Continues(r) <==> k.Some?
  {
    if Continues(r) then r.pagination.value.nextKey else None
  }

  /** Some reply of the script stops the loop, so following it terminates. */
  predicate Ends<T>(script: seq<Reply<T>>) {
    exists i :: 0 <= i < |script| && !Continues(script[i])
  }

  lemma EndsTail<T>(script: seq<Reply<T>>)
    requires Ends(script) && Continues(script[0])
    ensures Ends(script[1..])
  {
    var i :| 0 <= i < |script| && !Continues(script[i]);
    assert script[1..][i - 1] == script[i];
  }

  /** Index of the first reply that stops the loop. */
  function FirstStop<T>(script: seq<Reply<T>>): (n: nat)
    requires Ends(script)
    ensures n < |script| && !Continues(script[n])
    ensures forall i :: 0 <= i < n ==> Continues(script[i])
    decreases |script|
  {
    if !Continues(script[0]) then 0
    else
      EndsTail(script);
      var m := FirstStop(script[1..]);
      assert forall i :: 1 <= i <= m ==> script[i] == script[1..][i - 1];
      1 + m
  }

  /** The records of a run of replies, in page order. */
  function ItemsOf<T>(pages: seq<Reply<T>>): seq<T> {
    if |pages| == 0 then []
    else (if pages[0].Page? then pages[0].items else []) + ItemsOf(pages[1..])
  }

  /** The client loop: issue a request with `key`, keep the page, and ask
      again with the reply's next key while it has one. A failed request
      ends the loop with the error; a reply without a pagination
      descriptor is dereferenced and crashes. */
  function Drain<T>(script: seq<Reply<T>>, key: Option<Key>, limit: nat): (p: Paged<T>)
    requires Ends(script)
    ensures |p.requests| >= 1 && p.requests[0] == PageRequest(key, limit)
    decreases |script|
  {
    var request := PageRequest(key, limit);
    match script[0]
    case Failed(e) => Paged(Aborted([], e), [request])
    case Page(items, pagination) =>
      if pagination.None? then Paged(Panicked, [request])
      else if pagination.value.nextKey.None? then Paged(Done(items), [request])
      else
        EndsTail(script);
        var rest := Drain(script[1..], pagination.value.nextKey, limit);
        Paged(Prepend(items, rest.outcome), [request] + rest.requests)
  }

  /** Closed form of the loop: with n the first stopping reply, exactly n + 1
      requests go out, each later one carrying the previous reply's next key;
      the pages before n are concatenated in order, and reply n decides the
      ending (its error, a crash, or its page as the last one). */
  lemma DrainClosedForm<T>(script: seq<Reply<T>>, key: Option<Key>, limit: nat)
    requires Ends(script)
    ensures var p := Drain(script, key, limit);
      var n := FirstStop(script);
      && |p.requests| == n + 1
      && p.requests[0] == PageRequest(key, limit)
      && (forall i :: 0 <= i < n ==> p.requests[i + 1] == PageRequest(NextKey(script[i]), limit))
      && p.outcome == match script[n]
           case Failed(e) => Aborted(ItemsOf(script[..n]), e)
           case Page(_, pagination) =>
             if pagination.None? then Panicked else Done(ItemsOf(script[..n + 1]))
  {
    DrainRequests(script, key, limit);
    DrainOutcome(script, key, limit);
  }

  /** The requests of the loop: one per reply up to the first stopping one,
      the first with `key` and each later one with the previous next key. */
  lemma {:induction false} DrainRequests<T>(script: seq<Reply<T>>, key: Option<Key>, limit: nat)
    requires Ends(script)
    ensures var p := Drain(script, key, limit);
      var n := FirstStop(script);
      && |p.requests| == n + 1
      && (forall i :: 0 <= i < n ==> p.requests[i + 1] == PageRequest(NextKey(script[i]), limit))
    decreases |script|
  {
    if Continues(script[0]) {
      EndsTail(script);
      var tail := script[1..];
      var nextKey := script[0].pagination.value.nextKey;
      DrainRequests(tail, nextKey, limit);
      var n := FirstStop(script);
      assert n == FirstStop(tail) + 1;
      var p := Drain(script, key, limit);
      var q := Drain(tail, nextKey, limit);
      assert p.requests == [PageRequest(key, limit)] + q.requests;
      forall i | 0 <= i < n ensures p.requests[i + 1] == PageRequest(NextKey(script[i]), limit) {
        if i > 0 {
          assert script[i] == tail[i - 1];
        }
      }
    }
  }

  /** The outcome of the loop: the first stopping reply decides it. */
  lemma {:induction false} DrainOutcome<T>(script: seq<Reply<T>>, key: Option<Key>, limit: nat)
    requires Ends(script)
    ensures var n := FirstStop(script);
      Drain(script, key, limit).outcome == match script[n]
        case Failed(e) => Aborted(ItemsOf(script[..n]), e)
        case Page(_, pagination) =>
          if pagination.None? then Panicked else Done(ItemsOf(script[..n + 1]))
    decreases |script|
  {
    if Continues(script[0]) {
      EndsTail(script);
      var tail := script[1..];
      var nextKey := script[0].pagination.value.nextKey;
      DrainOutcome(tail, nextKey, limit);
      var n := FirstStop(script);
      var m := FirstStop(tail);
      assert n == m + 1;
      assert script[n] == tail[m];
      assert script[..n][1..] == tail[..m];
      assert script[..n + 1][1..] == tail[..m + 1];
    }
  }

  /** Three pages of one record each, linked by two keys, give the three
      records in page order after three requests. */
  lemma ThreePagesExample(a: int, b: int, c: int, k1: Key, k2: Key)
    ensures var script := [
        Page([a], Some(PageResponse(Some(k1)))),
        Page([b], Some(PageResponse(Some(k2)))),
        Page([c], Some(PageResponse(None)))];
      Ends(script) && Drain(script, None, 10000)
        == Paged(Done([a, b, c]),
                 [PageRequest(None, 10000), PageRequest(Some(k1), 10000), PageRequest(Some(k2), 10000)])
  {
    var script := [
        Page([a], Some(PageResponse(Some(k1)))),
        Page([b], Some(PageResponse(Some(k2)))),
        Page([c], Some(PageResponse(None)))];
    assert !Continues(script[2]);
    assert script[1..][1..] == [script[2]];
    assert !Continues(script[1..][1..][0]);
    assert Drain(script[1..][1..], Some(k2), 10000) == Paged(Done([c]), [PageRequest(Some(k2), 10000)]);
  }
}
