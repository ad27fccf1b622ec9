/** The delegations package: fetching every delegation of the validators,
    aggregating them per delegator, and the package's own two reports. */
module Delegations {
  import opened Outcomes
  import opened Staking
  import opened Paging
  import opened Csv
  import Sorting
  import Decimal

  /** Page size of every delegations request. */
  const DelegationsPageLimit: nat := 10000

  /** The records of one delegator, in arrival order, with their exact total. */
  datatype DelegatorAggregate = DelegatorAggregate(responses: seq<DelegationResponse>, totalBalance: int)

  /** Aggregates keyed by delegator address. */
  type DelegationsMap = map<string, DelegatorAggregate>

  /** A ValidatorDelegations request: the validator queried and its page request. */
  datatype DelegationsRequest = DelegationsRequest(validatorAddr: string, pagination: PageRequest)

  datatype Fetched = Fetched(outcome: Outcome<DelegationResponse>, requests: seq<DelegationsRequest>)

  /** The remote service: the script of replies it gives to the successive
      delegation requests for one validator address. */
  type Source = string -> seq<Reply<DelegationResponse>>

  // ---------------------------------------------------------------------------
  // Reference definitions over the flat record list

  /** The delegator addresses that occur in a record list. */
  function Delegators(rs: seq<DelegationResponse>): (ds: set<string>)
    ensures forall r :: r in rs ==> DelegatorOf(r) in ds
  {
    if |rs| == 0 then {} else Delegators(rs[..|rs| - 1]) + {DelegatorOf(rs[|rs| - 1])}
  }

  /** The records of delegator `d`, in input order. */
  function RecordsOf(rs: seq<DelegationResponse>, d: string): (r: seq<DelegationResponse>)
    ensures forall x :: x in r ==> x in rs && DelegatorOf(x) == d
    ensures |r| > 0 <==> d in Delegators(rs)
    ensures |r| <= |rs|
  {
    if |rs| == 0 then []
    else
      var init := rs[..|rs| - 1];
      var last := rs[|rs| - 1];
      if DelegatorOf(last) == d then RecordsOf(init, d) + [last] else RecordsOf(init, d)
  }

  /** Sum of a weight over a record list. */
  function SumBy(rs: seq<DelegationResponse>, w: DelegationResponse -> int): int {
    if |rs| == 0 then 0 else SumBy(rs[..|rs| - 1], w) + w(rs[|rs| - 1])
  }

  /** Exact sum of the balance amounts of a record list. */
  function TotalOf(rs: seq<DelegationResponse>): int {
    SumBy(rs, AmountOf)
  }

  lemma SumByAppend(rs: seq<DelegationResponse>, x: DelegationResponse, w: DelegationResponse -> int)
    ensures SumBy(rs + [x], w) == SumBy(rs, w) + w(x)
  {
    assert (rs + [x])[..|rs|] == rs;
  }

  // ---------------------------------------------------------------------------
  // Aggregation (GetDelegationsWithTotalBalance)

  /** One step of the aggregation pass: append the record to its delegator's
      list and add its amount to the running total, creating the entry when
      the delegator is new. */
  function Accumulate(m: DelegationsMap, r: DelegationResponse): DelegationsMap {
    var d := DelegatorOf(r);
    if d in m then m[d := DelegatorAggregate(m[d].responses + [r], m[d].totalBalance + AmountOf(r))]
    else m[d := DelegatorAggregate([r], AmountOf(r))]
  }

  /** `m` holds, for each delegator of `rs`, exactly its records in input
      order and their exact total, and nothing else. */
  ghost predicate Characterizes(m: DelegationsMap, rs: seq<DelegationResponse>) {
    && m.Keys == Delegators(rs)
    && forall d :: d in m ==> m[d] == DelegatorAggregate(RecordsOf(rs, d), TotalOf(RecordsOf(rs, d)))
  }

  /** The entry of the new record's delegator after one step. */
  lemma AccumulateHit(prev: DelegationsMap, rs: seq<DelegationResponse>)
    requires |rs| > 0 && Characterizes(prev, rs[..|rs| - 1])
    ensures var d := DelegatorOf(rs[|rs| - 1]);
      Accumulate(prev, rs[|rs| - 1])[d] == DelegatorAggregate(RecordsOf(rs, d), TotalOf(RecordsOf(rs, d)))
  {
    var init := rs[..|rs| - 1];
    var last := rs[|rs| - 1];
    var d := DelegatorOf(last);
    assert RecordsOf(rs, d) == RecordsOf(init, d) + [last];
    SumByAppend(RecordsOf(init, d), last, AmountOf);
    if d !in prev {
      assert RecordsOf(init, d) == [];
    } else {
      assert prev[d] == DelegatorAggregate(RecordsOf(init, d), TotalOf(RecordsOf(init, d)));
    }
  }

  /** The entries of the other delegators are untouched by one step. */
  lemma AccumulateMiss(prev: DelegationsMap, rs: seq<DelegationResponse>, e: string)
    requires |rs| > 0 && Characterizes(prev, rs[..|rs| - 1])
    requires e in prev && e != DelegatorOf(rs[|rs| - 1])
    ensures Accumulate(prev, rs[|rs| - 1])[e] == DelegatorAggregate(RecordsOf(rs, e), TotalOf(RecordsOf(rs, e)))
  {
    var init := rs[..|rs| - 1];
    assert RecordsOf(rs, e) == RecordsOf(init, e);
  }

  lemma AccumulateStep(prev: DelegationsMap, rs: seq<DelegationResponse>)
    requires |rs| > 0 && Characterizes(prev, rs[..|rs| - 1])
    ensures Characterizes(Accumulate(prev, rs[|rs| - 1]), rs)
  {
    var m := Accumulate(prev, rs[|rs| - 1]);
    var d := DelegatorOf(rs[|rs| - 1]);
    assert m.Keys == prev.Keys + {d};
    forall e | e in m
      ensures m[e] == DelegatorAggregate(RecordsOf(rs, e), TotalOf(RecordsOf(rs, e)))
    {
      if e == d {
        AccumulateHit(prev, rs);
      } else {
        AccumulateMiss(prev, rs, e);
      }
    }
  }

  /** The aggregation pass over the records in input order. Its result has one
      entry per delegator address in the input; each holds exactly that
      delegator's records in input order and their exact total. */
  function Aggregate(rs: seq<DelegationResponse>): (m: DelegationsMap)
    ensures m.Keys == Delegators(rs)
    ensures forall d :: d in m ==>
      m[d] == DelegatorAggregate(RecordsOf(rs, d), TotalOf(RecordsOf(rs, d)))
    ensures forall d :: d in m ==> |m[d].responses| > 0
  {
    if |rs| == 0 then map[]
    else
      var prev := Aggregate(rs[..|rs| - 1]);
      AccumulateStep(prev, rs);
      Accumulate(prev, rs[|rs| - 1])
  }

  /** GetDelegationsWithTotalBalance: the single loop over the records. */
  method GetDelegationsWithTotalBalance(rs: seq<DelegationResponse>) returns (m: DelegationsMap)
    ensures m.Keys == Delegators(rs)
    ensures forall d :: d in m ==> m[d].responses == RecordsOf(rs, d) && |m[d].responses| > 0
    ensures forall d :: d in m ==> m[d].totalBalance == TotalOf(m[d].responses)
    ensures |rs| == 0 ==> m == map[]
  {
    m := map[];
    PrefixSnoc(m, rs, 0);
    for i := 0 to |rs|
      invariant Characterizes(m, rs[..i])
    {
      m := AccumulateRecord(m, rs[i], rs[..i]);
      PrefixSnoc(m, rs, i);
    }
    PrefixSnoc(m, rs, |rs|);
    CharacterizesEntries(m, rs);
  }

  /** The prefix of length 0 is described by the empty map, and the prefix
      of length i followed by record i is the prefix of length i + 1. */
  lemma PrefixSnoc(m: DelegationsMap, rs: seq<DelegationResponse>, i: nat)
    requires i <= |rs|
    ensures Characterizes(map[], rs[..0])
    ensures i < |rs| && Characterizes(m, rs[..i] + [rs[i]]) ==> Characterizes(m, rs[..i + 1])
    ensures i == |rs| && Characterizes(m, rs[..i]) ==> Characterizes(m, rs)
  {
    assert rs[..0] == [];
    if i < |rs| {
      assert rs[..i] + [rs[i]] == rs[..i + 1];
    } else {
      assert rs[..i] == rs;
    }
  }

  /** What a describing map says entry by entry. */
  lemma CharacterizesEntries(m: DelegationsMap, rs: seq<DelegationResponse>)
    requires Characterizes(m, rs)
    ensures m.Keys == Delegators(rs)
    ensures forall d :: d in m ==> m[d].responses == RecordsOf(rs, d) && |m[d].responses| > 0
    ensures forall d :: d in m ==> m[d].totalBalance == TotalOf(m[d].responses)
    ensures |rs| == 0 ==> m == map[]
  {
  }

  /** The loop body: one record folded into the map. Only its delegator's
      entry changes, and a map that describes the records seen so far comes
      to describe them followed by this record. */
  method AccumulateRecord(m: DelegationsMap, r: DelegationResponse, ghost seen: seq<DelegationResponse>)
    returns (m': DelegationsMap)
    ensures m'.Keys == m.Keys + {DelegatorOf(r)}
    ensures forall e :: e in m && e != DelegatorOf(r) ==> m'[e] == m[e]
    ensures Characterizes(m, seen) ==> Characterizes(m', seen + [r])
  {
    var d := r.delegation.delegatorAddress;
    if d in m {
      var entry := m[d];
      entry := entry.(totalBalance := entry.totalBalance + r.balance.amount);
      entry := entry.(responses := entry.responses + [r]);
      m' := m[d := entry];
    } else {
      m' := m[d := DelegatorAggregate([r], r.balance.amount)];
    }
    assert m' == Accumulate(m, r);
    AccumulateFrame(m, r);
    if Characterizes(m, seen) {
      AccumulateExtends(m, r, seen);
    }
  }

  /** One step adds the record's delegator and leaves every other entry alone. */
  lemma AccumulateFrame(m: DelegationsMap, r: DelegationResponse)
    ensures Accumulate(m, r).Keys == m.Keys + {DelegatorOf(r)}
    ensures forall e :: e in m && e != DelegatorOf(r) ==> Accumulate(m, r)[e] == m[e]
  {
  }

  lemma AccumulateExtends(m: DelegationsMap, r: DelegationResponse, seen: seq<DelegationResponse>)
    requires Characterizes(m, seen)
    ensures Characterizes(Accumulate(m, r), seen + [r])
  {
    assert (seen + [r])[..|seen|] == seen;
    AccumulateStep(m, seen + [r]);
  }

  // ---------------------------------------------------------------------------
  // Conservation over all keys

  /** Distinct keys listed in some order: how Go's range over a map visits them. */
  predicate Distinct(order: seq<string>) {
    forall i, j :: 0 <= i < j < |order| ==> order[i] != order[j]
  }

  predicate IsEnumeration(order: seq<string>, keys: set<string>) {
    && (forall k :: k in order ==> k in keys)
    && (forall k :: k in keys ==> k in order)
    && Distinct(order)
  }

  /** The records whose delegator is one of `keys`, in input order. */
  function Within(rs: seq<DelegationResponse>, keys: set<string>): seq<DelegationResponse> {
    if |rs| == 0 then []
    else Within(rs[..|rs| - 1], keys) + (if DelegatorOf(rs[|rs| - 1]) in keys then [rs[|rs| - 1]] else [])
  }

  /** Sum over the keys of `order` of the weight of each key's records. */
  function WeightOver(rs: seq<DelegationResponse>, order: seq<string>, w: DelegationResponse -> int): int {
    if |order| == 0 then 0 else SumBy(RecordsOf(rs, order[0]), w) + WeightOver(rs, order[1..], w)
  }

  lemma {:induction false} SplitKey(rs: seq<DelegationResponse>, k: string, keys: set<string>, w: DelegationResponse -> int)
    requires k !in keys
    ensures SumBy(Within(rs, {k} + keys), w) == SumBy(RecordsOf(rs, k), w) + SumBy(Within(rs, keys), w)
  {
    if |rs| > 0 {
      var init := rs[..|rs| - 1];
      var last := rs[|rs| - 1];
      SplitKey(init, k, keys, w);
      if DelegatorOf(last) == k {
        SumByAppend(Within(init, {k} + keys), last, w);
        SumByAppend(RecordsOf(init, k), last, w);
        assert Within(init, keys) == Within(rs, keys);
      } else if DelegatorOf(last) in keys {
        SumByAppend(Within(init, {k} + keys), last, w);
        SumByAppend(Within(init, keys), last, w);
      } else {
        assert DelegatorOf(last) !in {k} + keys;
        assert Within(rs, keys) == Within(init, keys);
        assert Within(rs, {k} + keys) == Within(init, {k} + keys);
        assert RecordsOf(rs, k) == RecordsOf(init, k);
      }
    }
  }

  lemma {:induction false} WeightOverOrder(rs: seq<DelegationResponse>, order: seq<string>, w: DelegationResponse -> int)
    requires Distinct(order)
    ensures WeightOver(rs, order, w) == SumBy(Within(rs, set k | k in order), w)
  {
    if |order| == 0 {
      assert (set k | k in order) == {};
      WithinNone(rs);
    } else {
      var rest := order[1..];
      DistinctTail(order);
      WeightOverOrder(rs, rest, w);
      KeySetCons(order);
      SplitKey(rs, order[0], (set k | k in rest), w);
    }
  }

  /** The keys of a distinct list are its head and the keys of its tail. */
  lemma KeySetCons(order: seq<string>)
    requires Distinct(order) && |order| > 0
    ensures order[0] !in (set k | k in order[1..])
    ensures (set k | k in order) == {order[0]} + (set k | k in order[1..])
  {
    DistinctTail(order);
    assert order == [order[0]] + order[1..];
  }

  lemma {:induction false} WithinNone(rs: seq<DelegationResponse>)
    ensures Within(rs, {}) == []
  {
    if |rs| > 0 {
      WithinNone(rs[..|rs| - 1]);
    }
  }

  lemma {:induction false} WithinAll(rs: seq<DelegationResponse>, keys: set<string>)
    requires Delegators(rs) <= keys
    ensures Within(rs, keys) == rs
  {
    if |rs| > 0 {
      var init := rs[..|rs| - 1];
      assert rs == init + [rs[|rs| - 1]];
      assert Delegators(init) <= Delegators(rs);
      WithinAll(init, keys);
    }
  }

  function One(r: DelegationResponse): int { 1 }

  lemma {:induction false} SumOfOnes(rs: seq<DelegationResponse>)
    ensures SumBy(rs, One) == |rs|
  {
    if |rs| > 0 {
      SumOfOnes(rs[..|rs| - 1]);
    }
  }

  /** Sum of the record counts of the listed aggregates. */
  function CountOver(m: DelegationsMap, order: seq<string>): int
    requires forall k :: k in order ==> k in m
  {
    if |order| == 0 then 0 else |m[order[0]].responses| + CountOver(m, order[1..])
  }

  /** Sum of the totals of the listed aggregates. */
  function TotalOver(m: DelegationsMap, order: seq<string>): int
    requires forall k :: k in order ==> k in m
  {
    if |order| == 0 then 0 else m[order[0]].totalBalance + TotalOver(m, order[1..])
  }

  lemma OverAggregate(rs: seq<DelegationResponse>, order: seq<string>)
    requires forall k :: k in order ==> k in Aggregate(rs)
    ensures CountOver(Aggregate(rs), order) == WeightOver(rs, order, One)
    ensures TotalOver(Aggregate(rs), order) == WeightOver(rs, order, AmountOf)
  {
    OverRecords(Aggregate(rs), rs, order);
  }

  /** Entries holding each key's records and their total: counts and totals
      over the keys are the weights of those records. */
  lemma {:induction false} OverRecords(m: DelegationsMap, rs: seq<DelegationResponse>, order: seq<string>)
    requires forall k :: k in order ==> k in m && m[k] == DelegatorAggregate(RecordsOf(rs, k), TotalOf(RecordsOf(rs, k)))
    ensures forall k :: k in order ==> k in m
    ensures CountOver(m, order) == WeightOver(rs, order, One)
    ensures TotalOver(m, order) == WeightOver(rs, order, AmountOf)
  {
    if |order| > 0 {
      assert order[0] in order;
      assert forall x :: x in order[1..] ==> x in order;
      OverRecords(m, rs, order[1..]);
      SumOfOnes(RecordsOf(rs, order[0]));
    }
  }

  /** Whatever order the map is visited in, the record lists hold every input
      record once and the totals add up to the sum of all input amounts. */
  lemma Conservation(rs: seq<DelegationResponse>, order: seq<string>)
    requires IsEnumeration(order, Aggregate(rs).Keys)
    ensures CountOver(Aggregate(rs), order) == |rs|
    ensures TotalOver(Aggregate(rs), order) == TotalOf(rs)
  {
    OverAggregate(rs, order);
    WeightOverOrder(rs, order, One);
    WeightOverOrder(rs, order, AmountOf);
    assert (set k | k in order) == Delegators(rs);
    WithinAll(rs, Delegators(rs));
    SumOfOnes(rs);
  }

  // ---------------------------------------------------------------------------
  // Retrieval (GetDelegationResponses)

  /** The delegation requests of one validator's page loop. */
  function Scoped(addr: string, requests: seq<PageRequest>): (r: seq<DelegationsRequest>)
    ensures |r| == |requests|
    ensures forall i :: 0 <= i < |r| ==> r[i] == DelegationsRequest(addr, requests[i])
  {
    seq(|requests|, i requires 0 <= i < |requests| => DelegationsRequest(addr, requests[i]))
  }

  lemma ScopedAppend(addr: string, a: seq<PageRequest>, b: seq<PageRequest>)
    ensures Scoped(addr, a + b) == Scoped(addr, a) + Scoped(addr, b)
  {
  }

  /** Follows one validator's pages from the first request on. */
  function FetchValidator(addr: string, source: Source): (r: Fetched)
    requires Ends(source(addr))
    ensures |r.requests| > 0 && r.requests[0] == DelegationsRequest(addr, PageRequest(None, DelegationsPageLimit))
    ensures forall q :: q in r.requests ==> q.validatorAddr == addr
  {
    var p := Drain(source(addr), None, DelegationsPageLimit);
    Fetched(p.outcome, Scoped(addr, p.requests))
  }

  /** The precondition the page loop needs: the first validator's pages end. */
  predicate FirstValidatorEnds(dial: Option<Error>, validators: seq<Validator>, source: Source) {
    dial.None? && |validators| > 0 ==> Ends(source(validators[0].operatorAddress))
  }

  /** GetDelegationResponses as written: a dial failure returns no records
      and the error; otherwise the loop over the validators fetches the
      first validator's pages and then leaves at the unconditional break.
      With no validators nothing is requested and the result is empty. */
  function FetchDelegations(dial: Option<Error>, validators: seq<Validator>, source: Source): (r: Fetched)
    requires FirstValidatorEnds(dial, validators, source)
    ensures dial.Some? ==> r == Fetched(Aborted([], dial.value), [])
    ensures dial.None? && |validators| == 0 ==> r == Fetched(Done([]), [])
    ensures |validators| > 0 ==> forall q :: q in r.requests ==> q.validatorAddr == validators[0].operatorAddress
  {
    if dial.Some? then Fetched(Aborted([], dial.value), [])
    else if |validators| == 0 then Fetched(Done([]), [])
    else FetchValidator(validators[0].operatorAddress, source)
  }

  /** The validators after the first one change nothing: not the records,
      not the error, not the requests issued. */
  lemma OnlyFirstValidatorFetched(dial: Option<Error>, validators: seq<Validator>, source: Source)
    requires FirstValidatorEnds(dial, validators, source)
    ensures FetchDelegations(dial, validators, source) == FetchDelegations(dial, validators[..if |validators| == 0 then 0 else 1], source)
  {
  }

  /** GetDelegationResponses, with the loop structure of the Go code: an outer
      loop over the validators that always breaks after its first pass. A
      failing request returns the records gathered so far with its error. */
  method GetDelegationResponses(dial: Option<Error>, validators: seq<Validator>, source: Source)
    returns (outcome: Outcome<DelegationResponse>, requests: seq<DelegationsRequest>)
    requires FirstValidatorEnds(dial, validators, source)
    ensures Fetched(outcome, requests) == FetchDelegations(dial, validators, source)
  {
    var records: seq<DelegationResponse> := [];
    requests := [];
    if dial.Some? {
      return Aborted(records, dial.value), requests;
    }
    for vi := 0 to |validators|
      invariant vi == 0 && records == [] && requests == []
    {
      var pages, pageRequests := FollowPages(validators[vi].operatorAddress, source);
      if !pages.Done? {
        return pages, pageRequests;
      }
      records := records + pages.items;
      requests := requests + pageRequests;
      assert records == pages.items && requests == pageRequests;
      break;
    }
    return Done(records), requests;
  }

  /** The body of the validator loop: the first request without a key, then
      the inner loop that follows the next keys. */
  method FollowPages(addr: string, source: Source)
    returns (outcome: Outcome<DelegationResponse>, requests: seq<DelegationsRequest>)
    requires Ends(source(addr))
    ensures Fetched(outcome, requests) == FetchValidator(addr, source)
  {
    var records: seq<DelegationResponse> := [];
    requests := [];
    var script := source(addr);
    ghost var whole := FetchValidator(addr, source);
    requests := requests + [DelegationsRequest(addr, PageRequest(None, DelegationsPageLimit))];
    var reply := script[0];
    if reply.Failed? {
      return Aborted(records, reply.err), requests;
    }
    records := records + reply.items;
    if reply.pagination.None? {
      return Panicked, requests;
    }
    var key := reply.pagination.value.nextKey;
    var n := 1;
    FirstPage(addr, script, records, requests);
    while key.Some?
      invariant Pending(addr, whole, script, n, key, records, requests)
      decreases |script| - n
    {
      PageStep(addr, whole, script, n, key, records, requests);
      requests := requests + [DelegationsRequest(addr, PageRequest(key, DelegationsPageLimit))];
      reply := script[n];
      if reply.Failed? {
        return Aborted(records, reply.err), requests;
      }
      records := records + reply.items;
      if reply.pagination.None? {
        return Panicked, requests;
      }
      key := reply.pagination.value.nextKey;
      n := n + 1;
    }
    return Done(records), requests;
  }

  /** The state of the inner loop before request `n` with next key `key`:
      while a key remains, the whole fetch is the records and requests so
      far followed by what the rest of the script gives from that key; once
      none remains, the whole fetch is what was gathered. */
  ghost predicate Pending(addr: string, whole: Fetched, script: seq<Reply<DelegationResponse>>, n: nat,
                          key: Option<Key>, records: seq<DelegationResponse>, requests: seq<DelegationsRequest>)
  {
    && n <= |script|
    && (key.Some? ==>
          && Ends(script[n..])
          && whole == Fetched(Prepend(records, Drain(script[n..], key, DelegationsPageLimit).outcome),
                              requests + Scoped(addr, Drain(script[n..], key, DelegationsPageLimit).requests)))
    && (key.None? ==> whole == Fetched(Done(records), requests))
  }

  /** The state after the first reply, when it is a page with pagination. */
  lemma FirstPage(addr: string, script: seq<Reply<DelegationResponse>>,
                  records: seq<DelegationResponse>, requests: seq<DelegationsRequest>)
    requires Ends(script) && script[0].Page? && script[0].pagination.Some?
    requires records == script[0].items
    requires requests == [DelegationsRequest(addr, PageRequest(None, DelegationsPageLimit))]
    ensures var whole := Drain(script, None, DelegationsPageLimit);
      Pending(addr, Fetched(whole.outcome, Scoped(addr, whole.requests)), script, 1,
              script[0].pagination.value.nextKey, records, requests)
  {
    var key := script[0].pagination.value.nextKey;
    assert Scoped(addr, [PageRequest(None, DelegationsPageLimit)]) == requests;
    if key.Some? {
      EndsTail(script);
      ScopedAppend(addr, [PageRequest(None, DelegationsPageLimit)], Drain(script[1..], key, DelegationsPageLimit).requests);
      PrependTwice([], records, Drain(script[1..], key, DelegationsPageLimit).outcome);
    } else {
      assert Drain(script, None, DelegationsPageLimit) == Paged(Done(records), [PageRequest(None, DelegationsPageLimit)]);
    }
  }

  /** One pass of the inner loop: request `n` carries the key; a failed reply
      ends the fetch with the records so far and its error, a reply without
      pagination crashes, and a page moves on to its next key. */
  lemma PageStep(addr: string, whole: Fetched, script: seq<Reply<DelegationResponse>>, n: nat,
                 key: Option<Key>, records: seq<DelegationResponse>, requests: seq<DelegationsRequest>)
    requires key.Some? && Pending(addr, whole, script, n, key, records, requests)
    ensures n < |script|
    ensures var reply := script[n];
      var sent := requests + [DelegationsRequest(addr, PageRequest(key, DelegationsPageLimit))];
      && (reply.Failed? ==> whole == Fetched(Aborted(records, reply.err), sent))
      && (reply.Page? && reply.pagination.None? ==> whole == Fetched(Panicked, sent))
      && (reply.Page? && reply.pagination.Some? ==>
            Pending(addr, whole, script, n + 1, reply.pagination.value.nextKey, records + reply.items, sent))
  {
    var rest := script[n..];
    assert rest[0] == script[n];
    assert rest[1..] == script[n + 1..];
    var request := PageRequest(key, DelegationsPageLimit);
    assert Scoped(addr, [request]) == [DelegationsRequest(addr, request)];
    var reply := script[n];
    if reply.Page? && reply.pagination.Some? {
      var nextKey := reply.pagination.value.nextKey;
      if nextKey.Some? {
        EndsTail(rest);
        var tail := Drain(script[n + 1..], nextKey, DelegationsPageLimit);
        ScopedAppend(addr, [request], tail.requests);
        PrependTwice(records, reply.items, tail.outcome);
      }
    }
  }

  // ---------------------------------------------------------------------------
  // The fetch without the break (evidently intended)

  predicate AllEnd(validators: seq<Validator>, source: Source) {
    forall v :: v in validators ==> Ends(source(v.operatorAddress))
  }

  /** Every validator's pages in validator order, stopping at the first
      failure with everything gathered so far. */
  function FetchEach(validators: seq<Validator>, source: Source): (r: Fetched)
    requires AllEnd(validators, source)
    ensures r.outcome.Done? ==> forall v :: v in validators ==>
      DelegationsRequest(v.operatorAddress, PageRequest(None, DelegationsPageLimit)) in r.requests
    decreases |validators|
  {
    if |validators| == 0 then Fetched(Done([]), [])
    else
      var first := FetchValidator(validators[0].operatorAddress, source);
      if first.outcome.Done? then
        var rest := FetchEach(validators[1..], source);
        assert forall v :: v in validators[1..] ==> v in validators;
        Fetched(Prepend(first.outcome.items, rest.outcome), first.requests + rest.requests)
      else first
  }

  /** GetDelegationResponses without the break at the end of the loop body. */
  function FetchAllDelegations(dial: Option<Error>, validators: seq<Validator>, source: Source): (r: Fetched)
    requires dial.None? ==> AllEnd(validators, source)
    ensures dial.Some? ==> r == Fetched(Aborted([], dial.value), [])
    ensures dial.None? && r.outcome.Done? ==> forall v :: v in validators ==>
      DelegationsRequest(v.operatorAddress, PageRequest(None, DelegationsPageLimit)) in r.requests
  {
    if dial.Some? then Fetched(Aborted([], dial.value), []) else FetchEach(validators, source)
  }

  /** Fetching a list of validators is fetching its two halves one after the
      other: the records concatenate in validator order when the first half
      succeeds, and the requests follow each other. */
  lemma {:induction false} FetchEachAppend(a: seq<Validator>, b: seq<Validator>, source: Source)
    requires AllEnd(a + b, source)
    ensures AllEnd(a, source) && AllEnd(b, source)
    ensures FetchEach(a, source).outcome.Done? ==>
      FetchEach(a + b, source)
        == Fetched(Prepend(FetchEach(a, source).outcome.items, FetchEach(b, source).outcome),
                   FetchEach(a, source).requests + FetchEach(b, source).requests)
    decreases |a|
  {
    AllEndSplit(a, b, source);
    var fb := FetchEach(b, source);
    if |a| == 0 {
      assert a + b == b;
      assert Prepend([], fb.outcome) == fb.outcome;
    } else {
      assert (a + b)[1..] == a[1..] + b;
      var first := FetchValidator(a[0].operatorAddress, source);
      FetchEachFirst(a, source);
      FetchEachFirst(a + b, source);
      if first.outcome.Done? {
        FetchEachAppend(a[1..], b, source);
        var ra := FetchEach(a[1..], source);
        if ra.outcome.Done? {
          FetchedConcat(first.outcome.items, first.requests, ra, FetchEach(a[1..] + b, source), fb);
        }
      }
    }
  }

  /** Prepending one validator's pages to a fetch that splits into two parts
      splits the same way. */
  lemma FetchedConcat(items: seq<DelegationResponse>, requests: seq<DelegationsRequest>, ra: Fetched, rab: Fetched, rb: Fetched)
    requires ra.outcome.Done?
    requires rab == Fetched(Prepend(ra.outcome.items, rb.outcome), ra.requests + rb.requests)
    ensures Fetched(Prepend(items, rab.outcome), requests + rab.requests)
         == Fetched(Prepend(Prepend(items, ra.outcome).items, rb.outcome), (requests + ra.requests) + rb.requests)
  {
    PrependTwice(items, ra.outcome.items, rb.outcome);
    assert requests + (ra.requests + rb.requests) == (requests + ra.requests) + rb.requests;
  }

  lemma AllEndSplit(a: seq<Validator>, b: seq<Validator>, source: Source)
    requires AllEnd(a + b, source)
    ensures AllEnd(a, source) && AllEnd(b, source)
  {
    assert forall v :: v in a ==> v in a + b;
    assert forall v :: v in b ==> v in a + b;
  }

  /** One step of FetchEach: the first validator's pages, then the rest when
      they complete. */
  lemma FetchEachFirst(vs: seq<Validator>, source: Source)
    requires |vs| > 0 && AllEnd(vs, source)
    ensures AllEnd(vs[1..], source)
    ensures var first := FetchValidator(vs[0].operatorAddress, source);
      FetchEach(vs, source)
        == if first.outcome.Done?
           then Fetched(Prepend(first.outcome.items, FetchEach(vs[1..], source).outcome),
                        first.requests + FetchEach(vs[1..], source).requests)
           else first
  {
    assert forall v :: v in vs[1..] ==> v in vs;
  }

  /** With a single validator the loop's break makes no difference. */
  lemma SingleValidatorAgrees(dial: Option<Error>, v: Validator, source: Source)
    requires dial.None? ==> Ends(source(v.operatorAddress))
    ensures FetchDelegations(dial, [v], source) == FetchAllDelegations(dial, [v], source)
  {
    if dial.None? {
      var first := FetchValidator(v.operatorAddress, source);
      assert [v][1..] == [];
      assert FetchEach([v][1..], source) == Fetched(Done([]), []);
      if first.outcome.Done? {
        assert first.outcome.items + [] == first.outcome.items;
        assert first.requests + [] == first.requests;
        assert first.outcome == Done(first.outcome.items);
      }
    }
  }

  /** Two validators with one page of one record each: the code as written
      returns only the first record, the loop without the break both. */
  lemma BreakSkipsSecondValidator(v1: Validator, v2: Validator, r1: DelegationResponse, r2: DelegationResponse, source: Source)
    requires v1.operatorAddress != v2.operatorAddress
    requires source(v1.operatorAddress) == [Page([r1], Some(PageResponse(None)))]
    requires source(v2.operatorAddress) == [Page([r2], Some(PageResponse(None)))]
    ensures Ends(source(v1.operatorAddress)) && Ends(source(v2.operatorAddress))
    ensures FetchDelegations(None, [v1, v2], source).outcome == Done([r1])
    ensures FetchAllDelegations(None, [v1, v2], source).outcome == Done([r1, r2])
  {
    assert !Continues(source(v1.operatorAddress)[0]);
    assert !Continues(source(v2.operatorAddress)[0]);
    assert [v1, v2][1..] == [v2];
    assert [v2][1..] == [];
    var f1 := FetchValidator(v1.operatorAddress, source);
    var f2 := FetchValidator(v2.operatorAddress, source);
    assert f1.outcome == Done([r1]);
    assert f2.outcome == Done([r2]);
    assert FetchEach([], source).outcome == Done([]);
    assert FetchEach([v2], source).outcome == Done([r2] + []);
    assert FetchEach([v1, v2], source).outcome == Done([r1] + ([r2] + []));
  }

  // ---------------------------------------------------------------------------
  // The package's delegators report (WriteDelegations in delegations.go)

  const DelegationsHeader: Row := ["delegator", "voting_power"]

  /** Total of a delegator, or zero when it has no entry. */
  function TotalIn(m: DelegationsMap, d: string): int {
    if d in m then m[d].totalBalance else 0
  }

  /** A (delegator, exact total) row. */
  function TotalRow(m: DelegationsMap, d: string): Row {
    [d, Decimal.IntToString(TotalIn(m, d))]
  }

  /** The sort.Slice comparator: a larger total comes first. */
  function ByTotalDesc(m: DelegationsMap): (DelegationResponse, DelegationResponse) -> bool {
    (a: DelegationResponse, b: DelegationResponse) => TotalIn(m, DelegatorOf(a)) > TotalIn(m, DelegatorOf(b))
  }

  lemma ByTotalDescIsOrder(m: DelegationsMap)
    ensures Sorting.StrictWeakOrder(ByTotalDesc(m))
  {
  }

  ghost predicate NonIncreasingTotals(m: DelegationsMap, s: seq<DelegationResponse>) {
    forall i, j :: 0 <= i < j < |s| ==> TotalIn(m, DelegatorOf(s[i])) >= TotalIn(m, DelegatorOf(s[j]))
  }

  /** One row per record, in the given order. */
  function RowsPerRecord(m: DelegationsMap, s: seq<DelegationResponse>): (rows: seq<Row>)
    ensures |rows| == |s|
    ensures forall i :: 0 <= i < |s| ==> rows[i] == TotalRow(m, DelegatorOf(s[i]))
  {
    seq(|s|, i requires 0 <= i < |s| => TotalRow(m, DelegatorOf(s[i])))
  }

  /** The package's WriteDelegations: the records are sorted by their
      delegator's total, largest first, by an unstable sort, and each record
      gives one row, so a delegator appears once per record. The model fixes
      one order sort.Slice may produce: the stable one. */
  function WriteDelegations(m: DelegationsMap, rs: seq<DelegationResponse>): (report: seq<Row>)
    requires forall r :: r in rs ==> DelegatorOf(r) in m
    ensures |report| == |rs| + 1 && report[0] == DelegationsHeader
    ensures exists sorted ::
      && multiset(sorted) == multiset(rs)
      && NonIncreasingTotals(m, sorted)
      && report[1..] == RowsPerRecord(m, sorted)
  {
    var sorted := Sorting.Sort(ByTotalDesc(m), rs);
    ByTotalDescIsOrder(m);
    Sorting.SortSortedStable(ByTotalDesc(m), rs);
    assert NonIncreasingTotals(m, sorted);
    [DelegationsHeader] + RowsPerRecord(m, sorted)
  }

  // ---------------------------------------------------------------------------
  // Reports of delegators with more than one delegation

  /** A (delegator, validator, third column) row for one record. */
  function RecordRow(r: DelegationResponse, third: DelegationResponse -> string): Row {
    [DelegatorOf(r), r.delegation.validatorAddress, third(r)]
  }

  function RecordRows(rs: seq<DelegationResponse>, third: DelegationResponse -> string): (rows: seq<Row>)
    ensures |rows| == |rs|
    ensures forall i :: 0 <= i < |rs| ==> rows[i] == RecordRow(rs[i], third)
  {
    seq(|rs|, i requires 0 <= i < |rs| => RecordRow(rs[i], third))
  }

  /** The rows of one aggregate: one per record when it has more than one record, else none. */
  function AggregateRows(agg: DelegatorAggregate, third: DelegationResponse -> string): seq<Row> {
    if |agg.responses| > 1 then RecordRows(agg.responses, third) else []
  }

  /** The rows of the aggregates visited in `order`. */
  function MultipleRows(m: DelegationsMap, order: seq<string>, third: DelegationResponse -> string): seq<Row>
    requires forall k :: k in order ==> k in m
  {
    if |order| == 0 then [] else AggregateRows(m[order[0]], third) + MultipleRows(m, order[1..], third)
  }

  /** Number of records held by the visited aggregates with more than one record. */
  function MultipleCount(m: DelegationsMap, order: seq<string>): nat
    requires forall k :: k in order ==> k in m
  {
    if |order| == 0 then 0
    else (if |m[order[0]].responses| > 1 then |m[order[0]].responses| else 0) + MultipleCount(m, order[1..])
  }

  lemma {:induction false} MultipleRowsShape(m: DelegationsMap, order: seq<string>, third: DelegationResponse -> string)
    requires forall k :: k in order ==> k in m
    ensures |MultipleRows(m, order, third)| == MultipleCount(m, order)
    ensures forall i :: 0 <= i < |MultipleRows(m, order, third)| ==> |MultipleRows(m, order, third)[i]| == 3
  {
    if |order| > 0 {
      MultipleRowsShape(m, order[1..], third);
      var head := AggregateRows(m[order[0]], third);
      var tail := MultipleRows(m, order[1..], third);
      assert MultipleRows(m, order, third) == head + tail;
      assert forall i :: 0 <= i < |head| ==> |head[i]| == 3;
    }
  }

  /** The rows whose first column is `d`, in order. */
  function RowsOfDelegator(rows: seq<Row>, d: string): seq<Row> {
    if |rows| == 0 then []
    else (if |rows[0]| > 0 && rows[0][0] == d then [rows[0]] else []) + RowsOfDelegator(rows[1..], d)
  }

  lemma {:induction false} RowsOfDelegatorAppend(a: seq<Row>, b: seq<Row>, d: string)
    ensures RowsOfDelegator(a + b, d) == RowsOfDelegator(a, d) + RowsOfDelegator(b, d)
  {
    if |a| == 0 {
      assert a + b == b;
    } else {
      assert (a + b)[0] == a[0];
      assert (a + b)[1..] == a[1..] + b;
      RowsOfDelegatorAppend(a[1..], b, d);
    }
  }

  /** Rows that all start with `k` are kept whole for `k` and dropped for any other delegator. */
  lemma {:induction false} RowsOfOneDelegator(rows: seq<Row>, k: string, d: string)
    requires forall i :: 0 <= i < |rows| ==> |rows[i]| > 0 && rows[i][0] == k
    ensures RowsOfDelegator(rows, d) == if k == d then rows else []
  {
    if |rows| > 0 {
      RowsOfOneDelegator(rows[1..], k, d);
      assert rows == [rows[0]] + rows[1..];
    }
  }

  /** Every row of an aggregate starts with its delegator's address. */
  lemma AggregateRowsStartWith(rs: seq<DelegationResponse>, k: string, third: DelegationResponse -> string)
    requires k in Aggregate(rs)
    ensures var rows := AggregateRows(Aggregate(rs)[k], third);
      forall i :: 0 <= i < |rows| ==> |rows[i]| > 0 && rows[i][0] == k
  {
    var agg := Aggregate(rs)[k];
    assert agg.responses == RecordsOf(rs, k);
    RecordRowsStartWith(agg.responses, k, third);
  }

  /** The rows of records of one delegator start with that delegator. */
  lemma RecordRowsStartWith(records: seq<DelegationResponse>, k: string, third: DelegationResponse -> string)
    requires forall r :: r in records ==> DelegatorOf(r) == k
    ensures var rows := RecordRows(records, third);
      forall i :: 0 <= i < |rows| ==> |rows[i]| > 0 && rows[i][0] == k
  {
    var rows := RecordRows(records, third);
    forall i | 0 <= i < |rows| ensures |rows[i]| > 0 && rows[i][0] == k {
      assert records[i] in records;
    }
  }

  lemma DistinctTail(order: seq<string>)
    requires Distinct(order) && |order| > 0
    ensures Distinct(order[1..]) && order[0] !in order[1..]
  {
    var rest := order[1..];
    forall i, j | 0 <= i < j < |rest| ensures rest[i] != rest[j] {
      assert rest[i] == order[i + 1] && rest[j] == order[j + 1];
    }
  }

  lemma {:induction false} MultipleRowsOfDelegator(rs: seq<DelegationResponse>, order: seq<string>, third: DelegationResponse -> string, d: string)
    requires Distinct(order) && forall k :: k in order ==> k in Aggregate(rs)
    ensures RowsOfDelegator(MultipleRows(Aggregate(rs), order, third), d)
         == if d in order && |RecordsOf(rs, d)| > 1 then RecordRows(RecordsOf(rs, d), third) else []
  {
    if |order| > 0 {
      var m := Aggregate(rs);
      var k := order[0];
      var rest := order[1..];
      DistinctTail(order);
      MultipleRowsOfDelegator(rs, rest, third, d);
      var head := AggregateRows(m[k], third);
      var tail := MultipleRows(m, rest, third);
      assert MultipleRows(m, order, third) == head + tail;
      RowsOfDelegatorAppend(head, tail, d);
      AggregateRowsStartWith(rs, k, third);
      RowsOfOneDelegator(head, k, d);
      assert d in order <==> d == k || d in rest;
      if d == k {
        assert m[k].responses == RecordsOf(rs, d);
        assert RowsOfDelegator(tail, d) == [];
      } else {
        assert RowsOfDelegator(head, d) == [];
      }
    }
  }

  /** Per delegator, the rows of the report: none for a delegator with a
      single record (or none), and one row per record, in record order, for a
      delegator with more than one record; whatever order the map is visited in. */
  lemma MultipleRowsPerDelegator(rs: seq<DelegationResponse>, order: seq<string>, third: DelegationResponse -> string, d: string)
    requires IsEnumeration(order, Aggregate(rs).Keys)
    ensures RowsOfDelegator(MultipleRows(Aggregate(rs), order, third), d)
         == if |RecordsOf(rs, d)| > 1 then RecordRows(RecordsOf(rs, d), third) else []
  {
    MultipleRowsOfDelegator(rs, order, third, d);
  }

  const MultipleDelegationsHeader: Row := ["delegator", "validator", "bonded_token"]

  function DenomOf(r: DelegationResponse): string {
    r.balance.denom
  }

  /** The package's WriteMultipleDelegations: the third column is the
      balance's denomination, and the header says "bonded_token". */
  function WriteMultipleDelegations(m: DelegationsMap, order: seq<string>): (report: seq<Row>)
    requires IsEnumeration(order, m.Keys)
    ensures |report| == MultipleCount(m, order) + 1 && report[0] == MultipleDelegationsHeader
    ensures forall i :: 1 <= i < |report| ==> |report[i]| == 3
  {
    MultipleRowsShape(m, order, DenomOf);
    [MultipleDelegationsHeader] + MultipleRows(m, order, DenomOf)
  }

  /** Below the header, a delegator with at most one record has no row, and
      one with k > 1 records exactly k rows, in record order, each naming the
      record's validator and its balance's denomination, whatever order the
      map is visited in. */
  lemma MultipleDelegationsPerDelegator(rs: seq<DelegationResponse>, order: seq<string>, d: string)
    requires IsEnumeration(order, Aggregate(rs).Keys)
    ensures var rows := RowsOfDelegator(WriteMultipleDelegations(Aggregate(rs), order)[1..], d);
      var records := RecordsOf(rs, d);
      && (|records| <= 1 ==> rows == [])
      && (|records| > 1 ==> |rows| == |records| && forall i :: 0 <= i < |rows| ==>
            rows[i] == [d, records[i].delegation.validatorAddress, records[i].balance.denom])
  {
    var m := Aggregate(rs);
    var report := WriteMultipleDelegations(m, order);
    assert report[1..] == MultipleRows(m, order, DenomOf);
    MultipleRowsPerDelegator(rs, order, DenomOf, d);
    var rows := RowsOfDelegator(report[1..], d);
    var records := RecordsOf(rs, d);
    if |records| > 1 {
      assert rows == RecordRows(records, DenomOf);
      forall i | 0 <= i < |rows|
        ensures rows[i] == [d, records[i].delegation.validatorAddress, records[i].balance.denom]
      {
        assert records[i] in records;
        assert rows[i] == RecordRow(records[i], DenomOf);
      }
    }
  }
}
