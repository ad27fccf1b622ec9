/** The validators package: fetching the validator set and the validators report. */
module Validators {
  import opened Outcomes
  import opened Staking
  import opened Paging
  import opened Csv
  import opened Sorting
  import Decimal

  /** Page size of the validators request. */
  const ValidatorsPageLimit: nat := 100

  /** GetValidators: a dial failure returns no validators and the error;
      otherwise exactly one request is issued. Its failure returns no
      validators and the error; its page is returned as the whole set. The
      continuation loop's guard ends in `&& false`, so no further page is
      ever requested, but the guard still reads the reply's pagination
      descriptor first, which crashes when the descriptor is absent. */
  function GetValidators(dial: Option<Error>, replies: seq<Reply<Validator>>): (r: Paged<Validator>)
    requires dial.None? ==> |replies| > 0
    ensures dial.Some? ==> r == Paged(Aborted([], dial.value), [])
    ensures dial.None? ==> r.requests == [PageRequest(None, ValidatorsPageLimit)]
    ensures dial.None? && replies[0].Failed? ==> r.outcome == Aborted([], replies[0].err)
    ensures dial.None? && replies[0].Page? ==>
      r.outcome == if replies[0].pagination.None? then Panicked else Done(replies[0].items)
  {
    if dial.Some? then Paged(Aborted([], dial.value), [])
    else
      var request := PageRequest(None, ValidatorsPageLimit);
      match replies[0]
      case Failed(e) => Paged(Aborted([], e), [request])
      case Page(items, pagination) =>
        if pagination.None? then Paged(Panicked, [request]) else Paged(Done(items), [request])
  }

  /** Against the full pagination of the same replies: when the first page is
      the last one, GetValidators agrees with it; when the first page carries
      a next key and following every page would succeed, GetValidators still
      issues one request and returns only the first page, a prefix of the set. */
  lemma FirstPageOnly(replies: seq<Reply<Validator>>)
    requires Ends(replies)
    ensures |replies| > 0
    ensures !Continues(replies[0]) ==> GetValidators(None, replies) == Drain(replies, None, ValidatorsPageLimit)
    ensures Continues(replies[0]) && Drain(replies, None, ValidatorsPageLimit).outcome.Done? ==>
      && GetValidators(None, replies).outcome == Done(replies[0].items)
      && replies[0].items <= Drain(replies, None, ValidatorsPageLimit).outcome.items
      && |Drain(replies, None, ValidatorsPageLimit).requests| > 1
  {
    if Continues(replies[0]) {
      EndsTail(replies);
      var rest := Drain(replies[1..], replies[0].pagination.value.nextKey, ValidatorsPageLimit);
      assert Drain(replies, None, ValidatorsPageLimit).requests == [PageRequest(None, ValidatorsPageLimit)] + rest.requests;
    }
  }

  // ---------------------------------------------------------------------------
  // Validators report

  /** The comparator of the sort: an abstract strict weak order whose primary
      key is consensus power, larger first (the tie-break among equal powers
      is the SDK's and is left open). */
  ghost predicate PowerOrder(less: (Validator, Validator) -> bool) {
    && StrictWeakOrder(less)
    && (forall a, b :: ConsensusPower(a) > ConsensusPower(b) ==> less(a, b))
    && (forall a, b :: less(a, b) ==> ConsensusPower(a) >= ConsensusPower(b))
  }

  /** sort.SliceStable by the comparator: a permutation, sorted by the
      comparator and so by non-increasing power, in which validators the
      comparator does not separate keep their input order. */
  function SortByPower(vs: seq<Validator>, less: (Validator, Validator) -> bool): (sorted: seq<Validator>)
    requires PowerOrder(less)
    ensures multiset(sorted) == multiset(vs)
    ensures Sorted(less, sorted) && StableFrom(less, vs, sorted)
    ensures forall i, j :: 0 <= i < j < |sorted| ==> ConsensusPower(sorted[i]) >= ConsensusPower(sorted[j])
  {
    SortSortedStable(less, vs);
    Sort(less, vs)
  }

  /** Any stable sort by the comparator gives the same order as SortByPower. */
  lemma SortByPowerUnique(vs: seq<Validator>, less: (Validator, Validator) -> bool, other: seq<Validator>)
    requires PowerOrder(less)
    requires multiset(other) == multiset(vs) && Sorted(less, other) && StableFrom(less, vs, other)
    ensures other == SortByPower(vs, less)
  {
    var sorted := SortByPower(vs, less);
    assert StableFrom(less, sorted, other);
    StableSortUnique(less, sorted, other);
  }

  const ValidatorsHeader: Row := ["moniker", "voting_power", "self_delegation", "total_delegation"]

  /** Moniker, consensus power, minimum self-delegation, delegator shares. */
  function ValidatorRow(v: Validator): Row {
    [v.moniker, Decimal.IntToString(ConsensusPower(v)), Decimal.IntToString(v.minSelfDelegation), v.delegatorShares]
  }

  function ValidatorRows(vs: seq<Validator>): (rows: seq<Row>)
    ensures |rows| == |vs|
    ensures forall i :: 0 <= i < |vs| ==> rows[i] == ValidatorRow(vs[i])
  {
    seq(|vs|, i requires 0 <= i < |vs| => ValidatorRow(vs[i]))
  }

  /** WriteValidators: the header, then one row per validator in the order
      of the stable sort by power. */
  function WriteValidators(vs: seq<Validator>, less: (Validator, Validator) -> bool): (report: seq<Row>)
    requires PowerOrder(less)
    ensures |report| == |vs| + 1 && report[0] == ValidatorsHeader
    ensures exists sorted ::
      && multiset(sorted) == multiset(vs)
      && Sorted(less, sorted)
      && StableFrom(less, vs, sorted)
      && report[1..] == ValidatorRows(sorted)
  {
    var sorted := SortByPower(vs, less);
    [ValidatorsHeader] + ValidatorRows(sorted)
  }

  /** The row of the first validator of the tests: 5956506193276 bonded
      tokens give power 5956506. */
  lemma InotelRow()
    ensures ValidatorRow(Validator("osmovaloper1z89utvygweg5l56fsk8ak7t6hh88fd0axx2fya", "Inotel", Bonded,
                                   5956506193276, "5956506193276.000000000000000000", 1))
         == ["Inotel", "5956506", "1", "5956506193276.000000000000000000"]
  {
    var v := Validator("osmovaloper1z89utvygweg5l56fsk8ak7t6hh88fd0axx2fya", "Inotel", Bonded,
                       5956506193276, "5956506193276.000000000000000000", 1);
    assert ConsensusPower(v) == 5956506;
    assert Decimal.NatToString(5) == "5";
    assert Decimal.NatToString(59) == "59";
    assert Decimal.NatToString(595) == "595";
    assert Decimal.NatToString(5956) == "5956";
    assert Decimal.NatToString(59565) == "59565";
    assert Decimal.NatToString(595650) == "595650";
    assert Decimal.NatToString(5956506) == "5956506";
    assert Decimal.IntToString(1) == "1";
  }
}
