/** The main package: its three report writers and the order in which main
    runs retrieval, aggregation and reporting. */
module Program {
  import opened Outcomes
  import opened Staking
  import opened Paging
  import opened Csv
  import Delegations
  import opened Validators
  import Sorting
  import Decimal

  // ---------------------------------------------------------------------------
  // WriteValidators (the copy in main.go)

  /** The loop of main's WriteValidators over the slice sorted in place; it
      writes what the validators package's copy writes. */
  method WriteValidators(vs: seq<Validator>, less: (Validator, Validator) -> bool) returns (report: seq<Row>)
    requires PowerOrder(less)
    ensures report == Validators.WriteValidators(vs, less)
  {
    var sorted := SortByPower(vs, less);
    report := [ValidatorsHeader];
    for i := 0 to |sorted|
      invariant |report| == i + 1 && report[0] == ValidatorsHeader
      invariant forall j :: 0 <= j < i ==> report[j + 1] == ValidatorRow(sorted[j])
    {
      var row := [sorted[i].moniker];
      row := row + [Decimal.IntToString(ConsensusPower(sorted[i]))];
      row := row + [Decimal.IntToString(sorted[i].minSelfDelegation)];
      row := row + [sorted[i].delegatorShares];
      assert row == ValidatorRow(sorted[i]);
      report := report + [row];
    }
    HeaderThenRows(report, sorted);
  }

  /** A report holding the header and then the row of each validator in turn
      is the header followed by the validators' rows. */
  lemma HeaderThenRows(report: seq<Row>, vs: seq<Validator>)
    requires |report| == |vs| + 1 && report[0] == ValidatorsHeader
    requires forall j :: 0 <= j < |vs| ==> report[j + 1] == ValidatorRow(vs[j])
    ensures report == [ValidatorsHeader] + ValidatorRows(vs)
  {
    assert report[1..] == ValidatorRows(vs);
  }

  // ---------------------------------------------------------------------------
  // WriteDelegations (main.go)

  /** The key list of WriteDelegations: for every non-empty aggregate, in map
      order, the delegator address of its first record. */
  function CollectKeys(m: Delegations.DelegationsMap, order: seq<string>): seq<string>
    requires forall k :: k in order ==> k in m
  {
    if |order| == 0 then []
    else
      var agg := m[order[0]];
      (if |agg.responses| == 0 then [] else [DelegatorOf(agg.responses[0])]) + CollectKeys(m, order[1..])
  }

  /** Entries whose first record belongs to their own key. */
  predicate KeyedByFirstRecord(m: Delegations.DelegationsMap, order: seq<string>) {
    forall k :: k in order ==> k in m && |m[k].responses| > 0 && DelegatorOf(m[k].responses[0]) == k
  }

  lemma {:induction false} CollectKeysOf(m: Delegations.DelegationsMap, order: seq<string>)
    requires KeyedByFirstRecord(m, order)
    ensures CollectKeys(m, order) == order
  {
    if |order| > 0 {
      assert order[0] in order;
      assert KeyedByFirstRecord(m, order[1..]) by {
        forall k | k in order[1..] ensures k in order { }
      }
      CollectKeysOf(m, order[1..]);
      assert order == [order[0]] + order[1..];
    }
  }

  /** For aggregates built from records, the key list is the map order itself. */
  lemma CollectKeysOfAggregate(rs: seq<DelegationResponse>, order: seq<string>)
    requires forall k :: k in order ==> k in Delegations.Aggregate(rs)
    ensures CollectKeys(Delegations.Aggregate(rs), order) == order
  {
    var m := Delegations.Aggregate(rs);
    forall k | k in order
      ensures k in m && |m[k].responses| > 0 && DelegatorOf(m[k].responses[0]) == k
    {
      assert m[k].responses == Delegations.RecordsOf(rs, k);
      assert m[k].responses[0] in Delegations.RecordsOf(rs, k);
    }
    CollectKeysOf(m, order);
  }

  /** The sort.Slice comparator on keys: a larger total comes first. */
  function ByKeyTotalDesc(m: Delegations.DelegationsMap): (string, string) -> bool {
    (a: string, b: string) => Delegations.TotalIn(m, a) > Delegations.TotalIn(m, b)
  }

  /** The sorted key list: a permutation of the keys with non-increasing totals
      (one of the orders the unstable sort may give). */
  function SortKeysByTotal(m: Delegations.DelegationsMap, keys: seq<string>): (sorted: seq<string>)
    ensures multiset(sorted) == multiset(keys) && |sorted| == |keys|
    ensures forall i, j :: 0 <= i < j < |sorted| ==> Delegations.TotalIn(m, sorted[i]) >= Delegations.TotalIn(m, sorted[j])
  {
    assert Sorting.StrictWeakOrder(ByKeyTotalDesc(m));
    Sorting.SortSortedStable(ByKeyTotalDesc(m), keys);
    Sorting.Sort(ByKeyTotalDesc(m), keys)
  }

  function KeyRows(m: Delegations.DelegationsMap, keys: seq<string>): (rows: seq<Row>)
    ensures |rows| == |keys|
    ensures forall i :: 0 <= i < |keys| ==> rows[i] == Delegations.TotalRow(m, keys[i])
  {
    seq(|keys|, i requires 0 <= i < |keys| => Delegations.TotalRow(m, keys[i]))
  }

  lemma {:induction false} EnumerationSize(order: seq<string>, keys: set<string>)
    requires Delegations.IsEnumeration(order, keys)
    ensures |order| == |keys|
  {
    if |order| == 0 {
      assert keys == {};
    } else {
      Delegations.DistinctTail(order);
      var rest := order[1..];
      assert Delegations.IsEnumeration(rest, keys - {order[0]});
      EnumerationSize(rest, keys - {order[0]});
    }
  }

  /** The header followed by one row per listed key. */
  function KeyReport(m: Delegations.DelegationsMap, keys: seq<string>): (report: seq<Row>)
    ensures |report| == |keys| + 1 && report[0] == Delegations.DelegationsHeader
    ensures forall i :: 1 <= i < |report| ==> report[i] == Delegations.TotalRow(m, keys[i - 1])
  {
    [Delegations.DelegationsHeader] + KeyRows(m, keys)
  }

  /** Rows of keys of the map are (key, total of that key) pairs. */
  lemma KeyReportRows(m: Delegations.DelegationsMap, keys: seq<string>)
    requires forall k :: k in keys ==> k in m
    ensures var report := KeyReport(m, keys);
      forall i :: 1 <= i < |report| ==> |report[i]| == 2 && report[i][0] in m && report[i] == Delegations.TotalRow(m, report[i][0])
  {
    var report := KeyReport(m, keys);
    forall i | 1 <= i < |report|
      ensures |report[i]| == 2 && report[i][0] in m && report[i] == Delegations.TotalRow(m, report[i][0])
    {
      assert keys[i - 1] in keys;
    }
  }

  /** Every listed key has its row. */
  lemma KeyReportCovers(m: Delegations.DelegationsMap, keys: seq<string>)
    requires forall k :: k in m ==> k in keys
    ensures var report := KeyReport(m, keys);
      forall d :: d in m ==> exists i :: 1 <= i < |report| && report[i] == Delegations.TotalRow(m, d)
  {
    var report := KeyReport(m, keys);
    forall d | d in m ensures exists i :: 1 <= i < |report| && report[i] == Delegations.TotalRow(m, d) {
      var j :| 0 <= j < |keys| && keys[j] == d;
      assert report[j + 1] == Delegations.TotalRow(m, d);
    }
  }

  /** Distinct keys give rows with distinct delegators. */
  lemma KeyReportDistinct(m: Delegations.DelegationsMap, keys: seq<string>)
    requires Delegations.Distinct(keys)
    ensures var report := KeyReport(m, keys);
      forall i, j :: 1 <= i < j < |report| ==> report[i][0] != report[j][0]
  {
  }

  /** main's WriteDelegations as written: the header, then one row per map key
      with that key's exact total, in the order the map is visited. The sorted
      key list it builds is never used for the output. Every key gets one row
      and no delegator appears twice. */
  function WriteDelegations(m: Delegations.DelegationsMap, order: seq<string>): (report: seq<Row>)
    requires Delegations.IsEnumeration(order, m.Keys)
    ensures |report| == |m| + 1 && report[0] == Delegations.DelegationsHeader
    ensures forall i :: 1 <= i < |report| ==> |report[i]| == 2 && report[i][0] in m && report[i] == Delegations.TotalRow(m, report[i][0])
    ensures forall d :: d in m ==> exists i :: 1 <= i < |report| && report[i] == Delegations.TotalRow(m, d)
    ensures forall i, j :: 1 <= i < j < |report| ==> report[i][0] != report[j][0]
  {
    EnumerationSize(order, m.Keys);
    KeyReportRows(m, order);
    KeyReportCovers(m, order);
    KeyReportDistinct(m, order);
    KeyReport(m, order)
  }

  /** For aggregates built from records, the row of each delegator carries the
      exact sum of its records' amounts. */
  lemma DelegationsReportTotals(rs: seq<DelegationResponse>, order: seq<string>)
    requires Delegations.IsEnumeration(order, Delegations.Aggregate(rs).Keys)
    ensures var report := WriteDelegations(Delegations.Aggregate(rs), order);
      forall i :: 1 <= i < |report| ==>
        report[i] == [order[i - 1], Decimal.IntToString(Delegations.TotalOf(Delegations.RecordsOf(rs, order[i - 1])))]
  {
    var m := Delegations.Aggregate(rs);
    var report := WriteDelegations(m, order);
    assert report[1..] == KeyRows(m, order);
    forall i | 1 <= i < |report|
      ensures report[i] == [order[i - 1], Decimal.IntToString(Delegations.TotalOf(Delegations.RecordsOf(rs, order[i - 1])))]
    {
      var k := order[i - 1];
      assert report[i] == report[1..][i - 1] == Delegations.TotalRow(m, k);
      assert m[k].totalBalance == Delegations.TotalOf(Delegations.RecordsOf(rs, k));
    }
  }

  /** WriteDelegations with the rows in the order of the sorted key list, as
      the sort before the output loop intends. */
  function WriteDelegationsSorted(m: Delegations.DelegationsMap, order: seq<string>): (report: seq<Row>)
    requires Delegations.IsEnumeration(order, m.Keys)
    ensures |report| == |CollectKeys(m, order)| + 1 && report[0] == Delegations.DelegationsHeader
    ensures forall i :: 1 <= i < |report| ==> |report[i]| == 2 && report[i] == Delegations.TotalRow(m, report[i][0])
    ensures forall i, j :: 1 <= i < j < |report| ==> Delegations.TotalIn(m, report[i][0]) >= Delegations.TotalIn(m, report[j][0])
  {
    var sorted := SortKeysByTotal(m, CollectKeys(m, order));
    KeyReportOrdered(m, sorted);
    KeyReport(m, sorted)
  }

  /** Keys in non-increasing order of total give a report whose rows are
      (key, total) pairs with non-increasing totals. */
  lemma KeyReportOrdered(m: Delegations.DelegationsMap, keys: seq<string>)
    requires forall i, j :: 0 <= i < j < |keys| ==> Delegations.TotalIn(m, keys[i]) >= Delegations.TotalIn(m, keys[j])
    ensures var report := KeyReport(m, keys);
      && (forall i :: 1 <= i < |report| ==> |report[i]| == 2 && report[i] == Delegations.TotalRow(m, report[i][0]))
      && (forall i, j :: 1 <= i < j < |report| ==> Delegations.TotalIn(m, report[i][0]) >= Delegations.TotalIn(m, report[j][0]))
  {
    var report := KeyReport(m, keys);
    assert forall i :: 1 <= i < |report| ==> report[i][0] == keys[i - 1];
  }

  /** Two key lists that are permutations of each other give the same rows. */
  lemma KeyRowsPermutation(m: Delegations.DelegationsMap, a: seq<string>, b: seq<string>)
    requires multiset(a) == multiset(b)
    ensures |KeyRows(m, a)| == |KeyRows(m, b)|
    ensures forall row :: row in KeyRows(m, a) ==> row in KeyRows(m, b)
  {
    assert |a| == |multiset(a)| == |multiset(b)| == |b|;
    forall row | row in KeyRows(m, a) ensures row in KeyRows(m, b) {
      var i :| 0 <= i < |a| && KeyRows(m, a)[i] == row;
      assert a[i] in multiset(b);
      var j :| 0 <= j < |b| && b[j] == a[i];
      assert KeyRows(m, b)[j] == row;
    }
  }

  /** For aggregates built from records, the sorted report holds the same rows
      as the report as written, only in non-increasing order of total. */
  lemma SortedReportSameRows(rs: seq<DelegationResponse>, order: seq<string>)
    requires Delegations.IsEnumeration(order, Delegations.Aggregate(rs).Keys)
    ensures |WriteDelegationsSorted(Delegations.Aggregate(rs), order)|
         == |WriteDelegations(Delegations.Aggregate(rs), order)|
    ensures forall row :: row in WriteDelegationsSorted(Delegations.Aggregate(rs), order)
                      <==> row in WriteDelegations(Delegations.Aggregate(rs), order)
  {
    var m := Delegations.Aggregate(rs);
    CollectKeysOfAggregate(rs, order);
    var sorted := SortKeysByTotal(m, order);
    var a := WriteDelegationsSorted(m, order);
    var b := WriteDelegations(m, order);
    assert a == [Delegations.DelegationsHeader] + KeyRows(m, sorted);
    assert b == [Delegations.DelegationsHeader] + KeyRows(m, order);
    KeyRowsPermutation(m, sorted, order);
    KeyRowsPermutation(m, order, sorted);
  }

  /** The aggregates of one record of "a" followed by one record of "b". */
  lemma TwoDelegators(ra: DelegationResponse, rb: DelegationResponse)
    requires DelegatorOf(ra) == "a" && AmountOf(ra) == 10
    requires DelegatorOf(rb) == "b" && AmountOf(rb) == 30
    ensures Delegations.Aggregate([ra, rb])
         == map["a" := Delegations.DelegatorAggregate([ra], 10), "b" := Delegations.DelegatorAggregate([rb], 30)]
  {
    assert [ra, rb][..1] == [ra];
    assert [ra][..0] == [];
    assert Delegations.Aggregate([ra]) == Delegations.Accumulate(map[], ra);
  }

  lemma Numerals()
    ensures Decimal.IntToString(10) == "10" && Decimal.IntToString(30) == "30"
  {
    assert Decimal.DigitChar(0) == '0' && Decimal.DigitChar(1) == '1' && Decimal.DigitChar(3) == '3';
    assert Decimal.NatToString(10) == Decimal.NatToString(1) + [Decimal.DigitChar(0)];
    assert Decimal.NatToString(30) == Decimal.NatToString(3) + [Decimal.DigitChar(0)];
  }

  /** Aggregates of two delegators, "a" with total 10 and "b" with total 30. */
  predicate TwoTotals(m: Delegations.DelegationsMap) {
    m.Keys == {"a", "b"} && Delegations.TotalIn(m, "a") == 10 && Delegations.TotalIn(m, "b") == 30
  }

  lemma TwoTotalsRows(m: Delegations.DelegationsMap)
    requires TwoTotals(m)
    ensures Delegations.TotalRow(m, "a") == ["a", "10"] && Delegations.TotalRow(m, "b") == ["b", "30"]
  {
    Numerals();
  }

  lemma TwoKeyReport(m: Delegations.DelegationsMap, x: string, y: string)
    ensures KeyReport(m, [x, y]) == [Delegations.DelegationsHeader, Delegations.TotalRow(m, x), Delegations.TotalRow(m, y)]
  {
    var report := KeyReport(m, [x, y]);
    assert report[1] == Delegations.TotalRow(m, x) && report[2] == Delegations.TotalRow(m, y);
  }

  lemma TwoTotalsAsWritten(m: Delegations.DelegationsMap)
    requires TwoTotals(m)
    ensures Delegations.IsEnumeration(["a", "b"], m.Keys)
    ensures WriteDelegations(m, ["a", "b"]) == [Delegations.DelegationsHeader, ["a", "10"], ["b", "30"]]
  {
    assert Delegations.IsEnumeration(["a", "b"], m.Keys);
    assert WriteDelegations(m, ["a", "b"]) == KeyReport(m, ["a", "b"]);
    TwoKeyReport(m, "a", "b");
    TwoTotalsRows(m);
  }

  lemma TwoTotalsSortKeys(m: Delegations.DelegationsMap)
    requires TwoTotals(m)
    ensures SortKeysByTotal(m, ["a", "b"]) == ["b", "a"]
  {
    var less := ByKeyTotalDesc(m);
    assert less("b", "a");
    assert ["a", "b"][..1] == ["a"] && ["a"][..0] == [];
    assert Sorting.Sort(less, ["a"]) == ["a"];
    assert Sorting.Sort(less, ["a", "b"]) == Sorting.Insert(less, "b", ["a"]);
  }

  lemma TwoTotalsSorted(m: Delegations.DelegationsMap)
    requires TwoTotals(m) && CollectKeys(m, ["a", "b"]) == ["a", "b"]
    ensures Delegations.IsEnumeration(["a", "b"], m.Keys)
    ensures WriteDelegationsSorted(m, ["a", "b"]) == [Delegations.DelegationsHeader, ["b", "30"], ["a", "10"]]
  {
    assert Delegations.IsEnumeration(["a", "b"], m.Keys);
    TwoTotalsSortKeys(m);
    assert WriteDelegationsSorted(m, ["a", "b"]) == KeyReport(m, ["b", "a"]);
    TwoKeyReport(m, "b", "a");
    TwoTotalsRows(m);
  }

  /** The aggregates of the two records have the two totals, and their key
      list in the order a, b is a, b. */
  lemma TwoDelegatorsTotals(ra: DelegationResponse, rb: DelegationResponse)
    requires DelegatorOf(ra) == "a" && AmountOf(ra) == 10
    requires DelegatorOf(rb) == "b" && AmountOf(rb) == 30
    ensures TwoTotals(Delegations.Aggregate([ra, rb])) && CollectKeys(Delegations.Aggregate([ra, rb]), ["a", "b"]) == ["a", "b"]
  {
    TwoDelegators(ra, rb);
    TwoDelegatorsMap(ra, rb);
  }

  lemma TwoDelegatorsMap(ra: DelegationResponse, rb: DelegationResponse)
    requires DelegatorOf(ra) == "a" && AmountOf(ra) == 10
    requires DelegatorOf(rb) == "b" && AmountOf(rb) == 30
    ensures var m := map["a" := Delegations.DelegatorAggregate([ra], 10), "b" := Delegations.DelegatorAggregate([rb], 30)];
      TwoTotals(m) && CollectKeys(m, ["a", "b"]) == ["a", "b"]
  {
    var m := map["a" := Delegations.DelegatorAggregate([ra], 10), "b" := Delegations.DelegatorAggregate([rb], 30)];
    assert TwoTotals(m);
    assert KeyedByFirstRecord(m, ["a", "b"]);
    CollectKeysOf(m, ["a", "b"]);
  }

  /** Two delegators whose map order is not the order of their totals: the
      report as written lists the smaller total first, the sorted one does not. */
  lemma UnsortedDelegationsReport(ra: DelegationResponse, rb: DelegationResponse)
    requires DelegatorOf(ra) == "a" && AmountOf(ra) == 10
    requires DelegatorOf(rb) == "b" && AmountOf(rb) == 30
    ensures Delegations.IsEnumeration(["a", "b"], Delegations.Aggregate([ra, rb]).Keys)
    ensures WriteDelegations(Delegations.Aggregate([ra, rb]), ["a", "b"])
         == [Delegations.DelegationsHeader, ["a", "10"], ["b", "30"]]
    ensures WriteDelegationsSorted(Delegations.Aggregate([ra, rb]), ["a", "b"])
         == [Delegations.DelegationsHeader, ["b", "30"], ["a", "10"]]
  {
    TwoDelegatorsTotals(ra, rb);
    TwoTotalsAsWritten(Delegations.Aggregate([ra, rb]));
    TwoTotalsSorted(Delegations.Aggregate([ra, rb]));
  }

  // ---------------------------------------------------------------------------
  // WriteMultipleDelegations (main.go)

  /** Validators by operator address; a later validator with the same address
      replaces an earlier one. */
  function ValidatorIndex(vs: seq<Validator>): (index: map<string, Validator>)
    ensures index.Keys == set v | v in vs :: v.operatorAddress
    ensures forall a :: a in index ==> IndexedLast(vs, index, a)
  {
    if |vs| == 0 then map[]
    else
      var prev := ValidatorIndex(vs[..|vs| - 1]);
      ValidatorIndexStep(vs, prev);
      prev[vs[|vs| - 1].operatorAddress := vs[|vs| - 1]]
  }

  /** `index[a]` is the last validator listed with address `a`. */
  predicate IndexedLast(vs: seq<Validator>, index: map<string, Validator>, a: string)
    requires a in index
  {
    exists i :: 0 <= i < |vs| && vs[i] == index[a] && vs[i].operatorAddress == a && LastWithAddress(vs, i)
  }

  /** Adding the last validator to the index of the others keeps the index
      pointing at last occurrences. */
  lemma ValidatorIndexStep(vs: seq<Validator>, prev: map<string, Validator>)
    requires |vs| > 0
    requires prev.Keys == set v | v in vs[..|vs| - 1] :: v.operatorAddress
    requires forall a :: a in prev ==> IndexedLast(vs[..|vs| - 1], prev, a)
    ensures var index := prev[vs[|vs| - 1].operatorAddress := vs[|vs| - 1]];
      && index.Keys == (set v | v in vs :: v.operatorAddress)
      && forall a :: a in index ==> IndexedLast(vs, index, a)
  {
    var init := vs[..|vs| - 1];
    var last := vs[|vs| - 1];
    var index := prev[last.operatorAddress := last];
    assert vs == init + [last];
    assert IndexedLast(vs, index, last.operatorAddress) by {
      assert LastWithAddress(vs, |vs| - 1);
    }
    forall a | a in index && a != last.operatorAddress ensures IndexedLast(vs, index, a) {
      var i :| 0 <= i < |init| && init[i] == prev[a] && init[i].operatorAddress == a && LastWithAddress(init, i);
      assert vs[i] == init[i];
      assert LastWithAddress(vs, i);
    }
  }

  /** No later validator shares the address of validator `i`. */
  predicate LastWithAddress(vs: seq<Validator>, i: int)
    requires 0 <= i < |vs|
  {
    forall j :: i < j < |vs| ==> vs[j].operatorAddress != vs[i].operatorAddress
  }

  /** The bonded_tokens column: the record's amount when its validator is
      known and bonded, else the literal 0. */
  function BondedTokens(index: map<string, Validator>, r: DelegationResponse): string {
    var addr := r.delegation.validatorAddress;
    if addr in index && index[addr].status == Bonded then Decimal.IntToString(AmountOf(r)) else "0"
  }

  function BondedColumn(index: map<string, Validator>): DelegationResponse -> string {
    (r: DelegationResponse) => BondedTokens(index, r)
  }

  /** The column in terms of the validator list: the amount exactly when the
      last validator listed with the record's validator address is bonded;
      "0" for an unknown address or a validator that is not bonded. */
  lemma BondedTokensSpec(vs: seq<Validator>, r: DelegationResponse)
    ensures BondedTokens(ValidatorIndex(vs), r)
         == if exists i :: 0 <= i < |vs| && vs[i].operatorAddress == r.delegation.validatorAddress
                            && LastWithAddress(vs, i) && vs[i].status == Bonded
            then Decimal.IntToString(AmountOf(r)) else "0"
  {
    var index := ValidatorIndex(vs);
    var addr := r.delegation.validatorAddress;
    if addr in index {
      assert IndexedLast(vs, index, addr);
      var i :| 0 <= i < |vs| && vs[i] == index[addr] && vs[i].operatorAddress == addr && LastWithAddress(vs, i);
      forall k | 0 <= k < |vs| && vs[k].operatorAddress == addr && LastWithAddress(vs, k)
        ensures k == i
      {
      }
    } else {
      forall k | 0 <= k < |vs| ensures vs[k].operatorAddress != addr {
        assert vs[k] in vs;
      }
    }
  }

  const MultipleDelegationsHeader: Row := ["delegator", "validator", "bonded_tokens"]

  /** main's WriteMultipleDelegations: the header, then for each aggregate with
      more than one record (in map order) one row per record with the bonded
      amount column. The record list passed alongside is not used. */
  function WriteMultipleDelegations(validators: seq<Validator>, m: Delegations.DelegationsMap, order: seq<string>): (report: seq<Row>)
    requires Delegations.IsEnumeration(order, m.Keys)
    ensures |report| == Delegations.MultipleCount(m, order) + 1 && report[0] == MultipleDelegationsHeader
    ensures forall i :: 1 <= i < |report| ==> |report[i]| == 3
  {
    var third := BondedColumn(ValidatorIndex(validators));
    Delegations.MultipleRowsShape(m, order, third);
    [MultipleDelegationsHeader] + Delegations.MultipleRows(m, order, third)
  }

  /** Per delegator: no rows for a delegator with one record, and for one with
      k > 1 records exactly k rows, in record order, each naming the record's
      validator and its bonded amount, whatever order the map is visited in. */
  lemma MultipleDelegationsPerDelegator(validators: seq<Validator>, rs: seq<DelegationResponse>, order: seq<string>, d: string)
    requires Delegations.IsEnumeration(order, Delegations.Aggregate(rs).Keys)
    ensures var rows := Delegations.RowsOfDelegator(WriteMultipleDelegations(validators, Delegations.Aggregate(rs), order)[1..], d);
      var records := Delegations.RecordsOf(rs, d);
      && (|records| <= 1 ==> rows == [])
      && (|records| > 1 ==> |rows| == |records| && forall i :: 0 <= i < |rows| ==>
            rows[i] == [d, records[i].delegation.validatorAddress, BondedTokens(ValidatorIndex(validators), records[i])])
  {
    var index := ValidatorIndex(validators);
    var third := BondedColumn(index);
    var m := Delegations.Aggregate(rs);
    var report := WriteMultipleDelegations(validators, m, order);
    assert report[1..] == Delegations.MultipleRows(m, order, third);
    Delegations.MultipleRowsPerDelegator(rs, order, third, d);
    var rows := Delegations.RowsOfDelegator(report[1..], d);
    var records := Delegations.RecordsOf(rs, d);
    if |records| > 1 {
      assert rows == Delegations.RecordRows(records, third);
      forall i | 0 <= i < |rows|
        ensures rows[i] == [d, records[i].delegation.validatorAddress, BondedTokens(index, records[i])]
      {
        assert records[i] in records;
        assert rows[i] == Delegations.RecordRow(records[i], third);
      }
    }
  }

  // ---------------------------------------------------------------------------
  // main: the order of the steps

  datatype RunResult =
    | ValidatorsFailed(err: Error)
    | Crashed(reportWritten: Option<seq<Row>>)
    | DelegationsFailed(validatorsReport: seq<Row>, err: Error)
    | Reported(
        validatorsReport: seq<Row>,
        validators: seq<Validator>,
        records: seq<DelegationResponse>,
        aggregates: Delegations.DelegationsMap,
        requests: seq<Delegations.DelegationsRequest>)

  /** Every validator the first validators reply lists has delegation pages
      that end, whenever those pages are asked for: the reply is a page with
      pagination, so the validators fetch completes, and the delegations
      dial succeeds. */
  predicate ValidatorPagesEnd(replies: seq<Reply<Validator>>, delegationsDial: Option<Error>,
                              source: Delegations.Source)
    requires |replies| > 0
  {
    replies[0].Page? && replies[0].pagination.Some? && delegationsDial.None? ==>
      Delegations.AllEnd(replies[0].items, source)
  }

  /** The validator of greatest power in the first validators reply, the
      only one main queries, has delegation pages that end whenever they are
      asked for: the reply is a page with pagination and the delegations
      dial succeeds. */
  predicate TopValidatorPagesEnd(replies: seq<Reply<Validator>>, delegationsDial: Option<Error>,
                                 source: Delegations.Source, less: (Validator, Validator) -> bool)
    requires |replies| > 0 && PowerOrder(less)
  {
    replies[0].Page? && replies[0].pagination.Some? ==>
      Delegations.FirstValidatorEnds(delegationsDial, SortByPower(replies[0].items, less), source)
  }

  /** main up to the two map reports: fetch the validators (an error panics),
      write the validators report, which sorts the slice in place, fetch the
      delegations of the sorted slice (an error is fatal after the validators
      report was written), and aggregate them. The two remaining reports are
      WriteDelegations and WriteMultipleDelegations over the aggregates and
      the sorted validators, in the map orders of the run. */
  function Run(validatorsDial: Option<Error>, validatorReplies: seq<Reply<Validator>>,
               delegationsDial: Option<Error>, source: Delegations.Source,
               less: (Validator, Validator) -> bool): (r: RunResult)
    requires PowerOrder(less)
    requires validatorsDial.None? ==>
      |validatorReplies| > 0 && TopValidatorPagesEnd(validatorReplies, delegationsDial, source, less)
    ensures r.Reported? ==> |validatorReplies| > 0 && validatorReplies[0].Page?
    ensures r.Reported? ==> multiset(r.validators) == multiset(validatorReplies[0].items)
    ensures r.Reported? ==> r.aggregates == Delegations.Aggregate(r.records)
  {
    var fetched := GetValidators(validatorsDial, validatorReplies);
    match fetched.outcome
    case Aborted(_, e) => ValidatorsFailed(e)
    case Panicked => Crashed(None)
    case Done(vs) => AfterValidators(vs, delegationsDial, source, less, false)
  }

  /** main once the validators are fetched: the validators report sorts the
      slice in place, then the delegations of the sorted slice are fetched,
      only the first validator's as written (`fetchAll` false, the break) or
      every validator's as intended (`fetchAll` true), and the run finishes. */
  function AfterValidators(vs: seq<Validator>, delegationsDial: Option<Error>, source: Delegations.Source,
                           less: (Validator, Validator) -> bool, fetchAll: bool): (r: RunResult)
    requires PowerOrder(less)
    requires fetchAll && delegationsDial.None? ==> Delegations.AllEnd(vs, source)
    requires !fetchAll ==> Delegations.FirstValidatorEnds(delegationsDial, SortByPower(vs, less), source)
    ensures r.Reported? ==> multiset(r.validators) == multiset(vs)
    ensures r.Reported? ==> r.aggregates == Delegations.Aggregate(r.records)
    ensures fetchAll && r.Reported? ==> forall v :: v in vs ==>
      Delegations.DelegationsRequest(v.operatorAddress, PageRequest(None, Delegations.DelegationsPageLimit)) in r.requests
  {
    var sorted := SortByPower(vs, less);
    SameMembers(vs, sorted);
    var delegations := if fetchAll then Delegations.FetchAllDelegations(delegationsDial, sorted, source)
                       else Delegations.FetchDelegations(delegationsDial, sorted, source);
    Finish(Validators.WriteValidators(vs, less), sorted, delegations)
  }

  /** The steps of main after the delegation fetch: a failed fetch is fatal
      once the validators report is written; a completed one is aggregated. */
  function Finish(report: seq<Row>, sorted: seq<Validator>, delegations: Delegations.Fetched): (r: RunResult)
    ensures r.Reported? <==> delegations.outcome.Done?
    ensures r.Reported? ==> && r.validatorsReport == report && r.validators == sorted
                            && r.records == delegations.outcome.items && r.requests == delegations.requests
                            && r.aggregates == Delegations.Aggregate(r.records)
    ensures r.DelegationsFailed? <==> delegations.outcome.Aborted?
  {
    match delegations.outcome
    case Aborted(_, e) => DelegationsFailed(report, e)
    case Panicked => Crashed(Some(report))
    case Done(records) => Reported(report, sorted, records, Delegations.Aggregate(records), delegations.requests)
  }

  /** Because the validators are sorted before the delegation fetch and the
      fetch stops after the first validator, a completed run has queried only
      a validator of greatest consensus power, and its records are that
      validator's pages. */
  lemma OnlyTopValidatorQueried(validatorsDial: Option<Error>, validatorReplies: seq<Reply<Validator>>,
                                delegationsDial: Option<Error>, source: Delegations.Source,
                                less: (Validator, Validator) -> bool)
    requires PowerOrder(less)
    requires validatorsDial.None? ==>
      |validatorReplies| > 0 && TopValidatorPagesEnd(validatorReplies, delegationsDial, source, less)
    ensures var r := Run(validatorsDial, validatorReplies, delegationsDial, source, less);
      r.Reported? && |r.validators| > 0 ==>
        && (forall v :: v in r.validators ==> ConsensusPower(v) <= ConsensusPower(r.validators[0]))
        && (forall q :: q in r.requests ==> q.validatorAddr == r.validators[0].operatorAddress)
        && Ends(source(r.validators[0].operatorAddress))
        && Done(r.records) == Drain(source(r.validators[0].operatorAddress), None, Delegations.DelegationsPageLimit).outcome
  {
    var r := Run(validatorsDial, validatorReplies, delegationsDial, source, less);
    if r.Reported? && |r.validators| > 0 {
      RunReported(validatorsDial, validatorReplies, delegationsDial, source, less);
      TopOfSorted(r.validators);
      FetchedFromFirst(delegationsDial, r.validators, source);
    }
  }

  /** A completed run holds the validators in non-increasing order of power,
      and the records and requests of the delegation fetch over them. */
  lemma RunReported(validatorsDial: Option<Error>, validatorReplies: seq<Reply<Validator>>,
                    delegationsDial: Option<Error>, source: Delegations.Source,
                    less: (Validator, Validator) -> bool)
    requires PowerOrder(less)
    requires validatorsDial.None? ==>
      |validatorReplies| > 0 && TopValidatorPagesEnd(validatorReplies, delegationsDial, source, less)
    ensures var r := Run(validatorsDial, validatorReplies, delegationsDial, source, less);
      r.Reported? ==>
        && (forall i, j :: 0 <= i < j < |r.validators| ==> ConsensusPower(r.validators[i]) >= ConsensusPower(r.validators[j]))
        && Delegations.FirstValidatorEnds(delegationsDial, r.validators, source)
        && Delegations.FetchDelegations(delegationsDial, r.validators, source) == Delegations.Fetched(Done(r.records), r.requests)
  {
    RunCompleted(validatorsDial, validatorReplies, delegationsDial, source, less);
    if Run(validatorsDial, validatorReplies, delegationsDial, source, less).Reported? {
      TopFetched(validatorReplies[0].items, delegationsDial, source, less);
    }
  }

  /** A completed run fetched the validators, the first reply was a page with
      pagination, and the run went on with that page's validators. */
  lemma RunCompleted(validatorsDial: Option<Error>, validatorReplies: seq<Reply<Validator>>,
                     delegationsDial: Option<Error>, source: Delegations.Source,
                     less: (Validator, Validator) -> bool)
    requires PowerOrder(less)
    requires validatorsDial.None? ==>
      |validatorReplies| > 0 && TopValidatorPagesEnd(validatorReplies, delegationsDial, source, less)
    ensures Run(validatorsDial, validatorReplies, delegationsDial, source, less).Reported? ==>
      && validatorsDial.None? && validatorReplies[0].Page? && validatorReplies[0].pagination.Some?
      && Run(validatorsDial, validatorReplies, delegationsDial, source, less)
         == AfterValidators(validatorReplies[0].items, delegationsDial, source, less, false)
  {
    if validatorsDial.None? {
      var fetched := GetValidators(validatorsDial, validatorReplies);
      if fetched.outcome.Done? {
        assert validatorReplies[0].Page? && validatorReplies[0].pagination.Some?;
      }
    }
  }

  /** The run as written, once the validators are fetched, holds them sorted
      by power and the records of the delegation fetch over the sorted list. */
  lemma TopFetched(vs: seq<Validator>, delegationsDial: Option<Error>, source: Delegations.Source,
                   less: (Validator, Validator) -> bool)
    requires PowerOrder(less)
    requires Delegations.FirstValidatorEnds(delegationsDial, SortByPower(vs, less), source)
    ensures var r := AfterValidators(vs, delegationsDial, source, less, false);
      r.Reported? ==>
        && (forall i, j :: 0 <= i < j < |r.validators| ==> ConsensusPower(r.validators[i]) >= ConsensusPower(r.validators[j]))
        && Delegations.FirstValidatorEnds(delegationsDial, r.validators, source)
        && Delegations.FetchDelegations(delegationsDial, r.validators, source) == Delegations.Fetched(Done(r.records), r.requests)
  {
    var sorted := SortByPower(vs, less);
    assert AfterValidators(vs, delegationsDial, source, less, false)
        == Finish(Validators.WriteValidators(vs, less), sorted, Delegations.FetchDelegations(delegationsDial, sorted, source));
  }

  /** The head of a list in non-increasing order of power has the greatest power. */
  lemma TopOfSorted(s: seq<Validator>)
    requires |s| > 0
    requires forall i, j :: 0 <= i < j < |s| ==> ConsensusPower(s[i]) >= ConsensusPower(s[j])
    ensures forall v :: v in s ==> ConsensusPower(v) <= ConsensusPower(s[0])
  {
    forall v | v in s ensures ConsensusPower(v) <= ConsensusPower(s[0]) {
      var j :| 0 <= j < |s| && s[j] == v;
    }
  }

  /** A completed fetch of a non-empty validator list holds the pages of its
      first validator. */
  lemma FetchedFromFirst(dial: Option<Error>, validators: seq<Validator>, source: Delegations.Source)
    requires Delegations.FirstValidatorEnds(dial, validators, source) && |validators| > 0
    requires Delegations.FetchDelegations(dial, validators, source).outcome.Done?
    ensures Ends(source(validators[0].operatorAddress))
    ensures Delegations.FetchDelegations(dial, validators, source).outcome
         == Drain(source(validators[0].operatorAddress), None, Delegations.DelegationsPageLimit).outcome
  {
  }

  /** Two permutations of each other list the same validators. */
  lemma SameMembers(a: seq<Validator>, b: seq<Validator>)
    requires multiset(a) == multiset(b)
    ensures forall v :: v in a <==> v in b
  {
    forall v ensures v in a <==> v in b {
      assert v in a <==> v in multiset(a);
      assert v in b <==> v in multiset(b);
    }
  }

  /** The run as main evidently intends it: the same steps, with the
      delegations of every validator fetched. A completed run has asked for
      the first page of every validator's delegations. */
  function RunIntended(validatorsDial: Option<Error>, validatorReplies: seq<Reply<Validator>>,
                       delegationsDial: Option<Error>, source: Delegations.Source,
                       less: (Validator, Validator) -> bool): (r: RunResult)
    requires PowerOrder(less)
    requires validatorsDial.None? ==>
      |validatorReplies| > 0 && ValidatorPagesEnd(validatorReplies, delegationsDial, source)
    ensures r.Reported? ==> |validatorReplies| > 0 && validatorReplies[0].Page?
    ensures r.Reported? ==> multiset(r.validators) == multiset(validatorReplies[0].items)
    ensures r.Reported? ==> r.aggregates == Delegations.Aggregate(r.records)
    ensures r.Reported? ==> forall v :: v in validatorReplies[0].items ==>
      Delegations.DelegationsRequest(v.operatorAddress, PageRequest(None, Delegations.DelegationsPageLimit)) in r.requests
  {
    var fetched := GetValidators(validatorsDial, validatorReplies);
    match fetched.outcome
    case Aborted(_, e) => ValidatorsFailed(e)
    case Panicked => Crashed(None)
    case Done(vs) => AfterValidators(vs, delegationsDial, source, less, true)
  }

  /** A validators reply without pagination crashes both runs before any
      delegation is asked for, whatever the delegation pages are: no script
      needs to end. */
  lemma NilPaginationCrashes(vs: seq<Validator>, delegationsDial: Option<Error>,
                             source: Delegations.Source, less: (Validator, Validator) -> bool)
    requires PowerOrder(less)
    ensures Run(None, [Page(vs, None)], delegationsDial, source, less) == Crashed(None)
    ensures RunIntended(None, [Page(vs, None)], delegationsDial, source, less) == Crashed(None)
  {
  }

  /** A failed delegations dial is fatal once the validators report is
      written, whatever the delegation pages are: no script needs to end. */
  lemma DelegationsDialFails(vs: seq<Validator>, key: Option<Key>, e: Error,
                             source: Delegations.Source, less: (Validator, Validator) -> bool)
    requires PowerOrder(less)
    ensures Run(None, [Page(vs, Some(PageResponse(key)))], Some(e), source, less)
         == DelegationsFailed(Validators.WriteValidators(vs, less), e)
    ensures RunIntended(None, [Page(vs, Some(PageResponse(key)))], Some(e), source, less)
         == DelegationsFailed(Validators.WriteValidators(vs, less), e)
  {
  }

  /** With at most one validator listed, the run as written and the intended
      run are the same. */
  lemma RunsAgreeOnOneValidator(validatorsDial: Option<Error>, validatorReplies: seq<Reply<Validator>>,
                                delegationsDial: Option<Error>, source: Delegations.Source,
                                less: (Validator, Validator) -> bool)
    requires PowerOrder(less)
    requires validatorsDial.None? ==>
      |validatorReplies| > 0 && ValidatorPagesEnd(validatorReplies, delegationsDial, source)
    requires validatorsDial.None? ==> TopValidatorPagesEnd(validatorReplies, delegationsDial, source, less)
    requires validatorsDial.None? && validatorReplies[0].Page? ==> |validatorReplies[0].items| <= 1
    ensures Run(validatorsDial, validatorReplies, delegationsDial, source, less)
         == RunIntended(validatorsDial, validatorReplies, delegationsDial, source, less)
  {
    var fetched := GetValidators(validatorsDial, validatorReplies);
    if fetched.outcome.Done? {
      OneValidatorAgrees(fetched.outcome.items, delegationsDial, source, less);
    }
  }

  /** With at most one validator, fetching every validator's pages is
      fetching the first one's. */
  lemma OneValidatorAgrees(vs: seq<Validator>, delegationsDial: Option<Error>, source: Delegations.Source,
                           less: (Validator, Validator) -> bool)
    requires PowerOrder(less) && (delegationsDial.None? ==> Delegations.AllEnd(vs, source)) && |vs| <= 1
    requires Delegations.FirstValidatorEnds(delegationsDial, SortByPower(vs, less), source)
    ensures AfterValidators(vs, delegationsDial, source, less, false)
         == AfterValidators(vs, delegationsDial, source, less, true)
  {
    var sorted := SortByPower(vs, less);
    assert |sorted| == |multiset(vs)| == |vs|;
    if |sorted| == 1 {
      assert sorted == [sorted[0]];
      assert sorted[0] in multiset(vs);
      Delegations.SingleValidatorAgrees(delegationsDial, sorted[0], source);
    }
  }
}
