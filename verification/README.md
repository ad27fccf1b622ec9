# delegations-to-csv, modelled in Dafny

delegations-to-csv reads the validator set of a Cosmos chain and the delegations made to those validators over gRPC. It then writes three CSV reports:

- validators, by voting power;
- delegators, by their total stake;
- delegators who delegate to more than one validator, one row per delegation.

This project models its core as pure Dafny functions and methods with proved contracts:

- **Outcomes**: the shapes of a result. It can complete, stop on an error with what was gathered so far, or panic.
- **Staking**: the Cosmos staking records the program reads. It also holds consensus power, which is 0 unless the validator is bonded and otherwise its tokens divided by 10^6, truncated.
- **Decimal**: the decimal text of exact integers. It comes with a parser and the round-trip.
- **Sorting**: a stable insertion sort over an abstract strict weak order. It proves sortedness, permutation and stability, and that these three properties determine the result.
- **Paging**: the "follow `NextKey`" loop over a script of server replies. Reply *i* answers request *i*. The model has a closed form for the records collected, the requests issued and the outcome.
- **Delegations**: `delegations/delegations.go`. It covers the paginated fetch with its `break`, the aggregation into per-delegator totals, and the package's two report writers.
- **Validators**: `validators/validators.go`. It covers the validator fetch whose continuation loop is disabled, the stable sort by power, and the validators report.
- **Program**: `main.go`. It covers the three report writers, the bonded-or-0 column, and the order of `main`'s steps, both as written and as evidently intended.

Nondeterminism is handled as follows:

- Go's map iteration order is an explicit `order` argument. It must list every key of the map exactly once (`IsEnumeration`). Every property about a report holds for all such orders.
- The network is an argument:
  - a dial outcome `Option<Error>`;
  - the validators replies;
  - a `Source` that maps a validator address to that validator's script of delegation replies.
- A reply with no pagination block makes the Go code dereference nil. The model treats that as a panic (`Panicked`), not as the end of the results.

## Model

| member | source | states |
|---|---|---|
| Staking.ConsensusPower | validators/validators.go:83 | the voting-power column is 0 for a validator that is not bonded; for a bonded one it is the tokens divided by 10^6, truncated toward zero |
| Decimal.IntRoundTrip | main.go:44 | the decimal text of an exact total parses back to the same integer, so no precision is lost |
| Decimal.IntToStringInjective | main.go:44 | different totals never print the same |
| Paging.DrainClosedForm | delegations/delegations.go:54-80 | the page loop issues one request per reply up to and including the first stopping reply. The first request has no key and each later one carries the previous reply's next key. It ends with every page's records on success, with the records before a failing reply plus its error, or with a panic when the stopping reply has no pagination |
| Paging.ThreePagesExample | delegations/delegations.go:67-80 | three pages chained by two next keys give their records in page order after three requests |
| Delegations.Aggregate | delegations/delegations.go:88-111 | the map's keys are exactly the delegators of the records; each entry holds that delegator's records in input order and their exact sum; no entry is empty |
| Delegations.AccumulateRecord | delegations/delegations.go:96-107 | one loop step adds the record's delegator to the keys and leaves every other delegator's entry unchanged; a map that holds each delegator's records and exact total for the records seen so far then does so for those records plus this one |
| Delegations.GetDelegationsWithTotalBalance | delegations/delegations.go:88-111 | the loop yields the map that `Aggregate` characterises; no records give an empty map |
| Delegations.Conservation | delegations/delegations.go:88-111 | over any enumeration of the map, the entries hold as many records as the input and their totals sum to the input's total |
| Delegations.FetchDelegations | delegations/delegations.go:34-86 | a dial error returns no records, that error and no requests; no validators returns no records; otherwise every request names the first validator |
| Delegations.OnlyFirstValidatorFetched | delegations/delegations.go:51-83 | the validators after the first change nothing: not the records, not the error, not the requests |
| Delegations.GetDelegationResponses | delegations/delegations.go:34-86 | the loop over validators with its final break computes exactly `FetchDelegations`: a dial error, no validators, or the first validator's pages |
| Delegations.FollowPages | delegations/delegations.go:51-80 | the first request without a key and the inner loop that follows next keys issue exactly the requests of the paging loop, scoped to the validator, and end as it does: the records so far with an error, a crash on a reply without pagination, or every page |
| Delegations.FetchAllDelegations | delegations/delegations.go:51-83 | without the break, a completed fetch has asked for the first page of every validator |
| Delegations.FetchEachAppend | delegations/delegations.go:51-83 | fetching two lists of validators in a row is fetching their concatenation: records and requests concatenate when the first part completes |
| Delegations.SingleValidatorAgrees | delegations/delegations.go:51-83 | with one validator the break makes no difference |
| Delegations.BreakSkipsSecondValidator | delegations/delegations.go:82 | two validators with one record each: as written only the first record is returned, without the break both are |
| Delegations.WriteDelegations | delegations/delegations.go:114-141 | the package's report is the header then one row per record, in a permutation of the records whose delegator totals do not increase |
| Delegations.MultipleRowsShape | delegations/delegations.go:151-164 | the multi-delegation rows number the records of the entries with more than one record, three columns each |
| Delegations.MultipleRowsPerDelegator | delegations/delegations.go:151-164 | for any map order, a delegator with one record has no rows and one with more has one row per record, in record order |
| Delegations.WriteMultipleDelegations | delegations/delegations.go:144-171 | the package's multi-delegation report is the "bonded_token" header then those rows, whose third column is the denomination |
| Delegations.MultipleDelegationsPerDelegator | delegations/delegations.go:151-164 | for aggregates and any map order, a delegator with one record has no row in the package's report and one with more has one row per record, in record order, with its validator and its balance's denomination |
| Validators.GetValidators | validators/validators.go:26-67 | a dial error gives no validators and no request; otherwise exactly one request (no key, limit 100), and the first reply's error, its validators, or a panic when it has no pagination |
| Validators.FirstPageOnly | validators/validators.go:53-64 | a first reply that stops agrees with following the keys; one that carries a next key gives only its own page, a prefix of what following the keys collects over more than one request |
| Sorting.SortSortedStable | validators/validators.go:73-75 | the stable sort returns a sorted permutation that keeps the input order among equivalent elements |
| Sorting.StableSortUnique | validators/validators.go:73-75 | any two sorted, stable permutations of the same input are equal, so the stable sort's output is determined |
| Validators.SortByPower | validators/validators.go:73-75 | the validators are permuted stably by the comparator and their consensus power does not increase down the list |
| Validators.SortByPowerUnique | validators/validators.go:73-75 | every stable sorted permutation under the comparator is the one `SortByPower` returns |
| Validators.WriteValidators | validators/validators.go:70-95 | the header, then one row per validator in stably sorted order |
| Validators.InotelRow | main_test.go:224-228 | a bonded validator with 5956506193276 tokens and minimum self-delegation 1 gets the row `Inotel,5956506,1,5956506193276.000000000000000000` |
| Program.WriteValidators | main.go:103-128 | main's copy of the report loop writes the same report as the validators package's |
| Program.CollectKeysOfAggregate | main.go:23-32 | for aggregates built from records, the list of first-record delegators is the map order itself |
| Program.SortKeysByTotal | main.go:34-37 | the key list is permuted into non-increasing order of total |
| Program.WriteDelegations | main.go:20-54 | main's report as written: the header, then one row per map key with that key's exact total, every key once, no delegator twice |
| Program.DelegationsReportTotals | main.go:41-47 | for aggregates, each row's total is the exact sum of that delegator's record amounts |
| Program.WriteDelegationsSorted | main.go:34-47 | the report in sorted-key order: each row is a delegator with its total, and totals do not increase down the report |
| Program.SortedReportSameRows | main.go:34-47 | the sorted report holds exactly the rows of the report as written |
| Program.UnsortedDelegationsReport | main.go:41-47 | with totals a=10 and b=30 visited in the order a, b, the report as written lists a first; the sorted report lists b first |
| Program.ValidatorIndex | main.go:63-66 | the index's keys are the operator addresses, and each maps to the last validator listed with that address |
| Program.BondedTokensSpec | main.go:83-88 | the bonded column is the record's amount exactly when the last validator with that address is bonded, and "0" otherwise, including an unknown address |
| Program.WriteMultipleDelegations | main.go:57-100 | main's multi-delegation report is the "bonded_tokens" header then three-column rows, one per record of each delegator with more than one record |
| Program.MultipleDelegationsPerDelegator | main.go:70-93 | per delegator: no rows for a single record; otherwise one row per record, in record order, with its validator and bonded amount |
| Program.Run | main.go:142-160 | a completed run holds a permutation of the first validators page, and aggregates that characterise the fetched records |
| Program.OnlyTopValidatorQueried | main.go:153-160 | a completed run asked only about the first validator after sorting, which has the greatest power, and its records are that validator's pages |
| Program.TopFetched | main.go:153-160 | once the validators are fetched, a completed run holds them in non-increasing order of power, and its records and requests are those of the delegation fetch over that list |
| Program.NilPaginationCrashes | validators/validators.go:53-55 | a validators reply without pagination crashes both runs before any delegation is asked for, whatever the delegation scripts are |
| Program.DelegationsDialFails | delegations/delegations.go:45-47 | a failed delegations dial ends both runs with that error after the validators report, whatever the delegation scripts are |
| Program.RunIntended | main.go:142-160 | the intended run also asks for the first page of every listed validator |
| Program.RunsAgreeOnOneValidator | main.go:153-160 | with at most one validator listed, the run as written and the intended run coincide |

## Left out

- gRPC dialling, transport credentials, the codec, the query clients and the test hooks are left out. The dial result and the server replies are arguments.
- Contexts are left out.
- The CSV writer, `Flush`, `writer.Error` and `log.Fatal` on a write error are left out. Reports are lists of rows; the model does not model quoting or a failing writer.
- `fmt.Println` progress output is left out.
- `main`'s command-line flags are left out. So are opening, truncating and closing the output files, and their `log.Fatal` paths.
- The Cosmos SDK's own code is taken as given:
  - JSON and proto decoding;
  - the decimal text of `sdk.Dec` shares, which are opaque strings;
  - the tie-break inside `ValidatorsByVotingPower.Less`, which is an abstract strict weak order whose primary key is descending power.
- Staking.ConsensusPower: does not model the panic the SDK raises when the power exceeds 64 bits, because that check is inside the SDK.
- Delegations.WriteDelegations: requires every record's delegator to be a key of the map. In Go a missing delegator reads as a nil total. `Cmp` panics when a nil total is compared with a present one, two nil totals compare equal, and with a single record nothing is compared and `fmt.Sprint` writes `<nil>`. The model covers none of these cases.
- Delegations.WriteDelegations and Delegations.WriteMultipleDelegations have no caller in the repository. main.go:167 and main.go:174 call main's own copies.
- Delegations.WriteDelegations: returns the report and leaves out that `sort.Slice` at delegations/delegations.go:120 reorders the caller's record slice in place.
- Program.WriteDelegations: accepts every map. In Go, the sort at main.go:34-37 reads a nil total for a first-record delegator that is not a key, and it panics when that nil total is compared with a present one. Maps built by `GetDelegationsWithTotalBalance` never trigger this: `Program.CollectKeysOfAggregate` shows every first-record delegator is its own key.
- Delegations.WriteDelegations: fixes one of the orders `sort.Slice` may produce among equal totals, the stable one. The contract only claims what holds for every admissible order.
- Program.SortKeysByTotal: likewise fixes the stable order among equal totals.
- Termination of the page loops is assumed only for validators whose delegation pages are actually asked for. Each of them needs a script in which some reply stops the loop (`Ends`). A server that always returns a next key makes the Go loop run forever. Pages are asked for only when the validators reply is a page with pagination and the delegations dial succeeds. The run as written then queries only the validator of greatest power (`TopValidatorPagesEnd`), and the intended run queries every listed validator (`ValidatorPagesEnd`).
- A nil `Pagination` in a reply panics in the code, and the model follows the code. An alternative reading treats a missing pagination block as end-of-results; the model does not.
- The record list that main's `WriteMultipleDelegations` takes as a parameter is not used by it, so the model omits it.
- Program.Run: stops at the aggregates. The two map reports are `Program.WriteDelegations` and `Program.WriteMultipleDelegations` applied to them in the run's map orders, because those orders are chosen only once the map exists.

## Findings

| source | as written | input that shows it | evidently intended | confidence | as-written member | corrected member |
|---|---|---|---|---|---|---|
| delegations/delegations.go:82 | an unconditional `break` ends the validator loop after the first validator's pages | two validators with one single-page record each: only the first record is returned | every validator's delegations are fetched, as the expected totals 80/40 and the eight multi-delegation rows in main_test.go assume | high, not executed | Delegations.BreakSkipsSecondValidator | Delegations.FetchAllDelegations |
| main.go:41 | the rows are written by ranging over the map, and the sorted key list built at main.go:23-37 is never used | totals a=10 and b=30 visited in the order a, b: row a comes before row b | rows in non-increasing order of total, as the comment at main.go:19 and the sort say | high, not executed | Program.UnsortedDelegationsReport | Program.WriteDelegationsSorted |

For the first finding, `Delegations.FetchDelegations` and `Program.Run` model the code as written. `Program.RunIntended` uses `Delegations.FetchAllDelegations` instead, and `Program.RunsAgreeOnOneValidator` shows the two coincide when only one validator is listed.

For the second finding, `Program.WriteDelegations` models the code as written. `Program.SortedReportSameRows` proves that the corrected report holds the same rows in sorted order.
