/** The parts of the Cosmos SDK staking types that the reports read. */
module Staking {

  /** Validator bond status; the numeric values of the protobuf enum are 0..3. */
  datatype BondStatus = Unspecified | Unbonded | Unbonding | Bonded

  /** An amount of one denomination; the amount is an arbitrary-precision integer. */
  datatype Coin = Coin(denom: string, amount: int)

  /** Shares are a decimal whose text the reports never inspect. */
  datatype Delegation = Delegation(delegatorAddress: string, validatorAddress: string, shares: string)

  /** One (delegator, validator) delegation with its balance in tokens. */
  datatype DelegationResponse = DelegationResponse(delegation: Delegation, balance: Coin)

  datatype Validator = Validator(
    operatorAddress: string,
    moniker: string,
    status: BondStatus,
    tokens: int,
    delegatorShares: string,
    minSelfDelegation: int)

  /** The SDK's default power reduction, 10^6 tokens per unit of power. */
  const PowerReduction: int := 1_000_000

  /** Integer division truncating toward zero, as big.Int.Quo does. */
  function Quo(a: int, b: int): int
    requires b > 0
  {
    if a >= 0 then a / b else -((-a) / b)
  }

  /** Consensus power: zero for a validator that is not bonded, otherwise
      its tokens divided by the power reduction. */
  function ConsensusPower(v: Validator): (p: int)
    ensures v.status != Bonded ==> p == 0
    ensures v.status == Bonded ==> p * PowerReduction <= v.tokens < p * PowerReduction + PowerReduction || v.tokens < 0
    ensures v.status == Bonded && v.tokens < 0 ==> p * PowerReduction - PowerReduction < v.tokens <= p * PowerReduction
  {
    if v.status == Bonded then Quo(v.tokens, PowerReduction) else 0
  }

  function DelegatorOf(r: DelegationResponse): string {
    r.delegation.delegatorAddress
  }

  function AmountOf(r: DelegationResponse): int {
    r.balance.amount
  }
}
