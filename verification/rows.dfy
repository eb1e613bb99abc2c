/** Row shapes of the two submission tables, and the result event that updates them. */
module Rows {
  import opened Wrappers

  const U64_LIMIT: int := 0x1_0000_0000_0000_0000

  /** Go `uint64`. */
  type U64 = x: int | 0 <= x < U64_LIMIT

  /** Go `uint8`. */
  type U8 = x: int | 0 <= x < 256

  /** One attempt to send a ring: a row of the ring-submit-info table. Numeric
      columns other than the nonce hold decimal text; `createTime` is the row's
      creation timestamp in Unix seconds. */
  datatype RingSubmitInfo = RingSubmitInfo(
    id: int,
    ringHash: string,
    uniqueId: string,
    protocolAddress: string,
    ordersCount: int,
    protocolData: string,
    protocolGas: string,
    protocolGasPrice: string,
    protocolUsedGas: string,
    protocolTxHash: string,
    txNonce: U64,
    status: int,
    ringIndex: string,
    blockNumber: string,
    miner: string,
    err: string,
    createTime: int)

  /** One filled order leg of a ring. Amounts hold `big.Rat` fraction text, "" when nil. */
  datatype FilledOrder = FilledOrder(
    id: int,
    ringHash: string,
    orderHash: string,
    feeSelection: U8,
    rateAmountS: string,
    availableAmountS: string,
    availableAmountB: string,
    fillAmountS: string,
    fillAmountB: string,
    lrcReward: string,
    lrcFee: string,
    feeS: string,
    legalFee: string,
    sPrice: string,
    bPrice: string)

  type Table = seq<RingSubmitInfo>

  /** Status code of an attempt whose outcome is not yet known. */
  const STATUS_PENDING: int := 1

  /** Status codes 2 (mined) and 3 (failed): the attempt has resolved its nonce. */
  predicate IsBlocking(status: int) {
    status == 2 || status == 3
  }

  /** The rows sent in the transaction with this hash. */
  function WithTxHash(txHash: string): RingSubmitInfo -> bool {
    (x: RingSubmitInfo) => x.protocolTxHash == txHash
  }

  /** `id` is the primary key. */
  predicate UniqueIds(t: Table) {
    forall i, j :: 0 <= i < j < |t| ==> t[i].id != t[j].id
  }

  /** What the chain observed about one attempt. `recordId` is 0 when the sender
      only knows the (ringhash, tx hash) pair; a nil big integer is `None`. */
  datatype RingSubmitResultEvent = RingSubmitResultEvent(
    recordId: int,
    ringHash: string,
    txHash: string,
    status: U8,
    ringIndex: Option<int>,
    blockNumber: Option<int>,
    usedGas: Option<int>,
    txNonce: U64,
    err: string)
}
