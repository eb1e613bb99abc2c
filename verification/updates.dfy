/** The three writes to the ring-submit-info table. */
module Updates {
  import opened Wrappers
  import opened Tables
  import opened Rows
  import Decimal

  /** The rows a result event addresses: the row with the record id when one is
      given (positive), otherwise every row with the event's (ringhash, tx hash). */
  predicate SelectsRow(ev: RingSubmitResultEvent, x: RingSubmitInfo) {
    if ev.recordId > 0 then x.id == ev.recordId
    else x.ringHash == ev.ringHash && x.protocolTxHash == ev.txHash
  }

  /** The column set a result event writes into one row. */
  function WriteResult(ev: RingSubmitResultEvent, x: RingSubmitInfo): RingSubmitInfo {
    x.(status := ev.status,
       ringIndex := Decimal.GetBigIntString(ev.ringIndex),
       blockNumber := Decimal.GetBigIntString(ev.blockNumber),
       protocolUsedGas := Decimal.GetBigIntString(ev.usedGas),
       ringHash := ev.ringHash,
       protocolTxHash := ev.txHash,
       err := ev.err,
       txNonce := if ev.txNonce > 0 then ev.txNonce else x.txNonce)
  }

  /** The columns a result update leaves alone. */
  predicate SameUnwrittenColumns(a: RingSubmitInfo, b: RingSubmitInfo) {
    && a.id == b.id
    && a.uniqueId == b.uniqueId
    && a.protocolAddress == b.protocolAddress
    && a.ordersCount == b.ordersCount
    && a.protocolData == b.protocolData
    && a.protocolGas == b.protocolGas
    && a.protocolGasPrice == b.protocolGasPrice
    && a.miner == b.miner
    && a.createTime == b.createTime
  }

  /** `b` is `a` after the event's write: the chain-observed columns carry the event's
      values, a zero nonce keeps the recorded one, and nothing else changes. */
  predicate ResultWritten(ev: RingSubmitResultEvent, a: RingSubmitInfo, b: RingSubmitInfo) {
    && SameUnwrittenColumns(a, b)
    && b.status == ev.status
    && Decimal.EncodesBigInt(b.ringIndex, ev.ringIndex)
    && Decimal.EncodesBigInt(b.blockNumber, ev.blockNumber)
    && Decimal.EncodesBigInt(b.protocolUsedGas, ev.usedGas)
    && b.ringHash == ev.ringHash
    && b.protocolTxHash == ev.txHash
    && b.err == ev.err
    && b.txNonce == (if ev.txNonce > 0 then ev.txNonce else a.txNonce)
  }

  function ResultSelector(ev: RingSubmitResultEvent): RingSubmitInfo -> bool {
    (x: RingSubmitInfo) => SelectsRow(ev, x)
  }

  function ResultWriter(ev: RingSubmitResultEvent): RingSubmitInfo -> RingSubmitInfo {
    (x: RingSubmitInfo) => WriteResult(ev, x)
  }

  /** `UpdateRingSubmitInfoResult`: every addressed row takes the event's result and
      every other row is left exactly as it was. */
  function UpdateRingSubmitInfoResult(t: Table, ev: RingSubmitResultEvent): (t': Table)
    ensures |t'| == |t|
    ensures forall i :: 0 <= i < |t| && !SelectsRow(ev, t[i]) ==> t'[i] == t[i]
    ensures forall i :: 0 <= i < |t| && SelectsRow(ev, t[i]) ==> ResultWritten(ev, t[i], t'[i])
  {
    MapWhere(t, ResultSelector(ev), ResultWriter(ev))
  }

  /** A row written by an event is still addressed by it, so a second delivery of the
      same event touches the same rows and writes the same values. */
  lemma WriteResultIsStable(ev: RingSubmitResultEvent, x: RingSubmitInfo)
    requires SelectsRow(ev, x)
    ensures SelectsRow(ev, WriteResult(ev, x))
    ensures WriteResult(ev, WriteResult(ev, x)) == WriteResult(ev, x)
  {
  }

  /** Applying the same result event twice leaves the table as applying it once. */
  lemma UpdateResultIdempotent(t: Table, ev: RingSubmitResultEvent)
    ensures UpdateRingSubmitInfoResult(UpdateRingSubmitInfoResult(t, ev), ev) == UpdateRingSubmitInfoResult(t, ev)
  {
    var p := ResultSelector(ev);
    var f := ResultWriter(ev);
    forall x | p(x) ensures p(f(x)) && f(f(x)) == f(x) {
      WriteResultIsStable(ev, x);
    }
    MapWhereIdempotent(t, p, f);
  }

  /** With a record id and a primary key, at most one row changes. */
  lemma UpdateByIdTouchesOneRow(t: Table, ev: RingSubmitResultEvent)
    requires UniqueIds(t) && ev.recordId > 0
    ensures forall i, j :: 0 <= i < j < |t| ==>
              UpdateRingSubmitInfoResult(t, ev)[i] == t[i] || UpdateRingSubmitInfoResult(t, ev)[j] == t[j]
  {
  }

  function UsedGasWriter(usedGas: Option<int>): RingSubmitInfo -> RingSubmitInfo {
    (x: RingSubmitInfo) => x.(protocolUsedGas := Decimal.GetBigIntString(usedGas))
  }

  /** `UpdateRingSubmitInfoSubmitUsedGas`: on exactly the rows sent in the transaction,
      the used-gas column now reads back as the given value (nil as ""); no other
      column and no other row changes. */
  function UpdateRingSubmitInfoSubmitUsedGas(t: Table, txHash: string, usedGas: Option<int>): (t': Table)
    ensures |t'| == |t|
    ensures forall i :: 0 <= i < |t| && t[i].protocolTxHash != txHash ==> t'[i] == t[i]
    ensures forall i :: 0 <= i < |t| && t[i].protocolTxHash == txHash ==>
              && t'[i].(protocolUsedGas := t[i].protocolUsedGas) == t[i]
              && Decimal.EncodesBigInt(t'[i].protocolUsedGas, usedGas)
  {
    MapWhere(t, WithTxHash(txHash), UsedGasWriter(usedGas))
  }

  function WithId(id: int): RingSubmitInfo -> bool {
    (x: RingSubmitInfo) => x.id == id
  }

  function ErrWriter(text: string): RingSubmitInfo -> RingSubmitInfo {
    (x: RingSubmitInfo) => x.(err := text)
  }

  /** `UpdateRingSubmitInfoErrById`: the row with the id now holds the error's text,
      or "" for a nil error; no other column and no other row changes. */
  function UpdateRingSubmitInfoErrById(t: Table, id: int, e: Option<string>): (t': Table)
    ensures |t'| == |t|
    ensures forall i :: 0 <= i < |t| && t[i].id != id ==> t'[i] == t[i]
    ensures forall i :: 0 <= i < |t| && t[i].id == id ==>
              && t'[i].(err := t[i].err) == t[i]
              && t'[i].err == (if e.Some? then e.value else "")
  {
    var text := match e case None => "" case Some(s) => s;
    MapWhere(t, WithId(id), ErrWriter(text))
  }
}
