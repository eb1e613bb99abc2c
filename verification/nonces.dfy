/** The next-nonce allocator and the resubmission guard. */
module Nonces {
  import opened Wrappers
  import opened Tables
  import opened Rows

  /** `max(tx_nonce)` over the rows satisfying `p`; absent when there are none. */
  function MaxNonceWhere(t: Table, p: RingSubmitInfo -> bool): (r: Option<U64>)
    ensures r.None? <==> forall x :: x in t ==> !p(x)
    ensures r.Some? ==> exists x :: x in t && p(x) && x.txNonce == r.value
    ensures r.Some? ==> forall x :: x in t && p(x) ==> x.txNonce <= r.value
    decreases |t|
  {
    if |t| == 0 then None
    else
      var init := t[..|t| - 1];
      var last := t[|t| - 1];
      assert t == init + [last];
      var rest := MaxNonceWhere(init, p);
      if !p(last) then rest
      else if rest.Some? && last.txNonce <= rest.value then rest
      else Some(last.txNonce)
  }

  function OfMiner(miner: string): RingSubmitInfo -> bool {
    (x: RingSubmitInfo) => x.miner == miner
  }

  /** `GetSubmitterNonce`: one past the largest nonce the miner has ever used,
      whatever the status, in `uint64` arithmetic; 0 for a miner with no rows. */
  function GetSubmitterNonce(t: Table, miner: string): (r: U64)
    ensures (forall x :: x in t ==> x.miner != miner) ==> r == 0
    ensures (exists x :: x in t && x.miner == miner && x.txNonce == U64_LIMIT - 1) ==> r == 0
    ensures (exists x :: x in t && x.miner == miner)
            && (forall x :: x in t && x.miner == miner ==> x.txNonce < U64_LIMIT - 1)
            ==> (forall x :: x in t && x.miner == miner ==> x.txNonce < r)
                && (exists x :: x in t && x.miner == miner && x.txNonce == r - 1)
  {
    match MaxNonceWhere(t, OfMiner(miner))
    case None => 0
    case Some(m) => (m + 1) % U64_LIMIT
  }

  /** Short of uint64 wrap-around, the allocated nonce is held by none of the miner's rows. */
  lemma AllocatedNonceIsUnused(t: Table, miner: string)
    requires forall x :: x in t && x.miner == miner ==> x.txNonce < U64_LIMIT - 1
    ensures forall x :: x in t && x.miner == miner ==> x.txNonce != GetSubmitterNonce(t, miner)
  {
  }

  /** Appending a row changes the maximum only when the row is selected and larger. */
  lemma MaxNonceWhereAppend(t: Table, p: RingSubmitInfo -> bool, row: RingSubmitInfo)
    ensures MaxNonceWhere(t + [row], p)
            == if !p(row) then MaxNonceWhere(t, p)
               else if MaxNonceWhere(t, p).Some? && row.txNonce <= MaxNonceWhere(t, p).value then MaxNonceWhere(t, p)
               else Some(row.txNonce)
  {
    assert (t + [row])[..|t|] == t;
  }

  /** Recording an attempt at the allocated nonce moves the miner's next nonce on by one. */
  lemma AllocateThenInsert(t: Table, miner: string, row: RingSubmitInfo)
    requires row.miner == miner && row.txNonce == GetSubmitterNonce(t, miner)
    requires forall x :: x in t && x.miner == miner ==> x.txNonce < U64_LIMIT - 1
    requires row.txNonce < U64_LIMIT - 1
    ensures GetSubmitterNonce(t + [row], miner) == row.txNonce + 1
  {
    var p := OfMiner(miner);
    MaxNonceWhereAppend(t, p, row);
    var before := MaxNonceWhere(t, p);
    assert before.Some? ==> row.txNonce == before.value + 1;
    assert MaxNonceWhere(t + [row], p) == Some(row.txNonce);
  }

  /** Recording an attempt for one miner leaves every other miner's next nonce as it was. */
  lemma InsertKeepsOtherMiners(t: Table, row: RingSubmitInfo, other: string)
    requires row.miner != other
    ensures GetSubmitterNonce(t + [row], other) == GetSubmitterNonce(t, other)
  {
    MaxNonceWhereAppend(t, OfMiner(other), row);
  }

  function ResubmitOf(createTime: int, miner: string, txNonce: U64): RingSubmitInfo -> bool {
    (x: RingSubmitInfo) => x.createTime > createTime && x.miner == miner && x.txNonce == txNonce
  }

  /** `HasReSubmited`: the count of rows for (miner, nonce) created strictly after
      `createTime` is positive exactly when such a row exists. */
  function HasReSubmited(t: Table, createTime: int, miner: string, txNonce: U64): (r: bool)
    ensures r <==> exists x :: x in t && x.miner == miner && x.txNonce == txNonce && x.createTime > createTime
  {
    FilterNonEmpty(t, ResubmitOf(createTime, miner, txNonce));
    |Filter(t, ResubmitOf(createTime, miner, txNonce))| > 0
  }
}
