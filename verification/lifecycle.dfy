/** How the writes and the pending query work together over an attempt's life. */
module Lifecycle {
  import opened Wrappers
  import opened Rows
  import opened Updates
  import opened Pending
  import opened Tables

  /** Once a result event marks an attempt mined or failed, no attempt of the same
      miner at that nonce or below is reported as pending any more. */
  lemma ResolvingSupersedesLowerNonces(t: Table, ev: RingSubmitResultEvent, cutoff: int, i: int)
    requires 0 <= i < |t| && SelectsRow(ev, t[i])
    requires IsBlocking(ev.status)
    ensures forall x :: x in GetPendingTx(UpdateRingSubmitInfoResult(t, ev), cutoff) && x.miner == t[i].miner
              ==> x.txNonce > UpdateRingSubmitInfoResult(t, ev)[i].txNonce
  {
    var t' := UpdateRingSubmitInfoResult(t, ev);
    var resolved := t'[i];
    assert resolved in t' && resolved.miner == t[i].miner && IsBlocking(resolved.status);
    forall x | x in GetPendingTx(t', cutoff) && x.miner == t[i].miner
      ensures x.txNonce > resolved.txNonce
    {
      PendingTxMembership(t', cutoff, x);
    }
  }

  /** One miner's attempts: nonce 1 failed, 2 pending, 3 mined, 4 pending. */
  function ExampleTable(): Table {
    [ Attempt(1, 1, 3), Attempt(2, 2, 1), Attempt(3, 3, 2), Attempt(4, 4, 1) ]
  }

  function Attempt(id: int, nonce: U64, status: int): RingSubmitInfo {
    RingSubmitInfo(id, "ring", "unique", "protocol", 1, "", "", "", "", "tx", nonce, status,
                   "", "", "0xAA", "", id)
  }

  /** For these attempts the miner's watermark is the mined nonce 3. */
  lemma ExampleWatermark()
    ensures Watermark(ExampleTable(), "0xAA") == Some(3)
  {
    var t := ExampleTable();
    assert t[2] in t;
  }

  /** For these attempts only the nonce-4 row passes the join. */
  lemma ExampleJoin()
    ensures !IsPendingRow(ExampleTable(), 10, Attempt(1, 1, 3))
    ensures !IsPendingRow(ExampleTable(), 10, Attempt(2, 2, 1))
    ensures !IsPendingRow(ExampleTable(), 10, Attempt(3, 3, 2))
    ensures IsPendingRow(ExampleTable(), 10, Attempt(4, 4, 1))
  {
    ExampleWatermark();
  }

  /** For these attempts only the nonce-4 one is live: the mined nonce 3
      supersedes the pending nonce 2. */
  lemma ExampleOnlyNonceFourIsLive()
    ensures GetPendingTx(ExampleTable(), 10) == [Attempt(4, 4, 1)]
  {
    var t := ExampleTable();
    var p := PendingOf(t, 10);
    ExampleJoin();
    assert t[0] == Attempt(1, 1, 3) && t[1] == Attempt(2, 2, 1) && t[2] == Attempt(3, 3, 2) && t[3] == Attempt(4, 4, 1);
    assert !p(t[0]) && !p(t[1]) && !p(t[2]) && p(t[3]);
    forall j | 0 <= j < |t| && j != 3 ensures !p(t[j]) {
      assert j == 0 || j == 1 || j == 2;
    }
    FilterSingle(t, p, 3);
    SortSingleton(t[3]);
  }
}
