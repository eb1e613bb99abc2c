/** The nonce-gap resolver: which pending attempts are still live. */
module Pending {
  import opened Wrappers
  import opened Tables
  import opened Rows
  import opened Nonces

  function BlockingOf(miner: string): RingSubmitInfo -> bool {
    (x: RingSubmitInfo) => x.miner == miner && IsBlocking(x.status)
  }

  /** `blockedNonce` of the grouped subquery: the largest nonce among the miner's
      status-2/3 rows; absent when it has none, and then the inner join drops the miner. */
  function Watermark(t: Table, miner: string): (w: Option<U64>)
    ensures w.None? <==> forall x :: x in t && x.miner == miner ==> !IsBlocking(x.status)
    ensures w.Some? ==> exists x :: x in t && x.miner == miner && IsBlocking(x.status) && x.txNonce == w.value
    ensures w.Some? ==> forall x :: x in t && x.miner == miner && IsBlocking(x.status) ==> x.txNonce <= w.value
  {
    MaxNonceWhere(t, BlockingOf(miner))
  }

  /** The join condition of the pending query for one row. */
  predicate IsPendingRow(t: Table, cutoff: int, x: RingSubmitInfo) {
    && x.status == STATUS_PENDING
    && x.createTime < cutoff
    && Watermark(t, x.miner).Some?
    && x.txNonce > Watermark(t, x.miner).value
  }

  function PendingOf(t: Table, cutoff: int): RingSubmitInfo -> bool {
    (x: RingSubmitInfo) => IsPendingRow(t, cutoff, x)
  }

  predicate SortedByNonce(s: seq<RingSubmitInfo>) {
    forall i, j :: 0 <= i < j < |s| ==> s[i].txNonce <= s[j].txNonce
  }

  /** Insert `x` before the first row whose nonce is not smaller, so equal nonces keep their order. */
  function InsertByNonce(x: RingSubmitInfo, s: seq<RingSubmitInfo>): (r: seq<RingSubmitInfo>)
    requires SortedByNonce(s)
    ensures SortedByNonce(r)
    ensures multiset(r) == multiset(s) + multiset{x}
    decreases |s|
  {
    if |s| == 0 || x.txNonce <= s[0].txNonce then [x] + s
    else
      var rest := InsertByNonce(x, s[1..]);
      assert s == [s[0]] + s[1..];
      InsertedAboveHead(x, s, rest);
      [s[0]] + rest
  }

  /** Every row of an insertion into the tail of a sorted sequence is at least its head. */
  lemma InsertedAboveHead(x: RingSubmitInfo, s: seq<RingSubmitInfo>, rest: seq<RingSubmitInfo>)
    requires SortedByNonce(s) && |s| > 0 && s[0].txNonce < x.txNonce
    requires multiset(rest) == multiset(s[1..]) + multiset{x}
    ensures forall k :: 0 <= k < |rest| ==> s[0].txNonce <= rest[k].txNonce
  {
    forall k | 0 <= k < |rest| ensures s[0].txNonce <= rest[k].txNonce {
      assert rest[k] in multiset(rest);
      if rest[k] != x {
        assert rest[k] in multiset(s[1..]);
        var j :| 0 <= j < |s[1..]| && s[1..][j] == rest[k];
        assert s[j + 1] == rest[k];
      }
    }
  }

  /** Order rows by ascending nonce, keeping table order among equal nonces. */
  function SortByNonce(s: seq<RingSubmitInfo>): (r: seq<RingSubmitInfo>)
    ensures SortedByNonce(r)
    ensures multiset(r) == multiset(s)
    decreases |s|
  {
    if |s| == 0 then []
    else
      assert s == [s[0]] + s[1..];
      InsertByNonce(s[0], SortByNonce(s[1..]))
  }

  lemma SortSingleton(x: RingSubmitInfo)
    ensures SortByNonce([x]) == [x]
  {
    assert [x][1..] == [];
  }

  /** `GetPendingTx`: the rows meeting the join condition, each as often as it is
      stored, ordered by nonce across all miners. */
  function GetPendingTx(t: Table, cutoff: int): (r: seq<RingSubmitInfo>)
    ensures SortedByNonce(r)
    ensures forall x :: multiset(r)[x] == if IsPendingRow(t, cutoff, x) then multiset(t)[x] else 0
  {
    SortByNonce(Filter(t, PendingOf(t, cutoff)))
  }

  /** A row is returned exactly when it is a status-1 row created before the cutoff
      whose miner has some status-2/3 row, and whose nonce is above every status-2/3
      nonce of that same miner. */
  lemma PendingTxMembership(t: Table, cutoff: int, x: RingSubmitInfo)
    ensures x in GetPendingTx(t, cutoff) <==>
      && x in t
      && x.status == STATUS_PENDING
      && x.createTime < cutoff
      && (exists y :: y in t && y.miner == x.miner && IsBlocking(y.status))
      && (forall y :: y in t && y.miner == x.miner && IsBlocking(y.status) ==> y.txNonce < x.txNonce)
  {
    var r := GetPendingTx(t, cutoff);
    assert x in r <==> multiset(r)[x] > 0;
    assert x in t <==> multiset(t)[x] > 0;
  }

  /** Blocking is scoped per miner: rows of another miner never change whether a row is pending. */
  lemma OtherMinersDoNotBlock(t: Table, cutoff: int, x: RingSubmitInfo, u: RingSubmitInfo)
    requires u.miner != x.miner
    ensures IsPendingRow(t + [u], cutoff, x) == IsPendingRow(t, cutoff, x)
  {
    MaxNonceWhereAppend(t, BlockingOf(x.miner), u);
  }

  /** The watermark a map holds for a miner. */
  function MarkOf(marks: map<string, U64>, miner: string): Option<U64> {
    if miner in marks then Some(marks[miner]) else None
  }

  /** The per-miner watermark after one more row. */
  lemma WatermarkStep(t: Table, i: int, miner: string)
    requires 0 <= i < |t|
    ensures Watermark(t[..i + 1], miner)
              == if !(t[i].miner == miner && IsBlocking(t[i].status)) then Watermark(t[..i], miner)
                 else if Watermark(t[..i], miner).Some? && t[i].txNonce <= Watermark(t[..i], miner).value
                 then Watermark(t[..i], miner)
                 else Some(t[i].txNonce)
  {
    assert t[..i + 1] == t[..i] + [t[i]];
    MaxNonceWhereAppend(t[..i], BlockingOf(miner), t[i]);
  }

  /** First pass, the grouped subquery: every miner's watermark in one scan. */
  method BuildWatermarks(t: Table) returns (marks: map<string, U64>)
    ensures forall m :: MarkOf(marks, m) == Watermark(t, m)
  {
    marks := map[];
    var i := 0;
    while i < |t|
      invariant 0 <= i <= |t|
      invariant forall m :: MarkOf(marks, m) == Watermark(t[..i], m)
    {
      var x := t[i];
      var marks' := if IsBlocking(x.status) && (x.miner !in marks || marks[x.miner] < x.txNonce)
                    then marks[x.miner := x.txNonce] else marks;
      forall m ensures MarkOf(marks', m) == Watermark(t[..i + 1], m) {
        WatermarkStep(t, i, m);
      }
      marks := marks';
      i := i + 1;
    }
    assert t[..|t|] == t;
  }

  /** The join condition evaluated against a map of watermarks. */
  function LiveOf(marks: map<string, U64>, cutoff: int): RingSubmitInfo -> bool {
    (x: RingSubmitInfo) =>
      x.status == STATUS_PENDING && x.createTime < cutoff && x.miner in marks && x.txNonce > marks[x.miner]
  }

  /** With every miner's watermark at hand, the join condition is a map lookup. */
  lemma LiveMatchesPending(t: Table, cutoff: int, marks: map<string, U64>)
    requires forall m :: MarkOf(marks, m) == Watermark(t, m)
    ensures Filter(t, LiveOf(marks, cutoff)) == Filter(t, PendingOf(t, cutoff))
  {
    forall k | 0 <= k < |t|
      ensures LiveOf(marks, cutoff)(t[k]) == PendingOf(t, cutoff)(t[k])
    {
      assert MarkOf(marks, t[k].miner) == Watermark(t, t[k].miner);
    }
    FilterCongruent(t, LiveOf(marks, cutoff), PendingOf(t, cutoff));
  }

  /** Second pass, the join: keep the status-1 rows before the cutoff above their
      miner's watermark, in table order. */
  method SelectLive(t: Table, cutoff: int, marks: map<string, U64>) returns (live: seq<RingSubmitInfo>)
    ensures live == Filter(t, LiveOf(marks, cutoff))
  {
    live := [];
    var i := 0;
    while i < |t|
      invariant 0 <= i <= |t|
      invariant live == Filter(t[..i], LiveOf(marks, cutoff))
    {
      var x := t[i];
      FilterPrefixStep(t, i, LiveOf(marks, cutoff));
      if x.status == STATUS_PENDING && x.createTime < cutoff && x.miner in marks && x.txNonce > marks[x.miner] {
        live := live + [x];
      }
      i := i + 1;
    }
    assert t[..|t|] == t;
  }

  /** The pending query as a two-pass computation: one scan builds every miner's
      watermark, a second keeps the live pending rows, and the result is ordered by nonce. */
  method PendingTxTwoPass(t: Table, cutoff: int) returns (r: seq<RingSubmitInfo>)
    ensures r == GetPendingTx(t, cutoff)
  {
    var marks := BuildWatermarks(t);
    var live := SelectLive(t, cutoff, marks);
    LiveMatchesPending(t, cutoff, marks);
    r := SortByNonce(live);
  }
}
