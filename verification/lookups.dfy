/** Read-only lookups over the two submission tables. */
module Lookups {
  import opened Wrappers
  import opened Tables
  import opened Rows

  /** The error a `First` lookup reports when no row matches. */
  datatype StoreError = RecordNotFound

  /** The matching row with the least id (the earliest in table order on a tie),
      as `First` picks it by ascending primary key. */
  function FirstByIdWhere(t: Table, p: RingSubmitInfo -> bool): (r: Option<RingSubmitInfo>)
    ensures r.None? <==> forall x :: x in t ==> !p(x)
    ensures r.Some? ==> r.value in t && p(r.value)
    ensures r.Some? ==> forall x :: x in t && p(x) ==> r.value.id <= x.id
    decreases |t|
  {
    if |t| == 0 then None
    else
      var init := t[..|t| - 1];
      var last := t[|t| - 1];
      assert t == init + [last];
      var rest := FirstByIdWhere(init, p);
      if !p(last) then rest
      else if rest.Some? && rest.value.id <= last.id then rest
      else Some(last)
  }

  function WithRingHash(ringHash: string): RingSubmitInfo -> bool {
    (x: RingSubmitInfo) => x.ringHash == ringHash
  }

  /** `GetRingForSubmitByHash`: the first attempt, by primary key, for a ring hash;
      `RecordNotFound` when the ring has no attempt. */
  function GetRingForSubmitByHash(t: Table, ringHash: string): (r: Result<RingSubmitInfo, StoreError>)
    ensures r.Err? <==> forall x :: x in t ==> x.ringHash != ringHash
    ensures r.Ok? ==> r.value in t && r.value.ringHash == ringHash
    ensures r.Ok? ==> forall x :: x in t && x.ringHash == ringHash ==> r.value.id <= x.id
  {
    match FirstByIdWhere(t, WithRingHash(ringHash))
    case None => Err(RecordNotFound)
    case Some(x) => Ok(x)
  }

  /** Under a primary key the attempt found by ring hash is determined: it is the
      one matching row whose id no other matching row undercuts. */
  lemma FirstByHashIsDetermined(t: Table, ringHash: string, y: RingSubmitInfo)
    requires UniqueIds(t)
    requires y in t && y.ringHash == ringHash
    requires forall x :: x in t && x.ringHash == ringHash ==> y.id <= x.id
    ensures GetRingForSubmitByHash(t, ringHash) == Ok(y)
  {
    var r := GetRingForSubmitByHash(t, ringHash);
    var i :| 0 <= i < |t| && t[i] == r.value;
    var j :| 0 <= j < |t| && t[j] == y;
    assert t[i].id == t[j].id;
    if i != j {
      assert false;
    }
  }

  /** `GetRingHashesByTxHash`: every attempt sent in the transaction, each as often
      as it is stored, and nothing else. */
  function GetRingHashesByTxHash(t: Table, txHash: string): (r: seq<RingSubmitInfo>)
    ensures forall x :: x in r <==> x in t && x.protocolTxHash == txHash
    ensures forall x :: multiset(r)[x] == if x.protocolTxHash == txHash then multiset(t)[x] else 0
  {
    Filter(t, WithTxHash(txHash))
  }

  function FillOfRing(ringHash: string): FilledOrder -> bool {
    (f: FilledOrder) => f.ringHash == ringHash
  }

  /** `GetFilledOrderByRinghash`: every fill recorded for the ring, each as often as
      it is stored, and nothing else. */
  function GetFilledOrderByRinghash(fills: seq<FilledOrder>, ringHash: string): (r: seq<FilledOrder>)
    ensures forall f :: f in r <==> f in fills && f.ringHash == ringHash
    ensures forall f :: multiset(r)[f] == if f.ringHash == ringHash then multiset(fills)[f] else 0
  {
    Filter(fills, FillOfRing(ringHash))
  }
}
