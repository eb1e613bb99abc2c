# Ring submission bookkeeping

A relay submits matched-order batches ("rings") to a settlement contract. Every
attempt to send a ring is a row of the ring-submit-info table. The row holds the
attempt's miner (the sending account), its transaction nonce, a status and the
chain's observations. Each filled order leg of a ring is a row of the filled-order
table. This project models the store layer over those two tables as pure
functions over an in-memory table, a `seq<RingSubmitInfo>`. It covers:

- the next-nonce allocator and the resubmission guard (`Nonces`);
- the nonce-gap resolver, the pending-attempt query (`Pending`);
- the three writes to the attempt table (`Updates`);
- the lookups by ring hash and by transaction hash (`Lookups`);
- the text encoding of `*big.Int` and `*big.Rat` columns (`Decimal`).

The table is a sequence in store order. Each SQL query becomes a filter, a
maximum, an order or a column-wise update over that sequence. Timestamps are
Unix seconds as `int`. Go's `uint64` and `uint8` are the subset types `U64` and
`U8`, and the allocator's `uint64` wrap-around is written out. A nil big-number
pointer is `None`.

Status codes follow the code. Code 1 is pending. Codes 2 and 3 are "blocking":
mined or failed, they fix the nonce watermark.

The code behaves as follows, and so does the model:
- A miner with no status-2/3 row gets no pending rows at all. The watermark
  subquery is an inner join, so there is no "watermark 0" default.
- Pending rows are ordered by nonce across the whole result, not per miner.
  Rows with equal nonces keep table order; SQL leaves that tie open, and the
  contract (sorted, and the same multiset) holds for any tie order.
- The result update writes whatever status the event carries. Nothing forces
  status to move only forward.
- The error update stores `""` for a nil error instead of rejecting it.

Modules: `Wrappers` (Option, Result), `Tables` (filter and update-where over a
sequence), `Decimal`, `Rows` (row and event shapes), `Nonces`, `Lookups`,
`Updates`, `Pending`, and `Lifecycle` (the writes and the resolver together).

## Model

| member | source | states |
|---|---|---|
| Decimal.GetBigIntString | dao/ring.go:144-150 | nil is written as "" and only nil is; a value is written as canonical decimal text that base-0 parsing reads back as the same integer |
| Decimal.GetBigIntStringInjective | dao/ring.go:144-150 | distinct big-integer values, nil included, are written as distinct strings |
| Decimal.NatToDecimal | dao/ring.go:144-150 | the decimal form of a natural number is non-empty, all digits, and starts with '0' only for the number zero, which is exactly "0" |
| Decimal.IntToDecimal | dao/ring.go:148 | the decimal form of an integer is canonical: optional minus, no leading zero, no "-0"; the minus appears exactly for negative values |
| Decimal.ParseDigits | dao/ring.go:174-179 | a digit run is accepted exactly when it is non-empty and every character is a digit of the base |
| Decimal.NatDigitsRoundTrip | dao/ring.go:174-179 | reading the decimal digits of n in base 10 gives n |
| Decimal.IntBase0RoundTrip | dao/ring.go:174-179 | `SetString(s, 0)` reads what `big.Int.String` wrote back as the same integer, negatives included |
| Decimal.LeadingZeroReadsAsOctal | dao/ring.go:174-179 | base-0 reading takes "010" as octal 8 and rejects "08": the no-leading-zero form is what makes the round trip hold |
| Decimal.EmptyIsNoNumber | dao/ring.go:174-179 | `SetString("", 0)` reports failure: the empty text an absent value is written as is no number |
| Decimal.GetRatString | dao/ring.go:49-55 | nil is written as "" and only nil is; a rational is written as "a/b" with a and b each the canonical decimal text of the numerator and denominator, and the fraction reader recovers both |
| Decimal.RatRoundTrip | dao/ring.go:53 | the fraction text of a rational splits back into the same numerator and denominator |
| Nonces.MaxNonceWhere | dao/ring.go:314 | `max(tx_nonce)` over the selected rows: absent exactly when no row is selected, otherwise a nonce some selected row holds and no selected row exceeds |
| Nonces.GetSubmitterNonce | dao/ring.go:311-320 | 0 for a miner with no rows; otherwise one past the largest nonce of any of the miner's rows, whatever the status, wrapping to 0 past the uint64 range |
| Nonces.AllocatedNonceIsUnused | dao/ring.go:311-320 | short of wrap-around, the allocated nonce is held by none of the miner's rows |
| Nonces.AllocateThenInsert | dao/ring.go:311-320 | after a row at the allocated nonce is added, the miner's next nonce is one more |
| Nonces.InsertKeepsOtherMiners | dao/ring.go:314 | adding a row for one miner leaves every other miner's next nonce unchanged |
| Nonces.HasReSubmited | dao/ring.go:241-246 | true exactly when some row has the miner, the nonce and a creation time strictly after the given time |
| Lookups.GetRingForSubmitByHash | dao/ring.go:236-239 | not-found exactly when no row has the ring hash; otherwise a stored row with that ring hash whose id is the least among such rows |
| Lookups.FirstByHashIsDetermined | dao/ring.go:236-239 | with unique ids, the lookup returns precisely the matching row of least id |
| Lookups.GetRingHashesByTxHash | dao/ring.go:285-296 | exactly the rows with the transaction hash, each as often as it is stored |
| Lookups.GetFilledOrderByRinghash | dao/ring.go:111-122 | exactly the fill rows with the ring hash, each as often as it is stored |
| Updates.UpdateRingSubmitInfoResult | dao/ring.go:203-229 | rows are selected by id when the record id is positive, else by (ringhash, tx hash); selected rows take the status, ring hash, tx hash and error of the event, and ring index, block number and used gas as exactly "" when nil and canonical decimal text reading back as the value otherwise; take its nonce only when it is positive, and keep every other column; unselected rows are unchanged |
| Updates.WriteResultIsStable | dao/ring.go:220-225 | a row the event wrote is still selected by the event, and writing it again changes nothing |
| Updates.UpdateResultIdempotent | dao/ring.go:203-229 | delivering the same result event twice leaves the table as delivering it once |
| Updates.UpdateByIdTouchesOneRow | dao/ring.go:221-222 | with unique ids and a positive record id, at most one row changes |
| Updates.UpdateRingSubmitInfoSubmitUsedGas | dao/ring.go:298-301 | on exactly the rows with the tx hash, only the used-gas column changes, to text that is "" for nil and reads back as the value otherwise |
| Updates.UpdateRingSubmitInfoErrById | dao/ring.go:303-309 | on exactly the rows with the id, only the error column changes, to the error's text or "" for a nil error |
| Pending.Watermark | dao/ring.go:252 | a miner's blocked nonce is absent exactly when it has no status-2/3 row, otherwise the largest nonce among those rows |
| Pending.GetPendingTx | dao/ring.go:247-253 | the result is sorted by nonce and holds each row meeting the join condition as often as the table does, and nothing else |
| Pending.PendingTxMembership | dao/ring.go:250-253 | a row is returned exactly when it is stored, has status 1, was created before the cutoff, its miner has a status-2/3 row, and its nonce exceeds every status-2/3 nonce of that miner |
| Pending.OtherMinersDoNotBlock | dao/ring.go:252 | rows of another miner never change whether a row is pending |
| Pending.InsertByNonce | dao/ring.go:253 | inserting into a nonce-sorted sequence keeps it sorted and adds exactly the one row |
| Pending.SortByNonce | dao/ring.go:253 | the order-by result is sorted by nonce and is a permutation of its input |
| Pending.BuildWatermarks | dao/ring.go:252 | one scan yields, for every miner, the same blocked nonce as the grouped subquery, absent when the subquery has no group |
| Pending.SelectLive | dao/ring.go:251-253 | the second scan keeps exactly the rows meeting the join condition against the watermark map, in table order |
| Pending.LiveMatchesPending | dao/ring.go:250-253 | with correct watermarks, the map-based join keeps the same rows as the relational one |
| Pending.PendingTxTwoPass | dao/ring.go:250-253 | the two-pass computation returns exactly the pending query's result |
| Lifecycle.ResolvingSupersedesLowerNonces | dao/ring.go:250-253 | once a result event marks an attempt mined or failed, no row of that miner at or below the attempt's nonce is reported pending |
| Lifecycle.ExampleOnlyNonceFourIsLive | dao/ring.go:250-253 | for a miner with nonces 1 failed, 2 pending, 3 mined, 4 pending, the query returns only the nonce-4 row |

## Left out

- The gorm and SQL plumbing: connections, the query text, `UNIX_TIMESTAMP`, and store errors other than a lookup finding no row. Queries are functions over the sequence, and the time columns are integers.
- Row insertion is not part of this file, so no operation adds rows; lemmas that add a row use sequence append.
- `ConvertDown` and `ConvertUp` are left out. Their hex and address conversions and `GenerateUniqueId` are calls into go-ethereum and relay-lib. Only the number encoding they use is modelled.
- Decimal.EmptyIsNoNumber: `ConvertUp` allocates each big integer and ignores the result of `SetString`, so a nil written as "" reads back as a non-nil big integer (in practice zero; Go leaves its value unspecified) rather than nil. The model states only that the parse fails.
- Decimal.ParseBase0: models `big.Int.SetString(s, 0)` without the `_` separators Go accepts between digits and after a base prefix.
- Decimal.SplitFraction: reads only the "a/b" form that `big.Rat.String` writes. It does not normalise, and it does not model `big.Rat.SetString` on other forms or on failure, where the Go result is unspecified.
- Nonces.GetSubmitterNonce: for a miner with no rows the model returns 0, the code's `len(nonce) == 0` branch. In SQL, `max` over no rows is NULL; how the ORM's pluck scans that NULL is library behaviour outside this file.
- String columns are compared by exact equality. A case-insensitive database collation is not modelled.
- The allocate-then-insert race between concurrent callers is not modelled. The code takes no lock, and every operation here is sequential.
- Logging and `println`, the error that `GetPendingTx` logs and drops, and the commented-out code at dao/ring.go:185-201, 231-234 and 256-281 are not modelled.
