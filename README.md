# Deal observer: actor-event fetching and payload-CID backfill

This project models two parts of the deal observer backend in Dafny:

- **The RPC service.** `backend/lib/rpc-service/service.js` builds the
  actor-event filter for one block height and one event type. It fetches
  the raw actor events from a Filecoin node and validates every one against
  its schema. It turns each `claim` event into a block event that carries
  the emitting height and the emitter, and drops events of unknown kinds.
  It also builds the `Filecoin.StateMinerInfo` parameters for a miner and
  makes a best-effort peer-id lookup.
- **The piece indexer.** `backend/lib/piece-indexer.js` selects the oldest
  active deals that have no payload CID, bounded by a limit. It asks a
  resolver for the payload CID of each one, in order. For every truthy
  answer it writes the CID into the `active_deals` table through the
  deal's nine-column natural key.

Module layout:

- `wrappers.dfy` holds `Option`, `Result` and `Outcome`. A thrown exception
  becomes a `Failure`/`Fail`; JavaScript's `null`/`undefined` becomes `None`.
- `rpc_service.dfy` (module `RpcService`) is pure and is written as
  functions and lemmas. The two loops of `getActorEvents` are also written
  as methods. Each method is proved equal to the function that specifies it.
- `piece_indexer.dfy` (module `PieceIndexer`) models the table as a class,
  `DealStore`, whose field `rows` is a `seq` of deals. The SELECT and the
  UPDATE are methods on that class. Either statement may fail at any time,
  so the model picks the outcome nondeterministically. The backfill loop is
  a method with loop invariants, proved against the specification function
  `ApplyBatch`. The properties of a whole pass are lemmas about
  `ApplyBatch` and `OldestWithNoPayloadCid`.

Outside code is passed in as function values. This covers:

- the node's `Filecoin.GetActorEventsRaw` and `Filecoin.StateMinerInfo`
  replies;
- the typebox schemas for raw events, claim events and block events;
- `rawEventEntriesToEvent`;
- the CBOR encoder and the padded base64 encoder;
- the payload-CID resolver.

The properties hold for every such function. Where a property needs
something of the outside code, the lemma states that as a `requires`: for
example, `FilterIdentifiesHeightAndType` requires injective encoders.

Notes on the code:

- The indexer's test imports `countStoredActiveDealsWithMissingPayloadCid`,
  but `backend/lib/piece-indexer.js` does not define it. The model uses
  `CountMissingPayloadCid`, the size of the `payload_cid IS NULL` selection.
- `indexPieces` tests the fetched array for truthiness. An array is always
  truthy, so an empty batch still enters `updatePayloadCids` and does
  nothing. The model has no separate guard.
- The lookup of a miner's peer id returns `undefined` when the call throws,
  and also when the reply is `null`: reading `PeerId` of `null` throws, and
  the same `catch` handles it. `GetMinerPeerId` maps both cases to `None`.

## Model

| member | source | states |
|---|---|---|
| `RpcService.ActorEventsFilter` | backend/lib/rpc-service/service.js:95-106 | the filter covers exactly the one given height; its only field is `$type`, holding exactly one matcher with codec 81 (CBOR) whose value is the padded base64 of the CBOR encoding of the type name |
| `RpcService.FilterIdentifiesHeightAndType` | backend/lib/rpc-service/service.js:95-106 | with injective encoders, two filters are equal if and only if they were built from the same height and the same event type |
| `RpcService.ParseRawEvents` | backend/lib/rpc-service/service.js:40 | validation succeeds if and only if every raw event parses; then the output has one parsed event per raw event, in order; otherwise the error names the first raw event that does not parse |
| `RpcService.DispatchEvent` | backend/lib/rpc-service/service.js:44-63 | a non-claim event adds nothing; a claim that passes both schemas adds exactly its block event; a claim that fails either schema is an error at its own index |
| `RpcService.ClaimIndices` | backend/lib/rpc-service/service.js:47-48 | the positions of the claim events: strictly increasing, each one a claim, and every claim position present |
| `RpcService.ActorEvents` | backend/lib/rpc-service/service.js:33-66 | an RPC failure propagates; a null or empty reply gives an empty list; any raw event that fails its schema makes the whole call fail with a raw-event error |
| `RpcService.EmitClaimsFailurePersists` | backend/lib/rpc-service/service.js:43-64 | once dispatching a prefix of the events has thrown, dispatching any longer prefix throws the same error |
| `RpcService.EmitClaimsCharacterization` | backend/lib/rpc-service/service.js:42-65 | dispatch succeeds if and only if every claim event passes its schemas; then the output is one block event per claim, in the node's order, each built from its own raw event; otherwise the error names the first claim that fails, and every earlier claim passes |
| `RpcService.ActorEventsAreClaimSubsequence` | backend/lib/rpc-service/service.js:33-66 | a successful call returns one block event per claim event and none for other kinds, in the node's order, each with its raw event's height and emitter and the claim payload its schema produced |
| `RpcService.ActorEventsRejectBadClaim` | backend/lib/rpc-service/service.js:48-56 | a single claim event whose payload or block-event schema fails makes the whole call fail |
| `RpcService.GetActorEvents` | backend/lib/rpc-service/service.js:33-66 | the two-loop implementation returns exactly what `ActorEvents` specifies for the node's reply to this filter |
| `RpcService.ValidateRawEvents` | backend/lib/rpc-service/service.js:40 | the validation loop computes `ParseRawEvents`: it stops at the first invalid raw event |
| `RpcService.EmitClaims` | backend/lib/rpc-service/service.js:42-65 | the dispatch loop emits at most one block event per event and fails only on a claim event, naming its position; `EmitClaimsCharacterization` gives its full meaning |
| `RpcService.DispatchEvents` | backend/lib/rpc-service/service.js:42-65 | the dispatch loop, with its `continue` and its default branch, computes `EmitClaims` |
| `RpcService.NatToDecimal` | backend/lib/rpc-service/service.js:114 | a non-negative integer's text is a non-empty string of decimal digits without a leading zero |
| `RpcService.DecimalRoundTrip` | backend/lib/rpc-service/service.js:114 | the digits of `n`, read back, are `n` |
| `RpcService.IntStringRoundTrip` | backend/lib/rpc-service/service.js:114 | an integer's `toString` text, with a minus sign for a negative value, reads back as that integer |
| `RpcService.IntToString` | backend/lib/rpc-service/service.js:114 | `minerId.toString()` on an integer: for a non-negative value, decimal digits without a leading zero; for a negative one, a minus sign and then such digits, the first of them not `0` |
| `RpcService.MinerInfoParameters` | backend/lib/rpc-service/service.js:112-117 | exactly two parameters: the ID address `f0` followed by exactly the miner id's `toString` text, which reads back as the miner id, so distinct miners get distinct addresses; and then null |
| `RpcService.GetMinerPeerId` | backend/lib/rpc-service/service.js:81-89 | the lookup calls `Filecoin.StateMinerInfo` with the miner's parameters; a failing call or a null reply gives no peer id and is not propagated; any other reply gives its `PeerId` |
| `PieceIndexer.CountMissingPayloadCid` | backend/test/piece-indexer.test.js:67-79 | the count of rows without a payload CID is at most the number of rows, and zero exactly when every row has one; `FullPassCount` and `IndexerTestCounts` give its value after a pass |
| `PieceIndexer.Filter` | backend/lib/piece-indexer.js:45 | a `WHERE` selection: every row kept satisfies the predicate, and each satisfying row is kept exactly as often as it occurs in the table |
| `PieceIndexer.InsertByEpoch` | backend/lib/piece-indexer.js:45 | inserting into an epoch-sorted list keeps it sorted and adds exactly the one deal |
| `PieceIndexer.SortByEpoch` | backend/lib/piece-indexer.js:45 | `ORDER BY activated_at_epoch ASC`: the result is sorted by epoch and is a permutation of its input |
| `PieceIndexer.OldestWithNoPayloadCid` | backend/lib/piece-indexer.js:44-47 | the batch has `min(maxDeals, rows without payload)` rows; every one lacks a payload CID, they are in ascending epoch order, and they are drawn from the table |
| `PieceIndexer.BatchIsOldestPrefix` | backend/lib/piece-indexer.js:45 | the batch and the rows the limit leaves out together are exactly the rows without a payload CID; no row left out is older than a selected row; rows are left out only when the batch is full |
| `PieceIndexer.ResolvedCid` | backend/lib/piece-indexer.js:17-18 | a resolver answer counts if and only if it is present and non-empty (JavaScript truthiness); a counted answer is the resolver's own |
| `PieceIndexer.SetPayloadWhere` | backend/lib/piece-indexer.js:55-59 | the UPDATE sets the payload of every row with the given natural key; it changes no other row, and no key column of any row |
| `PieceIndexer.ApplyBatch` | backend/lib/piece-indexer.js:15-22 | a run over a batch keeps the number of rows and every row's natural key |
| `PieceIndexer.Lookups` | backend/lib/piece-indexer.js:16-17 | a run asks the resolver once per deal of the batch, in order, with that deal's miner id and piece CID |
| `PieceIndexer.ApplyBatchAt` | backend/lib/piece-indexer.js:15-22 | closed form of a run: a row gets its resolved CID exactly when some deal of the batch shares its natural key and the resolver has a truthy answer for it; otherwise the row is unchanged |
| `PieceIndexer.FullBatchHoldsEveryMissingRow` | backend/lib/piece-indexer.js:44-47 | with a limit at least the number of rows without a payload CID, every such row's key is in the batch |
| `PieceIndexer.FullPassLeavesUnresolvable` | backend/lib/piece-indexer.js:15-22 | after a pass whose limit covers every row without a payload CID, a row lacks a payload CID if and only if it lacked one before and the resolver has nothing for it |
| `PieceIndexer.FullPassCount` | backend/test/piece-indexer.test.js:61-64 | after such a pass, the count of missing payload CIDs equals the number of rows the resolver cannot resolve |
| `PieceIndexer.SecondPassChangesNothing` | backend/lib/piece-indexer.js:32-37 | idempotence: after a full pass, a second pass with the same resolver and limit leaves the table unchanged |
| `PieceIndexer.ResolvedRowsUntouched` | backend/lib/piece-indexer.js:54-59 | when natural keys are unique, a pass never changes a row that already has a payload CID |
| `PieceIndexer.IndexerTestCounts` | backend/test/piece-indexer.test.js:55-79 | the test's numbers follow: 336 rows without a payload CID, 85 of them unresolvable, and a limit of 10000 give 336 resolver calls, 85 rows still missing afterwards, and 251 resolved in a table of 336 rows; the 336 calls are calls of the payload resolver, one per deal |
| `PieceIndexer.DealStore.SelectWithNoPayloadCid` | backend/lib/piece-indexer.js:45-46 | a successful SELECT returns exactly the oldest-first batch of the current table |
| `PieceIndexer.DealStore.UpdatePayloadCid` | backend/lib/piece-indexer.js:55-72 | a successful UPDATE leaves the table as `SetPayloadWhere` says; a failed one leaves it unchanged |
| `PieceIndexer.FetchDealsWithNoPayloadCid` | backend/lib/piece-indexer.js:44-47 | on success it returns the oldest-first batch: at most `maxDeals` rows, sorted, all without a payload CID, drawn from the table, and all such rows when the limit allows; a query failure propagates |
| `PieceIndexer.UpdatePayloadInActiveDeal` | backend/lib/piece-indexer.js:54-76 | on success the deal's payload CID is written through its natural key; on failure the table is unchanged and the error wraps the deal |
| `PieceIndexer.UpdatePayloadCids` | backend/lib/piece-indexer.js:15-22 | a complete run leaves the table as `ApplyBatch` says and makes exactly the `Lookups` calls; a failed update stops at that deal, keeps the earlier updates and reports the deal with its new CID |
| `PieceIndexer.IndexPieces` | backend/lib/piece-indexer.js:32-37 | one pass: a failed selection changes nothing and calls no resolver; otherwise the table and the resolver calls are those of a run over the selected batch, or of a prefix of it when an update fails; an update fails only for a deal with a truthy resolver answer, and the error reports that deal with its new CID |

## Left out

- `rpcRequest` (service.js:17-27) is left out: the HTTP POST, its 60-second timeouts and the dag-json decoding of the reply are I/O. Each RPC method is passed in as a function from its parameters to a `Result`.
- `getChainHead` (service.js:72-74) is left out: it only forwards to the RPC caller.
- The typebox schemas (`data-types.js`) and `rawEventEntriesToEvent` (`utils.js`) are not part of this model. They are passed in as `EventCodec`. A schema parse is modelled as a check that yields the typed value. `Value.Parse`'s default-filling and conversion of the block event is not modelled: the model keeps the block event it built. `rawEventEntriesToEvent` is a total function in the model: an entry whose value does not decode, which makes the original throw, is not modelled.
- The byte layouts of dag-cbor and padded base64 are left out. The encoders are passed in, and only their injectivity is assumed, in one lemma.
- Reverted events are neither detected nor filtered (service.js:39 marks this as unimplemented). The model passes them through unchanged, as the code does.
- Console logging of empty replies, unknown event types and failed peer-id lookups is left out.
- `RpcService.IntToString`: follows `Number.prototype.toString` only for integers of magnitude at most 2^53 (`Number.MAX_SAFE_INTEGER`). Larger magnitudes are not modelled. There JavaScript prints the shortest digits that read back as the same double, padded with zeros, and from 10^21 on it prints exponent notation. Non-integers are not modelled either.
- `fetchPayloadCid` (pix-service) and `loadDeals` (deal-observer.js) are not part of this model. The resolver is a total function from a miner id and a piece CID to an optional CID. A resolver that throws is not modelled. `loadDeals` is modelled as returning the selected rows unchanged. The test counts calls of the `makePixRequest` function it passes in, while the model counts resolver calls; `IndexerTestCounts` matches the test's 336 only if `fetchPayloadCid` makes exactly one `makePixRequest` call per deal, which code outside this model decides.
- The SQL text, query parameter binding and the connection pool are left out. The table is a sequence of rows, and a failing statement is a nondeterministic failure that changes nothing.
- `PieceIndexer.SortByEpoch`: fixes a stable order among deals of equal activation epoch; SQL leaves that order unspecified, so the model pins down one admissible order.
- `PieceIndexer.FetchDealsWithNoPayloadCid`: `maxDeals` is a natural number. A negative `LIMIT`, which PostgreSQL rejects, and a non-integer one are not modelled.
- `updatePayloadCids` assigns the found CID into the caller's deal object (piece-indexer.js:19). The model writes it into a copy of the deal that is passed to the update, so that aliasing of the caller's array is not modelled.
- `PieceIndexer.ResolvedRowsUntouched`: holds only when natural keys are unique. With duplicate keys, the UPDATE also overwrites rows that already have a payload CID, just as the SQL does.
- Concurrency between the observer loop and the indexer loop, `async` scheduling, and the API server in `api/bin/deal-observer-api.js` are left out.
