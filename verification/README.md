# Rangefeed backfill scans, modelled in Dafny

This project models the two backfill scans of CockroachDB's rangefeed processor
(`pkg/storage/rangefeed/scan.go`) and proves properties about them.

- **`initResolvedTSScan`** walks a snapshot of the processor's whole span. It hands
  every intent (a metadata record carrying a transaction) to the processor as an
  `MVCCWriteIntentOp`. It then makes exactly one call: `setResolvedTSInitialized` if
  the walk completed, or `StopWithErr` if it failed.
- **`catchUpScan`** walks a registration's snapshot. It sends a `RangeFeedValue` for
  every version at or above the registration's starting timestamp, and for every
  inline value. It stops at the first failed send. It reports exactly one result to
  `deliverCatchUpScanRes`, for that registration only.
- **The `runnable` lifecycle.** A scan is either Run once or Cancelled once. Either way
  its snapshot is closed exactly once.

The model is pure and functional:

- `Snapshot.Iterate` is a fold over the entries a snapshot yields inside a span.
  - A visitor answers `Continue`, `Stop` or `Abort(err)`.
  - A `Fault(err)` entry stands for a failure of the iterator itself at that point.
  - The fold halts on the first `Stop`, `Abort` or `Fault` and visits nothing after it.
- Each scan's `Run` returns a `Report`: the trace of effects it produces, plus the
  number of key/values its visitor saw. The effects are processor entry points,
  stream sends and `Snapshot.Close`. "Called exactly once" becomes a count over that
  trace, and "closed by `defer`" becomes "Close is the last effect".
- Every scan result is stated against an independent reference:
  - `IntentOps` is "the intents of these entries".
  - `Emissions`, `Qualifies` and `EventOf` describe "the values this registration must
    receive".
  - `FirstHalt` is the position of the entry that ends the walk. It is characterised
    by quantifiers (no earlier entry halts; this one does).

Files: `prelude.dfy` (Option), `mvcc.dfy` (keys, spans, timestamps, records, ops,
events, errors), `snapshot.dfy` (the Iterate contract), `effects.dfy` (the effect
trace), `init_scan.dfy`, `catch_up_scan.dfy`, `runnable.dfy`, `scenarios.dfy`
(concrete walks).

Three details of the code shape the traces:
- On a failed scan the error is reported first (`StopWithErr` or
  `deliverCatchUpScanRes`). The snapshot is closed afterwards, by the deferred `Close`.
  In both traces, Close is the last effect.
- An inline metadata key has no version timestamp. Its event therefore carries the
  metadata key's empty timestamp (`Zero`): the code sends `kv.Key.Timestamp`.
- The catch-up scan decides on a version by its timestamp alone. The provisional
  value an intent wrote is sent like a committed one, although the comment on
  `catchUpScan` (scan.go:109-112) speaks of committed values
  (`Scenarios.CatchUpSendsProvisionalValue`).

## Model

| member | source | states |
|---|---|---|
| `Mvcc.LessIsStrictTotalOrder` | pkg/storage/rangefeed/scan.go:157 | Timestamp order is a strict total order, so a version that is not below the start timestamp is equal to it or above it |
| `Snapshot.Visible` | pkg/storage/rangefeed/scan.go:31-36 | a walk from start to end key reaches only key/values inside the span, reaches every in-span key/value and every iterator failure, and nothing the snapshot does not hold |
| `Snapshot.VisibleSingle` | pkg/storage/rangefeed/scan.go:31-32 | a walk over one entry reaches it exactly when it is a failure or a key/value inside the span |
| `Snapshot.VisibleAppend` | pkg/storage/rangefeed/scan.go:31-32 | the walk over two runs of entries is the walk over the first then the walk over the second, so it keeps the snapshot's order and each entry's multiplicity |
| `Snapshot.Fold` | pkg/storage/rangefeed/scan.go:31-36 | the visitor sees no more key/values than the walk reaches |
| `Snapshot.Iterate` | pkg/storage/rangefeed/scan.go:36 | no contract of its own: the walk over the entries reached between the start and end key; `FoldVisitsAll` and the `Fold*First` lemmas state its rules |
| `Snapshot.FoldVisitsAll` | pkg/storage/rangefeed/scan.go:31-35 | with no failure and a visitor that never stops or errs, every key/value is visited and the error is nil |
| `Snapshot.FoldFaultsFirst` | pkg/storage/rangefeed/scan.go:33-34 | an iterator failure ends the walk with that error |
| `Snapshot.FoldAbortsFirst` | pkg/storage/rangefeed/scan.go:33-34 | a visitor error ends the walk with that error, after that one visit |
| `Snapshot.FoldContinuesFirst` | pkg/storage/rangefeed/scan.go:31-36 | after a (false, nil) answer the walk goes on to the next entry |
| `Snapshot.FoldStopsFirst` | pkg/storage/rangefeed/scan.go:34-35 | a (true, nil) answer ends the walk after that one visit, with a nil error |
| `InitScan.Visit` | pkg/storage/rangefeed/scan.go:76-94 | the visitor never requests a stop; it fails exactly on metadata that does not unmarshal, with an error wrapped as an unmarshal failure; otherwise it adds one write-intent op exactly when the metadata carries a transaction |
| `InitScan.FirstHalt` | pkg/storage/rangefeed/scan.go:79-80 | locates the first iterator failure or undecodable metadata record: no entry before it is one, and it is one unless it is the end |
| `InitScan.IntentOpsExtend` | pkg/storage/rangefeed/scan.go:83-91 | each entry contributes exactly its own op, right after the ops of the entries before it (one op per intent, in iteration order) |
| `InitScan.IntentOpsComplete` | pkg/storage/rangefeed/scan.go:83-91 | every intent among the entries yields a write-intent op with its transaction's ID, key and timestamp |
| `InitScan.IntentOpsSound` | pkg/storage/rangefeed/scan.go:83-91 | every op reported comes from an intent among the entries; value records and metadata without a transaction yield none |
| `InitScan.FoldSpec` | pkg/storage/rangefeed/scan.go:76-94 | the walk equals the closed form `Predicted`: it reports the intents before the first failing entry, visits no key/value after it, and returns its error; with no failure it reports all intents and returns nil |
| `InitScan.Run` | pkg/storage/rangefeed/scan.go:71-104 | no contract of its own: the walk, one signal, then the deferred Close; `InitScan.RunSpec` and `InitScan.ExclusiveOutcome` state what it yields |
| `InitScan.RunSpec` | pkg/storage/rangefeed/scan.go:71-104 | Run yields the ops, then StopWithErr with the error wrapped as an initial-scan failure when a failure was reached, otherwise setResolvedTSInitialized, then Close |
| `InitScan.ExclusiveOutcome` | pkg/storage/rangefeed/scan.go:96-103 | exactly one of setResolvedTSInitialized and StopWithErr is called, after all ops. setResolvedTSInitialized is chosen exactly when no failure is reachable in the span. The snapshot is closed exactly once, last. No stream or delivery call is made |
| `InitScan.IntentCompleteness` | pkg/storage/rangefeed/scan.go:76-103 | when the resolved timestamp is initialized, every intent inside the processor's span has already been handed to ConsumeLogicalOps |
| `InitScan.IntentSoundness` | pkg/storage/rangefeed/scan.go:83-91 | every op handed to the processor, on any outcome, is the write-intent op of an intent inside the span |
| `CatchUpScan.Classify` | pkg/storage/rangefeed/scan.go:143-160 | no contract of its own: the per-record decision (reject, skip or emit); `CatchUpScan.ClassifyAgrees`, `CatchUpScan.StartTimestampFilter` and `CatchUpScan.MetadataHandling` state it |
| `CatchUpScan.Visit` | pkg/storage/rangefeed/scan.go:142-171 | the visitor never requests a stop; it attempts one send exactly for a qualifying record, and it fails exactly on undecodable metadata or a failed send |
| `CatchUpScan.StartTimestampFilter` | pkg/storage/rangefeed/scan.go:157-169 | a version is sent exactly when its timestamp is at or above the start timestamp (equality included), with key, bytes and timestamp unchanged; one below it is skipped |
| `CatchUpScan.MetadataHandling` | pkg/storage/rangefeed/scan.go:148-156 | decoded metadata is sent exactly when inline, with its raw bytes and whatever the start timestamp; non-inline metadata, even an intent, is skipped |
| `CatchUpScan.ClassifyAgrees` | pkg/storage/rangefeed/scan.go:143-169 | the visitor's per-record decision sends exactly the qualifying records, as their RangeFeedValue, and rejects exactly undecodable metadata |
| `CatchUpScan.EmissionsExtend` | pkg/storage/rangefeed/scan.go:162-170 | each entry contributes exactly its own event, right after the events of the entries before it |
| `CatchUpScan.EmissionsComplete` | pkg/storage/rangefeed/scan.go:142-171 | every qualifying record among the entries has its event among the emissions |
| `CatchUpScan.EmissionsSound` | pkg/storage/rangefeed/scan.go:142-171 | every emitted event is the event of a qualifying record among the entries |
| `CatchUpScan.FirstHalt` | pkg/storage/rangefeed/scan.go:145-170 | locates the entry that ends the walk: an iterator failure, undecodable metadata, or a record whose send fails; no earlier entry does |
| `CatchUpScan.FoldRejectsFirst` | pkg/storage/rangefeed/scan.go:145-146 | undecodable metadata ends the walk at that record with the decode error, before any send |
| `CatchUpScan.FoldSendFailsFirst` | pkg/storage/rangefeed/scan.go:170 | a failed send ends the walk at that record with the stream's error |
| `CatchUpScan.FoldHaltsFirst` | pkg/storage/rangefeed/scan.go:142-171 | a walk ended by its first entry attempts only that entry's send and returns its error |
| `CatchUpScan.FoldPassesFirst` | pkg/storage/rangefeed/scan.go:142-171 | a first entry that does not end the walk is a readable record whose send, if any, succeeded |
| `CatchUpScan.FoldSpec` | pkg/storage/rangefeed/scan.go:142-171 | the walk equals the closed form `Predicted`: it attempts the sends of the entries before the halting one, plus the halting send. It visits no key/value after the halting entry and returns its error. With no halt it sends everything and returns nil |
| `CatchUpScan.Run` | pkg/storage/rangefeed/scan.go:137-180 | no contract of its own: the walk, one deliverCatchUpScanRes, then the deferred Close; `CatchUpScan.RunSpec` and `CatchUpScan.IsolatedOutcome` state what it yields |
| `CatchUpScan.RunSpec` | pkg/storage/rangefeed/scan.go:137-180 | Run yields the attempted sends, then one deliverCatchUpScanRes for the registration (nil, or the error wrapped as a catch-up failure), then Close |
| `CatchUpScan.NoHaltIff` | pkg/storage/rangefeed/scan.go:142-171 | no entry ends the walk exactly when every entry is readable and the stream accepts every send |
| `CatchUpScan.SucceedsIff` | pkg/storage/rangefeed/scan.go:173-179 | the result is nil exactly when every entry in the span is readable and every send succeeds; then exactly the span's qualifying events were sent, in order |
| `CatchUpScan.IsolatedOutcome` | pkg/storage/rangefeed/scan.go:137-180 | deliverCatchUpScanRes is called exactly once, for this registration. Every send goes to this registration. StopWithErr, ConsumeLogicalOps and setResolvedTSInitialized are never called. The snapshot is closed exactly once, last |
| `CatchUpScan.Completeness` | pkg/storage/rangefeed/scan.go:157-170 | on success, every version at or above the start timestamp and every inline value inside the span has been sent as its RangeFeedValue |
| `CatchUpScan.Soundness` | pkg/storage/rangefeed/scan.go:148-170 | on any outcome, every event sent is the RangeFeedValue of a qualifying record inside the span |
| `Runnable.MakeInitResolvedTSScan` | pkg/storage/rangefeed/scan.go:67-69 | no contract of its own: a fresh task that owns the snapshot it is given |
| `Runnable.MakeCatchUpScan` | pkg/storage/rangefeed/scan.go:131-135 | the snapshot moves from the registration into the task; the registration is left without one and otherwise unchanged |
| `Runnable.Perform` | pkg/storage/rangefeed/scan.go:41-47 | Run or Cancel on an unused task closes the snapshot exactly once, as the last effect. Cancel does nothing else. Run on an initial scan makes exactly one processor signal. Run on a catch-up scan makes exactly one delivery and no stop |
| `Runnable.Drive` | pkg/storage/rangefeed/scan.go:41-47 | no contract of its own: a sequence of Run/Cancel calls on one task, None once a call reaches a used task; `Runnable.Lifecycle` states its rules |
| `Runnable.Lifecycle` | pkg/storage/rangefeed/scan.go:41-47 | on a fresh task, a call sequence is legal exactly when it holds at most one call, and the snapshot is closed once per call; the lifecycle is complete (legal, snapshot closed exactly once) exactly when there is one call, since no call at all leaves the snapshot open |
| `Scenarios.InitOneIntent` | pkg/storage/rangefeed/scan.go:83-102 | one intent yields its op and then the resolved-timestamp signal |
| `Scenarios.InitCorruptStops` | pkg/storage/rangefeed/scan.go:79-99 | undecodable metadata stops the processor, and the intent after it is never reached |
| `Scenarios.CatchUpSkipsOldVersions` | pkg/storage/rangefeed/scan.go:157-170 | with start timestamp 10, the version at 5 is skipped and the one at 15 is sent |
| `Scenarios.CatchUpSendsInline` | pkg/storage/rangefeed/scan.go:148-156 | an inline value is sent under a start timestamp of 100 |
| `Scenarios.CatchUpSendsProvisionalValue` | pkg/storage/rangefeed/scan.go:147-170 | an intent's metadata is skipped, and its provisional version above the start timestamp is sent |
| `Scenarios.CatchUpStopsOnFailedSend` | pkg/storage/rangefeed/scan.go:170-176 | a failure on the second send ends the scan with that error; the third record is never visited |

## Left out

- Protobuf decoding (`protoutil.Unmarshal`) is not modelled. A metadata record carries
  its decode outcome as a tag: `Parsed(meta)` or `Malformed(reason)`. Each record is
  decoded on its own: the reuse of one `meta` variable across records is not modelled.
- The byte encoding behind `Key.IsValue` is not modelled; a record tag says whether a
  record is metadata or a version. `MVCCMetadata.IsInline` is defined outside this file
  and is a flag of the decoded metadata.
- `AsRawSpanWithNoLocals` is not modelled; the processor's span is taken as given.
- `log.Error`, the `%v` rendering of the key/value in the unmarshal error, and the
  `roachpb.NewError` wrapper are not modelled. Errors keep the wrap context strings and
  their cause.
- `context.Context` is not modelled; no scan consults it.
- The real storage iterator, `TimeBoundIterator` and its minimum timestamp are not
  modelled. The snapshot contracts (see every intent, see every version above the start
  timestamp) are obligations on the caller. A snapshot is just the entries it yields,
  and the model assumes no ordering among versions of one key.
- Processor internals are not modelled: intent queue, resolved-timestamp computation,
  and what `deliverCatchUpScanRes` does with a result. Stream buffering is not modelled
  either. Each processor entry point and stream send is a recorded effect.
- The stream's Send is an oracle: the n-th send returns `sendResults[n]`, and nil past
  the end.
- Timestamps use unbounded integers. Only comparisons happen, so the 64-bit wall time
  and 32-bit logical counter never matter.
- An iterator failure carries no key. `Visible` keeps every `Fault` entry whatever the
  span, so a storage failure anywhere in the snapshot ends every walk over it; where
  the real iterator would fail relative to the span is not modelled.
- Asynchronous scheduling and concurrency between scans are not modelled; each scan is
  a sequential function.
- `Runnable.MakeCatchUpScan` requires a registration that still holds its catch-up
  snapshot. With a nil snapshot the scan would fault when run, and that case is not
  modelled.
