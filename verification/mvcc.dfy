/**
 * The MVCC data shapes the rangefeed scans consume and produce: keys and
 * spans, hybrid-logical-clock timestamps, the records a snapshot yields,
 * the logical operations handed to the processor, the events sent to a
 * registration's stream, and the errors that end a scan.
 */
module Mvcc {
  import opened Prelude

  newtype byte = b: int | 0 <= b < 256

  type Bytes = seq<byte>

  type Key = Bytes

  /** A transaction identifier (a UUID, kept as its bytes). */
  type TxnId = Bytes

  /**
   * An hlc.Timestamp: a wall-clock reading and a logical counter. Only
   * comparisons are used here, so the 64/32-bit widths play no role.
   */
  datatype Timestamp = Timestamp(wallTime: int, logical: int)

  /** The empty timestamp; metadata keys carry it (they are not versions). */
  const Zero := Timestamp(0, 0)

  /** hlc.Timestamp.Less: lexicographic on (wallTime, logical). */
  predicate Less(t: Timestamp, s: Timestamp) {
    t.wallTime < s.wallTime || (t.wallTime == s.wallTime && t.logical < s.logical)
  }

  /** Less is a strict total order, so "not below" means "equal or above". */
  lemma LessIsStrictTotalOrder(t: Timestamp, s: Timestamp, u: Timestamp)
    ensures !Less(t, t)
    ensures Less(t, s) && Less(s, u) ==> Less(t, u)
    ensures t == s || Less(t, s) || Less(s, t)
    ensures !Less(t, s) <==> (t == s || Less(s, t))
  {
  }

  /** bytes.Compare(a, b) < 0: unsigned lexicographic order on byte strings. */
  predicate KeyLess(a: Key, b: Key)
    decreases |a|
  {
    if |a| == 0 then |b| > 0
    else if |b| == 0 then false
    else if a[0] != b[0] then a[0] < b[0]
    else KeyLess(a[1..], b[1..])
  }

  /** A half-open key range [key, endKey). */
  datatype Span = Span(key: Key, endKey: Key) {
    predicate ContainsKey(k: Key) {
      !KeyLess(k, key) && KeyLess(k, endKey)
    }
  }

  /** The transaction descriptor stored in an intent's metadata. */
  datatype TxnMeta = TxnMeta(id: TxnId, key: Key, timestamp: Timestamp)

  /**
   * A decoded enginepb.MVCCMetadata. `txn` is non-nil exactly for an
   * unresolved intent; `inline` is MVCCMetadata.IsInline, in which case
   * `rawBytes` holds the (unversioned) value itself.
   */
  datatype MvccMetadata = MvccMetadata(txn: Option<TxnMeta>, inline: bool, rawBytes: Bytes)

  /** The outcome of unmarshaling a metadata record's value. */
  datatype Decoded = Parsed(meta: MvccMetadata) | Malformed(reason: nat)

  /**
   * One engine.MVCCKeyValue as a snapshot yields it. A key without a
   * timestamp is a metadata key (Key.IsValue is false); a key with one is a
   * committed or provisional version.
   */
  datatype Record =
    | MetaRecord(key: Key, decoded: Decoded)
    | ValueRecord(key: Key, timestamp: Timestamp, value: Bytes)

  /** enginepb.MVCCLogicalOp; the write-intent variant is the only one built here. */
  datatype LogicalOp = WriteIntentOp(txnId: TxnId, txnKey: Key, timestamp: Timestamp)

  /** roachpb.Value: raw bytes stamped with a timestamp. */
  datatype Value = Value(rawBytes: Bytes, timestamp: Timestamp)

  /** roachpb.RangeFeedEvent; the value variant is the only one built here. */
  datatype RangeFeedEvent = RangeFeedValue(key: Key, value: Value)

  /**
   * The errors that end a scan. `Wrapped` is errors.Wrap: a fixed context
   * string in front of its cause.
   */
  datatype Error =
    | Undecodable(key: Key, reason: nat)
    | StorageFault(code: nat)
    | StreamFault(code: nat)
    | Wrapped(context: string, cause: Error)

  const UnmarshalContext := "unmarshaling mvcc meta"
  const InitScanContext := "initial resolved timestamp scan failed"
  const CatchUpContext := "catch-up scan failed"

  /** A metadata record whose value failed to unmarshal. */
  predicate Corrupt(r: Record) {
    r.MetaRecord? && r.decoded.Malformed?
  }

  /** The error a visitor returns for a metadata record it cannot unmarshal. */
  function DecodeError(r: Record): Error
    requires Corrupt(r)
  {
    Wrapped(UnmarshalContext, Undecodable(r.key, r.decoded.reason))
  }
}
