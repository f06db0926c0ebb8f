/**
 * The narrow surfaces a scan acts on, recorded as a trace of effects: the
 * processor's entry points (ConsumeLogicalOps, setResolvedTSInitialized,
 * StopWithErr, deliverCatchUpScanRes), a registration's stream.Send, and
 * Snapshot.Close. A scan's Run is modelled as the trace it produces.
 */
module Effects {
  import opened Prelude
  import opened Mvcc

  /** The identity of a registration, standing for the *registration handed back to the processor. */
  type RegId = nat

  /** The processor as far as the scans see it: the span it serves. */
  datatype Processor = Processor(span: Span)

  datatype Effect =
    | ConsumeLogicalOps(op: LogicalOp)
    | SetResolvedTSInitialized
    | StopWithErr(err: Error)
    | StreamSend(reg: RegId, event: RangeFeedEvent)
    | DeliverCatchUpScanRes(reg: RegId, res: Option<Error>)
    | SnapshotClose

  datatype Kind = ConsumeKind | InitializedKind | StopKind | SendKind | DeliverKind | CloseKind

  function KindOf(e: Effect): Kind {
    match e
    case ConsumeLogicalOps(_) => ConsumeKind
    case SetResolvedTSInitialized => InitializedKind
    case StopWithErr(_) => StopKind
    case StreamSend(_, _) => SendKind
    case DeliverCatchUpScanRes(_, _) => DeliverKind
    case SnapshotClose => CloseKind
  }

  /** How many effects of a kind a trace holds. */
  function Tally(t: seq<Effect>, k: Kind): (n: nat)
    ensures n <= |t|
  {
    if |t| == 0 then 0 else (if KindOf(t[0]) == k then 1 else 0) + Tally(t[1..], k)
  }

  lemma {:induction false} TallyAppend(a: seq<Effect>, b: seq<Effect>, k: Kind)
    ensures Tally(a + b, k) == Tally(a, k) + Tally(b, k)
    decreases |a|
  {
    if |a| == 0 {
      assert a + b == b;
    } else {
      assert (a + b)[1..] == a[1..] + b;
      TallyAppend(a[1..], b, k);
    }
  }

  /** A trace made only of effects of kind k holds |t| of them and none of any other kind. */
  lemma {:induction false} TallyUniform(t: seq<Effect>, k: Kind, k': Kind)
    requires forall i :: 0 <= i < |t| ==> KindOf(t[i]) == k
    ensures Tally(t, k) == |t|
    ensures k' != k ==> Tally(t, k') == 0
    decreases |t|
  {
    if |t| > 0 {
      assert KindOf(t[0]) == k;
      assert forall i :: 0 <= i < |t[1..]| ==> t[1..][i] == t[i + 1];
      TallyUniform(t[1..], k, k');
    }
  }

  /** The outcome of running a scan: the effects in order, and how many key/values its visitor saw. */
  datatype Report = Report(effects: seq<Effect>, visited: nat)
}
