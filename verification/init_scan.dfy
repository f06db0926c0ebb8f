/**
 * initResolvedTSScan: walks a snapshot of the processor's whole span and
 * hands every intent it finds to the processor as a write-intent logical
 * op, so that the processor tracks all intents written before it was hooked
 * up to the live op stream. A complete walk lets the processor initialize
 * its resolved timestamp; any failure stops the processor.
 */
module InitScan {
  import opened Prelude
  import opened Mvcc
  import opened Snapshot
  import opened Effects

  /** A metadata record that decodes to an intent, i.e. carries a transaction. */
  predicate IsIntent(r: Record) {
    r.MetaRecord? && r.decoded.Parsed? && r.decoded.meta.txn.Some?
  }

  /** The MVCCWriteIntentOp built from an intent's transaction descriptor. */
  function IntentOp(r: Record): LogicalOp
    requires IsIntent(r)
  {
    var txn := r.decoded.meta.txn.value;
    WriteIntentOp(txn.id, txn.key, txn.timestamp)
  }

  /** What the processor is told about one entry of the walk. */
  function EntryOps(e: Entry): seq<Effect> {
    if e.Kv? && IsIntent(e.rec) then [ConsumeLogicalOps(IntentOp(e.rec))] else []
  }

  /**
   * The visitor: its state is the trace of ConsumeLogicalOps calls made so
   * far. It never asks to stop, fails exactly on a metadata record that does
   * not unmarshal, and otherwise reports one write-intent op exactly for an
   * intent.
   */
  function Visit(t: seq<Effect>, r: Record): (res: (seq<Effect>, Verdict))
    ensures res.1 != Stop
    ensures res.1.Abort? <==> Corrupt(r)
    ensures res.1.Abort? ==> res.0 == t && res.1.err.Wrapped? && res.1.err.context == UnmarshalContext
    ensures res.1.Continue? ==> res.0 == t + EntryOps(Kv(r))
    ensures |res.0| == |t| + (if IsIntent(r) then 1 else 0)
  {
    match r
    case ValueRecord(_, _, _) => (t, Continue)
    case MetaRecord(_, d) =>
      match d
      case Malformed(_) => (t, Abort(DecodeError(r)))
      case Parsed(meta) =>
        if meta.txn.Some? then
          var txn := meta.txn.value;
          (t + [ConsumeLogicalOps(WriteIntentOp(txn.id, txn.key, txn.timestamp))], Continue)
        else (t, Continue)
  }

  /**
   * Reference definition of "the intents of a sequence of entries": one
   * ConsumeLogicalOps per intent, in the order the intents occur.
   */
  function IntentOps(vs: seq<Entry>): seq<Effect> {
    if |vs| == 0 then [] else EntryOps(vs[0]) + IntentOps(vs[1..])
  }

  /** The position of the first unreadable entry, or |vs| when there is none. */
  function FirstHalt(vs: seq<Entry>): (k: nat)
    ensures k <= |vs|
    ensures forall i :: 0 <= i < k ==> !Unreadable(vs[i])
    ensures k < |vs| ==> Unreadable(vs[k])
  {
    if |vs| == 0 then 0 else if Unreadable(vs[0]) then 0 else 1 + FirstHalt(vs[1..])
  }

  /**
   * initResolvedTSScan.Run: the walk over the processor's span, then one
   * signal to the processor, then the deferred Snapshot.Close.
   */
  function Run(p: Processor, snap: Snapshot): Report {
    var w := Iterate(snap, p.span, [], Visit);
    var signal :=
      match w.err
      case Some(e) => StopWithErr(Wrapped(InitScanContext, e))
      case None => SetResolvedTSInitialized;
    Report(w.state + [signal, SnapshotClose], w.visited)
  }

  // ---------------------------------------------------------------------
  // The reference definition IntentOps

  lemma {:induction false} IntentOpsAppend(a: seq<Entry>, b: seq<Entry>)
    ensures IntentOps(a + b) == IntentOps(a) + IntentOps(b)
    decreases |a|
  {
    if |a| == 0 {
      assert a + b == b;
    } else {
      assert (a + b)[1..] == a[1..] + b;
      IntentOpsAppend(a[1..], b);
    }
  }

  /** Entry i contributes exactly its own ops, right after those of the entries before it. */
  lemma IntentOpsExtend(vs: seq<Entry>, i: nat)
    requires i < |vs|
    ensures IntentOps(vs[..i + 1]) == IntentOps(vs[..i]) + EntryOps(vs[i])
  {
    assert vs[..i + 1] == vs[..i] + [vs[i]];
    IntentOpsAppend(vs[..i], [vs[i]]);
  }

  /** Every intent among the entries yields its write-intent op. */
  lemma {:induction false} IntentOpsComplete(vs: seq<Entry>, i: nat)
    requires i < |vs| && vs[i].Kv? && IsIntent(vs[i].rec)
    ensures ConsumeLogicalOps(IntentOp(vs[i].rec)) in IntentOps(vs)
    decreases |vs|
  {
    if i > 0 {
      assert vs[1..][i - 1] == vs[i];
      IntentOpsComplete(vs[1..], i - 1);
    }
  }

  /** Every op comes from an intent among the entries, carrying its txn ID, key and timestamp. */
  lemma {:induction false} IntentOpsSound(vs: seq<Entry>, e: Effect)
    requires e in IntentOps(vs)
    ensures exists i :: 0 <= i < |vs| && vs[i].Kv? && IsIntent(vs[i].rec)
                        && e == ConsumeLogicalOps(IntentOp(vs[i].rec))
    decreases |vs|
  {
    if e in EntryOps(vs[0]) {
      assert vs[0].Kv? && IsIntent(vs[0].rec);
    } else {
      IntentOpsSound(vs[1..], e);
      var i :| 0 <= i < |vs[1..]| && vs[1..][i].Kv? && IsIntent(vs[1..][i].rec)
               && e == ConsumeLogicalOps(IntentOp(vs[1..][i].rec));
      assert vs[1..][i] == vs[i + 1];
    }
  }

  // ---------------------------------------------------------------------
  // The walk

  /**
   * The walk the reference predicts: the intents before the first unreadable
   * entry, the key/values up to and including that entry, and its error;
   * without one, all intents and nil.
   */
  function Predicted(vs: seq<Entry>, t: seq<Effect>): Walk<seq<Effect>> {
    var k := FirstHalt(vs);
    Walk(t + IntentOps(vs[..k]),
         KvCount(vs[..k]) + (if k < |vs| && vs[k].Kv? then 1 else 0),
         if k < |vs| then Some(UnreadableError(vs[k])) else None)
  }

  /** A readable first entry adds its ops and its visit to what the tail predicts. */
  lemma PredictedStep(vs: seq<Entry>, t: seq<Effect>)
    requires |vs| > 0 && !Unreadable(vs[0])
    ensures var w := Predicted(vs[1..], t + EntryOps(vs[0]));
            Predicted(vs, t) == Walk(w.state, w.visited + 1, w.err)
  {
    var k' := FirstHalt(vs[1..]);
    assert FirstHalt(vs) == k' + 1;
    IntentOpsCons(vs, k' + 1);
    assert t + EntryOps(vs[0]) + IntentOps(vs[1..][..k']) == t + IntentOps(vs[..k' + 1]);
    if k' < |vs[1..]| {
      assert vs[1..][k'] == vs[k' + 1];
    }
  }

  /** The walk is the one the reference predicts. */
  lemma {:induction false} FoldSpec(vs: seq<Entry>, t: seq<Effect>)
    ensures Fold(vs, t, Visit) == Predicted(vs, t)
    decreases |vs|
  {
    if |vs| == 0 || Unreadable(vs[0]) {
      assert vs[..0] == [];
      assert t + IntentOps(vs[..0]) == t;
    } else {
      var t' := t + EntryOps(vs[0]);
      assert Visit(t, vs[0].rec) == (t', Continue);
      FoldContinuesFirst(vs, t, Visit);
      FoldSpec(vs[1..], t');
      PredictedStep(vs, t);
    }
  }

  /** The ops of a prefix of vs are those of vs[0] followed by those of a prefix of vs[1..]. */
  lemma IntentOpsCons(vs: seq<Entry>, i: nat)
    requires 0 < i <= |vs|
    ensures IntentOps(vs[..i]) == EntryOps(vs[0]) + IntentOps(vs[1..][..i - 1])
    ensures KvCount(vs[..i]) == (if vs[0].Kv? then 1 else 0) + KvCount(vs[1..][..i - 1])
  {
    var pre := vs[..i];
    assert pre[0] == vs[0] && pre[1..] == vs[1..][..i - 1];
  }

  /**
   * The whole Run: one write-intent op per intent before the first
   * unreadable entry of the span, in order; then exactly one signal —
   * StopWithErr with the wrapped error if such an entry exists, else
   * setResolvedTSInitialized; then Close. The walk visits no key/value after
   * the one that failed.
   */
  lemma RunSpec(p: Processor, snap: Snapshot)
    ensures var vs := Visible(snap.entries, p.span);
            var k := FirstHalt(vs);
            var rep := Run(p, snap);
            && rep.effects == IntentOps(vs[..k]) + [
                 if k < |vs| then StopWithErr(Wrapped(InitScanContext, UnreadableError(vs[k])))
                 else SetResolvedTSInitialized,
                 SnapshotClose]
            && rep.visited == KvCount(vs[..k]) + (if k < |vs| && vs[k].Kv? then 1 else 0)
  {
    var vs := Visible(snap.entries, p.span);
    FoldSpec(vs, []);
    var w := Iterate(snap, p.span, [], Visit);
    assert w == Predicted(vs, []);
    assert w.state == [] + IntentOps(vs[..FirstHalt(vs)]) == IntentOps(vs[..FirstHalt(vs)]);
  }

  lemma {:induction false} IntentOpsAreConsumes(vs: seq<Entry>)
    ensures forall i :: 0 <= i < |IntentOps(vs)| ==> KindOf(IntentOps(vs)[i]) == ConsumeKind
    decreases |vs|
  {
    if |vs| > 0 {
      IntentOpsAreConsumes(vs[1..]);
    }
  }

  /** A trace of consumes followed by one signal and Close holds exactly one signal and one Close. */
  lemma SignalTally(ops: seq<Effect>, signal: Effect)
    requires forall i :: 0 <= i < |ops| ==> KindOf(ops[i]) == ConsumeKind
    requires signal.SetResolvedTSInitialized? || signal.StopWithErr?
    ensures var t := ops + [signal, SnapshotClose];
            && Tally(t, InitializedKind) + Tally(t, StopKind) == 1
            && Tally(t, CloseKind) == 1
            && Tally(t, SendKind) == 0 && Tally(t, DeliverKind) == 0
  {
    var tail := [signal, SnapshotClose];
    TallyAppend(ops, tail, InitializedKind);
    TallyAppend(ops, tail, StopKind);
    TallyAppend(ops, tail, CloseKind);
    TallyAppend(ops, tail, SendKind);
    TallyAppend(ops, tail, DeliverKind);
    TallyUniform(ops, ConsumeKind, InitializedKind);
    TallyUniform(ops, ConsumeKind, StopKind);
    TallyUniform(ops, ConsumeKind, CloseKind);
    TallyUniform(ops, ConsumeKind, SendKind);
    TallyUniform(ops, ConsumeKind, DeliverKind);
  }

  /**
   * The outcome is exclusive: exactly one of setResolvedTSInitialized and
   * StopWithErr is called, after every op; the snapshot is closed exactly
   * once, last; the processor's resolved timestamp is initialized exactly
   * when no failure is reachable in the span.
   */
  lemma ExclusiveOutcome(p: Processor, snap: Snapshot)
    ensures var rep := Run(p, snap);
            var n := |rep.effects|;
            && n >= 2
            && Tally(rep.effects, InitializedKind) + Tally(rep.effects, StopKind) == 1
            && Tally(rep.effects, CloseKind) == 1
            && rep.effects[n - 1] == SnapshotClose
            && (forall i :: 0 <= i < n - 2 ==> rep.effects[i].ConsumeLogicalOps?)
            && Tally(rep.effects, SendKind) == 0 && Tally(rep.effects, DeliverKind) == 0
            && (rep.effects[n - 2] == SetResolvedTSInitialized
                <==> forall i :: 0 <= i < |Visible(snap.entries, p.span)| ==>
                       !Unreadable(Visible(snap.entries, p.span)[i]))
  {
    var vs := Visible(snap.entries, p.span);
    var k := FirstHalt(vs);
    RunSpec(p, snap);
    var ops := IntentOps(vs[..k]);
    IntentOpsAreConsumes(vs[..k]);
    var signal := if k < |vs| then StopWithErr(Wrapped(InitScanContext, UnreadableError(vs[k])))
                  else SetResolvedTSInitialized;
    SignalTally(ops, signal);
    var t := ops + [signal, SnapshotClose];
    assert forall i :: 0 <= i < |t| - 2 ==> t[i] == ops[i];
  }

  /**
   * Intent completeness: when the walk succeeds, every intent inside the
   * processor's span has been handed over, before setResolvedTSInitialized.
   */
  lemma IntentCompleteness(p: Processor, snap: Snapshot, r: Record)
    requires Kv(r) in snap.entries && p.span.ContainsKey(r.key) && IsIntent(r)
    ensures var rep := Run(p, snap);
            var n := |rep.effects|;
            n >= 2 && rep.effects[n - 2] == SetResolvedTSInitialized ==>
              ConsumeLogicalOps(IntentOp(r)) in rep.effects[..n - 2]
  {
    var vs := Visible(snap.entries, p.span);
    var k := FirstHalt(vs);
    var rep := Run(p, snap);
    RunSpec(p, snap);
    if rep.effects[|rep.effects| - 2] == SetResolvedTSInitialized {
      assert k == |vs|;
      assert vs[..k] == vs;
      assert rep.effects[..|rep.effects| - 2] == IntentOps(vs);
      var i :| 0 <= i < |vs| && vs[i] == Kv(r);
      IntentOpsComplete(vs, i);
    }
  }

  /**
   * Intent soundness: every op handed over, on any outcome, is the
   * write-intent op of an intent inside the processor's span.
   */
  lemma IntentSoundness(p: Processor, snap: Snapshot, e: Effect)
    requires e in Run(p, snap).effects && e.ConsumeLogicalOps?
    ensures exists r :: Kv(r) in snap.entries && p.span.ContainsKey(r.key) && IsIntent(r)
                        && e == ConsumeLogicalOps(IntentOp(r))
  {
    var vs := Visible(snap.entries, p.span);
    var k := FirstHalt(vs);
    RunSpec(p, snap);
    assert e in IntentOps(vs[..k]);
    IntentOpsSound(vs[..k], e);
    var i :| 0 <= i < k && vs[..k][i].Kv? && IsIntent(vs[..k][i].rec)
             && e == ConsumeLogicalOps(IntentOp(vs[..k][i].rec));
    assert vs[i] in vs;
  }
}
