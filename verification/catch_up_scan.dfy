/**
 * catchUpScan: walks a registration's snapshot and sends the registration
 * every version at or above its starting timestamp, committed or the
 * provisional value of an intent, plus every inline value, then reports the outcome for that registration alone. The
 * first failed send ends the walk.
 */
module CatchUpScan {
  import opened Prelude
  import opened Mvcc
  import opened Snapshot
  import opened Effects

  /**
   * A registration's event stream as seen by the scan: the result of the
   * n-th Send is sendResults[n] (nil past the end of the sequence).
   */
  datatype Stream = Stream(sendResults: seq<Option<Error>>)

  function SendResult(st: Stream, n: nat): Option<Error> {
    if n < |st.sendResults| then st.sendResults[n] else None
  }

  /** The parts of a registration the scan reads, and the snapshot it may still own. */
  datatype Registration = Registration(
    id: RegId,
    span: Span,
    startTS: Timestamp,
    stream: Stream,
    catchUpSnap: Option<Snapshot>)

  /** What the visitor does with one record, before any send. */
  datatype Disposition = Skip | Emit(event: RangeFeedEvent) | Reject(err: Error)

  /**
   * The per-record decision of the visitor: a metadata record must
   * unmarshal; a non-inline one is ignored, an inline one is sent with its
   * raw bytes and the metadata key's empty timestamp; a value record is sent
   * unless its timestamp is below the starting timestamp.
   */
  function Classify(r: Record, startTS: Timestamp): Disposition {
    match r
    case MetaRecord(k, d) =>
      (match d
       case Malformed(_) => Reject(DecodeError(r))
       case Parsed(meta) =>
         if !meta.inline then Skip
         else Emit(RangeFeedValue(k, Value(meta.rawBytes, Zero))))
    case ValueRecord(k, ts, v) =>
      if Less(ts, startTS) then Skip
      else Emit(RangeFeedValue(k, Value(v, ts)))
  }

  /**
   * The records a registration must receive: versions at or above its
   * starting timestamp, and inline values whatever the timestamp.
   */
  predicate Qualifies(r: Record, startTS: Timestamp) {
    || (r.ValueRecord? && (r.timestamp == startTS || Less(startTS, r.timestamp)))
    || (r.MetaRecord? && r.decoded.Parsed? && r.decoded.meta.inline)
  }

  /** The RangeFeedValue a qualifying record is delivered as. */
  function EventOf(r: Record): RangeFeedEvent
    requires r.ValueRecord? || r.decoded.Parsed?
  {
    if r.ValueRecord? then RangeFeedValue(r.key, Value(r.value, r.timestamp))
    else RangeFeedValue(r.key, Value(r.decoded.meta.rawBytes, Zero))
  }

  /** The event an entry would be sent as, if any. */
  function EntryEvents(e: Entry, startTS: Timestamp): seq<RangeFeedEvent> {
    if e.Kv? && Classify(e.rec, startTS).Emit? then [Classify(e.rec, startTS).event] else []
  }

  /**
   * Reference definition of "the events a sequence of entries calls for":
   * one per qualifying record, in walk order.
   */
  function Emissions(vs: seq<Entry>, startTS: Timestamp): seq<RangeFeedEvent> {
    if |vs| == 0 then [] else EntryEvents(vs[0], startTS) + Emissions(vs[1..], startTS)
  }

  /**
   * The visitor: its state is the events whose Send was attempted. It never
   * asks to stop; it fails on a metadata record that does not unmarshal and
   * on a failed Send, and otherwise attempts exactly one Send per qualifying
   * record.
   */
  function Visit(reg: Registration, sent: seq<RangeFeedEvent>, r: Record): (res: (seq<RangeFeedEvent>, Verdict))
    ensures res.1 != Stop
    ensures res.0 == sent + EntryEvents(Kv(r), reg.startTS)
    ensures res.1.Abort? <==>
              Corrupt(r) || (Classify(r, reg.startTS).Emit? && SendResult(reg.stream, |sent|).Some?)
  {
    match Classify(r, reg.startTS)
    case Skip => (sent, Continue)
    case Reject(e) => (sent, Abort(e))
    case Emit(ev) =>
      match SendResult(reg.stream, |sent|)
      case None => (sent + [ev], Continue)
      case Some(e) => (sent + [ev], Abort(e))
  }

  /** The closure passed to Snapshot.Iterate. */
  function Visitor(reg: Registration): (seq<RangeFeedEvent>, Record) -> (seq<RangeFeedEvent>, Verdict) {
    (sent, r) => Visit(reg, sent, r)
  }

  /** The stream effects of the attempted sends. */
  function Sends(id: RegId, evs: seq<RangeFeedEvent>): (t: seq<Effect>)
    ensures |t| == |evs|
    ensures forall i :: 0 <= i < |t| ==> t[i] == StreamSend(id, evs[i])
  {
    seq(|evs|, i requires 0 <= i < |evs| => StreamSend(id, evs[i]))
  }

  /**
   * catchUpScan.Run: the walk over the registration's span, then exactly one
   * deliverCatchUpScanRes, then the deferred Snapshot.Close.
   */
  function Run(reg: Registration, snap: Snapshot): Report {
    var w := Iterate(snap, reg.span, [], Visitor(reg));
    var res := match w.err
      case Some(e) => Some(Wrapped(CatchUpContext, e))
      case None => None;
    Report(Sends(reg.id, w.state) + [DeliverCatchUpScanRes(reg.id, res), SnapshotClose], w.visited)
  }

  // ---------------------------------------------------------------------
  // Where the walk halts

  /**
   * Entry i ends the walk when it is unreadable, or when it is sent and the
   * stream rejects it; n0 Sends happened before vs[0].
   */
  predicate HaltsAt(vs: seq<Entry>, i: nat, startTS: Timestamp, st: Stream, n0: nat)
    requires i < |vs|
  {
    || Unreadable(vs[i])
    || (EntryEvents(vs[i], startTS) != []
        && SendResult(st, n0 + |Emissions(vs[..i], startTS)|).Some?)
  }

  /** The error the walk returns when entry i ends it. */
  function HaltError(vs: seq<Entry>, i: nat, startTS: Timestamp, st: Stream, n0: nat): Error
    requires i < |vs| && HaltsAt(vs, i, startTS, st, n0)
  {
    if Unreadable(vs[i]) then UnreadableError(vs[i])
    else SendResult(st, n0 + |Emissions(vs[..i], startTS)|).value
  }

  lemma {:induction false} EmissionsAppend(a: seq<Entry>, b: seq<Entry>, startTS: Timestamp)
    ensures Emissions(a + b, startTS) == Emissions(a, startTS) + Emissions(b, startTS)
    decreases |a|
  {
    if |a| == 0 {
      assert a + b == b;
    } else {
      assert (a + b)[1..] == a[1..] + b;
      EmissionsAppend(a[1..], b, startTS);
    }
  }

  /** Entry i contributes exactly its own event, right after those of the entries before it. */
  lemma EmissionsExtend(vs: seq<Entry>, i: nat, startTS: Timestamp)
    requires i < |vs|
    ensures Emissions(vs[..i + 1], startTS) == Emissions(vs[..i], startTS) + EntryEvents(vs[i], startTS)
  {
    assert vs[..i + 1] == vs[..i] + [vs[i]];
    EmissionsAppend(vs[..i], [vs[i]], startTS);
  }

  /** The emissions of a prefix of vs are those of vs[0] followed by those of a prefix of vs[1..]. */
  lemma EmissionsCons(vs: seq<Entry>, i: nat, startTS: Timestamp)
    requires 0 < i <= |vs|
    ensures Emissions(vs[..i], startTS) == EntryEvents(vs[0], startTS) + Emissions(vs[1..][..i - 1], startTS)
    ensures KvCount(vs[..i]) == (if vs[0].Kv? then 1 else 0) + KvCount(vs[1..][..i - 1])
  {
    var pre := vs[..i];
    assert pre[0] == vs[0] && pre[1..] == vs[1..][..i - 1];
  }

  /** Halting at j in vs is halting at j - 1 in vs[1..], with vs[0]'s sends counted. */
  lemma HaltsAtShiftAt(vs: seq<Entry>, j: nat, startTS: Timestamp, st: Stream, n0: nat)
    requires 1 <= j < |vs|
    ensures var n1 := n0 + |EntryEvents(vs[0], startTS)|;
            && vs[1..][j - 1] == vs[j]
            && (HaltsAt(vs, j, startTS, st, n0) <==> HaltsAt(vs[1..], j - 1, startTS, st, n1))
            && (HaltsAt(vs, j, startTS, st, n0) ==>
                  HaltError(vs, j, startTS, st, n0) == HaltError(vs[1..], j - 1, startTS, st, n1))
  {
    EmissionsCons(vs, j, startTS);
  }

  /** HaltsAtShiftAt at every position. */
  lemma HaltsAtShift(vs: seq<Entry>, startTS: Timestamp, st: Stream, n0: nat)
    requires |vs| > 0
    ensures var n1 := n0 + |EntryEvents(vs[0], startTS)|;
            forall j :: 1 <= j < |vs| ==>
              && vs[1..][j - 1] == vs[j]
              && (HaltsAt(vs, j, startTS, st, n0) <==> HaltsAt(vs[1..], j - 1, startTS, st, n1))
  {
    forall j | 1 <= j < |vs| {
      HaltsAtShiftAt(vs, j, startTS, st, n0);
    }
  }

  /** The position of the entry that ends the walk, or |vs| when none does. */
  function FirstHalt(vs: seq<Entry>, startTS: Timestamp, st: Stream, n0: nat): (m: nat)
    ensures m <= |vs|
    ensures forall i :: 0 <= i < m ==> !HaltsAt(vs, i, startTS, st, n0)
    ensures m < |vs| ==> HaltsAt(vs, m, startTS, st, n0)
    decreases |vs|
  {
    if |vs| == 0 then 0
    else if HaltsAt(vs, 0, startTS, st, n0) then 0
    else
      HaltsAtShift(vs, startTS, st, n0);
      1 + FirstHalt(vs[1..], startTS, st, n0 + |EntryEvents(vs[0], startTS)|)
  }

  // ---------------------------------------------------------------------
  // The walk

  /** A metadata record that does not unmarshal ends the walk with the decode error. */
  lemma FoldRejectsFirst(reg: Registration, vs: seq<Entry>, sent: seq<RangeFeedEvent>)
    requires |vs| > 0 && vs[0].Kv? && Corrupt(vs[0].rec)
    ensures Fold(vs, sent, Visitor(reg)) == Walk(sent, 1, Some(DecodeError(vs[0].rec)))
  {
    var r := vs[0].rec;
    assert Visitor(reg)(sent, r) == Visit(reg, sent, r);
    assert Visit(reg, sent, r).1 == Abort(DecodeError(r));
    FoldAbortsFirst(vs, sent, Visitor(reg));
  }

  /** A record whose Send fails ends the walk with the stream's error, after that one attempt. */
  lemma FoldSendFailsFirst(reg: Registration, vs: seq<Entry>, sent: seq<RangeFeedEvent>)
    requires |vs| > 0 && vs[0].Kv? && Classify(vs[0].rec, reg.startTS).Emit?
    requires SendResult(reg.stream, |sent|).Some?
    ensures Fold(vs, sent, Visitor(reg))
              == Walk(sent + [Classify(vs[0].rec, reg.startTS).event], 1,
                      Some(SendResult(reg.stream, |sent|).value))
  {
    var r := vs[0].rec;
    assert Visitor(reg)(sent, r) == Visit(reg, sent, r);
    FoldAbortsFirst(vs, sent, Visitor(reg));
  }

  /** A walk whose first entry ends it: that entry's failed send, if any, and its error. */
  lemma {:induction false} FoldHaltsFirst(reg: Registration, vs: seq<Entry>, sent: seq<RangeFeedEvent>)
    requires |vs| > 0 && HaltsAt(vs, 0, reg.startTS, reg.stream, |sent|)
    ensures Fold(vs, sent, Visitor(reg))
              == Walk(sent + EntryEvents(vs[0], reg.startTS), if vs[0].Kv? then 1 else 0,
                      Some(HaltError(vs, 0, reg.startTS, reg.stream, |sent|)))
  {
    var ts, st := reg.startTS, reg.stream;
    assert vs[..0] == [];
    assert Emissions(vs[..0], ts) == [];
    if vs[0].Fault? {
      assert HaltError(vs, 0, ts, st, |sent|) == vs[0].err;
      assert sent + EntryEvents(vs[0], ts) == sent;
      FoldFaultsFirst(vs, sent, Visitor(reg));
    } else if Corrupt(vs[0].rec) {
      assert sent + EntryEvents(vs[0], ts) == sent;
      assert HaltError(vs, 0, ts, st, |sent|) == DecodeError(vs[0].rec);
      FoldRejectsFirst(reg, vs, sent);
    } else {
      assert EntryEvents(vs[0], ts) == [Classify(vs[0].rec, ts).event];
      assert HaltError(vs, 0, ts, st, |sent|) == SendResult(st, |sent|).value;
      FoldSendFailsFirst(reg, vs, sent);
    }
  }

  /** A walk whose first entry does not end it: that entry's send succeeded, and the walk goes on. */
  lemma FoldPassesFirst(reg: Registration, vs: seq<Entry>, sent: seq<RangeFeedEvent>)
    requires |vs| > 0 && !HaltsAt(vs, 0, reg.startTS, reg.stream, |sent|)
    ensures vs[0].Kv?
    ensures var w := Fold(vs[1..], sent + EntryEvents(vs[0], reg.startTS), Visitor(reg));
            Fold(vs, sent, Visitor(reg)) == Walk(w.state, w.visited + 1, w.err)
  {
    assert vs[..0] == [];
    var r := vs[0].rec;
    assert Visitor(reg)(sent, r) == Visit(reg, sent, r) == (sent + EntryEvents(vs[0], reg.startTS), Continue);
    FoldContinuesFirst(vs, sent, Visitor(reg));
  }

  /**
   * The walk the reference predicts: the sends the entries before the
   * halting entry call for, plus the halting entry's own failed send if that
   * is what ended it; the key/values up to and including the halting entry;
   * its error, or nil when nothing ends the walk.
   */
  function Predicted(reg: Registration, vs: seq<Entry>, sent: seq<RangeFeedEvent>): Walk<seq<RangeFeedEvent>> {
    var m := FirstHalt(vs, reg.startTS, reg.stream, |sent|);
    Walk(sent + Emissions(vs[..m], reg.startTS) + (if m < |vs| then EntryEvents(vs[m], reg.startTS) else []),
         KvCount(vs[..m]) + (if m < |vs| && vs[m].Kv? then 1 else 0),
         if m < |vs| then Some(HaltError(vs, m, reg.startTS, reg.stream, |sent|)) else None)
  }

  lemma PredictedHalt(reg: Registration, vs: seq<Entry>, sent: seq<RangeFeedEvent>)
    requires |vs| > 0 && HaltsAt(vs, 0, reg.startTS, reg.stream, |sent|)
    ensures Predicted(reg, vs, sent)
              == Walk(sent + EntryEvents(vs[0], reg.startTS), if vs[0].Kv? then 1 else 0,
                      Some(HaltError(vs, 0, reg.startTS, reg.stream, |sent|)))
  {
    assert FirstHalt(vs, reg.startTS, reg.stream, |sent|) == 0;
    assert vs[..0] == [];
    assert Emissions(vs[..0], reg.startTS) == [] && KvCount(vs[..0]) == 0;
    assert sent + [] + EntryEvents(vs[0], reg.startTS) == sent + EntryEvents(vs[0], reg.startTS);
  }

  lemma PredictedStep(reg: Registration, vs: seq<Entry>, sent: seq<RangeFeedEvent>)
    requires |vs| > 0 && !HaltsAt(vs, 0, reg.startTS, reg.stream, |sent|)
    ensures var w := Predicted(reg, vs[1..], sent + EntryEvents(vs[0], reg.startTS));
            Predicted(reg, vs, sent) == Walk(w.state, w.visited + 1, w.err)
  {
    var ts, st := reg.startTS, reg.stream;
    var sent' := sent + EntryEvents(vs[0], ts);
    var m' := FirstHalt(vs[1..], ts, st, |sent'|);
    assert FirstHalt(vs, ts, st, |sent|) == m' + 1;
    assert vs[..0] == [];
    assert vs[0].Kv?;
    EmissionsCons(vs, m' + 1, ts);
    assert sent' + Emissions(vs[1..][..m'], ts) == sent + Emissions(vs[..m' + 1], ts);
    if m' + 1 < |vs| {
      HaltsAtShiftAt(vs, m' + 1, ts, st, |sent|);
    }
  }

  /** The walk is the one the reference predicts. */
  lemma {:induction false} FoldSpec(reg: Registration, vs: seq<Entry>, sent: seq<RangeFeedEvent>)
    ensures Fold(vs, sent, Visitor(reg)) == Predicted(reg, vs, sent)
    decreases |vs|
  {
    if |vs| == 0 {
      assert vs[..0] == [];
      assert Emissions(vs[..0], reg.startTS) == [] && KvCount(vs[..0]) == 0;
      assert sent + [] + [] == sent;
    } else if HaltsAt(vs, 0, reg.startTS, reg.stream, |sent|) {
      FoldHaltsFirst(reg, vs, sent);
      PredictedHalt(reg, vs, sent);
    } else {
      var sent' := sent + EntryEvents(vs[0], reg.startTS);
      FoldPassesFirst(reg, vs, sent);
      FoldSpec(reg, vs[1..], sent');
      PredictedStep(reg, vs, sent);
    }
  }

  /**
   * The whole Run: the sends of the walk, then exactly one
   * deliverCatchUpScanRes for this registration (nil exactly when nothing
   * ended the walk, else the wrapped error), then Close.
   */
  lemma RunSpec(reg: Registration, snap: Snapshot)
    ensures var vs := Visible(snap.entries, reg.span);
            var m := FirstHalt(vs, reg.startTS, reg.stream, 0);
            var rep := Run(reg, snap);
            var evs := Emissions(vs[..m], reg.startTS)
                       + (if m < |vs| then EntryEvents(vs[m], reg.startTS) else []);
            && rep.effects == Sends(reg.id, evs) + [
                 DeliverCatchUpScanRes(reg.id,
                   if m < |vs| then Some(Wrapped(CatchUpContext, HaltError(vs, m, reg.startTS, reg.stream, 0)))
                   else None),
                 SnapshotClose]
            && rep.visited == KvCount(vs[..m]) + (if m < |vs| && vs[m].Kv? then 1 else 0)
  {
    var vs := Visible(snap.entries, reg.span);
    FoldSpec(reg, vs, []);
    var w := Iterate(snap, reg.span, [], Visitor(reg));
    var m := FirstHalt(vs, reg.startTS, reg.stream, 0);
    var evs := Emissions(vs[..m], reg.startTS) + (if m < |vs| then EntryEvents(vs[m], reg.startTS) else []);
    assert w == Predicted(reg, vs, []);
    assert w.state == [] + evs == evs;
    assert w.err.Some? <==> m < |vs|;
  }

  // ---------------------------------------------------------------------
  // Filtering

  /**
   * A value record is sent exactly when its timestamp is at or above the
   * starting timestamp (equality included), with its key, bytes and
   * timestamp unchanged.
   */
  lemma StartTimestampFilter(k: Key, ts: Timestamp, v: Bytes, startTS: Timestamp)
    ensures Classify(ValueRecord(k, ts, v), startTS).Emit? <==> (ts == startTS || Less(startTS, ts))
    ensures Classify(ValueRecord(k, ts, v), startTS).Emit? ==>
              Classify(ValueRecord(k, ts, v), startTS).event == RangeFeedValue(k, Value(v, ts))
    ensures Classify(ValueRecord(k, ts, v), startTS).Skip? <==> Less(ts, startTS)
  {
    LessIsStrictTotalOrder(ts, startTS, ts);
  }

  /**
   * A metadata record that unmarshals is sent exactly when it is inline,
   * whatever the starting timestamp, with its raw bytes as the value; a
   * non-inline one is ignored even when it carries an intent.
   */
  lemma MetadataHandling(k: Key, meta: MvccMetadata, startTS: Timestamp)
    ensures !meta.inline ==> Classify(MetaRecord(k, Parsed(meta)), startTS).Skip?
    ensures meta.inline ==>
              Classify(MetaRecord(k, Parsed(meta)), startTS) == Emit(RangeFeedValue(k, Value(meta.rawBytes, Zero)))
  {
  }

  /** The visitor's per-record decision agrees with Qualifies and EventOf. */
  lemma ClassifyAgrees(r: Record, startTS: Timestamp)
    ensures Classify(r, startTS).Emit? <==> Qualifies(r, startTS)
    ensures Classify(r, startTS).Emit? ==> Classify(r, startTS).event == EventOf(r)
    ensures Classify(r, startTS).Reject? <==> Corrupt(r)
  {
    if r.ValueRecord? {
      StartTimestampFilter(r.key, r.timestamp, r.value, startTS);
    }
  }

  // ---------------------------------------------------------------------
  // The reference definition Emissions

  /** Every qualifying record among the entries has its event among the emissions. */
  lemma {:induction false} EmissionsComplete(vs: seq<Entry>, i: nat, startTS: Timestamp)
    requires i < |vs| && vs[i].Kv? && Classify(vs[i].rec, startTS).Emit?
    ensures Classify(vs[i].rec, startTS).event in Emissions(vs, startTS)
    decreases |vs|
  {
    if i > 0 {
      assert vs[1..][i - 1] == vs[i];
      EmissionsComplete(vs[1..], i - 1, startTS);
    }
  }

  /** Every emitted event is the event of some qualifying record among the entries. */
  lemma {:induction false} EmissionsSound(vs: seq<Entry>, ev: RangeFeedEvent, startTS: Timestamp)
    requires ev in Emissions(vs, startTS)
    ensures exists i :: 0 <= i < |vs| && vs[i].Kv? && Classify(vs[i].rec, startTS) == Emit(ev)
    decreases |vs|
  {
    if ev in EntryEvents(vs[0], startTS) {
      assert vs[0].Kv? && Classify(vs[0].rec, startTS) == Emit(ev);
    } else {
      EmissionsSound(vs[1..], ev, startTS);
      var i :| 0 <= i < |vs[1..]| && vs[1..][i].Kv? && Classify(vs[1..][i].rec, startTS) == Emit(ev);
      assert vs[1..][i] == vs[i + 1];
    }
  }

  // ---------------------------------------------------------------------
  // Outcomes

  /**
   * Nothing ends the walk exactly when every entry is readable and the
   * stream accepts every one of the emissions' sends.
   */
  lemma {:induction false} NoHaltIff(vs: seq<Entry>, startTS: Timestamp, st: Stream, n0: nat)
    ensures FirstHalt(vs, startTS, st, n0) == |vs| <==>
              && (forall i :: 0 <= i < |vs| ==> !Unreadable(vs[i]))
              && (forall j :: n0 <= j < n0 + |Emissions(vs, startTS)| ==> SendResult(st, j).None?)
    decreases |vs|
  {
    if |vs| > 0 {
      var es := EntryEvents(vs[0], startTS);
      var n1 := n0 + |es|;
      assert Emissions(vs, startTS) == es + Emissions(vs[1..], startTS);
      assert vs[..0] == [];
      if HaltsAt(vs, 0, startTS, st, n0) {
        if !Unreadable(vs[0]) {
          assert SendResult(st, n0).Some? && n0 < n0 + |Emissions(vs, startTS)|;
        }
      } else {
        NoHaltIff(vs[1..], startTS, st, n1);
        assert forall i :: 1 <= i < |vs| ==> vs[i] == vs[1..][i - 1];
        assert |es| == 1 ==> SendResult(st, n0).None?;
      }
    }
  }

  /**
   * Run reports nil for this registration exactly when every entry of its
   * span is readable and every send the scan calls for succeeds; then it has
   * sent, in walk order, exactly the events the span calls for.
   */
  lemma SucceedsIff(reg: Registration, snap: Snapshot)
    ensures var vs := Visible(snap.entries, reg.span);
            var rep := Run(reg, snap);
            var n := |rep.effects|;
            && n >= 2
            && (rep.effects[n - 2] == DeliverCatchUpScanRes(reg.id, None) <==>
                  && (forall i :: 0 <= i < |vs| ==> !Unreadable(vs[i]))
                  && (forall j :: 0 <= j < |Emissions(vs, reg.startTS)| ==> SendResult(reg.stream, j).None?))
            && (rep.effects[n - 2] == DeliverCatchUpScanRes(reg.id, None) ==>
                  rep.effects[..n - 2] == Sends(reg.id, Emissions(vs, reg.startTS)))
  {
    var vs := Visible(snap.entries, reg.span);
    RunSpec(reg, snap);
    NoHaltIff(vs, reg.startTS, reg.stream, 0);
    var m := FirstHalt(vs, reg.startTS, reg.stream, 0);
    if m == |vs| {
      assert vs[..m] == vs;
    }
  }

  /** The kinds in a trace of sends followed by one delivery and Close. */
  lemma DeliverTally(sends: seq<Effect>, deliver: Effect)
    requires forall i :: 0 <= i < |sends| ==> KindOf(sends[i]) == SendKind
    requires deliver.DeliverCatchUpScanRes?
    ensures var t := sends + [deliver, SnapshotClose];
            && Tally(t, DeliverKind) == 1 && Tally(t, CloseKind) == 1
            && Tally(t, StopKind) == 0 && Tally(t, InitializedKind) == 0 && Tally(t, ConsumeKind) == 0
  {
    var tail := [deliver, SnapshotClose];
    TallyAppend(sends, tail, DeliverKind);
    TallyAppend(sends, tail, CloseKind);
    TallyAppend(sends, tail, StopKind);
    TallyAppend(sends, tail, InitializedKind);
    TallyAppend(sends, tail, ConsumeKind);
    TallyUniform(sends, SendKind, DeliverKind);
    TallyUniform(sends, SendKind, CloseKind);
    TallyUniform(sends, SendKind, StopKind);
    TallyUniform(sends, SendKind, InitializedKind);
    TallyUniform(sends, SendKind, ConsumeKind);
  }

  /**
   * Isolation and exactly-once reporting: Run sends only on this
   * registration's stream, reports to deliverCatchUpScanRes exactly once, for
   * this registration, with nil or an error wrapped as a catch-up failure;
   * it never stops the processor or touches its intents or resolved
   * timestamp; it closes the snapshot exactly once, last.
   */
  lemma IsolatedOutcome(reg: Registration, snap: Snapshot)
    ensures var rep := Run(reg, snap);
            var n := |rep.effects|;
            && n >= 2
            && rep.effects[n - 1] == SnapshotClose
            && rep.effects[n - 2].DeliverCatchUpScanRes? && rep.effects[n - 2].reg == reg.id
            && (rep.effects[n - 2].res.Some? ==>
                  rep.effects[n - 2].res.value.Wrapped? && rep.effects[n - 2].res.value.context == CatchUpContext)
            && (forall i :: 0 <= i < n - 2 ==> rep.effects[i].StreamSend? && rep.effects[i].reg == reg.id)
            && Tally(rep.effects, DeliverKind) == 1 && Tally(rep.effects, CloseKind) == 1
            && Tally(rep.effects, StopKind) == 0 && Tally(rep.effects, InitializedKind) == 0
            && Tally(rep.effects, ConsumeKind) == 0
  {
    var rep := Run(reg, snap);
    var w := Iterate(snap, reg.span, [], Visitor(reg));
    var sends := Sends(reg.id, w.state);
    var deliver := rep.effects[|rep.effects| - 2];
    assert rep.effects == sends + [deliver, SnapshotClose];
    DeliverTally(sends, deliver);
  }

  /**
   * Completeness: when Run reports nil, every qualifying record inside the
   * registration's span has been sent, as its RangeFeedValue.
   */
  lemma Completeness(reg: Registration, snap: Snapshot, r: Record)
    requires Kv(r) in snap.entries && reg.span.ContainsKey(r.key) && Qualifies(r, reg.startTS)
    ensures var rep := Run(reg, snap);
            var n := |rep.effects|;
            n >= 2 && rep.effects[n - 2] == DeliverCatchUpScanRes(reg.id, None) ==>
              StreamSend(reg.id, EventOf(r)) in rep.effects[..n - 2]
  {
    var vs := Visible(snap.entries, reg.span);
    var rep := Run(reg, snap);
    SucceedsIff(reg, snap);
    if rep.effects[|rep.effects| - 2] == DeliverCatchUpScanRes(reg.id, None) {
      var i :| 0 <= i < |vs| && vs[i] == Kv(r);
      ClassifyAgrees(r, reg.startTS);
      EmissionsComplete(vs, i, reg.startTS);
      var evs := Emissions(vs, reg.startTS);
      var j :| 0 <= j < |evs| && evs[j] == EventOf(r);
      assert rep.effects[..|rep.effects| - 2][j] == StreamSend(reg.id, EventOf(r));
    }
  }

  /** Each event the walk attempts is the event of some qualifying entry. */
  lemma AttemptedSound(vs: seq<Entry>, m: nat, startTS: Timestamp, ev: RangeFeedEvent)
    requires m <= |vs|
    requires ev in Emissions(vs[..m], startTS) + (if m < |vs| then EntryEvents(vs[m], startTS) else [])
    ensures exists i :: 0 <= i < |vs| && vs[i].Kv? && Classify(vs[i].rec, startTS) == Emit(ev)
  {
    if ev in Emissions(vs[..m], startTS) {
      EmissionsSound(vs[..m], ev, startTS);
      var i :| 0 <= i < m && vs[..m][i].Kv? && Classify(vs[..m][i].rec, startTS) == Emit(ev);
      assert vs[..m][i] == vs[i];
    } else {
      assert vs[m].Kv? && Classify(vs[m].rec, startTS) == Emit(ev);
    }
  }

  /**
   * Soundness: on every outcome, each event sent is the RangeFeedValue of a
   * qualifying record inside the registration's span; so a version below the
   * starting timestamp, or a non-inline metadata record, is never sent as
   * itself.
   */
  lemma Soundness(reg: Registration, snap: Snapshot, e: Effect)
    requires e in Run(reg, snap).effects && e.StreamSend?
    ensures exists r :: Kv(r) in snap.entries && reg.span.ContainsKey(r.key)
                        && Qualifies(r, reg.startTS) && e.event == EventOf(r)
  {
    var vs := Visible(snap.entries, reg.span);
    var m := FirstHalt(vs, reg.startTS, reg.stream, 0);
    var evs := Emissions(vs[..m], reg.startTS) + (if m < |vs| then EntryEvents(vs[m], reg.startTS) else []);
    RunSpec(reg, snap);
    var sends := Sends(reg.id, evs);
    assert Run(reg, snap).effects == sends + [Run(reg, snap).effects[|sends|], SnapshotClose];
    assert e in sends;
    var k :| 0 <= k < |sends| && sends[k] == e;
    assert evs[k] == e.event;
    AttemptedSound(vs, m, reg.startTS, e.event);
    var i :| 0 <= i < |vs| && vs[i].Kv? && Classify(vs[i].rec, reg.startTS) == Emit(e.event);
    ClassifyAgrees(vs[i].rec, reg.startTS);
    assert vs[i] in vs;
  }
}
