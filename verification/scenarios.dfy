/**
 * Concrete walks of both scans over small snapshots, with keys as single
 * ASCII bytes ("a" is 97, "z" is 122).
 */
module Scenarios {
  import opened Prelude
  import opened Mvcc
  import opened Snapshot
  import opened Effects
  import InitScan
  import CatchUpScan

  /** One intent at "a" of transaction T1 at time 5: one op, then initialization. */
  lemma InitOneIntent()
    ensures var txn := TxnMeta([1], [97], Timestamp(5, 0));
            var snap := Snapshot([Kv(MetaRecord([97], Parsed(MvccMetadata(Some(txn), false, []))))]);
            InitScan.Run(Processor(Span([97], [122])), snap)
              == Report([ConsumeLogicalOps(WriteIntentOp([1], [97], Timestamp(5, 0))),
                         SetResolvedTSInitialized, SnapshotClose], 1)
  {
  }

  /** A corrupt metadata record stops the processor; the intent after it is never reached. */
  lemma InitCorruptStops()
    ensures var txn := TxnMeta([1], [98], Timestamp(5, 0));
            var snap := Snapshot([Kv(MetaRecord([97], Malformed(3))),
                                  Kv(MetaRecord([98], Parsed(MvccMetadata(Some(txn), false, []))))]);
            InitScan.Run(Processor(Span([97], [122])), snap)
              == Report([StopWithErr(Wrapped(InitScanContext, Wrapped(UnmarshalContext, Undecodable([97], 3)))),
                         SnapshotClose], 1)
  {
  }

  /** Start timestamp 10: the version at 5 is skipped, the version at 15 is sent. */
  lemma CatchUpSkipsOldVersions()
    ensures var reg := CatchUpScan.Registration(1, Span([97], [122]), Timestamp(10, 0), CatchUpScan.Stream([]), None);
            var snap := Snapshot([Kv(ValueRecord([97], Timestamp(5, 0), [1])),
                                  Kv(ValueRecord([109], Timestamp(15, 0), [2]))]);
            CatchUpScan.Run(reg, snap)
              == Report([StreamSend(1, RangeFeedValue([109], Value([2], Timestamp(15, 0)))),
                         DeliverCatchUpScanRes(1, None), SnapshotClose], 2)
  {
  }

  /** An inline value is sent even under a start timestamp of 100. */
  lemma CatchUpSendsInline()
    ensures var reg := CatchUpScan.Registration(1, Span([97], [122]), Timestamp(100, 0), CatchUpScan.Stream([]), None);
            var snap := Snapshot([Kv(MetaRecord([107], Parsed(MvccMetadata(None, true, [88]))))]);
            CatchUpScan.Run(reg, snap)
              == Report([StreamSend(1, RangeFeedValue([107], Value([88], Zero))),
                         DeliverCatchUpScanRes(1, None), SnapshotClose], 1)
  {
  }

  /**
   * An intent at "a" written at 15 and its provisional version: the
   * metadata is skipped, and the provisional value is sent like a
   * committed one, since only the timestamp decides.
   */
  lemma CatchUpSendsProvisionalValue()
    ensures var txn := TxnMeta([1], [97], Timestamp(15, 0));
            var reg := CatchUpScan.Registration(1, Span([97], [122]), Timestamp(10, 0), CatchUpScan.Stream([]), None);
            var snap := Snapshot([Kv(MetaRecord([97], Parsed(MvccMetadata(Some(txn), false, [])))),
                                  Kv(ValueRecord([97], Timestamp(15, 0), [7]))]);
            CatchUpScan.Run(reg, snap)
              == Report([StreamSend(1, RangeFeedValue([97], Value([7], Timestamp(15, 0)))),
                         DeliverCatchUpScanRes(1, None), SnapshotClose], 2)
  {
  }

  /** A registration from timestamp 10 whose stream accepts one Send and rejects the next. */
  const FailingReg := CatchUpScan.Registration(
                        1, Span([97], [122]), Timestamp(10, 0), CatchUpScan.Stream([None, Some(StreamFault(9))]), None)

  /** Three versions above that timestamp, at "a", "b" and "c". */
  const ThreeValues := [Kv(ValueRecord([97], Timestamp(11, 0), [1])),
                        Kv(ValueRecord([98], Timestamp(12, 0), [2])),
                        Kv(ValueRecord([99], Timestamp(13, 0), [3]))]

  /** The second send fails: the walk stops there, and the third record is never visited. */
  lemma CatchUpStopsOnFailedSend()
    ensures CatchUpScan.Run(FailingReg, Snapshot(ThreeValues))
              == Report([StreamSend(1, RangeFeedValue([97], Value([1], Timestamp(11, 0)))),
                         StreamSend(1, RangeFeedValue([98], Value([2], Timestamp(12, 0)))),
                         DeliverCatchUpScanRes(1, Some(Wrapped(CatchUpContext, StreamFault(9)))),
                         SnapshotClose], 2)
  {
    var reg, vs := FailingReg, ThreeValues;
    var ev0 := RangeFeedValue([97], Value([1], Timestamp(11, 0)));
    var ev1 := RangeFeedValue([98], Value([2], Timestamp(12, 0)));
    assert Visible(vs, reg.span) == vs;
    FailedSendWalk(ev0, ev1);
    assert CatchUpScan.Sends(1, [ev0, ev1]) == [StreamSend(1, ev0), StreamSend(1, ev1)];
  }

  lemma FailedSendWalk(ev0: RangeFeedEvent, ev1: RangeFeedEvent)
    requires ev0 == RangeFeedValue([97], Value([1], Timestamp(11, 0)))
    requires ev1 == RangeFeedValue([98], Value([2], Timestamp(12, 0)))
    ensures Fold(ThreeValues, [], CatchUpScan.Visitor(FailingReg)) == Walk([ev0, ev1], 2, Some(StreamFault(9)))
  {
    var reg, vs := FailingReg, ThreeValues;
    assert CatchUpScan.EntryEvents(vs[0], reg.startTS) == [ev0];
    assert !CatchUpScan.HaltsAt(vs, 0, reg.startTS, reg.stream, 0);
    CatchUpScan.FoldPassesFirst(reg, vs, []);
    assert [] + [ev0] == [ev0];
    CatchUpScan.FoldSendFailsFirst(reg, vs[1..], [ev0]);
    assert CatchUpScan.Classify(vs[1..][0].rec, reg.startTS).event == ev1;
    assert CatchUpScan.SendResult(reg.stream, 1) == Some(StreamFault(9));
    assert [ev0] + [ev1] == [ev0, ev1];
  }
}
