/**
 * The runnable lifecycle of the two scans: a scan is built holding its
 * snapshot, and then either Run once or, if it is never scheduled, Cancelled
 * once. Either way its snapshot is closed exactly once.
 */
module Runnable {
  import opened Prelude
  import opened Mvcc
  import opened Snapshot
  import opened Effects
  import InitScan
  import CatchUpScan

  /** Which scan a task performs, and for whom. */
  datatype Job = InitResolvedTS(p: Processor) | CatchUp(reg: CatchUpScan.Registration)

  /** Whether the task's single use has happened yet. */
  datatype Phase = Fresh | Ran | Cancelled

  /** A runnable scan and the snapshot it owns. */
  datatype Task = Task(job: Job, snap: Snapshot, phase: Phase)

  /** The two calls the runnable interface offers. */
  datatype Action = RunTask | CancelTask

  /** makeInitResolvedTSScan: the task takes the snapshot it is given. */
  function MakeInitResolvedTSScan(p: Processor, snap: Snapshot): Task {
    Task(InitResolvedTS(p), snap, Fresh)
  }

  /**
   * makeCatchUpScan: the snapshot moves from the registration to the task,
   * leaving the registration without one and otherwise unchanged.
   */
  function MakeCatchUpScan(reg: CatchUpScan.Registration): (res: (Task, CatchUpScan.Registration))
    requires reg.catchUpSnap.Some?
    ensures res.1.catchUpSnap.None?
    ensures res.0.snap == reg.catchUpSnap.value
    ensures res.1.(catchUpSnap := reg.catchUpSnap) == reg
    ensures res.0.phase == Fresh && res.0.job == CatchUp(res.1)
  {
    var reg' := reg.(catchUpSnap := None);
    (Task(CatchUp(reg'), reg.catchUpSnap.value, Fresh), reg')
  }

  /**
   * One call on a task that has not been used: Run performs its scan and
   * closes the snapshot (deferred); Cancel only closes the snapshot. Either
   * way the snapshot is closed exactly once, as the last effect.
   */
  function Perform(t: Task, a: Action): (res: (Task, seq<Effect>))
    requires t.phase == Fresh
    ensures res.0.phase == (if a == RunTask then Ran else Cancelled)
    ensures res.0.job == t.job && res.0.snap == t.snap
    ensures |res.1| >= 1 && res.1[|res.1| - 1] == SnapshotClose
    ensures Tally(res.1, CloseKind) == 1
    ensures a == CancelTask ==> res.1 == [SnapshotClose]
    ensures a == RunTask && t.job.InitResolvedTS? ==>
              Tally(res.1, InitializedKind) + Tally(res.1, StopKind) == 1 && Tally(res.1, DeliverKind) == 0
    ensures a == RunTask && t.job.CatchUp? ==>
              Tally(res.1, DeliverKind) == 1 && Tally(res.1, StopKind) == 0
  {
    match a
    case CancelTask => (t.(phase := Cancelled), [SnapshotClose])
    case RunTask =>
      match t.job
      case InitResolvedTS(p) =>
        InitScan.ExclusiveOutcome(p, t.snap);
        (t.(phase := Ran), InitScan.Run(p, t.snap).effects)
      case CatchUp(reg) =>
        CatchUpScan.IsolatedOutcome(reg, t.snap);
        (t.(phase := Ran), CatchUpScan.Run(reg, t.snap).effects)
  }

  /**
   * A sequence of calls on a task: the effects they produce, or None once
   * the contract is broken (a call on a task already Run or Cancelled).
   */
  function Drive(t: Task, actions: seq<Action>): Option<seq<Effect>>
    decreases |actions|
  {
    if |actions| == 0 then Some([])
    else if t.phase != Fresh then None
    else
      var (t', effects) := Perform(t, actions[0]);
      match Drive(t', actions[1..])
      case None => None
      case Some(rest) => Some(effects + rest)
  }

  /**
   * The single-use contract: on a fresh task, a sequence of calls is legal
   * exactly when it has at most one call, and the snapshot is closed once
   * per call. The empty sequence breaks no rule but leaves the snapshot
   * open; the lifecycle is complete, with the snapshot closed exactly once,
   * exactly when the task sees one call, Run or Cancel.
   */
  lemma {:induction false} Lifecycle(t: Task, actions: seq<Action>)
    requires t.phase == Fresh
    ensures Drive(t, actions).Some? <==> |actions| <= 1
    ensures Drive(t, actions).Some? ==> Tally(Drive(t, actions).value, CloseKind) == |actions|
    ensures Drive(t, actions).Some? && Tally(Drive(t, actions).value, CloseKind) == 1 <==> |actions| == 1
  {
    if |actions| > 0 {
      var (t', effects) := Perform(t, actions[0]);
      if |actions| == 1 {
        assert actions[1..] == [];
        assert effects + [] == effects;
      } else {
        assert t'.phase != Fresh;
      }
    }
  }
}
