/**
 * The Snapshot contract: an atomic view of the MVCC keys in a range, walked
 * by Iterate with a visitor that may end the walk early. Iterate is a fold
 * over the entries the view yields between the start and end key; it halts
 * on the first visitor error, on the first clean stop request, or on a
 * storage failure of the iteration itself, and visits nothing after that.
 */
module Snapshot {
  import opened Prelude
  import opened Mvcc

  /**
   * One step of iteration: a key/value pair, or a failure of the underlying
   * iterator at that point of the walk.
   */
  datatype Entry = Kv(rec: Record) | Fault(err: Error)

  /** A point-in-time view: what its iterator produces, in key-then-version order. */
  datatype Snapshot = Snapshot(entries: seq<Entry>)

  /**
   * A visitor's answer, Go's (bool, error) result: (false, nil) goes on,
   * (true, nil) stops with a nil error, (_, err) stops with err.
   */
  datatype Verdict = Continue | Stop | Abort(err: Error)

  /**
   * An entry that ends either scan: a failure of the iterator, or a
   * metadata record whose value does not unmarshal.
   */
  predicate Unreadable(e: Entry) {
    e.Fault? || Corrupt(e.rec)
  }

  /** The error a walk returns when it reaches an unreadable entry. */
  function UnreadableError(e: Entry): Error
    requires Unreadable(e)
  {
    if e.Fault? then e.err else DecodeError(e.rec)
  }

  /** The result of a walk: the visitor's final state, how many key/values it saw, and the error. */
  datatype Walk<S> = Walk(state: S, visited: nat, err: Option<Error>)

  /** The entries a walk over `sp` reaches: every failure, and the key/values inside the span. */
  function Visible(es: seq<Entry>, sp: Span): (vs: seq<Entry>)
    ensures |vs| <= |es|
    ensures forall i :: 0 <= i < |vs| && vs[i].Kv? ==> sp.ContainsKey(vs[i].rec.key)
    ensures forall e :: e in vs ==> e in es
    ensures forall e :: e in es && (e.Fault? || sp.ContainsKey(e.rec.key)) ==> e in vs
  {
    if |es| == 0 then []
    else if es[0].Kv? && !sp.ContainsKey(es[0].rec.key) then Visible(es[1..], sp)
    else [es[0]] + Visible(es[1..], sp)
  }

  /** A walk over one entry reaches it unless it is a key/value outside the span. */
  lemma VisibleSingle(e: Entry, sp: Span)
    ensures Visible([e], sp) == if e.Kv? && !sp.ContainsKey(e.rec.key) then [] else [e]
  {
  }

  /**
   * The walk over a concatenation is the walk over each part, one after the
   * other: with VisibleSingle, the walk keeps the order and the multiplicity
   * of the entries it reaches.
   */
  lemma {:induction false} VisibleAppend(a: seq<Entry>, b: seq<Entry>, sp: Span)
    ensures Visible(a + b, sp) == Visible(a, sp) + Visible(b, sp)
    decreases |a|
  {
    if |a| == 0 {
      assert a + b == b;
    } else {
      assert (a + b)[0] == a[0];
      assert (a + b)[1..] == a[1..] + b;
      VisibleAppend(a[1..], b, sp);
    }
  }

  /** The number of key/value entries. */
  function KvCount(vs: seq<Entry>): (n: nat)
    ensures n <= |vs|
  {
    if |vs| == 0 then 0 else (if vs[0].Kv? then 1 else 0) + KvCount(vs[1..])
  }

  /** The walk itself, over entries already restricted to the span. */
  function Fold<S>(vs: seq<Entry>, s: S, f: (S, Record) -> (S, Verdict)): (w: Walk<S>)
    ensures w.visited <= KvCount(vs)
  {
    if |vs| == 0 then Walk(s, 0, None)
    else match vs[0]
      case Fault(e) => Walk(s, 0, Some(e))
      case Kv(r) =>
        var (s', v) := f(s, r);
        match v
        case Continue =>
          var w := Fold(vs[1..], s', f);
          Walk(w.state, w.visited + 1, w.err)
        case Stop => Walk(s', 1, None)
        case Abort(e) => Walk(s', 1, Some(e))
  }

  /** Snapshot.Iterate(start, end, f) from an initial visitor state. */
  function Iterate<S>(snap: Snapshot, sp: Span, s: S, f: (S, Record) -> (S, Verdict)): Walk<S>
  {
    Fold(Visible(snap.entries, sp), s, f)
  }

  /**
   * Without failures and with a visitor that always goes on, the walk
   * visits every key/value it reaches and ends with a nil error.
   */
  lemma {:induction false} FoldVisitsAll<S>(vs: seq<Entry>, s: S, f: (S, Record) -> (S, Verdict))
    requires forall i :: 0 <= i < |vs| ==> vs[i].Kv?
    requires forall s', i :: 0 <= i < |vs| && vs[i].Kv? ==> f(s', vs[i].rec).1 == Continue
    ensures Fold(vs, s, f).err == None
    ensures Fold(vs, s, f).visited == KvCount(vs) == |vs|
    decreases |vs|
  {
    if |vs| > 0 {
      assert vs[0].Kv?;
      var s' := f(s, vs[0].rec).0;
      assert f(s, vs[0].rec).1 == Continue;
      assert forall i :: 0 <= i < |vs[1..]| ==> vs[1..][i] == vs[i + 1];
      FoldVisitsAll(vs[1..], s', f);
    }
  }

  /** A failure before any key/value ends the walk with nothing visited. */
  lemma FoldFaultsFirst<S>(vs: seq<Entry>, s: S, f: (S, Record) -> (S, Verdict))
    requires |vs| > 0 && vs[0].Fault?
    ensures Fold(vs, s, f) == Walk(s, 0, Some(vs[0].err))
  {
  }

  /** A visitor error on the first key/value ends the walk there, with that error. */
  lemma FoldAbortsFirst<S>(vs: seq<Entry>, s: S, f: (S, Record) -> (S, Verdict))
    requires |vs| > 0 && vs[0].Kv? && f(s, vs[0].rec).1.Abort?
    ensures Fold(vs, s, f) == Walk(f(s, vs[0].rec).0, 1, Some(f(s, vs[0].rec).1.err))
  {
  }

  /** A clean stop request on the first key/value ends the walk there, with a nil error. */
  lemma FoldStopsFirst<S>(vs: seq<Entry>, s: S, f: (S, Record) -> (S, Verdict))
    requires |vs| > 0 && vs[0].Kv? && f(s, vs[0].rec).1.Stop?
    ensures Fold(vs, s, f) == Walk(f(s, vs[0].rec).0, 1, None)
  {
  }

  /** A visitor that goes on after the first key/value leaves the rest of the walk to the tail. */
  lemma FoldContinuesFirst<S>(vs: seq<Entry>, s: S, f: (S, Record) -> (S, Verdict))
    requires |vs| > 0 && vs[0].Kv? && f(s, vs[0].rec).1.Continue?
    ensures var w := Fold(vs[1..], f(s, vs[0].rec).0, f);
            Fold(vs, s, f) == Walk(w.state, w.visited + 1, w.err)
  {
  }
}
