/** Feeding one client's live stream, in pop order, into the generation registry. */
module Composition {
  import opened Common
  import opened Protocol
  import R = RegistryModel
  import RI = RegistryInvariant
  import RR = RegistryRuns
  import RW = RegistryMeaning
  import C = ClientModel
  import CR = ClientRuns
  import CW = ClientMeaning

  // ---------------------------------------------------------------- the client side

  /** Subscribing yields a snapshot at the live base, anchored before everything delivered later. */
  lemma SubscriptionAnchorsStream(c: C.Config, s: C.Client, afterEventSeq: nat, nowMs: nat, incoming: seq<C.Message>,
                                  ops: seq<CR.Op>, clockMs: nat)
    requires CR.CursorInv(c, s, clockMs) && clockMs <= nowMs && CR.Clocked(nowMs, ops)
    requires C.SubscribeJobs(c, s, afterEventSeq, nowMs, incoming).result.Success?
    ensures var sub := C.SubscribeJobs(c, s, afterEventSeq, nowMs, incoming);
            var t := CR.Run(c, sub.next, ops);
            && t.phase == C.Live && t.snapshotSeq == Some(sub.result.value.eventSeq)
            && CR.CursorInv(c, t, CR.ClockAfter(nowMs, ops))
            && Feedable(c.digests, sub.result.value.eventSeq, sub.result.value.anchorMs, t.popped)
  {
    hide C.SubscribeJobs;
    CR.SubscribeInv(c, s, afterEventSeq, nowMs, incoming, clockMs);
    CW.SubscribeExactly(c, s, afterEventSeq, nowMs, incoming);
    var sub := C.SubscribeJobs(c, s, afterEventSeq, nowMs, incoming);
    assert CR.Stream(sub.next) == [];
    CR.RunKeepsCursor(c, sub.next, ops, nowMs);
    var t := CR.Run(c, sub.next, ops);
    assert forall i :: 0 <= i < |t.popped| ==> t.popped[i] == CR.Stream(t)[i];
  }

  /** Valid events contiguous after `base`, with anchors from `anchorMs` on that never decrease. */
  ghost predicate Feedable(h: Digests, base: nat, anchorMs: nat, events: seq<C.Delivered>) {
    && (forall i :: 0 <= i < |events| ==>
          && EventSeq(events[i].event) == base + 1 + i && EventSeq(events[i].event) <= U64_MAX
          && ValidEvent(h, events[i].event) && anchorMs <= events[i].anchorMs)
    && (forall i, j :: 0 <= i < j < |events| ==> events[i].anchorMs <= events[j].anchorMs)
  }

  // ---------------------------------------------------------------- the registry side

  /**
   * One step of the pool: the next popped event, applied at its own anchor or at a sampled
   * policy time, or any other use of the registry.
   */
  datatype FeedStep = Deliver(policyNowMs: Option<nat>) | Interleave(op: RR.Op)

  datatype Feed = Feed(registry: R.Registry, applied: nat)

  ghost predicate WellFed(steps: seq<FeedStep>) {
    forall i :: 0 <= i < |steps| && steps[i].Interleave? ==> !RR.Delivers(steps[i].op)
  }

  function Run(c: R.Config, r: R.Registry, events: seq<C.Delivered>, steps: seq<FeedStep>): Feed {
    if |steps| == 0 then Feed(r, 0)
    else
      var f := Run(c, r, events, steps[..|steps| - 1]);
      Advance(c, f, events, steps[|steps| - 1])
  }

  function Advance(c: R.Config, f: Feed, events: seq<C.Delivered>, step: FeedStep): Feed {
    match step
    case Deliver(policyNowMs) =>
      if f.applied < |events| then Feed(Apply(c, f.registry, events[f.applied], policyNowMs).next, f.applied + 1) else f
    case Interleave(op) => Feed(RR.Next(c, f.registry, op), f.applied)
  }

  /** Without a policy time an event is applied at the later of its anchor and the registry's clock. */
  function Apply(c: R.Config, r: R.Registry, d: C.Delivered, policyNowMs: Option<nat>): R.Step<()> {
    if policyNowMs.None? then R.ApplyEvent(c, r, d.event, d.anchorMs)
    else R.ApplyEventAt(c, r, d.event, d.anchorMs, policyNowMs.value)
  }

  /** The sampled policy time is behind the registry's clock or the event's own anchor. */
  predicate Behind(r: R.Registry, d: C.Delivered, policyNowMs: Option<nat>) {
    policyNowMs.Some? && (R.Before(policyNowMs.value, r.lastMonotonicMs) || policyNowMs.value < d.anchorMs)
  }

  /** While synchronized, the registry stands exactly at the last applied event. */
  ghost predicate InStep(f: Feed, base: nat, anchorMs: nat, events: seq<C.Delivered>) {
    && f.applied <= |events|
    && (f.registry.synchronized ==>
          && f.registry.lastEventSeq == Some(base + f.applied)
          && f.registry.lastAnchorMs == Some(if f.applied == 0 then anchorMs else events[f.applied - 1].anchorMs))
  }

  /** Errors about what an event says, as opposed to when or in which order it arrived. */
  predicate ContentError(e: R.RegistryError) {
    e.ReusedJobId? || e.RecentCapacityExceeded? || e.GenerationCapacityExceeded? || e.DeadlineOverflow?
  }

  lemma DispatchErrors(c: R.Config, r: R.Registry, e: BackendEvent, anchorMs: nat)
    requires ValidEvent(c.digests, e)
    ensures var s := R.Dispatch(c, r, e, anchorMs); s.result.Failure? ==> ContentError(s.result.error)
  {
  }

  /** An in-step event fails no check but the clock, and that one exactly when its policy time is behind. */
  lemma InStepChecks(c: R.Config, f: Feed, base: nat, anchorMs: nat, events: seq<C.Delivered>, policyNowMs: nat)
    requires InStep(f, base, anchorMs, events) && Feedable(c.digests, base, anchorMs, events)
    requires f.applied < |events| && f.registry.synchronized
    ensures var d := events[f.applied];
            R.CheckEvent(c, f.registry, d.event, d.anchorMs, policyNowMs)
            == if Behind(f.registry, d, Some(policyNowMs)) then Some(R.ClockMovedBackwards) else None
  {
  }

  /**
   * What a delivery can come to: refused by an unsynchronized registry, refused for a policy
   * time that is behind, applied, or failed on content. Every refusal suspends.
   */
  ghost predicate Arrived(s: R.Step<()>, r: R.Registry, d: C.Delivered, policyNowMs: Option<nat>) {
    if !r.synchronized then
      s.result == Failure(R.NotSynchronized) && !s.next.synchronized
    else if Behind(r, d, policyNowMs) then
      s.result == Failure(R.ClockMovedBackwards) && !s.next.synchronized
    else if s.result.Success? then
      s.next.lastEventSeq == Some(EventSeq(d.event)) && s.next.lastAnchorMs == Some(d.anchorMs)
    else
      !s.next.synchronized && ContentError(s.result.error)
  }

  /** The next delivered event is never refused for its sequence or its encoding. */
  lemma DeliveryOutcome(c: R.Config, f: Feed, base: nat, anchorMs: nat, events: seq<C.Delivered>, policyNowMs: Option<nat>)
    requires InStep(f, base, anchorMs, events) && Feedable(c.digests, base, anchorMs, events) && f.applied < |events|
    ensures Arrived(Apply(c, f.registry, events[f.applied], policyNowMs), f.registry, events[f.applied], policyNowMs)
  {
    var d := events[f.applied];
    var nowMs := if policyNowMs.Some? then policyNowMs.value else R.Latest(f.registry.lastMonotonicMs, d.anchorMs);
    if f.registry.synchronized {
      InStepChecks(c, f, base, anchorMs, events, nowMs);
      if R.CheckEvent(c, f.registry, d.event, d.anchorMs, nowMs).None? {
        CheckedOutcome(c, f.registry, d, nowMs);
      }
    }
  }

  /** Past its checks, an event either advances the journal position or fails on content and suspends. */
  lemma CheckedOutcome(c: R.Config, r: R.Registry, d: C.Delivered, nowMs: nat)
    requires R.CheckEvent(c, r, d.event, d.anchorMs, nowMs).None?
    ensures Arrived(R.ApplyEventAt(c, r, d.event, d.anchorMs, nowMs), r, d, Some(nowMs))
  {
    var clock := R.Latest(r.lastMonotonicMs, nowMs);
    var x := R.ExpireAt(r, clock);
    DispatchErrors(c, x, d.event, d.anchorMs);
    var applied := R.Dispatch(c, x, d.event, d.anchorMs);
    ConcludedOutcome(applied, d.event, d.anchorMs, clock);
    assert R.TryApplyEvent(c, r, d.event, d.anchorMs, nowMs) == R.Conclude(applied, d.event, d.anchorMs, clock);
  }

  lemma ConcludedOutcome(applied: R.Step<()>, e: BackendEvent, anchorMs: nat, nowMs: nat)
    ensures var s := R.Conclude(applied, e, anchorMs, nowMs);
            if applied.result.Failure? then s == applied
            else s.result == applied.result && s.next.lastEventSeq == Some(EventSeq(e)) && s.next.lastAnchorMs == Some(anchorMs)
  {
  }

  /** Other uses of the registry move no journal position and can only suspend it. */
  lemma InterleaveKeepsPosition(c: R.Config, r: R.Registry, op: RR.Op)
    requires !RR.Delivers(op)
    ensures var r' := RR.Next(c, r, op);
            r'.lastEventSeq == r.lastEventSeq && r'.lastAnchorMs == r.lastAnchorMs && (r'.synchronized ==> r.synchronized)
  {
  }

  lemma DeliverStaysInStep(c: R.Config, f: Feed, base: nat, anchorMs: nat, events: seq<C.Delivered>, policyNowMs: Option<nat>)
    requires InStep(f, base, anchorMs, events) && Feedable(c.digests, base, anchorMs, events) && f.applied < |events|
    ensures InStep(Feed(Apply(c, f.registry, events[f.applied], policyNowMs).next, f.applied + 1), base, anchorMs, events)
  {
    DeliveryOutcome(c, f, base, anchorMs, events, policyNowMs);
    ArrivedInStep(f, Apply(c, f.registry, events[f.applied], policyNowMs), base, anchorMs, events, policyNowMs);
  }

  lemma ArrivedInStep(f: Feed, s: R.Step<()>, base: nat, anchorMs: nat, events: seq<C.Delivered>, policyNowMs: Option<nat>)
    requires f.applied < |events| && EventSeq(events[f.applied].event) == base + 1 + f.applied
    requires Arrived(s, f.registry, events[f.applied], policyNowMs)
    ensures InStep(Feed(s.next, f.applied + 1), base, anchorMs, events)
  {
  }

  lemma PositionKeepsStep(f: Feed, r: R.Registry, base: nat, anchorMs: nat, events: seq<C.Delivered>)
    requires InStep(f, base, anchorMs, events)
    requires r.lastEventSeq == f.registry.lastEventSeq && r.lastAnchorMs == f.registry.lastAnchorMs
    requires r.synchronized ==> f.registry.synchronized
    ensures InStep(Feed(r, f.applied), base, anchorMs, events)
  {
  }

  lemma AdvanceStaysInStep(c: R.Config, f: Feed, base: nat, anchorMs: nat, events: seq<C.Delivered>, step: FeedStep)
    requires InStep(f, base, anchorMs, events) && Feedable(c.digests, base, anchorMs, events)
    requires step.Interleave? ==> !RR.Delivers(step.op)
    ensures InStep(Advance(c, f, events, step), base, anchorMs, events)
  {
    if step.Interleave? {
      InterleaveKeepsPosition(c, f.registry, step.op);
      PositionKeepsStep(f, RR.Next(c, f.registry, step.op), base, anchorMs, events);
    } else if f.applied < |events| {
      DeliverStaysInStep(c, f, base, anchorMs, events, step.policyNowMs);
    }
  }

  lemma {:induction false} FeedStaysInStep(c: R.Config, r: R.Registry, base: nat, anchorMs: nat, events: seq<C.Delivered>, steps: seq<FeedStep>)
    requires InStep(Feed(r, 0), base, anchorMs, events) && Feedable(c.digests, base, anchorMs, events) && WellFed(steps)
    ensures InStep(Run(c, r, events, steps), base, anchorMs, events)
    decreases |steps|
  {
    if |steps| == 0 {
    } else {
      var front, last := steps[..|steps| - 1], steps[|steps| - 1];
      FeedStaysInStep(c, r, base, anchorMs, events, front);
      AdvanceStaysInStep(c, Run(c, r, events, front), base, anchorMs, events, last);
    }
  }

  lemma {:induction false} FeedKeepsInv(c: R.Config, r: R.Registry, events: seq<C.Delivered>, steps: seq<FeedStep>)
    requires RI.Inv(c, r)
    ensures RI.Inv(c, Run(c, r, events, steps).registry)
    decreases |steps|
  {
    if |steps| == 0 {
    } else {
      var front, last := steps[..|steps| - 1], steps[|steps| - 1];
      FeedKeepsInv(c, r, events, front);
      var f := Run(c, r, events, front);
      if last.Interleave? {
        RR.NextInv(c, f.registry, last.op);
      } else if f.applied < |events| {
        var d := events[f.applied];
        RI.EventInv(c, f.registry, d.event, d.anchorMs,
                    if last.policyNowMs.Some? then last.policyNowMs.value else R.Latest(f.registry.lastMonotonicMs, d.anchorMs));
      }
    }
  }

  lemma SnapshotStartsInStep(c: R.Config, r: R.Registry, snapshot: C.JobSnapshot, events: seq<C.Delivered>)
    requires R.ApplySnapshot(c, r, snapshot.eventSeq, snapshot.current, snapshot.recent, snapshot.anchorMs).result.Success?
    ensures InStep(Feed(R.ApplySnapshot(c, r, snapshot.eventSeq, snapshot.current, snapshot.recent, snapshot.anchorMs).next, 0),
                   snapshot.eventSeq, snapshot.anchorMs, events)
  {
  }

  /**
   * The composition theorem: apply one client's snapshot, then its popped events in order,
   * each at its anchor or at any policy time, interleaved with anything else the pool does.
   * No event is ever refused for its sequence, and one is refused for its clock if and only
   * if the registry is synchronized and the policy time is behind.
   */
  lemma ClientNeverCausesGap(cc: C.Config, rc: R.Config, s: C.Client, afterEventSeq: nat, nowMs: nat,
                             incoming: seq<C.Message>, ops: seq<CR.Op>, clockMs: nat, r: R.Registry, steps: seq<FeedStep>,
                             policyNowMs: Option<nat>)
    requires rc.digests == cc.digests && RI.Inv(rc, r) && WellFed(steps)
    requires CR.CursorInv(cc, s, clockMs) && clockMs <= nowMs && CR.Clocked(nowMs, ops)
    requires C.SubscribeJobs(cc, s, afterEventSeq, nowMs, incoming).result.Success?
    requires var snapshot := C.SubscribeJobs(cc, s, afterEventSeq, nowMs, incoming).result.value;
             R.ApplySnapshot(rc, r, snapshot.eventSeq, snapshot.current, snapshot.recent, snapshot.anchorMs).result.Success?
    ensures var subscribed := C.SubscribeJobs(cc, s, afterEventSeq, nowMs, incoming);
            var snapshot := subscribed.result.value;
            var started := R.ApplySnapshot(rc, r, snapshot.eventSeq, snapshot.current, snapshot.recent, snapshot.anchorMs).next;
            var events := CR.Run(cc, subscribed.next, ops).popped;
            var f := Run(rc, started, events, steps);
            && RI.Inv(rc, f.registry)
            && (f.applied < |events| ==>
                  Arrived(Apply(rc, f.registry, events[f.applied], policyNowMs), f.registry, events[f.applied], policyNowMs))
  {
    SubscriptionAnchorsStream(cc, s, afterEventSeq, nowMs, incoming, ops, clockMs);
    var subscribed := C.SubscribeJobs(cc, s, afterEventSeq, nowMs, incoming);
    var snapshot := subscribed.result.value;
    var events := CR.Run(cc, subscribed.next, ops).popped;
    SnapshotStartsInStep(rc, r, snapshot, events);
    var started := R.ApplySnapshot(rc, r, snapshot.eventSeq, snapshot.current, snapshot.recent, snapshot.anchorMs).next;
    RI.SnapshotInv(rc, r, snapshot.eventSeq, snapshot.current, snapshot.recent, snapshot.anchorMs);
    FeedKeepsInv(rc, started, events, steps);
    FeedStaysInStep(rc, started, snapshot.eventSeq, snapshot.anchorMs, events, steps);
    var f := Run(rc, started, events, steps);
    if f.applied < |events| {
      DeliveryOutcome(rc, f, snapshot.eventSeq, snapshot.anchorMs, events, policyNowMs);
    }
  }

  /**
   * From the wire to the board: after a subscription's snapshot is accepted, the registry
   * offers exactly the jobs of the snapshot message received, less those already run out,
   * and stands at that message's sequence.
   */
  lemma SubscribedBoard(cc: C.Config, rc: R.Config, s: C.Client, afterEventSeq: nat, nowMs: nat, incoming: seq<C.Message>, r: R.Registry)
    requires RI.Inv(rc, r) && C.SubscribeJobs(cc, s, afterEventSeq, nowMs, incoming).result.Success?
    requires var snapshot := C.SubscribeJobs(cc, s, afterEventSeq, nowMs, incoming).result.value;
             R.ApplySnapshot(rc, r, snapshot.eventSeq, snapshot.current, snapshot.recent, snapshot.anchorMs).result.Success?
    ensures var snapshot := C.SubscribeJobs(cc, s, afterEventSeq, nowMs, incoming).result.value;
            var started := R.ApplySnapshot(rc, r, snapshot.eventSeq, snapshot.current, snapshot.recent, snapshot.anchorMs).next;
            && |incoming| > 0 && incoming[0].Snapshot? && incoming[0].id == s.nextRequestId
            && started.lastEventSeq == Some(incoming[0].eventSeq)
            && RW.BoardOf(started)
               == RW.BoardAt(RW.Listed(r.entries, incoming[0].current, incoming[0].recent, nowMs), R.Latest(r.lastMonotonicMs, nowMs))
  {
    hide C.SubscribeJobs, RW.BoardAt, RW.Listed, RW.BoardOf;
    CW.SubscribeExactly(cc, s, afterEventSeq, nowMs, incoming);
    var snapshot := C.SubscribeJobs(cc, s, afterEventSeq, nowMs, incoming).result.value;
    RW.SnapshotMeaning(rc, r, snapshot.eventSeq, snapshot.current, snapshot.recent, snapshot.anchorMs);
    SnapshotStartsInStep(rc, r, snapshot, []);
  }

  // ---------------------------------------------------------------- one monotonic clock

  /** When a step samples the clock, if it does. */
  function SampleOf(step: FeedStep): Option<nat> {
    match step
    case Deliver(policyNowMs) => policyNowMs
    case Interleave(op) =>
      if op.QueryRoles? || op.QueryCurrent? || op.QueryRecovery? || op.Admit? || op.Recover? || op.Collect? then Some(op.nowMs) else None
  }

  /** The latest sample so far. */
  function Clock(startMs: nat, steps: seq<FeedStep>): nat {
    if |steps| == 0 then startMs
    else
      var sample := SampleOf(steps[|steps| - 1]);
      if sample.Some? then sample.value else Clock(startMs, steps[..|steps| - 1])
  }

  /** Samples of one monotonic clock, taken after each event delivered so far had been received. */
  ghost predicate Sampled(c: R.Config, r: R.Registry, events: seq<C.Delivered>, startMs: nat, steps: seq<FeedStep>) {
    |steps| == 0 ||
    (var front, last := steps[..|steps| - 1], steps[|steps| - 1];
     var applied := Run(c, r, events, front).applied;
     && Sampled(c, r, events, startMs, front) && Clock(startMs, front) <= Clock(startMs, steps)
     && (last.Deliver? && applied < |events| ==> events[applied].anchorMs <= Clock(startMs, steps)))
  }

  predicate NotAfter(last: Option<nat>, clockMs: nat) {
    last.Some? ==> last.value <= clockMs
  }

  lemma InterleaveKeepsClock(c: R.Config, r: R.Registry, op: RR.Op, clockMs: nat)
    requires !RR.Delivers(op) && NotAfter(r.lastMonotonicMs, clockMs)
    ensures var sample := SampleOf(Interleave(op));
            NotAfter(RR.Next(c, r, op).lastMonotonicMs, if sample.Some? && sample.value >= clockMs then sample.value else clockMs)
  {
  }

  lemma ApplyKeepsClock(c: R.Config, r: R.Registry, e: BackendEvent, anchorMs: nat, policyNowMs: nat, clockMs: nat)
    requires NotAfter(r.lastMonotonicMs, clockMs) && policyNowMs <= clockMs
    ensures NotAfter(R.ApplyEventAt(c, r, e, anchorMs, policyNowMs).next.lastMonotonicMs, clockMs)
  {
    if R.CheckEvent(c, r, e, anchorMs, policyNowMs).None? {
      var nowMs := R.Latest(r.lastMonotonicMs, policyNowMs);
      var x := R.ExpireAt(r, nowMs);
      DispatchKeepsClock(c, x, e, anchorMs);
      var applied := R.Dispatch(c, x, e, anchorMs);
      assert R.TryApplyEvent(c, r, e, anchorMs, policyNowMs) == R.Conclude(applied, e, anchorMs, nowMs);
    }
  }

  lemma DispatchKeepsClock(c: R.Config, r: R.Registry, e: BackendEvent, anchorMs: nat)
    ensures R.Dispatch(c, r, e, anchorMs).next.lastMonotonicMs == r.lastMonotonicMs
  {
  }

  /** The registry's own clock never runs ahead of the samples. */
  lemma {:induction false} FeedKeepsClock(c: R.Config, r: R.Registry, events: seq<C.Delivered>, startMs: nat, steps: seq<FeedStep>)
    requires NotAfter(r.lastMonotonicMs, startMs) && WellFed(steps) && Sampled(c, r, events, startMs, steps)
    ensures NotAfter(Run(c, r, events, steps).registry.lastMonotonicMs, Clock(startMs, steps))
    decreases |steps|
  {
    if |steps| == 0 {
    } else {
      var front, last := steps[..|steps| - 1], steps[|steps| - 1];
      FeedKeepsClock(c, r, events, startMs, front);
      var f, clock := Run(c, r, events, front), Clock(startMs, steps);
      if last.Interleave? {
        InterleaveKeepsClock(c, f.registry, last.op, Clock(startMs, front));
      } else if f.applied < |events| {
        var d := events[f.applied];
        ApplyKeepsClock(c, f.registry, d.event, d.anchorMs,
                        if last.policyNowMs.Some? then last.policyNowMs.value else R.Latest(f.registry.lastMonotonicMs, d.anchorMs), clock);
      }
    }
  }

  /**
   * A pool that samples one monotonic clock, as the router does under its lock, never delivers
   * behind it: a delivery fails only on content, or because the registry was suspended before.
   */
  lemma SampledDeliveryNeverRollsBack(c: R.Config, r: R.Registry, base: nat, anchorMs: nat, events: seq<C.Delivered>, startMs: nat,
                                      steps: seq<FeedStep>, policyNowMs: nat)
    requires InStep(Feed(r, 0), base, anchorMs, events) && Feedable(c.digests, base, anchorMs, events) && WellFed(steps)
    requires NotAfter(r.lastMonotonicMs, startMs) && Sampled(c, r, events, startMs, steps)
    requires Clock(startMs, steps) <= policyNowMs
    requires var f := Run(c, r, events, steps); f.applied < |events| ==> events[f.applied].anchorMs <= policyNowMs
    ensures var f := Run(c, r, events, steps);
            f.applied < |events| ==>
              && !Behind(f.registry, events[f.applied], Some(policyNowMs))
              && Arrived(Apply(c, f.registry, events[f.applied], Some(policyNowMs)), f.registry, events[f.applied], Some(policyNowMs))
  {
    FeedKeepsClock(c, r, events, startMs, steps);
    FeedStaysInStep(c, r, base, anchorMs, events, steps);
    var f := Run(c, r, events, steps);
    if f.applied < |events| {
      DeliveryOutcome(c, f, base, anchorMs, events, Some(policyNowMs));
    }
  }
}
