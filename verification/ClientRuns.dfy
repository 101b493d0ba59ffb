/** What holds of one backend connection over every sequence of exchanges and pops. */
module ClientRuns {
  import opened Common
  import opened Protocol
  import opened ClientModel

  /** Every live event delivered on this connection so far, popped or still queued. */
  function Stream(s: Client): seq<Delivered> {
    s.popped + s.queued
  }

  /** Valid events, contiguous after `base`, under anchors that never decrease nor pass `floor`. */
  ghost predicate WellStreamed(h: Digests, base: nat, ds: seq<Delivered>, floor: nat) {
    && (forall i :: 0 <= i < |ds| ==>
          && EventSeq(ds[i].event) == base + 1 + i && EventSeq(ds[i].event) <= U64_MAX
          && ValidEvent(h, ds[i].event) && ds[i].anchorMs <= floor)
    && (forall i, j :: 0 <= i < j < |ds| ==> ds[i].anchorMs <= ds[j].anchorMs)
  }

  /** The last `capacity` elements. */
  function LastOf<T>(capacity: nat, xs: seq<T>): seq<T> {
    if |xs| <= capacity then xs else xs[|xs| - capacity..]
  }

  /** A receipt accepted as fresh is the receipt of the delivered event at its sequence. */
  ghost predicate Backed(base: nat, ds: seq<Delivered>, receipt: ShareReceipt) {
    && base < receipt.eventSeq <= base + |ds|
    && ds[receipt.eventSeq - base - 1].event.ShareCommitted?
    && ds[receipt.eventSeq - base - 1].event.receipt == receipt
  }

  /** The backing event also names the submitted job, worker and target. */
  ghost predicate BackedFor(base: nat, ds: seq<Delivered>, receipt: ShareReceipt, sub: Submission) {
    && Backed(base, ds, receipt)
    && (var e := ds[receipt.eventSeq - base - 1].event;
        e.jobId == sub.jobId && e.identity == sub.identity && e.targetLe == sub.targetLe)
  }

  ghost predicate ReplayInv(s: Client) {
    && s.replayCursor <= s.highWatermark
    && (s.replayComplete ==> s.replayCursor == s.highWatermark)
    && s.liveCursor.None? && s.snapshotSeq.None? && s.anchorFloor.None?
    && s.queued == [] && s.popped == [] && s.observed == [] && s.acceptedFresh == []
  }

  ghost predicate LiveInv(c: Config, s: Client, clockMs: nat) {
    && s.snapshotSeq.Some? && s.anchorFloor.Some? && s.anchorFloor.value <= clockMs
    && s.liveCursor == Some(s.snapshotSeq.value + |Stream(s)|)
    && s.liveCursor.value <= s.highWatermark
    && |s.queued| <= c.queueCapacity
    && WellStreamed(c.digests, s.snapshotSeq.value, Stream(s), s.anchorFloor.value)
    && s.observed == LastOf(c.queueCapacity, Events(s.popped))
    && (forall i :: 0 <= i < |s.acceptedFresh| ==> Backed(s.snapshotSeq.value, Stream(s), s.acceptedFresh[i]))
  }

  /** The cursor invariant: while usable, a live connection is flushed through its watermark. */
  ghost predicate CursorInv(c: Config, s: Client, clockMs: nat) {
    && c.queueCapacity > 0
    && (if s.phase == Replay then ReplayInv(s) else LiveInv(c, s, clockMs))
    && (s.phase == Live && s.usable ==> s.liveCursor.value == s.highWatermark)
  }

  /** What no step undoes. */
  ghost predicate Advances(s: Client, s': Client) {
    && s.highWatermark <= s'.highWatermark
    && (!s.usable ==> !s'.usable)
    && s'.identity == s.identity
    && s.popped <= s'.popped
    && s.acceptedFresh <= s'.acceptedFresh
    && (s.phase == Live ==> s'.phase == Live && s'.snapshotSeq == s.snapshotSeq && Stream(s) <= Stream(s'))
    && (s.phase == Live && s.anchorFloor.Some? ==> s'.anchorFloor.Some? && s.anchorFloor.value <= s'.anchorFloor.value)
    && (s.phase == Replay && s'.phase == Replay ==> s.replayCursor <= s'.replayCursor)
    && AnchoredAfter(s, s')
  }

  /** Events delivered since carry anchors no earlier than the floor held before. */
  ghost predicate AnchoredAfter(s: Client, s': Client) {
    s.phase == Live && s.anchorFloor.Some? ==>
      forall i :: |Stream(s)| <= i < |Stream(s')| ==> s.anchorFloor.value <= Stream(s')[i].anchorMs
  }

  // ---------------------------------------------------------------- one exchange

  lemma EnqueueInv(c: Config, s: Client, e: BackendEvent, clockMs: nat)
    requires s.phase == Live && LiveInv(c, s, clockMs) && s.liveCursor.value == s.highWatermark
    requires RefuseEvent(c, s, true, e).None? && ValidEvent(c.digests, e)
    ensures var s' := Enqueue(s, e, s.anchorFloor.value);
            && LiveInv(c, s', clockMs) && s'.liveCursor.value == s'.highWatermark
            && Stream(s') == Stream(s) + [Delivered(e, s.anchorFloor.value)]
  {
    var d := Delivered(e, s.anchorFloor.value);
    var s' := Enqueue(s, e, s.anchorFloor.value);
    assert Stream(s') == Stream(s) + [d];
    forall i | 0 <= i < |s.acceptedFresh|
      ensures Backed(s.snapshotSeq.value, Stream(s'), s.acceptedFresh[i])
    {
      assert Backed(s.snapshotSeq.value, Stream(s), s.acceptedFresh[i]);
    }
  }

  /** Only the stream moved, and only forward. */
  ghost predicate OnlyStreamed(s: Client, s': Client) {
    && s' == s.(liveCursor := s'.liveCursor, highWatermark := s'.highWatermark, queued := s'.queued)
    && s.queued <= s'.queued && s.highWatermark <= s'.highWatermark
    && forall i :: |s.queued| <= i < |s'.queued| ==> s.anchorFloor == Some(s'.queued[i].anchorMs)
  }

  lemma StreamedOnward(s: Client, e: BackendEvent, s': Client)
    requires s.anchorFloor.Some? && OnlyStreamed(Enqueue(s, e, s.anchorFloor.value), s')
    ensures OnlyStreamed(s, s')
  {
    var t := Enqueue(s, e, s.anchorFloor.value);
    assert t.queued[|s.queued|].anchorMs == s.anchorFloor.value;
    assert s'.queued[..|t.queued|] == t.queued;
  }

  lemma {:induction false} ReceiveInv(c: Config, s: Client, requestId: nat, incoming: seq<Message>, clockMs: nat)
    requires s.phase == Live && LiveInv(c, s, clockMs) && s.liveCursor.value == s.highWatermark
    ensures Streamed(c, s, Receive(c, s, true, requestId, s.anchorFloor.value, incoming), clockMs)
    decreases |incoming|
  {
    ReceiveRound(c, s, requestId, s.anchorFloor.value, incoming);
    if !Queues(c, s, incoming) {
      assert s.queued <= s.queued;
    } else {
      var e := incoming[0].event;
      EnqueueInv(c, s, e, clockMs);
      var next := Enqueue(s, e, s.anchorFloor.value);
      ReceiveInv(c, next, requestId, incoming[1..], clockMs);
      StreamedOnward(s, e, Receive(c, next, true, requestId, s.anchorFloor.value, incoming[1..]).next);
    }
  }

  /** The next received message is an event the live stream accepts. */
  predicate Queues(c: Config, s: Client, incoming: seq<Message>) {
    |incoming| != 0 && incoming[0].Event? && ValidEvent(c.digests, incoming[0].event) && RefuseEvent(c, s, true, incoming[0].event).None?
  }

  /** One round of the receive loop: queue an event and go on, or stop where it stands. */
  lemma ReceiveRound(c: Config, s: Client, requestId: nat, anchorMs: nat, incoming: seq<Message>)
    ensures var r := Receive(c, s, true, requestId, anchorMs, incoming);
            if Queues(c, s, incoming) then
              r == Receive(c, Enqueue(s, incoming[0].event, anchorMs), true, requestId, anchorMs, incoming[1..])
            else
              r.next == s && (r.result.Success? ==> ValidMessage(c.digests, r.result.value) && !r.result.value.Event?)
  {
  }

  /** The receive loop left a flushed live state, and returned no event as a response. */
  ghost predicate Streamed(c: Config, s: Client, r: Step<Message>, clockMs: nat) {
    && LiveInv(c, r.next, clockMs) && r.next.liveCursor.value == r.next.highWatermark
    && OnlyStreamed(s, r.next)
    && (r.result.Success? ==> ValidMessage(c.digests, r.result.value) && !r.result.value.Event?)
  }

  lemma ReceiveQuiet(c: Config, s: Client, requestId: nat, anchorMs: nat, incoming: seq<Message>)
    ensures var r := Receive(c, s, false, requestId, anchorMs, incoming);
            && r.next == s
            && (r.result.Success? ==> ValidMessage(c.digests, r.result.value) && !r.result.value.Event?)
  {
  }

  /** Replay requests change nothing but the request counter and usability. */
  lemma QuietRequest(c: Config, s: Client, nowMs: nat, incoming: seq<Message>)
    ensures var x := Request(c, s, false, nowMs, incoming);
            && x.next == s.(nextRequestId := x.next.nextRequestId, usable := x.next.usable)
            && (!s.usable ==> x.result.Failure? && x.next == s)
            && (x.result.Success? ==> x.next.usable && ValidMessage(c.digests, x.result.value))
  {
    var id := AllocateRequestId(s);
    if id.result.Success? {
      ReceiveQuiet(c, Poison(id.next), id.result.value, nowMs, incoming);
    }
  }

  ghost predicate Exchanged(c: Config, s: Client, x: Step<Message>, nowMs: nat) {
    && CursorInv(c, x.next, nowMs) && Advances(s, x.next)
    && x.next.phase == s.phase && x.next.acceptedFresh == s.acceptedFresh && x.next.popped == s.popped
    && (x.result.Success? ==> s.usable && x.next.usable && ValidMessage(c.digests, x.result.value))
    && (x.next.usable ==> s.usable)
  }

  /** A live state that only streamed is kept, with or without the end of its exchange. */
  lemma StreamedKeeps(c: Config, s: Client, t: Client, clockMs: nat, nowMs: nat)
    requires CursorInv(c, s, clockMs) && s.phase == Live && s.usable && clockMs <= nowMs && OnlyStreamed(Poison(s), t)
    requires LiveInv(c, t, clockMs) && t.liveCursor.value == t.highWatermark
    ensures Kept(c, s, t, nowMs) && Kept(c, s, t.(usable := true, anchorFloor := Some(nowMs)), nowMs)
  {
    FloorRises(c, t, clockMs, nowMs);
    assert Stream(s) <= Stream(t);
    assert Stream(t.(usable := true, anchorFloor := Some(nowMs))) == Stream(t);
  }

  lemma LiveExchange(c: Config, s: Client, requestId: nat, nowMs: nat, incoming: seq<Message>, clockMs: nat)
    requires CursorInv(c, s, clockMs) && s.phase == Live && clockMs <= nowMs
    ensures Exchanged(c, s, Exchange(c, s, true, requestId, nowMs, incoming), nowMs)
  {
    if s.usable {
      var p := Poison(s);
      ReceiveInv(c, p, requestId, incoming, clockMs);
      StreamedKeeps(c, s, Receive(c, p, true, requestId, s.anchorFloor.value, incoming).next, clockMs, nowMs);
    } else {
      LaterClock(c, s, clockMs, nowMs);
    }
  }

  lemma LaterClock(c: Config, s: Client, clockMs: nat, nowMs: nat)
    requires CursorInv(c, s, clockMs) && clockMs <= nowMs
    ensures CursorInv(c, s, nowMs)
  {
  }

  /** Advancing the floor to the instant of an answered request keeps the stream well anchored. */
  lemma FloorRises(c: Config, s: Client, clockMs: nat, nowMs: nat)
    requires s.phase == Live && LiveInv(c, s, clockMs) && clockMs <= nowMs
    ensures LiveInv(c, s, nowMs)
    ensures forall usable: bool :: LiveInv(c, s.(anchorFloor := Some(nowMs), usable := usable), nowMs)
  {
    forall usable: bool
      ensures LiveInv(c, s.(anchorFloor := Some(nowMs), usable := usable), nowMs)
    {
      var t := s.(anchorFloor := Some(nowMs), usable := usable);
      assert Stream(t) == Stream(s);
      assert forall i :: 0 <= i < |s.acceptedFresh| ==> Backed(s.snapshotSeq.value, Stream(s), s.acceptedFresh[i]);
    }
  }

  /** The request counter and usability are not part of the cursor invariant's stream. */
  lemma CounterIrrelevant(c: Config, s: Client, n: nat, usable: bool, clockMs: nat)
    requires CursorInv(c, s, clockMs) && (usable ==> s.usable)
    ensures CursorInv(c, s.(nextRequestId := n, usable := usable), clockMs)
    ensures Advances(s, s.(nextRequestId := n, usable := usable))
  {
    var t := s.(nextRequestId := n, usable := usable);
    assert Stream(t) == Stream(s);
    if s.phase == Live {
      assert forall i :: 0 <= i < |s.acceptedFresh| ==> Backed(s.snapshotSeq.value, Stream(s), s.acceptedFresh[i]);
    }
  }

  lemma AdvancesTransitive(a: Client, b: Client, d: Client)
    requires Advances(a, b) && Advances(b, d) && (a.phase == Replay && d.phase == Replay ==> b.phase == Replay)
    ensures Advances(a, d)
  {
  }

  // ---------------------------------------------------------------- operations

  ghost predicate Kept(c: Config, s: Client, s': Client, nowMs: nat) {
    CursorInv(c, s', nowMs) && Advances(s, s')
  }

  lemma PoisonKeeps(c: Config, s: Client, s': Client, nowMs: nat)
    requires Kept(c, s, s', nowMs)
    ensures Kept(c, s, Poison(s'), nowMs)
  {
    CounterIrrelevant(c, s', s'.nextRequestId, false, nowMs);
  }

  /** A request on either phase keeps the invariant and hands back a valid, correlated message. */
  lemma RequestInv(c: Config, s: Client, nowMs: nat, incoming: seq<Message>, clockMs: nat)
    requires CursorInv(c, s, clockMs) && clockMs <= nowMs
    ensures Exchanged(c, s, Request(c, s, s.phase == Live, nowMs, incoming), nowMs)
    ensures s.phase == Replay ==> Exchanged(c, s, Request(c, s, false, nowMs, incoming), nowMs)
  {
    LaterClock(c, s, clockMs, nowMs);
    var id := AllocateRequestId(s);
    CounterIrrelevant(c, s, s.nextRequestId + 1, s.usable, clockMs);
    CounterIrrelevant(c, s, s.nextRequestId, false, nowMs);
    if s.phase == Live {
      if id.result.Success? {
        LiveExchange(c, id.next, id.result.value, nowMs, incoming, clockMs);
        assert Stream(id.next) == Stream(s);
      }
    } else {
      QuietRequest(c, s, nowMs, incoming);
      var x := Request(c, s, false, nowMs, incoming);
      CounterIrrelevant(c, s, x.next.nextRequestId, x.next.usable, nowMs);
    }
  }

  lemma SelfKept(c: Config, s: Client, nowMs: nat)
    requires CursorInv(c, s, nowMs)
    ensures Kept(c, s, s, nowMs)
  {
  }

  lemma PageInv(c: Config, s: Client, requested: nat, limit: nat, after: nat, next: nat, complete: bool,
                events: seq<BackendEvent>, nowMs: nat)
    requires CursorInv(c, s, nowMs) && s.phase == Replay && requested == s.replayCursor
    requires next == after + |events|
    ensures Kept(c, s, TakePage(c, s, requested, limit, after, next, complete, events).next, nowMs)
  {
  }

  lemma ReadInv(c: Config, s: Client, afterEventSeq: nat, limit: nat, nowMs: nat, incoming: seq<Message>, clockMs: nat)
    requires CursorInv(c, s, clockMs) && clockMs <= nowMs
    ensures Kept(c, s, ReadEvents(c, s, afterEventSeq, limit, nowMs, incoming).next, nowMs)
  {
    LaterClock(c, s, clockMs, nowMs);
    SelfKept(c, s, nowMs);
    if EnsurePhase(s, Replay).None? && afterEventSeq == s.replayCursor {
      RequestInv(c, s, nowMs, incoming, clockMs);
      QuietRequest(c, s, nowMs, incoming);
      PageResponseInv(c, s, Request(c, s, false, nowMs, incoming), afterEventSeq, limit, nowMs);
    }
  }

  lemma PageResponseInv(c: Config, s: Client, x: Step<Message>, afterEventSeq: nat, limit: nat, nowMs: nat)
    requires Kept(c, s, x.next, nowMs) && x.next.phase == Replay && afterEventSeq == x.next.replayCursor
    requires x.result.Success? ==> ValidMessage(c.digests, x.result.value)
    ensures Kept(c, s, TakePageResponse(c, x, afterEventSeq, limit).next, nowMs)
  {
    PoisonKeeps(c, s, x.next, nowMs);
    if x.result.Success? && x.result.value.Page? {
      var m := x.result.value;
      PageInv(c, x.next, afterEventSeq, limit, m.afterEventSeq, m.nextEventSeq, m.complete, m.events, nowMs);
      AdvancesTransitive(s, x.next,
        TakePage(c, x.next, afterEventSeq, limit, m.afterEventSeq, m.nextEventSeq, m.complete, m.events).next);
    }
  }

  lemma GoLiveInv(c: Config, s: Client, after: nat, eventSeq: nat, current: Option<AcceptableJob>,
                  recent: seq<AcceptableJob>, nowMs: nat)
    requires CursorInv(c, s, nowMs) && s.phase == Replay
    ensures Kept(c, s, GoLive(s, after, eventSeq, current, recent, nowMs).next, nowMs)
  {
    SelfKept(c, s, nowMs);
    PoisonKeeps(c, s, s, nowMs);
    if s.highWatermark <= eventSeq {
      WentLive(c, s, s.replayComplete && eventSeq <= s.replayCursor, eventSeq, nowMs);
    }
  }

  /** The live stream starts empty, flushed through the snapshot it starts from. */
  lemma WentLive(c: Config, s: Client, replayComplete: bool, eventSeq: nat, nowMs: nat)
    requires CursorInv(c, s, nowMs) && s.phase == Replay && s.highWatermark <= eventSeq
    ensures Kept(c, s, s.(highWatermark := eventSeq, replayComplete := replayComplete, liveCursor := Some(eventSeq),
                          snapshotSeq := Some(eventSeq), anchorFloor := Some(nowMs), phase := Live), nowMs)
  {
    assert Events([]) == [];
  }

  lemma SubscribeInv(c: Config, s: Client, afterEventSeq: nat, nowMs: nat, incoming: seq<Message>, clockMs: nat)
    requires CursorInv(c, s, clockMs) && clockMs <= nowMs
    ensures Kept(c, s, SubscribeJobs(c, s, afterEventSeq, nowMs, incoming).next, nowMs)
  {
    LaterClock(c, s, clockMs, nowMs);
    SelfKept(c, s, nowMs);
    if EnsurePhase(s, Replay).None? {
      RequestInv(c, s, nowMs, incoming, clockMs);
      SnapshotResponseInv(c, s, Request(c, s, false, nowMs, incoming), afterEventSeq, nowMs);
    }
  }

  lemma SnapshotResponseInv(c: Config, s: Client, x: Step<Message>, afterEventSeq: nat, nowMs: nat)
    requires Kept(c, s, x.next, nowMs) && x.next.phase == Replay
    ensures Kept(c, s, TakeSnapshotResponse(x, afterEventSeq, nowMs).next, nowMs)
  {
    PoisonKeeps(c, s, x.next, nowMs);
    if x.result.Success? && x.result.value.Snapshot? {
      var m := x.result.value;
      GoLiveInv(c, x.next, afterEventSeq, m.eventSeq, m.current, m.recent, nowMs);
      AdvancesTransitive(s, x.next, GoLive(x.next, afterEventSeq, m.eventSeq, m.current, m.recent, nowMs).next);
    }
  }

  lemma TakeHealthInv(c: Config, s: Client, eventSeq: nat, healthy: bool, recoveryOnly: bool, nowMs: nat)
    requires CursorInv(c, s, nowMs) && s.usable
    ensures Kept(c, s, TakeHealth(s, eventSeq, healthy, recoveryOnly).next, nowMs)
  {
    var t := TakeHealth(s, eventSeq, healthy, recoveryOnly).next;
    assert t == s.(highWatermark := t.highWatermark, replayComplete := t.replayComplete, usable := t.usable);
    WatermarkMoves(c, s, t.highWatermark, t.replayComplete, t.usable, nowMs);
  }

  /** A watermark may rise on a connection that stays behind it only by becoming unusable. */
  lemma WatermarkMoves(c: Config, s: Client, watermark: nat, replayComplete: bool, usable: bool, nowMs: nat)
    requires CursorInv(c, s, nowMs) && s.highWatermark <= watermark && (usable ==> s.usable)
    requires s.phase == Replay && replayComplete ==> s.replayCursor == watermark
    requires s.phase == Live && usable ==> s.highWatermark == watermark
    ensures Kept(c, s, s.(highWatermark := watermark, replayComplete := replayComplete, usable := usable), nowMs)
  {
    var t := s.(highWatermark := watermark, replayComplete := replayComplete, usable := usable);
    assert Stream(t) == Stream(s);
    if s.phase == Live {
      assert forall i :: 0 <= i < |s.acceptedFresh| ==> Backed(s.snapshotSeq.value, Stream(s), s.acceptedFresh[i]);
    }
  }

  lemma HealthInv(c: Config, s: Client, nowMs: nat, incoming: seq<Message>, clockMs: nat)
    requires CursorInv(c, s, clockMs) && clockMs <= nowMs
    ensures Kept(c, s, Health(c, s, nowMs, incoming).next, nowMs)
  {
    RequestInv(c, s, nowMs, incoming, clockMs);
    var x := Request(c, s, s.phase == Live, nowMs, incoming);
    PoisonKeeps(c, s, x.next, nowMs);
    if x.result.Success? && x.result.value.HealthStatus? {
      var m := x.result.value;
      TakeHealthInv(c, x.next, m.eventSeq, m.healthy, m.recoveryOnly, nowMs);
      AdvancesTransitive(s, x.next, TakeHealth(x.next, m.eventSeq, m.healthy, m.recoveryOnly).next);
    }
  }

  lemma LastOfAppend<T>(capacity: nat, xs: seq<T>, x: T)
    requires capacity > 0
    ensures Append(capacity, LastOf(capacity, xs), x) == LastOf(capacity, xs + [x])
  {
  }

  lemma PopInv(c: Config, s: Client, clockMs: nat)
    requires CursorInv(c, s, clockMs)
    ensures Kept(c, s, Pop(c, s).0, clockMs) && Stream(Pop(c, s).0) == Stream(s)
    ensures if |s.popped| == |Stream(s)| then Pop(c, s) == (s, None)
            else Pop(c, s).1 == Some(Stream(s)[|s.popped|]) && Pop(c, s).0.popped == s.popped + [Stream(s)[|s.popped|]]
  {
    var t := Pop(c, s).0;
    assert Stream(t) == Stream(s);
    if |s.queued| != 0 {
      assert Events(t.popped) == Events(s.popped) + [s.queued[0].event];
      LastOfAppend(c.queueCapacity, Events(s.popped), s.queued[0].event);
      assert forall i :: 0 <= i < |s.acceptedFresh| ==> Backed(s.snapshotSeq.value, Stream(s), s.acceptedFresh[i]);
    }
  }

  lemma ConnectInv(c: Config, poolInstance: nat, lastEventSeq: nat, nowMs: nat, incoming: seq<Message>)
    requires c.queueCapacity > 0
    ensures var r := Connect(c, poolInstance, lastEventSeq, nowMs, incoming);
            r.Success? ==> CursorInv(c, r.value, nowMs) && r.value.phase == Replay && r.value.usable
  {
    QuietRequest(c, Fresh(lastEventSeq), nowMs, incoming);
  }

  // ---------------------------------------------------------------- share commits

  /** Where a piece of live evidence sits in the delivered stream. */
  lemma EvidenceIndex(c: Config, s: Client, clockMs: nat, i: nat) returns (k: nat)
    requires s.phase == Live && LiveInv(c, s, clockMs) && i < |LiveEvidence(s)|
    ensures k < |Stream(s)| && Stream(s)[k].event == LiveEvidence(s)[i]
    ensures EventSeq(LiveEvidence(s)[i]) == s.snapshotSeq.value + 1 + k
  {
    if i < |s.queued| {
      k := |s.popped| + i;
    } else {
      var off := if |s.popped| <= c.queueCapacity then 0 else |s.popped| - c.queueCapacity;
      k := off + (i - |s.queued|);
      assert s.observed[i - |s.queued|] == Events(s.popped)[k];
    }
  }

  /** A delivered event that is still queued, or among the last `capacity` popped, is live evidence. */
  lemma EvidenceRetained(c: Config, s: Client, clockMs: nat, k: nat)
    requires s.phase == Live && LiveInv(c, s, clockMs)
    requires k < |Stream(s)| && |s.popped| < k + 1 + c.queueCapacity
    ensures exists i :: 0 <= i < |LiveEvidence(s)| && LiveEvidence(s)[i] == Stream(s)[k].event
  {
    if k >= |s.popped| {
      assert LiveEvidence(s)[k - |s.popped|] == Stream(s)[k].event;
    } else {
      var off := if |s.popped| <= c.queueCapacity then 0 else |s.popped| - c.queueCapacity;
      assert s.observed[k - off] == Events(s.popped)[k];
      assert LiveEvidence(s)[|s.queued| + (k - off)] == Stream(s)[k].event;
    }
  }

  /** No conflict found means every retained event agrees with the claimed receipt. */
  lemma {:induction false} NoConflict(evidence: seq<BackendEvent>, receipt: ShareReceipt, identity: WorkerIdentity, targetLe: Hex32, i: nat)
    requires HistoryConflict(evidence, receipt, identity, targetLe).None? && i < |evidence|
    ensures EventSeq(evidence[i]) == receipt.eventSeq || (evidence[i].ShareCommitted? && evidence[i].receipt.shareId == receipt.shareId) ==>
              ShareEventMatches(evidence[i], receipt, identity, targetLe)
    decreases i
  {
    if i == 0 {
    } else {
      NoConflict(evidence[1..], receipt, identity, targetLe, i - 1);
    }
  }

  /**
   * A successful acknowledgement is backed by an identical event delivered on this
   * connection. A fresh one advances past the cursor before the request; it repeats
   * an earlier fresh share only after `queueCapacity` later events were popped.
   */
  lemma CommitIsBacked(c: Config, s: Client, sub: Submission, shareId: nat, attributionId: nat, cursorBefore: nat,
                       receipt: ShareReceipt, replayed: bool, clockMs: nat)
    requires s.phase == Live && LiveInv(c, s, clockMs)
    requires TakeCommit(s, sub, shareId, attributionId, cursorBefore, receipt, replayed).result.Success?
    ensures receipt.shareId == shareId && receipt.jobId == sub.jobId && receipt.attributionId == attributionId
    ensures BackedFor(s.snapshotSeq.value, Stream(s), receipt, sub)
    ensures !replayed ==> cursorBefore < receipt.eventSeq <= s.liveCursor.value
    ensures !replayed ==> forall i :: 0 <= i < |s.acceptedFresh| && s.acceptedFresh[i].eventSeq <= cursorBefore
                                      && s.acceptedFresh[i].shareId == shareId ==>
              |s.popped| >= s.acceptedFresh[i].eventSeq - s.snapshotSeq.value + c.queueCapacity
  {
    var live := LiveEvidence(s);
    var m :| 0 <= m < |live| && EventSeq(live[m]) == receipt.eventSeq
             && ShareEventMatches(live[m], receipt, sub.identity, sub.targetLe);
    var k := EvidenceIndex(c, s, clockMs, m);
    if !replayed {
      forall i | 0 <= i < |s.acceptedFresh| && s.acceptedFresh[i].eventSeq <= cursorBefore && s.acceptedFresh[i].shareId == shareId
        ensures |s.popped| >= s.acceptedFresh[i].eventSeq - s.snapshotSeq.value + c.queueCapacity
      {
        RepeatedFreshWasEvicted(c, s, sub, receipt, s.acceptedFresh[i], clockMs);
      }
    }
  }

  lemma RepeatedFreshWasEvicted(c: Config, s: Client, sub: Submission, receipt: ShareReceipt, earlier: ShareReceipt, clockMs: nat)
    requires s.phase == Live && LiveInv(c, s, clockMs)
    requires HistoryConflict(Evidence(s), receipt, sub.identity, sub.targetLe).None?
    requires Backed(s.snapshotSeq.value, Stream(s), earlier)
    requires earlier.shareId == receipt.shareId && earlier.eventSeq != receipt.eventSeq
    ensures |s.popped| >= earlier.eventSeq - s.snapshotSeq.value + c.queueCapacity
  {
    var k := earlier.eventSeq - s.snapshotSeq.value - 1;
    if |s.popped| < k + 1 + c.queueCapacity {
      EvidenceRetained(c, s, clockMs, k);
      var i :| 0 <= i < |LiveEvidence(s)| && LiveEvidence(s)[i] == Stream(s)[k].event;
      assert Evidence(s)[i] == LiveEvidence(s)[i];
      NoConflict(Evidence(s), receipt, sub.identity, sub.targetLe, i);
      assert false;
    }
  }

  lemma RecordFreshInv(c: Config, s: Client, receipt: ShareReceipt, nowMs: nat)
    requires CursorInv(c, s, nowMs) && s.phase == Live && Backed(s.snapshotSeq.value, Stream(s), receipt)
    ensures Kept(c, s, s.(acceptedFresh := s.acceptedFresh + [receipt]), nowMs)
  {
    var t := s.(acceptedFresh := s.acceptedFresh + [receipt]);
    assert Stream(t) == Stream(s);
    forall i | 0 <= i < |t.acceptedFresh|
      ensures Backed(s.snapshotSeq.value, Stream(s), t.acceptedFresh[i])
    {
      if i < |s.acceptedFresh| {
        assert Backed(s.snapshotSeq.value, Stream(s), s.acceptedFresh[i]);
      }
    }
  }

  lemma TakeCommitInv(c: Config, s: Client, sub: Submission, shareId: nat, attributionId: nat, cursorBefore: nat,
                      receipt: ShareReceipt, replayed: bool, nowMs: nat)
    requires CursorInv(c, s, nowMs) && s.phase == Live
    ensures Kept(c, s, TakeCommit(s, sub, shareId, attributionId, cursorBefore, receipt, replayed).next, nowMs)
  {
    hide CursorInv, Advances;
    CounterIrrelevant(c, s, s.nextRequestId, false, nowMs);
    CounterIrrelevant(c, s, s.nextRequestId, s.usable, nowMs);
    if TakeCommit(s, sub, shareId, attributionId, cursorBefore, receipt, replayed).result.Success? {
      CommitIsBacked(c, s, sub, shareId, attributionId, cursorBefore, receipt, replayed, nowMs);
      RecordFreshInv(c, s, receipt, nowMs);
    }
  }

  lemma ResponseInv(c: Config, s: Client, x: Step<Message>, sub: Submission, shareId: nat, attributionId: nat,
                    cursorBefore: nat, nowMs: nat)
    requires Kept(c, s, x.next, nowMs) && x.next.phase == Live
    ensures Kept(c, s, TakeShareResponse(x, sub, shareId, attributionId, cursorBefore).next, nowMs)
  {
    PoisonKeeps(c, s, x.next, nowMs);
    if x.result.Success? && x.result.value.Committed? {
      var m := x.result.value;
      TakeCommitInv(c, x.next, sub, shareId, attributionId, cursorBefore, m.receipt, m.replayed, nowMs);
      AdvancesTransitive(s, x.next, TakeCommit(x.next, sub, shareId, attributionId, cursorBefore, m.receipt, m.replayed).next);
    }
  }

  /** The exchange inside a share submission, on a usable live connection. */
  lemma SubmitExchange(c: Config, s: Client, nowMs: nat, incoming: seq<Message>, clockMs: nat)
    requires CursorInv(c, s, clockMs) && clockMs <= nowMs && s.phase == Live && AllocateRequestId(s).result.Success?
    ensures var id := AllocateRequestId(s);
            var x := Exchange(c, id.next, true, id.result.value, nowMs, incoming);
            && Kept(c, s, id.next, nowMs) && Kept(c, s, x.next, nowMs) && x.next.phase == Live
            && x.next.acceptedFresh == s.acceptedFresh && x.next.popped == s.popped
  {
    var id := AllocateRequestId(s);
    CounterIrrelevant(c, s, s.nextRequestId + 1, s.usable, clockMs);
    LaterClock(c, id.next, clockMs, nowMs);
    LiveExchange(c, id.next, id.result.value, nowMs, incoming, clockMs);
    AdvancesTransitive(s, id.next, Exchange(c, id.next, true, id.result.value, nowMs, incoming).next);
  }

  lemma SubmitInv(c: Config, s: Client, sub: Submission, nowMs: nat, incoming: seq<Message>, clockMs: nat)
    requires CursorInv(c, s, clockMs) && clockMs <= nowMs
    ensures Kept(c, s, SubmitShare(c, s, sub, nowMs, incoming).next, nowMs)
  {
    LaterClock(c, s, clockMs, nowMs);
    CounterIrrelevant(c, s, s.nextRequestId, s.usable, nowMs);
    PoisonKeeps(c, s, s, nowMs);
    var attribution := c.digests.attributionId(sub.identity, sub.targetLe);
    if EnsurePhase(s, Live).None? && attribution.Some? && AllocateRequestId(s).result.Success? {
      SubmitLive(c, s, sub, attribution.value, nowMs, incoming, clockMs);
    }
  }

  lemma SubmitLive(c: Config, s: Client, sub: Submission, attributionId: nat, nowMs: nat, incoming: seq<Message>, clockMs: nat)
    requires CursorInv(c, s, clockMs) && clockMs <= nowMs && s.phase == Live && AllocateRequestId(s).result.Success?
    ensures var id := AllocateRequestId(s);
            var x := Exchange(c, id.next, true, id.result.value, nowMs, incoming);
            var shareId := c.digests.shareId(sub.jobId, sub.time, sub.nonce, sub.solution);
            Kept(c, s, id.next, nowMs) && Kept(c, s, TakeShareResponse(x, sub, shareId, attributionId, s.liveCursor.value).next, nowMs)
  {
    SubmitExchange(c, s, nowMs, incoming, clockMs);
    var id := AllocateRequestId(s);
    ResponseInv(c, s, Exchange(c, id.next, true, id.result.value, nowMs, incoming), sub,
                c.digests.shareId(sub.jobId, sub.time, sub.nonce, sub.solution), attributionId, s.liveCursor.value, nowMs);
  }

  /**
   * What a commit accepted in state `s`, leaving `t`, proves. A fresh one names an event
   * past the cursor, so one not yet popped; it repeats an earlier fresh share only when
   * that share's event has left the window of the last `queueCapacity` popped events.
   */
  ghost predicate ProvenCommit(c: Config, s: Client, t: Client, sub: Submission, commit: ShareCommit) {
    && s.phase == Live && s.liveCursor.Some? && s.snapshotSeq.Some? && t.phase == Live && t.liveCursor.Some?
    && t.snapshotSeq == s.snapshotSeq && t.popped == s.popped
    && t.acceptedFresh == (if commit.replayed then s.acceptedFresh else s.acceptedFresh + [commit.receipt])
    && commit.receipt.shareId == c.digests.shareId(sub.jobId, sub.time, sub.nonce, sub.solution)
    && BackedFor(s.snapshotSeq.value, Stream(t), commit.receipt, sub)
    && (!commit.replayed ==>
          && s.liveCursor.value < commit.receipt.eventSeq <= t.liveCursor.value
          && |s.popped| < commit.receipt.eventSeq - s.snapshotSeq.value
          && forall i :: 0 <= i < |s.acceptedFresh| && s.acceptedFresh[i].shareId == commit.receipt.shareId ==>
               |s.popped| >= s.acceptedFresh[i].eventSeq - s.snapshotSeq.value + c.queueCapacity)
  }

  /** A successful submission passed every local check, so it is its response. */
  lemma SubmitReaches(c: Config, s: Client, sub: Submission, nowMs: nat, incoming: seq<Message>)
    requires SubmitShare(c, s, sub, nowMs, incoming).result.Success?
    ensures s.phase == Live && s.liveCursor.Some? && AllocateRequestId(s).result.Success?
    ensures c.digests.attributionId(sub.identity, sub.targetLe).Some?
    ensures var id := AllocateRequestId(s);
            SubmitShare(c, s, sub, nowMs, incoming)
            == TakeShareResponse(Exchange(c, id.next, true, id.result.value, nowMs, incoming), sub,
                                 c.digests.shareId(sub.jobId, sub.time, sub.nonce, sub.solution),
                                 c.digests.attributionId(sub.identity, sub.targetLe).value, s.liveCursor.value)
  {
  }

  /** The whole submission: what an accepted share proves about this connection's journal. */
  lemma AcceptedShareIsBacked(c: Config, s: Client, sub: Submission, nowMs: nat, incoming: seq<Message>, clockMs: nat)
    requires CursorInv(c, s, clockMs) && clockMs <= nowMs
    ensures var r := SubmitShare(c, s, sub, nowMs, incoming);
            r.result.Success? ==> ProvenCommit(c, s, r.next, sub, r.result.value)
  {
    if SubmitShare(c, s, sub, nowMs, incoming).result.Success? {
      SubmitReaches(c, s, sub, nowMs, incoming);
      LaterClock(c, s, clockMs, nowMs);
      SubmitExchange(c, s, nowMs, incoming, clockMs);
      var id := AllocateRequestId(s);
      BackedResponse(c, s, Exchange(c, id.next, true, id.result.value, nowMs, incoming), sub,
                     c.digests.attributionId(sub.identity, sub.targetLe).value, nowMs);
    }
  }

  /** What an accepted response to a share proves, whatever exchange produced it. */
  lemma BackedResponse(c: Config, s: Client, x: Step<Message>, sub: Submission, attributionId: nat, nowMs: nat)
    requires CursorInv(c, s, nowMs) && s.phase == Live
    requires Kept(c, s, x.next, nowMs) && x.next.phase == Live
    requires x.next.acceptedFresh == s.acceptedFresh && x.next.popped == s.popped
    ensures var shareId := c.digests.shareId(sub.jobId, sub.time, sub.nonce, sub.solution);
            var r := TakeShareResponse(x, sub, shareId, attributionId, s.liveCursor.value);
            r.result.Success? ==> ProvenCommit(c, s, r.next, sub, r.result.value)
  {
    var shareId := c.digests.shareId(sub.jobId, sub.time, sub.nonce, sub.solution);
    if TakeShareResponse(x, sub, shareId, attributionId, s.liveCursor.value).result.Success? {
      var m := x.result.value;
      CommitIsBacked(c, x.next, sub, shareId, attributionId, s.liveCursor.value, m.receipt, m.replayed, nowMs);
      assert forall i :: 0 <= i < |s.acceptedFresh| ==> Backed(s.snapshotSeq.value, Stream(s), s.acceptedFresh[i]);
    }
  }

  // ---------------------------------------------------------------- whole runs

  datatype Op =
    | Read(afterEventSeq: nat, limit: nat, nowMs: nat, incoming: seq<Message>)
    | Subscribe(afterEventSeq: nat, nowMs: nat, incoming: seq<Message>)
    | Submit(submission: Submission, nowMs: nat, incoming: seq<Message>)
    | Heartbeat(nowMs: nat, incoming: seq<Message>)
    | PopEvent

  function Next(c: Config, s: Client, op: Op): Client {
    match op
    case Read(afterEventSeq, limit, nowMs, incoming) => ReadEvents(c, s, afterEventSeq, limit, nowMs, incoming).next
    case Subscribe(afterEventSeq, nowMs, incoming) => SubscribeJobs(c, s, afterEventSeq, nowMs, incoming).next
    case Submit(submission, nowMs, incoming) => SubmitShare(c, s, submission, nowMs, incoming).next
    case Heartbeat(nowMs, incoming) => Health(c, s, nowMs, incoming).next
    case PopEvent => Pop(c, s).0
  }

  function TimeOf(op: Op, clockMs: nat): nat {
    if op.PopEvent? then clockMs else op.nowMs
  }

  /** Monotonic instants: no exchange starts before an earlier one. */
  ghost predicate Clocked(clockMs: nat, ops: seq<Op>) {
    |ops| == 0 || (Clocked(clockMs, ops[..|ops| - 1]) && ClockAfter(clockMs, ops[..|ops| - 1]) <= ClockAfter(clockMs, ops))
  }

  function ClockAfter(clockMs: nat, ops: seq<Op>): nat {
    if |ops| == 0 then clockMs else TimeOf(ops[|ops| - 1], ClockAfter(clockMs, ops[..|ops| - 1]))
  }

  function Run(c: Config, s: Client, ops: seq<Op>): Client {
    if |ops| == 0 then s else Next(c, Run(c, s, ops[..|ops| - 1]), ops[|ops| - 1])
  }

  lemma NextKeeps(c: Config, s: Client, op: Op, clockMs: nat)
    requires CursorInv(c, s, clockMs) && clockMs <= TimeOf(op, clockMs)
    ensures Kept(c, s, Next(c, s, op), TimeOf(op, clockMs))
  {
    match op
    case Read(afterEventSeq, limit, nowMs, incoming) => ReadInv(c, s, afterEventSeq, limit, nowMs, incoming, clockMs);
    case Subscribe(afterEventSeq, nowMs, incoming) => SubscribeInv(c, s, afterEventSeq, nowMs, incoming, clockMs);
    case Submit(submission, nowMs, incoming) => SubmitInv(c, s, submission, nowMs, incoming, clockMs);
    case Heartbeat(nowMs, incoming) => HealthInv(c, s, nowMs, incoming, clockMs);
    case PopEvent => PopInv(c, s, clockMs);
  }

  /**
   * Over every run: the cursor invariant holds, the watermark never falls, Live never
   * returns to Replay, an unusable connection stays unusable, and the delivered stream
   * only grows.
   */
  lemma {:induction false} RunKeepsCursor(c: Config, s: Client, ops: seq<Op>, clockMs: nat)
    requires CursorInv(c, s, clockMs) && Clocked(clockMs, ops)
    ensures CursorInv(c, Run(c, s, ops), ClockAfter(clockMs, ops))
    ensures Advances(s, Run(c, s, ops))
    decreases |ops|
  {
    if |ops| == 0 {
      CounterIrrelevant(c, s, s.nextRequestId, s.usable, clockMs);
    } else {
      var front, last := ops[..|ops| - 1], ops[|ops| - 1];
      RunKeepsCursor(c, s, front, clockMs);
      NextKeeps(c, Run(c, s, front), last, ClockAfter(clockMs, front));
      AdvancesTransitive(s, Run(c, s, front), Run(c, s, ops));
    }
  }

  /** A whole connection, from its hello on. */
  lemma ConnectionInvariant(c: Config, poolInstance: nat, lastEventSeq: nat, nowMs: nat, hello: seq<Message>, ops: seq<Op>)
    requires c.queueCapacity > 0 && Connect(c, poolInstance, lastEventSeq, nowMs, hello).Success? && Clocked(nowMs, ops)
    ensures CursorInv(c, Run(c, Connect(c, poolInstance, lastEventSeq, nowMs, hello).value, ops), ClockAfter(nowMs, ops))
  {
    ConnectInv(c, poolInstance, lastEventSeq, nowMs, hello);
    RunKeepsCursor(c, Connect(c, poolInstance, lastEventSeq, nowMs, hello).value, ops, nowMs);
  }

  /** Any prefix of a run is a run, and the rest only advances it. */
  lemma {:induction false} RunBetween(c: Config, s: Client, ops: seq<Op>, clockMs: nat, k: nat)
    requires CursorInv(c, s, clockMs) && Clocked(clockMs, ops) && k <= |ops|
    ensures Clocked(clockMs, ops[..k]) && CursorInv(c, Run(c, s, ops[..k]), ClockAfter(clockMs, ops[..k]))
    ensures Advances(Run(c, s, ops[..k]), Run(c, s, ops))
    decreases |ops|
  {
    if k == |ops| {
      assert ops[..k] == ops;
      RunKeepsCursor(c, s, ops, clockMs);
      SelfKept(c, Run(c, s, ops), ClockAfter(clockMs, ops));
    } else {
      var front, last := ops[..|ops| - 1], ops[|ops| - 1];
      assert front[..k] == ops[..k];
      RunBetween(c, s, front, clockMs, k);
      RunKeepsCursor(c, s, front, clockMs);
      NextKeeps(c, Run(c, s, front), last, ClockAfter(clockMs, front));
      AdvancesTransitive(Run(c, s, ops[..k]), Run(c, s, front), Run(c, s, ops));
    }
  }

  lemma RunAdvances(c: Config, s: Client, ops: seq<Op>, clockMs: nat, i: nat, j: nat)
    requires CursorInv(c, s, clockMs) && Clocked(clockMs, ops) && i <= j <= |ops|
    ensures Advances(Run(c, s, ops[..i]), Run(c, s, ops[..j]))
  {
    RunBetween(c, s, ops, clockMs, j);
    RunBetween(c, s, ops[..j], clockMs, i);
    assert ops[..j][..i] == ops[..i];
  }

  /** Operation `k` of a run is a submission accepted as `commit`. */
  predicate Accepts(c: Config, s: Client, ops: seq<Op>, k: nat, commit: ShareCommit)
    requires k < |ops|
  {
    && ops[k].Submit?
    && SubmitShare(c, Run(c, s, ops[..k]), ops[k].submission, ops[k].nowMs, ops[k].incoming).result == Success(commit)
  }

  lemma AcceptedInRun(c: Config, s: Client, ops: seq<Op>, clockMs: nat, k: nat, commit: ShareCommit)
    requires CursorInv(c, s, clockMs) && Clocked(clockMs, ops) && k < |ops|
    ensures Accepts(c, s, ops, k, commit) ==>
              ProvenCommit(c, Run(c, s, ops[..k]), Run(c, s, ops[..k + 1]), ops[k].submission, commit)
  {
    if Accepts(c, s, ops, k, commit) {
      var t := Run(c, s, ops[..k]);
      RunBetween(c, s, ops, clockMs, k);
      RunBetween(c, s, ops, clockMs, k + 1);
      assert ops[..k + 1][..k] == ops[..k] && ops[..k + 1][k] == ops[k];
      AcceptedShareIsBacked(c, t, ops[k].submission, ops[k].nowMs, ops[k].incoming, ClockAfter(clockMs, ops[..k]));
    }
  }

  /**
   * One share identifier is accepted as fresh twice on a connection only if more than
   * `queueCapacity` events were popped between the two acceptances.
   */
  lemma FreshRepeatNeedsEviction(c: Config, s: Client, ops: seq<Op>, clockMs: nat, i: nat, j: nat, first: ShareCommit, second: ShareCommit)
    requires CursorInv(c, s, clockMs) && Clocked(clockMs, ops) && i < j < |ops|
    ensures Accepts(c, s, ops, i, first) && Accepts(c, s, ops, j, second) && !first.replayed && !second.replayed
            && first.receipt.shareId == second.receipt.shareId ==>
              |Run(c, s, ops[..j]).popped| > |Run(c, s, ops[..i + 1]).popped| + c.queueCapacity
  {
    if Accepts(c, s, ops, i, first) && Accepts(c, s, ops, j, second) && !first.replayed && !second.replayed
       && first.receipt.shareId == second.receipt.shareId
    {
      AcceptedInRun(c, s, ops, clockMs, i, first);
      AcceptedInRun(c, s, ops, clockMs, j, second);
      RunAdvances(c, s, ops, clockMs, i + 1, j);
      Evicted(c, Run(c, s, ops[..i]), Run(c, s, ops[..i + 1]), ops[i].submission, first,
              Run(c, s, ops[..j]), Run(c, s, ops[..j + 1]), ops[j].submission, second);
    }
  }

  lemma Evicted(c: Config, s: Client, s': Client, sub: Submission, first: ShareCommit,
                t: Client, t': Client, sub': Submission, second: ShareCommit)
    requires ProvenCommit(c, s, s', sub, first) && ProvenCommit(c, t, t', sub', second) && Advances(s', t)
    requires !first.replayed && !second.replayed && first.receipt.shareId == second.receipt.shareId
    ensures |t.popped| > |s'.popped| + c.queueCapacity
  {
    var k := |s.acceptedFresh|;
    assert s'.acceptedFresh[k] == first.receipt;
    assert t.acceptedFresh[k] == first.receipt;
  }

  /** The hello is from the expected networks, and from the pinned installation and journal if any. */
  predicate Authentic(e: ExpectedBackend, h: Hello) {
    && h.networks == e.networks
    && (e.backendInstance.Some? ==> h.backendInstance == e.backendInstance.value)
    && (e.journalStream.Some? ==> h.journalStream == e.journalStream.value)
  }

  /** The field-by-field comparison passes exactly for authentic hellos. */
  lemma MismatchDecides(e: ExpectedBackend, h: Hello)
    ensures Mismatch(e, h).None? <==> Authentic(e, h)
  {
  }

  /**
   * Over the whole life of a connection its backend identity is the one authentic, valid
   * hello it began with, and that hello was not behind the caller's journal cursor, which
   * is only ever nonzero under a pinned journal.
   */
  lemma AuthorityIsPinned(c: Config, poolInstance: nat, lastEventSeq: nat, nowMs: nat, incoming: seq<Message>, ops: seq<Op>)
    requires c.queueCapacity > 0 && Clocked(nowMs, ops)
    ensures var connected := Connect(c, poolInstance, lastEventSeq, nowMs, incoming);
            connected.Success? ==>
              var identity := Run(c, connected.value, ops).identity;
              && identity.Some? && ValidHello(identity.value) && Authentic(c.expected, identity.value)
              && lastEventSeq <= identity.value.currentEventSeq
              && (lastEventSeq != 0 ==> c.expected.journalStream == Some(identity.value.journalStream))
  {
    var connected := Connect(c, poolInstance, lastEventSeq, nowMs, incoming);
    if connected.Success? {
      ConnectInv(c, poolInstance, lastEventSeq, nowMs, incoming);
      RunKeepsCursor(c, connected.value, ops, nowMs);
      QuietRequest(c, Fresh(lastEventSeq), nowMs, incoming);
      MismatchDecides(c.expected, connected.value.identity.value);
    }
  }
}
