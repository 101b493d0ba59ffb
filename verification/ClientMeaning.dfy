/**
 * Exactly what each exchange with the backend needs of the received messages, and what it
 * hands back and leaves behind.
 */
module ClientMeaning {
  import opened Common
  import opened Protocol
  import opened ClientModel
  import opened ClientRuns

  // ---------------------------------------------------------------- the receive loop

  /** The first `k` messages are valid events, contiguous after the live cursor, and fit the queue. */
  predicate EventsFirst(c: Config, s: Client, incoming: seq<Message>, k: nat) {
    && k <= |incoming| && s.liveCursor.Some? && s.liveCursor.value + k <= U64_MAX && |s.queued| + k <= c.queueCapacity
    && forall j :: 0 <= j < k ==>
         && incoming[j].Event? && ValidEvent(c.digests, incoming[j].event)
         && EventSeq(incoming[j].event) == s.liveCursor.value + 1 + j
  }

  /** Message `k` is a valid response to `requestId`, behind events the stream accepts, if any. */
  predicate Answers(c: Config, s: Client, allowEvents: bool, requestId: nat, incoming: seq<Message>, k: nat) {
    && k < |incoming| && !incoming[k].Event? && ValidMessage(c.digests, incoming[k]) && incoming[k].id == requestId
    && (k == 0 || (allowEvents && EventsFirst(c, s, incoming, k)))
  }

  /** The state once the first `k` messages, all events, are queued under one anchor. */
  function AfterEvents(s: Client, incoming: seq<Message>, k: nat, anchorMs: nat): Client
    requires k <= |incoming| && s.liveCursor.Some? && forall j :: 0 <= j < k ==> incoming[j].Event?
  {
    if k == 0 then s
    else
      s.(liveCursor := Some(s.liveCursor.value + k),
         highWatermark := MaxOf(s.highWatermark, s.liveCursor.value + k),
         queued := s.queued + seq(k, j requires 0 <= j < k => Delivered(incoming[j].event, anchorMs)))
  }

  function Received(s: Client, incoming: seq<Message>, k: nat, anchorMs: nat): Client
    requires k <= |incoming| && (k == 0 || (s.liveCursor.Some? && forall j :: 0 <= j < k ==> incoming[j].Event?))
  {
    if k == 0 then s else AfterEvents(s, incoming, k, anchorMs)
  }

  lemma EnqueueFirst(c: Config, s: Client, incoming: seq<Message>, k: nat, anchorMs: nat)
    requires 0 < k && EventsFirst(c, s, incoming, k)
    ensures Queues(c, s, incoming)
    ensures var next := Enqueue(s, incoming[0].event, anchorMs);
            && EventsFirst(c, next, incoming[1..], k - 1)
            && Received(next, incoming[1..], k - 1, anchorMs) == Received(s, incoming, k, anchorMs)
  {
    var next := Enqueue(s, incoming[0].event, anchorMs);
    assert forall j :: 0 <= j < k - 1 ==> incoming[1..][j] == incoming[j + 1];
    assert Received(next, incoming[1..], k - 1, anchorMs).queued == Received(s, incoming, k, anchorMs).queued;
  }

  /** A response behind acceptable events is what the loop returns, with exactly those events queued. */
  lemma {:induction false} AnswerIsReceived(c: Config, s: Client, allowEvents: bool, requestId: nat, anchorMs: nat, incoming: seq<Message>, k: nat)
    requires Answers(c, s, allowEvents, requestId, incoming, k)
    ensures Receive(c, s, allowEvents, requestId, anchorMs, incoming) == Step(Received(s, incoming, k, anchorMs), Success(incoming[k]))
    decreases k
  {
    if k == 0 {
    } else {
      EnqueueFirst(c, s, incoming, k, anchorMs);
      var next := Enqueue(s, incoming[0].event, anchorMs);
      AnswerIsReceived(c, next, allowEvents, requestId, anchorMs, incoming[1..], k - 1);
      ReceiveRound(c, s, requestId, anchorMs, incoming);
    }
  }

  /** The loop succeeds only on such a response. */
  lemma {:induction false} ReceivedIsAnswer(c: Config, s: Client, allowEvents: bool, requestId: nat, anchorMs: nat, incoming: seq<Message>)
    returns (k: nat)
    requires allowEvents ==> |s.queued| <= c.queueCapacity
    ensures Receive(c, s, allowEvents, requestId, anchorMs, incoming).result.Success? ==>
              Answers(c, s, allowEvents, requestId, incoming, k)
    decreases |incoming|
  {
    hide Receive, ValidMessage, ValidEvent;
    ReceiveStops(c, s, allowEvents, requestId, anchorMs, incoming);
    k := 0;
    if allowEvents && Queues(c, s, incoming) && Receive(c, s, allowEvents, requestId, anchorMs, incoming).result.Success? {
      var next := Enqueue(s, incoming[0].event, anchorMs);
      var j := ReceivedIsAnswer(c, next, allowEvents, requestId, anchorMs, incoming[1..]);
      ReceiveRound(c, s, requestId, anchorMs, incoming);
      assert Answers(c, next, allowEvents, requestId, incoming[1..], j);
      LongerPrefix(c, s, incoming, j, anchorMs);
      k := j + 1;
    }
  }

  /** Where the loop does not queue, it takes the message before it or fails. */
  lemma ReceiveStops(c: Config, s: Client, allowEvents: bool, requestId: nat, anchorMs: nat, incoming: seq<Message>)
    ensures Receive(c, s, allowEvents, requestId, anchorMs, incoming).result.Success? && !(allowEvents && Queues(c, s, incoming)) ==>
              Answers(c, s, allowEvents, requestId, incoming, 0)
  {
  }

  lemma LongerPrefix(c: Config, s: Client, incoming: seq<Message>, k: nat, anchorMs: nat)
    requires Queues(c, s, incoming) && |s.queued| < c.queueCapacity && k < |incoming|
    requires k == 0 || EventsFirst(c, Enqueue(s, incoming[0].event, anchorMs), incoming[1..], k)
    ensures EventsFirst(c, s, incoming, k + 1)
  {
    forall j | 0 <= j < k + 1
      ensures incoming[j].Event? && ValidEvent(c.digests, incoming[j].event)
      ensures EventSeq(incoming[j].event) == s.liveCursor.value + 1 + j
    {
      if j > 0 {
        assert incoming[j] == incoming[1..][j - 1];
      }
    }
  }

  // ---------------------------------------------------------------- one request

  /** What a connection needs before it may ask. */
  predicate MayAsk(s: Client, allowEvents: bool) {
    && s.usable && s.nextRequestId < U64_MAX
    && (allowEvents ==> s.phase == Live && s.anchorFloor.Some? && s.snapshotSeq.Some?)
  }

  /** The state after a request answered by message `k`. */
  function Asked(s: Client, allowEvents: bool, nowMs: nat, incoming: seq<Message>, k: nat): Client
    requires MayAsk(s, allowEvents) && k <= |incoming|
    requires k == 0 || (allowEvents && s.liveCursor.Some? && forall j :: 0 <= j < k ==> incoming[j].Event?)
  {
    Received(s, incoming, k, if allowEvents then s.anchorFloor.value else nowMs)
      .(nextRequestId := s.nextRequestId + 1, anchorFloor := if allowEvents then Some(nowMs) else s.anchorFloor)
  }

  /** The counter and usability take no part in which events are accepted. */
  lemma IrrelevantFields(c: Config, s: Client, n: nat, usable: bool, allowEvents: bool, requestId: nat, incoming: seq<Message>, k: nat)
    ensures Answers(c, s.(nextRequestId := n, usable := usable), allowEvents, requestId, incoming, k)
            <==> Answers(c, s, allowEvents, requestId, incoming, k)
  {
  }

  lemma ReceivedFields(s: Client, n: nat, usable: bool, incoming: seq<Message>, k: nat, anchorMs: nat)
    requires k <= |incoming| && (k == 0 || (s.liveCursor.Some? && forall j :: 0 <= j < k ==> incoming[j].Event?))
    ensures Received(s.(nextRequestId := n, usable := usable), incoming, k, anchorMs)
         == Received(s, incoming, k, anchorMs).(nextRequestId := n, usable := usable)
    ensures Received(s, incoming, k, anchorMs).usable == s.usable && Received(s, incoming, k, anchorMs).anchorFloor == s.anchorFloor
  {
  }

  lemma RequestAnswered(c: Config, s: Client, allowEvents: bool, nowMs: nat, incoming: seq<Message>, k: nat)
    requires MayAsk(s, allowEvents) && Answers(c, s, allowEvents, s.nextRequestId, incoming, k)
    ensures Request(c, s, allowEvents, nowMs, incoming) == Step(Asked(s, allowEvents, nowMs, incoming, k), Success(incoming[k]))
  {
    hide Receive, Received, ValidMessage;
    var p, anchorMs := Poison(AllocateRequestId(s).next), if allowEvents then s.anchorFloor.value else nowMs;
    IrrelevantFields(c, s, s.nextRequestId + 1, false, allowEvents, s.nextRequestId, incoming, k);
    AnswerIsReceived(c, p, allowEvents, s.nextRequestId, anchorMs, incoming, k);
    ReceivedFields(s, s.nextRequestId + 1, false, incoming, k, anchorMs);
  }

  lemma AnsweredRequest(c: Config, s: Client, allowEvents: bool, nowMs: nat, incoming: seq<Message>) returns (k: nat)
    requires allowEvents ==> |s.queued| <= c.queueCapacity
    ensures Request(c, s, allowEvents, nowMs, incoming).result.Success? ==>
              MayAsk(s, allowEvents) && Answers(c, s, allowEvents, s.nextRequestId, incoming, k)
  {
    k := 0;
    if Request(c, s, allowEvents, nowMs, incoming).result.Success? {
      var p := Poison(AllocateRequestId(s).next);
      k := ReceivedIsAnswer(c, p, allowEvents, s.nextRequestId, if allowEvents then s.anchorFloor.value else nowMs, incoming);
      IrrelevantFields(c, s, s.nextRequestId + 1, false, allowEvents, s.nextRequestId, incoming, k);
    }
  }

  // ---------------------------------------------------------------- the replay phase

  /** The first message answers the next request. */
  predicate FirstAnswers(c: Config, s: Client, incoming: seq<Message>) {
    MayAsk(s, false) && Answers(c, s, false, s.nextRequestId, incoming, 0)
  }

  /** A request outside the live stream succeeds exactly on an immediate response. */
  lemma QuietExactly(c: Config, s: Client, nowMs: nat, incoming: seq<Message>)
    ensures var x := Request(c, s, false, nowMs, incoming);
            && (x.result.Success? <==> FirstAnswers(c, s, incoming))
            && (x.result.Success? ==> x == Step(s.(nextRequestId := s.nextRequestId + 1), Success(incoming[0])))
  {
    var k := AnsweredRequest(c, s, false, nowMs, incoming);
    if FirstAnswers(c, s, incoming) {
      RequestAnswered(c, s, false, nowMs, incoming, 0);
    }
  }

  /** Connecting: who is accepted, and the whole state it starts from. */
  predicate Connects(c: Config, poolInstance: nat, lastEventSeq: nat, incoming: seq<Message>) {
    && (lastEventSeq == 0 || c.expected.journalStream.Some?) && poolInstance != 0
    && |incoming| > 0 && incoming[0].HelloOk? && incoming[0].id == 1 && ValidHello(incoming[0].hello)
    && Authentic(c.expected, incoming[0].hello) && lastEventSeq <= incoming[0].hello.currentEventSeq
  }

  lemma ConnectExactly(c: Config, poolInstance: nat, lastEventSeq: nat, nowMs: nat, incoming: seq<Message>)
    ensures var r := Connect(c, poolInstance, lastEventSeq, nowMs, incoming);
            && (r.Success? <==> Connects(c, poolInstance, lastEventSeq, incoming))
            && (r.Success? ==>
                  var hello := incoming[0].hello;
                  r.value == Fresh(lastEventSeq).(nextRequestId := 2, identity := Some(hello), highWatermark := hello.currentEventSeq,
                                                  replayComplete := lastEventSeq == hello.currentEventSeq))
  {
    hide Request;
    QuietExactly(c, Fresh(lastEventSeq), nowMs, incoming);
    if |incoming| > 0 && incoming[0].HelloOk? {
      MismatchDecides(c.expected, incoming[0].hello);
    }
  }

  /** Reading a page: exactly which replies are taken. */
  predicate ReadsPage(c: Config, s: Client, afterEventSeq: nat, limit: nat, incoming: seq<Message>) {
    && s.phase == Replay && 1 <= limit <= MAX_EVENT_PAGE_ITEMS && afterEventSeq == s.replayCursor
    && FirstAnswers(c, s, incoming) && incoming[0].Page? && incoming[0].afterEventSeq == afterEventSeq
    && |incoming[0].events| <= limit && (incoming[0].complete ==> s.highWatermark <= incoming[0].nextEventSeq)
  }

  /** A page that is taken is handed on as it was sent, and its events join the bounded history. */
  lemma ReadExactly(c: Config, s: Client, afterEventSeq: nat, limit: nat, nowMs: nat, incoming: seq<Message>)
    requires 0 < c.queueCapacity && |s.historical| <= c.queueCapacity
    ensures var r := ReadEvents(c, s, afterEventSeq, limit, nowMs, incoming);
            && (r.result.Success? <==> ReadsPage(c, s, afterEventSeq, limit, incoming))
            && (r.result.Success? ==>
                  var m := incoming[0];
                  && r.result.value == EventPage(m.afterEventSeq, m.nextEventSeq, m.complete, m.events)
                  && r.next == s.(nextRequestId := s.nextRequestId + 1, replayCursor := m.nextEventSeq, replayComplete := m.complete,
                                  highWatermark := MaxOf(s.highWatermark, m.nextEventSeq),
                                  historical := LastOf(c.queueCapacity, s.historical + m.events)))
            && (r.result.Failure? ==> r.next.historical == s.historical)
  {
    hide Request, AppendAll, LastOf;
    QuietExactly(c, s, nowMs, incoming);
    QuietRequest(c, s, nowMs, incoming);
    if FirstAnswers(c, s, incoming) && incoming[0].Page? {
      AppendAllIsLast(c.queueCapacity, s.historical, incoming[0].events);
    }
  }

  lemma {:induction false} AppendAllIsLast<T>(capacity: nat, cache: seq<T>, xs: seq<T>)
    requires 0 < capacity && |cache| <= capacity
    ensures AppendAll(capacity, cache, xs) == LastOf(capacity, cache + xs)
    decreases |xs|
  {
    if |xs| == 0 {
      assert cache + xs == cache;
    } else {
      var front, last := xs[..|xs| - 1], xs[|xs| - 1];
      AppendAllIsLast(capacity, cache, front);
      LastOfAppend(capacity, cache + front, last);
      assert cache + front + [last] == cache + xs;
    }
  }

  /** Every event read on a connection, in order. */
  function EventsRead(c: Config, s: Client, ops: seq<Op>): seq<BackendEvent> {
    if |ops| == 0 then []
    else
      var front, last := ops[..|ops| - 1], ops[|ops| - 1];
      EventsRead(c, s, front) + ReadBy(c, Run(c, s, front), last)
  }

  function ReadBy(c: Config, s: Client, op: Op): seq<BackendEvent> {
    if !op.Read? then []
    else
      var r := ReadEvents(c, s, op.afterEventSeq, op.limit, op.nowMs, op.incoming);
      if r.result.Success? then r.result.value.events else []
  }

  /** Over every run, the retained history is the end of everything read. */
  lemma {:induction false} HistoryIsLastRead(c: Config, s: Client, ops: seq<Op>)
    requires 0 < c.queueCapacity && s.historical == []
    ensures Run(c, s, ops).historical == LastOf(c.queueCapacity, EventsRead(c, s, ops))
    decreases |ops|
  {
    if |ops| == 0 {
    } else {
      var front, last := ops[..|ops| - 1], ops[|ops| - 1];
      HistoryIsLastRead(c, s, front);
      NextReads(c, Run(c, s, front), last);
      LastOfLast(c.queueCapacity, EventsRead(c, s, front), ReadBy(c, Run(c, s, front), last));
    }
  }

  lemma LastOfLast<T>(capacity: nat, xs: seq<T>, ys: seq<T>)
    ensures LastOf(capacity, LastOf(capacity, xs) + ys) == LastOf(capacity, xs + ys)
  {
  }

  lemma NextReads(c: Config, s: Client, op: Op)
    requires 0 < c.queueCapacity && |s.historical| <= c.queueCapacity
    ensures Next(c, s, op).historical == LastOf(c.queueCapacity, s.historical + ReadBy(c, s, op))
  {
    if op.Read? {
      ReadExactly(c, s, op.afterEventSeq, op.limit, op.nowMs, op.incoming);
    } else {
      OthersKeepHistory(c, s, op);
    }
    assert s.historical + [] == s.historical;
  }

  lemma OthersKeepHistory(c: Config, s: Client, op: Op)
    requires !op.Read?
    ensures Next(c, s, op).historical == s.historical
  {
    hide Exchange, HistoryConflict, HasMatch, ContradictingSeq, Evidence, LiveEvidence;
    match op
    case Subscribe(_, nowMs, incoming) => QuietRequest(c, s, nowMs, incoming);
    case Submit(submission, nowMs, incoming) =>
      var id := AllocateRequestId(s);
      ExchangeKeepsHistory(c, id.next, true, if id.result.Success? then id.result.value else 0, nowMs, incoming);
    case Heartbeat(nowMs, incoming) =>
      var id := AllocateRequestId(s);
      ExchangeKeepsHistory(c, id.next, s.phase == Live, if id.result.Success? then id.result.value else 0, nowMs, incoming);
    case PopEvent =>
  }

  lemma ExchangeKeepsHistory(c: Config, s: Client, allowEvents: bool, requestId: nat, nowMs: nat, incoming: seq<Message>)
    ensures Exchange(c, s, allowEvents, requestId, nowMs, incoming).next.historical == s.historical
  {
    if s.usable && (allowEvents ==> s.anchorFloor.Some?) {
      ReceiveKeepsHistory(c, Poison(s), allowEvents, requestId, if allowEvents then s.anchorFloor.value else nowMs, incoming);
    }
  }

  lemma {:induction false} ReceiveKeepsHistory(c: Config, s: Client, allowEvents: bool, requestId: nat, anchorMs: nat, incoming: seq<Message>)
    ensures Receive(c, s, allowEvents, requestId, anchorMs, incoming).next.historical == s.historical
    decreases |incoming|
  {
    if |incoming| == 0 {
    } else if incoming[0].Event? && RefuseEvent(c, s, allowEvents, incoming[0].event).None? {
      ReceiveKeepsHistory(c, Enqueue(s, incoming[0].event, anchorMs), allowEvents, requestId, anchorMs, incoming[1..]);
    }
  }

  /** Subscribing: exactly which replies start the live stream. */
  predicate Subscribes(c: Config, s: Client, afterEventSeq: nat, incoming: seq<Message>) {
    && s.phase == Replay && afterEventSeq == s.replayCursor && s.replayComplete
    && FirstAnswers(c, s, incoming) && incoming[0].Snapshot?
    && afterEventSeq <= incoming[0].eventSeq && s.highWatermark <= incoming[0].eventSeq
  }

  /** The snapshot handed on is the one received: its sequence, its current and its recent jobs. */
  lemma SubscribeExactly(c: Config, s: Client, afterEventSeq: nat, nowMs: nat, incoming: seq<Message>)
    ensures var r := SubscribeJobs(c, s, afterEventSeq, nowMs, incoming);
            && (r.result.Success? <==> Subscribes(c, s, afterEventSeq, incoming))
            && (r.result.Success? ==>
                  var m := incoming[0];
                  && r.result.value == JobSnapshot(m.eventSeq, m.current, m.recent, afterEventSeq, nowMs)
                  && r.next == s.(nextRequestId := s.nextRequestId + 1, highWatermark := m.eventSeq,
                                  replayComplete := m.eventSeq <= s.replayCursor, phase := Live, liveCursor := Some(m.eventSeq),
                                  snapshotSeq := Some(m.eventSeq), anchorFloor := Some(nowMs)))
  {
    hide Request;
    QuietExactly(c, s, nowMs, incoming);
  }

  // ---------------------------------------------------------------- health

  /** Message `k` is a report the connection takes: not behind its watermark, and flushed through on a live stream. */
  predicate Reports(c: Config, s: Client, nowMs: nat, incoming: seq<Message>, k: nat) {
    && MayAsk(s, s.phase == Live) && Answers(c, s, s.phase == Live, s.nextRequestId, incoming, k) && incoming[k].HealthStatus?
    && (var t := Asked(s, s.phase == Live, nowMs, incoming, k);
        && t.highWatermark <= incoming[k].eventSeq
        && (s.phase == Live ==> t.liveCursor.Some? && incoming[k].eventSeq <= t.liveCursor.value))
  }

  /** A report that is taken is handed on as it was sent. */
  lemma HealthIsReport(c: Config, s: Client, nowMs: nat, incoming: seq<Message>, k: nat)
    requires Reports(c, s, nowMs, incoming, k)
    ensures var m, r := incoming[k], Health(c, s, nowMs, incoming);
            && r.result == Success(HealthSnapshot(m.eventSeq, m.healthy, m.recoveryOnly))
            && r.next == Asked(s, s.phase == Live, nowMs, incoming, k)
                           .(highWatermark := m.eventSeq,
                             replayComplete := s.replayComplete && (s.phase == Replay ==> m.eventSeq <= s.replayCursor))
  {
    hide Request;
    RequestAnswered(c, s, s.phase == Live, nowMs, incoming, k);
  }

  lemma ReportIsHealth(c: Config, s: Client, nowMs: nat, incoming: seq<Message>) returns (k: nat)
    requires |s.queued| <= c.queueCapacity
    ensures Health(c, s, nowMs, incoming).result.Success? ==> Reports(c, s, nowMs, incoming, k)
  {
    hide Request;
    k := AnsweredRequest(c, s, s.phase == Live, nowMs, incoming);
    if Request(c, s, s.phase == Live, nowMs, incoming).result.Success? {
      RequestAnswered(c, s, s.phase == Live, nowMs, incoming, k);
    }
  }

  // ---------------------------------------------------------------- evidence

  /** The retained event durably commits exactly the submitted share. */
  predicate Contradicts(e: BackendEvent, sub: Submission, shareId: nat, attributionId: nat) {
    && e.ShareCommitted? && e.identity == sub.identity && e.targetLe == sub.targetLe
    && e.jobId == sub.jobId && e.receipt.jobId == sub.jobId && e.receipt.shareId == shareId && e.receipt.attributionId == attributionId
  }

  /** The search finds the first such event, and nothing when there is none. */
  lemma {:induction false} ContradictionExactly(evidence: seq<BackendEvent>, sub: Submission, shareId: nat, attributionId: nat) returns (i: nat)
    ensures i <= |evidence| && forall j :: 0 <= j < i ==> !Contradicts(evidence[j], sub, shareId, attributionId)
    ensures i < |evidence| ==> Contradicts(evidence[i], sub, shareId, attributionId)
    ensures ContradictingSeq(evidence, sub, shareId, attributionId)
         == if i < |evidence| then Some(EventSeq(evidence[i])) else None
    decreases |evidence|
  {
    if |evidence| == 0 {
      i := 0;
    } else if Contradicts(evidence[0], sub, shareId, attributionId) {
      i := 0;
    } else {
      var k := ContradictionExactly(evidence[1..], sub, shareId, attributionId);
      i := k + 1;
      forall j | 0 <= j < i ensures !Contradicts(evidence[j], sub, shareId, attributionId) {
        if j > 0 {
          assert evidence[j] == evidence[1..][j - 1];
        }
      }
    }
  }

  /** An event at the receipt's sequence, or of the receipt's share, is the event of that very receipt. */
  predicate Agrees(e: BackendEvent, receipt: ShareReceipt, identity: WorkerIdentity, targetLe: Hex32) {
    EventSeq(e) == receipt.eventSeq || (e.ShareCommitted? && e.receipt.shareId == receipt.shareId) ==>
      ShareEventMatches(e, receipt, identity, targetLe)
  }

  /** The scan reports the first retained event that disagrees, and why; it passes when all agree. */
  lemma {:induction false} ConflictExactly(evidence: seq<BackendEvent>, receipt: ShareReceipt, identity: WorkerIdentity, targetLe: Hex32)
    returns (i: nat)
    ensures i <= |evidence| && forall j :: 0 <= j < i ==> Agrees(evidence[j], receipt, identity, targetLe)
    ensures i < |evidence| ==> !Agrees(evidence[i], receipt, identity, targetLe)
    ensures HistoryConflict(evidence, receipt, identity, targetLe)
         == if i == |evidence| then None
            else if EventSeq(evidence[i]) == receipt.eventSeq then Some(ShareCommitEventMismatch(receipt.eventSeq))
            else Some(ShareCommitHistoryConflict(EventSeq(evidence[i]), receipt.eventSeq))
    decreases |evidence|
  {
    if |evidence| == 0 {
      i := 0;
    } else if !Agrees(evidence[0], receipt, identity, targetLe) {
      i := 0;
    } else {
      var k := ConflictExactly(evidence[1..], receipt, identity, targetLe);
      i := k + 1;
      forall j | 0 <= j < i ensures Agrees(evidence[j], receipt, identity, targetLe) {
        if j > 0 {
          assert evidence[j] == evidence[1..][j - 1];
        }
      }
    }
  }

  // ---------------------------------------------------------------- share submission

  /** A submission that gets as far as the backend. */
  predicate MaySubmit(c: Config, s: Client, sub: Submission) {
    && MayAsk(s, true) && s.liveCursor.Some? && c.digests.attributionId(sub.identity, sub.targetLe).Some?
    && sub.jobId != 0 && sub.time != 0
  }

  function ShareOf(c: Config, sub: Submission): nat {
    c.digests.shareId(sub.jobId, sub.time, sub.nonce, sub.solution)
  }

  function AttributionOf(c: Config, sub: Submission): nat {
    var attribution := c.digests.attributionId(sub.identity, sub.targetLe);
    if attribution.Some? then attribution.value else 0
  }

  lemma SubmitAnswered(c: Config, s: Client, sub: Submission, nowMs: nat, incoming: seq<Message>, k: nat)
    requires MaySubmit(c, s, sub) && Answers(c, s, true, s.nextRequestId, incoming, k)
    ensures SubmitShare(c, s, sub, nowMs, incoming)
         == TakeShareResponse(Step(Asked(s, true, nowMs, incoming, k), Success(incoming[k])), sub, ShareOf(c, sub),
                              AttributionOf(c, sub), s.liveCursor.value)
  {
    RequestAnswered(c, s, true, nowMs, incoming, k);
  }

  /** Only a submission that reached the backend and was answered there succeeds. */
  lemma AnsweredSubmit(c: Config, s: Client, sub: Submission, nowMs: nat, incoming: seq<Message>) returns (k: nat)
    requires |s.queued| <= c.queueCapacity
    ensures SubmitShare(c, s, sub, nowMs, incoming).result.Success? ==>
              MaySubmit(c, s, sub) && Answers(c, s, true, s.nextRequestId, incoming, k) && incoming[k].Committed?
  {
    hide Exchange;
    k := AnsweredRequest(c, s, true, nowMs, incoming);
    if SubmitShare(c, s, sub, nowMs, incoming).result.Success? {
      assert MaySubmit(c, s, sub);
      SubmitAnswered(c, s, sub, nowMs, incoming, k);
    }
  }

  /**
   * A rejected share: if the retained journal durably committed exactly this share, the
   * outcome is contradictory, named after the first such event, and the connection is
   * poisoned; otherwise the rejection is passed on and the connection stays usable.
   */
  lemma RejectionExactly(c: Config, s: Client, sub: Submission, nowMs: nat, incoming: seq<Message>, k: nat) returns (i: nat)
    requires MaySubmit(c, s, sub) && Answers(c, s, true, s.nextRequestId, incoming, k) && incoming[k].Rejection?
    ensures var t, r := Asked(s, true, nowMs, incoming, k), SubmitShare(c, s, sub, nowMs, incoming);
            && i <= |Evidence(t)|
            && (forall j :: 0 <= j < i ==> !Contradicts(Evidence(t)[j], sub, ShareOf(c, sub), AttributionOf(c, sub)))
            && (if i < |Evidence(t)| then
                  && Contradicts(Evidence(t)[i], sub, ShareOf(c, sub), AttributionOf(c, sub))
                  && r.result == Failure(ContradictoryShareOutcome(EventSeq(Evidence(t)[i]))) && r.next == t.(usable := false)
                else r.result == Failure(BackendRejected(incoming[k].code)) && r.next == t && t.usable)
  {
    hide SubmitShare, Asked, Evidence;
    SubmitAnswered(c, s, sub, nowMs, incoming, k);
    i := ContradictionExactly(Evidence(Asked(s, true, nowMs, incoming, k)), sub, ShareOf(c, sub), AttributionOf(c, sub));
    AskedStaysUsable(s, true, nowMs, incoming, k);
  }

  lemma AskedStaysUsable(s: Client, allowEvents: bool, nowMs: nat, incoming: seq<Message>, k: nat)
    requires MayAsk(s, allowEvents) && k <= |incoming|
    requires k == 0 || (allowEvents && s.liveCursor.Some? && forall j :: 0 <= j < k ==> incoming[j].Event?)
    ensures Asked(s, allowEvents, nowMs, incoming, k).usable
  {
  }

  /** The receipt is for the submitted share, is fresh or admittedly repeated, and all retained evidence agrees. */
  predicate Plausible(t: Client, sub: Submission, shareId: nat, attributionId: nat, cursorBefore: nat, receipt: ShareReceipt, replayed: bool) {
    && receipt.jobId == sub.jobId && receipt.shareId == shareId && receipt.attributionId == attributionId
    && (replayed || cursorBefore < receipt.eventSeq)
    && (t.phase == Live ==> t.liveCursor.Some? && receipt.eventSeq <= t.liveCursor.value)
    && forall i :: 0 <= i < |Evidence(t)| ==> Agrees(Evidence(t)[i], receipt, sub.identity, sub.targetLe)
  }

  /** Live evidence holds the event of exactly this receipt. */
  predicate Witnessed(t: Client, sub: Submission, receipt: ShareReceipt) {
    exists i :: 0 <= i < |LiveEvidence(t)| && EventSeq(LiveEvidence(t)[i]) == receipt.eventSeq
                && ShareEventMatches(LiveEvidence(t)[i], receipt, sub.identity, sub.targetLe)
  }

  lemma CommitExactly(t: Client, sub: Submission, shareId: nat, attributionId: nat, cursorBefore: nat, receipt: ShareReceipt, replayed: bool)
    ensures var r := TakeCommit(t, sub, shareId, attributionId, cursorBefore, receipt, replayed);
            var plausible := Plausible(t, sub, shareId, attributionId, cursorBefore, receipt, replayed);
            if plausible && Witnessed(t, sub, receipt) then
              && r.result == Success(ShareCommit(receipt, replayed))
              && r.next == (if replayed then t else t.(acceptedFresh := t.acceptedFresh + [receipt]))
            else if plausible && replayed && receipt.eventSeq <= cursorBefore then
              r == Step(t, Failure(HistoricalReplayRequiresProjection(receipt)))
            else
              r.result.Failure? && r.next == t.(usable := false)
  {
    var i := ConflictExactly(Evidence(t), receipt, sub.identity, sub.targetLe);
  }

  /**
   * An acknowledged share is accepted, as acknowledged, exactly when its receipt is plausible
   * and live evidence witnesses it. A plausible repeat from before the cursor is left to the
   * journal projection. Anything else poisons the connection.
   */
  lemma CommittedExactly(c: Config, s: Client, sub: Submission, nowMs: nat, incoming: seq<Message>, k: nat)
    requires MaySubmit(c, s, sub) && Answers(c, s, true, s.nextRequestId, incoming, k) && incoming[k].Committed?
    ensures var t, r, m := Asked(s, true, nowMs, incoming, k), SubmitShare(c, s, sub, nowMs, incoming), incoming[k];
            var plausible := Plausible(t, sub, ShareOf(c, sub), AttributionOf(c, sub), s.liveCursor.value, m.receipt, m.replayed);
            if plausible && Witnessed(t, sub, m.receipt) then
              && r.result == Success(ShareCommit(m.receipt, m.replayed))
              && r.next == (if m.replayed then t else t.(acceptedFresh := t.acceptedFresh + [m.receipt]))
            else if plausible && m.replayed && m.receipt.eventSeq <= s.liveCursor.value then
              r == Step(t, Failure(HistoricalReplayRequiresProjection(m.receipt)))
            else
              r.result.Failure? && r.next == t.(usable := false)
  {
    hide SubmitShare, Asked, TakeCommit, Plausible, Witnessed;
    SubmitAnswered(c, s, sub, nowMs, incoming, k);
    CommitExactly(Asked(s, true, nowMs, incoming, k), sub, ShareOf(c, sub), AttributionOf(c, sub), s.liveCursor.value,
                  incoming[k].receipt, incoming[k].replayed);
  }

  // ---------------------------------------------------------------- what a failure costs

  /** A request that fails leaves the connection unusable. */
  lemma FailedRequestPoisons(c: Config, s: Client, allowEvents: bool, nowMs: nat, incoming: seq<Message>)
    ensures var x := Request(c, s, allowEvents, nowMs, incoming); x.next.usable <==> x.result.Success?
  {
    var id := AllocateRequestId(s);
    if id.result.Success? {
      ExchangePoisons(c, id.next, allowEvents, id.result.value, nowMs, incoming);
    }
  }

  lemma ExchangePoisons(c: Config, s: Client, allowEvents: bool, requestId: nat, nowMs: nat, incoming: seq<Message>)
    ensures var x := Exchange(c, s, allowEvents, requestId, nowMs, incoming); x.next.usable <==> x.result.Success?
  {
    if s.usable && (allowEvents ==> s.anchorFloor.Some?) {
      ReceiveKeepsUsable(c, Poison(s), allowEvents, requestId, if allowEvents then s.anchorFloor.value else nowMs, incoming);
    }
  }

  lemma {:induction false} ReceiveKeepsUsable(c: Config, s: Client, allowEvents: bool, requestId: nat, anchorMs: nat, incoming: seq<Message>)
    ensures Receive(c, s, allowEvents, requestId, anchorMs, incoming).next.usable == s.usable
    decreases |incoming|
  {
    if |incoming| == 0 {
    } else if incoming[0].Event? && RefuseEvent(c, s, allowEvents, incoming[0].event).None? {
      ReceiveKeepsUsable(c, Enqueue(s, incoming[0].event, anchorMs), allowEvents, requestId, anchorMs, incoming[1..]);
    }
  }

  /** Replay and health failures that cost nothing: refusals made before asking, and the backend's own. */
  predicate Harmless(e: ClientError) {
    e.InvalidStreamPhase? || e.InvalidField? || e.ReplayCursorMismatch? || e.ReplayIncomplete? || e.BackendRejected?
  }

  /** Every other failure of a page, subscription or health request poisons, and nothing revives a poisoned connection. */
  lemma FailureCosts(c: Config, s: Client, afterEventSeq: nat, limit: nat, nowMs: nat, incoming: seq<Message>)
    ensures var r := ReadEvents(c, s, afterEventSeq, limit, nowMs, incoming);
            r.next.usable <==> s.usable && (r.result.Success? || Harmless(r.result.error))
    ensures var r := SubscribeJobs(c, s, afterEventSeq, nowMs, incoming);
            r.next.usable <==> s.usable && (r.result.Success? || Harmless(r.result.error))
  {
    hide Request, AppendAll;
    FailedRequestPoisons(c, s, false, nowMs, incoming);
    QuietRequest(c, s, nowMs, incoming);
    QuietErrors(c, s, nowMs, incoming);
  }

  /** No request outside the live stream fails in a way that looks harmless. */
  lemma QuietErrors(c: Config, s: Client, nowMs: nat, incoming: seq<Message>)
    ensures var x := Request(c, s, false, nowMs, incoming).result; x.Failure? ==> !Harmless(x.error)
  {
  }

  /** A share submission keeps the connection usable exactly on success, on a local refusal, and on the two answers that settle nothing. */
  lemma SubmissionCosts(c: Config, s: Client, sub: Submission, nowMs: nat, incoming: seq<Message>)
    requires s.phase == Live ==> s.liveCursor.Some?
    ensures var r := SubmitShare(c, s, sub, nowMs, incoming);
            r.next.usable <==>
              && s.usable
              && (r.result.Success? || RefusedLocally(c, s, sub) || r.result.error.BackendRejected? || r.result.error.HistoricalReplayRequiresProjection?)
  {
    hide Exchange, HistoryConflict, HasMatch, ContradictingSeq, Evidence, LiveEvidence;
    var id := AllocateRequestId(s);
    if id.result.Success? {
      ExchangePoisons(c, id.next, true, id.result.value, nowMs, incoming);
      ExchangeErrors(c, id.next, true, id.result.value, nowMs, incoming);
      var x := Exchange(c, id.next, true, id.result.value, nowMs, incoming);
      if x.result.Success? && x.result.value.Committed? {
        var _ := ConflictExactly(Evidence(x.next), x.result.value.receipt, sub.identity, sub.targetLe);
      }
    }
  }

  predicate RefusedLocally(c: Config, s: Client, sub: Submission) {
    || s.phase != Live || c.digests.attributionId(sub.identity, sub.targetLe).None?
    || (s.nextRequestId < U64_MAX && (sub.jobId == 0 || sub.time == 0))
  }

  lemma ExchangeErrors(c: Config, s: Client, allowEvents: bool, requestId: nat, nowMs: nat, incoming: seq<Message>)
    ensures var x := Exchange(c, s, allowEvents, requestId, nowMs, incoming).result;
            x.Failure? ==> !x.error.BackendRejected? && !x.error.HistoricalReplayRequiresProjection?
  {
    if s.usable && (allowEvents ==> s.anchorFloor.Some?) {
      ReceiveErrors(c, Poison(s), allowEvents, requestId, if allowEvents then s.anchorFloor.value else nowMs, incoming);
    }
  }

  lemma {:induction false} ReceiveErrors(c: Config, s: Client, allowEvents: bool, requestId: nat, anchorMs: nat, incoming: seq<Message>)
    ensures var x := Receive(c, s, allowEvents, requestId, anchorMs, incoming).result;
            x.Failure? ==> !x.error.BackendRejected? && !x.error.HistoricalReplayRequiresProjection?
    decreases |incoming|
  {
    if |incoming| == 0 {
    } else if incoming[0].Event? && RefuseEvent(c, s, allowEvents, incoming[0].event).None? {
      ReceiveErrors(c, Enqueue(s, incoming[0].event, anchorMs), allowEvents, requestId, anchorMs, incoming[1..]);
    }
  }
}
