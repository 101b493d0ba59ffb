/**
 * One backend connection as a pure transition system. An exchange receives a finite
 * list of decoded messages; running out of them is any transport failure. The fields
 * `popped` and `acceptedFresh` are history: events handed to the caller and shares accepted
 * as fresh on this connection.
 */
module ClientModel {
  import opened Common
  import opened Protocol

  /** What the operator expects of the backend; persistent identities may still be unknown. */
  datatype ExpectedBackend = ExpectedBackend(networks: NetworkIdentity, backendInstance: Option<nat>, journalStream: Option<nat>)

  datatype Config = Config(queueCapacity: nat, expected: ExpectedBackend, digests: Digests)

  datatype Phase = Replay | Live

  /** One live event with the instant captured before the exchange that may have delivered it. */
  datatype Delivered = Delivered(event: BackendEvent, anchorMs: nat)

  datatype Client = Client(
    nextRequestId: nat,
    queued: seq<Delivered>,
    observed: seq<BackendEvent>,
    historical: seq<BackendEvent>,
    phase: Phase,
    replayCursor: nat,
    replayComplete: bool,
    highWatermark: nat,
    liveCursor: Option<nat>,
    snapshotSeq: Option<nat>,
    anchorFloor: Option<nat>,
    usable: bool,
    identity: Option<Hello>,
    popped: seq<Delivered>,
    acceptedFresh: seq<ShareReceipt>)

  /** Received messages, already past length, version and JSON decoding. */
  datatype Message =
    | Event(event: BackendEvent)
    | HelloOk(id: nat, hello: Hello)
    | Snapshot(id: nat, eventSeq: nat, current: Option<AcceptableJob>, recent: seq<AcceptableJob>)
    | Committed(id: nat, receipt: ShareReceipt, replayed: bool)
    | Page(id: nat, afterEventSeq: nat, nextEventSeq: nat, complete: bool, events: seq<BackendEvent>)
    | HealthStatus(id: nat, eventSeq: nat, healthy: bool, recoveryOnly: bool)
    | Rejection(id: nat, code: nat)

  datatype IdentityField =
    | WcashGenesis | ZcashGenesis | ChainId | WcashPayout | ZcashPayout | ShareTargetCeiling | BackendInstance | JournalStream

  datatype ClientError =
    | ConnectionUnusable
    | RequestIdExhausted
    | MissingJournalIdentity
    | IdentityMismatch(field: IdentityField)
    | EventCursorAhead(requested: nat, backend: nat)
    | InvalidStreamPhase(requiredPhase: Phase)
    | ReplayCursorMismatch(expected: nat, actual: nat)
    | ReplayIncomplete(cursor: nat)
    | SnapshotCursorBehind(requested: nat, snapshot: nat)
    | EventPageCursorMismatch(expected: nat, actual: nat)
    | EventPageLimitExceeded(limit: nat, count: nat)
    | EventWatermarkRollback(previous: nat, received: nat)
    | LiveEventSequenceMismatch(expected: nat, actual: nat)
    | LiveEventFlushIncomplete(required: nat, delivered: nat)
    | FreshShareCommitDidNotAdvance(eventSeq: nat)
    | ShareCommitEventMismatch(eventSeq: nat)
    | ShareCommitHistoryConflict(recorded: nat, claimed: nat)
    | HistoricalReplayRequiresProjection(receipt: ShareReceipt)
    | ContradictoryShareOutcome(eventSeq: nat)
    | EventQueueFull(capacity: nat)
    | WrongResponseId(expected: nat, actual: nat)
    | UnexpectedResponse
    | InvalidField
    | BackendRejected(code: nat)
    | TransportFailed

  datatype Step<+T> = Step(next: Client, result: Result<T, ClientError>)

  // ---------------------------------------------------------------- message validation

  predicate Contiguous(events: seq<BackendEvent>, after: nat) {
    forall i :: 0 <= i < |events| ==> EventSeq(events[i]) == after + 1 + i
  }

  predicate ValidMessage(h: Digests, m: Message) {
    match m
    case Event(event) => ValidEvent(h, event)
    case HelloOk(id, hello) => id != 0 && ValidHello(hello)
    case Snapshot(id, _, current, recent) =>
      && id != 0 && |recent| <= 2
      && (current.Some? ==> ValidAcceptable(current.value))
      && (forall i :: 0 <= i < |recent| ==> ValidAcceptable(recent[i]))
      && (forall i, j :: 0 <= i < j < |recent| ==> recent[i].job.jobId != recent[j].job.jobId)
      && (current.Some? ==> forall i :: 0 <= i < |recent| ==> recent[i].job.jobId != current.value.job.jobId)
    case Committed(id, receipt, _) => id != 0 && h.validReceipt(receipt)
    case Page(id, after, next, complete, events) =>
      && id != 0 && |events| <= MAX_EVENT_PAGE_ITEMS && (complete || |events| > 0)
      && Contiguous(events, after) && next == after + |events| && next <= U64_MAX
      && (forall i :: 0 <= i < |events| ==> ValidEvent(h, events[i]))
    case HealthStatus(id, _, healthy, recoveryOnly) => id != 0 && !(healthy && recoveryOnly)
    case Rejection(_, _) => true
  }

  // ---------------------------------------------------------------- the receive loop

  function Poison(s: Client): Client {
    s.(usable := false)
  }

  function Fail<T>(s: Client, e: ClientError): Step<T> {
    Step(Poison(s), Failure(e))
  }

  /** Why a live event is refused, checked in the order the reader checks. */
  function RefuseEvent(c: Config, s: Client, allowEvents: bool, e: BackendEvent): (o: Option<ClientError>) {
    if !allowEvents || s.liveCursor.None? then Some(UnexpectedResponse)
    else if s.liveCursor.value >= U64_MAX then Some(InvalidField)
    else if EventSeq(e) != s.liveCursor.value + 1 then
      Some(LiveEventSequenceMismatch(s.liveCursor.value + 1, EventSeq(e)))
    else if |s.queued| == c.queueCapacity then Some(EventQueueFull(c.queueCapacity))
    else None
  }

  function Enqueue(s: Client, e: BackendEvent, anchorMs: nat): Client {
    s.(liveCursor := Some(EventSeq(e)),
       highWatermark := MaxOf(s.highWatermark, EventSeq(e)),
       queued := s.queued + [Delivered(e, anchorMs)])
  }

  /** Reads until the correlated response, queueing live events on the way. */
  function Receive(c: Config, s: Client, allowEvents: bool, requestId: nat, anchorMs: nat, incoming: seq<Message>)
    : (r: Step<Message>)
    decreases |incoming|
  {
    if |incoming| == 0 then Step(s, Failure(TransportFailed))
    else
      var m := incoming[0];
      if !ValidMessage(c.digests, m) then Step(s, Failure(TransportFailed))
      else if m.Event? then
        var refused := RefuseEvent(c, s, allowEvents, m.event);
        if refused.Some? then Step(s, Failure(refused.value))
        else Receive(c, Enqueue(s, m.event, anchorMs), allowEvents, requestId, anchorMs, incoming[1..])
      else if m.id != requestId then Step(s, Failure(WrongResponseId(requestId, m.id)))
      else Step(s, Success(m))
  }

  /** What one exchange hands back: the correlated response and the instant before its I/O. */
  function Exchange(c: Config, s: Client, allowEvents: bool, requestId: nat, nowMs: nat, incoming: seq<Message>)
    : (r: Step<Message>)
  {
    if !s.usable then Step(s, Failure(ConnectionUnusable))
    else if allowEvents && (s.anchorFloor.None? || s.phase != Live || s.snapshotSeq.None?) then Fail(s, UnexpectedResponse)
    else
      var received := Receive(c, Poison(s), allowEvents, requestId, if allowEvents then s.anchorFloor.value else nowMs, incoming);
      if received.result.Failure? then received
      else Step(received.next.(usable := true,
                               anchorFloor := if allowEvents then Some(nowMs) else received.next.anchorFloor),
                received.result)
  }

  function AllocateRequestId(s: Client): (r: Step<nat>) {
    if !s.usable then Step(s, Failure(ConnectionUnusable))
    else if s.nextRequestId >= U64_MAX then Fail(s, RequestIdExhausted)
    else Step(s.(nextRequestId := s.nextRequestId + 1), Success(s.nextRequestId))
  }

  /** Allocates an identifier and exchanges one request under it. */
  function Request(c: Config, s: Client, allowEvents: bool, nowMs: nat, incoming: seq<Message>): (r: Step<Message>) {
    var id := AllocateRequestId(s);
    if id.result.Failure? then Step(id.next, Failure(id.result.error))
    else Exchange(c, id.next, allowEvents, id.result.value, nowMs, incoming)
  }

  // ---------------------------------------------------------------- watermarks and cursors

  function ObserveWatermark(s: Client, received: nat): (r: Step<()>) {
    if received < s.highWatermark then Fail(s, EventWatermarkRollback(s.highWatermark, received))
    else Step(s.(highWatermark := received,
                 replayComplete := s.replayComplete && !(s.phase == Replay && received > s.replayCursor)),
              Success(()))
  }

  function RequireLiveEventsThrough(s: Client, required: nat): (r: Step<()>) {
    if s.phase != Live then Step(s, Success(()))
    else if s.liveCursor.None? then Fail(s, UnexpectedResponse)
    else if s.liveCursor.value < required then Fail(s, LiveEventFlushIncomplete(required, s.liveCursor.value))
    else Step(s, Success(()))
  }

  // ---------------------------------------------------------------- operations

  function Fresh(lastEventSeq: nat): Client {
    Client(1, [], [], [], Replay, lastEventSeq, false, 0, None, None, None, true, None, [], [])
  }

  function Connect(c: Config, poolInstance: nat, lastEventSeq: nat, nowMs: nat, incoming: seq<Message>): (r: Result<Client, ClientError>)
  {
    if lastEventSeq != 0 && c.expected.journalStream.None? then Failure(MissingJournalIdentity)
    else if poolInstance == 0 then Failure(InvalidField)
    else
      TakeHello(c.expected, Request(c, Fresh(lastEventSeq), false, nowMs, incoming), lastEventSeq)
  }

  /** The first field of a hello that differs from what is expected. */
  function Mismatch(e: ExpectedBackend, h: Hello): (o: Option<IdentityField>) {
    if h.networks.wcashGenesis != e.networks.wcashGenesis then Some(WcashGenesis)
    else if h.networks.zcashGenesis != e.networks.zcashGenesis then Some(ZcashGenesis)
    else if h.networks.chainId != e.networks.chainId then Some(ChainId)
    else if h.networks.wcashPayout != e.networks.wcashPayout then Some(WcashPayout)
    else if h.networks.zcashPayout != e.networks.zcashPayout then Some(ZcashPayout)
    else if h.networks.shareTargetCeiling != e.networks.shareTargetCeiling then Some(ShareTargetCeiling)
    else if e.backendInstance.Some? && e.backendInstance.value != h.backendInstance then Some(BackendInstance)
    else if e.journalStream.Some? && e.journalStream.value != h.journalStream then Some(JournalStream)
    else None
  }

  function TakeHello(expected: ExpectedBackend, x: Step<Message>, lastEventSeq: nat): (r: Result<Client, ClientError>) {
    if x.result.Failure? then Failure(x.result.error)
    else
      match x.result.value
      case HelloOk(_, hello) =>
        var mismatch := Mismatch(expected, hello);
        if mismatch.Some? then Failure(IdentityMismatch(mismatch.value))
        else if lastEventSeq > hello.currentEventSeq then Failure(EventCursorAhead(lastEventSeq, hello.currentEventSeq))
        else Success(x.next.(identity := Some(hello), highWatermark := hello.currentEventSeq,
                             replayComplete := lastEventSeq == hello.currentEventSeq))
      case Rejection(_, code) => Failure(BackendRejected(code))
      case _ => Failure(UnexpectedResponse)
  }

  function EnsurePhase(s: Client, required: Phase): (o: Option<ClientError>) {
    if !s.usable then Some(ConnectionUnusable)
    else if s.phase != required then Some(InvalidStreamPhase(required))
    else None
  }

  /** A bounded cache: the last `capacity` of everything appended. */
  function Append<T>(capacity: nat, cache: seq<T>, x: T): seq<T> {
    (if |cache| == capacity && |cache| > 0 then cache[1..] else cache) + [x]
  }

  function AppendAll<T>(capacity: nat, cache: seq<T>, xs: seq<T>): seq<T> {
    if |xs| == 0 then cache else Append(capacity, AppendAll(capacity, cache, xs[..|xs| - 1]), xs[|xs| - 1])
  }

  datatype EventPage = EventPage(afterEventSeq: nat, nextEventSeq: nat, complete: bool, events: seq<BackendEvent>)

  function ReadEvents(c: Config, s: Client, afterEventSeq: nat, limit: nat, nowMs: nat, incoming: seq<Message>): (r: Step<EventPage>)
  {
    var phase := EnsurePhase(s, Replay);
    if phase.Some? then Step(s, Failure(phase.value))
    else if !(1 <= limit <= MAX_EVENT_PAGE_ITEMS) then Step(s, Failure(InvalidField))
    else if afterEventSeq != s.replayCursor then Step(s, Failure(ReplayCursorMismatch(s.replayCursor, afterEventSeq)))
    else
      TakePageResponse(c, Request(c, s, false, nowMs, incoming), afterEventSeq, limit)
  }

  function TakePageResponse(c: Config, x: Step<Message>, afterEventSeq: nat, limit: nat): (r: Step<EventPage>) {
    if x.result.Failure? then Step(x.next, Failure(x.result.error))
    else
      match x.result.value
      case Page(_, after, next, complete, events) => TakePage(c, x.next, afterEventSeq, limit, after, next, complete, events)
      case Rejection(_, code) => Step(x.next, Failure(BackendRejected(code)))
      case _ => Fail(x.next, UnexpectedResponse)
  }

  function TakePage(c: Config, s: Client, requested: nat, limit: nat, after: nat, next: nat, complete: bool, events: seq<BackendEvent>)
    : (r: Step<EventPage>)
  {
    if after != requested then Fail(s, EventPageCursorMismatch(requested, after))
    else if |events| > limit then Fail(s, EventPageLimitExceeded(limit, |events|))
    else
      var w := if complete then ObserveWatermark(s, next)
               else Step(s.(highWatermark := MaxOf(s.highWatermark, next)), Success(()));
      if w.result.Failure? then Step(w.next, Failure(w.result.error))
      else Step(w.next.(replayCursor := next, replayComplete := complete,
                        historical := AppendAll(c.queueCapacity, s.historical, events)),
                Success(EventPage(after, next, complete, events)))
  }

  /** The job snapshot handed to the registry, with its pre-request instant. */
  datatype JobSnapshot = JobSnapshot(eventSeq: nat, current: Option<AcceptableJob>, recent: seq<AcceptableJob>,
                                     replayedThrough: nat, anchorMs: nat)

  function SubscribeJobs(c: Config, s: Client, afterEventSeq: nat, nowMs: nat, incoming: seq<Message>): (r: Step<JobSnapshot>)
  {
    var phase := EnsurePhase(s, Replay);
    if phase.Some? then Step(s, Failure(phase.value))
    else if afterEventSeq != s.replayCursor then Step(s, Failure(ReplayCursorMismatch(s.replayCursor, afterEventSeq)))
    else if !s.replayComplete then Step(s, Failure(ReplayIncomplete(s.replayCursor)))
    else
      TakeSnapshotResponse(Request(c, s, false, nowMs, incoming), afterEventSeq, nowMs)
  }

  function TakeSnapshotResponse(x: Step<Message>, afterEventSeq: nat, nowMs: nat): (r: Step<JobSnapshot>) {
    if x.result.Failure? then Step(x.next, Failure(x.result.error))
    else
      match x.result.value
      case Snapshot(_, eventSeq, current, recent) => GoLive(x.next, afterEventSeq, eventSeq, current, recent, nowMs)
      case Rejection(_, code) => Step(x.next, Failure(BackendRejected(code)))
      case _ => Fail(x.next, UnexpectedResponse)
  }

  /** The one-way transition into the live stream. */
  function GoLive(s: Client, after: nat, eventSeq: nat, current: Option<AcceptableJob>, recent: seq<AcceptableJob>, anchorMs: nat)
    : (r: Step<JobSnapshot>)
  {
    if eventSeq < after then Fail(s, SnapshotCursorBehind(after, eventSeq))
    else
      var w := ObserveWatermark(s, eventSeq);
      if w.result.Failure? then Step(w.next, Failure(w.result.error))
      else Step(w.next.(liveCursor := Some(eventSeq), snapshotSeq := Some(eventSeq), anchorFloor := Some(anchorMs), phase := Live),
                Success(JobSnapshot(eventSeq, current, recent, after, anchorMs)))
  }

  datatype HealthSnapshot = HealthSnapshot(eventSeq: nat, healthy: bool, recoveryOnly: bool)

  function Health(c: Config, s: Client, nowMs: nat, incoming: seq<Message>): (r: Step<HealthSnapshot>)
  {
    TakeHealthResponse(Request(c, s, s.phase == Live, nowMs, incoming))
  }

  function TakeHealthResponse(x: Step<Message>): (r: Step<HealthSnapshot>) {
    if x.result.Failure? then Step(x.next, Failure(x.result.error))
    else
      match x.result.value
      case HealthStatus(_, eventSeq, healthy, recoveryOnly) => TakeHealth(x.next, eventSeq, healthy, recoveryOnly)
      case Rejection(_, code) => Step(x.next, Failure(BackendRejected(code)))
      case _ => Fail(x.next, UnexpectedResponse)
  }

  function TakeHealth(s: Client, eventSeq: nat, healthy: bool, recoveryOnly: bool): (r: Step<HealthSnapshot>) {
    var w := ObserveWatermark(s, eventSeq);
    if w.result.Failure? then Step(w.next, Failure(w.result.error))
    else
      var f := RequireLiveEventsThrough(w.next, eventSeq);
      if f.result.Failure? then Step(f.next, Failure(f.result.error))
      else Step(f.next, Success(HealthSnapshot(eventSeq, healthy, recoveryOnly)))
  }

  /** Hands the oldest queued event to the caller and moves it to the bounded evidence cache. */
  function Pop(c: Config, s: Client): (r: (Client, Option<Delivered>)) {
    if |s.queued| == 0 then (s, None)
    else
      (s.(queued := s.queued[1..],
          observed := Append(c.queueCapacity, s.observed, s.queued[0].event),
          popped := s.popped + [s.queued[0]]),
       Some(s.queued[0]))
  }

  // ---------------------------------------------------------------- share submission

  datatype Submission = Submission(jobId: JobId, identity: WorkerIdentity, targetLe: Hex32, time: nat, nonce: Hex32, solution: nat)

  datatype ShareCommit = ShareCommit(receipt: ShareReceipt, replayed: bool)

  predicate ShareEventMatches(e: BackendEvent, receipt: ShareReceipt, identity: WorkerIdentity, targetLe: Hex32) {
    e.ShareCommitted? && e.receipt == receipt && e.jobId == receipt.jobId && e.identity == identity && e.targetLe == targetLe
  }

  function Events(ds: seq<Delivered>): (es: seq<BackendEvent>)
    ensures |es| == |ds| && forall i :: 0 <= i < |ds| ==> es[i] == ds[i].event
  {
    seq(|ds|, i requires 0 <= i < |ds| => ds[i].event)
  }

  /** Live evidence: what is queued or still cached from this connection's stream. */
  function LiveEvidence(s: Client): seq<BackendEvent> {
    Events(s.queued) + s.observed
  }

  function Evidence(s: Client): seq<BackendEvent> {
    LiveEvidence(s) + s.historical
  }

  /** The first retained event that contradicts the claimed receipt, in scan order. */
  function HistoryConflict(evidence: seq<BackendEvent>, receipt: ShareReceipt, identity: WorkerIdentity, targetLe: Hex32)
    : (o: Option<ClientError>)
  {
    if |evidence| == 0 then None
    else
      var e := evidence[0];
      var exact := ShareEventMatches(e, receipt, identity, targetLe);
      if EventSeq(e) == receipt.eventSeq && !exact then Some(ShareCommitEventMismatch(receipt.eventSeq))
      else if e.ShareCommitted? && e.receipt.shareId == receipt.shareId && !exact then
        Some(ShareCommitHistoryConflict(e.receipt.eventSeq, receipt.eventSeq))
      else HistoryConflict(evidence[1..], receipt, identity, targetLe)
  }

  predicate HasMatch(evidence: seq<BackendEvent>, receipt: ShareReceipt, identity: WorkerIdentity, targetLe: Hex32) {
    exists i :: 0 <= i < |evidence| && EventSeq(evidence[i]) == receipt.eventSeq
                && ShareEventMatches(evidence[i], receipt, identity, targetLe)
  }

  /** The sequence of a retained event that durably committed exactly this share. */
  function ContradictingSeq(evidence: seq<BackendEvent>, sub: Submission, shareId: nat, attributionId: nat): Option<nat> {
    if |evidence| == 0 then None
    else
      var e := evidence[0];
      if e.ShareCommitted? && e.jobId == sub.jobId && e.receipt.jobId == sub.jobId && e.receipt.shareId == shareId
         && e.receipt.attributionId == attributionId && e.identity == sub.identity && e.targetLe == sub.targetLe
      then Some(e.receipt.eventSeq)
      else ContradictingSeq(evidence[1..], sub, shareId, attributionId)
  }

  /** The checks of one share acknowledgement against the journal delivered before it. */
  function TakeCommit(s: Client, sub: Submission, shareId: nat, attributionId: nat, cursorBefore: nat,
                      receipt: ShareReceipt, replayed: bool): (r: Step<ShareCommit>)
  {
    if receipt.jobId != sub.jobId || receipt.shareId != shareId || receipt.attributionId != attributionId then Fail(s, InvalidField)
    else if !replayed && receipt.eventSeq <= cursorBefore then Fail(s, FreshShareCommitDidNotAdvance(receipt.eventSeq))
    else
      var flushed := RequireLiveEventsThrough(s, receipt.eventSeq);
      if flushed.result.Failure? then Step(flushed.next, Failure(flushed.result.error))
      else
        var conflict := HistoryConflict(Evidence(s), receipt, sub.identity, sub.targetLe);
        if conflict.Some? then Fail(s, conflict.value)
        else if HasMatch(LiveEvidence(s), receipt, sub.identity, sub.targetLe) then
          Step(if replayed then s else s.(acceptedFresh := s.acceptedFresh + [receipt]), Success(ShareCommit(receipt, replayed)))
        else if replayed && receipt.eventSeq <= cursorBefore then Step(s, Failure(HistoricalReplayRequiresProjection(receipt)))
        else Fail(s, ShareCommitEventMismatch(receipt.eventSeq))
  }

  function SubmitShare(c: Config, s: Client, sub: Submission, nowMs: nat, incoming: seq<Message>): (r: Step<ShareCommit>)
  {
    var phase := EnsurePhase(s, Live);
    if phase.Some? then Step(s, Failure(phase.value))
    else if s.liveCursor.None? then Fail(s, UnexpectedResponse)
    else
      var attribution := c.digests.attributionId(sub.identity, sub.targetLe);
      if attribution.None? then Step(s, Failure(InvalidField))
      else
        var id := AllocateRequestId(s);
        if id.result.Failure? then Step(id.next, Failure(id.result.error))
        else if sub.jobId == 0 || sub.time == 0 then Step(id.next, Failure(InvalidField))
        else
          var x := Exchange(c, id.next, true, id.result.value, nowMs, incoming);
          TakeShareResponse(x, sub, c.digests.shareId(sub.jobId, sub.time, sub.nonce, sub.solution), attribution.value,
                            s.liveCursor.value)
  }

  function TakeShareResponse(x: Step<Message>, sub: Submission, shareId: nat, attributionId: nat, cursorBefore: nat)
    : (r: Step<ShareCommit>)
  {
    if x.result.Failure? then Step(x.next, Failure(x.result.error))
    else
      match x.result.value
      case Committed(_, receipt, replayed) => TakeCommit(x.next, sub, shareId, attributionId, cursorBefore, receipt, replayed)
      case Rejection(_, code) =>
        var contradiction := ContradictingSeq(Evidence(x.next), sub, shareId, attributionId);
        if contradiction.Some? then Fail(x.next, ContradictoryShareOutcome(contradiction.value))
        else Step(x.next, Failure(BackendRejected(code)))
      case _ => Fail(x.next, UnexpectedResponse)
  }
}
