/**
 * The backend connection as the mutable object the pool drives, with its receive
 * loop. Every method is proved to be the corresponding `ClientModel` transition and
 * keeps the cursor invariant under a monotonic clock.
 */
module BackendClient {
  import opened Common
  import opened Protocol
  import Spec = ClientModel
  import Meaning = ClientMeaning
  import opened ClientRuns

  type Error = Spec.ClientError

  class BackendClient {
    const config: Spec.Config
    var nextRequestId: nat
    var queuedEvents: seq<Spec.Delivered>
    var observedEvents: seq<BackendEvent>
    var historicalEvents: seq<BackendEvent>
    var phase: Spec.Phase
    var replayCursor: nat
    var replayComplete: bool
    var highWatermark: nat
    var liveCursor: Option<nat>
    var snapshotSeq: Option<nat>
    var anchorFloor: Option<nat>
    var usable: bool
    var identity: Option<Hello>
    ghost var popped: seq<Spec.Delivered>
    ghost var acceptedFresh: seq<ShareReceipt>
    /** The instant of the latest exchange. */
    ghost var clockMs: nat

    ghost function Model(): Spec.Client
      reads this
    {
      Spec.Client(nextRequestId, queuedEvents, observedEvents, historicalEvents, phase, replayCursor, replayComplete,
                  highWatermark, liveCursor, snapshotSeq, anchorFloor, usable, identity, popped, acceptedFresh)
    }

    ghost predicate Valid()
      reads this
    {
      CursorInv(config, Model(), clockMs)
    }

    constructor Opened(config: Spec.Config, lastEventSeq: nat, ghost nowMs: nat)
      ensures this.config == config && clockMs == nowMs
      ensures Model() == Spec.Fresh(lastEventSeq)
    {
      this.config := config;
      nextRequestId := 1;
      queuedEvents, observedEvents, historicalEvents := [], [], [];
      phase := Spec.Replay;
      replayCursor, replayComplete, highWatermark := lastEventSeq, false, 0;
      liveCursor, snapshotSeq, anchorFloor := None, None, None;
      usable, identity := true, None;
      popped, acceptedFresh := [], [];
      clockMs := nowMs;
    }

    // -------------------------------------------------------------- exchanges

    /** Why a live event is refused, or its acceptance into the bounded queue. */
    method TakeEvent(event: BackendEvent, allowEvents: bool, anchorMs: nat) returns (refused: Option<Error>)
      modifies this`liveCursor, this`highWatermark, this`queuedEvents
      ensures refused == Spec.RefuseEvent(config, old(Model()), allowEvents, event)
      ensures Model() == if refused.Some? then old(Model()) else Spec.Enqueue(old(Model()), event, anchorMs)
    {
      if !allowEvents || liveCursor.None? {
        return Some(Spec.UnexpectedResponse);
      }
      var previous := liveCursor.value;
      if previous >= U64_MAX {
        return Some(Spec.InvalidField);
      }
      if EventSeq(event) != previous + 1 {
        return Some(Spec.LiveEventSequenceMismatch(previous + 1, EventSeq(event)));
      }
      if |queuedEvents| == config.queueCapacity {
        return Some(Spec.EventQueueFull(config.queueCapacity));
      }
      liveCursor := Some(EventSeq(event));
      highWatermark := MaxOf(highWatermark, EventSeq(event));
      queuedEvents := queuedEvents + [Spec.Delivered(event, anchorMs)];
      return None;
    }

    /** Reads messages until the correlated response arrives or the stream fails. */
    method Receive(allowEvents: bool, requestId: nat, anchorMs: nat, incoming: seq<Spec.Message>)
      returns (r: Result<Spec.Message, Error>)
      modifies this`liveCursor, this`highWatermark, this`queuedEvents
      ensures Spec.Step(Model(), r) == Spec.Receive(config, old(Model()), allowEvents, requestId, anchorMs, incoming)
    {
      var k := 0;
      while k < |incoming|
        invariant 0 <= k <= |incoming|
        invariant Spec.Receive(config, Model(), allowEvents, requestId, anchorMs, incoming[k..])
               == Spec.Receive(config, old(Model()), allowEvents, requestId, anchorMs, incoming)
      {
        var message := incoming[k];
        assert incoming[k..][0] == message && incoming[k..][1..] == incoming[k + 1..];
        if !Spec.ValidMessage(config.digests, message) {
          return Failure(Spec.TransportFailed);
        }
        if message.Event? {
          var refused := TakeEvent(message.event, allowEvents, anchorMs);
          if refused.Some? {
            return Failure(refused.value);
          }
          k := k + 1;
        } else {
          if message.id != requestId {
            return Failure(Spec.WrongResponseId(requestId, message.id));
          }
          return Success(message);
        }
      }
      return Failure(Spec.TransportFailed);
    }

    method Exchange(allowEvents: bool, requestId: nat, nowMs: nat, incoming: seq<Spec.Message>)
      returns (r: Result<Spec.Message, Error>)
      modifies this`liveCursor, this`highWatermark, this`queuedEvents, this`usable, this`anchorFloor
      ensures Spec.Step(Model(), r) == Spec.Exchange(config, old(Model()), allowEvents, requestId, nowMs, incoming)
    {
      if !usable {
        return Failure(Spec.ConnectionUnusable);
      }
      if allowEvents && (anchorFloor.None? || phase != Spec.Live || snapshotSeq.None?) {
        usable := false;
        return Failure(Spec.UnexpectedResponse);
      }
      var eventAnchor := if allowEvents then anchorFloor.value else nowMs;
      usable := false;
      r := Receive(allowEvents, requestId, eventAnchor, incoming);
      if r.Success? {
        if allowEvents {
          anchorFloor := Some(nowMs);
        }
        usable := true;
      }
    }

    method AllocateRequestId() returns (r: Result<nat, Error>)
      modifies this`nextRequestId, this`usable
      ensures Spec.Step(Model(), r) == Spec.AllocateRequestId(old(Model()))
    {
      if !usable {
        return Failure(Spec.ConnectionUnusable);
      }
      var current := nextRequestId;
      if current >= U64_MAX {
        usable := false;
        return Failure(Spec.RequestIdExhausted);
      }
      nextRequestId := current + 1;
      return Success(current);
    }

    method Request(allowEvents: bool, nowMs: nat, incoming: seq<Spec.Message>) returns (r: Result<Spec.Message, Error>)
      modifies this`liveCursor, this`highWatermark, this`queuedEvents, this`usable, this`anchorFloor, this`nextRequestId
      ensures Spec.Step(Model(), r) == Spec.Request(config, old(Model()), allowEvents, nowMs, incoming)
    {
      var id := AllocateRequestId();
      if id.Failure? {
        return Failure(id.error);
      }
      r := Exchange(allowEvents, id.value, nowMs, incoming);
    }

    static method Connect(config: Spec.Config, poolInstance: nat, lastEventSeq: nat, nowMs: nat, incoming: seq<Spec.Message>)
      returns (r: Result<BackendClient, Error>)
      requires config.queueCapacity > 0
      ensures var spec := Spec.Connect(config, poolInstance, lastEventSeq, nowMs, incoming);
              if spec.Failure? then r.Failure? && r.error == spec.error
              else r.Success? && fresh(r.value) && r.value.config == config && r.value.Valid()
                   && r.value.clockMs == nowMs && r.value.Model() == spec.value
    {
      ConnectInv(config, poolInstance, lastEventSeq, nowMs, incoming);
      if lastEventSeq != 0 && config.expected.journalStream.None? {
        return Failure(Spec.MissingJournalIdentity);
      }
      if poolInstance == 0 {
        return Failure(Spec.InvalidField);
      }
      var client := new BackendClient.Opened(config, lastEventSeq, nowMs);
      var response := client.Request(false, nowMs, incoming);
      var refused := client.TakeHello(response, lastEventSeq);
      if refused.Some? {
        return Failure(refused.value);
      }
      return Success(client);
    }

    /** Compares one hello, field by field, with the expected networks and persistent identities. */
    method FindMismatch(hello: Hello) returns (field: Option<Spec.IdentityField>)
      ensures field == Spec.Mismatch(config.expected, hello)
      ensures field.None? <==> Authentic(config.expected, hello)
    {
      MismatchDecides(config.expected, hello);
      var expected, networks := config.expected, hello.networks;
      if networks.wcashGenesis != expected.networks.wcashGenesis {
        return Some(Spec.WcashGenesis);
      }
      if networks.zcashGenesis != expected.networks.zcashGenesis {
        return Some(Spec.ZcashGenesis);
      }
      if networks.chainId != expected.networks.chainId {
        return Some(Spec.ChainId);
      }
      if networks.wcashPayout != expected.networks.wcashPayout {
        return Some(Spec.WcashPayout);
      }
      if networks.zcashPayout != expected.networks.zcashPayout {
        return Some(Spec.ZcashPayout);
      }
      if networks.shareTargetCeiling != expected.networks.shareTargetCeiling {
        return Some(Spec.ShareTargetCeiling);
      }
      if expected.backendInstance.Some? && expected.backendInstance.value != hello.backendInstance {
        return Some(Spec.BackendInstance);
      }
      if expected.journalStream.Some? && expected.journalStream.value != hello.journalStream {
        return Some(Spec.JournalStream);
      }
      return None;
    }

    /** Verifies the hello and adopts the backend's identity and watermark, or says why not. */
    method TakeHello(response: Result<Spec.Message, Error>, lastEventSeq: nat) returns (refused: Option<Error>)
      modifies this`identity, this`highWatermark, this`replayComplete
      ensures var spec := Spec.TakeHello(config.expected, Spec.Step(old(Model()), response), lastEventSeq);
              if spec.Failure? then refused == Some(spec.error) else refused == None && Model() == spec.value
    {
      if response.Failure? {
        return Some(response.error);
      }
      match response.value
      case HelloOk(_, hello) =>
        var mismatch := FindMismatch(hello);
        if mismatch.Some? {
          return Some(Spec.IdentityMismatch(mismatch.value));
        }
        if lastEventSeq > hello.currentEventSeq {
          return Some(Spec.EventCursorAhead(lastEventSeq, hello.currentEventSeq));
        }
        identity := Some(hello);
        highWatermark := hello.currentEventSeq;
        replayComplete := lastEventSeq == hello.currentEventSeq;
        return None;
      case Rejection(_, code) =>
        return Some(Spec.BackendRejected(code));
      case _ =>
        return Some(Spec.UnexpectedResponse);
    }

    // -------------------------------------------------------------- watermarks

    method ObserveWatermark(received: nat) returns (r: Result<(), Error>)
      modifies this`highWatermark, this`replayComplete, this`usable
      ensures Spec.Step(Model(), r) == Spec.ObserveWatermark(old(Model()), received)
    {
      if received < highWatermark {
        usable := false;
        return Failure(Spec.EventWatermarkRollback(highWatermark, received));
      }
      highWatermark := received;
      if phase == Spec.Replay && received > replayCursor {
        replayComplete := false;
      }
      return Success(());
    }

    method RequireLiveEventsThrough(required: nat) returns (r: Result<(), Error>)
      modifies this`usable
      ensures Spec.Step(Model(), r) == Spec.RequireLiveEventsThrough(old(Model()), required)
    {
      if phase != Spec.Live {
        return Success(());
      }
      if liveCursor.None? {
        usable := false;
        return Failure(Spec.UnexpectedResponse);
      }
      if liveCursor.value < required {
        usable := false;
        return Failure(Spec.LiveEventFlushIncomplete(required, liveCursor.value));
      }
      return Success(());
    }

    // -------------------------------------------------------------- replay

    method RememberHistoricalEvents(events: seq<BackendEvent>)
      modifies this`historicalEvents
      ensures historicalEvents == Spec.AppendAll(config.queueCapacity, old(historicalEvents), events)
    {
      for k := 0 to |events|
        invariant historicalEvents == Spec.AppendAll(config.queueCapacity, old(historicalEvents), events[..k])
      {
        assert events[..k + 1][..k] == events[..k];
        if |historicalEvents| == config.queueCapacity && |historicalEvents| > 0 {
          historicalEvents := historicalEvents[1..];
        }
        historicalEvents := historicalEvents + [events[k]];
      }
      assert events[..|events|] == events;
    }

    method TakePage(requested: nat, limit: nat, after: nat, next: nat, complete: bool, events: seq<BackendEvent>)
      returns (r: Result<Spec.EventPage, Error>)
      modifies this`highWatermark, this`replayComplete, this`usable, this`replayCursor, this`historicalEvents
      ensures Spec.Step(Model(), r) == Spec.TakePage(config, old(Model()), requested, limit, after, next, complete, events)
    {
      if after != requested {
        usable := false;
        return Failure(Spec.EventPageCursorMismatch(requested, after));
      }
      if |events| > limit {
        usable := false;
        return Failure(Spec.EventPageLimitExceeded(limit, |events|));
      }
      if complete {
        var observed := ObserveWatermark(next);
        if observed.Failure? {
          return Failure(observed.error);
        }
      } else {
        highWatermark := MaxOf(highWatermark, next);
      }
      replayCursor := next;
      replayComplete := complete;
      RememberHistoricalEvents(events);
      return Success(Spec.EventPage(after, next, complete, events));
    }

    method ReadEvents(afterEventSeq: nat, limit: nat, nowMs: nat, incoming: seq<Spec.Message>)
      returns (r: Result<Spec.EventPage, Error>)
      requires Valid() && clockMs <= nowMs
      modifies this
      ensures Valid() && clockMs == nowMs && Advances(old(Model()), Model())
      ensures Spec.Step(Model(), r) == Spec.ReadEvents(config, old(Model()), afterEventSeq, limit, nowMs, incoming)
    {
      ReadInv(config, Model(), afterEventSeq, limit, nowMs, incoming, clockMs);
      clockMs := nowMs;
      if !usable {
        return Failure(Spec.ConnectionUnusable);
      }
      if phase != Spec.Replay {
        return Failure(Spec.InvalidStreamPhase(Spec.Replay));
      }
      if !(1 <= limit <= MAX_EVENT_PAGE_ITEMS) {
        return Failure(Spec.InvalidField);
      }
      if afterEventSeq != replayCursor {
        return Failure(Spec.ReplayCursorMismatch(replayCursor, afterEventSeq));
      }
      var response := Request(false, nowMs, incoming);
      r := TakePageResponse(response, afterEventSeq, limit);
    }

    method TakePageResponse(response: Result<Spec.Message, Error>, afterEventSeq: nat, limit: nat)
      returns (r: Result<Spec.EventPage, Error>)
      modifies this`highWatermark, this`replayComplete, this`usable, this`replayCursor, this`historicalEvents
      ensures Spec.Step(Model(), r) == Spec.TakePageResponse(config, Spec.Step(old(Model()), response), afterEventSeq, limit)
    {
      if response.Failure? {
        return Failure(response.error);
      }
      match response.value
      case Page(_, after, next, complete, events) =>
        r := TakePage(afterEventSeq, limit, after, next, complete, events);
      case Rejection(_, code) =>
        return Failure(Spec.BackendRejected(code));
      case _ =>
        usable := false;
        return Failure(Spec.UnexpectedResponse);
    }

    // -------------------------------------------------------------- live

    method GoLive(after: nat, eventSeq: nat, current: Option<AcceptableJob>, recent: seq<AcceptableJob>, anchorMs: nat)
      returns (r: Result<Spec.JobSnapshot, Error>)
      modifies this`highWatermark, this`replayComplete, this`usable, this`liveCursor, this`snapshotSeq, this`anchorFloor, this`phase
      ensures Spec.Step(Model(), r) == Spec.GoLive(old(Model()), after, eventSeq, current, recent, anchorMs)
    {
      if eventSeq < after {
        usable := false;
        return Failure(Spec.SnapshotCursorBehind(after, eventSeq));
      }
      var observed := ObserveWatermark(eventSeq);
      if observed.Failure? {
        return Failure(observed.error);
      }
      liveCursor := Some(eventSeq);
      snapshotSeq := Some(eventSeq);
      anchorFloor := Some(anchorMs);
      phase := Spec.Live;
      return Success(Spec.JobSnapshot(eventSeq, current, recent, after, anchorMs));
    }

    method SubscribeJobs(afterEventSeq: nat, nowMs: nat, incoming: seq<Spec.Message>)
      returns (r: Result<Spec.JobSnapshot, Error>)
      requires Valid() && clockMs <= nowMs
      modifies this
      ensures Valid() && clockMs == nowMs && Advances(old(Model()), Model())
      ensures Spec.Step(Model(), r) == Spec.SubscribeJobs(config, old(Model()), afterEventSeq, nowMs, incoming)
      ensures r.Success? <==> Meaning.Subscribes(config, old(Model()), afterEventSeq, incoming)
      ensures r.Success? ==>
                r.value == Spec.JobSnapshot(incoming[0].eventSeq, incoming[0].current, incoming[0].recent, afterEventSeq, nowMs)
    {
      Meaning.SubscribeExactly(config, Model(), afterEventSeq, nowMs, incoming);
      SubscribeInv(config, Model(), afterEventSeq, nowMs, incoming, clockMs);
      clockMs := nowMs;
      if !usable {
        return Failure(Spec.ConnectionUnusable);
      }
      if phase != Spec.Replay {
        return Failure(Spec.InvalidStreamPhase(Spec.Replay));
      }
      if afterEventSeq != replayCursor {
        return Failure(Spec.ReplayCursorMismatch(replayCursor, afterEventSeq));
      }
      if !replayComplete {
        return Failure(Spec.ReplayIncomplete(replayCursor));
      }
      var response := Request(false, nowMs, incoming);
      r := TakeSnapshotResponse(response, afterEventSeq, nowMs);
    }

    method TakeSnapshotResponse(response: Result<Spec.Message, Error>, afterEventSeq: nat, nowMs: nat)
      returns (r: Result<Spec.JobSnapshot, Error>)
      modifies this`highWatermark, this`replayComplete, this`usable, this`liveCursor, this`snapshotSeq, this`anchorFloor, this`phase
      ensures Spec.Step(Model(), r) == Spec.TakeSnapshotResponse(Spec.Step(old(Model()), response), afterEventSeq, nowMs)
    {
      if response.Failure? {
        return Failure(response.error);
      }
      match response.value
      case Snapshot(_, eventSeq, current, recent) =>
        r := GoLive(afterEventSeq, eventSeq, current, recent, nowMs);
      case Rejection(_, code) =>
        return Failure(Spec.BackendRejected(code));
      case _ =>
        usable := false;
        return Failure(Spec.UnexpectedResponse);
    }

    method TakeHealth(eventSeq: nat, healthy: bool, recoveryOnly: bool) returns (r: Result<Spec.HealthSnapshot, Error>)
      modifies this`highWatermark, this`replayComplete, this`usable
      ensures Spec.Step(Model(), r) == Spec.TakeHealth(old(Model()), eventSeq, healthy, recoveryOnly)
    {
      var observed := ObserveWatermark(eventSeq);
      if observed.Failure? {
        return Failure(observed.error);
      }
      var flushed := RequireLiveEventsThrough(eventSeq);
      if flushed.Failure? {
        return Failure(flushed.error);
      }
      return Success(Spec.HealthSnapshot(eventSeq, healthy, recoveryOnly));
    }

    method Health(nowMs: nat, incoming: seq<Spec.Message>) returns (r: Result<Spec.HealthSnapshot, Error>)
      requires Valid() && clockMs <= nowMs
      modifies this
      ensures Valid() && clockMs == nowMs && Advances(old(Model()), Model())
      ensures Spec.Step(Model(), r) == Spec.Health(config, old(Model()), nowMs, incoming)
    {
      HealthInv(config, Model(), nowMs, incoming, clockMs);
      clockMs := nowMs;
      var response := Request(phase == Spec.Live, nowMs, incoming);
      r := TakeHealthResponse(response);
    }

    method TakeHealthResponse(response: Result<Spec.Message, Error>) returns (r: Result<Spec.HealthSnapshot, Error>)
      modifies this`highWatermark, this`replayComplete, this`usable
      ensures Spec.Step(Model(), r) == Spec.TakeHealthResponse(Spec.Step(old(Model()), response))
    {
      if response.Failure? {
        return Failure(response.error);
      }
      match response.value
      case HealthStatus(_, eventSeq, healthy, recoveryOnly) =>
        r := TakeHealth(eventSeq, healthy, recoveryOnly);
      case Rejection(_, code) =>
        return Failure(Spec.BackendRejected(code));
      case _ =>
        usable := false;
        return Failure(Spec.UnexpectedResponse);
    }

    method PopQueuedEvent() returns (delivered: Option<Spec.Delivered>)
      requires Valid()
      modifies this`queuedEvents, this`observedEvents, this`popped
      ensures Valid() && Advances(old(Model()), Model())
      ensures (Model(), delivered) == Spec.Pop(config, old(Model()))
    {
      PopInv(config, Model(), clockMs);
      if |queuedEvents| == 0 {
        return None;
      }
      var oldest := queuedEvents[0];
      queuedEvents := queuedEvents[1..];
      if |observedEvents| == config.queueCapacity && |observedEvents| > 0 {
        observedEvents := observedEvents[1..];
      }
      observedEvents := observedEvents + [oldest.event];
      popped := popped + [oldest];
      return Some(oldest);
    }

    // -------------------------------------------------------------- share submission

    /** Scans all retained evidence for an event that contradicts the claimed receipt. */
    method FindHistoryConflict(receipt: ShareReceipt, identity: WorkerIdentity, targetLe: Hex32) returns (o: Option<Error>)
      ensures o == Spec.HistoryConflict(Spec.Evidence(Model()), receipt, identity, targetLe)
    {
      var evidence := Spec.Events(queuedEvents) + observedEvents + historicalEvents;
      var k := 0;
      while k < |evidence|
        invariant 0 <= k <= |evidence|
        invariant Spec.HistoryConflict(evidence[k..], receipt, identity, targetLe)
               == Spec.HistoryConflict(evidence, receipt, identity, targetLe)
      {
        var event := evidence[k];
        assert evidence[k..][0] == event && evidence[k..][1..] == evidence[k + 1..];
        var exact := Spec.ShareEventMatches(event, receipt, identity, targetLe);
        if EventSeq(event) == receipt.eventSeq && !exact {
          return Some(Spec.ShareCommitEventMismatch(receipt.eventSeq));
        }
        if event.ShareCommitted? && event.receipt.shareId == receipt.shareId && !exact {
          return Some(Spec.ShareCommitHistoryConflict(event.receipt.eventSeq, receipt.eventSeq));
        }
        k := k + 1;
      }
      return None;
    }

    method HasLiveMatch(receipt: ShareReceipt, identity: WorkerIdentity, targetLe: Hex32) returns (found: bool)
      ensures found == Spec.HasMatch(Spec.LiveEvidence(Model()), receipt, identity, targetLe)
    {
      var evidence := Spec.Events(queuedEvents) + observedEvents;
      for k := 0 to |evidence|
        invariant forall i :: 0 <= i < k ==>
                    !(EventSeq(evidence[i]) == receipt.eventSeq && Spec.ShareEventMatches(evidence[i], receipt, identity, targetLe))
      {
        if EventSeq(evidence[k]) == receipt.eventSeq && Spec.ShareEventMatches(evidence[k], receipt, identity, targetLe) {
          return true;
        }
      }
      return false;
    }

    method TakeCommit(sub: Spec.Submission, shareId: nat, attributionId: nat, cursorBefore: nat,
                      receipt: ShareReceipt, replayed: bool) returns (r: Result<Spec.ShareCommit, Error>)
      modifies this`usable, this`acceptedFresh
      ensures Spec.Step(Model(), r)
           == Spec.TakeCommit(old(Model()), sub, shareId, attributionId, cursorBefore, receipt, replayed)
    {
      if receipt.jobId != sub.jobId || receipt.shareId != shareId || receipt.attributionId != attributionId {
        usable := false;
        return Failure(Spec.InvalidField);
      }
      if !replayed && receipt.eventSeq <= cursorBefore {
        usable := false;
        return Failure(Spec.FreshShareCommitDidNotAdvance(receipt.eventSeq));
      }
      var flushed := RequireLiveEventsThrough(receipt.eventSeq);
      if flushed.Failure? {
        return Failure(flushed.error);
      }
      var conflict := FindHistoryConflict(receipt, sub.identity, sub.targetLe);
      if conflict.Some? {
        usable := false;
        return Failure(conflict.value);
      }
      var found := HasLiveMatch(receipt, sub.identity, sub.targetLe);
      if found {
        if !replayed {
          acceptedFresh := acceptedFresh + [receipt];
        }
        return Success(Spec.ShareCommit(receipt, replayed));
      }
      if replayed && receipt.eventSeq <= cursorBefore {
        return Failure(Spec.HistoricalReplayRequiresProjection(receipt));
      }
      usable := false;
      return Failure(Spec.ShareCommitEventMismatch(receipt.eventSeq));
    }

    method FindContradiction(sub: Spec.Submission, shareId: nat, attributionId: nat) returns (o: Option<nat>)
      ensures o == Spec.ContradictingSeq(Spec.Evidence(Model()), sub, shareId, attributionId)
      ensures o.None? <==> forall e :: e in Spec.Evidence(Model()) ==> !Meaning.Contradicts(e, sub, shareId, attributionId)
    {
      var evidence := Spec.Events(queuedEvents) + observedEvents + historicalEvents;
      ghost var _ := Meaning.ContradictionExactly(evidence, sub, shareId, attributionId);
      var k := 0;
      while k < |evidence|
        invariant 0 <= k <= |evidence|
        invariant Spec.ContradictingSeq(evidence[k..], sub, shareId, attributionId)
               == Spec.ContradictingSeq(evidence, sub, shareId, attributionId)
      {
        var event := evidence[k];
        assert evidence[k..][0] == event && evidence[k..][1..] == evidence[k + 1..];
        if event.ShareCommitted? && event.jobId == sub.jobId && event.receipt.jobId == sub.jobId
           && event.receipt.shareId == shareId && event.receipt.attributionId == attributionId
           && event.identity == sub.identity && event.targetLe == sub.targetLe
        {
          return Some(event.receipt.eventSeq);
        }
        k := k + 1;
      }
      return None;
    }

    method TakeShareResponse(response: Result<Spec.Message, Error>, sub: Spec.Submission, shareId: nat, attributionId: nat,
                             cursorBefore: nat) returns (r: Result<Spec.ShareCommit, Error>)
      modifies this`usable, this`acceptedFresh
      ensures Spec.Step(Model(), r)
           == Spec.TakeShareResponse(Spec.Step(old(Model()), response), sub, shareId, attributionId, cursorBefore)
    {
      if response.Failure? {
        return Failure(response.error);
      }
      match response.value
      case Committed(_, receipt, replayed) =>
        r := TakeCommit(sub, shareId, attributionId, cursorBefore, receipt, replayed);
      case Rejection(_, code) =>
        var contradiction := FindContradiction(sub, shareId, attributionId);
        if contradiction.Some? {
          usable := false;
          return Failure(Spec.ContradictoryShareOutcome(contradiction.value));
        }
        return Failure(Spec.BackendRejected(code));
      case _ =>
        usable := false;
        return Failure(Spec.UnexpectedResponse);
    }

    method SubmitShare(sub: Spec.Submission, nowMs: nat, incoming: seq<Spec.Message>) returns (r: Result<Spec.ShareCommit, Error>)
      requires Valid() && clockMs <= nowMs
      modifies this
      ensures Valid() && clockMs == nowMs && Advances(old(Model()), Model())
      ensures Spec.Step(Model(), r) == Spec.SubmitShare(config, old(Model()), sub, nowMs, incoming)
    {
      SubmitInv(config, Model(), sub, nowMs, incoming, clockMs);
      clockMs := nowMs;
      if !usable {
        return Failure(Spec.ConnectionUnusable);
      }
      if phase != Spec.Live {
        return Failure(Spec.InvalidStreamPhase(Spec.Live));
      }
      var cursorBefore := liveCursor.value;
      var attribution := config.digests.attributionId(sub.identity, sub.targetLe);
      if attribution.None? {
        return Failure(Spec.InvalidField);
      }
      var id := AllocateRequestId();
      if id.Failure? {
        return Failure(id.error);
      }
      if sub.jobId == 0 || sub.time == 0 {
        return Failure(Spec.InvalidField);
      }
      var response := Exchange(true, id.value, nowMs, incoming);
      r := TakeShareResponse(response, sub, config.digests.shareId(sub.jobId, sub.time, sub.nonce, sub.solution),
                             attribution.value, cursorBefore);
    }
  }
}
