/**
 * The generation registry as a pure transition system: one function per public
 * operation, failing and half-applied paths included.
 */
module RegistryModel {
  import opened Bytes
  import opened Common
  import opened Protocol

  const MAX_ZCASH_WINNER_RECOVERY_JOBS: nat := 32
  const ZCASH_WINNER_RECOVERY_TAIL_MS: nat := 60_000

  datatype Config = Config(maximumRecent: nat, maximumGenerations: nat, digests: Digests)
  {
    predicate Valid() {
      maximumRecent != 0 && maximumGenerations > maximumRecent
    }
  }

  datatype AdmissionState = Accepting | Suspended | Invalidated | Closed

  predicate Terminal(s: AdmissionState) {
    s == Invalidated || s == Closed
  }

  datatype Storage = Live(inFlight: nat) | Tombstone

  datatype Entry = Entry(
    generation: JobDescriptor,
    storage: Storage,
    acceptUntilMs: nat,
    recoveryUntilMs: nat,
    state: AdmissionState)
  {
    predicate AcceptingAt(nowMs: nat) {
      AcceptsAt(state, storage.Live?, acceptUntilMs, nowMs)
    }

    predicate RetainedAt(nowMs: nat) {
      KeptAt(state, storage.Live?, acceptUntilMs, nowMs)
    }
  }

  // ---------------------------------------------------------------- decisions on one entry's fields

  predicate AcceptsAt(state: AdmissionState, live: bool, untilMs: nat, nowMs: nat) {
    state == Accepting && live && nowMs < untilMs
  }

  predicate KeptAt(state: AdmissionState, live: bool, untilMs: nat, nowMs: nat) {
    (state == Accepting || state == Suspended) && live && nowMs < untilMs
  }

  function ExpiredState(state: AdmissionState, untilMs: nat, nowMs: nat): AdmissionState {
    if (state == Accepting || state == Suspended) && nowMs >= untilMs then Invalidated else state
  }

  function SuspendedState(state: AdmissionState): AdmissionState {
    if state == Accepting then Suspended else state
  }

  /** What becomes of an entry a snapshot omits. */
  function DemotedState(state: AdmissionState): AdmissionState {
    if state == Closed then Closed else Invalidated
  }

  predicate RecoverableAt(state: AdmissionState, recoveryUntilMs: nat, d: JobDescriptor, parent: Option<nat>, nowMs: nat) {
    state != Closed && nowMs < recoveryUntilMs && (parent.Some? ==> d.zcashPreviousHash == parent.value)
  }

  predicate CollectableAt(current: Option<JobId>, recent: seq<JobId>, id: JobId, state: AdmissionState, idle: bool) {
    current != Some(id) && id !in recent && Terminal(state) && idle
  }

  /** The grant decision, given the descriptor of a listed job that is still recoverable. */
  function Decide(c: Config, id: JobId, candidate: Option<JobDescriptor>, parent: Option<nat>, nonce: Hex32, solution: nat,
                  allowNoCurrent: bool): (d: Result<JobDescriptor, RegistryError>)
  {
    if parent.None? && !allowNoCurrent then Failure(StaleJob(id))
    else if candidate.None? || !MeetsZcashTarget(c, candidate.value, nonce, solution) then Failure(StaleJob(id))
    else Success(candidate.value)
  }

  type Entries = map<JobId, Entry>

  datatype Registry = Registry(
    entries: Entries,
    current: Option<JobId>,
    recent: seq<JobId>,
    winnerRecovery: seq<JobId>,
    watermarkCurrent: Option<JobId>,
    watermarkRecent: seq<JobId>,
    lastEventSeq: Option<nat>,
    lastAnchorMs: Option<nat>,
    lastMonotonicMs: Option<nat>,
    synchronized: bool)

  datatype RegistryError =
    | InvalidDescriptor
    | InvalidRemainingLifetime(id: JobId)
    | DeadlineOverflow
    | ClockMovedBackwards
    | SnapshotSequenceRollback(previous: nat, received: nat)
    | SnapshotStateConflict(eventSeq: nat)
    | DuplicateSnapshotJob(id: JobId)
    | ConflictingJobId(id: JobId)
    | ResurrectedJob(id: JobId)
    | ReusedJobId(id: JobId)
    | RecentCapacityExceeded(maximum: nat)
    | GenerationCapacityExceeded(maximum: nat)
    | NotSynchronized
    | EventSequenceGap(expected: nat, received: nat)
    | EventSequenceExhausted
    | InvalidBackendEvent
    | UnknownJob(id: JobId)
    | StaleJob(id: JobId)
    | AdmissionCounterExhausted(id: JobId)

  datatype Step<+T> = Step(next: Registry, result: Result<T, RegistryError>)

  function Empty(): Registry {
    Registry(map[], None, [], [], None, [], None, None, None, false)
  }

  // ---------------------------------------------------------------- list and map helpers

  /** `retain`: the members of `s` that are in `keep`, in order. */
  function Retain(s: seq<JobId>, keep: set<JobId>): (r: seq<JobId>)
    ensures |r| <= |s|
    ensures forall id :: id in r <==> id in s && id in keep
    ensures Distinct(s) ==> Distinct(r)
  {
    if |s| == 0 then []
    else
      var front := Retain(s[..|s| - 1], keep);
      assert s == s[..|s| - 1] + [s[|s| - 1]];
      if s[|s| - 1] in keep then front + [s[|s| - 1]] else front
  }

  predicate Distinct(s: seq<JobId>) {
    forall i, j :: 0 <= i < j < |s| ==> s[i] != s[j]
  }

  function RetainOption(o: Option<JobId>, keep: set<JobId>): Option<JobId> {
    if o.Some? && o.value in keep then o else None
  }

  function Without(s: seq<JobId>, id: JobId): (r: seq<JobId>)
    ensures |r| <= |s|
    ensures forall x :: x in r <==> x in s && x != id
    ensures Distinct(s) ==> Distinct(r)
  {
    Retain(s, set x | x in s && x != id)
  }

  function AcceptingIds(entries: Entries, nowMs: nat): set<JobId> {
    set id | id in entries && entries[id].AcceptingAt(nowMs)
  }

  function RetainedIds(entries: Entries, nowMs: nat): set<JobId> {
    set id | id in entries && entries[id].RetainedAt(nowMs)
  }

  // ---------------------------------------------------------------- clock, expiry, suspension

  function ExpireEntry(e: Entry, nowMs: nat): Entry {
    e.(state := ExpiredState(e.state, e.acceptUntilMs, nowMs))
  }

  function ExpireEntries(entries: Entries, nowMs: nat): Entries {
    map id | id in entries :: ExpireEntry(entries[id], nowMs)
  }

  function ExpireAt(r: Registry, nowMs: nat): Registry {
    var entries := ExpireEntries(r.entries, nowMs);
    var accepting := AcceptingIds(entries, nowMs);
    var retained := RetainedIds(entries, nowMs);
    r.(entries := entries,
       current := RetainOption(r.current, accepting),
       recent := Retain(r.recent, accepting),
       watermarkCurrent := RetainOption(r.watermarkCurrent, retained),
       watermarkRecent := Retain(r.watermarkRecent, retained))
  }

  function SuspendEntry(e: Entry): Entry {
    e.(state := SuspendedState(e.state))
  }

  function Suspend(r: Registry): Registry {
    r.(entries := map id | id in r.entries :: SuspendEntry(r.entries[id]),
       current := None, recent := [], winnerRecovery := [], synchronized := false)
  }

  predicate Before(nowMs: nat, last: Option<nat>) {
    last.Some? && nowMs < last.value
  }

  function Latest(last: Option<nat>, nowMs: nat): nat {
    if last.Some? then MaxOf(last.value, nowMs) else nowMs
  }

  function AdvanceClock(r: Registry, nowMs: nat): (s: Step<()>) {
    if Before(nowMs, r.lastMonotonicMs) then Step(Suspend(r), Failure(ClockMovedBackwards))
    else Step(ExpireAt(r, nowMs).(lastMonotonicMs := Some(nowMs)), Success(()))
  }

  // ---------------------------------------------------------------- deadlines

  function Deadline(anchorMs: nat, durationMs: nat): Result<nat, RegistryError> {
    if anchorMs + durationMs > U64_MAX then Failure(DeadlineOverflow) else Success(anchorMs + durationMs)
  }

  function RecoveryDeadline(deadlineMs: nat): Result<nat, RegistryError> {
    Deadline(deadlineMs, ZCASH_WINNER_RECOVERY_TAIL_MS)
  }

  // ---------------------------------------------------------------- late-winner list

  function Remember(list: seq<JobId>, id: JobId): (r: seq<JobId>)
    ensures id in r
    ensures forall x :: x in r ==> x in list || x == id
    ensures Distinct(list) ==> Distinct(r)
    ensures |list| <= MAX_ZCASH_WINNER_RECOVERY_JOBS ==> |r| <= MAX_ZCASH_WINNER_RECOVERY_JOBS
  {
    if id in list then list
    else if |list| == MAX_ZCASH_WINNER_RECOVERY_JOBS then list[1..] + [id]
    else list + [id]
  }

  function RememberAll(list: seq<JobId>, ids: seq<JobId>): (r: seq<JobId>)
    ensures forall x :: x in r ==> x in list || x in ids
    ensures Distinct(list) ==> Distinct(r)
    ensures |list| <= MAX_ZCASH_WINNER_RECOVERY_JOBS ==> |r| <= MAX_ZCASH_WINNER_RECOVERY_JOBS
  {
    if |ids| == 0 then list else Remember(RememberAll(list, ids[..|ids| - 1]), ids[|ids| - 1])
  }

  /** The Zcash predecessor of the current job while it still accepts. */
  function CurrentParent(r: Registry, nowMs: nat): Option<nat> {
    if r.current.Some? && r.current.value in r.entries && r.entries[r.current.value].AcceptingAt(nowMs)
    then Some(r.entries[r.current.value].generation.zcashPreviousHash)
    else None
  }

  predicate Recoverable(e: Entry, parent: Option<nat>, nowMs: nat) {
    RecoverableAt(e.state, e.recoveryUntilMs, e.generation, parent, nowMs)
  }

  function RecoverableIds(entries: Entries, parent: Option<nat>, nowMs: nat): set<JobId> {
    set id | id in entries && Recoverable(entries[id], parent, nowMs)
  }

  function Prune(r: Registry, nowMs: nat): Registry {
    r.(winnerRecovery := Retain(r.winnerRecovery, RecoverableIds(r.entries, CurrentParent(r, nowMs), nowMs)))
  }

  // ---------------------------------------------------------------- snapshots

  /** Validates one snapshot job against everything already known about its identifier. */
  function PrepareAcceptable(entries: Entries, a: AcceptableJob, anchorMs: nat): (r: Result<Entry, RegistryError>)
  {
    var id := a.job.jobId;
    if !ValidDescriptor(a.job) then Failure(InvalidDescriptor)
    else if a.acceptForMs == 0 || a.acceptForMs > a.job.maxAgeMs then Failure(InvalidRemainingLifetime(id))
    else if Deadline(anchorMs, a.acceptForMs).Failure? then Failure(DeadlineOverflow)
    else
      var proposed := anchorMs + a.acceptForMs;
      if id in entries then
        var known := entries[id];
        if known.generation != a.job then Failure(ConflictingJobId(id))
        else if Terminal(known.state) || known.storage.Tombstone? then Failure(ResurrectedJob(id))
        else if MinOf(known.acceptUntilMs, proposed) <= anchorMs then Failure(ResurrectedJob(id))
        else Success(known.(acceptUntilMs := MinOf(known.acceptUntilMs, proposed), state := Accepting))
      else if RecoveryDeadline(proposed).Failure? then Failure(DeadlineOverflow)
      else Success(Entry(a.job, Live(0), proposed, proposed + ZCASH_WINNER_RECOVERY_TAIL_MS, Accepting))
  }

  datatype Prepared = Prepared(ids: seq<JobId>, entries: Entries)

  function PrepareJobs(entries: Entries, jobs: seq<AcceptableJob>, anchorMs: nat): (r: Result<Prepared, RegistryError>)
  {
    if |jobs| == 0 then Success(Prepared([], map[]))
    else
      var last := jobs[|jobs| - 1];
      AddPrepared(PrepareJobs(entries, jobs[..|jobs| - 1], anchorMs), last.job.jobId, PrepareAcceptable(entries, last, anchorMs))
  }

  function AddPrepared(front: Result<Prepared, RegistryError>, id: JobId, last: Result<Entry, RegistryError>)
    : (r: Result<Prepared, RegistryError>)
  {
    if front.Failure? then front
    else if last.Failure? then Failure(last.error)
    else if id in front.value.ids then Failure(DuplicateSnapshotJob(id))
    else Success(Prepared(front.value.ids + [id], front.value.entries[id := last.value]))
  }

  lemma PrepareSnoc(entries: Entries, jobs: seq<AcceptableJob>, k: nat, anchorMs: nat)
    requires k < |jobs|
    ensures PrepareJobs(entries, jobs[..k + 1], anchorMs)
         == AddPrepared(PrepareJobs(entries, jobs[..k], anchorMs), jobs[k].job.jobId, PrepareAcceptable(entries, jobs[k], anchorMs))
  {
    assert jobs[..k + 1][..k] == jobs[..k];
  }

  function DemoteEntry(e: Entry): Entry {
    e.(state := DemotedState(e.state))
  }

  /** Every known identifier survives; work the snapshot omits becomes terminal. */
  function MergeSnapshot(entries: Entries, prepared: Entries): Entries {
    map id | id in entries.Keys + prepared.Keys ::
      if id in prepared then prepared[id] else DemoteEntry(entries[id])
  }

  function SnapshotJobs(current: Option<AcceptableJob>, recent: seq<AcceptableJob>): seq<AcceptableJob> {
    (if current.Some? then [current.value] else []) + recent
  }

  datatype PreparedSnapshot = PreparedSnapshot(entries: Entries, current: Option<JobId>, recent: seq<JobId>)

  function PrepareSnapshot(c: Config, r: Registry, eventSeq: nat, current: Option<AcceptableJob>,
                           recent: seq<AcceptableJob>, anchorMs: nat): (s: Result<PreparedSnapshot, RegistryError>)
  {
    if Before(anchorMs, r.lastAnchorMs) then Failure(ClockMovedBackwards)
    else if r.lastEventSeq.Some? && eventSeq < r.lastEventSeq.value then
      Failure(SnapshotSequenceRollback(r.lastEventSeq.value, eventSeq))
    else if |recent| > c.maximumRecent then Failure(RecentCapacityExceeded(c.maximumRecent))
    else
      var jobs := PrepareJobs(r.entries, SnapshotJobs(current, recent), anchorMs);
      if jobs.Failure? then Failure(jobs.error)
      else
        JobsLength(r.entries, SnapshotJobs(current, recent), anchorMs);
        var ids := jobs.value.ids;
        var currentId := if current.Some? then Some(ids[0]) else None;
        var recentIds := if current.Some? then ids[1..] else ids;
        if r.lastEventSeq == Some(eventSeq) && (currentId != r.watermarkCurrent || recentIds != r.watermarkRecent) then
          Failure(SnapshotStateConflict(eventSeq))
        else
          var entries := MergeSnapshot(r.entries, jobs.value.entries);
          if |entries| > c.maximumGenerations then Failure(GenerationCapacityExceeded(c.maximumGenerations))
          else Success(PreparedSnapshot(entries, currentId, recentIds))
  }

  lemma {:induction false} JobsLength(entries: Entries, jobs: seq<AcceptableJob>, anchorMs: nat)
    ensures var r := PrepareJobs(entries, jobs, anchorMs); r.Success? ==> |r.value.ids| == |jobs|
    decreases |jobs|
  {
    if |jobs| == 0 {
    } else {
      JobsLength(entries, jobs[..|jobs| - 1], anchorMs);
    }
  }

  function Roles(r: Registry): seq<JobId> {
    (if r.current.Some? then [r.current.value] else []) + r.recent
  }

  function InstallSnapshot(r: Registry, p: PreparedSnapshot, eventSeq: nat, startedMs: nat): Registry {
    var nowMs := Latest(r.lastMonotonicMs, startedMs);
    var expired := ExpireAt(
      r.(entries := p.entries, current := p.current, recent := p.recent,
         watermarkCurrent := p.current, watermarkRecent := p.recent,
         lastEventSeq := Some(eventSeq), lastAnchorMs := Some(startedMs), lastMonotonicMs := Some(nowMs),
         synchronized := true),
      nowMs);
    Prune(expired.(winnerRecovery := RememberAll(expired.winnerRecovery, Roles(expired))), nowMs)
  }

  function ApplySnapshot(c: Config, r: Registry, eventSeq: nat, current: Option<AcceptableJob>,
                         recent: seq<AcceptableJob>, startedMs: nat): (s: Step<()>)
  {
    var p := PrepareSnapshot(c, r, eventSeq, current, recent, startedMs);
    if p.Failure? then Step(Suspend(r), Failure(p.error))
    else Step(InstallSnapshot(r, p.value, eventSeq, startedMs), Success(()))
  }

  // ---------------------------------------------------------------- events

  /** Why an activation is refused before it changes any role. */
  function RefuseActivation(c: Config, r: Registry, job: JobDescriptor, prior: Option<JobId>, anchorMs: nat)
    : (o: Option<RegistryError>)
  {
    if !ValidDescriptor(job) then Some(InvalidDescriptor)
    else if job.jobId in r.entries then Some(ReusedJobId(job.jobId))
    else if prior.Some? && |r.recent| == c.maximumRecent then Some(RecentCapacityExceeded(c.maximumRecent))
    else if |r.entries| == c.maximumGenerations then Some(GenerationCapacityExceeded(c.maximumGenerations))
    else if Deadline(anchorMs, job.maxAgeMs).Failure? then Some(DeadlineOverflow)
    else None
  }

  function PushPrior(r: Registry, prior: Option<JobId>): Registry {
    r.(recent := if prior.Some? then [prior.value] + r.recent else r.recent)
  }

  function Activate(c: Config, r: Registry, job: JobDescriptor, anchorMs: nat): (s: Step<()>)
  {
    var prior := RetainOption(r.current, AcceptingIds(r.entries, anchorMs));
    var refused := RefuseActivation(c, r, job, prior, anchorMs);
    if refused.Some? then Step(r, Failure(refused.value))
    else
      var pushed := PushPrior(r, prior);
      var until := anchorMs + job.maxAgeMs;
      if RecoveryDeadline(until).Failure? then Step(pushed, Failure(DeadlineOverflow))
      else Step(Prune(Insert(pushed, job, until), anchorMs), Success(()))
  }

  function Insert(r: Registry, job: JobDescriptor, untilMs: nat): Registry {
    r.(entries := r.entries[job.jobId := Entry(job, Live(0), untilMs, untilMs + ZCASH_WINNER_RECOVERY_TAIL_MS, Accepting)],
       current := Some(job.jobId),
       winnerRecovery := Remember(r.winnerRecovery, job.jobId))
  }

  function DropRole(r: Registry, id: JobId): Registry {
    r.(current := if r.current == Some(id) then None else r.current, recent := Without(r.recent, id))
  }

  function Invalidate(c: Config, r: Registry, id: JobId, reason: InvalidationReason, acceptForMs: nat, anchorMs: nat)
    : (s: Step<()>)
  {
    if id !in r.entries then Step(r, Success(()))
    else if r.entries[id].state != Accepting then Step(DropRole(r, id), Success(()))
    else if reason == Superseded && acceptForMs != 0 then SupersedeFor(c, r, id, acceptForMs, anchorMs)
    else
      Step(DropRole(r.(entries := r.entries[id := r.entries[id].(state := Invalidated)]), id), Success(()))
  }

  function SupersedeFor(c: Config, r: Registry, id: JobId, acceptForMs: nat, anchorMs: nat): (s: Step<()>)
    requires id in r.entries
  {
    if Deadline(anchorMs, acceptForMs).Failure? then Step(r, Failure(DeadlineOverflow))
    else if id !in r.recent && |r.recent| == c.maximumRecent then Step(r, Failure(RecentCapacityExceeded(c.maximumRecent)))
    else Step(Supersede(r, id, anchorMs + acceptForMs, anchorMs), Success(()))
  }

  /** Grace: the job moves to, or stays in, the recent list under a deadline that only shrinks. */
  function Supersede(r: Registry, id: JobId, proposed: nat, anchorMs: nat): Registry
    requires id in r.entries
  {
    var until := MinOf(r.entries[id].acceptUntilMs, proposed);
    var e := r.entries[id].(acceptUntilMs := until, state := if until > anchorMs then Accepting else Invalidated);
    var r1 := r.(entries := r.entries[id := e],
                 recent := if e.state == Accepting && id !in r.recent then [id] + r.recent else r.recent,
                 current := if r.current == Some(id) then None else r.current);
    if e.AcceptingAt(anchorMs) then r1 else r1.(recent := Without(r1.recent, id))
  }

  function Close(r: Registry, id: JobId): Registry {
    if id !in r.entries then r
    else DropRole(r.(entries := r.entries[id := r.entries[id].(state := Closed)],
                     winnerRecovery := Without(r.winnerRecovery, id)), id)
  }

  /** The event-specific part, on a registry already expired at the policy time. */
  function Dispatch(c: Config, r: Registry, e: BackendEvent, anchorMs: nat): (s: Step<()>)
  {
    match e
    case JobActivated(_, job) => Activate(c, r, job, anchorMs)
    case JobInvalidated(_, id, reason, acceptForMs) =>
      Invalidate(c, if reason == ZcashTipChanged then r.(winnerRecovery := Without(r.winnerRecovery, id)) else r,
                 id, reason, acceptForMs, anchorMs)
    case GenerationClosed(_, id) => Step(Close(r, id), Success(()))
    case ShareCommitted(_, _, _, _) => Step(r, Success(()))
    case WinnerEvent(_, _, _, _, _) => Step(r, Success(()))
  }

  /** The checks an event passes before it touches any state. */
  function CheckEvent(c: Config, r: Registry, e: BackendEvent, anchorMs: nat, policyNowMs: nat): (o: Option<RegistryError>)
  {
    if !r.synchronized then Some(NotSynchronized)
    else if Before(anchorMs, r.lastAnchorMs) || Before(policyNowMs, r.lastMonotonicMs) || policyNowMs < anchorMs then
      Some(ClockMovedBackwards)
    else if !ValidEvent(c.digests, e) then Some(InvalidBackendEvent)
    else if r.lastEventSeq.None? then Some(NotSynchronized)
    else if r.lastEventSeq.value >= U64_MAX then Some(EventSequenceExhausted)
    else if EventSeq(e) != r.lastEventSeq.value + 1 then
      Some(EventSequenceGap(r.lastEventSeq.value + 1, EventSeq(e)))
    else None
  }

  function Commit(r: Registry, e: BackendEvent, anchorMs: nat, nowMs: nat): Registry {
    var expired := ExpireAt(r, nowMs);
    expired.(lastEventSeq := Some(EventSeq(e)),
             watermarkCurrent := expired.current, watermarkRecent := expired.recent,
             lastAnchorMs := Some(anchorMs), lastMonotonicMs := Some(nowMs))
  }

  function TryApplyEvent(c: Config, r: Registry, e: BackendEvent, anchorMs: nat, policyNowMs: nat): (s: Step<()>)
  {
    var refused := CheckEvent(c, r, e, anchorMs, policyNowMs);
    if refused.Some? then Step(r, Failure(refused.value))
    else
      var nowMs := Latest(r.lastMonotonicMs, policyNowMs);
      Conclude(Dispatch(c, ExpireAt(r, nowMs), e, anchorMs), e, anchorMs, nowMs)
  }

  /** A successful dispatch is committed; a refused one is left for suspension. */
  function Conclude(applied: Step<()>, e: BackendEvent, anchorMs: nat, nowMs: nat): (s: Step<()>) {
    if applied.result.Failure? then applied else Step(Commit(applied.next, e, anchorMs, nowMs), applied.result)
  }

  function ApplyEventAt(c: Config, r: Registry, e: BackendEvent, anchorMs: nat, policyNowMs: nat): (s: Step<()>)
  {
    var tried := TryApplyEvent(c, r, e, anchorMs, policyNowMs);
    if tried.result.Failure? then Step(Suspend(tried.next), tried.result) else tried
  }

  function ApplyEvent(c: Config, r: Registry, e: BackendEvent, anchorMs: nat): (s: Step<()>)
  {
    ApplyEventAt(c, r, e, anchorMs, Latest(r.lastMonotonicMs, anchorMs))
  }

  // ---------------------------------------------------------------- queries and admissions

  /** Advances the clock and requires a live stream: the common gate of every query. */
  function Gate(r: Registry, nowMs: nat): (s: Step<()>) {
    var s := AdvanceClock(r, nowMs);
    if s.result.Success? && !s.next.synchronized then Step(s.next, Failure(NotSynchronized)) else s
  }

  datatype AdmissibleJobIds = AdmissibleJobIds(current: Option<JobId>, recent: seq<JobId>)

  function AdmissibleIds(r: Registry, nowMs: nat): (s: Step<AdmissibleJobIds>) {
    var g := Gate(r, nowMs);
    if g.result.Failure? then Step(g.next, Failure(g.result.error))
    else Step(g.next, Success(AdmissibleJobIds(g.next.current, g.next.recent)))
  }

  function CurrentGeneration(r: Registry, nowMs: nat): (s: Step<Option<JobDescriptor>>) {
    var s := AdvanceClock(r, nowMs);
    if s.result.Failure? then Step(s.next, Failure(s.result.error))
    else if s.next.current.Some? && s.next.current.value in s.next.entries && s.next.synchronized
            && s.next.entries[s.next.current.value].AcceptingAt(nowMs) then
      Step(s.next, Success(Some(s.next.entries[s.next.current.value].generation)))
    else Step(s.next, Success(None))
  }

  function BeginAdmission(r: Registry, id: JobId, nowMs: nat): (s: Step<JobDescriptor>) {
    var g := Gate(r, nowMs);
    if g.result.Failure? then Step(g.next, Failure(g.result.error)) else AdmitAt(g.next, id, nowMs)
  }

  /** The admission itself, on a synchronized registry already expired at `nowMs`. */
  function AdmitAt(r: Registry, id: JobId, nowMs: nat): (s: Step<JobDescriptor>) {
    if id !in r.entries then Step(r, Failure(UnknownJob(id)))
    else
      var e := r.entries[id];
      if !e.AcceptingAt(nowMs) then Step(r, Failure(StaleJob(id)))
      else if e.storage.inFlight >= U64_MAX then Step(r, Failure(AdmissionCounterExhausted(id)))
      else Step(r.(entries := r.entries[id := e.(storage := Live(e.storage.inFlight + 1))]), Success(e.generation))
  }

  /** Dropping one ordinary guard. */
  function Release(r: Registry, id: JobId): Registry {
    if id in r.entries && r.entries[id].storage.Live? && r.entries[id].storage.inFlight > 0 then
      r.(entries := r.entries[id := r.entries[id].(storage := Live(r.entries[id].storage.inFlight - 1))])
    else r
  }

  function WinnerRecoveryIds(r: Registry, nowMs: nat): (s: Step<seq<JobId>>) {
    var g := Gate(r, nowMs);
    if g.result.Failure? then Step(g.next, Failure(g.result.error))
    else
      var pruned := Prune(g.next, nowMs);
      Step(pruned, Success(pruned.winnerRecovery))
  }

  /** The cheap forwarding filter: the little-endian hash does not exceed the Zcash target. */
  predicate MeetsZcashTarget(c: Config, d: JobDescriptor, nonce: Hex32, solution: nat) {
    Compare(Reverse(c.digests.parentHash(d.header, nonce, solution)), Reverse(d.zcashTargetLe)) != Greater
  }

  function BeginZcashCandidate(c: Config, r: Registry, id: JobId, nonce: Hex32, solution: nat, nowMs: nat,
                               allowNoCurrent: bool): (s: Step<JobDescriptor>)
  {
    var g := Gate(r, nowMs);
    if g.result.Failure? then Step(g.next, Failure(g.result.error))
    else
      var p := Prune(g.next, nowMs);
      Step(p, GrantAt(c, p, id, nonce, solution, nowMs, allowNoCurrent))
  }

  /** The grant decision, on a synchronized registry already pruned at `nowMs`. */
  function GrantAt(c: Config, r: Registry, id: JobId, nonce: Hex32, solution: nat, nowMs: nat, allowNoCurrent: bool)
    : (d: Result<JobDescriptor, RegistryError>)
  {
    var parent := CurrentParent(r, nowMs);
    var candidate := if id in r.entries && id in r.winnerRecovery && Recoverable(r.entries[id], parent, nowMs)
                     then Some(r.entries[id].generation) else None;
    Decide(c, id, candidate, parent, nonce, solution, allowNoCurrent)
  }

  predicate Collectable(r: Registry, id: JobId)
    requires id in r.entries
  {
    CollectableAt(r.current, r.recent, id, r.entries[id].state, r.entries[id].storage == Live(0))
  }

  function Retirable(r: Registry): set<JobId> {
    set id | id in r.entries && Collectable(r, id)
  }

  function CollectRetired(r: Registry, nowMs: nat): (s: Step<set<JobId>>) {
    var s := AdvanceClock(r, nowMs);
    if s.result.Failure? then Step(s.next, Failure(s.result.error))
    else Step(Compact(s.next), Success(Retirable(s.next)))
  }

  /** Idle terminal entries keep their identity as tombstones. */
  function Compact(r: Registry): Registry {
    var retired := Retirable(r);
    r.(entries := map id | id in r.entries ::
         if id in retired then r.entries[id].(storage := Tombstone) else r.entries[id])
  }

  function InFlight(r: Registry, id: JobId): Option<nat> {
    if id !in r.entries then None
    else if r.entries[id].storage.Live? then Some(r.entries[id].storage.inFlight) else Some(0)
  }
}
