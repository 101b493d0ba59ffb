/**
 * Exactly when the registry accepts what it is told, what that makes of deadlines and of the
 * late-winner list, and what its queries answer.
 */
module RegistryOutcomes {
  import opened Common
  import opened Protocol
  import opened RegistryModel
  import opened RegistryInvariant
  import opened RegistryRuns
  import opened RegistryMeaning
  import H = RegistryHistory

  // ---------------------------------------------------------------- which snapshots are accepted

  /** A lifetime within the job's own, no overflow, and nothing that contradicts or revives what is known. */
  ghost predicate JobFits(entries: Entries, a: AcceptableJob, startedMs: nat) {
    var id := a.job.jobId;
    && ValidDescriptor(a.job) && 0 < a.acceptForMs <= a.job.maxAgeMs && startedMs + a.acceptForMs <= U64_MAX
    && (if id in entries then entries[id].generation == a.job && !Terminal(entries[id].state) && startedMs < entries[id].acceptUntilMs
        else startedMs + a.acceptForMs + ZCASH_WINNER_RECOVERY_TAIL_MS <= U64_MAX)
  }

  lemma JobFitsExactly(entries: Entries, a: AcceptableJob, startedMs: nat)
    requires WellFormedEntries(entries)
    ensures PrepareAcceptable(entries, a, startedMs).Success? <==> JobFits(entries, a, startedMs)
  {
    if a.job.jobId in entries {
      assert WellFormedEntry(a.job.jobId, entries[a.job.jobId]);
    }
  }

  ghost predicate JobsFit(entries: Entries, jobs: seq<AcceptableJob>, startedMs: nat) {
    && (forall i :: 0 <= i < |jobs| ==> JobFits(entries, jobs[i], startedMs))
    && (forall i, j :: 0 <= i < j < |jobs| ==> jobs[i].job.jobId != jobs[j].job.jobId)
  }

  lemma {:induction false} JobsFitExactly(entries: Entries, jobs: seq<AcceptableJob>, startedMs: nat)
    requires WellFormedEntries(entries)
    ensures PrepareJobs(entries, jobs, startedMs).Success? <==> JobsFit(entries, jobs, startedMs)
    decreases |jobs|
  {
    if |jobs| == 0 {
    } else {
      var front, last := jobs[..|jobs| - 1], jobs[|jobs| - 1];
      JobsFitExactly(entries, front, startedMs);
      JobFitsExactly(entries, last, startedMs);
      FrontFits(entries, jobs, startedMs);
      if PrepareJobs(entries, front, startedMs).Success? {
        PreparedListed(entries, front, startedMs, last.job.jobId);
      }
    }
  }

  lemma FrontFits(entries: Entries, jobs: seq<AcceptableJob>, startedMs: nat)
    requires |jobs| > 0
    ensures var front, last := jobs[..|jobs| - 1], jobs[|jobs| - 1];
            JobsFit(entries, jobs, startedMs) <==>
              && JobsFit(entries, front, startedMs) && JobFits(entries, last, startedMs)
              && forall i :: 0 <= i < |front| ==> front[i].job.jobId != last.job.jobId
  {
    var front := jobs[..|jobs| - 1];
    assert forall i :: 0 <= i < |front| ==> front[i] == jobs[i];
  }

  /** The identifiers of prepared jobs are those of the jobs. */
  lemma PreparedListed(entries: Entries, jobs: seq<AcceptableJob>, startedMs: nat, id: JobId)
    requires PrepareJobs(entries, jobs, startedMs).Success?
    ensures id in PrepareJobs(entries, jobs, startedMs).value.ids <==> exists i :: 0 <= i < |jobs| && jobs[i].job.jobId == id
  {
    var p := PrepareJobs(entries, jobs, startedMs).value;
    JobsLength(entries, jobs, startedMs);
    forall i | 0 <= i < |jobs| ensures p.ids[i] == jobs[i].job.jobId {
      PreparedEach(entries, jobs, startedMs, i);
    }
  }

  /**
   * What an accepted snapshot needs: neither clock nor journal gone back, at most the
   * configured number of recent jobs, jobs that fit and are distinct, at an unchanged journal
   * position exactly the roles last held there, and room in the table.
   */
  ghost predicate SnapshotFits(c: Config, r: Registry, eventSeq: nat, current: Option<AcceptableJob>, recent: seq<AcceptableJob>,
                               startedMs: nat)
  {
    var jobs := SnapshotJobs(current, recent);
    && !Before(startedMs, r.lastAnchorMs) && !Before(eventSeq, r.lastEventSeq) && |recent| <= c.maximumRecent
    && JobsFit(r.entries, jobs, startedMs)
    && (r.lastEventSeq == Some(eventSeq) ==>
          && r.watermarkCurrent == (if current.Some? then Some(current.value.job.jobId) else None)
          && r.watermarkRecent == H.JobIds(recent))
    && |r.entries.Keys + ListedIds(jobs)| <= c.maximumGenerations
  }

  function ListedIds(jobs: seq<AcceptableJob>): set<JobId> {
    set i | 0 <= i < |jobs| :: jobs[i].job.jobId
  }

  /** The roles a prepared snapshot assigns, and the size of the table it would leave. */
  lemma PreparedShape(entries: Entries, current: Option<AcceptableJob>, recent: seq<AcceptableJob>, startedMs: nat)
    requires WellFormedEntries(entries) && PrepareJobs(entries, SnapshotJobs(current, recent), startedMs).Success?
    ensures var p := PrepareJobs(entries, SnapshotJobs(current, recent), startedMs).value;
            && |p.ids| == |SnapshotJobs(current, recent)|
            && (current.Some? ==> p.ids[0] == current.value.job.jobId)
            && (if current.Some? then p.ids[1..] else p.ids) == H.JobIds(recent)
            && MergeSnapshot(entries, p.entries).Keys == entries.Keys + ListedIds(SnapshotJobs(current, recent))
  {
    var jobs := SnapshotJobs(current, recent);
    var p := PrepareJobs(entries, jobs, startedMs).value;
    JobsLength(entries, jobs, startedMs);
    H.PreparedIds(entries, jobs, startedMs);
    PreparedJobs(entries, jobs, startedMs);
    if current.Some? {
      H.JobIdsPrepend(current.value, recent);
    } else {
      assert jobs == recent;
    }
    forall id ensures id in p.entries.Keys <==> id in ListedIds(jobs) {
      PreparedListed(entries, jobs, startedMs, id);
    }
    assert p.entries.Keys == ListedIds(jobs);
  }

  lemma SnapshotAcceptedExactly(c: Config, r: Registry, eventSeq: nat, current: Option<AcceptableJob>, recent: seq<AcceptableJob>,
                                startedMs: nat)
    requires Inv(c, r)
    ensures ApplySnapshot(c, r, eventSeq, current, recent, startedMs).result.Success?
            <==> SnapshotFits(c, r, eventSeq, current, recent, startedMs)
  {
    hide PrepareJobs, JobsFit, MergeSnapshot, InstallSnapshot, Suspend;
    var jobs := SnapshotJobs(current, recent);
    JobsFitExactly(r.entries, jobs, startedMs);
    var p := PrepareJobs(r.entries, jobs, startedMs);
    if p.Success? {
      PreparedShape(r.entries, current, recent, startedMs);
      var merged := MergeSnapshot(r.entries, p.value.entries);
      assert |merged| == |merged.Keys|;
    }
  }

  // ---------------------------------------------------------------- which events are accepted

  /**
   * What an accepted event needs: a synchronized registry at the event's predecessor, clocks
   * that have not gone back, and, for work that enters or moves on the board as it stands at
   * the policy time, a new identifier, room and representable deadlines.
   */
  ghost predicate EventFits(c: Config, r: Registry, e: BackendEvent, anchorMs: nat, policyNowMs: nat) {
    && r.synchronized && ValidEvent(c.digests, e) && EventSeq(e) <= U64_MAX && r.lastEventSeq == Some(EventSeq(e) - 1)
    && !Before(anchorMs, r.lastAnchorMs) && !Before(policyNowMs, r.lastMonotonicMs) && anchorMs <= policyNowMs
    && (var b := BoardAt(BoardOf(r), policyNowMs);
        match e
        case JobActivated(_, job) =>
          && job.jobId !in r.entries && |r.entries| < c.maximumGenerations
          && (b.current.Some? ==> |b.recent| < c.maximumRecent)
          && anchorMs + job.maxAgeMs + ZCASH_WINNER_RECOVERY_TAIL_MS <= U64_MAX
        case JobInvalidated(_, id, reason, acceptForMs) =>
          reason == Superseded && Offers(b, id, anchorMs) ==>
            && anchorMs + acceptForMs <= U64_MAX
            && (b.current.Some? && b.current.value.id == id ==> |b.recent| < c.maximumRecent)
        case _ => true)
  }

  /** The checks before any change are the event-independent part. */
  lemma ChecksExactly(c: Config, r: Registry, e: BackendEvent, anchorMs: nat, policyNowMs: nat)
    requires Inv(c, r)
    ensures CheckEvent(c, r, e, anchorMs, policyNowMs).None? <==>
            && r.synchronized && ValidEvent(c.digests, e) && EventSeq(e) <= U64_MAX && r.lastEventSeq == Some(EventSeq(e) - 1)
            && !Before(anchorMs, r.lastAnchorMs) && !Before(policyNowMs, r.lastMonotonicMs) && anchorMs <= policyNowMs
  {
  }

  lemma ActivationExactly(c: Config, r: Registry, job: JobDescriptor, anchorMs: nat)
    requires RoleInv(c, r) && ValidDescriptor(job)
    requires r.current.Some? ==> r.current.value in AcceptingIds(r.entries, anchorMs)
    ensures Activate(c, r, job, anchorMs).result.Success? <==>
            && job.jobId !in r.entries && |r.entries| < c.maximumGenerations
            && (r.current.Some? ==> |r.recent| < c.maximumRecent)
            && anchorMs + job.maxAgeMs + ZCASH_WINNER_RECOVERY_TAIL_MS <= U64_MAX
  {
    assert RetainOption(r.current, AcceptingIds(r.entries, anchorMs)) == r.current;
  }

  lemma InvalidationExactly(c: Config, r: Registry, id: JobId, reason: InvalidationReason, acceptForMs: nat, anchorMs: nat)
    requires RoleInv(c, r) && ValidInvalidation(reason, acceptForMs)
    ensures Invalidate(c, r, id, reason, acceptForMs, anchorMs).result.Success? <==>
            (reason == Superseded && HasRole(r.current, r.recent, id) ==>
               && anchorMs + acceptForMs <= U64_MAX
               && (r.current == Some(id) ==> |r.recent| < c.maximumRecent))
  {
    assert HasRole(r.current, r.recent, id) <==> IsAccepting(r.entries, id);
  }

  lemma DispatchExactly(c: Config, r: Registry, e: BackendEvent, anchorMs: nat)
    requires RoleInv(c, r) && ValidEvent(c.digests, e)
    requires r.current.Some? ==> r.current.value in AcceptingIds(r.entries, anchorMs)
    ensures Dispatch(c, r, e, anchorMs).result.Success? <==>
            match e
            case JobActivated(_, job) =>
              && job.jobId !in r.entries && |r.entries| < c.maximumGenerations
              && (r.current.Some? ==> |r.recent| < c.maximumRecent)
              && anchorMs + job.maxAgeMs + ZCASH_WINNER_RECOVERY_TAIL_MS <= U64_MAX
            case JobInvalidated(_, id, reason, acceptForMs) =>
              reason == Superseded && HasRole(r.current, r.recent, id) ==>
                && anchorMs + acceptForMs <= U64_MAX
                && (r.current == Some(id) ==> |r.recent| < c.maximumRecent)
            case _ => true
  {
    match e
    case JobActivated(_, job) => ActivationExactly(c, r, job, anchorMs);
    case JobInvalidated(_, id, reason, acceptForMs) =>
      InvalidationExactly(c, if reason == ZcashTipChanged then r.(winnerRecovery := Without(r.winnerRecovery, id)) else r,
                          id, reason, acceptForMs, anchorMs);
    case _ =>
  }

  lemma EventAcceptedExactly(c: Config, r: Registry, e: BackendEvent, anchorMs: nat, policyNowMs: nat)
    requires Inv(c, r)
    ensures ApplyEventAt(c, r, e, anchorMs, policyNowMs).result.Success? <==> EventFits(c, r, e, anchorMs, policyNowMs)
  {
    hide CheckEvent, Dispatch, Commit, ExpireAt, Offers, Suspend, BoardOf, BoardAt;
    ChecksExactly(c, r, e, anchorMs, policyNowMs);
    if CheckEvent(c, r, e, anchorMs, policyNowMs).None? {
      var x := ExpireAt(r, policyNowMs);
      assert Latest(r.lastMonotonicMs, policyNowMs) == policyNowMs;
      ExpireInv(c, r, policyNowMs);
      ExpiredCurrentAccepts(r, anchorMs, policyNowMs);
      DispatchExactly(c, x, e, anchorMs);
      BoardBeforeEvent(c, r, anchorMs, policyNowMs);
      assert TryApplyEvent(c, r, e, anchorMs, policyNowMs) == Conclude(Dispatch(c, x, e, anchorMs), e, anchorMs, policyNowMs);
    }
  }

  /** The roles an event finds are the board at its policy time. */
  lemma BoardBeforeEvent(c: Config, r: Registry, anchorMs: nat, nowMs: nat)
    requires Inv(c, r) && anchorMs <= nowMs
    ensures var x, b := ExpireAt(r, nowMs), BoardAt(BoardOf(r), nowMs);
            && |x.entries| == |r.entries| && x.entries.Keys == r.entries.Keys
            && |x.recent| == |b.recent| && (x.current.Some? <==> b.current.Some?)
            && (b.current.Some? ==> x.current == Some(b.current.value.id))
            && forall id :: Offers(b, id, anchorMs) <==> HasRole(x.current, x.recent, id)
  {
    var x := ExpireAt(r, nowMs);
    ExpiryMeaning(c, r, nowMs);
    ExpireInv(c, r, nowMs);
    ExpireKeepsEntries(r.entries, nowMs);
    StillAccepting(r, anchorMs, nowMs);
    forall id ensures Offers(BoardOf(x), id, anchorMs) <==> HasRole(x.current, x.recent, id) {
      OfferedRoles(c, x, id, anchorMs);
      assert HasRole(x.current, x.recent, id) <==> IsAccepting(x.entries, id);
    }
  }

  // ---------------------------------------------------------------- what deliveries do to deadlines, for good

  /** The event ends `id` at once: a closure, or an invalidation that grants no grace. */
  predicate Ends(e: BackendEvent, id: JobId) {
    || (e.GenerationClosed? && e.jobId == id)
    || (e.JobInvalidated? && e.jobId == id && e.reason != Superseded)
  }

  lemma EndedIsTerminal(c: Config, r: Registry, e: BackendEvent, anchorMs: nat, policyNowMs: nat, id: JobId)
    requires Inv(c, r) && id in r.entries && Ends(e, id) && ApplyEventAt(c, r, e, anchorMs, policyNowMs).result.Success?
    ensures var entries := ApplyEventAt(c, r, e, anchorMs, policyNowMs).next.entries; id in entries && Terminal(entries[id].state)
  {
    var x := ExpireAt(r, policyNowMs);
    AppliedEvent(c, r, e, anchorMs, policyNowMs);
    ExpireInv(c, r, policyNowMs);
    NothingSuspended(c, x);
    DispatchEnds(c, x, e, anchorMs, id);
  }

  lemma DispatchEnds(c: Config, r: Registry, e: BackendEvent, anchorMs: nat, id: JobId)
    requires id in r.entries && r.entries[id].state != Suspended && Ends(e, id)
    ensures var entries := Dispatch(c, r, e, anchorMs).next.entries; id in entries && Terminal(entries[id].state)
  {
  }

  function PolicyOf(r: Registry, op: Op): nat {
    if op.TakeEvent? then op.policyNowMs else if op.TakeEventNow? then Latest(r.lastMonotonicMs, op.anchorMs) else 0
  }

  /** A known job invalidated without grace, or closed, is terminal from then on and refused after any continuation. */
  lemma EndedNeverAdmitted(c: Config, ops: seq<Op>, i: nat, e: BackendEvent, id: JobId, nowMs: nat)
    requires i < |ops|
    ensures Ends(e, id) && Applies(c, Run(c, ops[..i]), ops[i], e) && id in Run(c, ops[..i]).entries ==>
              && id in Run(c, ops).entries && Terminal(Run(c, ops).entries[id].state)
              && BeginAdmission(Run(c, ops), id, nowMs).result.Failure?
  {
    var r := Run(c, ops[..i]);
    if Ends(e, id) && Applies(c, r, ops[i], e) && id in r.entries {
      RunInv(c, ops[..i]);
      EndedIsTerminal(c, r, e, ops[i].anchorMs, PolicyOf(r, ops[i]), id);
      H.RunAppend(c, ops, i);
      TerminalNeverAdmitted(c, ops, i + 1, id, nowMs);
      RunEvolves(c, ops, i + 1);
    }
  }

  /**
   * Supersession, exactly: a job still accepting at the policy time keeps the earlier of its
   * deadline and the end of its grace, and goes on accepting exactly while that lies ahead;
   * a job already over is left as it was.
   */
  lemma SupersededExactly(c: Config, r: Registry, seqNo: nat, id: JobId, acceptForMs: u32, anchorMs: nat, policyNowMs: nat)
    requires Inv(c, r) && id in r.entries
    requires ApplyEventAt(c, r, JobInvalidated(seqNo, id, Superseded, acceptForMs), anchorMs, policyNowMs).result.Success?
    ensures var entries := ApplyEventAt(c, r, JobInvalidated(seqNo, id, Superseded, acceptForMs), anchorMs, policyNowMs).next.entries;
            && id in entries
            && (if r.entries[id].state == Accepting && policyNowMs < r.entries[id].acceptUntilMs then
                  && entries[id].acceptUntilMs == MinOf(r.entries[id].acceptUntilMs, anchorMs + acceptForMs)
                  && entries[id].state == (if policyNowMs < entries[id].acceptUntilMs then Accepting else Invalidated)
                else
                  Terminal(entries[id].state) && entries[id].acceptUntilMs == r.entries[id].acceptUntilMs)
  {
    var e := JobInvalidated(seqNo, id, Superseded, acceptForMs);
    AppliedEvent(c, r, e, anchorMs, policyNowMs);
    NothingSuspended(c, r);
    SupersedeEntry(c, ExpireAt(r, policyNowMs), id, acceptForMs, anchorMs);
  }

  lemma SupersedeEntry(c: Config, r: Registry, id: JobId, acceptForMs: nat, anchorMs: nat)
    requires id in r.entries && acceptForMs > 0 && Invalidate(c, r, id, Superseded, acceptForMs, anchorMs).result.Success?
    ensures var e, e' := r.entries[id], Invalidate(c, r, id, Superseded, acceptForMs, anchorMs).next.entries[id];
            if e.state != Accepting then e' == e
            else e' == e.(acceptUntilMs := MinOf(e.acceptUntilMs, anchorMs + acceptForMs),
                          state := if anchorMs < e.acceptUntilMs then Accepting else Invalidated)
  {
  }

  /** `ops[i]` is an accepted snapshot that lists `a`. */
  ghost predicate Lists(c: Config, ops: seq<Op>, i: nat, a: AcceptableJob)
    requires i < |ops|
  {
    && ops[i].TakeSnapshot? && a in SnapshotJobs(ops[i].current, ops[i].recent)
    && ApplySnapshot(c, Run(c, ops[..i]), ops[i].eventSeq, ops[i].current, ops[i].recent, ops[i].startedMs).result.Success?
  }

  lemma ListedEntry(c: Config, ops: seq<Op>, i: nat, a: AcceptableJob)
    requires i < |ops| && Lists(c, ops, i, a)
    ensures var entries := Run(c, ops[..i + 1]).entries;
            && a.job.jobId in entries && entries[a.job.jobId].generation == a.job
            && entries[a.job.jobId].acceptUntilMs == ListedOffer(Run(c, ops[..i]).entries, a, ops[i].startedMs).untilMs
  {
    var jobs := SnapshotJobs(ops[i].current, ops[i].recent);
    var k :| 0 <= k < |jobs| && jobs[k] == a;
    H.RunAppend(c, ops, i);
    ListedDeadlines(c, Run(c, ops[..i]), ops[i].eventSeq, ops[i].current, ops[i].recent, ops[i].startedMs, k);
  }

  /**
   * Every later admission of a job that an accepted snapshot listed is of the job it listed,
   * and strictly before the end of the lifetime it stated and of any it had before.
   */
  lemma ListedBoundsAdmission(c: Config, ops: seq<Op>, i: nat, a: AcceptableJob, nowMs: nat)
    requires i < |ops|
    ensures var admitted := BeginAdmission(Run(c, ops), a.job.jobId, nowMs).result;
            Lists(c, ops, i, a) && admitted.Success? ==>
              && admitted.value == a.job && nowMs < ops[i].startedMs + a.acceptForMs
              && nowMs < ListedOffer(Run(c, ops[..i]).entries, a, ops[i].startedMs).untilMs
  {
    if Lists(c, ops, i, a) && BeginAdmission(Run(c, ops), a.job.jobId, nowMs).result.Success? {
      ListedEntry(c, ops, i, a);
      RunEvolves(c, ops, i + 1);
      AdmissionRequires(Run(c, ops), a.job.jobId, nowMs);
    }
  }

  lemma {:induction false} DeadlineKept(c: Config, ops: seq<Op>, i: nat, id: JobId)
    requires i <= |ops| && id in Run(c, ops[..i]).entries && forall j :: i <= j < |ops| ==> !Delivers(ops[j])
    ensures id in Run(c, ops).entries && Run(c, ops).entries[id].acceptUntilMs == Run(c, ops[..i]).entries[id].acceptUntilMs
    decreases |ops|
  {
    if i == |ops| {
      assert ops[..i] == ops;
    } else {
      var front, last := ops[..|ops| - 1], ops[|ops| - 1];
      assert front[..i] == ops[..i];
      DeadlineKept(c, front, i, id);
      KeepsDeadline(c, Run(c, front), last, id);
    }
  }

  lemma KeepsDeadline(c: Config, r: Registry, op: Op, id: JobId)
    requires !Delivers(op) && id in r.entries
    ensures id in Next(c, r, op).entries && Next(c, r, op).entries[id].acceptUntilMs == r.entries[id].acceptUntilMs
  {
    match op
    case Admit(id', nowMs) =>
      ClockSettles(r, nowMs);
      H.AdmitTouchesStorage(AdvanceClock(r, nowMs).next, id', nowMs);
    case Drop(_) =>
    case _ => QuerySettles(c, r, op);
  }

  /**
   * Until the next delivery, a listed job that still holds a role is admitted exactly until
   * the earlier of the lifetime the snapshot stated and the deadline it had before.
   */
  lemma ListedAdmittedUntilThen(c: Config, ops: seq<Op>, i: nat, a: AcceptableJob, nowMs: nat)
    requires i < |ops| && forall j :: i < j < |ops| ==> !Delivers(ops[j])
    ensures var r := Run(c, ops);
            Lists(c, ops, i, a) && HasRole(r.current, r.recent, a.job.jobId) && !Before(nowMs, r.lastMonotonicMs) ==>
              && InFlight(r, a.job.jobId).Some?
              && (BeginAdmission(r, a.job.jobId, nowMs).result.Success? <==>
                  && nowMs < ListedOffer(Run(c, ops[..i]).entries, a, ops[i].startedMs).untilMs
                  && InFlight(r, a.job.jobId).value < U64_MAX)
  {
    var r := Run(c, ops);
    if Lists(c, ops, i, a) && HasRole(r.current, r.recent, a.job.jobId) && !Before(nowMs, r.lastMonotonicMs) {
      ListedEntry(c, ops, i, a);
      DeadlineKept(c, ops, i + 1, a.job.jobId);
      RunInv(c, ops);
      AdmissionExactlyForRoles(c, r, a.job.jobId, nowMs);
    }
  }

  // ---------------------------------------------------------------- the late-winner list

  /** The list with room made for one more, oldest first out. */
  function Kept(list: seq<JobId>): seq<JobId> {
    if |list| == MAX_ZCASH_WINNER_RECOVERY_JOBS then list[1..] else list
  }

  /** Not closed and within its tail, on the parent of the current job if there is one. */
  predicate Late(e: Entry, parent: Option<nat>, nowMs: nat) {
    e.state != Closed && nowMs < e.recoveryUntilMs && (parent.Some? ==> parent.value == e.generation.zcashPreviousHash)
  }

  /**
   * An activated job is on the late-winner list, and with it exactly those listed before that
   * share its Zcash parent, are not closed and are within their tail; a full list loses its oldest.
   */
  lemma ActivationLists(c: Config, r: Registry, seqNo: nat, job: JobDescriptor, anchorMs: nat, policyNowMs: nat)
    requires Inv(c, r) && ApplyEventAt(c, r, JobActivated(seqNo, job), anchorMs, policyNowMs).result.Success?
    ensures var list := ApplyEventAt(c, r, JobActivated(seqNo, job), anchorMs, policyNowMs).next.winnerRecovery;
            && job.jobId in list
            && forall id :: id != job.jobId ==>
                 (id in list <==> id in Kept(r.winnerRecovery) && id in r.entries
                                  && Late(r.entries[id], Some(job.zcashPreviousHash), anchorMs))
  {
    hide ApplyEventAt, Activate, Prune, Insert, RoleInv, Kept;
    var x := ExpireAt(r, policyNowMs);
    AppliedEvent(c, r, JobActivated(seqNo, job), anchorMs, policyNowMs);
    ExpireInv(c, r, policyNowMs);
    ExpiredCurrentAccepts(r, anchorMs, policyNowMs);
    ActivateShape(c, x, job, anchorMs);
    InsertedList(c, x, job, anchorMs);
  }

  lemma InsertedList(c: Config, r: Registry, job: JobDescriptor, anchorMs: nat)
    requires RoleInv(c, r) && job.jobId !in r.entries && ValidDescriptor(job)
    ensures var next := Prune(Insert(PushPrior(r, r.current), job, anchorMs + job.maxAgeMs), anchorMs);
            && job.jobId in next.winnerRecovery
            && forall id :: id != job.jobId ==>
                 (id in next.winnerRecovery <==> id in Kept(r.winnerRecovery) && id in r.entries
                                                 && Late(r.entries[id], Some(job.zcashPreviousHash), anchorMs))
  {
    var inserted := Insert(PushPrior(r, r.current), job, anchorMs + job.maxAgeMs);
    assert CurrentParent(inserted, anchorMs) == Some(job.zcashPreviousHash);
    assert job.jobId !in r.winnerRecovery;
  }

  /** Every other accepted event leaves the list alone, but for a job it closes or withdraws for a Zcash tip change. */
  lemma OtherEventsLists(c: Config, r: Registry, e: BackendEvent, anchorMs: nat, policyNowMs: nat, id: JobId)
    requires Inv(c, r) && !e.JobActivated? && ApplyEventAt(c, r, e, anchorMs, policyNowMs).result.Success?
    ensures id in ApplyEventAt(c, r, e, anchorMs, policyNowMs).next.winnerRecovery <==>
            id in r.winnerRecovery && !Withdraws(e, id)
  {
    AppliedEvent(c, r, e, anchorMs, policyNowMs);
    DispatchLists(c, ExpireAt(r, policyNowMs), e, anchorMs, id);
  }

  lemma DispatchLists(c: Config, r: Registry, e: BackendEvent, anchorMs: nat, id: JobId)
    requires WellFormedRecovery(r.entries, r.winnerRecovery) && !e.JobActivated?
    ensures id in Dispatch(c, r, e, anchorMs).next.winnerRecovery <==> id in r.winnerRecovery && !Withdraws(e, id)
  {
  }

  /** After an accepted snapshot the list holds what was listed or now has a role, as far as it fits and is late. */
  lemma SnapshotLists(c: Config, r: Registry, eventSeq: nat, current: Option<AcceptableJob>, recent: seq<AcceptableJob>,
                      startedMs: nat, id: JobId)
    requires Inv(c, r) && ApplySnapshot(c, r, eventSeq, current, recent, startedMs).result.Success?
    ensures var next, nowMs := ApplySnapshot(c, r, eventSeq, current, recent, startedMs).next, Latest(r.lastMonotonicMs, startedMs);
            id in next.winnerRecovery <==>
              id in RememberAll(r.winnerRecovery, Roles(next)) && id in next.entries && Late(next.entries[id], CurrentParent(next, nowMs), nowMs)
  {
  }

  /**
   * After an accepted snapshot every role on the parent of the current job, or every role when
   * there is none, is listed, provided old list and roles together fit.
   */
  lemma RolesAreListed(c: Config, r: Registry, eventSeq: nat, current: Option<AcceptableJob>, recent: seq<AcceptableJob>,
                       startedMs: nat, id: JobId)
    requires Inv(c, r) && ApplySnapshot(c, r, eventSeq, current, recent, startedMs).result.Success?
    ensures var next, nowMs := ApplySnapshot(c, r, eventSeq, current, recent, startedMs).next, Latest(r.lastMonotonicMs, startedMs);
            var parent := CurrentParent(next, nowMs);
            HasRole(next.current, next.recent, id) && |Members(r.winnerRecovery + Roles(next))| <= MAX_ZCASH_WINNER_RECOVERY_JOBS ==>
              && id in next.entries
              && (id in next.winnerRecovery <==> (parent.Some? ==> parent.value == next.entries[id].generation.zcashPreviousHash))
  {
    hide ApplySnapshot, RememberAll, CurrentParent, Latest;
    var next, nowMs := ApplySnapshot(c, r, eventSeq, current, recent, startedMs).next, Latest(r.lastMonotonicMs, startedMs);
    SnapshotInv(c, r, eventSeq, current, recent, startedMs);
    SnapshotLists(c, r, eventSeq, current, recent, startedMs, id);
    if HasRole(next.current, next.recent, id) && |Members(r.winnerRecovery + Roles(next))| <= MAX_ZCASH_WINNER_RECOVERY_JOBS {
      assert IsAccepting(next.entries, id) && WellFormedEntry(id, next.entries[id]);
      UnexpiredRole(c, r, eventSeq, current, recent, startedMs, id);
      assert id in Roles(next);
      RememberedExactly(r.winnerRecovery, Roles(next));
      assert id in Members(r.winnerRecovery + Roles(next));
      assert id in Members(RememberAll(r.winnerRecovery, Roles(next)));
    }
  }

  /** A role that survives a snapshot has not run out. */
  lemma UnexpiredRole(c: Config, r: Registry, eventSeq: nat, current: Option<AcceptableJob>, recent: seq<AcceptableJob>,
                      startedMs: nat, id: JobId)
    requires ApplySnapshot(c, r, eventSeq, current, recent, startedMs).result.Success?
    ensures var next, nowMs := ApplySnapshot(c, r, eventSeq, current, recent, startedMs).next, Latest(r.lastMonotonicMs, startedMs);
            HasRole(next.current, next.recent, id) ==> id in next.entries && nowMs < next.entries[id].acceptUntilMs
  {
  }

  function Members(ids: seq<JobId>): set<JobId> {
    set id | id in ids
  }

  lemma {:induction false} DistinctCount(ids: seq<JobId>)
    requires Distinct(ids)
    ensures |Members(ids)| == |ids|
  {
    if |ids| == 0 {
    } else {
      var front, last := ids[..|ids| - 1], ids[|ids| - 1];
      DistinctCount(front);
      assert last !in front;
      assert ids == front + [last];
      assert Members(ids) == Members(front) + {last};
    }
  }

  lemma SubsetCount(a: set<JobId>, b: set<JobId>)
    requires a <= b
    ensures |a| <= |b|
  {
    assert b == a + (b - a);
  }

  /** Remembering several jobs forgets none, old or new, exactly when all of them fit together. */
  lemma {:induction false} RememberedExactly(list: seq<JobId>, ids: seq<JobId>)
    requires Distinct(list) && |list| <= MAX_ZCASH_WINNER_RECOVERY_JOBS
    ensures Members(RememberAll(list, ids)) == Members(list + ids) <==> |Members(list + ids)| <= MAX_ZCASH_WINNER_RECOVERY_JOBS
    decreases |ids|
  {
    var all := RememberAll(list, ids);
    DistinctCount(all);
    if |ids| == 0 {
      assert list + ids == list;
    } else if |Members(list + ids)| <= MAX_ZCASH_WINNER_RECOVERY_JOBS {
      var front, last := ids[..|ids| - 1], ids[|ids| - 1];
      assert Members(list + ids) == Members(list + front) + {last};
      SubsetCount(Members(list + front), Members(list + ids));
      RememberedExactly(list, front);
      var before := RememberAll(list, front);
      DistinctCount(before);
      RememberedOne(before, last, Members(list + front));
    }
  }

  lemma RememberedOne(before: seq<JobId>, id: JobId, known: set<JobId>)
    requires Distinct(before) && Members(before) == known && |known| == |before|
    requires |known + {id}| <= MAX_ZCASH_WINNER_RECOVERY_JOBS
    ensures Members(Remember(before, id)) == known + {id}
  {
    if id !in before {
      assert |known + {id}| == |before| + 1;
    }
  }

  /** A full list can forget a role: its oldest member, when a later role is new to it. */
  lemma FullListForgetsRole(list: seq<JobId>, added: JobId)
    requires Distinct(list) && |list| == MAX_ZCASH_WINNER_RECOVERY_JOBS && added !in list
    ensures list[0] !in RememberAll(list, [list[0], added])
  {
    assert [list[0], added][..1] == [list[0]] && [list[0]][..0] == [];
    assert RememberAll(list, [list[0]]) == Remember(RememberAll(list, []), list[0]);
    assert RememberAll(list, [list[0], added]) == Remember(list, added);
  }

  // ---------------------------------------------------------------- what queries answer

  /** The board's identifiers, in order. */
  function Ids(offers: seq<Offer>): (ids: seq<JobId>)
    ensures |ids| == |offers| && forall i :: 0 <= i < |ids| ==> ids[i] == offers[i].id
  {
    seq(|offers|, i requires 0 <= i < |offers| => offers[i].id)
  }

  /** The two role queries answer with the board, exactly while it is synchronized and time has not gone back. */
  lemma RoleQueries(c: Config, r: Registry, nowMs: nat)
    requires Inv(c, r)
    ensures var b := BoardAt(BoardOf(r), nowMs);
            && AdmissibleIds(r, nowMs).result
               == (if Before(nowMs, r.lastMonotonicMs) then Failure(ClockMovedBackwards)
                   else if !r.synchronized then Failure(NotSynchronized)
                   else Success(AdmissibleJobIds(if b.current.Some? then Some(b.current.value.id) else None, Ids(b.recent))))
            && CurrentGeneration(r, nowMs).result
               == (if Before(nowMs, r.lastMonotonicMs) then Failure(ClockMovedBackwards)
                   else if b.current.None? then Success(None)
                   else
                     assert b.current.value.id in r.entries by { BoardIsKnown(c, r, nowMs); }
                     Success(Some(r.entries[b.current.value.id].generation)))
  {
    BoardIsKnown(c, r, nowMs);
    ExpiryMeaning(c, r, nowMs);
    ExpireInv(c, r, nowMs);
    var x := ExpireAt(r, nowMs);
    assert Ids(BoardOf(x).recent) == x.recent;
  }

  lemma BoardIsKnown(c: Config, r: Registry, nowMs: nat)
    requires Inv(c, r)
    ensures var b := BoardAt(BoardOf(r), nowMs); b.current.Some? ==> b.current.value.id in r.entries && r.synchronized
  {
    if r.current.Some? {
      assert HasRole(r.current, r.recent, r.current.value) && IsAccepting(r.entries, r.current.value);
    }
  }

  /** Why an ordinary admission is refused: time, synchronization, an unknown job, one no longer on offer, or a full counter. */
  lemma AdmissionRefusals(c: Config, r: Registry, id: JobId, nowMs: nat)
    requires Inv(c, r)
    ensures var s := BeginAdmission(r, id, nowMs).result;
            s.Failure? ==>
              s.error == if Before(nowMs, r.lastMonotonicMs) then ClockMovedBackwards
                         else if !r.synchronized then NotSynchronized
                         else if id !in r.entries then UnknownJob(id)
                         else if !Offers(BoardOf(r), id, nowMs) then StaleJob(id)
                         else AdmissionCounterExhausted(id)
  {
    OfferedRoles(c, r, id, nowMs);
    assert HasRole(r.current, r.recent, id) <==> IsAccepting(r.entries, id);
    if id in r.entries {
      assert WellFormedEntry(id, r.entries[id]);
    }
  }

  /** A collection reports exactly the jobs that are over, still hold their resources and are held by no guard. */
  lemma CollectedExactly(c: Config, r: Registry, nowMs: nat, id: JobId)
    requires Inv(c, r)
    ensures var s := CollectRetired(r, nowMs).result;
            && (s.Failure? <==> Before(nowMs, r.lastMonotonicMs))
            && (s.Success? ==>
                  (id in s.value <==>
                   id in r.entries && r.entries[id].storage == Live(0) && (Terminal(r.entries[id].state) || r.entries[id].acceptUntilMs <= nowMs)))
  {
    if !Before(nowMs, r.lastMonotonicMs) {
      var x := ExpireAt(r, nowMs);
      ExpireInv(c, r, nowMs);
      assert HasRole(x.current, x.recent, id) <==> IsAccepting(x.entries, id);
    }
  }

  /** The late-winner query and every candidate attempt leave exactly what is still late, and the query answers with it. */
  lemma LateQueries(c: Config, r: Registry, id: JobId, nowMs: nat, x: JobId, nonce: Hex32, solution: nat, allow: bool)
    requires Inv(c, r) && !Before(nowMs, r.lastMonotonicMs) && r.synchronized
    ensures var late := id in r.winnerRecovery && Late(r.entries[id], CurrentParent(r, nowMs), nowMs);
            && WinnerRecoveryIds(r, nowMs).result.Success?
            && (id in WinnerRecoveryIds(r, nowMs).result.value <==> late)
            && (id in WinnerRecoveryIds(r, nowMs).next.winnerRecovery <==> late)
            && (id in BeginZcashCandidate(c, r, x, nonce, solution, nowMs, allow).next.winnerRecovery <==> late)
  {
    CurrentSurvives(c, r, nowMs);
  }

  // ---------------------------------------------------------------- the clock

  function ClockAfterQuery(last: Option<nat>, nowMs: nat): Option<nat> {
    if Before(nowMs, last) then last else Some(nowMs)
  }

  /** The latest time observed after an operation: its own, unless it was refused. */
  function ClockNext(c: Config, r: Registry, op: Op): Option<nat> {
    var last := r.lastMonotonicMs;
    match op
    case TakeSnapshot(eventSeq, current, recent, startedMs) =>
      if ApplySnapshot(c, r, eventSeq, current, recent, startedMs).result.Success? then Some(Latest(last, startedMs)) else last
    case TakeEvent(event, anchorMs, policyNowMs) =>
      if ApplyEventAt(c, r, event, anchorMs, policyNowMs).result.Success? then Some(policyNowMs) else last
    case TakeEventNow(event, anchorMs) =>
      if ApplyEvent(c, r, event, anchorMs).result.Success? then Some(Latest(last, anchorMs)) else last
    case SuspendAll => last
    case Drop(_) => last
    case QueryRoles(nowMs) => ClockAfterQuery(last, nowMs)
    case QueryCurrent(nowMs) => ClockAfterQuery(last, nowMs)
    case QueryRecovery(nowMs) => ClockAfterQuery(last, nowMs)
    case Admit(_, nowMs) => ClockAfterQuery(last, nowMs)
    case Recover(_, _, _, nowMs, _) => ClockAfterQuery(last, nowMs)
    case Collect(nowMs) => ClockAfterQuery(last, nowMs)
  }

  lemma EventClock(c: Config, r: Registry, e: BackendEvent, anchorMs: nat, policyNowMs: nat)
    ensures var s := ApplyEventAt(c, r, e, anchorMs, policyNowMs);
            s.next.lastMonotonicMs == if s.result.Success? then Some(policyNowMs) else r.lastMonotonicMs
  {
    if CheckEvent(c, r, e, anchorMs, policyNowMs).None? {
      var x := ExpireAt(r, Latest(r.lastMonotonicMs, policyNowMs));
      DispatchClock(c, x, e, anchorMs);
    }
  }

  lemma DispatchClock(c: Config, r: Registry, e: BackendEvent, anchorMs: nat)
    ensures Dispatch(c, r, e, anchorMs).next.lastMonotonicMs == r.lastMonotonicMs
  {
  }

  lemma NextClock(c: Config, r: Registry, op: Op)
    ensures Next(c, r, op).lastMonotonicMs == ClockNext(c, r, op)
  {
    hide ApplyEventAt, ExpireAt, Prune, Compact;
    match op
    case TakeEvent(event, anchorMs, policyNowMs) => EventClock(c, r, event, anchorMs, policyNowMs);
    case TakeEventNow(event, anchorMs) => EventClock(c, r, event, anchorMs, Latest(r.lastMonotonicMs, anchorMs));
    case TakeSnapshot(eventSeq, current, recent, startedMs) => SnapshotClock(c, r, eventSeq, current, recent, startedMs);
    case _ => QueryClock(c, r, op);
  }

  lemma SnapshotClock(c: Config, r: Registry, eventSeq: nat, current: Option<AcceptableJob>, recent: seq<AcceptableJob>, startedMs: nat)
    ensures var s := ApplySnapshot(c, r, eventSeq, current, recent, startedMs);
            s.next.lastMonotonicMs == if s.result.Success? then Some(Latest(r.lastMonotonicMs, startedMs)) else r.lastMonotonicMs
  {
  }

  lemma QueryClock(c: Config, r: Registry, op: Op)
    requires !Delivers(op)
    ensures Next(c, r, op).lastMonotonicMs == ClockNext(c, r, op)
  {
  }

  lemma {:induction false} RunClock(c: Config, ops: seq<Op>, i: nat, nowMs: nat)
    requires i <= |ops| && Before(nowMs, Run(c, ops[..i]).lastMonotonicMs)
    ensures Before(nowMs, Run(c, ops).lastMonotonicMs)
    decreases |ops|
  {
    if i == |ops| {
      assert ops[..i] == ops;
    } else {
      var front, last := ops[..|ops| - 1], ops[|ops| - 1];
      assert front[..i] == ops[..i];
      RunClock(c, front, i, nowMs);
      NextClock(c, Run(c, front), last);
      ClockRises(c, Run(c, front), last);
    }
  }

  lemma ClockRises(c: Config, r: Registry, op: Op)
    ensures r.lastMonotonicMs.Some? ==> ClockNext(c, r, op).Some? && r.lastMonotonicMs.value <= ClockNext(c, r, op).value
  {
  }

  /** A time earlier than any the registry has already answered at is refused after any continuation, and suspends it. */
  lemma TimeNeverGoesBack(c: Config, ops: seq<Op>, i: nat, id: JobId, nowMs: nat)
    requires i <= |ops|
    ensures Before(nowMs, Run(c, ops[..i]).lastMonotonicMs) ==>
              var s := BeginAdmission(Run(c, ops), id, nowMs);
              s.result == Failure(ClockMovedBackwards) && !s.next.synchronized
  {
    if Before(nowMs, Run(c, ops[..i]).lastMonotonicMs) {
      RunClock(c, ops, i, nowMs);
    }
  }
}
