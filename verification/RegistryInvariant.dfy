/** The registry's five overlapping views stay consistent through every operation. */
module RegistryInvariant {
  import opened Common
  import opened Protocol
  import opened RegistryModel

  predicate HasRole(current: Option<JobId>, recent: seq<JobId>, id: JobId) {
    current == Some(id) || id in recent
  }

  ghost predicate WellFormedEntry(id: JobId, e: Entry) {
    && e.generation.jobId == id
    && (e.storage.Tombstone? ==> Terminal(e.state))
    && e.acceptUntilMs + ZCASH_WINNER_RECOVERY_TAIL_MS <= e.recoveryUntilMs
  }

  ghost predicate WellFormedEntries(entries: Entries) {
    forall id :: id in entries ==> WellFormedEntry(id, entries[id])
  }

  ghost predicate WellFormedRoles(c: Config, current: Option<JobId>, recent: seq<JobId>) {
    Distinct(recent) && |recent| <= c.maximumRecent && (current.Some? ==> current.value !in recent)
  }

  predicate IsAccepting(entries: Entries, id: JobId) {
    id in entries && entries[id].state == Accepting
  }

  predicate IsOpen(entries: Entries, id: JobId) {
    id in entries && !Terminal(entries[id].state)
  }

  /** Accepting identifiers are exactly the current and recent roles. */
  ghost predicate RolesAgree(c: Config, entries: Entries, current: Option<JobId>, recent: seq<JobId>) {
    && WellFormedRoles(c, current, recent)
    && forall id :: HasRole(current, recent, id) <==> IsAccepting(entries, id)
  }

  /** Accepting and suspended identifiers are exactly the watermark roles. */
  ghost predicate WatermarkAgrees(c: Config, entries: Entries, current: Option<JobId>, recent: seq<JobId>) {
    && WellFormedRoles(c, current, recent)
    && forall id :: HasRole(current, recent, id) <==> IsOpen(entries, id)
  }

  ghost predicate WellFormedRecovery(entries: Entries, list: seq<JobId>) {
    && Distinct(list) && |list| <= MAX_ZCASH_WINNER_RECOVERY_JOBS
    && forall id :: id in list ==> id in entries
  }

  ghost predicate StreamAgrees(r: Registry) {
    if r.synchronized then
      && r.lastEventSeq.Some? && r.lastAnchorMs.Some? && r.lastMonotonicMs.Some?
      && r.lastAnchorMs.value <= r.lastMonotonicMs.value
      && r.watermarkCurrent == r.current && r.watermarkRecent == r.recent
    else
      r.current == None && r.recent == [] && r.winnerRecovery == []
  }

  /** Consistency of everything but the watermark, which an event overwrites last. */
  ghost predicate RoleInv(c: Config, r: Registry) {
    && |r.entries| <= c.maximumGenerations
    && WellFormedEntries(r.entries)
    && RolesAgree(c, r.entries, r.current, r.recent)
    && WellFormedRecovery(r.entries, r.winnerRecovery)
  }

  ghost predicate Inv(c: Config, r: Registry) {
    && RoleInv(c, r)
    && WatermarkAgrees(c, r.entries, r.watermarkCurrent, r.watermarkRecent)
    && StreamAgrees(r)
  }

  lemma EmptyInv(c: Config)
    ensures Inv(c, Empty())
  {
  }

  // ---------------------------------------------------------------- expiry and suspension

  lemma ExpireKeepsRoles(c: Config, entries: Entries, current: Option<JobId>, recent: seq<JobId>, nowMs: nat)
    requires WellFormedEntries(entries) && RolesAgree(c, entries, current, recent)
    ensures var entries' := ExpireEntries(entries, nowMs);
            var keep := AcceptingIds(entries', nowMs);
            RolesAgree(c, entries', RetainOption(current, keep), Retain(recent, keep))
  {
    var entries' := ExpireEntries(entries, nowMs);
    var keep := AcceptingIds(entries', nowMs);
    forall id
      ensures HasRole(RetainOption(current, keep), Retain(recent, keep), id) <==> IsAccepting(entries', id)
    {
      assert HasRole(current, recent, id) <==> IsAccepting(entries, id);
    }
  }

  lemma ExpireKeepsWatermark(c: Config, entries: Entries, current: Option<JobId>, recent: seq<JobId>, nowMs: nat)
    requires WellFormedEntries(entries) && WatermarkAgrees(c, entries, current, recent)
    ensures var entries' := ExpireEntries(entries, nowMs);
            var keep := RetainedIds(entries', nowMs);
            WatermarkAgrees(c, entries', RetainOption(current, keep), Retain(recent, keep))
  {
    var entries' := ExpireEntries(entries, nowMs);
    var keep := RetainedIds(entries', nowMs);
    forall id
      ensures HasRole(RetainOption(current, keep), Retain(recent, keep), id) <==> IsOpen(entries', id)
    {
      assert HasRole(current, recent, id) <==> IsOpen(entries, id);
    }
  }

  lemma ExpireKeepsEntries(entries: Entries, nowMs: nat)
    requires WellFormedEntries(entries)
    ensures WellFormedEntries(ExpireEntries(entries, nowMs))
    ensures ExpireEntries(entries, nowMs).Keys == entries.Keys
    ensures |ExpireEntries(entries, nowMs)| == |entries|
  {
    assert ExpireEntries(entries, nowMs).Keys == entries.Keys;
  }

  lemma ExpireKeepsRoleInv(c: Config, r: Registry, nowMs: nat)
    requires RoleInv(c, r)
    ensures RoleInv(c, ExpireAt(r, nowMs))
  {
    ExpireKeepsEntries(r.entries, nowMs);
    ExpireKeepsRoles(c, r.entries, r.current, r.recent, nowMs);
  }

  /** A synchronized registry holds no suspended work. */
  lemma NothingSuspended(c: Config, r: Registry)
    requires Inv(c, r) && r.synchronized
    ensures forall id :: id in r.entries ==> r.entries[id].state != Suspended
  {
    forall id | id in r.entries
      ensures r.entries[id].state != Suspended
    {
      assert HasRole(r.current, r.recent, id) <==> IsAccepting(r.entries, id);
      assert HasRole(r.current, r.recent, id) <==> IsOpen(r.entries, id);
    }
  }

  lemma ExpireInv(c: Config, r: Registry, nowMs: nat)
    requires Inv(c, r)
    ensures Inv(c, ExpireAt(r, nowMs))
  {
    ExpireKeepsRoleInv(c, r, nowMs);
    ExpireKeepsWatermark(c, r.entries, r.watermarkCurrent, r.watermarkRecent, nowMs);
    if r.synchronized {
      NothingSuspended(c, r);
      var entries := ExpireEntries(r.entries, nowMs);
      assert AcceptingIds(entries, nowMs) == RetainedIds(entries, nowMs);
    }
  }

  /** Suspension repairs any half-applied roles, as long as entries still match the watermark. */
  lemma SuspendInv(c: Config, r: Registry)
    requires |r.entries| <= c.maximumGenerations && WellFormedEntries(r.entries)
    requires WatermarkAgrees(c, r.entries, r.watermarkCurrent, r.watermarkRecent)
    ensures Inv(c, Suspend(r))
  {
    var r' := Suspend(r);
    assert r'.entries.Keys == r.entries.Keys;
    forall id
      ensures HasRole(r.watermarkCurrent, r.watermarkRecent, id) <==> IsOpen(r'.entries, id)
    {
      assert HasRole(r.watermarkCurrent, r.watermarkRecent, id) <==> IsOpen(r.entries, id);
    }
  }

  lemma ClockInv(c: Config, r: Registry, nowMs: nat)
    requires Inv(c, r)
    ensures Inv(c, AdvanceClock(r, nowMs).next)
  {
    if Before(nowMs, r.lastMonotonicMs) {
      SuspendInv(c, r);
    } else {
      ExpireInv(c, r, nowMs);
    }
  }

  lemma PruneInv(c: Config, r: Registry, nowMs: nat)
    ensures RoleInv(c, r) ==> RoleInv(c, Prune(r, nowMs))
    ensures Inv(c, r) ==> Inv(c, Prune(r, nowMs))
  {
  }

  // ---------------------------------------------------------------- snapshots

  /** A re-observed job keeps its identity and counters; its deadline can only shrink. */
  ghost predicate Continues(before: Entry, after: Entry) {
    && !Terminal(before.state)
    && after == before.(acceptUntilMs := after.acceptUntilMs, state := Accepting)
    && after.acceptUntilMs <= before.acceptUntilMs
  }

  /** A job seen for the first time: fresh counter, and a recovery tail behind its first deadline. */
  ghost predicate Begins(after: Entry) {
    && ValidDescriptor(after.generation)
    && after.storage == Live(0)
    && after.recoveryUntilMs == after.acceptUntilMs + ZCASH_WINNER_RECOVERY_TAIL_MS
  }

  ghost predicate PreparedFrom(entries: Entries, id: JobId, e: Entry, anchorMs: nat) {
    && WellFormedEntry(id, e) && e.state == Accepting
    && (if id in entries then Continues(entries[id], e)
        else Begins(e) && e.acceptUntilMs <= anchorMs + e.generation.maxAgeMs)
  }

  lemma PreparedOne(entries: Entries, a: AcceptableJob, anchorMs: nat)
    requires WellFormedEntries(entries)
    ensures var r := PrepareAcceptable(entries, a, anchorMs);
            r.Success? ==> PreparedFrom(entries, a.job.jobId, r.value, anchorMs)
  {
  }

  ghost predicate AllPrepared(entries: Entries, p: Prepared, anchorMs: nat) {
    && Distinct(p.ids)
    && (forall id :: id in p.entries <==> id in p.ids)
    && (forall id :: id in p.entries ==> PreparedFrom(entries, id, p.entries[id], anchorMs))
  }

  lemma {:induction false} PreparedJobs(entries: Entries, jobs: seq<AcceptableJob>, anchorMs: nat)
    requires WellFormedEntries(entries)
    ensures var r := PrepareJobs(entries, jobs, anchorMs); r.Success? ==> AllPrepared(entries, r.value, anchorMs)
    decreases |jobs|
  {
    if |jobs| == 0 {
    } else {
      PreparedJobs(entries, jobs[..|jobs| - 1], anchorMs);
      PreparedOne(entries, jobs[|jobs| - 1], anchorMs);
    }
  }

  /** What a successfully prepared snapshot makes of every known and every new identifier. */
  ghost predicate MergedFrom(entries: Entries, merged: Entries, ids: seq<JobId>, anchorMs: nat) {
    && (forall id :: id in merged <==> id in entries || id in ids)
    && (forall id :: id in merged && id in ids ==> PreparedFrom(entries, id, merged[id], anchorMs))
    && (forall id :: id in merged && id !in ids ==> id in entries && merged[id] == DemoteEntry(entries[id]))
  }

  lemma MergedEntries(entries: Entries, p: Prepared, anchorMs: nat)
    requires AllPrepared(entries, p, anchorMs)
    ensures MergedFrom(entries, MergeSnapshot(entries, p.entries), p.ids, anchorMs)
  {
  }

  ghost predicate WellPrepared(c: Config, entries: Entries, p: PreparedSnapshot, anchorMs: nat) {
    && |p.entries| <= c.maximumGenerations
    && WellFormedRoles(c, p.current, p.recent)
    && MergedFrom(entries, p.entries, RoleList(p.current, p.recent), anchorMs)
  }

  function RoleList(current: Option<JobId>, recent: seq<JobId>): (ids: seq<JobId>)
    ensures forall id :: id in ids <==> HasRole(current, recent, id)
  {
    (if current.Some? then [current.value] else []) + recent
  }

  lemma SplitRoles(c: Config, current: Option<AcceptableJob>, recent: seq<AcceptableJob>, ids: seq<JobId>)
    requires Distinct(ids) && |ids| == |SnapshotJobs(current, recent)| && |recent| <= c.maximumRecent
    ensures var head := if current.Some? then Some(ids[0]) else None;
            var rest := if current.Some? then ids[1..] else ids;
            WellFormedRoles(c, head, rest) && RoleList(head, rest) == ids
  {
    if current.Some? {
      assert ids == [ids[0]] + ids[1..];
    }
  }

  lemma SnapshotPrepared(c: Config, r: Registry, eventSeq: nat, current: Option<AcceptableJob>,
                         recent: seq<AcceptableJob>, anchorMs: nat)
    requires WellFormedEntries(r.entries)
    ensures var p := PrepareSnapshot(c, r, eventSeq, current, recent, anchorMs);
            p.Success? ==> WellPrepared(c, r.entries, p.value, anchorMs)
  {
    var p := PrepareSnapshot(c, r, eventSeq, current, recent, anchorMs);
    if p.Success? {
      var jobs := PrepareJobs(r.entries, SnapshotJobs(current, recent), anchorMs).value;
      PreparedJobs(r.entries, SnapshotJobs(current, recent), anchorMs);
      JobsLength(r.entries, SnapshotJobs(current, recent), anchorMs);
      SplitRoles(c, current, recent, jobs.ids);
      MergedEntries(r.entries, jobs, anchorMs);
    }
  }

  lemma MergedRoles(c: Config, entries: Entries, p: PreparedSnapshot, anchorMs: nat)
    requires WellFormedEntries(entries) && WellPrepared(c, entries, p, anchorMs)
    ensures WellFormedEntries(p.entries)
    ensures RolesAgree(c, p.entries, p.current, p.recent)
    ensures WatermarkAgrees(c, p.entries, p.current, p.recent)
  {
    forall id
      ensures HasRole(p.current, p.recent, id) <==> IsAccepting(p.entries, id)
      ensures HasRole(p.current, p.recent, id) <==> IsOpen(p.entries, id)
      ensures id in p.entries ==> WellFormedEntry(id, p.entries[id])
    {
      assert id in RoleList(p.current, p.recent) <==> HasRole(p.current, p.recent, id);
    }
  }

  lemma InstallInv(c: Config, r: Registry, p: PreparedSnapshot, eventSeq: nat, startedMs: nat)
    requires WellFormedEntries(r.entries) && WellFormedRecovery(r.entries, r.winnerRecovery)
    requires WellPrepared(c, r.entries, p, startedMs)
    ensures Inv(c, InstallSnapshot(r, p, eventSeq, startedMs))
  {
    var nowMs := Latest(r.lastMonotonicMs, startedMs);
    var r1 := r.(entries := p.entries, current := p.current, recent := p.recent,
                 watermarkCurrent := p.current, watermarkRecent := p.recent,
                 lastEventSeq := Some(eventSeq), lastAnchorMs := Some(startedMs), lastMonotonicMs := Some(nowMs),
                 synchronized := true);
    MergedRoles(c, r.entries, p, startedMs);
    ExpireInv(c, r1, nowMs);
    var r2 := ExpireAt(r1, nowMs);
    RememberInv(c, r2);
    PruneInv(c, r2.(winnerRecovery := RememberAll(r2.winnerRecovery, Roles(r2))), nowMs);
  }

  lemma RememberInv(c: Config, r: Registry)
    requires Inv(c, r) && r.synchronized
    ensures Inv(c, r.(winnerRecovery := RememberAll(r.winnerRecovery, Roles(r))))
  {
    forall id | id in Roles(r)
      ensures id in r.entries
    {
      assert HasRole(r.current, r.recent, id);
    }
  }

  lemma SnapshotInv(c: Config, r: Registry, eventSeq: nat, current: Option<AcceptableJob>,
                    recent: seq<AcceptableJob>, startedMs: nat)
    requires Inv(c, r)
    ensures Inv(c, ApplySnapshot(c, r, eventSeq, current, recent, startedMs).next)
  {
    SnapshotPrepared(c, r, eventSeq, current, recent, startedMs);
    SuspendInv(c, r);
    var p := PrepareSnapshot(c, r, eventSeq, current, recent, startedMs);
    if p.Success? {
      InstallInv(c, r, p.value, eventSeq, startedMs);
    }
  }

  // ---------------------------------------------------------------- events

  /** A refused dispatch leaves entries, watermark and cursors as they were. */
  ghost predicate Untouched(r: Registry, r': Registry) {
    && r'.entries == r.entries
    && r'.watermarkCurrent == r.watermarkCurrent && r'.watermarkRecent == r.watermarkRecent
    && SameCursors(r, r')
  }

  ghost predicate SameCursors(r: Registry, r': Registry) {
    && r'.lastEventSeq == r.lastEventSeq && r'.lastAnchorMs == r.lastAnchorMs
    && r'.lastMonotonicMs == r.lastMonotonicMs && r'.synchronized == r.synchronized
  }

  ghost predicate Dispatched(c: Config, r: Registry, s: Step<()>) {
    if s.result.Success? then RoleInv(c, s.next) && SameCursors(r, s.next) else Untouched(r, s.next)
  }

  lemma PushedRoles(c: Config, entries: Entries, current: Option<JobId>, recent: seq<JobId>, id: JobId, e: Entry)
    requires RolesAgree(c, entries, current, recent) && id !in entries && e.state == Accepting
    requires current.Some? ==> |recent| < c.maximumRecent
    ensures RolesAgree(c, entries[id := e], Some(id), if current.Some? then [current.value] + recent else recent)
  {
    var recent' := if current.Some? then [current.value] + recent else recent;
    forall x
      ensures HasRole(Some(id), recent', x) <==> IsAccepting(entries[id := e], x)
    {
      assert HasRole(current, recent, x) <==> IsAccepting(entries, x);
    }
    assert !HasRole(current, recent, id);
  }

  lemma InsertInv(c: Config, r: Registry, job: JobDescriptor, untilMs: nat)
    requires RoleInv(c, r) && job.jobId !in r.entries && |r.entries| < c.maximumGenerations
    requires r.current.Some? ==> |r.recent| < c.maximumRecent
    ensures RoleInv(c, Insert(PushPrior(r, r.current), job, untilMs))
  {
    var e := Entry(job, Live(0), untilMs, untilMs + ZCASH_WINNER_RECOVERY_TAIL_MS, Accepting);
    PushedRoles(c, r.entries, r.current, r.recent, job.jobId, e);
    assert r.entries[job.jobId := e].Keys == r.entries.Keys + {job.jobId};
  }

  /** The three outcomes of an activation whose prior current job still accepts. */
  lemma ActivateShape(c: Config, r: Registry, job: JobDescriptor, anchorMs: nat)
    requires r.current.Some? ==> r.current.value in AcceptingIds(r.entries, anchorMs)
    ensures Activated(c, r, Activate(c, r, job, anchorMs), job, anchorMs)
  {
    assert RetainOption(r.current, AcceptingIds(r.entries, anchorMs)) == r.current;
  }

  ghost predicate Activated(c: Config, r: Registry, s: Step<()>, job: JobDescriptor, anchorMs: nat) {
    if s.result.Success? then
      && RefuseActivation(c, r, job, r.current, anchorMs) == None
      && s.next == Prune(Insert(PushPrior(r, r.current), job, anchorMs + job.maxAgeMs), anchorMs)
    else
      s.next == r || s.next == PushPrior(r, r.current)
  }

  lemma ActivateInv(c: Config, r: Registry, job: JobDescriptor, anchorMs: nat)
    requires RoleInv(c, r)
    requires r.current.Some? ==> r.current.value in AcceptingIds(r.entries, anchorMs)
    ensures Dispatched(c, r, Activate(c, r, job, anchorMs))
  {
    ActivateShape(c, r, job, anchorMs);
    ActivatedInv(c, r, Activate(c, r, job, anchorMs), job, anchorMs);
  }

  /** Each outcome of an activation, without the activation itself. */
  lemma ActivatedInv(c: Config, r: Registry, s: Step<()>, job: JobDescriptor, anchorMs: nat)
    requires RoleInv(c, r) && Activated(c, r, s, job, anchorMs)
    ensures Dispatched(c, r, s)
  {
    if s.result.Success? {
      var inserted := Insert(PushPrior(r, r.current), job, anchorMs + job.maxAgeMs);
      InsertInv(c, r, job, anchorMs + job.maxAgeMs);
      PruneInv(c, inserted, anchorMs);
    }
  }

  lemma UpdatedEntries(entries: Entries, id: JobId, e: Entry)
    requires WellFormedEntries(entries) && id in entries && WellFormedEntry(id, e)
    ensures WellFormedEntries(entries[id := e]) && entries[id := e].Keys == entries.Keys
    ensures |entries[id := e]| == |entries|
  {
    assert entries[id := e].Keys == entries.Keys;
  }

  lemma DroppedRoles(c: Config, entries: Entries, current: Option<JobId>, recent: seq<JobId>, id: JobId, e: Entry)
    requires RolesAgree(c, entries, current, recent) && id in entries && e.state != Accepting
    ensures RolesAgree(c, entries[id := e], if current == Some(id) then None else current, Without(recent, id))
  {
    var current' := if current == Some(id) then None else current;
    forall x
      ensures HasRole(current', Without(recent, id), x) <==> IsAccepting(entries[id := e], x)
    {
      assert HasRole(current, recent, x) <==> IsAccepting(entries, x);
    }
  }

  /** Making one known entry terminal and dropping its role keeps the views consistent. */
  lemma DropRoleInv(c: Config, r: Registry, id: JobId, e: Entry)
    requires RoleInv(c, r) && id in r.entries && e.state != Accepting && WellFormedEntry(id, e)
    ensures RoleInv(c, DropRole(r.(entries := r.entries[id := e]), id))
  {
    UpdatedEntries(r.entries, id, e);
    DroppedRoles(c, r.entries, r.current, r.recent, id, e);
  }

  lemma GraceRoles(c: Config, entries: Entries, current: Option<JobId>, recent: seq<JobId>, id: JobId, e: Entry)
    requires RolesAgree(c, entries, current, recent) && IsAccepting(entries, id) && e.state == Accepting
    requires id in recent || |recent| < c.maximumRecent
    ensures RolesAgree(c, entries[id := e], if current == Some(id) then None else current,
                       if id in recent then recent else [id] + recent)
  {
    var recent' := if id in recent then recent else [id] + recent;
    var current' := if current == Some(id) then None else current;
    forall x
      ensures HasRole(current', recent', x) <==> IsAccepting(entries[id := e], x)
    {
      assert HasRole(current, recent, x) <==> IsAccepting(entries, x);
    }
    assert HasRole(current, recent, id);
  }

  lemma SupersedeInv(c: Config, r: Registry, id: JobId, proposed: nat, anchorMs: nat)
    requires RoleInv(c, r) && IsAccepting(r.entries, id)
    requires id in r.recent || |r.recent| < c.maximumRecent
    ensures RoleInv(c, Supersede(r, id, proposed, anchorMs))
    ensures SameCursors(r, Supersede(r, id, proposed, anchorMs))
  {
    var until := MinOf(r.entries[id].acceptUntilMs, proposed);
    var e := r.entries[id].(acceptUntilMs := until, state := if until > anchorMs then Accepting else Invalidated);
    UpdatedEntries(r.entries, id, e);
    if until > anchorMs {
      GraceRoles(c, r.entries, r.current, r.recent, id, e);
      assert e.AcceptingAt(anchorMs);
    } else {
      DroppedRoles(c, r.entries, r.current, r.recent, id, e);
    }
  }

  lemma SupersedeForInv(c: Config, r: Registry, id: JobId, acceptForMs: nat, anchorMs: nat)
    requires RoleInv(c, r) && IsAccepting(r.entries, id)
    ensures Dispatched(c, r, SupersedeFor(c, r, id, acceptForMs, anchorMs))
  {
    if id in r.recent || |r.recent| < c.maximumRecent {
      SupersedeInv(c, r, id, anchorMs + acceptForMs, anchorMs);
    }
  }

  lemma InvalidateInv(c: Config, r: Registry, id: JobId, reason: InvalidationReason, acceptForMs: nat, anchorMs: nat)
    requires RoleInv(c, r)
    ensures Dispatched(c, r, Invalidate(c, r, id, reason, acceptForMs, anchorMs))
  {
    if id in r.entries {
      if r.entries[id].state != Accepting {
        DropRoleInv(c, r, id, r.entries[id]);
        assert r.entries[id := r.entries[id]] == r.entries;
      } else if reason == Superseded && acceptForMs != 0 {
        SupersedeForInv(c, r, id, acceptForMs, anchorMs);
      } else {
        DropRoleInv(c, r, id, r.entries[id].(state := Invalidated));
      }
    }
  }

  lemma CloseInv(c: Config, r: Registry, id: JobId)
    requires RoleInv(c, r)
    ensures RoleInv(c, Close(r, id)) && SameCursors(r, Close(r, id))
  {
    if id in r.entries {
      DropRoleInv(c, r.(winnerRecovery := Without(r.winnerRecovery, id)), id, r.entries[id].(state := Closed));
    }
  }

  lemma DispatchInv(c: Config, r: Registry, e: BackendEvent, anchorMs: nat)
    requires RoleInv(c, r)
    requires r.current.Some? ==> r.current.value in AcceptingIds(r.entries, anchorMs)
    ensures Dispatched(c, r, Dispatch(c, r, e, anchorMs))
  {
    match e
    case JobActivated(_, job) =>
      ActivateInv(c, r, job, anchorMs);
    case JobInvalidated(_, id, reason, acceptForMs) =>
      InvalidateInv(c, if reason == ZcashTipChanged then r.(winnerRecovery := Without(r.winnerRecovery, id)) else r,
                    id, reason, acceptForMs, anchorMs);
    case GenerationClosed(_, id) =>
      CloseInv(c, r, id);
    case ShareCommitted(_, _, _, _) =>
    case WinnerEvent(_, _, _, _, _) =>
  }

  ghost predicate NoSuspension(entries: Entries) {
    forall id :: id in entries ==> entries[id].state != Suspended
  }

  lemma DispatchSuspendsNothing(c: Config, r: Registry, e: BackendEvent, anchorMs: nat)
    requires NoSuspension(r.entries)
    ensures NoSuspension(Dispatch(c, r, e, anchorMs).next.entries)
  {
    match e
    case JobActivated(_, job) =>
    case JobInvalidated(_, id, reason, acceptForMs) =>
    case GenerationClosed(_, id) =>
    case ShareCommitted(_, _, _, _) =>
    case WinnerEvent(_, _, _, _, _) =>
  }

  /** With nothing suspended, roles and watermark describe the same identifiers. */
  lemma RolesAreWatermark(c: Config, entries: Entries, current: Option<JobId>, recent: seq<JobId>)
    requires RolesAgree(c, entries, current, recent) && NoSuspension(entries)
    ensures WatermarkAgrees(c, entries, current, recent)
  {
    forall id
      ensures IsAccepting(entries, id) <==> IsOpen(entries, id)
    {
    }
  }

  lemma CommitInv(c: Config, r: Registry, e: BackendEvent, anchorMs: nat, nowMs: nat)
    requires RoleInv(c, r) && r.synchronized && anchorMs <= nowMs && NoSuspension(r.entries)
    ensures Inv(c, Commit(r, e, anchorMs, nowMs))
  {
    ExpireKeepsRoleInv(c, r, nowMs);
    var x := ExpireAt(r, nowMs);
    assert NoSuspension(x.entries);
    RolesAreWatermark(c, x.entries, x.current, x.recent);
  }

  lemma ExpiredCurrentAccepts(r: Registry, anchorMs: nat, nowMs: nat)
    requires anchorMs <= nowMs
    ensures var x := ExpireAt(r, nowMs);
            x.current.Some? ==> x.current.value in AcceptingIds(x.entries, anchorMs)
  {
  }

  lemma EventInv(c: Config, r: Registry, e: BackendEvent, anchorMs: nat, policyNowMs: nat)
    requires Inv(c, r)
    ensures Inv(c, ApplyEventAt(c, r, e, anchorMs, policyNowMs).next)
  {
    if CheckEvent(c, r, e, anchorMs, policyNowMs).Some? {
      SuspendInv(c, r);
    } else {
      var nowMs := Latest(r.lastMonotonicMs, policyNowMs);
      var x := ExpireAt(r, nowMs);
      ExpireInv(c, r, nowMs);
      ExpiredCurrentAccepts(r, anchorMs, nowMs);
      DispatchInv(c, x, e, anchorMs);
      var applied := Dispatch(c, x, e, anchorMs);
      if applied.result.Failure? {
        SuspendInv(c, applied.next);
      } else {
        NothingSuspended(c, x);
        DispatchSuspendsNothing(c, x, e, anchorMs);
        CommitInv(c, applied.next, e, anchorMs, nowMs);
      }
    }
  }

  // ---------------------------------------------------------------- queries, guards, retirement

  /** Only the storage of entries differs. */
  ghost predicate SameButStorage(entries: Entries, entries': Entries) {
    && entries'.Keys == entries.Keys
    && forall id :: id in entries ==> entries'[id] == entries[id].(storage := entries'[id].storage)
  }

  lemma StorageInv(c: Config, r: Registry, entries: Entries)
    requires Inv(c, r) && SameButStorage(r.entries, entries)
    requires forall id :: id in entries && entries[id].storage.Tombstone? ==> Terminal(entries[id].state)
    ensures Inv(c, r.(entries := entries))
  {
    assert |entries| == |entries.Keys| == |r.entries|;
    forall id
      ensures IsAccepting(entries, id) <==> IsAccepting(r.entries, id)
      ensures IsOpen(entries, id) <==> IsOpen(r.entries, id)
    {
    }
  }

  lemma CountInv(c: Config, r: Registry, id: JobId, n: nat)
    requires Inv(c, r) && id in r.entries && r.entries[id].storage.Live?
    ensures Inv(c, r.(entries := r.entries[id := r.entries[id].(storage := Live(n))]))
  {
    var entries := r.entries[id := r.entries[id].(storage := Live(n))];
    assert entries.Keys == r.entries.Keys;
    StorageInv(c, r, entries);
  }

  lemma AdmissionInv(c: Config, r: Registry, id: JobId, nowMs: nat)
    requires Inv(c, r)
    ensures Inv(c, BeginAdmission(r, id, nowMs).next)
  {
    ClockInv(c, r, nowMs);
    var g := Gate(r, nowMs);
    if g.result.Success? && id in g.next.entries && g.next.entries[id].AcceptingAt(nowMs) {
      CountInv(c, g.next, id, g.next.entries[id].storage.inFlight + 1);
    }
  }

  lemma ReleaseInv(c: Config, r: Registry, id: JobId)
    requires Inv(c, r)
    ensures Inv(c, Release(r, id))
  {
    if id in r.entries && r.entries[id].storage.Live? && r.entries[id].storage.inFlight > 0 {
      CountInv(c, r, id, r.entries[id].storage.inFlight - 1);
    }
  }

  lemma CandidateInv(c: Config, r: Registry, id: JobId, nonce: Hex32, solution: nat, nowMs: nat, allowNoCurrent: bool)
    requires Inv(c, r)
    ensures Inv(c, BeginZcashCandidate(c, r, id, nonce, solution, nowMs, allowNoCurrent).next)
    ensures Inv(c, WinnerRecoveryIds(r, nowMs).next)
  {
    ClockInv(c, r, nowMs);
    PruneInv(c, Gate(r, nowMs).next, nowMs);
  }

  lemma CollectInv(c: Config, r: Registry, nowMs: nat)
    requires Inv(c, r)
    ensures Inv(c, CollectRetired(r, nowMs).next)
  {
    ClockInv(c, r, nowMs);
    var s := AdvanceClock(r, nowMs);
    if s.result.Success? {
      var entries := CollectRetired(r, nowMs).next.entries;
      assert entries.Keys == s.next.entries.Keys;
      StorageInv(c, s.next, entries);
    }
  }
}
