/** Guard conservation and the snapshot watermark, over whole registry runs. */
module RegistryHistory {
  import opened Common
  import opened Protocol
  import opened RegistryModel
  import opened RegistryInvariant
  import opened RegistryRuns

  // ---------------------------------------------------------------- ordinary guards

  /** Ordinary guards created and not yet dropped, as the callers see them. */
  ghost function Outstanding(c: Config, ops: seq<Op>): multiset<JobId> {
    if |ops| == 0 then multiset{}
    else
      var before := Outstanding(c, ops[..|ops| - 1]);
      match ops[|ops| - 1]
      case Admit(id, nowMs) =>
        if BeginAdmission(Run(c, ops[..|ops| - 1]), id, nowMs).result.Success? then before + multiset{id} else before
      case Drop(id) => before - multiset{id}
      case _ => before
  }

  /** Guards are affine: only an outstanding guard can be dropped. */
  ghost predicate Legal(c: Config, ops: seq<Op>) {
    |ops| == 0 ||
    (Legal(c, ops[..|ops| - 1]) && (ops[|ops| - 1].Drop? ==> ops[|ops| - 1].id in Outstanding(c, ops[..|ops| - 1])))
  }

  ghost predicate Balanced(entries: Entries, guards: multiset<JobId>) {
    && (forall id :: id in guards ==> id in entries)
    && (forall id :: id in entries ==> Count(entries[id].storage) == guards[id])
  }

  lemma SettledBalance(entries: Entries, entries': Entries, guards: multiset<JobId>)
    requires Balanced(entries, guards) && Settles(entries, entries')
    ensures Balanced(entries', guards)
  {
  }

  lemma GrownBalance(entries: Entries, entries': Entries, guards: multiset<JobId>, anchorMs: nat)
    requires Balanced(entries, guards) && Grows(entries, entries', anchorMs)
    ensures Balanced(entries', guards)
  {
  }

  lemma AdmitBalance(c: Config, r: Registry, id: JobId, nowMs: nat, guards: multiset<JobId>)
    requires Balanced(r.entries, guards)
    ensures var s := BeginAdmission(r, id, nowMs);
            Balanced(s.next.entries, if s.result.Success? then guards + multiset{id} else guards)
  {
    ClockSettles(r, nowMs);
    SettledBalance(r.entries, AdvanceClock(r, nowMs).next.entries, guards);
  }

  lemma DropBalance(r: Registry, id: JobId, guards: multiset<JobId>)
    requires Balanced(r.entries, guards) && id in guards
    ensures Balanced(Release(r, id).entries, guards - multiset{id})
  {
    assert r.entries[id].storage.Live? && r.entries[id].storage.inFlight > 0;
  }

  /** Over every run, an identifier's in-flight counter is exactly guards created minus guards dropped. */
  lemma {:induction false} GuardConservation(c: Config, ops: seq<Op>)
    requires Legal(c, ops)
    ensures Balanced(Run(c, ops).entries, Outstanding(c, ops))
    decreases |ops|
  {
    if |ops| == 0 {
    } else {
      var front, last := ops[..|ops| - 1], ops[|ops| - 1];
      GuardConservation(c, front);
      RunInv(c, front);
      var r, guards := Run(c, front), Outstanding(c, front);
      if last.Admit? {
        AdmitBalance(c, r, last.id, last.nowMs, guards);
      } else if last.Drop? {
        DropBalance(r, last.id, guards);
      } else if Delivers(last) {
        DeliveryGrows(c, r, last);
        GrownBalance(r.entries, Next(c, r, last).entries, guards, AnchorOf(last));
      } else {
        QuerySettles(c, r, last);
        SettledBalance(r.entries, Next(c, r, last).entries, guards);
      }
    }
  }

  /** An outstanding guard keeps its generation live: it is never compacted to a tombstone. */
  lemma GuardedNeverRetired(c: Config, ops: seq<Op>, id: JobId)
    requires Legal(c, ops) && id in Outstanding(c, ops)
    ensures id in Run(c, ops).entries && Run(c, ops).entries[id].storage.Live?
    ensures InFlight(Run(c, ops), id) == Some(Outstanding(c, ops)[id])
  {
    GuardConservation(c, ops);
  }

  /** A collection at `nowMs` reports `id`. */
  predicate Retires(r: Registry, id: JobId, nowMs: nat) {
    var s := CollectRetired(r, nowMs);
    s.result.Success? && id in s.result.value
  }

  lemma RetirementCompacts(r: Registry, id: JobId, nowMs: nat)
    ensures Retires(r, id, nowMs) ==>
              && id in r.entries && r.entries[id].storage == Live(0)
              && CollectRetired(r, nowMs).next.entries[id].storage.Tombstone?
  {
  }

  lemma RetiredStaysRetired(r: Registry, t: Registry, id: JobId, thenMs: nat, nowMs: nat)
    requires Retires(r, id, thenMs) && Evolves(CollectRetired(r, thenMs).next.entries, t.entries)
    ensures !Retires(t, id, nowMs)
  {
    RetirementCompacts(r, id, thenMs);
    RetirementCompacts(t, id, nowMs);
  }

  /** Each retirement is reported by one collection only. */
  lemma RetiredOnce(c: Config, ops: seq<Op>, i: nat, id: JobId, nowMs: nat)
    requires i < |ops| && ops[i].Collect? && Retires(Run(c, ops[..i]), id, ops[i].nowMs)
    ensures !Retires(Run(c, ops), id, nowMs)
  {
    RunAppend(c, ops, i);
    RunEvolves(c, ops, i + 1);
    RetiredByStep(c, Run(c, ops[..i]), ops[i], Run(c, ops[..i + 1]), Run(c, ops), id, nowMs);
  }

  lemma RetiredByStep(c: Config, r: Registry, op: Op, r': Registry, t: Registry, id: JobId, nowMs: nat)
    requires op.Collect? && Retires(r, id, op.nowMs) && r' == Next(c, r, op) && Evolves(r'.entries, t.entries)
    ensures !Retires(t, id, nowMs)
  {
    RetiredStaysRetired(r, t, id, op.nowMs, nowMs);
  }

  lemma RunAppend(c: Config, ops: seq<Op>, i: nat)
    requires i < |ops|
    ensures Run(c, ops[..i + 1]) == Next(c, Run(c, ops[..i]), ops[i])
  {
    assert ops[..i + 1][..i] == ops[..i];
  }

  // ---------------------------------------------------------------- the snapshot watermark

  function RunFrom(c: Config, r: Registry, ops: seq<Op>): Registry {
    if |ops| == 0 then r else Next(c, RunFrom(c, r, ops[..|ops| - 1]), ops[|ops| - 1])
  }

  /** `op` moved the journal position: a snapshot or event was accepted. */
  predicate Delivered(c: Config, r: Registry, op: Op) {
    match op
    case TakeSnapshot(eventSeq, current, recent, startedMs) =>
      ApplySnapshot(c, r, eventSeq, current, recent, startedMs).result.Success?
    case TakeEvent(event, anchorMs, policyNowMs) => ApplyEventAt(c, r, event, anchorMs, policyNowMs).result.Success?
    case TakeEventNow(event, anchorMs) => ApplyEvent(c, r, event, anchorMs).result.Success?
    case _ => false
  }

  ghost predicate Stalled(c: Config, r: Registry, ops: seq<Op>) {
    |ops| == 0 || (Stalled(c, r, ops[..|ops| - 1]) && !Delivered(c, RunFrom(c, r, ops[..|ops| - 1]), ops[|ops| - 1]))
  }

  /** The time at which a non-delivering operation expires work, if it gets that far. */
  function ExpiryTime(c: Config, r: Registry, op: Op): Option<nat> {
    match op
    case TakeSnapshot(_, _, _, _) => None
    case TakeEvent(event, anchorMs, policyNowMs) =>
      if CheckEvent(c, r, event, anchorMs, policyNowMs).Some? then None else Some(Latest(r.lastMonotonicMs, policyNowMs))
    case TakeEventNow(event, anchorMs) =>
      var now := Latest(r.lastMonotonicMs, anchorMs);
      if CheckEvent(c, r, event, anchorMs, now).Some? then None else Some(Latest(r.lastMonotonicMs, now))
    case SuspendAll => None
    case Drop(_) => None
    case QueryRoles(nowMs) => QueryTime(r, nowMs)
    case QueryCurrent(nowMs) => QueryTime(r, nowMs)
    case QueryRecovery(nowMs) => QueryTime(r, nowMs)
    case Admit(_, nowMs) => QueryTime(r, nowMs)
    case Recover(_, _, _, nowMs, _) => QueryTime(r, nowMs)
    case Collect(nowMs) => QueryTime(r, nowMs)
  }

  function QueryTime(r: Registry, nowMs: nat): Option<nat> {
    if Before(nowMs, r.lastMonotonicMs) then None else Some(nowMs)
  }

  function Later(a: Option<nat>, b: Option<nat>): Option<nat> {
    if a.None? then b else if b.None? then a else Some(MaxOf(a.value, b.value))
  }

  /** The latest time any operation of the stall expired work at. */
  function StallClock(c: Config, r: Registry, ops: seq<Op>): Option<nat> {
    if |ops| == 0 then None
    else Later(StallClock(c, r, ops[..|ops| - 1]), ExpiryTime(c, RunFrom(c, r, ops[..|ops| - 1]), ops[|ops| - 1]))
  }

  /** Identifiers whose deadline lies beyond `clock`. */
  function Unexpired(entries: Entries, clock: Option<nat>): set<JobId> {
    set id | id in entries && (clock.None? || clock.value < entries[id].acceptUntilMs)
  }

  /** A watermark filtered by the clock. */
  ghost predicate WatermarkLess(r: Registry, current: Option<JobId>, recent: seq<JobId>, keep: set<JobId>) {
    r.watermarkCurrent == RetainOption(current, keep) && r.watermarkRecent == Retain(recent, keep)
  }

  lemma {:induction false} RetainCongruent(s: seq<JobId>, k1: set<JobId>, k2: set<JobId>)
    requires forall id :: id in s ==> (id in k1 <==> id in k2)
    ensures Retain(s, k1) == Retain(s, k2)
    decreases |s|
  {
    if |s| == 0 {
    } else {
      RetainCongruent(s[..|s| - 1], k1, k2);
    }
  }

  lemma {:induction false} RetainTwice(s: seq<JobId>, k1: set<JobId>, k2: set<JobId>)
    ensures Retain(Retain(s, k1), k2) == Retain(s, k1 * k2)
    decreases |s|
  {
    if |s| == 0 {
    } else {
      var front, last := s[..|s| - 1], s[|s| - 1];
      RetainTwice(front, k1, k2);
      var once := Retain(front, k1);
      if last in k1 {
        assert (once + [last])[..|once + [last]| - 1] == once;
      }
    }
  }

  lemma RetainSnoc(ids: seq<JobId>, id: JobId, keep: set<JobId>)
    ensures Retain(ids + [id], keep) == Retain(ids, keep) + (if id in keep then [id] else [])
  {
    assert (ids + [id])[..|ids|] == ids;
  }

  lemma {:induction false} RetainAll(s: seq<JobId>, keep: set<JobId>)
    requires forall i :: 0 <= i < |s| ==> s[i] in keep
    ensures Retain(s, keep) == s
    decreases |s|
  {
    if |s| == 0 {
    } else {
      var front, last := s[..|s| - 1], s[|s| - 1];
      RetainAll(front, keep);
      RetainedSnoc(front, last, keep);
      assert s == front + [last];
    }
  }

  lemma RetainedSnoc(front: seq<JobId>, last: JobId, keep: set<JobId>)
    requires Retain(front, keep) == front && last in keep
    ensures Retain(front + [last], keep) == front + [last]
  {
    RetainSnoc(front, last, keep);
  }

  ghost predicate SameDeadlines(entries: Entries, entries': Entries) {
    entries'.Keys == entries.Keys && forall id :: id in entries ==> entries'[id].acceptUntilMs == entries[id].acceptUntilMs
  }

  /** On a consistent watermark, expiry keeps exactly the unexpired identifiers. */
  lemma ExpireWatermark(c: Config, r: Registry, nowMs: nat)
    requires Inv(c, r)
    ensures WatermarkLess(ExpireAt(r, nowMs), r.watermarkCurrent, r.watermarkRecent, Unexpired(r.entries, Some(nowMs)))
    ensures SameDeadlines(r.entries, ExpireAt(r, nowMs).entries)
  {
    ExpireSettles(r.entries, nowMs);
    var kept := RetainedIds(ExpireEntries(r.entries, nowMs), nowMs);
    forall id | HasRole(r.watermarkCurrent, r.watermarkRecent, id)
      ensures id in kept <==> id in Unexpired(r.entries, Some(nowMs))
    {
      assert IsOpen(r.entries, id);
      assert WellFormedEntry(id, r.entries[id]);
    }
    assert forall id :: id in r.watermarkRecent ==> HasRole(r.watermarkCurrent, r.watermarkRecent, id);
    assert r.watermarkCurrent.Some? ==> HasRole(r.watermarkCurrent, r.watermarkRecent, r.watermarkCurrent.value);
    RetainCongruent(r.watermarkRecent, kept, Unexpired(r.entries, Some(nowMs)));
  }

  ghost predicate Stalls(r: Registry, r': Registry, clock: Option<nat>) {
    && WatermarkLess(r', r.watermarkCurrent, r.watermarkRecent, Unexpired(r.entries, clock))
    && SameDeadlines(r.entries, r'.entries)
    && r'.lastEventSeq == r.lastEventSeq
  }

  lemma NoExpiry(c: Config, r: Registry)
    requires Inv(c, r)
    ensures Stalls(r, r, None)
  {
    forall id | HasRole(r.watermarkCurrent, r.watermarkRecent, id)
      ensures id in Unexpired(r.entries, None)
    {
      assert IsOpen(r.entries, id);
    }
    assert forall id :: id in r.watermarkRecent ==> HasRole(r.watermarkCurrent, r.watermarkRecent, id);
    assert r.watermarkCurrent.Some? ==> HasRole(r.watermarkCurrent, r.watermarkRecent, r.watermarkCurrent.value);
    RetainAll(r.watermarkRecent, Unexpired(r.entries, None));
  }

  lemma EventStalls(c: Config, r: Registry, e: BackendEvent, anchorMs: nat, policyNowMs: nat)
    requires Inv(c, r) && ApplyEventAt(c, r, e, anchorMs, policyNowMs).result.Failure?
    ensures Stalls(r, ApplyEventAt(c, r, e, anchorMs, policyNowMs).next,
                   ExpiryTime(c, r, TakeEvent(e, anchorMs, policyNowMs)))
  {
    if CheckEvent(c, r, e, anchorMs, policyNowMs).Some? {
      NoExpiry(c, r);
      SuspendSettles(r);
    } else {
      var nowMs := Latest(r.lastMonotonicMs, policyNowMs);
      var x := ExpireAt(r, nowMs);
      ExpireWatermark(c, r, nowMs);
      ExpireInv(c, r, nowMs);
      ExpiredCurrentAccepts(r, anchorMs, nowMs);
      DispatchInv(c, x, e, anchorMs);
      SuspendSettles(Dispatch(c, x, e, anchorMs).next);
    }
  }

  lemma ClockStalls(c: Config, r: Registry, nowMs: nat)
    requires Inv(c, r)
    ensures Stalls(r, AdvanceClock(r, nowMs).next, QueryTime(r, nowMs))
  {
    if Before(nowMs, r.lastMonotonicMs) {
      NoExpiry(c, r);
      SuspendSettles(r);
    } else {
      ExpireWatermark(c, r, nowMs);
    }
  }

  lemma StorageStalls(r: Registry, r1: Registry, r2: Registry, clock: Option<nat>)
    requires Stalls(r, r1, clock) && SameDeadlines(r1.entries, r2.entries) && r2.lastEventSeq == r1.lastEventSeq
    requires r2.watermarkCurrent == r1.watermarkCurrent && r2.watermarkRecent == r1.watermarkRecent
    ensures Stalls(r, r2, clock)
  {
  }

  lemma SuspendStalls(c: Config, r: Registry)
    requires Inv(c, r)
    ensures Stalls(r, Suspend(r), None)
  {
    NoExpiry(c, r);
    SuspendSettles(r);
  }

  lemma ReleaseStalls(c: Config, r: Registry, id: JobId)
    requires Inv(c, r)
    ensures Stalls(r, Release(r, id), None)
  {
    NoExpiry(c, r);
    assert Release(r, id).entries.Keys == r.entries.Keys;
    StorageStalls(r, r, Release(r, id), None);
  }

  lemma NextStalls(c: Config, r: Registry, op: Op)
    requires Inv(c, r) && !Delivered(c, r, op)
    ensures Stalls(r, Next(c, r, op), ExpiryTime(c, r, op))
  {
    hide Inv, Stalls, Suspend, ExpireAt, Prune, Compact, AdmitAt, Release;
    match op
    case TakeSnapshot(eventSeq, current, recent, startedMs) => SuspendStalls(c, r);
    case TakeEvent(event, anchorMs, policyNowMs) => EventStalls(c, r, event, anchorMs, policyNowMs);
    case TakeEventNow(event, anchorMs) => EventStalls(c, r, event, anchorMs, Latest(r.lastMonotonicMs, anchorMs));
    case SuspendAll => SuspendStalls(c, r);
    case QueryRoles(nowMs) => ClockStalls(c, r, nowMs);
    case QueryCurrent(nowMs) => ClockStalls(c, r, nowMs);
    case QueryRecovery(nowMs) => PruneStalls(c, r, 0, seq(32, _ => 0), 0, nowMs, false);
    case Recover(id, nonce, solution, nowMs, allow) => PruneStalls(c, r, id, nonce, solution, nowMs, allow);
    case Admit(id, nowMs) => AdmitStalls(c, r, id, nowMs);
    case Drop(id) => ReleaseStalls(c, r, id);
    case Collect(nowMs) => CollectStalls(c, r, nowMs);
  }

  lemma PruneStalls(c: Config, r: Registry, id: JobId, nonce: Hex32, solution: nat, nowMs: nat, allow: bool)
    requires Inv(c, r)
    ensures Stalls(r, WinnerRecoveryIds(r, nowMs).next, QueryTime(r, nowMs))
    ensures Stalls(r, BeginZcashCandidate(c, r, id, nonce, solution, nowMs, allow).next, QueryTime(r, nowMs))
  {
    ClockStalls(c, r, nowMs);
  }

  lemma AdmitStalls(c: Config, r: Registry, id: JobId, nowMs: nat)
    requires Inv(c, r)
    ensures Stalls(r, BeginAdmission(r, id, nowMs).next, QueryTime(r, nowMs))
  {
    ClockStalls(c, r, nowMs);
    var g := AdvanceClock(r, nowMs).next;
    AdmitTouchesStorage(g, id, nowMs);
    StorageStalls(r, g, AdmitAt(g, id, nowMs).next, QueryTime(r, nowMs));
  }

  lemma AdmitTouchesStorage(g: Registry, id: JobId, nowMs: nat)
    ensures var s := AdmitAt(g, id, nowMs).next;
            SameDeadlines(g.entries, s.entries) && s == g.(entries := s.entries)
  {
    assert AdmitAt(g, id, nowMs).next.entries.Keys == g.entries.Keys;
  }

  lemma CollectStalls(c: Config, r: Registry, nowMs: nat)
    requires Inv(c, r)
    ensures Stalls(r, CollectRetired(r, nowMs).next, QueryTime(r, nowMs))
  {
    ClockStalls(c, r, nowMs);
    var g, s := AdvanceClock(r, nowMs).next, CollectRetired(r, nowMs).next;
    assert s.entries.Keys == g.entries.Keys;
    StorageStalls(r, g, s, QueryTime(r, nowMs));
  }

  lemma StallsTransitive(r0: Registry, r1: Registry, r2: Registry, t1: Option<nat>, t2: Option<nat>)
    requires Stalls(r0, r1, t1) && Stalls(r1, r2, t2)
    ensures Stalls(r0, r2, Later(t1, t2))
  {
    var k1, k2 := Unexpired(r0.entries, t1), Unexpired(r1.entries, t2);
    assert k1 * k2 == Unexpired(r0.entries, Later(t1, t2));
    RetainTwice(r0.watermarkRecent, k1, k2);
  }

  /** However long the stall, the watermark is what was last held less what the clock expired. */
  lemma {:induction false} StallKeepsWatermark(c: Config, r: Registry, ops: seq<Op>)
    requires Inv(c, r) && Stalled(c, r, ops)
    ensures Inv(c, RunFrom(c, r, ops))
    ensures Stalls(r, RunFrom(c, r, ops), StallClock(c, r, ops))
    decreases |ops|
  {
    if |ops| == 0 {
      NoExpiry(c, r);
    } else {
      var front, last := ops[..|ops| - 1], ops[|ops| - 1];
      StallKeepsWatermark(c, r, front);
      var r1 := RunFrom(c, r, front);
      NextInv(c, r1, last);
      NextStalls(c, r1, last);
      StallsTransitive(r, r1, Next(c, r1, last), StallClock(c, r, front), ExpiryTime(c, r1, last));
    }
  }

  function JobIds(jobs: seq<AcceptableJob>): (ids: seq<JobId>)
    ensures |ids| == |jobs|
  {
    if |jobs| == 0 then [] else JobIds(jobs[..|jobs| - 1]) + [jobs[|jobs| - 1].job.jobId]
  }

  lemma {:induction false} PreparedIds(entries: Entries, jobs: seq<AcceptableJob>, anchorMs: nat)
    ensures var p := PrepareJobs(entries, jobs, anchorMs); p.Success? ==> p.value.ids == JobIds(jobs)
    decreases |jobs|
  {
    if |jobs| == 0 {
    } else {
      PreparedIds(entries, jobs[..|jobs| - 1], anchorMs);
    }
  }

  lemma {:induction false} JobIdsPrepend(head: AcceptableJob, rest: seq<AcceptableJob>)
    ensures JobIds([head] + rest) == [head.job.jobId] + JobIds(rest)
    decreases |rest|
  {
    if |rest| == 0 {
      assert [head] + rest == [head];
      assert [head][..0] == [];
    } else {
      JobIdsPrepend(head, rest[..|rest| - 1]);
      assert ([head] + rest)[..|rest|] == [head] + rest[..|rest| - 1];
    }
  }

  /**
   * A snapshot repeating the last journal position succeeds only with exactly the
   * current job and ordered recent list last held there, less what the clock has
   * expired since, through any suspensions and rejected deliveries.
   */
  lemma RepeatedSnapshotIsExact(c: Config, r: Registry, ops: seq<Op>, eventSeq: nat,
                                current: Option<AcceptableJob>, recent: seq<AcceptableJob>, startedMs: nat)
    requires Inv(c, r) && r.synchronized && r.lastEventSeq == Some(eventSeq)
    ensures Stalled(c, r, ops) && ApplySnapshot(c, RunFrom(c, r, ops), eventSeq, current, recent, startedMs).result.Success? ==>
              SameRolesLess(r, Unexpired(r.entries, StallClock(c, r, ops)), current, recent)
  {
    if Stalled(c, r, ops) && ApplySnapshot(c, RunFrom(c, r, ops), eventSeq, current, recent, startedMs).result.Success? {
      RepeatedRoles(c, r, ops, eventSeq, current, recent, startedMs);
    }
  }

  /** The snapshot names exactly the roles of `r` that are still in `keep`. */
  ghost predicate SameRolesLess(r: Registry, keep: set<JobId>, current: Option<AcceptableJob>, recent: seq<AcceptableJob>) {
    && (if current.Some? then Some(current.value.job.jobId) else None) == RetainOption(r.current, keep)
    && JobIds(recent) == Retain(r.recent, keep)
  }

  lemma RepeatedRoles(c: Config, r: Registry, ops: seq<Op>, eventSeq: nat,
                      current: Option<AcceptableJob>, recent: seq<AcceptableJob>, startedMs: nat)
    requires Inv(c, r) && r.synchronized && Stalled(c, r, ops)
    requires r.lastEventSeq == Some(eventSeq)
    requires ApplySnapshot(c, RunFrom(c, r, ops), eventSeq, current, recent, startedMs).result.Success?
    ensures SameRolesLess(r, Unexpired(r.entries, StallClock(c, r, ops)), current, recent)
  {
    hide PrepareJobs, MergeSnapshot, InstallSnapshot, Retain, RetainOption, Unexpired, RunFrom, Stalled, StallClock, Suspend;
    StallKeepsWatermark(c, r, ops);
    var r1 := RunFrom(c, r, ops);
    var jobs := SnapshotJobs(current, recent);
    PreparedIds(r1.entries, jobs, startedMs);
    JobsLength(r1.entries, jobs, startedMs);
    if current.Some? {
      JobIdsPrepend(current.value, recent);
      assert JobIds(jobs)[1..] == JobIds(recent);
    } else {
      assert jobs == recent;
    }
  }
}
