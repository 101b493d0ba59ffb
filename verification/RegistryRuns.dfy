/** What holds of the registry over every sequence of operations. */
module RegistryRuns {
  import opened Bytes
  import opened Common
  import opened Protocol
  import opened RegistryModel
  import opened RegistryInvariant

  datatype Op =
    | TakeSnapshot(eventSeq: nat, current: Option<AcceptableJob>, recent: seq<AcceptableJob>, startedMs: nat)
    | TakeEvent(event: BackendEvent, anchorMs: nat, policyNowMs: nat)
    | TakeEventNow(event: BackendEvent, anchorMs: nat)
    | SuspendAll
    | QueryRoles(nowMs: nat)
    | QueryCurrent(nowMs: nat)
    | QueryRecovery(nowMs: nat)
    | Admit(id: JobId, nowMs: nat)
    | Drop(id: JobId)
    | Recover(id: JobId, nonce: Hex32, solution: nat, nowMs: nat, allowNoCurrent: bool)
    | Collect(nowMs: nat)

  function Next(c: Config, r: Registry, op: Op): Registry {
    match op
    case TakeSnapshot(eventSeq, current, recent, startedMs) => ApplySnapshot(c, r, eventSeq, current, recent, startedMs).next
    case TakeEvent(event, anchorMs, policyNowMs) => ApplyEventAt(c, r, event, anchorMs, policyNowMs).next
    case TakeEventNow(event, anchorMs) => ApplyEvent(c, r, event, anchorMs).next
    case SuspendAll => Suspend(r)
    case QueryRoles(nowMs) => AdmissibleIds(r, nowMs).next
    case QueryCurrent(nowMs) => CurrentGeneration(r, nowMs).next
    case QueryRecovery(nowMs) => WinnerRecoveryIds(r, nowMs).next
    case Admit(id, nowMs) => BeginAdmission(r, id, nowMs).next
    case Drop(id) => Release(r, id)
    case Recover(id, nonce, solution, nowMs, allowNoCurrent) =>
      BeginZcashCandidate(c, r, id, nonce, solution, nowMs, allowNoCurrent).next
    case Collect(nowMs) => CollectRetired(r, nowMs).next
  }

  /** Every operation, successful, failing or half-applied, keeps the five views consistent. */
  lemma NextInv(c: Config, r: Registry, op: Op)
    requires Inv(c, r)
    ensures Inv(c, Next(c, r, op))
  {
    match op
    case TakeSnapshot(eventSeq, current, recent, startedMs) => SnapshotInv(c, r, eventSeq, current, recent, startedMs);
    case TakeEvent(event, anchorMs, policyNowMs) => EventInv(c, r, event, anchorMs, policyNowMs);
    case TakeEventNow(event, anchorMs) => EventInv(c, r, event, anchorMs, Latest(r.lastMonotonicMs, anchorMs));
    case SuspendAll => SuspendInv(c, r);
    case QueryRoles(nowMs) => ClockInv(c, r, nowMs);
    case QueryCurrent(nowMs) => ClockInv(c, r, nowMs);
    case QueryRecovery(nowMs) => CandidateInv(c, r, 0, seq(32, _ => 0), 0, nowMs, false);
    case Admit(id, nowMs) => AdmissionInv(c, r, id, nowMs);
    case Drop(id) => ReleaseInv(c, r, id);
    case Recover(id, nonce, solution, nowMs, allow) => CandidateInv(c, r, id, nonce, solution, nowMs, allow);
    case Collect(nowMs) => CollectInv(c, r, nowMs);
  }

  /** The registry after a run from the empty state. */
  function Run(c: Config, ops: seq<Op>): Registry {
    if |ops| == 0 then Empty() else Next(c, Run(c, ops[..|ops| - 1]), ops[|ops| - 1])
  }

  lemma {:induction false} RunInv(c: Config, ops: seq<Op>)
    ensures Inv(c, Run(c, ops))
    decreases |ops|
  {
    if |ops| == 0 {
      EmptyInv(c);
    } else {
      RunInv(c, ops[..|ops| - 1]);
      NextInv(c, Run(c, ops[..|ops| - 1]), ops[|ops| - 1]);
    }
  }

  // ---------------------------------------------------------------- how entries evolve

  function Count(s: Storage): nat {
    if s.Live? then s.inFlight else 0
  }

  /** What no operation ever undoes for one identifier. */
  ghost predicate EntryEvolves(e: Entry, e': Entry) {
    && e'.generation == e.generation
    && e'.acceptUntilMs <= e.acceptUntilMs
    && e'.recoveryUntilMs == e.recoveryUntilMs
    && (Terminal(e.state) ==> Terminal(e'.state))
    && (e.state == Closed ==> e'.state == Closed)
    && (e.storage.Tombstone? ==> e'.storage.Tombstone?)
  }

  ghost predicate Evolves(entries: Entries, entries': Entries) {
    forall id :: id in entries ==> id in entries' && EntryEvolves(entries[id], entries'[id])
  }

  lemma EvolvesTransitive(a: Entries, b: Entries, d: Entries)
    requires Evolves(a, b) && Evolves(b, d)
    ensures Evolves(a, d)
  {
  }

  /** Same identifiers, deadlines and guard counts: expiry, suspension and compaction. */
  ghost predicate Settles(entries: Entries, entries': Entries) {
    && entries'.Keys == entries.Keys
    && forall id :: id in entries ==>
         && EntryEvolves(entries[id], entries'[id])
         && entries'[id].acceptUntilMs == entries[id].acceptUntilMs
         && Count(entries'[id].storage) == Count(entries[id].storage)
  }

  /** Facts fixed when an identifier is first observed at `anchorMs`. */
  ghost predicate FirstObserved(e: Entry, anchorMs: nat) {
    && ValidDescriptor(e.generation)
    && e.acceptUntilMs <= anchorMs + e.generation.maxAgeMs
    && e.recoveryUntilMs == e.acceptUntilMs + ZCASH_WINNER_RECOVERY_TAIL_MS
    && e.storage == Live(0)
  }

  /** Known identifiers evolve with their counts; new ones begin at `anchorMs`. */
  ghost predicate Grows(entries: Entries, entries': Entries, anchorMs: nat) {
    && Evolves(entries, entries')
    && (forall id :: id in entries ==> Count(entries'[id].storage) == Count(entries[id].storage))
    && (forall id :: id in entries' && id !in entries ==> FirstObserved(entries'[id], anchorMs))
  }

  lemma SettleThenGrow(a: Entries, b: Entries, d: Entries, anchorMs: nat)
    requires Settles(a, b) && Grows(b, d, anchorMs)
    ensures Grows(a, d, anchorMs)
  {
    EvolvesTransitive(a, b, d);
  }

  /** Compaction never touches an identifier first observed by the same operation. */
  lemma GrowThenSettle(a: Entries, b: Entries, d: Entries, anchorMs: nat)
    requires Grows(a, b, anchorMs) && Settles(b, d)
    requires forall id :: id in b && b[id].storage.Live? ==> d[id].storage.Live?
    ensures Grows(a, d, anchorMs)
  {
    EvolvesTransitive(a, b, d);
  }

  lemma ExpireSettles(entries: Entries, nowMs: nat)
    ensures Settles(entries, ExpireEntries(entries, nowMs))
    ensures forall id :: id in entries && entries[id].storage.Live? ==> ExpireEntries(entries, nowMs)[id].storage.Live?
  {
    assert ExpireEntries(entries, nowMs).Keys == entries.Keys;
  }

  lemma SuspendSettles(r: Registry)
    ensures Settles(r.entries, Suspend(r).entries)
    ensures forall id :: id in r.entries && r.entries[id].storage.Live? ==> Suspend(r).entries[id].storage.Live?
  {
    assert Suspend(r).entries.Keys == r.entries.Keys;
  }

  lemma ClockSettles(r: Registry, nowMs: nat)
    ensures Settles(r.entries, AdvanceClock(r, nowMs).next.entries)
  {
    ExpireSettles(r.entries, nowMs);
    SuspendSettles(r);
  }

  lemma MergeGrows(c: Config, entries: Entries, p: PreparedSnapshot, anchorMs: nat)
    requires WellFormedEntries(entries) && WellPrepared(c, entries, p, anchorMs)
    ensures Grows(entries, p.entries, anchorMs)
  {
  }

  lemma SnapshotGrows(c: Config, r: Registry, eventSeq: nat, current: Option<AcceptableJob>,
                      recent: seq<AcceptableJob>, startedMs: nat)
    requires Inv(c, r)
    ensures Grows(r.entries, ApplySnapshot(c, r, eventSeq, current, recent, startedMs).next.entries, startedMs)
  {
    var p := PrepareSnapshot(c, r, eventSeq, current, recent, startedMs);
    if p.Success? {
      SnapshotPrepared(c, r, eventSeq, current, recent, startedMs);
      MergeGrows(c, r.entries, p.value, startedMs);
      var nowMs := Latest(r.lastMonotonicMs, startedMs);
      ExpireSettles(p.value.entries, nowMs);
      GrowThenSettle(r.entries, p.value.entries, ExpireEntries(p.value.entries, nowMs), startedMs);
    } else {
      SuspendSettles(r);
    }
  }

  lemma UpdateGrows(entries: Entries, id: JobId, e: Entry, anchorMs: nat)
    requires id in entries && EntryEvolves(entries[id], e) && e.storage == entries[id].storage
    ensures Grows(entries, entries[id := e], anchorMs)
  {
  }

  lemma InvalidateGrows(c: Config, r: Registry, id: JobId, reason: InvalidationReason, acceptForMs: nat, anchorMs: nat)
    ensures Grows(r.entries, Invalidate(c, r, id, reason, acceptForMs, anchorMs).next.entries, anchorMs)
  {
    if id in r.entries && r.entries[id].state == Accepting {
      var until := MinOf(r.entries[id].acceptUntilMs, anchorMs + acceptForMs);
      UpdateGrows(r.entries, id, r.entries[id].(acceptUntilMs := until, state := if until > anchorMs then Accepting else Invalidated), anchorMs);
      UpdateGrows(r.entries, id, r.entries[id].(state := Invalidated), anchorMs);
    }
  }

  lemma ActivateGrows(c: Config, r: Registry, job: JobDescriptor, anchorMs: nat)
    ensures Grows(r.entries, Activate(c, r, job, anchorMs).next.entries, anchorMs)
  {
    var s := Activate(c, r, job, anchorMs);
    if s.result.Success? {
      var until := anchorMs + job.maxAgeMs;
      var e := Entry(job, Live(0), until, until + ZCASH_WINNER_RECOVERY_TAIL_MS, Accepting);
      assert s.next.entries == r.entries[job.jobId := e];
      InsertGrows(r.entries, job.jobId, e, anchorMs);
    } else {
      assert s.next.entries == r.entries;
      InsertNothing(r.entries, anchorMs);
    }
  }

  lemma InsertGrows(entries: Entries, id: JobId, e: Entry, anchorMs: nat)
    requires id !in entries && FirstObserved(e, anchorMs)
    ensures Grows(entries, entries[id := e], anchorMs)
  {
  }

  lemma InsertNothing(entries: Entries, anchorMs: nat)
    ensures Grows(entries, entries, anchorMs)
  {
  }

  lemma DispatchGrows(c: Config, r: Registry, e: BackendEvent, anchorMs: nat)
    ensures Grows(r.entries, Dispatch(c, r, e, anchorMs).next.entries, anchorMs)
  {
    match e
    case JobActivated(_, job) =>
      ActivateGrows(c, r, job, anchorMs);
    case JobInvalidated(_, id, reason, acceptForMs) =>
      InvalidateGrows(c, if reason == ZcashTipChanged then r.(winnerRecovery := Without(r.winnerRecovery, id)) else r,
                      id, reason, acceptForMs, anchorMs);
    case GenerationClosed(_, id) =>
      if id in r.entries {
        UpdateGrows(r.entries, id, r.entries[id].(state := Closed), anchorMs);
      }
    case ShareCommitted(_, _, _, _) =>
    case WinnerEvent(_, _, _, _, _) =>
  }

  lemma EventGrows(c: Config, r: Registry, e: BackendEvent, anchorMs: nat, policyNowMs: nat)
    ensures Grows(r.entries, ApplyEventAt(c, r, e, anchorMs, policyNowMs).next.entries, anchorMs)
  {
    if CheckEvent(c, r, e, anchorMs, policyNowMs).Some? {
      SuspendSettles(r);
    } else {
      var nowMs := Latest(r.lastMonotonicMs, policyNowMs);
      var x := ExpireAt(r, nowMs);
      var applied := Dispatch(c, x, e, anchorMs).next;
      ExpireSettles(r.entries, nowMs);
      DispatchGrows(c, x, e, anchorMs);
      SettleThenGrow(r.entries, x.entries, applied.entries, anchorMs);
      ExpireSettles(applied.entries, nowMs);
      GrowThenSettle(r.entries, applied.entries, ExpireEntries(applied.entries, nowMs), anchorMs);
      SuspendSettles(applied);
      GrowThenSettle(r.entries, applied.entries, Suspend(applied).entries, anchorMs);
    }
  }

  lemma CollectSettles(r: Registry, nowMs: nat)
    ensures Settles(r.entries, CollectRetired(r, nowMs).next.entries)
  {
    ClockSettles(r, nowMs);
    var s := AdvanceClock(r, nowMs).next;
    var t := CollectRetired(r, nowMs).next;
    assert t.entries.Keys == s.entries.Keys;
  }

  predicate Delivers(op: Op) {
    op.TakeSnapshot? || op.TakeEvent? || op.TakeEventNow?
  }

  function AnchorOf(op: Op): nat {
    match op
    case TakeSnapshot(_, _, _, startedMs) => startedMs
    case TakeEvent(_, anchorMs, _) => anchorMs
    case TakeEventNow(_, anchorMs) => anchorMs
    case _ => 0
  }

  lemma DeliveryGrows(c: Config, r: Registry, op: Op)
    requires Inv(c, r) && Delivers(op)
    ensures Grows(r.entries, Next(c, r, op).entries, AnchorOf(op))
  {
    match op
    case TakeSnapshot(eventSeq, current, recent, startedMs) => SnapshotGrows(c, r, eventSeq, current, recent, startedMs);
    case TakeEvent(event, anchorMs, policyNowMs) => EventGrows(c, r, event, anchorMs, policyNowMs);
    case TakeEventNow(event, anchorMs) => EventGrows(c, r, event, anchorMs, Latest(r.lastMonotonicMs, anchorMs));
  }

  predicate Counts(op: Op) {
    op.Admit? || op.Drop?
  }

  /** Queries expire work but keep every identifier, deadline and guard count. */
  lemma QuerySettles(c: Config, r: Registry, op: Op)
    requires !Delivers(op) && !Counts(op)
    ensures Settles(r.entries, Next(c, r, op).entries)
  {
    match op
    case SuspendAll => SuspendSettles(r);
    case QueryRoles(nowMs) => ClockSettles(r, nowMs);
    case QueryCurrent(nowMs) => ClockSettles(r, nowMs);
    case QueryRecovery(nowMs) => ClockSettles(r, nowMs);
    case Recover(id, nonce, solution, nowMs, allow) => ClockSettles(r, nowMs);
    case Collect(nowMs) => CollectSettles(r, nowMs);
  }

  /** An update of one guard counter. */
  lemma RecountEvolves(entries: Entries, id: JobId, n: nat)
    requires id in entries && entries[id].storage.Live?
    ensures var entries' := entries[id := entries[id].(storage := Live(n))];
            Evolves(entries, entries') && entries'.Keys == entries.Keys
  {
    assert entries[id := entries[id].(storage := Live(n))].Keys == entries.Keys;
  }

  lemma AdmitEvolves(g: Registry, id: JobId, nowMs: nat)
    ensures var s := AdmitAt(g, id, nowMs).next; Evolves(g.entries, s.entries) && s.entries.Keys == g.entries.Keys
  {
    if id in g.entries && g.entries[id].AcceptingAt(nowMs) {
      RecountEvolves(g.entries, id, g.entries[id].storage.inFlight + 1);
    }
  }

  lemma CountEvolves(c: Config, r: Registry, op: Op)
    requires Counts(op)
    ensures Evolves(r.entries, Next(c, r, op).entries)
    ensures Next(c, r, op).entries.Keys == r.entries.Keys
  {
    match op
    case Admit(id, nowMs) =>
      var g := Gate(r, nowMs).next;
      ClockSettles(r, nowMs);
      AdmitEvolves(g, id, nowMs);
      EvolvesTransitive(r.entries, g.entries, AdmitAt(g, id, nowMs).next.entries);
    case Drop(id) =>
      if id in r.entries && r.entries[id].storage.Live? && r.entries[id].storage.inFlight > 0 {
        RecountEvolves(r.entries, id, r.entries[id].storage.inFlight - 1);
      }
  }

  lemma NextEvolves(c: Config, r: Registry, op: Op)
    requires Inv(c, r)
    ensures Evolves(r.entries, Next(c, r, op).entries)
  {
    if Delivers(op) {
      DeliveryGrows(c, r, op);
    } else if Counts(op) {
      CountEvolves(c, r, op);
    } else {
      QuerySettles(c, r, op);
    }
  }

  /** Over any run: no identifier forgotten, no descriptor changed, no deadline later, no terminal state left. */
  lemma {:induction false} RunEvolves(c: Config, ops: seq<Op>, i: nat)
    requires i <= |ops|
    ensures Evolves(Run(c, ops[..i]).entries, Run(c, ops).entries)
    decreases |ops|
  {
    if i == |ops| {
      assert ops[..i] == ops;
    } else {
      var front := ops[..|ops| - 1];
      RunEvolves(c, front, i);
      assert front[..i] == ops[..i];
      RunInv(c, front);
      NextEvolves(c, Run(c, front), ops[|ops| - 1]);
      EvolvesTransitive(Run(c, ops[..i]).entries, Run(c, front).entries, Run(c, ops).entries);
    }
  }

  /** Operation `i` of the run is the one that first shows `id` to the registry. */
  ghost predicate Introduces(c: Config, ops: seq<Op>, i: nat, id: JobId) {
    i < |ops| && id !in Run(c, ops[..i]).entries && id in Run(c, ops[..i + 1]).entries
  }

  /** Every known identifier was introduced by exactly the delivery that carried it. */
  lemma {:induction false} FindIntroduction(c: Config, ops: seq<Op>, id: JobId) returns (i: nat)
    requires id in Run(c, ops).entries
    ensures Introduces(c, ops, i, id)
    ensures Delivers(ops[i])
    ensures FirstObserved(Run(c, ops[..i + 1]).entries[id], AnchorOf(ops[i]))
    decreases |ops|
  {
    var front, last := ops[..|ops| - 1], ops[|ops| - 1];
    if id in Run(c, front).entries {
      i := FindIntroduction(c, front, id);
      assert front[..i] == ops[..i] && front[..i + 1] == ops[..i + 1];
    } else {
      i := |ops| - 1;
      assert ops[..i + 1] == ops;
      RunInv(c, front);
      if Delivers(last) {
        DeliveryGrows(c, Run(c, front), last);
      } else if Counts(last) {
        CountEvolves(c, Run(c, front), last);
      } else {
        QuerySettles(c, Run(c, front), last);
      }
    }
  }

  /** What an ordinary admission requires of the state it starts from. */
  lemma AdmissionRequires(r: Registry, id: JobId, nowMs: nat)
    requires BeginAdmission(r, id, nowMs).result.Success?
    ensures id in r.entries && r.entries[id].state == Accepting && nowMs < r.entries[id].acceptUntilMs
    ensures BeginAdmission(r, id, nowMs).result.value == r.entries[id].generation
    ensures r.synchronized && !Before(nowMs, r.lastMonotonicMs)
  {
  }

  /**
   * Exactly when an ordinary admission succeeds: a synchronized registry, a clock that has
   * not gone back, a job in the current or recent role still before its deadline, and room
   * in its counter.
   */
  lemma AdmissionExactlyForRoles(c: Config, r: Registry, id: JobId, nowMs: nat)
    requires Inv(c, r)
    ensures BeginAdmission(r, id, nowMs).result.Success? <==>
            && r.synchronized && !Before(nowMs, r.lastMonotonicMs) && HasRole(r.current, r.recent, id)
            && id in r.entries && nowMs < r.entries[id].acceptUntilMs
            && Count(r.entries[id].storage) < U64_MAX
  {
    assert HasRole(r.current, r.recent, id) <==> IsAccepting(r.entries, id);
    if id in r.entries {
      assert WellFormedEntry(id, r.entries[id]);
    }
  }

  /** Step `i` introduced `id` as `admitted`, and `nowMs` is before its first anchor + max age. */
  ghost predicate AdmittedInTime(c: Config, ops: seq<Op>, i: nat, id: JobId, nowMs: nat, admitted: JobDescriptor) {
    && Introduces(c, ops, i, id) && Delivers(ops[i])
    && (var first := Run(c, ops[..i + 1]).entries[id];
        && ValidDescriptor(first.generation) && admitted == first.generation
        && nowMs < first.acceptUntilMs <= AnchorOf(ops[i]) + first.generation.maxAgeMs)
  }

  /**
   * Every ordinary admission in any run is for a job introduced earlier in that
   * run, with its original descriptor, strictly before first anchor + max age.
   */
  lemma AdmissionBeforeFirstDeadline(c: Config, ops: seq<Op>, id: JobId, nowMs: nat) returns (i: nat)
    ensures var r := BeginAdmission(Run(c, ops), id, nowMs).result;
            r.Success? ==> AdmittedInTime(c, ops, i, id, nowMs, r.value)
  {
    i := 0;
    if BeginAdmission(Run(c, ops), id, nowMs).result.Success? {
      AdmissionRequires(Run(c, ops), id, nowMs);
      i := FindIntroduction(c, ops, id);
      RunEvolves(c, ops, i + 1);
    }
  }

  /** Once terminal, never admitted again, whatever happens in between. */
  lemma TerminalNeverAdmitted(c: Config, ops: seq<Op>, i: nat, id: JobId, nowMs: nat)
    requires i <= |ops| && id in Run(c, ops[..i]).entries && Terminal(Run(c, ops[..i]).entries[id].state)
    ensures BeginAdmission(Run(c, ops), id, nowMs).result.Failure?
  {
    RunEvolves(c, ops, i);
    if BeginAdmission(Run(c, ops), id, nowMs).result.Success? {
      AdmissionRequires(Run(c, ops), id, nowMs);
      assert false;
    }
  }

  // ---------------------------------------------------------------- late Zcash winners

  /** What qualifies a job for a late-winner grant. */
  predicate Qualifies(c: Config, r: Registry, id: JobId, nonce: Hex32, solution: nat, nowMs: nat, allowNoCurrent: bool) {
    && r.synchronized && !Before(nowMs, r.lastMonotonicMs)
    && id in r.winnerRecovery && id in r.entries && r.entries[id].state != Closed && nowMs < r.entries[id].recoveryUntilMs
    && MeetsZcashTarget(c, r.entries[id].generation, nonce, solution)
    && (var parent := CurrentParent(r, nowMs);
        if parent.Some? then r.entries[id].generation.zcashPreviousHash == parent.value else allowNoCurrent)
  }

  /**
   * Exactly when a late-winner grant succeeds, and with which descriptor: a synchronized
   * registry, a clock that has not gone back, a listed job that is not closed and within its
   * tail, a hash that meets the target, and the parent of any accepting current job.
   */
  lemma GrantExactlyWhenQualified(c: Config, r: Registry, id: JobId, nonce: Hex32, solution: nat, nowMs: nat, allowNoCurrent: bool)
    requires Inv(c, r)
    ensures var g := BeginZcashCandidate(c, r, id, nonce, solution, nowMs, allowNoCurrent).result;
            && (g.Success? <==> Qualifies(c, r, id, nonce, solution, nowMs, allowNoCurrent))
            && (g.Success? ==> g.value == r.entries[id].generation)
  {
    if r.synchronized && !Before(nowMs, r.lastMonotonicMs) {
      var g := Gate(r, nowMs).next;
      assert CurrentParent(g, nowMs) == CurrentParent(Prune(g, nowMs), nowMs);
      CurrentSurvives(c, r, nowMs);
    }
  }

  /** Advancing the clock keeps exactly the current job that still accepts. */
  lemma CurrentSurvives(c: Config, r: Registry, nowMs: nat)
    requires Inv(c, r) && !Before(nowMs, r.lastMonotonicMs)
    ensures CurrentParent(Gate(r, nowMs).next, nowMs) == CurrentParent(r, nowMs)
  {
    assert r.current.Some? ==> HasRole(r.current, r.recent, r.current.value);
  }

  /** Step `i` introduced `id` as `granted`; time, hash and Zcash parent all qualify at `nowMs`. */
  ghost predicate GrantedInTime(c: Config, ops: seq<Op>, i: nat, id: JobId, nonce: Hex32, solution: nat, nowMs: nat,
                                allowNoCurrent: bool, granted: JobDescriptor)
  {
    && Introduces(c, ops, i, id)
    && (var first, parent := Run(c, ops[..i + 1]).entries[id], CurrentParent(Run(c, ops), nowMs);
        && nowMs < first.acceptUntilMs + 60_000
        && first.acceptUntilMs <= AnchorOf(ops[i]) + first.generation.maxAgeMs
        && granted == first.generation
        && LeValue(c.digests.parentHash(granted.header, nonce, solution)) <= LeValue(granted.zcashTargetLe)
        && (if parent.Some? then granted.zcashPreviousHash == parent.value else allowNoCurrent))
  }

  /** Grants happen strictly before first deadline + 60 s, in numeric target order, for listed jobs only. */
  lemma GrantBeforeTailEnds(c: Config, ops: seq<Op>, id: JobId, nonce: Hex32, solution: nat, nowMs: nat, allowNoCurrent: bool)
    returns (i: nat)
    ensures var r := BeginZcashCandidate(c, Run(c, ops), id, nonce, solution, nowMs, allowNoCurrent).result;
            r.Success? ==> GrantedInTime(c, ops, i, id, nonce, solution, nowMs, allowNoCurrent, r.value)
    ensures |Run(c, ops).winnerRecovery| <= MAX_ZCASH_WINNER_RECOVERY_JOBS && Distinct(Run(c, ops).winnerRecovery)
  {
    i := 0;
    RunInv(c, ops);
    if BeginZcashCandidate(c, Run(c, ops), id, nonce, solution, nowMs, allowNoCurrent).result.Success? {
      GrantExactlyWhenQualified(c, Run(c, ops), id, nonce, solution, nowMs, allowNoCurrent);
      i := FindIntroduction(c, ops, id);
      RunEvolves(c, ops, i + 1);
      var d := Run(c, ops[..i + 1]).entries[id].generation;
      ReversedCompareIsIntegerOrder(c.digests.parentHash(d.header, nonce, solution), d.zcashTargetLe);
    }
  }

  /** A known job that is terminal and off the late-winner list. */
  ghost predicate Banned(r: Registry, id: JobId) {
    id in r.entries && Terminal(r.entries[id].state) && id !in r.winnerRecovery
  }

  lemma SnapshotKeepsBan(c: Config, r: Registry, eventSeq: nat, current: Option<AcceptableJob>,
                         recent: seq<AcceptableJob>, startedMs: nat, id: JobId)
    requires Inv(c, r) && Banned(r, id)
    ensures id !in ApplySnapshot(c, r, eventSeq, current, recent, startedMs).next.winnerRecovery
  {
    var p := PrepareSnapshot(c, r, eventSeq, current, recent, startedMs);
    if p.Success? {
      SnapshotPrepared(c, r, eventSeq, current, recent, startedMs);
      assert id !in RoleList(p.value.current, p.value.recent);
      assert !HasRole(p.value.current, p.value.recent, id);
      var s := InstallSnapshot(r, p.value, eventSeq, startedMs);
    }
  }

  lemma DispatchKeepsBan(c: Config, r: Registry, e: BackendEvent, anchorMs: nat, id: JobId)
    requires id in r.entries && id !in r.winnerRecovery
    ensures id !in Dispatch(c, r, e, anchorMs).next.winnerRecovery
  {
    match e
    case JobActivated(_, job) =>
    case JobInvalidated(_, id', reason, acceptForMs) =>
    case GenerationClosed(_, id') =>
    case ShareCommitted(_, _, _, _) =>
    case WinnerEvent(_, _, _, _, _) =>
  }

  lemma NextKeepsBan(c: Config, r: Registry, op: Op, id: JobId)
    requires Inv(c, r) && Banned(r, id)
    ensures Banned(Next(c, r, op), id)
  {
    NextEvolves(c, r, op);
    match op
    case TakeSnapshot(eventSeq, current, recent, startedMs) =>
      SnapshotKeepsBan(c, r, eventSeq, current, recent, startedMs, id);
    case TakeEvent(event, anchorMs, policyNowMs) =>
      EventKeepsBan(c, r, event, anchorMs, policyNowMs, id);
    case TakeEventNow(event, anchorMs) =>
      EventKeepsBan(c, r, event, anchorMs, Latest(r.lastMonotonicMs, anchorMs), id);
    case _ =>
  }

  lemma EventKeepsBan(c: Config, r: Registry, e: BackendEvent, anchorMs: nat, policyNowMs: nat, id: JobId)
    requires Banned(r, id)
    ensures id !in ApplyEventAt(c, r, e, anchorMs, policyNowMs).next.winnerRecovery
  {
    if CheckEvent(c, r, e, anchorMs, policyNowMs).None? {
      DispatchKeepsBan(c, ExpireAt(r, Latest(r.lastMonotonicMs, policyNowMs)), e, anchorMs, id);
    }
  }

  /** The event that closes `id`, or withdraws it for a Zcash tip change. */
  predicate Withdraws(e: BackendEvent, id: JobId) {
    || (e.GenerationClosed? && e.jobId == id)
    || (e.JobInvalidated? && e.jobId == id && e.reason == ZcashTipChanged)
  }

  lemma WithdrawalBans(c: Config, r: Registry, e: BackendEvent, anchorMs: nat, policyNowMs: nat, id: JobId)
    requires Inv(c, r) && id in r.entries && Withdraws(e, id)
    requires ApplyEventAt(c, r, e, anchorMs, policyNowMs).result.Success?
    ensures Banned(ApplyEventAt(c, r, e, anchorMs, policyNowMs).next, id)
  {
    var nowMs := Latest(r.lastMonotonicMs, policyNowMs);
    var x := ExpireAt(r, nowMs);
    ExpireInv(c, r, nowMs);
    NothingSuspended(c, x);
    DispatchWithdraws(c, x, e, anchorMs, id);
    var applied := Dispatch(c, x, e, anchorMs);
    ConcludeKeepsBan(applied, e, anchorMs, nowMs, id);
    assert ApplyEventAt(c, r, e, anchorMs, policyNowMs) == Conclude(applied, e, anchorMs, nowMs);
  }

  lemma ConcludeKeepsBan(applied: Step<()>, e: BackendEvent, anchorMs: nat, nowMs: nat, id: JobId)
    requires Banned(applied.next, id)
    ensures Banned(Conclude(applied, e, anchorMs, nowMs).next, id)
  {
  }

  lemma DispatchWithdraws(c: Config, r: Registry, e: BackendEvent, anchorMs: nat, id: JobId)
    requires id in r.entries && r.entries[id].state != Suspended && Withdraws(e, id)
    ensures Banned(Dispatch(c, r, e, anchorMs).next, id)
  {
  }

  lemma {:induction false} RunKeepsBan(c: Config, ops: seq<Op>, i: nat, id: JobId)
    requires i <= |ops| && Banned(Run(c, ops[..i]), id)
    ensures Banned(Run(c, ops), id)
    decreases |ops|
  {
    if i == |ops| {
      assert ops[..i] == ops;
    } else {
      var front := ops[..|ops| - 1];
      assert front[..i] == ops[..i];
      RunKeepsBan(c, front, i, id);
      RunInv(c, front);
      NextKeepsBan(c, Run(c, front), ops[|ops| - 1], id);
    }
  }

  /** `op` applied `e` successfully in state `r`. */
  predicate Applies(c: Config, r: Registry, op: Op, e: BackendEvent) {
    || (op.TakeEvent? && op.event == e && ApplyEventAt(c, r, e, op.anchorMs, op.policyNowMs).result.Success?)
    || (op.TakeEventNow? && op.event == e && ApplyEvent(c, r, e, op.anchorMs).result.Success?)
  }

  /** A known job once closed, or withdrawn by a Zcash tip change, is never granted again in any continuation. */
  lemma WithdrawnNeverGranted(c: Config, ops: seq<Op>, i: nat, e: BackendEvent, id: JobId,
                              nonce: Hex32, solution: nat, nowMs: nat, allow: bool)
    requires i < |ops|
    ensures Withdraws(e, id) && Applies(c, Run(c, ops[..i]), ops[i], e) && id in Run(c, ops[..i]).entries ==>
              && BeginZcashCandidate(c, Run(c, ops), id, nonce, solution, nowMs, allow).result.Failure?
              && BeginAdmission(Run(c, ops), id, nowMs).result.Failure?
  {
    if Withdraws(e, id) && Applies(c, Run(c, ops[..i]), ops[i], e) && id in Run(c, ops[..i]).entries {
      WithdrawnFrom(c, ops, i, e, id, nonce, solution, nowMs, allow);
    }
  }

  lemma WithdrawnFrom(c: Config, ops: seq<Op>, i: nat, e: BackendEvent, id: JobId,
                      nonce: Hex32, solution: nat, nowMs: nat, allow: bool)
    requires i < |ops| && Withdraws(e, id) && Applies(c, Run(c, ops[..i]), ops[i], e)
    requires id in Run(c, ops[..i]).entries
    ensures BeginZcashCandidate(c, Run(c, ops), id, nonce, solution, nowMs, allow).result.Failure?
    ensures BeginAdmission(Run(c, ops), id, nowMs).result.Failure?
  {
    var r := Run(c, ops[..i]);
    RunInv(c, ops[..i]);
    WithdrawalBans(c, r, e, ops[i].anchorMs,
                   if ops[i].TakeEvent? then ops[i].policyNowMs else Latest(r.lastMonotonicMs, ops[i].anchorMs), id);
    assert ops[..i + 1][..i] == ops[..i];
    RunKeepsBan(c, ops, i + 1, id);
    RunInv(c, ops);
    GrantExactlyWhenQualified(c, Run(c, ops), id, nonce, solution, nowMs, allow);
    TerminalNeverAdmitted(c, ops, i + 1, id, nowMs);
  }
}
