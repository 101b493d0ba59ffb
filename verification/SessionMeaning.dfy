/** What each session operation does to the jobs a miner may submit on, and exactly which shares are prepared. */
module SessionMeaning {
  import opened Bytes
  import opened Common
  import opened Protocol
  import opened Target
  import opened Session
  import N = Nonce
  import G = GenerationRegistry
  import RM = RegistryModel
  import RI = RegistryInvariant
  import RR = RegistryRuns
  import RW = RegistryMeaning
  import RO = RegistryOutcomes

  // ---------------------------------------------------------------- the jobs a session holds

  /** The announcement takes effect: an authorized session, an unheld job and room. */
  predicate Announces(v: View, maximum: nat, a: JobAssignment) {
    v.state == Authorized && Held(v, a.generationId).None? && |v.announced| < maximum
  }

  /** The job that a full recovery queue loses to a newly retired one. */
  predicate Displaced(v: View, retired: JobId, id: JobId) {
    && Find(v.announced, retired).Some? && |v.recovery| == MAXIMUM_RECOVERY_JOBS
    && v.recovery[MAXIMUM_RECOVERY_JOBS - 1].generationId == id
  }

  /** The assignment under which a job is held after an operation. */
  function HeldAfter(v: View, maximum: nat, op: Op, id: JobId): Option<JobAssignment> {
    match op
    case Announce(a) => if id == a.generationId && Announces(v, maximum, a) then Some(a) else Held(v, id)
    case Remove(removed) => if id == removed then None else Held(v, id)
    case Retire(retired) => if Displaced(v, retired, id) then None else Held(v, id)
    case Retain(ids) => if id in ids || Find(v.announced, id).Some? then Held(v, id) else None
    case Reject => if v.state == Subscribed then None else Held(v, id)
    case CloseNow => None
    case _ => Held(v, id)
  }

  /** Searching both queues is searching the first, then the second. */
  lemma {:induction false} FindBoth(a: seq<JobAssignment>, b: seq<JobAssignment>, id: JobId)
    ensures Find(a + b, id) == if Find(a, id).Some? then Find(a, id) else Find(b, id)
    decreases |a|
  {
    if |a| == 0 {
      assert a + b == b;
    } else {
      FindBoth(a[1..], b, id);
      assert (a + b)[1..] == a[1..] + b;
    }
  }

  /** In a list of distinct identifiers the search finds an assignment exactly when it is there. */
  lemma FindsMember(list: seq<JobAssignment>, a: JobAssignment)
    requires DistinctIds(list)
    ensures a in list <==> Find(list, a.generationId) == Some(a)
  {
    if a in list {
      var found := Find(list, a.generationId);
      assert found.Some?;
      var i, j :| 0 <= i < |list| && 0 <= j < |list| && list[i] == a && list[j] == found.value;
    }
  }

  lemma SameMembers(a: seq<JobAssignment>, b: seq<JobAssignment>, id: JobId)
    requires DistinctIds(a) && DistinctIds(b)
    requires forall x: JobAssignment :: x.generationId == id ==> (x in a <==> x in b)
    ensures Find(a, id) == Find(b, id)
  {
    if Find(a, id).Some? {
      FindsMember(b, Find(a, id).value);
    } else if Find(b, id).Some? {
      FindsMember(a, Find(b, id).value);
    }
  }

  lemma NoMembers(list: seq<JobAssignment>, id: JobId)
    requires forall x :: x in list ==> x.generationId != id
    ensures Find(list, id).None?
  {
  }

  lemma AnnounceHolds(v: View, maximum: nat, a: JobAssignment, id: JobId)
    requires SessionInv(v, maximum)
    ensures Held(WithJob(v, maximum, a).next, id) == HeldAfter(v, maximum, Announce(a), id)
  {
    var next := WithJob(v, maximum, a).next;
    if Announces(v, maximum, a) {
      assert next.announced + next.recovery == [a] + (v.announced + v.recovery);
    }
  }

  lemma DropFinds(list: seq<JobAssignment>, dropped: JobId, id: JobId)
    requires DistinctIds(list)
    ensures Find(Drop(list, dropped), id) == if id == dropped then None else Find(list, id)
  {
    hide Find, Drop;
    if id == dropped {
      NoMembers(Drop(list, dropped), id);
    } else {
      SameMembers(Drop(list, dropped), list, id);
    }
  }

  lemma KeepFinds(list: seq<JobAssignment>, ids: seq<JobId>, id: JobId)
    requires DistinctIds(list)
    ensures Find(KeepOnly(list, ids), id) == if id in ids then Find(list, id) else None
  {
    hide Find, KeepOnly;
    if id in ids {
      SameMembers(KeepOnly(list, ids), list, id);
    } else {
      NoMembers(KeepOnly(list, ids), id);
    }
  }

  lemma RemoveHolds(v: View, maximum: nat, removed: JobId, id: JobId)
    requires SessionInv(v, maximum)
    ensures Held(Without(v, removed), id) == HeldAfter(v, maximum, Remove(removed), id)
  {
    hide Find, Drop, Apart;
    FindBoth(v.announced, v.recovery, id);
    FindBoth(Drop(v.announced, removed), Drop(v.recovery, removed), id);
    DropFinds(v.announced, removed, id);
    DropFinds(v.recovery, removed, id);
  }

  lemma RetainHolds(v: View, maximum: nat, ids: seq<JobId>, id: JobId)
    requires SessionInv(v, maximum)
    ensures var next := v.(recovery := KeepOnly(v.recovery, ids)); Held(next, id) == HeldAfter(v, maximum, Retain(ids), id)
  {
    hide Find, KeepOnly, Apart;
    FindBoth(v.announced, v.recovery, id);
    FindBoth(v.announced, KeepOnly(v.recovery, ids), id);
    KeepFinds(v.recovery, ids, id);
  }

  lemma RetireHolds(v: View, maximum: nat, retired: JobId, id: JobId)
    requires SessionInv(v, maximum)
    ensures Held(WithRetired(v, retired), id) == HeldAfter(v, maximum, Retire(retired), id)
    ensures Find(WithRetired(v, retired).announced, id) == if id == retired then None else Find(v.announced, id)
  {
    var held := Find(v.announced, retired);
    if held.Some? {
      RetiredQueue(v, maximum, held.value, id);
    }
  }

  lemma RetiredQueue(v: View, maximum: nat, a: JobAssignment, id: JobId)
    requires SessionInv(v, maximum) && Find(v.announced, a.generationId) == Some(a)
    ensures var next := WithRetired(v, a.generationId);
            && Held(next, id) == (if Displaced(v, a.generationId, id) then None else Held(v, id))
            && Find(next.announced, id) == if id == a.generationId then None else Find(v.announced, id)
  {
    hide Drop, DistinctIds;
    var kept := if |v.recovery| == MAXIMUM_RECOVERY_JOBS then v.recovery[..MAXIMUM_RECOVERY_JOBS - 1] else v.recovery;
    var next := WithRetired(v, a.generationId);
    assert next.recovery == [a] + kept;
    FindBoth(v.announced, v.recovery, id);
    FindBoth(Drop(v.announced, a.generationId), [a] + kept, id);
    DropFinds(v.announced, a.generationId, id);
    FindHead(a, kept, id);
    KeptFront(v.recovery, kept, id);
    if id == a.generationId {
      assert a in v.announced;
      NoMembers(v.recovery, id);
    }
  }

  lemma FindHead(a: JobAssignment, list: seq<JobAssignment>, id: JobId)
    ensures Find([a] + list, id) == if a.generationId == id then Some(a) else Find(list, id)
  {
  }

  /** All but the displaced last one stay in the recovery queue. */
  lemma KeptFront(list: seq<JobAssignment>, kept: seq<JobAssignment>, id: JobId)
    requires DistinctIds(list) && |list| <= MAXIMUM_RECOVERY_JOBS
    requires kept == if |list| == MAXIMUM_RECOVERY_JOBS then list[..MAXIMUM_RECOVERY_JOBS - 1] else list
    ensures Find(kept, id) == if |list| == MAXIMUM_RECOVERY_JOBS && list[MAXIMUM_RECOVERY_JOBS - 1].generationId == id then None else Find(list, id)
  {
    if |list| == MAXIMUM_RECOVERY_JOBS {
      assert list == kept + [list[MAXIMUM_RECOVERY_JOBS - 1]];
      FindBoth(kept, [list[MAXIMUM_RECOVERY_JOBS - 1]], id);
      if list[MAXIMUM_RECOVERY_JOBS - 1].generationId == id {
        NoMembers(kept, id);
      }
    }
  }

  /** What every operation leaves held, and under which assignment. */
  lemma NextHolds(v: View, maximum: nat, op: Op, id: JobId)
    requires SessionInv(v, maximum)
    ensures Held(Next(v, maximum, op).next, id) == HeldAfter(v, maximum, op, id)
  {
    hide Find, Displaced, Announces, WithJob, Without, WithRetired, KeepOnly, SessionInv;
    match op
    case Announce(a) => AnnounceHolds(v, maximum, a, id);
    case Remove(removed) => RemoveHolds(v, maximum, removed, id);
    case Retire(retired) => RetireHolds(v, maximum, retired, id);
    case Retain(ids) => RetainHolds(v, maximum, ids, id);
    case Reject => NothingHeld(id);
    case CloseNow => NothingHeld(id);
    case Subscribe(_) =>
    case Authorize(_) =>
  }

  lemma NothingHeld(id: JobId)
    ensures Held(CLOSED, id).None?
  {
  }

  /** The session's worker and prefix are ones some operation of its run brought. */
  lemma {:induction false} IdentityIsClaimed(maximum: nat, ops: seq<Op>)
    ensures var v := Run(maximum, ops);
            && (v.worker.Some? ==> Authorize(v.worker.value) in ops)
            && (v.prefix.Some? ==> Subscribe(Success(v.prefix.value)) in ops)
    decreases |ops|
  {
    if |ops| == 0 {
    } else {
      hide Next;
      var front, last := ops[..|ops| - 1], ops[|ops| - 1];
      IdentityIsClaimed(maximum, front);
      IdentityAfter(Run(maximum, front), maximum, last);
      var v := Run(maximum, ops);
      if v.worker.Some? {
        StillIn(ops, Authorize(v.worker.value));
      }
      if v.prefix.Some? {
        StillIn(ops, Subscribe(Success(v.prefix.value)));
      }
    }
  }

  lemma StillIn(ops: seq<Op>, op: Op)
    requires |ops| > 0 && (op in ops[..|ops| - 1] || op == ops[|ops| - 1])
    ensures op in ops
  {
  }

  lemma IdentityAfter(v: View, maximum: nat, op: Op)
    ensures var v' := Next(v, maximum, op).next;
            && (v'.worker.Some? ==> v'.worker == v.worker || op == Authorize(v'.worker.value))
            && (v'.prefix.Some? ==> v'.prefix == v.prefix || op == Subscribe(Success(v'.prefix.value)))
  {
  }

  /** Which operations are accepted: each in its own state, an exact retry of the authorization, and what was already announced. */
  predicate Accepted(v: View, maximum: nat, op: Op) {
    match op
    case Subscribe(taken) => v.state == Connected && taken.Success?
    case Authorize(claimed) => v.state == Subscribed || v.worker == Some(claimed)
    case Reject => v.state == Subscribed
    case Announce(a) => v.state == Authorized && (Held(v, a.generationId) == Some(a) || Announces(v, maximum, a))
    case _ => true
  }

  /** A refused operation changes nothing; an accepted one leaves the state, prefix and worker it is for. */
  lemma AcceptedExactly(v: View, maximum: nat, op: Op)
    requires SessionInv(v, maximum)
    ensures var s := Next(v, maximum, op);
            && (s.result.Success? <==> Accepted(v, maximum, op))
            && (s.result.Failure? ==> s.next == v)
            && (s.result.Success? ==>
                  (s.next.state, s.next.prefix, s.next.worker)
                  == match op
                     case Subscribe(taken) => (Subscribed, Some(taken.value), None)
                     case Authorize(claimed) => (Authorized, v.prefix, Some(claimed))
                     case Reject => (Closed, None, None)
                     case CloseNow => (Closed, None, None)
                     case _ => (v.state, v.prefix, v.worker))
  {
  }

  // ---------------------------------------------------------------- which shares are prepared

  /** The session's own conditions: an authorized worker's login, a held job, a suffix that fits the prefix. */
  predicate Ready(v: View, claimedLogin: string, jobId: JobId, suffix: seq<byte>) {
    && v.state == Authorized && v.worker.Some? && v.worker.value.canonicalLogin == claimedLogin
    && Held(v, jobId).Some? && v.prefix.Some? && |suffix| == N.SuffixWidth(v.prefix.value.profile)
  }

  /** The generation has the networks the binding was built from and the submitted header time. */
  predicate Suits(g: JobDescriptor, b: TargetBinding, time: nat) {
    LeValue(g.wcashTargetLe) == Value(b.bounds.wcashNetwork) && LeValue(g.zcashTargetLe) == Value(b.bounds.zcashNetwork) && g.header.time == time
  }

  lemma SuitsExactly(g: JobDescriptor, b: TargetBinding, time: nat, jobId: JobId)
    ensures CheckRetained(Some(g), jobId, b, time).None? <==> Suits(g, b, time)
  {
    ReadsBack(g.wcashTargetLe, b.bounds.wcashNetwork);
    ReadsBack(g.zcashTargetLe, b.bounds.zcashNetwork);
  }

  /** On a synchronized registry and a clock that has not gone back, the job is on offer with room in its counter. */
  ghost predicate Open(m: RM.Registry, jobId: JobId, nowMs: nat) {
    && m.synchronized && !RM.Before(nowMs, m.lastMonotonicMs)
    && RW.Offers(RW.BoardOf(m), jobId, nowMs) && jobId in m.entries && RR.Count(m.entries[jobId].storage) < U64_MAX
  }

  /**
   * The registry's condition. In a health pause only qualified candidates pass; otherwise work
   * on offer passes as ordinary, and work no longer on offer as a qualified late winner.
   */
  ghost predicate Passes(c: RM.Config, m: RM.Registry, jobId: JobId, nonce: Hex32, solution: nat, nowMs: nat, pausedOnly: bool) {
    if pausedOnly then RR.Qualifies(c, m, jobId, nonce, solution, nowMs, true)
    else if RW.Offers(RW.BoardOf(m), jobId, nowMs) then Open(m, jobId, nowMs)
    else RR.Qualifies(c, m, jobId, nonce, solution, nowMs, false)
  }

  ghost function RoleFor(m: RM.Registry, jobId: JobId, nowMs: nat, pausedOnly: bool): G.AdmissionRole {
    if pausedOnly then G.PausedZcashCandidate
    else if RW.Offers(RW.BoardOf(m), jobId, nowMs) then G.Ordinary
    else G.HistoricalZcashRecovery
  }

  /** A failed ordinary attempt does not change who qualifies as a late winner. */
  lemma AttemptKeepsQualification(c: RM.Config, m: RM.Registry, jobId: JobId, nonce: Hex32, solution: nat, nowMs: nat, allow: bool)
    requires RI.Inv(c, m) && RM.BeginAdmission(m, jobId, nowMs).result.Failure? && m.synchronized && !RM.Before(nowMs, m.lastMonotonicMs)
    ensures var tried := RM.BeginAdmission(m, jobId, nowMs).next;
            RR.Qualifies(c, tried, jobId, nonce, solution, nowMs, allow) <==> RR.Qualifies(c, m, jobId, nonce, solution, nowMs, allow)
  {
    RR.CurrentSurvives(c, m, nowMs);
  }

  lemma CandidateExactly(c: RM.Config, m: RM.Registry, jobId: JobId, b: TargetBinding, time: nat, nonce: Hex32, solution: nat, nowMs: nat,
                         role: G.AdmissionRole, allow: bool)
    requires RI.Inv(c, m)
    ensures var r := Confirm(CandidateAdmission(c, m, jobId, b, time, nonce, solution, nowMs, role, allow), jobId, b, time).result;
            && (r.Success? <==> jobId in m.entries && Suits(m.entries[jobId].generation, b, time)
                                && RR.Qualifies(c, m, jobId, nonce, solution, nowMs, allow))
            && (r.Success? ==> r.value == Grant(role, m.entries[jobId].generation))
  {
    hide RM.BeginZcashCandidate, MatchesNetworks;
    RR.GrantExactlyWhenQualified(c, m, jobId, nonce, solution, nowMs, allow);
    if jobId in m.entries {
      SuitsExactly(m.entries[jobId].generation, b, time, jobId);
    }
  }

  /** An ordinary attempt that fails other than by staleness fails the submission. */
  lemma LiveExactly(c: RM.Config, m: RM.Registry, jobId: JobId, b: TargetBinding, time: nat, nonce: Hex32, solution: nat, nowMs: nat)
    requires RI.Inv(c, m)
    ensures var r := Confirm(AdmitLive(c, m, jobId, b, time, nonce, solution, nowMs), jobId, b, time).result;
            && (r.Success? <==> jobId in m.entries && Suits(m.entries[jobId].generation, b, time)
                                && Passes(c, m, jobId, nonce, solution, nowMs, false))
            && (r.Success? ==> r.value == Grant(RoleFor(m, jobId, nowMs, false), m.entries[jobId].generation))
  {
    hide RM.BeginAdmission, RM.BeginZcashCandidate, CandidateAdmission, MatchesNetworks, RR.Qualifies, RW.Offers;
    var s := RM.BeginAdmission(m, jobId, nowMs);
    RR.AdmissionExactlyForRoles(c, m, jobId, nowMs);
    RW.OfferedRoles(c, m, jobId, nowMs);
    RO.AdmissionRefusals(c, m, jobId, nowMs);
    if s.result.Success? {
      AdmittedIdentity(c, m, jobId, nowMs);
      SuitsExactly(s.result.value, b, time, jobId);
    } else if s.result.error.StaleJob? {
      RI.AdmissionInv(c, m, jobId, nowMs);
      AttemptKeepsQualification(c, m, jobId, nonce, solution, nowMs, false);
      CandidateExactly(c, s.next, jobId, b, time, nonce, solution, nowMs, G.HistoricalZcashRecovery, false);
      AttemptKeepsGeneration(m, jobId, nowMs);
    } else {
      NotQualified(c, m, jobId, nonce, solution, nowMs);
    }
  }

  lemma AttemptKeepsGeneration(m: RM.Registry, jobId: JobId, nowMs: nat)
    ensures Retained(RM.BeginAdmission(m, jobId, nowMs).next, jobId) == Retained(m, jobId)
  {
  }

  /** What is unknown, or asked on an unusable registry, does not qualify either. */
  lemma NotQualified(c: RM.Config, m: RM.Registry, jobId: JobId, nonce: Hex32, solution: nat, nowMs: nat)
    ensures RM.Before(nowMs, m.lastMonotonicMs) || !m.synchronized || jobId !in m.entries ==>
              !RR.Qualifies(c, m, jobId, nonce, solution, nowMs, false)
  {
  }

  /**
   * A share is prepared exactly when the session is ready for it, the retained generation
   * suits the announced binding and header time, and the registry passes it; the role is
   * decided by the pause and by whether the job is still on offer.
   */
  lemma PreparedExactly(v: View, c: RM.Config, m: RM.Registry, claimedLogin: string, jobId: JobId, time: nat, suffix: seq<byte>,
                        solution: nat, nowMs: nat, pausedOnly: bool)
    requires RI.Inv(c, m)
    ensures var r := Prepare(v, c, m, claimedLogin, jobId, time, suffix, solution, nowMs, pausedOnly).result;
            && (r.Success? <==>
                  && Ready(v, claimedLogin, jobId, suffix)
                  && jobId in m.entries && Suits(m.entries[jobId].generation, Held(v, jobId).value.target, time)
                  && Passes(c, m, jobId, v.prefix.value.bytes + suffix, solution, nowMs, pausedOnly))
            && (r.Success? ==> r.value == Grant(RoleFor(m, jobId, nowMs, pausedOnly), m.entries[jobId].generation))
  {
    hide CandidateAdmission, AdmitLive, Confirm, Suits, RR.Qualifies, RW.Offers, Open;
    if Ready(v, claimedLogin, jobId, suffix) {
      var b, nonce := Held(v, jobId).value.target, v.prefix.value.bytes + suffix;
      LiveExactly(c, m, jobId, b, time, nonce, solution, nowMs);
      CandidateExactly(c, m, jobId, b, time, nonce, solution, nowMs, G.PausedZcashCandidate, true);
    }
  }

  /** A context is re-qualified exactly when its own generation is still retained and still qualifies. */
  lemma RequalifiedExactly(c: RM.Config, m: RM.Registry, grant: Grant, nonce: Hex32, solution: nat, nowMs: nat, recoveryOnly: bool)
    requires RI.Inv(c, m)
    ensures var r, id := Requalify(c, m, grant, nonce, solution, nowMs, recoveryOnly).result, grant.generation.jobId;
            && (r.Success? <==>
                  && Retained(m, id) == Some(grant.generation)
                  && RR.Qualifies(c, m, id, nonce, solution, nowMs, recoveryOnly || grant.role == G.PausedZcashCandidate))
            && (r.Success? ==>
                  r.value.role == if grant.role == G.PausedZcashCandidate || (grant.role == G.Ordinary && recoveryOnly)
                                  then G.PausedZcashCandidate else G.HistoricalZcashRecovery)
  {
    hide RM.BeginZcashCandidate, RR.Qualifies;
    RR.GrantExactlyWhenQualified(c, m, grant.generation.jobId, nonce, solution, nowMs, recoveryOnly || grant.role == G.PausedZcashCandidate);
    KnownWhenQualified(c, m, grant.generation.jobId, nonce, solution, nowMs, recoveryOnly || grant.role == G.PausedZcashCandidate);
  }

  lemma KnownWhenQualified(c: RM.Config, m: RM.Registry, id: JobId, nonce: Hex32, solution: nat, nowMs: nat, allow: bool)
    ensures RR.Qualifies(c, m, id, nonce, solution, nowMs, allow) ==> id in m.entries
  {
  }
}
