/** One miner session: ordered states, frozen target assignments and submission preparation. */
module Session {
  import opened Bytes
  import opened Common
  import opened Protocol
  import opened Target
  import N = Nonce
  import RM = RegistryModel
  import opened GenerationRegistry
  import opened RegistryInvariant

  const MAXIMUM_RECOVERY_JOBS: nat := RM.MAX_ZCASH_WINNER_RECOVERY_JOBS

  datatype SessionState = Connected | Subscribed | Authorized | Closed

  datatype SessionError =
    | NilSessionId
    | InvalidAnnouncedJobLimit
    | UnexpectedState(required: SessionState, actual: SessionState)
    | MissingIdentity
    | MissingNoncePrefix
    | IdentitySwitch
    | LoginMismatch
    | AnnouncedJobConflict(id: JobId)
    | AnnouncedJobCapacity(maximum: nat)
    | JobNotAnnounced(id: JobId)
    | NonceProfileMismatch
    | RegistryAssignmentMismatch(id: JobId)
    | HeaderTimeMismatch(id: JobId)
    | NoncePrefixFailure(cause: N.NonceError)
    | Registry(error: RM.RegistryError)

  datatype AuthenticatedWorker = AuthenticatedWorker(accountId: nat, workerId: nat, canonicalLogin: string, attributionLogin: string)
  {
    function BackendIdentity(): WorkerIdentity {
      WorkerIdentity(accountId, workerId, attributionLogin)
    }
  }

  // ---------------------------------------------------------------- assignments

  datatype JobAssignment = JobAssignment(generationId: JobId, target: TargetBinding)

  /** The binding was built from exactly this generation's two network targets. */
  predicate MatchesNetworks(g: JobDescriptor, b: TargetBinding) {
    && FromBackend(g.wcashTargetLe) == Success(b.bounds.wcashNetwork)
    && FromBackend(g.zcashTargetLe) == Success(b.bounds.zcashNetwork)
  }

  function NewAssignment(g: JobDescriptor, b: TargetBinding): (r: Result<JobAssignment, SessionError>)
    requires b.Valid()
    ensures r.Success? <==> LeValue(g.wcashTargetLe) == Value(b.bounds.wcashNetwork)
                            && LeValue(g.zcashTargetLe) == Value(b.bounds.zcashNetwork)
    ensures r.Success? ==> r.value == JobAssignment(g.jobId, b)
    ensures r.Success? ==> LeValue(g.wcashTargetLe) <= Value(b.target) && LeValue(g.zcashTargetLe) <= Value(b.target)
  {
    BindingNeverHarderThanNetworks(b);
    ReadsBack(g.wcashTargetLe, b.bounds.wcashNetwork);
    ReadsBack(g.zcashTargetLe, b.bounds.zcashNetwork);
    if MatchesNetworks(g, b) then Success(JobAssignment(g.jobId, b)) else Failure(RegistryAssignmentMismatch(g.jobId))
  }

  /** A backend target reads as `t` exactly when it has `t`'s value. */
  lemma ReadsBack(le: seq<byte>, t: ShareTarget)
    requires |le| == 32
    ensures FromBackend(le) == Success(t) <==> LeValue(le) == Value(t)
  {
    if FromBackend(le).Success? {
      var read := FromBackend(le).value;
      if Value(read) == Value(t) {
        BeValueInjective(read, t);
      }
    }
  }

  predicate DistinctIds(list: seq<JobAssignment>) {
    forall i, j :: 0 <= i < j < |list| ==> list[i].generationId != list[j].generationId
  }

  /** The first assignment of `id`, as the chained search over both queues finds it. */
  function Find(list: seq<JobAssignment>, id: JobId): (o: Option<JobAssignment>)
    ensures o.Some? ==> o.value in list && o.value.generationId == id
    ensures o.None? ==> forall i :: 0 <= i < |list| ==> list[i].generationId != id
  {
    if |list| == 0 then None else if list[0].generationId == id then Some(list[0]) else Find(list[1..], id)
  }

  function Drop(list: seq<JobAssignment>, id: JobId): (r: seq<JobAssignment>)
    ensures |r| <= |list|
    ensures forall a :: a in r <==> a in list && a.generationId != id
    ensures DistinctIds(list) ==> DistinctIds(r)
  {
    if |list| == 0 then []
    else
      var front := Drop(list[..|list| - 1], id);
      assert list == list[..|list| - 1] + [list[|list| - 1]];
      if list[|list| - 1].generationId == id then front else front + [list[|list| - 1]]
  }

  function KeepOnly(list: seq<JobAssignment>, ids: seq<JobId>): (r: seq<JobAssignment>)
    ensures |r| <= |list|
    ensures forall a :: a in r <==> a in list && a.generationId in ids
    ensures DistinctIds(list) ==> DistinctIds(r)
  {
    if |list| == 0 then []
    else
      var front := KeepOnly(list[..|list| - 1], ids);
      assert list == list[..|list| - 1] + [list[|list| - 1]];
      if list[|list| - 1].generationId in ids then front + [list[|list| - 1]] else front
  }

  // ---------------------------------------------------------------- session state

  datatype View = View(
    state: SessionState,
    prefix: Option<N.NoncePrefix>,
    worker: Option<AuthenticatedWorker>,
    announced: seq<JobAssignment>,
    recovery: seq<JobAssignment>)

  function Rank(s: SessionState): nat {
    match s
    case Connected => 0
    case Subscribed => 1
    case Authorized => 2
    case Closed => 3
  }

  ghost predicate Apart(announced: seq<JobAssignment>, recovery: seq<JobAssignment>) {
    forall a, b :: a in announced && b in recovery ==> a.generationId != b.generationId
  }

  ghost predicate SessionInv(v: View, maximum: nat) {
    && (v.prefix.Some? <==> v.state == Subscribed || v.state == Authorized)
    && (v.worker.Some? <==> v.state == Authorized)
    && (v.state != Authorized ==> v.announced == [] && v.recovery == [])
    && |v.announced| <= maximum && |v.recovery| <= MAXIMUM_RECOVERY_JOBS
    && DistinctIds(v.announced) && DistinctIds(v.recovery) && Apart(v.announced, v.recovery)
    && (forall a :: a in v.announced || a in v.recovery ==> a.target.Valid())
  }

  /** States only move forward; prefix and identity are fixed until closure; closure is final. */
  ghost predicate Progresses(v: View, v': View) {
    && Rank(v.state) <= Rank(v'.state)
    && (v.prefix.Some? && v'.state != Closed ==> v'.prefix == v.prefix)
    && (v.worker.Some? && v'.state != Closed ==> v'.worker == v.worker)
  }

  lemma ProgressTransitive(a: View, b: View, d: View)
    requires Progresses(a, b) && Progresses(b, d)
    ensures Progresses(a, d)
  {
  }

  // ---------------------------------------------------------------- session operations

  /** Every operation that changes a session; preparing a submission changes only the registry. */
  datatype Op =
    | Subscribe(taken: Result<N.NoncePrefix, N.NonceError>)
    | Authorize(claimed: AuthenticatedWorker)
    | Reject
    | Announce(assignment: JobAssignment)
    | Remove(id: JobId)
    | Retire(id: JobId)
    | Retain(ids: seq<JobId>)
    | CloseNow

  datatype SessionStep = SessionStep(next: View, result: Result<(), SessionError>)

  const OPENED: View := View(Connected, None, None, [], [])
  const CLOSED: View := View(Closed, None, None, [], [])

  function Next(v: View, maximum: nat, op: Op): (s: SessionStep) {
    match op
    case Subscribe(taken) => WithPrefix(v, taken)
    case Authorize(claimed) => WithWorker(v, claimed)
    case Reject =>
      if v.state != Subscribed then SessionStep(v, Failure(UnexpectedState(Subscribed, v.state)))
      else SessionStep(CLOSED, Success(()))
    case Announce(assignment) => WithJob(v, maximum, assignment)
    case Remove(id) => SessionStep(Without(v, id), Success(()))
    case Retire(id) => SessionStep(WithRetired(v, id), Success(()))
    case Retain(ids) => SessionStep(v.(recovery := KeepOnly(v.recovery, ids)), Success(()))
    case CloseNow => SessionStep(CLOSED, Success(()))
  }

  function WithPrefix(v: View, taken: Result<N.NoncePrefix, N.NonceError>): SessionStep {
    if v.state != Connected then SessionStep(v, Failure(UnexpectedState(Connected, v.state)))
    else if taken.Failure? then SessionStep(v, Failure(NoncePrefixFailure(taken.error)))
    else SessionStep(v.(state := Subscribed, prefix := Some(taken.value)), Success(()))
  }

  /** An exact retry is idempotent; another identity is refused. */
  function WithWorker(v: View, claimed: AuthenticatedWorker): SessionStep {
    if v.state == Subscribed then SessionStep(v.(state := Authorized, worker := Some(claimed)), Success(()))
    else if v.state != Authorized then SessionStep(v, Failure(UnexpectedState(Subscribed, v.state)))
    else if v.worker == Some(claimed) then SessionStep(v, Success(()))
    else SessionStep(v, Failure(IdentitySwitch))
  }

  /** The assignment under which a job is held, ordinary ones first. */
  function Held(v: View, id: JobId): Option<JobAssignment> {
    Find(v.announced + v.recovery, id)
  }

  function WithJob(v: View, maximum: nat, assignment: JobAssignment): SessionStep {
    var held := Held(v, assignment.generationId);
    if v.state != Authorized then SessionStep(v, Failure(UnexpectedState(Authorized, v.state)))
    else if held == Some(assignment) then SessionStep(v, Success(()))
    else if held.Some? then SessionStep(v, Failure(AnnouncedJobConflict(assignment.generationId)))
    else if |v.announced| == maximum then SessionStep(v, Failure(AnnouncedJobCapacity(maximum)))
    else SessionStep(v.(announced := [assignment] + v.announced), Success(()))
  }

  function Without(v: View, id: JobId): View {
    v.(announced := Drop(v.announced, id), recovery := Drop(v.recovery, id))
  }

  /** The job moves, binding unchanged, to the front of the bounded recovery queue. */
  function WithRetired(v: View, id: JobId): View {
    var held := Find(v.announced, id);
    if held.None? then v
    else
      v.(announced := Drop(v.announced, id),
         recovery := [held.value] + (if |v.recovery| == MAXIMUM_RECOVERY_JOBS then v.recovery[..MAXIMUM_RECOVERY_JOBS - 1] else v.recovery))
  }

  /** What the constructor of target bindings guarantees of an operation's arguments. */
  ghost predicate Constructible(op: Op) {
    op.Announce? ==> op.assignment.target.Valid()
  }

  lemma WithJobInv(v: View, maximum: nat, assignment: JobAssignment)
    requires SessionInv(v, maximum) && assignment.target.Valid()
    ensures SessionInv(WithJob(v, maximum, assignment).next, maximum)
  {
    if Held(v, assignment.generationId).None? {
      AbsentFromBoth(v.announced, v.recovery, assignment.generationId);
    }
  }

  lemma WithoutInv(v: View, maximum: nat, id: JobId)
    requires SessionInv(v, maximum)
    ensures SessionInv(Without(v, id), maximum)
  {
  }

  lemma WithRetiredInv(v: View, maximum: nat, id: JobId)
    requires SessionInv(v, maximum)
    ensures SessionInv(WithRetired(v, id), maximum)
  {
    var held := Find(v.announced, id);
    if held.Some? {
      var kept := if |v.recovery| == MAXIMUM_RECOVERY_JOBS then v.recovery[..MAXIMUM_RECOVERY_JOBS - 1] else v.recovery;
      assert forall a :: a in kept ==> a in v.recovery;
      FrontDistinct(held.value, kept);
    }
  }

  lemma FrontDistinct(a: JobAssignment, list: seq<JobAssignment>)
    requires DistinctIds(list) && forall b :: b in list ==> b.generationId != a.generationId
    ensures DistinctIds([a] + list)
  {
  }

  /** Every operation, accepted or refused, keeps the session consistent and moving forward. */
  lemma NextInv(v: View, maximum: nat, op: Op)
    requires SessionInv(v, maximum) && Constructible(op)
    ensures SessionInv(Next(v, maximum, op).next, maximum) && Progresses(v, Next(v, maximum, op).next)
  {
    match op
    case Announce(assignment) => WithJobInv(v, maximum, assignment);
    case Remove(id) => WithoutInv(v, maximum, id);
    case Retire(id) => WithRetiredInv(v, maximum, id);
    case _ =>
  }

  /** A session after a run from its opening. */
  function Run(maximum: nat, ops: seq<Op>): View {
    if |ops| == 0 then OPENED else Next(Run(maximum, ops[..|ops| - 1]), maximum, ops[|ops| - 1]).next
  }

  ghost predicate AllConstructible(ops: seq<Op>) {
    forall i :: 0 <= i < |ops| ==> Constructible(ops[i])
  }

  lemma {:induction false} RunInv(maximum: nat, ops: seq<Op>)
    requires AllConstructible(ops)
    ensures SessionInv(Run(maximum, ops), maximum)
    decreases |ops|
  {
    if |ops| == 0 {
    } else {
      RunInv(maximum, ops[..|ops| - 1]);
      NextInv(Run(maximum, ops[..|ops| - 1]), maximum, ops[|ops| - 1]);
    }
  }

  /**
   * Between any two points of any run of operations a session only moves forward, and keeps
   * its nonce prefix and its worker until it closes; a closed session stays empty.
   */
  lemma {:induction false} RunProgresses(maximum: nat, ops: seq<Op>, i: nat)
    requires AllConstructible(ops) && i <= |ops|
    ensures Progresses(Run(maximum, ops[..i]), Run(maximum, ops))
    ensures Run(maximum, ops[..i]).state == Closed ==> Run(maximum, ops) == CLOSED
    decreases |ops|
  {
    RunInv(maximum, ops);
    if i == |ops| {
      assert ops[..i] == ops;
    } else {
      var front := ops[..|ops| - 1];
      assert front[..i] == ops[..i];
      RunProgresses(maximum, front, i);
      RunInv(maximum, front);
      NextInv(Run(maximum, front), maximum, ops[|ops| - 1]);
      ProgressTransitive(Run(maximum, ops[..i]), Run(maximum, front), Run(maximum, ops));
    }
  }

  // ---------------------------------------------------------------- frozen bindings

  /** In a consistent session an identifier has one assignment, and the search finds it. */
  lemma HeldExactly(v: View, maximum: nat, a: JobAssignment)
    requires SessionInv(v, maximum)
    ensures a in v.announced || a in v.recovery <==> Held(v, a.generationId) == Some(a)
  {
    var all := v.announced + v.recovery;
    var held := Find(all, a.generationId);
    assert a in all <==> a in v.announced || a in v.recovery;
    if a in all {
      assert held.Some?;
      assert held.value in all;
      OneOwner(v.announced, v.recovery, a, held.value);
    }
  }

  lemma OneOwner(announced: seq<JobAssignment>, recovery: seq<JobAssignment>, a: JobAssignment, b: JobAssignment)
    requires DistinctIds(announced) && DistinctIds(recovery) && Apart(announced, recovery)
    requires a in announced + recovery && b in announced + recovery && a.generationId == b.generationId
    ensures a == b
  {
    assert a in announced || a in recovery;
    assert b in announced || b in recovery;
  }

  /** One operation never changes the binding of a job it leaves held. */
  lemma NextKeepsBinding(v: View, maximum: nat, op: Op, a: JobAssignment)
    requires SessionInv(v, maximum) && Constructible(op) && Held(v, a.generationId) == Some(a)
    ensures var after := Held(Next(v, maximum, op).next, a.generationId); after.None? || after == Some(a)
  {
    var v' := Next(v, maximum, op).next;
    NextInv(v, maximum, op);
    HeldExactly(v, maximum, a);
    var after := Held(v', a.generationId);
    if after.Some? {
      HeldExactly(v', maximum, after.value);
      ListsShrink(v, maximum, op, after.value);
      HeldExactly(v, maximum, after.value);
    }
  }

  /** What an operation leaves listed was listed before, or is the job just announced. */
  lemma ListsShrink(v: View, maximum: nat, op: Op, b: JobAssignment)
    requires b in Next(v, maximum, op).next.announced || b in Next(v, maximum, op).next.recovery
    ensures b in v.announced || b in v.recovery
            || (op.Announce? && op.assignment == b && Held(v, b.generationId).None?)
  {
  }

  /** A job held throughout a stretch of any run keeps the exact binding it was announced with. */
  lemma {:induction false} BindingIsFrozen(maximum: nat, ops: seq<Op>, i: nat, a: JobAssignment)
    requires AllConstructible(ops) && i <= |ops| && Held(Run(maximum, ops[..i]), a.generationId) == Some(a)
    requires forall k :: i <= k <= |ops| ==> Held(Run(maximum, ops[..k]), a.generationId).Some?
    ensures Held(Run(maximum, ops), a.generationId) == Some(a)
    decreases |ops|
  {
    if i == |ops| {
      assert ops[..i] == ops;
    } else {
      var front := ops[..|ops| - 1];
      assert ops[..|ops|] == ops;
      assert forall k :: 0 <= k <= |front| ==> front[..k] == ops[..k];
      BindingIsFrozen(maximum, front, i, a);
      RunInv(maximum, front);
      NextKeepsBinding(Run(maximum, front), maximum, ops[|ops| - 1], a);
    }
  }

  // ---------------------------------------------------------------- submissions

  /** Validated fields of one submission, holding its admission guard. */
  datatype SubmissionContext = SubmissionContext(
    identity: WorkerIdentity,
    targetLe: seq<byte>,
    time: nat,
    nonce: Hex32,
    solution: nat,
    admission: GenerationAdmission)
  {
    function Generation(): JobDescriptor {
      admission.resource.generation
    }

    /** The target is at least as easy as both network targets, and the header time is exact. */
    predicate Sound() {
      && |targetLe| == 32
      && LeValue(Generation().wcashTargetLe) <= LeValue(targetLe)
      && LeValue(Generation().zcashTargetLe) <= LeValue(targetLe)
      && time == Generation().header.time
    }
  }

  /** An admission as the registry model sees it. */
  datatype Grant = Grant(role: AdmissionRole, generation: JobDescriptor)

  datatype Admitted = Admitted(next: RM.Registry, result: Result<Grant, SessionError>)

  /** The checks a retained generation passes before a late-winner admission is even tried. */
  function CheckRetained(retained: Option<JobDescriptor>, jobId: JobId, binding: TargetBinding, time: nat)
    : (refused: Option<SessionError>)
  {
    if retained.None? then Some(Registry(RM.UnknownJob(jobId)))
    else if !MatchesNetworks(retained.value, binding) then Some(RegistryAssignmentMismatch(jobId))
    else if retained.value.header.time != time then Some(HeaderTimeMismatch(jobId))
    else None
  }

  function Retained(m: RM.Registry, jobId: JobId): Option<JobDescriptor> {
    if jobId in m.entries then Some(m.entries[jobId].generation) else None
  }

  /** The late-winner admission, once the retained generation has been checked. */
  function CandidateAdmission(c: RM.Config, m: RM.Registry, jobId: JobId, binding: TargetBinding, time: nat, nonce: Hex32,
                          solution: nat, nowMs: nat, role: AdmissionRole, allowNoCurrent: bool): (a: Admitted)
  {
    var refused := CheckRetained(Retained(m, jobId), jobId, binding, time);
    if refused.Some? then Admitted(m, Failure(refused.value))
    else
      var s := RM.BeginZcashCandidate(c, m, jobId, nonce, solution, nowMs, allowNoCurrent);
      Admitted(s.next, if s.result.Failure? then Failure(Registry(s.result.error)) else Success(Grant(role, s.result.value)))
  }

  /** The ordinary admission, or the late-winner one when the job is merely stale. */
  function AdmitLive(c: RM.Config, m: RM.Registry, jobId: JobId, binding: TargetBinding, time: nat, nonce: Hex32,
                     solution: nat, nowMs: nat): (a: Admitted)
  {
    AfterOrdinary(c, RM.BeginAdmission(m, jobId, nowMs), jobId, binding, time, nonce, solution, nowMs)
  }

  function AfterOrdinary(c: RM.Config, s: RM.Step<JobDescriptor>, jobId: JobId, binding: TargetBinding, time: nat, nonce: Hex32,
                         solution: nat, nowMs: nat): (a: Admitted)
  {
    if s.result.Success? then Admitted(s.next, Success(Grant(Ordinary, s.result.value)))
    else if !s.result.error.StaleJob? then Admitted(s.next, Failure(Registry(s.result.error)))
    else CandidateAdmission(c, s.next, jobId, binding, time, nonce, solution, nowMs, HistoricalZcashRecovery, false)
  }

  function Admit(c: RM.Config, m: RM.Registry, jobId: JobId, binding: TargetBinding, time: nat, nonce: Hex32,
                 solution: nat, nowMs: nat, pausedOnly: bool): (a: Admitted)
  {
    if pausedOnly then CandidateAdmission(c, m, jobId, binding, time, nonce, solution, nowMs, PausedZcashCandidate, true)
    else AdmitLive(c, m, jobId, binding, time, nonce, solution, nowMs)
  }

  /** The final checks; a guard that fails them is dropped again. */
  function Confirm(a: Admitted, jobId: JobId, binding: TargetBinding, time: nat): (b: Admitted) {
    if a.result.Failure? then a
    else
      var refused := CheckRetained(Some(a.result.value.generation), jobId, binding, time);
      if refused.None? then a
      else Admitted(if a.result.value.role == Ordinary then RM.Release(a.next, a.result.value.generation.jobId) else a.next,
                    Failure(refused.value))
  }

  /** The whole decision on one submission, as session and registry stand. */
  function Prepare(v: View, c: RM.Config, m: RM.Registry, claimedLogin: string, jobId: JobId, time: nat, suffix: seq<byte>,
                   solution: nat, nowMs: nat, pausedOnly: bool): (a: Admitted)
  {
    if v.state != Authorized then Admitted(m, Failure(UnexpectedState(Authorized, v.state)))
    else if v.worker.None? then Admitted(m, Failure(MissingIdentity))
    else if v.prefix.None? then Admitted(m, Failure(MissingNoncePrefix))
    else if claimedLogin != v.worker.value.canonicalLogin then Admitted(m, Failure(LoginMismatch))
    else
      var assignment := Find(v.announced + v.recovery, jobId);
      if assignment.None? then Admitted(m, Failure(JobNotAnnounced(jobId)))
      else
        var nonce := N.JoinNonce(v.prefix.value, suffix);
        if nonce.Failure? then Admitted(m, Failure(NonceProfileMismatch))
        else
          Confirm(Admit(c, m, jobId, assignment.value.target, time, nonce.value, solution, nowMs, pausedOnly),
                  jobId, assignment.value.target, time)
  }

  /** Re-qualifying an admission for candidate forwarding; an ordinary guard is dropped on either outcome. */
  function Requalify(c: RM.Config, m: RM.Registry, grant: Grant, nonce: Hex32, solution: nat, nowMs: nat, recoveryOnly: bool)
    : (a: Admitted)
    ensures a.result.Success? ==> a.result.value.generation == grant.generation && a.result.value.role != Ordinary
  {
    var jobId, paused := grant.generation.jobId, StaysPaused(grant.role, recoveryOnly);
    var s := RM.BeginZcashCandidate(c, m, jobId, nonce, solution, nowMs, paused || recoveryOnly);
    Admitted(if grant.role == Ordinary then RM.Release(s.next, jobId) else s.next,
             if s.result.Failure? then Failure(Registry(s.result.error))
             else if s.result.value != grant.generation then Failure(RegistryAssignmentMismatch(jobId))
             else Success(Grant(if paused then PausedZcashCandidate else HistoricalZcashRecovery, s.result.value)))
  }

  /** Re-qualification as a candidate forwarded during a health pause. */
  predicate StaysPaused(role: AdmissionRole, recoveryOnly: bool) {
    role == PausedZcashCandidate || (role == Ordinary && recoveryOnly)
  }

  lemma ClockKeepsCounts(m: RM.Registry, nowMs: nat, id: JobId)
    ensures RM.InFlight(RM.Gate(m, nowMs).next, id) == RM.InFlight(m, id)
  {
  }

  lemma CandidateKeepsCounts(c: RM.Config, m: RM.Registry, jobId: JobId, binding: TargetBinding, time: nat, nonce: Hex32,
                             solution: nat, nowMs: nat, role: AdmissionRole, allow: bool, id: JobId)
    ensures RM.InFlight(CandidateAdmission(c, m, jobId, binding, time, nonce, solution, nowMs, role, allow).next, id) == RM.InFlight(m, id)
  {
    ClockKeepsCounts(m, nowMs, id);
  }

  /** A refused or released ordinary admission leaves every count where it was. */
  lemma AdmitThenRelease(m: RM.Registry, jobId: JobId, nowMs: nat, id: JobId)
    ensures var s := RM.BeginAdmission(m, jobId, nowMs);
            RM.InFlight(if s.result.Success? then RM.Release(s.next, jobId) else s.next, id) == RM.InFlight(m, id)
  {
    ClockKeepsCounts(m, nowMs, id);
  }

  /** Every failing preparation, wherever it fails, leaves all in-flight counts unchanged. */
  lemma FailedPrepareKeepsCounts(v: View, maximum: nat, c: RM.Config, m: RM.Registry, claimedLogin: string, jobId: JobId, time: nat,
                                 suffix: seq<byte>, solution: nat, nowMs: nat, pausedOnly: bool, id: JobId)
    requires SessionInv(v, maximum) && Inv(c, m)
    ensures var a := Prepare(v, c, m, claimedLogin, jobId, time, suffix, solution, nowMs, pausedOnly);
            a.result.Failure? ==> RM.InFlight(a.next, id) == RM.InFlight(m, id)
  {
    var assignment := Find(v.announced + v.recovery, jobId);
    if v.prefix.Some? && assignment.Some? && N.JoinNonce(v.prefix.value, suffix).Success? {
      var binding, nonce := assignment.value.target, N.JoinNonce(v.prefix.value, suffix).value;
      FailedConfirmKeepsCounts(c, m, jobId, binding, time, nonce, solution, nowMs, pausedOnly, id);
    }
  }

  lemma FailedConfirmKeepsCounts(c: RM.Config, m: RM.Registry, jobId: JobId, binding: TargetBinding, time: nat, nonce: Hex32,
                                 solution: nat, nowMs: nat, pausedOnly: bool, id: JobId)
    requires Inv(c, m)
    ensures var a := Confirm(Admit(c, m, jobId, binding, time, nonce, solution, nowMs, pausedOnly), jobId, binding, time);
            a.result.Failure? ==> RM.InFlight(a.next, id) == RM.InFlight(m, id)
  {
    hide Inv, RM.BeginAdmission, RM.BeginZcashCandidate;
    if pausedOnly {
      CandidateKeepsCounts(c, m, jobId, binding, time, nonce, solution, nowMs, PausedZcashCandidate, true, id);
    } else {
      var s := RM.BeginAdmission(m, jobId, nowMs);
      AdmitThenRelease(m, jobId, nowMs, id);
      if s.result.Success? {
        AdmittedIdentity(c, m, jobId, nowMs);
      } else {
        CandidateKeepsCounts(c, s.next, jobId, binding, time, nonce, solution, nowMs, HistoricalZcashRecovery, false, id);
      }
    }
  }

  lemma AdmittedIdentity(c: RM.Config, m: RM.Registry, jobId: JobId, nowMs: nat)
    requires Inv(c, m) && RM.BeginAdmission(m, jobId, nowMs).result.Success?
    ensures RM.BeginAdmission(m, jobId, nowMs).result.value.jobId == jobId
    ensures Retained(m, jobId) == Some(RM.BeginAdmission(m, jobId, nowMs).result.value)
  {
    assert WellFormedEntry(jobId, m.entries[jobId]);
  }

  /** Every prepared submission's announced target is at least as easy as both networks of its generation. */
  lemma PreparedTargetIsEasyEnough(v: View, maximum: nat, c: RM.Config, m: RM.Registry, claimedLogin: string, jobId: JobId, time: nat,
                                   suffix: seq<byte>, solution: nat, nowMs: nat, pausedOnly: bool)
    requires SessionInv(v, maximum)
    ensures var r := Prepare(v, c, m, claimedLogin, jobId, time, suffix, solution, nowMs, pausedOnly).result;
            var assignment := Find(v.announced + v.recovery, jobId);
            r.Success? ==> assignment.Some? && EasyEnough(r.value.generation, assignment.value.target.target, time)
  {
    hide Admit, Find;
    var assignment := Find(v.announced + v.recovery, jobId);
    if v.prefix.Some? && assignment.Some? && N.JoinNonce(v.prefix.value, suffix).Success? {
      var binding, nonce := assignment.value.target, N.JoinNonce(v.prefix.value, suffix).value;
      ConfirmedIsEasyEnough(Admit(c, m, jobId, binding, time, nonce, solution, nowMs, pausedOnly), jobId, binding, time);
    }
  }

  /** The target, as the backend reads it, excludes no winner of either chain for `g`. */
  predicate EasyEnough(g: JobDescriptor, t: ShareTarget, time: nat) {
    LeValue(g.wcashTargetLe) <= LeValue(ToBackend(t)) && LeValue(g.zcashTargetLe) <= LeValue(ToBackend(t)) && g.header.time == time
  }

  lemma ConfirmedIsEasyEnough(a: Admitted, jobId: JobId, binding: TargetBinding, time: nat)
    requires binding.Valid()
    ensures var r := Confirm(a, jobId, binding, time).result; r.Success? ==> EasyEnough(r.value.generation, binding.target, time)
  {
    BindingNeverHarderThanNetworks(binding);
  }

  /** A concrete guard, or error, realizing a model-level admission. */
  predicate Realizes(r: Result<GenerationAdmission, SessionError>, spec: Result<Grant, SessionError>) {
    if spec.Failure? then r.Failure? && r.error == spec.error
    else r.Success? && r.value.role == spec.value.role && r.value.resource.generation == spec.value.generation
  }

  function HeldBy(role: AdmissionRole, resource: Resource): multiset<Resource> {
    if role == Ordinary then multiset{resource} else multiset{}
  }

  function AdmissionOf(r: Result<SubmissionContext, SessionError>): Result<GenerationAdmission, SessionError> {
    if r.Failure? then Failure(r.error) else Success(r.value.admission)
  }

  /** The guard a result carries, if any. */
  function HeldOn(r: Result<GenerationAdmission, SessionError>): multiset<Resource> {
    if r.Success? then HeldBy(r.value.role, r.value.resource) else multiset{}
  }

  class MiningSession {
    const id: nat
    const maximumAnnouncedJobs: nat
    var state: SessionState
    var noncePrefix: Option<N.NoncePrefix>
    var worker: Option<AuthenticatedWorker>
    var announcedJobs: seq<JobAssignment>
    var winnerRecoveryJobs: seq<JobAssignment>

    ghost function Abs(): View
      reads this
    {
      View(state, noncePrefix, worker, announcedJobs, winnerRecoveryJobs)
    }

    ghost predicate Valid()
      reads this
    {
      SessionInv(Abs(), maximumAnnouncedJobs)
    }

    constructor Opened(id: nat, maximum: nat)
      requires id != 0 && maximum != 0
      ensures Valid() && this.id == id && maximumAnnouncedJobs == maximum
      ensures Abs() == OPENED
    {
      this.id := id;
      maximumAnnouncedJobs := maximum;
      state := Connected;
      noncePrefix, worker := None, None;
      announcedJobs, winnerRecoveryJobs := [], [];
    }

    static method New(id: nat, maximum: nat) returns (r: Result<MiningSession, SessionError>)
      ensures r.Success? <==> id != 0 && maximum != 0
      ensures r.Success? ==> fresh(r.value) && r.value.Valid() && r.value.Abs() == OPENED
    {
      if id == 0 {
        return Failure(NilSessionId);
      }
      if maximum == 0 {
        return Failure(InvalidAnnouncedJobLimit);
      }
      var session := new MiningSession.Opened(id, maximum);
      return Success(session);
    }

    /** Allocates the session's own nonce prefix; nothing is taken out of order. */
    method Subscribe(allocator: N.NoncePrefixAllocator) returns (r: Result<N.NoncePrefix, SessionError>)
      requires Valid() && allocator.Valid()
      modifies this, allocator
      ensures Valid() && allocator.Valid()
      ensures var taken := N.Take(allocator.profile, allocator.lease, old(allocator.Abs()));
              && SessionStep(Abs(), if r.Success? then Success(()) else Failure(r.error))
                 == Next(old(Abs()), maximumAnnouncedJobs, Op.Subscribe(taken.result))
              && (r.Success? ==> taken.result == Success(r.value))
              && allocator.Abs() == if old(state) == Connected then taken.left else old(allocator.Abs())
      ensures allocator.issued == old(allocator.issued) + (if r.Success? then [old(allocator.next)] else [])
    {
      if state != Connected {
        return Failure(UnexpectedState(Connected, state));
      }
      var taken := allocator.Allocate();
      if taken.Failure? {
        return Failure(NoncePrefixFailure(taken.error));
      }
      noncePrefix := Some(taken.value);
      state := Subscribed;
      return Success(taken.value);
    }

    method CompleteAuthorization(claimed: AuthenticatedWorker) returns (r: Result<(), SessionError>)
      requires Valid()
      modifies this
      ensures Valid() && SessionStep(Abs(), r) == Next(old(Abs()), maximumAnnouncedJobs, Authorize(claimed))
    {
      match state
      case Subscribed =>
        worker := Some(claimed);
        state := Authorized;
        return Success(());
      case Authorized =>
        if worker == Some(claimed) {
          return Success(());
        }
        return Failure(IdentitySwitch);
      case _ =>
        return Failure(UnexpectedState(Subscribed, state));
    }

    method RejectAuthorization() returns (r: Result<(), SessionError>)
      requires Valid()
      modifies this
      ensures Valid() && SessionStep(Abs(), r) == Next(old(Abs()), maximumAnnouncedJobs, Reject)
    {
      if state != Subscribed {
        return Failure(UnexpectedState(Subscribed, state));
      }
      Close();
      return Success(());
    }

    method Close()
      modifies this
      ensures Valid() && Abs() == Next(old(Abs()), maximumAnnouncedJobs, CloseNow).next
    {
      state := Closed;
      worker := None;
      noncePrefix := None;
      announcedJobs := [];
      winnerRecoveryJobs := [];
    }

    /** Announces work under one frozen binding; an identifier never gets a second one while held. */
    method AnnounceJob(assignment: JobAssignment) returns (r: Result<(), SessionError>)
      requires Valid() && assignment.target.Valid()
      modifies this`announcedJobs
      ensures Valid() && SessionStep(Abs(), r) == Next(old(Abs()), maximumAnnouncedJobs, Announce(assignment))
      ensures r.Success? ==> Held(Abs(), assignment.generationId) == Some(assignment)
    {
      if state != Authorized {
        return Failure(UnexpectedState(Authorized, state));
      }
      var existing := Find(announcedJobs + winnerRecoveryJobs, assignment.generationId);
      if existing.Some? {
        if existing.value == assignment {
          return Success(());
        }
        return Failure(AnnouncedJobConflict(assignment.generationId));
      }
      if |announcedJobs| == maximumAnnouncedJobs {
        return Failure(AnnouncedJobCapacity(maximumAnnouncedJobs));
      }
      WithJobInv(Abs(), maximumAnnouncedJobs, assignment);
      announcedJobs := [assignment] + announcedJobs;
      assert (announcedJobs + winnerRecoveryJobs)[0] == assignment;
      return Success(());
    }

    method RemoveAnnouncedJob(jobId: JobId) returns (removed: bool)
      requires Valid()
      modifies this`announcedJobs, this`winnerRecoveryJobs
      ensures Valid() && Abs() == Next(old(Abs()), maximumAnnouncedJobs, Remove(jobId)).next
      ensures removed <==> Find(old(announcedJobs), jobId).Some? || Find(old(winnerRecoveryJobs), jobId).Some?
    {
      hide SessionInv, Find, Drop, Without;
      removed := Unlist(jobId);
    }

    method Unlist(jobId: JobId) returns (removed: bool)
      requires Valid()
      modifies this`announcedJobs, this`winnerRecoveryJobs
      ensures Valid() && Abs() == Without(old(Abs()), jobId)
      ensures removed <==> Find(old(announcedJobs), jobId).Some? || Find(old(winnerRecoveryJobs), jobId).Some?
    {
      hide SessionInv, Find, Drop;
      WithoutInv(Abs(), maximumAnnouncedJobs, jobId);
      var announced, recovery, changed := DropBoth(announcedJobs, winnerRecoveryJobs, jobId);
      announcedJobs, winnerRecoveryJobs := announced, recovery;
      return changed;
    }

    static method DropBoth(announced: seq<JobAssignment>, recovery: seq<JobAssignment>, jobId: JobId)
      returns (announced': seq<JobAssignment>, recovery': seq<JobAssignment>, changed: bool)
      ensures announced' == Drop(announced, jobId) && recovery' == Drop(recovery, jobId)
      ensures changed <==> Find(announced, jobId).Some? || Find(recovery, jobId).Some?
    {
      DropLength(announced, jobId);
      DropLength(recovery, jobId);
      announced', recovery' := Drop(announced, jobId), Drop(recovery, jobId);
      changed := |announced'| != |announced| || |recovery'| != |recovery|;
    }

    /** Moves one assignment, unchanged, from ordinary to recovery-only reach. */
    method RetireAnnouncedJob(jobId: JobId)
      requires Valid()
      modifies this`announcedJobs, this`winnerRecoveryJobs
      ensures Valid() && Abs() == Next(old(Abs()), maximumAnnouncedJobs, Retire(jobId)).next
    {
      WithRetiredInv(Abs(), maximumAnnouncedJobs, jobId);
      var held := Find(announcedJobs, jobId);
      if held.Some? {
        announcedJobs := Drop(announcedJobs, jobId);
        if |winnerRecoveryJobs| == MAXIMUM_RECOVERY_JOBS {
          winnerRecoveryJobs := winnerRecoveryJobs[..MAXIMUM_RECOVERY_JOBS - 1];
        }
        winnerRecoveryJobs := [held.value] + winnerRecoveryJobs;
      }
    }

    method RetainWinnerRecoveryJobs(ids: seq<JobId>)
      requires Valid()
      modifies this`winnerRecoveryJobs
      ensures Valid() && Abs() == Next(old(Abs()), maximumAnnouncedJobs, Retain(ids)).next
    {
      winnerRecoveryJobs := KeepOnly(winnerRecoveryJobs, ids);
    }

    /** The late-winner admission of a generation that is still retained. */
    method AdmitCandidate(registry: GenerationRegistry, jobId: JobId, binding: TargetBinding, submittedTime: nat, nonce: Hex32,
                          solution: nat, nowMs: nat, role: AdmissionRole, allowNoCurrent: bool)
      returns (r: Result<GenerationAdmission, SessionError>)
      requires registry.Valid() && role != Ordinary
      modifies registry, registry.arena
      ensures registry.Valid() && registry.guards == old(registry.guards)
      ensures var spec := CandidateAdmission(registry.config, old(registry.Model()), jobId, binding, submittedTime, nonce,
                                         solution, nowMs, role, allowNoCurrent);
              registry.Model() == spec.next && Realizes(r, spec.result)
    {
      var refused := CheckRetained(registry.Generation(jobId), jobId, binding, submittedTime);
      if refused.Some? {
        return Failure(refused.value);
      }
      var granted := registry.BeginZcashCandidate(jobId, nonce, solution, nowMs, role, allowNoCurrent);
      if granted.Failure? {
        return Failure(Registry(granted.error));
      }
      return Success(granted.value);
    }

    /** The ordinary admission, falling back to the late-winner one for a stale job. */
    method AdmitOrdinary(registry: GenerationRegistry, jobId: JobId, binding: TargetBinding, submittedTime: nat, nonce: Hex32,
                         solution: nat, nowMs: nat) returns (r: Result<GenerationAdmission, SessionError>)
      requires registry.Valid()
      modifies registry, registry.arena
      ensures registry.Valid()
      ensures var spec := AdmitLive(registry.config, old(registry.Model()), jobId, binding, submittedTime, nonce, solution, nowMs);
              registry.Model() == spec.next && Realizes(r, spec.result)
      ensures registry.guards == old(registry.guards) + HeldOn(r)
    {
      ghost var step := RM.BeginAdmission(registry.Model(), jobId, nowMs);
      var admitted := registry.BeginAdmission(jobId, nowMs);
      r := FallBack(registry, step, admitted, jobId, binding, submittedTime, nonce, solution, nowMs);
    }

    method FallBack(registry: GenerationRegistry, ghost step: RM.Step<JobDescriptor>, admitted: Result<GenerationAdmission, RM.RegistryError>,
                    jobId: JobId, binding: TargetBinding, submittedTime: nat, nonce: Hex32, solution: nat, nowMs: nat)
      returns (r: Result<GenerationAdmission, SessionError>)
      requires registry.Valid() && registry.Model() == step.next && Granted(admitted, step.result, jobId, Ordinary)
      modifies registry, registry.arena
      ensures registry.Valid() && registry.guards == old(registry.guards)
      ensures var spec := AfterOrdinary(registry.config, step, jobId, binding, submittedTime, nonce, solution, nowMs);
              registry.Model() == spec.next && Realizes(r, spec.result)
      ensures r.Success? && r.value.role == Ordinary <==> admitted.Success?
      ensures admitted.Success? ==> r.value == admitted.value
    {
      if admitted.Success? {
        return Success(admitted.value);
      }
      if !admitted.error.StaleJob? {
        return Failure(Registry(admitted.error));
      }
      r := AdmitCandidate(registry, jobId, binding, submittedTime, nonce, solution, nowMs, HistoricalZcashRecovery, false);
    }

    method AdmitSubmission(registry: GenerationRegistry, jobId: JobId, binding: TargetBinding, submittedTime: nat, nonce: Hex32,
                           solution: nat, nowMs: nat, pausedOnly: bool) returns (r: Result<GenerationAdmission, SessionError>)
      requires registry.Valid()
      modifies registry, registry.arena
      ensures registry.Valid()
      ensures var spec := Admit(registry.config, old(registry.Model()), jobId, binding, submittedTime, nonce, solution, nowMs, pausedOnly);
              registry.Model() == spec.next && Realizes(r, spec.result)
      ensures registry.guards == old(registry.guards) + HeldOn(r)
    {
      if pausedOnly {
        r := AdmitCandidate(registry, jobId, binding, submittedTime, nonce, solution, nowMs, PausedZcashCandidate, true);
      } else {
        r := AdmitOrdinary(registry, jobId, binding, submittedTime, nonce, solution, nowMs);
      }
    }

    /** Releases a guard whose submission is abandoned. */
    static method Abandon(registry: GenerationRegistry, admission: GenerationAdmission)
      requires registry.Valid() && (admission.role == Ordinary ==> admission.resource in registry.guards)
      modifies registry, registry.arena
      ensures registry.Valid() && registry.guards == old(registry.guards) - HeldBy(admission.role, admission.resource)
      ensures registry.Model() == if admission.role == Ordinary
                                  then RM.Release(old(registry.Model()), admission.resource.generation.jobId)
                                  else old(registry.Model())
    {
      if admission.role == Ordinary {
        registry.DropOrdinary(admission);
      }
    }

    /**
     * Prepares one submission, exactly as `Prepare` decides it. A failure at any point
     * leaves every guard as it was; a success carries the exact announced target, which
     * is at least as easy as both network targets of the admitted generation.
     */
    method PrepareSubmissionMode(claimedLogin: string, jobId: JobId, submittedTime: nat, suffix: seq<byte>, solution: nat,
                                 registry: GenerationRegistry, nowMs: nat, pausedOnly: bool)
      returns (r: Result<SubmissionContext, SessionError>)
      requires Valid() && registry.Valid()
      modifies registry, registry.arena
      ensures registry.Valid()
      ensures var spec := Prepare(Abs(), registry.config, old(registry.Model()), claimedLogin, jobId, submittedTime, suffix,
                                  solution, nowMs, pausedOnly);
              registry.Model() == spec.next && Realizes(AdmissionOf(r), spec.result)
      ensures registry.guards == old(registry.guards) + HeldOn(AdmissionOf(r))
      ensures r.Success? ==>
                && state == Authorized && r.value.identity == worker.value.BackendIdentity()
                && r.value.identity.accountId == worker.value.accountId && r.value.identity.workerId == worker.value.workerId
                && r.value.identity.loginLabel == worker.value.attributionLogin
                && (var assignment := Find(announcedJobs + winnerRecoveryJobs, jobId);
                    assignment.Some? && r.value.targetLe == ToBackend(assignment.value.target.target))
                && N.JoinNonce(noncePrefix.value, suffix) == Success(r.value.nonce) && r.value.solution == solution
                && r.value.time == submittedTime && r.value.Sound()
    {
      if state != Authorized {
        return Failure(UnexpectedState(Authorized, state));
      }
      if claimedLogin != worker.value.canonicalLogin {
        return Failure(LoginMismatch);
      }
      var assignment := Find(announcedJobs + winnerRecoveryJobs, jobId);
      if assignment.None? {
        return Failure(JobNotAnnounced(jobId));
      }
      var joined := N.JoinNonce(noncePrefix.value, suffix);
      if joined.Failure? {
        return Failure(NonceProfileMismatch);
      }
      r := PrepareAssigned(assignment.value, jobId, submittedTime, joined.value, solution, registry, nowMs, pausedOnly);
    }

    method PrepareAssigned(assignment: JobAssignment, jobId: JobId, submittedTime: nat, nonce: Hex32, solution: nat,
                           registry: GenerationRegistry, nowMs: nat, pausedOnly: bool)
      returns (r: Result<SubmissionContext, SessionError>)
      requires worker.Some? && assignment.target.Valid() && registry.Valid()
      modifies registry, registry.arena
      ensures registry.Valid()
      ensures var spec := Confirm(Admit(registry.config, old(registry.Model()), jobId, assignment.target, submittedTime, nonce,
                                        solution, nowMs, pausedOnly), jobId, assignment.target, submittedTime);
              registry.Model() == spec.next && Realizes(AdmissionOf(r), spec.result)
      ensures registry.guards == old(registry.guards) + HeldOn(AdmissionOf(r))
      ensures r.Success? ==>
                && r.value == SubmissionContext(worker.value.BackendIdentity(), ToBackend(assignment.target.target), submittedTime,
                                                nonce, solution, r.value.admission)
                && r.value.Sound()
    {
      hide Confirm, Admit;
      ghost var decided := Admit(registry.config, registry.Model(), jobId, assignment.target, submittedTime, nonce, solution, nowMs, pausedOnly);
      var admitted := AdmitSubmission(registry, jobId, assignment.target, submittedTime, nonce, solution, nowMs, pausedOnly);
      r := BindContext(registry, decided, admitted, assignment.target, jobId, submittedTime, nonce, solution);
    }

    /** Turns a confirmed guard into a context that carries the announced target. */
    method BindContext(registry: GenerationRegistry, ghost decided: Admitted, admitted: Result<GenerationAdmission, SessionError>,
                       binding: TargetBinding, jobId: JobId, submittedTime: nat, nonce: Hex32, solution: nat)
      returns (r: Result<SubmissionContext, SessionError>)
      requires worker.Some? && binding.Valid() && registry.Valid()
      requires registry.Model() == decided.next && Realizes(admitted, decided.result) && HeldOn(admitted) <= registry.guards
      modifies registry, registry.arena
      ensures registry.Valid()
      ensures var spec := Confirm(decided, jobId, binding, submittedTime);
              registry.Model() == spec.next && Realizes(AdmissionOf(r), spec.result)
      ensures registry.guards == old(registry.guards) - HeldOn(admitted) + HeldOn(AdmissionOf(r))
      ensures r.Success? ==>
                && r.value == SubmissionContext(worker.value.BackendIdentity(), ToBackend(binding.target), submittedTime,
                                                nonce, solution, r.value.admission)
                && r.value.Sound()
    {
      if admitted.Failure? {
        return Failure(admitted.error);
      }
      assert admitted.value.role == Ordinary ==> admitted.value.resource in HeldOn(admitted);
      var refused := ConfirmAdmission(registry, decided, admitted.value, jobId, binding, submittedTime);
      if refused.Some? {
        return Failure(refused.value);
      }
      BindingNeverHarderThanNetworks(binding);
      return Success(SubmissionContext(worker.value.BackendIdentity(), ToBackend(binding.target), submittedTime, nonce, solution,
                                       admitted.value));
    }

    /** The last checks on a guard just taken; a guard that fails them is dropped again. */
    static method ConfirmAdmission(registry: GenerationRegistry, ghost decided: Admitted, admission: GenerationAdmission, jobId: JobId,
                                   binding: TargetBinding, submittedTime: nat) returns (refused: Option<SessionError>)
      requires registry.Valid() && registry.Model() == decided.next && Realizes(Success(admission), decided.result)
      requires admission.role == Ordinary ==> admission.resource in registry.guards
      modifies registry, registry.arena
      ensures registry.Valid()
      ensures var spec := Confirm(decided, jobId, binding, submittedTime);
              && registry.Model() == spec.next
              && Realizes(if refused.Some? then Failure(refused.value) else Success(admission), spec.result)
      ensures refused == CheckRetained(Some(admission.resource.generation), jobId, binding, submittedTime)
      ensures registry.guards == old(registry.guards) - (if refused.Some? then HeldBy(admission.role, admission.resource) else multiset{})
    {
      refused := CheckRetained(Some(admission.resource.generation), jobId, binding, submittedTime);
      if refused.Some? {
        Abandon(registry, admission);
      }
    }

    /**
     * Re-qualifies a sound context for candidate forwarding. The old guard is released
     * on either outcome; a success keeps the target and stays sound.
     */
    static method RefilterZcashCandidate(ctx: SubmissionContext, registry: GenerationRegistry, nowMs: nat, recoveryOnly: bool)
      returns (r: Result<SubmissionContext, SessionError>)
      requires registry.Valid() && ctx.Sound()
      requires ctx.admission.role == Ordinary ==> ctx.admission.resource in registry.guards
      modifies registry, registry.arena
      ensures registry.Valid()
      ensures registry.guards == old(registry.guards) - HeldBy(ctx.admission.role, ctx.admission.resource)
      ensures var spec := Requalify(registry.config, old(registry.Model()), Grant(ctx.admission.role, ctx.Generation()), ctx.nonce,
                                    ctx.solution, nowMs, recoveryOnly);
              registry.Model() == spec.next && Realizes(AdmissionOf(r), spec.result)
      ensures r.Success? ==>
                && r.value == ctx.(admission := r.value.admission) && r.value.admission.role != Ordinary
                && r.value.Generation() == ctx.Generation() && r.value.Sound()
                && (StaysPaused(ctx.admission.role, recoveryOnly) <==> r.value.admission.role == PausedZcashCandidate)
    {
      var jobId := ctx.Generation().jobId;
      var paused := StaysPaused(ctx.admission.role, recoveryOnly);
      var role := if paused then PausedZcashCandidate else HistoricalZcashRecovery;
      var admitted := registry.BeginZcashCandidate(jobId, ctx.nonce, ctx.solution, nowMs, role, paused || recoveryOnly);
      Abandon(registry, ctx.admission);
      if admitted.Failure? {
        return Failure(Registry(admitted.error));
      }
      if admitted.value.resource.generation != ctx.Generation() {
        return Failure(RegistryAssignmentMismatch(jobId));
      }
      return Success(ctx.(admission := admitted.value));
    }
  }

  lemma AbsentFromBoth(announced: seq<JobAssignment>, recovery: seq<JobAssignment>, id: JobId)
    requires Find(announced + recovery, id).None?
    ensures forall a :: a in announced || a in recovery ==> a.generationId != id
  {
    var all := announced + recovery;
    assert forall i :: 0 <= i < |announced| ==> announced[i] == all[i];
    assert forall i :: 0 <= i < |recovery| ==> recovery[i] == all[|announced| + i];
  }

  lemma {:induction false} DropAbsent(list: seq<JobAssignment>, id: JobId)
    requires Find(list, id).None?
    ensures Drop(list, id) == list
  {
    DropKeepsAll(list, id);
  }

  lemma DropLength(list: seq<JobAssignment>, id: JobId)
    ensures |Drop(list, id)| == |list| <==> Find(list, id).None?
  {
    if Find(list, id).None? {
      DropAbsent(list, id);
    } else {
      var i :| 0 <= i < |list| && list[i].generationId == id;
      DropShrinks(list, id, i);
    }
  }

  lemma {:induction false} DropShrinks(list: seq<JobAssignment>, id: JobId, i: nat)
    requires i < |list| && list[i].generationId == id
    ensures |Drop(list, id)| < |list|
    decreases |list|
  {
    var front := list[..|list| - 1];
    if i == |front| {
    } else {
      assert front[i] == list[i];
      DropShrinks(front, id, i);
    }
  }

  lemma {:induction false} DropKeepsAll(list: seq<JobAssignment>, id: JobId)
    requires forall i :: 0 <= i < |list| ==> list[i].generationId != id
    ensures Drop(list, id) == list
    decreases |list|
  {
    if |list| == 0 {
    } else {
      var front := list[..|list| - 1];
      assert forall i :: 0 <= i < |front| ==> front[i] == list[i];
      DropKeepsAll(front, id);
      assert list == front + [list[|list| - 1]];
    }
  }
}
