/**
 * The pool as a whole: one registry, any number of sessions and nonce allocators, and every
 * interleaving of their operations.
 */
module PoolRuns {
  import opened Bytes
  import opened Common
  import opened Protocol
  import opened Target
  import N = Nonce
  import RH = RegistryHistory
  import RI = RegistryInvariant
  import RM = RegistryModel
  import RR = RegistryRuns
  import S = Session
  import SW = SessionMeaning
  import G = GenerationRegistry

  /** Who may issue nonces of one kind: a profile under a leased namespace. */
  datatype Owner = Owner(profile: N.NonceProfile, lease: N.Lease)

  /** One session and, once subscribed, the counter its prefix was issued with. */
  datatype Seat = Seat(view: S.View, maximum: nat, issued: Option<(Owner, nat)>)

  /** A prepared submission, kept by its caller until the backend resolves it. */
  datatype Context = Context(grant: S.Grant, target: ShareTarget, time: nat, nonce: Hex32, solution: nat)

  /** `loose` holds the ordinary guards taken from the registry directly, outside any context. */
  datatype Pool = Pool(
    registry: RM.Registry,
    allocators: map<Owner, N.Reservation>,
    seats: map<nat, Seat>,
    contexts: seq<Context>,
    loose: multiset<JobId>)

  /** One share as a miner submits it. */
  datatype Share = Share(login: string, jobId: JobId, time: nat, suffix: seq<byte>, solution: nat, nowMs: nat, pausedOnly: bool)

  datatype Op =
    | Open(sid: nat, maximum: nat)
    | Reserve(profile: N.NonceProfile, namespace: byte, range: N.Reservation)
    | Extend(owner: Owner, from: nat, to: nat)
    | Restart(owner: Owner, range: N.Reservation)
    | Subscribe(sid: nat, owner: Owner)
    | Drive(sid: nat, change: S.Op)
    | Submit(sid: nat, share: Share)
    | Refilter(k: nat, nowMs: nat, recoveryOnly: bool)
    | Resolve(k: nat)
    | Use(use: RR.Op)

  const EMPTY: Pool := Pool(RM.Empty(), map[], map[], [], multiset{})

  function Next(c: RM.Config, p: Pool, op: Op): Pool {
    match op
    case Open(sid, maximum) =>
      if sid == 0 || maximum == 0 || sid in p.seats then p else p.(seats := p.seats[sid := Seat(S.OPENED, maximum, None)])
    case Reserve(profile, namespace, range) => Reserved(p, profile, namespace, range)
    case Extend(owner, from, to) => Extended(p, owner, from, to)
    case Restart(owner, range) => Restarted(p, owner, range)
    case Subscribe(sid, owner) => Subscribed(p, sid, owner)
    case Drive(sid, change) => Driven(p, sid, change)
    case Submit(sid, share) => if sid in p.seats then Submitted(c, p, sid, share) else p
    case Refilter(k, nowMs, recoveryOnly) => if k < |p.contexts| then Refiltered(c, p, k, nowMs, recoveryOnly) else p
    case Resolve(k) => if k < |p.contexts| then Resolved(p, k) else p
    case Use(use) => Used(c, p, use)
  }

  /** A newly leased namespace starts on its reserved range. */
  function Reserved(p: Pool, profile: N.NonceProfile, namespace: byte, range: N.Reservation): Pool {
    var lease := N.NewLease(namespace);
    if lease.Failure? || Owner(profile, lease.value) in p.allocators
       || range.next >= range.endExclusive || range.endExclusive > N.Capacity(profile)
    then p
    else p.(allocators := p.allocators[Owner(profile, lease.value) := range])
  }

  function Extended(p: Pool, owner: Owner, from: nat, to: nat): Pool {
    if owner !in p.allocators then p
    else
      var longer := N.Extended(owner.profile, p.allocators[owner], from, to);
      if longer.Failure? then p else p.(allocators := p.allocators[owner := longer.value])
  }

  /** A restarted holder of the lease resumes at its cursor, or past it when a crash wasted counters. */
  function Restarted(p: Pool, owner: Owner, range: N.Reservation): Pool {
    if owner !in p.allocators || range.next < p.allocators[owner].next
       || range.next >= range.endExclusive || range.endExclusive > N.Capacity(owner.profile)
    then p
    else p.(allocators := p.allocators[owner := range])
  }

  /** The allocator is asked only by a session that may subscribe. */
  function Subscribed(p: Pool, sid: nat, owner: Owner): Pool {
    if sid !in p.seats || owner !in p.allocators || p.seats[sid].view.state != S.Connected then p
    else
      var seat, range := p.seats[sid], p.allocators[owner];
      var taken := N.Take(owner.profile, owner.lease, range);
      var view := S.Next(seat.view, seat.maximum, S.Op.Subscribe(taken.result)).next;
      p.(allocators := p.allocators[owner := taken.left],
         seats := p.seats[sid := Seat(view, seat.maximum, if taken.result.Success? then Some((owner, range.next)) else None)])
  }

  function Driven(p: Pool, sid: nat, op: S.Op): Pool {
    if sid !in p.seats || op.Subscribe? then p
    else
      var seat := p.seats[sid];
      p.(seats := p.seats[sid := seat.(view := S.Next(seat.view, seat.maximum, op).next)])
  }

  function Prepared(c: RM.Config, p: Pool, sid: nat, share: Share): S.Admitted
    requires sid in p.seats
  {
    S.Prepare(p.seats[sid].view, c, p.registry, share.login, share.jobId, share.time, share.suffix, share.solution,
              share.nowMs, share.pausedOnly)
  }

  function Submitted(c: RM.Config, p: Pool, sid: nat, share: Share): Pool
    requires sid in p.seats
  {
    var a := Prepared(c, p, sid, share);
    if a.result.Failure? then p.(registry := a.next)
    else
      PreparedBy(c, p, sid, share);
      p.(registry := a.next, contexts := p.contexts + [ContextOf(p.seats[sid].view, share, a.result.value)])
  }

  function ContextOf(v: S.View, share: Share, grant: S.Grant): Context
    requires Reaches(v, share)
  {
    Context(grant, S.Held(v, share.jobId).value.target.target, share.time, NonceOf(v, share).value, share.solution)
  }

  /** Re-qualifying consumes the context; a success gives it back under its new role. */
  function Refiltered(c: RM.Config, p: Pool, k: nat, nowMs: nat, recoveryOnly: bool): Pool
    requires k < |p.contexts|
  {
    var a := Requalified(c, p, k, nowMs, recoveryOnly);
    p.(registry := a.next,
       contexts := Replace(p.contexts, k, if a.result.Success? then [p.contexts[k].(grant := a.result.value)] else []))
  }

  function Requalified(c: RM.Config, p: Pool, k: nat, nowMs: nat, recoveryOnly: bool): S.Admitted
    requires k < |p.contexts|
  {
    S.Requalify(c, p.registry, p.contexts[k].grant, p.contexts[k].nonce, p.contexts[k].solution, nowMs, recoveryOnly)
  }

  /** Once the backend has resolved a submission its context is dropped, and an ordinary guard with it. */
  function Resolved(p: Pool, k: nat): Pool
    requires k < |p.contexts|
  {
    var grant := p.contexts[k].grant;
    p.(registry := if grant.role == G.Ordinary then RM.Release(p.registry, grant.generation.jobId) else p.registry,
       contexts := Replace(p.contexts, k, []))
  }

  function Replace(contexts: seq<Context>, k: nat, with: seq<Context>): seq<Context>
    requires k < |contexts|
  {
    contexts[..k] + with + contexts[k + 1..]
  }

  function Used(c: RM.Config, p: Pool, use: RR.Op): Pool {
    p.(registry := if Unheld(p, use) then p.registry else RR.Next(c, p.registry, use), loose := LooseAfter(p, use))
  }

  /** Guards are values, so only a guard somebody still holds can be dropped. */
  predicate Unheld(p: Pool, use: RR.Op) {
    use.Drop? && use.id !in p.loose
  }

  function LooseAfter(p: Pool, use: RR.Op): multiset<JobId> {
    match use
    case Admit(id, nowMs) => if RM.BeginAdmission(p.registry, id, nowMs).result.Success? then p.loose + multiset{id} else p.loose
    case Drop(id) => p.loose - multiset{id}
    case _ => p.loose
  }

  function Run(c: RM.Config, ops: seq<Op>): Pool {
    if |ops| == 0 then EMPTY else Next(c, Run(c, ops[..|ops| - 1]), ops[|ops| - 1])
  }

  /** What the constructors of session arguments guarantee. */
  ghost predicate Constructible(ops: seq<Op>) {
    forall i :: 0 <= i < |ops| && ops[i].Drive? ==> S.Constructible(ops[i].change)
  }

  // ---------------------------------------------------------------- what every pool state keeps

  ghost predicate SeatInv(allocators: map<Owner, N.Reservation>, seat: Seat) {
    && S.SessionInv(seat.view, seat.maximum)
    && (seat.view.state == S.Connected ==> seat.issued.None?)
    && (seat.view.prefix.Some? ==>
          && seat.issued.Some?
          && seat.view.prefix.value == N.Prefix(seat.issued.value.0.profile, seat.issued.value.0.lease, seat.issued.value.1))
    && (seat.issued.Some? ==>
          && seat.issued.value.0 in allocators
          && seat.issued.value.1 < allocators[seat.issued.value.0].next)
  }

  ghost predicate SeatsInv(allocators: map<Owner, N.Reservation>, seats: map<nat, Seat>) {
    forall sid :: sid in seats ==> SeatInv(allocators, seats[sid])
  }

  ghost predicate AllocatorsInv(allocators: map<Owner, N.Reservation>) {
    forall owner :: owner in allocators ==> allocators[owner].Valid(owner.profile)
  }

  /** No counter of any owner was issued to two sessions. */
  ghost predicate IssuedOnce(seats: map<nat, Seat>) {
    forall s, t :: s in seats && t in seats && s != t && seats[s].issued.Some? ==> seats[s].issued != seats[t].issued
  }

  /** A held context names a retained generation, and its target is easy enough for it. */
  ghost predicate ContextInv(entries: RM.Entries, ctx: Context) {
    var generation := ctx.grant.generation;
    && generation.jobId in entries && entries[generation.jobId].generation == generation
    && S.EasyEnough(generation, ctx.target, ctx.time)
  }

  ghost predicate ContextsInv(entries: RM.Entries, contexts: seq<Context>) {
    forall k :: 0 <= k < |contexts| ==> ContextInv(entries, contexts[k])
  }

  ghost predicate PoolInv(c: RM.Config, p: Pool) {
    && RI.Inv(c, p.registry) && ContextsInv(p.registry.entries, p.contexts)
    && AllocatorsInv(p.allocators) && SeatsInv(p.allocators, p.seats) && IssuedOnce(p.seats)
  }

  /** What no operation undoes for one session. */
  ghost predicate SeatEvolves(seat: Seat, seat': Seat) {
    && seat'.maximum == seat.maximum && S.Progresses(seat.view, seat'.view)
    && (seat.issued.Some? ==> seat'.issued == seat.issued)
  }

  ghost predicate Evolves(p: Pool, p': Pool) {
    forall sid :: sid in p.seats ==> sid in p'.seats && SeatEvolves(p.seats[sid], p'.seats[sid])
  }

  /** Allocators never step back. */
  ghost predicate Grown(allocators: map<Owner, N.Reservation>, allocators': map<Owner, N.Reservation>) {
    forall owner :: owner in allocators ==> owner in allocators' && allocators[owner].next <= allocators'[owner].next
  }

  lemma GrownKeepsSeats(allocators: map<Owner, N.Reservation>, allocators': map<Owner, N.Reservation>, seats: map<nat, Seat>)
    requires Grown(allocators, allocators') && SeatsInv(allocators, seats)
    ensures SeatsInv(allocators', seats)
  {
    forall sid | sid in seats ensures SeatInv(allocators', seats[sid]) {
      assert SeatInv(allocators, seats[sid]);
    }
  }

  /** Replacing one seat by one that keeps its counter. */
  lemma SeatUpdated(p: Pool, sid: nat, seat: Seat)
    requires SeatsInv(p.allocators, p.seats) && IssuedOnce(p.seats) && sid in p.seats
    requires SeatInv(p.allocators, seat) && SeatEvolves(p.seats[sid], seat) && seat.issued == p.seats[sid].issued
    ensures SeatsInv(p.allocators, p.seats[sid := seat]) && IssuedOnce(p.seats[sid := seat])
    ensures Evolves(p, p.(seats := p.seats[sid := seat]))
  {
  }

  lemma OpenedKeeps(p: Pool, sid: nat, maximum: nat)
    requires SeatsInv(p.allocators, p.seats) && IssuedOnce(p.seats) && sid !in p.seats
    ensures var seats := p.seats[sid := Seat(S.OPENED, maximum, None)];
            SeatsInv(p.allocators, seats) && IssuedOnce(seats) && Evolves(p, p.(seats := seats))
  {
  }

  /** A session operation other than subscribing can only clear the prefix. */
  lemma DriveKeepsPrefix(v: S.View, maximum: nat, op: S.Op)
    requires !op.Subscribe?
    ensures var v' := S.Next(v, maximum, op).next;
            (v'.prefix.Some? ==> v'.prefix == v.prefix) && (v'.state == S.Connected ==> v.state == S.Connected)
  {
  }

  lemma DrivenKeeps(p: Pool, sid: nat, op: S.Op)
    requires SeatsInv(p.allocators, p.seats) && IssuedOnce(p.seats) && S.Constructible(op)
    ensures SeatsInv(p.allocators, Driven(p, sid, op).seats) && IssuedOnce(Driven(p, sid, op).seats) && Evolves(p, Driven(p, sid, op))
  {
    if sid in p.seats && !op.Subscribe? {
      var seat := p.seats[sid];
      assert SeatInv(p.allocators, seat);
      S.NextInv(seat.view, seat.maximum, op);
      DriveKeepsPrefix(seat.view, seat.maximum, op);
      SeatUpdated(p, sid, seat.(view := S.Next(seat.view, seat.maximum, op).next));
    }
  }

  /** The counter a subscription takes was never issued before. */
  lemma SubscribedKeeps(p: Pool, sid: nat, owner: Owner)
    requires SeatsInv(p.allocators, p.seats) && IssuedOnce(p.seats) && AllocatorsInv(p.allocators)
    ensures var p' := Subscribed(p, sid, owner);
            && AllocatorsInv(p'.allocators) && SeatsInv(p'.allocators, p'.seats) && IssuedOnce(p'.seats) && Evolves(p, p')
  {
    if sid in p.seats && owner in p.allocators && p.seats[sid].view.state == S.Connected {
      var seat, range := p.seats[sid], p.allocators[owner];
      var taken := N.Take(owner.profile, owner.lease, range);
      assert SeatInv(p.allocators, seat);
      var allocators := p.allocators[owner := taken.left];
      GrownKeepsSeats(p.allocators, allocators, p.seats);
      S.NextInv(seat.view, seat.maximum, S.Op.Subscribe(taken.result));
      var seated := Seat(S.Next(seat.view, seat.maximum, S.Op.Subscribe(taken.result)).next, seat.maximum,
                         if taken.result.Success? then Some((owner, range.next)) else None);
      forall t | t in p.seats ensures p.seats[t].issued != Some((owner, range.next)) {
        assert SeatInv(p.allocators, p.seats[t]);
      }
      SeatSubscribed(p, allocators, sid, seated);
    }
  }

  lemma SeatSubscribed(p: Pool, allocators: map<Owner, N.Reservation>, sid: nat, seat: Seat)
    requires SeatsInv(allocators, p.seats) && IssuedOnce(p.seats) && sid in p.seats && p.seats[sid].issued.None?
    requires SeatInv(allocators, seat) && seat.maximum == p.seats[sid].maximum && S.Progresses(p.seats[sid].view, seat.view)
    requires seat.issued.Some? ==> forall t :: t in p.seats ==> p.seats[t].issued != seat.issued
    ensures SeatsInv(allocators, p.seats[sid := seat]) && IssuedOnce(p.seats[sid := seat])
    ensures forall q: Pool :: q.seats == p.seats[sid := seat] ==> Evolves(p, q)
  {
  }

  // ---------------------------------------------------------------- submissions as registry operations

  /** The nonce a share would be hashed with, if its suffix fits the session's prefix. */
  function NonceOf(v: S.View, share: Share): Option<Hex32> {
    if v.prefix.None? then None
    else
      var joined := N.JoinNonce(v.prefix.value, share.suffix);
      if joined.Failure? then None else Some(joined.value)
  }

  /** The assignment and nonce of a share that reaches the registry at all. */
  predicate Reaches(v: S.View, share: Share) {
    && v.state == S.Authorized && v.worker.Some? && NonceOf(v, share).Some?
    && share.login == v.worker.value.canonicalLogin && S.Held(v, share.jobId).Some?
  }

  /** The registry operations one submission performs, in order. */
  function Performed(c: RM.Config, m: RM.Registry, v: S.View, share: Share): seq<RR.Op> {
    if !Reaches(v, share) then []
    else
      var binding, nonce := S.Held(v, share.jobId).value.target, NonceOf(v, share).value;
      if share.pausedOnly then
        if S.CheckRetained(S.Retained(m, share.jobId), share.jobId, binding, share.time).Some? then []
        else [RR.Recover(share.jobId, nonce, share.solution, share.nowMs, true)]
      else
        [RR.Admit(share.jobId, share.nowMs)] + AfterAdmission(RM.BeginAdmission(m, share.jobId, share.nowMs), binding, nonce, share)
  }

  function AfterAdmission(s: RM.Step<JobDescriptor>, binding: TargetBinding, nonce: Hex32, share: Share): seq<RR.Op> {
    if s.result.Success? then
      if S.CheckRetained(Some(s.result.value), share.jobId, binding, share.time).Some? then [RR.Drop(s.result.value.jobId)] else []
    else if s.result.error.StaleJob? && S.CheckRetained(S.Retained(s.next, share.jobId), share.jobId, binding, share.time).None? then
      [RR.Recover(share.jobId, nonce, share.solution, share.nowMs, false)]
    else []
  }

  lemma RunOne(c: RM.Config, r: RM.Registry, op: RR.Op)
    ensures RH.RunFrom(c, r, [op]) == RR.Next(c, r, op)
  {
    assert [op][..0] == [];
  }

  lemma DropRun(c: RM.Config, r: RM.Registry, id: JobId)
    ensures RH.RunFrom(c, r, [RR.Drop(id)]) == RM.Release(r, id)
  {
    RunOne(c, r, RR.Drop(id));
  }

  lemma RecoverRun(c: RM.Config, r: RM.Registry, id: JobId, nonce: Hex32, solution: nat, nowMs: nat, allow: bool)
    ensures RH.RunFrom(c, r, [RR.Recover(id, nonce, solution, nowMs, allow)])
         == RM.BeginZcashCandidate(c, r, id, nonce, solution, nowMs, allow).next
  {
    RunOne(c, r, RR.Recover(id, nonce, solution, nowMs, allow));
  }

  lemma RunSnoc(c: RM.Config, r: RM.Registry, ops: seq<RR.Op>, op: RR.Op)
    ensures RH.RunFrom(c, r, ops + [op]) == RR.Next(c, RH.RunFrom(c, r, ops), op)
  {
    assert (ops + [op])[..|ops|] == ops;
  }

  lemma {:induction false} RunPrepend(c: RM.Config, r: RM.Registry, op: RR.Op, rest: seq<RR.Op>)
    ensures RH.RunFrom(c, r, [op] + rest) == RH.RunFrom(c, RR.Next(c, r, op), rest)
    decreases |rest|
  {
    if |rest| == 0 {
      assert [op] + rest == [op];
      RunOne(c, r, op);
    } else {
      var front, last := rest[..|rest| - 1], rest[|rest| - 1];
      RunPrepend(c, r, op, front);
      RunSnoc(c, r, [op] + front, last);
      RunSnoc(c, RR.Next(c, r, op), front, last);
      assert rest == front + [last];
      assert [op] + rest == ([op] + front) + [last];
    }
  }

  /** The outcome of an ordinary attempt, as the operations that follow the admission. */
  lemma AfterAdmissionDoes(c: RM.Config, s: RM.Step<JobDescriptor>, binding: TargetBinding, nonce: Hex32, share: Share)
    ensures RH.RunFrom(c, s.next, AfterAdmission(s, binding, nonce, share))
         == S.Confirm(S.AfterOrdinary(c, s, share.jobId, binding, share.time, nonce, share.solution, share.nowMs),
                      share.jobId, binding, share.time).next
  {
    if s.result.Success? {
      DropRun(c, s.next, s.result.value.jobId);
    } else {
      RecoverRun(c, s.next, share.jobId, nonce, share.solution, share.nowMs, false);
    }
  }

  lemma LiveDoes(c: RM.Config, m: RM.Registry, binding: TargetBinding, nonce: Hex32, share: Share)
    ensures var s := RM.BeginAdmission(m, share.jobId, share.nowMs);
            RH.RunFrom(c, m, [RR.Admit(share.jobId, share.nowMs)] + AfterAdmission(s, binding, nonce, share))
            == S.Confirm(S.AdmitLive(c, m, share.jobId, binding, share.time, nonce, share.solution, share.nowMs),
                         share.jobId, binding, share.time).next
  {
    var s := RM.BeginAdmission(m, share.jobId, share.nowMs);
    AfterAdmissionDoes(c, s, binding, nonce, share);
    RunPrepend(c, m, RR.Admit(share.jobId, share.nowMs), AfterAdmission(s, binding, nonce, share));
  }

  lemma PausedDoes(c: RM.Config, m: RM.Registry, binding: TargetBinding, nonce: Hex32, share: Share)
    ensures var refused := S.CheckRetained(S.Retained(m, share.jobId), share.jobId, binding, share.time);
            var ops := if refused.Some? then [] else [RR.Recover(share.jobId, nonce, share.solution, share.nowMs, true)];
            RH.RunFrom(c, m, ops)
            == S.Confirm(S.CandidateAdmission(c, m, share.jobId, binding, share.time, nonce, share.solution, share.nowMs,
                                              G.PausedZcashCandidate, true), share.jobId, binding, share.time).next
  {
    RecoverRun(c, m, share.jobId, nonce, share.solution, share.nowMs, true);
  }

  /** A submission does to the registry exactly what its operations do one after another. */
  lemma PerformedDoes(c: RM.Config, m: RM.Registry, v: S.View, share: Share)
    ensures RH.RunFrom(c, m, Performed(c, m, v, share))
         == S.Prepare(v, c, m, share.login, share.jobId, share.time, share.suffix, share.solution, share.nowMs, share.pausedOnly).next
  {
    if Reaches(v, share) {
      var binding, nonce := S.Held(v, share.jobId).value.target, NonceOf(v, share).value;
      if share.pausedOnly {
        PausedDoes(c, m, binding, nonce, share);
      } else {
        LiveDoes(c, m, binding, nonce, share);
      }
    }
  }

  lemma {:induction false} RunFromInv(c: RM.Config, r: RM.Registry, ops: seq<RR.Op>)
    requires RI.Inv(c, r)
    ensures RI.Inv(c, RH.RunFrom(c, r, ops)) && RR.Evolves(r.entries, RH.RunFrom(c, r, ops).entries)
    decreases |ops|
  {
    if |ops| == 0 {
    } else {
      RunFromInv(c, r, ops[..|ops| - 1]);
      var before, last := RH.RunFrom(c, r, ops[..|ops| - 1]), ops[|ops| - 1];
      RR.NextInv(c, before, last);
      RR.NextEvolves(c, before, last);
      RR.EvolvesTransitive(r.entries, before.entries, RR.Next(c, before, last).entries);
    }
  }

  /** Running on from a run is one longer run. */
  lemma {:induction false} RunOn(c: RM.Config, before: seq<RR.Op>, ops: seq<RR.Op>)
    ensures RR.Run(c, before + ops) == RH.RunFrom(c, RR.Run(c, before), ops)
    decreases |ops|
  {
    if |ops| == 0 {
      assert before + ops == before;
    } else {
      RunOn(c, before, ops[..|ops| - 1]);
      assert (before + ops)[..|before + ops| - 1] == before + ops[..|ops| - 1];
    }
  }

  // ---------------------------------------------------------------- every history

  lemma NextKeeps(c: RM.Config, p: Pool, op: Op)
    requires PoolInv(c, p) && (op.Drive? ==> S.Constructible(op.change))
    ensures PoolInv(c, Next(c, p, op)) && Evolves(p, Next(c, p, op))
  {
    PerformsInv(c, p, op);
    ContextsKeep(c, p, op);
    SeatsKeep(c, p, op);
  }

  lemma SeatsKeep(c: RM.Config, p: Pool, op: Op)
    requires AllocatorsInv(p.allocators) && SeatsInv(p.allocators, p.seats) && IssuedOnce(p.seats)
    requires op.Drive? ==> S.Constructible(op.change)
    ensures var p' := Next(c, p, op);
            && AllocatorsInv(p'.allocators) && SeatsInv(p'.allocators, p'.seats) && IssuedOnce(p'.seats) && Evolves(p, p')
  {
    match op
    case Open(sid, maximum) =>
      if sid !in p.seats {
        OpenedKeeps(p, sid, maximum);
      }
    case Subscribe(sid, owner) => SubscribedKeeps(p, sid, owner);
    case Drive(sid, change) => DrivenKeeps(p, sid, change);
    case Reserve(profile, namespace, range) => AllocatorsKeep(c, p, op);
    case Extend(owner, from, to) => AllocatorsKeep(c, p, op);
    case Restart(owner, range) => AllocatorsKeep(c, p, op);
    case _ => SeatsApart(c, p, op);
  }

  lemma SeatsApart(c: RM.Config, p: Pool, op: Op)
    requires op.Submit? || op.Refilter? || op.Resolve? || op.Use?
    ensures Next(c, p, op).allocators == p.allocators && Next(c, p, op).seats == p.seats
  {
  }

  /** Reserving, extending and restarting move no allocator back. */
  lemma AllocatorsKeep(c: RM.Config, p: Pool, op: Op)
    requires AllocatorsInv(p.allocators) && SeatsInv(p.allocators, p.seats) && (op.Reserve? || op.Extend? || op.Restart?)
    ensures var p' := Next(c, p, op);
            p' == p.(allocators := p'.allocators) && AllocatorsInv(p'.allocators) && SeatsInv(p'.allocators, p'.seats)
  {
    GrownKeepsSeats(p.allocators, Next(c, p, op).allocators, p.seats);
  }

  /** The registry operations one pool operation performs. */
  function Performs(c: RM.Config, p: Pool, op: Op): seq<RR.Op> {
    match op
    case Submit(sid, share) => if sid in p.seats then Performed(c, p.registry, p.seats[sid].view, share) else []
    case Refilter(k, nowMs, recoveryOnly) => if k < |p.contexts| then Requalifies(p.contexts[k], nowMs, recoveryOnly) else []
    case Resolve(k) => if k < |p.contexts| then Releases(p.contexts[k].grant) else []
    case Use(use) => if Unheld(p, use) then [] else [use]
    case _ => []
  }

  /** The guard an admission holds on its generation. */
  function Releases(grant: S.Grant): seq<RR.Op> {
    if grant.role == G.Ordinary then [RR.Drop(grant.generation.jobId)] else []
  }

  /** A candidate attempt, then the release of the guard it replaces. */
  function Requalifies(ctx: Context, nowMs: nat, recoveryOnly: bool): seq<RR.Op> {
    [RR.Recover(ctx.grant.generation.jobId, ctx.nonce, ctx.solution, nowMs, AllowsNoCurrent(ctx, recoveryOnly))] + Releases(ctx.grant)
  }

  /** Whether re-qualification may go on while no generation is current. */
  predicate AllowsNoCurrent(ctx: Context, recoveryOnly: bool) {
    recoveryOnly || ctx.grant.role == G.PausedZcashCandidate
  }

  lemma ReleasesDoes(c: RM.Config, m: RM.Registry, grant: S.Grant)
    ensures RH.RunFrom(c, m, Releases(grant)) == if grant.role == G.Ordinary then RM.Release(m, grant.generation.jobId) else m
  {
    DropRun(c, m, grant.generation.jobId);
  }

  /** A re-qualification does to the registry exactly what its operations do one after another. */
  lemma RequalifiesDoes(c: RM.Config, p: Pool, k: nat, nowMs: nat, recoveryOnly: bool)
    requires k < |p.contexts|
    ensures RH.RunFrom(c, p.registry, Requalifies(p.contexts[k], nowMs, recoveryOnly)) == Requalified(c, p, k, nowMs, recoveryOnly).next
  {
    var ctx := p.contexts[k];
    var attempt := RR.Recover(ctx.grant.generation.jobId, ctx.nonce, ctx.solution, nowMs, AllowsNoCurrent(ctx, recoveryOnly));
    RunPrepend(c, p.registry, attempt, Releases(ctx.grant));
    ReleasesDoes(c, RR.Next(c, p.registry, attempt), ctx.grant);
  }

  lemma PerformsAll(c: RM.Config, p: Pool, op: Op)
    ensures Next(c, p, op).registry == RH.RunFrom(c, p.registry, Performs(c, p, op))
  {
    match op
    case Submit(sid, share) =>
      if sid in p.seats {
        PerformedDoes(c, p.registry, p.seats[sid].view, share);
      }
    case Refilter(k, nowMs, recoveryOnly) =>
      if k < |p.contexts| {
        RequalifiesDoes(c, p, k, nowMs, recoveryOnly);
      }
    case Resolve(k) =>
      if k < |p.contexts| {
        ReleasesDoes(c, p.registry, p.contexts[k].grant);
      }
    case Use(use) => RunOne(c, p.registry, use);
    case _ =>
  }

  lemma PerformsInv(c: RM.Config, p: Pool, op: Op)
    requires RI.Inv(c, p.registry)
    ensures RI.Inv(c, Next(c, p, op).registry) && RR.Evolves(p.registry.entries, Next(c, p, op).registry.entries)
  {
    PerformsAll(c, p, op);
    var ops := Performs(c, p, op);
    RunFromInv(c, p.registry, ops);
  }

  // ---------------------------------------------------------------- held contexts

  lemma EvolvedContexts(entries: RM.Entries, entries': RM.Entries, contexts: seq<Context>)
    requires ContextsInv(entries, contexts) && RR.Evolves(entries, entries')
    ensures ContextsInv(entries', contexts)
  {
    forall k | 0 <= k < |contexts| ensures ContextInv(entries', contexts[k]) {
      assert ContextInv(entries, contexts[k]);
    }
  }

  lemma ReplacedContexts(entries: RM.Entries, contexts: seq<Context>, k: nat, with: seq<Context>)
    requires ContextsInv(entries, contexts) && ContextsInv(entries, with) && k < |contexts|
    ensures ContextsInv(entries, Replace(contexts, k, with))
  {
  }

  /** A granted candidate is the generation its identifier was introduced with. */
  lemma CandidateIdentity(c: RM.Config, m: RM.Registry, id: JobId, nonce: Hex32, solution: nat, nowMs: nat, allow: bool)
    requires RI.Inv(c, m)
    ensures var r := RM.BeginZcashCandidate(c, m, id, nonce, solution, nowMs, allow).result;
            r.Success? ==> S.Retained(m, id) == Some(r.value) && r.value.jobId == id
  {
    if RM.BeginZcashCandidate(c, m, id, nonce, solution, nowMs, allow).result.Success? {
      RR.GrantExactlyWhenQualified(c, m, id, nonce, solution, nowMs, allow);
      assert RI.WellFormedEntry(id, m.entries[id]);
    }
  }

  lemma AttemptKeepsGenerations(c: RM.Config, m: RM.Registry, id: JobId, nowMs: nat)
    requires RI.Inv(c, m)
    ensures var tried := RM.BeginAdmission(m, id, nowMs).next; RI.Inv(c, tried) && S.Retained(tried, id) == S.Retained(m, id)
  {
    RI.AdmissionInv(c, m, id, nowMs);
  }

  lemma LateGrantIdentity(c: RM.Config, m: RM.Registry, nonce: Hex32, share: Share)
    requires RI.Inv(c, m)
    ensures var tried := RM.BeginAdmission(m, share.jobId, share.nowMs).next;
            var r := RM.BeginZcashCandidate(c, tried, share.jobId, nonce, share.solution, share.nowMs, false).result;
            r.Success? ==> S.Retained(m, share.jobId) == Some(r.value) && r.value.jobId == share.jobId
  {
    AttemptKeepsGenerations(c, m, share.jobId, share.nowMs);
    CandidateIdentity(c, RM.BeginAdmission(m, share.jobId, share.nowMs).next, share.jobId, nonce, share.solution, share.nowMs, false);
  }

  lemma GrantIdentity(c: RM.Config, m: RM.Registry, grant: S.Grant, nonce: Hex32, share: Share)
    requires RI.Inv(c, m) && GrantedBy(c, m, grant, nonce, share)
    ensures S.Retained(m, share.jobId) == Some(grant.generation) && grant.generation.jobId == share.jobId
  {
    match grant.role
    case Ordinary => S.AdmittedIdentity(c, m, share.jobId, share.nowMs);
    case HistoricalZcashRecovery => LateGrantIdentity(c, m, nonce, share);
    case PausedZcashCandidate => CandidateIdentity(c, m, share.jobId, nonce, share.solution, share.nowMs, true);
  }

  lemma SubmittedContext(c: RM.Config, p: Pool, sid: nat, share: Share)
    requires PoolInv(c, p) && sid in p.seats && Prepared(c, p, sid, share).result.Success?
    ensures Reaches(p.seats[sid].view, share)
    ensures ContextInv(p.registry.entries, ContextOf(p.seats[sid].view, share, Prepared(c, p, sid, share).result.value))
  {
    var v := p.seats[sid].view;
    PreparedBy(c, p, sid, share);
    GrantIdentity(c, p.registry, Prepared(c, p, sid, share).result.value, NonceOf(v, share).value, share);
    assert SeatInv(p.allocators, p.seats[sid]);
    S.PreparedTargetIsEasyEnough(v, p.seats[sid].maximum, c, p.registry, share.login, share.jobId, share.time, share.suffix,
                                 share.solution, share.nowMs, share.pausedOnly);
  }

  lemma SubmittedContexts(c: RM.Config, p: Pool, sid: nat, share: Share)
    requires PoolInv(c, p) && sid in p.seats
    ensures ContextsInv(p.registry.entries, Submitted(c, p, sid, share).contexts)
  {
    hide ContextInv, RI.Inv, S.Prepare;
    if Prepared(c, p, sid, share).result.Success? {
      SubmittedContext(c, p, sid, share);
    }
  }

  lemma RefilteredContexts(c: RM.Config, p: Pool, k: nat, nowMs: nat, recoveryOnly: bool)
    requires ContextsInv(p.registry.entries, p.contexts) && k < |p.contexts|
    ensures ContextsInv(p.registry.entries, Refiltered(c, p, k, nowMs, recoveryOnly).contexts)
  {
    var r := Requalified(c, p, k, nowMs, recoveryOnly).result;
    assert ContextInv(p.registry.entries, p.contexts[k]);
    ReplacedContexts(p.registry.entries, p.contexts, k, if r.Success? then [p.contexts[k].(grant := r.value)] else []);
  }

  lemma NewContexts(c: RM.Config, p: Pool, op: Op)
    requires PoolInv(c, p)
    ensures ContextsInv(p.registry.entries, Next(c, p, op).contexts)
  {
    hide ContextInv, RI.Inv, RR.Next, S.Prepare, S.Requalify;
    match op
    case Submit(sid, share) =>
      if sid in p.seats {
        SubmittedContexts(c, p, sid, share);
      }
    case Refilter(k, nowMs, recoveryOnly) =>
      if k < |p.contexts| {
        RefilteredContexts(c, p, k, nowMs, recoveryOnly);
      }
    case Resolve(k) =>
      if k < |p.contexts| {
        ReplacedContexts(p.registry.entries, p.contexts, k, []);
      }
    case _ =>
  }

  lemma ContextsKeep(c: RM.Config, p: Pool, op: Op)
    requires PoolInv(c, p)
    requires RR.Evolves(p.registry.entries, Next(c, p, op).registry.entries)
    ensures ContextsInv(Next(c, p, op).registry.entries, Next(c, p, op).contexts)
  {
    NewContexts(c, p, op);
    var p' := Next(c, p, op);
    EvolvedContexts(p.registry.entries, p'.registry.entries, p'.contexts);
  }

  /** Every pool history keeps the registry, every session and every allocator consistent. */
  lemma {:induction false} RunInv(c: RM.Config, ops: seq<Op>)
    requires Constructible(ops)
    ensures PoolInv(c, Run(c, ops))
    decreases |ops|
  {
    if |ops| == 0 {
      RI.EmptyInv(c);
    } else {
      RunInv(c, ops[..|ops| - 1]);
      NextKeeps(c, Run(c, ops[..|ops| - 1]), ops[|ops| - 1]);
    }
  }

  /** Between any two points of a history every session only moves forward and keeps its counter. */
  lemma {:induction false} RunEvolves(c: RM.Config, ops: seq<Op>, i: nat)
    requires Constructible(ops) && i <= |ops|
    ensures Evolves(Run(c, ops[..i]), Run(c, ops))
    decreases |ops|
  {
    if i == |ops| {
      assert ops[..i] == ops;
    } else {
      var front := ops[..|ops| - 1];
      assert front[..i] == ops[..i];
      RunEvolves(c, front, i);
      RunInv(c, front);
      NextKeeps(c, Run(c, front), ops[|ops| - 1]);
      EvolvesTransitive(Run(c, ops[..i]), Run(c, front), Run(c, ops));
    }
  }

  lemma EvolvesTransitive(a: Pool, b: Pool, d: Pool)
    requires Evolves(a, b) && Evolves(b, d)
    ensures Evolves(a, d)
  {
    forall sid | sid in a.seats ensures sid in d.seats && SeatEvolves(a.seats[sid], d.seats[sid]) {
      assert SeatEvolves(a.seats[sid], b.seats[sid]) && SeatEvolves(b.seats[sid], d.seats[sid]);
    }
  }

  /** The registry operations of a whole pool history. */
  function Trace(c: RM.Config, ops: seq<Op>): seq<RR.Op> {
    if |ops| == 0 then []
    else
      var front := ops[..|ops| - 1];
      Trace(c, front) + Performs(c, Run(c, front), ops[|ops| - 1])
  }

  /** The registry of any pool history is the registry of its trace, so every registry theorem applies to it. */
  lemma {:induction false} RegistryFollowsTrace(c: RM.Config, ops: seq<Op>)
    ensures Run(c, ops).registry == RR.Run(c, Trace(c, ops))
    decreases |ops|
  {
    if |ops| == 0 {
    } else {
      var front, last := ops[..|ops| - 1], ops[|ops| - 1];
      RegistryFollowsTrace(c, front);
      PerformsAll(c, Run(c, front), last);
      RunOn(c, Trace(c, front), Performs(c, Run(c, front), last));
    }
  }

  /** The session operations one pool operation performs on seat `sid`. */
  function SeatOps(p: Pool, sid: nat, op: Op): seq<S.Op> {
    if sid !in p.seats then []
    else
      match op
      case Subscribe(sid', owner) =>
        if sid' != sid || owner !in p.allocators || p.seats[sid].view.state != S.Connected then []
        else [S.Op.Subscribe(N.Take(owner.profile, owner.lease, p.allocators[owner]).result)]
      case Drive(sid', change) => if sid' != sid || change.Subscribe? then [] else [change]
      case _ => []
  }

  function SeatTrace(c: RM.Config, ops: seq<Op>, sid: nat): seq<S.Op> {
    if |ops| == 0 then []
    else
      var front := ops[..|ops| - 1];
      SeatTrace(c, front, sid) + SeatOps(Run(c, front), sid, ops[|ops| - 1])
  }

  lemma SessionRunSnoc(maximum: nat, ops: seq<S.Op>, op: S.Op)
    ensures S.Run(maximum, ops + [op]) == S.Next(S.Run(maximum, ops), maximum, op).next
  {
    assert (ops + [op])[..|ops|] == ops;
  }

  lemma SeatNext(c: RM.Config, p: Pool, sid: nat, op: Op, ops: seq<S.Op>)
    requires sid in p.seats && p.seats[sid].view == S.Run(p.seats[sid].maximum, ops)
    ensures var p' := Next(c, p, op);
            && sid in p'.seats && p'.seats[sid].maximum == p.seats[sid].maximum
            && p'.seats[sid].view == S.Run(p.seats[sid].maximum, ops + SeatOps(p, sid, op))
  {
    hide S.Next, S.Run, RR.Next, S.Prepare;
    assert ops + [] == ops;
    var acts := SeatOps(p, sid, op);
    if |acts| == 1 {
      SessionRunSnoc(p.seats[sid].maximum, ops, acts[0]);
    }
  }

  /** Every session of a pool history is the session of its own operations, so every session theorem applies to it. */
  lemma {:induction false} SeatFollowsTrace(c: RM.Config, ops: seq<Op>, sid: nat)
    ensures var p := Run(c, ops);
            if sid in p.seats then p.seats[sid].view == S.Run(p.seats[sid].maximum, SeatTrace(c, ops, sid)) else SeatTrace(c, ops, sid) == []
    decreases |ops|
  {
    if |ops| == 0 {
    } else {
      var front, last := ops[..|ops| - 1], ops[|ops| - 1];
      var p := Run(c, front);
      SeatFollowsTrace(c, front, sid);
      if sid in p.seats {
        SeatNext(c, p, sid, last, SeatTrace(c, front, sid));
      } else {
        SeatOpened(c, p, sid, last);
      }
    }
  }

  /** A seat that appears is a session just opened. */
  lemma SeatOpened(c: RM.Config, p: Pool, sid: nat, op: Op)
    requires sid !in p.seats
    ensures sid in Next(c, p, op).seats ==> Next(c, p, op).seats[sid].view == S.OPENED
  {
    hide S.Next, RR.Next, S.Prepare;
  }

  /**
   * Over every session and registry history, a prepared share carries a target at least as
   * easy as both networks of its generation, under the binding the session announced.
   */
  lemma PreparedTargetInHistory(c: RM.Config, ops: seq<Op>, sid: nat, share: Share)
    requires Constructible(ops) && sid in Run(c, ops).seats
    ensures var r := Prepared(c, Run(c, ops), sid, share).result;
            var held := S.Held(Run(c, ops).seats[sid].view, share.jobId);
            r.Success? ==> held.Some? && S.EasyEnough(r.value.generation, held.value.target.target, share.time)
  {
    RunInv(c, ops);
    var p := Run(c, ops);
    assert SeatInv(p.allocators, p.seats[sid]);
    S.PreparedTargetIsEasyEnough(p.seats[sid].view, p.seats[sid].maximum, c, p.registry, share.login, share.jobId, share.time,
                                 share.suffix, share.solution, share.nowMs, share.pausedOnly);
  }

  /**
   * Over every pool history a share is prepared exactly when its session is ready for it, its
   * generation suits the announced binding and header time, and the registry passes it.
   */
  lemma PreparedExactlyInHistory(c: RM.Config, ops: seq<Op>, sid: nat, share: Share)
    requires Constructible(ops) && sid in Run(c, ops).seats
    ensures var m, v := Run(c, ops).registry, Run(c, ops).seats[sid].view;
            Prepared(c, Run(c, ops), sid, share).result.Success? <==>
              && SW.Ready(v, share.login, share.jobId, share.suffix)
              && share.jobId in m.entries && SW.Suits(m.entries[share.jobId].generation, S.Held(v, share.jobId).value.target, share.time)
              && SW.Passes(c, m, share.jobId, v.prefix.value.bytes + share.suffix, share.solution, share.nowMs, share.pausedOnly)
  {
    RunInv(c, ops);
    SW.PreparedExactly(Run(c, ops).seats[sid].view, c, Run(c, ops).registry, share.login, share.jobId, share.time, share.suffix,
                       share.solution, share.nowMs, share.pausedOnly);
  }

  /** Over every history, a failing preparation leaves every in-flight count unchanged. */
  lemma FailedPrepareInHistory(c: RM.Config, ops: seq<Op>, sid: nat, share: Share, id: JobId)
    requires Constructible(ops) && sid in Run(c, ops).seats
    ensures Prepared(c, Run(c, ops), sid, share).result.Failure? ==>
              RM.InFlight(Next(c, Run(c, ops), Submit(sid, share)).registry, id) == RM.InFlight(Run(c, ops).registry, id)
  {
    RunInv(c, ops);
    var p := Run(c, ops);
    assert SeatInv(p.allocators, p.seats[sid]);
    S.FailedPrepareKeepsCounts(p.seats[sid].view, p.seats[sid].maximum, c, p.registry, share.login, share.jobId, share.time,
                               share.suffix, share.solution, share.nowMs, share.pausedOnly, id);
  }

  /** The share was admitted in time for its role: before its deadline, or within its late-winner tail. */
  ghost predicate PreparedInTime(c: RM.Config, trace: seq<RR.Op>, i: nat, grant: S.Grant, nonce: Hex32, share: Share) {
    match grant.role
    case Ordinary => RR.AdmittedInTime(c, trace, i, share.jobId, share.nowMs, grant.generation)
    case HistoricalZcashRecovery =>
      RR.GrantedInTime(c, trace + [RR.Admit(share.jobId, share.nowMs)], i, share.jobId, nonce, share.solution, share.nowMs, false, grant.generation)
    case PausedZcashCandidate =>
      RR.GrantedInTime(c, trace, i, share.jobId, nonce, share.solution, share.nowMs, true, grant.generation)
  }

  /** What a successful preparation did to the registry it started from. */
  lemma PreparedBy(c: RM.Config, p: Pool, sid: nat, share: Share)
    requires sid in p.seats && Prepared(c, p, sid, share).result.Success?
    ensures Reaches(p.seats[sid].view, share)
    ensures GrantedBy(c, p.registry, Prepared(c, p, sid, share).result.value, NonceOf(p.seats[sid].view, share).value, share)
  {
    var v := p.seats[sid].view;
    var binding, nonce := S.Held(v, share.jobId).value.target, NonceOf(v, share).value;
    if share.pausedOnly {
      CandidateGranted(c, p.registry, binding, nonce, share, G.PausedZcashCandidate, true);
    } else {
      LiveGranted(c, RM.BeginAdmission(p.registry, share.jobId, share.nowMs), binding, nonce, share);
    }
  }

  lemma CandidateGranted(c: RM.Config, m: RM.Registry, binding: TargetBinding, nonce: Hex32, share: Share, role: G.AdmissionRole,
                         allow: bool)
    ensures var r := S.Confirm(S.CandidateAdmission(c, m, share.jobId, binding, share.time, nonce, share.solution, share.nowMs, role, allow),
                               share.jobId, binding, share.time).result;
            r.Success? ==>
              && r.value.role == role
              && RM.BeginZcashCandidate(c, m, share.jobId, nonce, share.solution, share.nowMs, allow).result == Success(r.value.generation)
  {
  }

  lemma LiveGranted(c: RM.Config, s: RM.Step<JobDescriptor>, binding: TargetBinding, nonce: Hex32, share: Share)
    ensures var r := S.Confirm(S.AfterOrdinary(c, s, share.jobId, binding, share.time, nonce, share.solution, share.nowMs),
                               share.jobId, binding, share.time).result;
            r.Success? ==>
              if r.value.role == G.Ordinary then s.result == Success(r.value.generation)
              else
                && r.value.role == G.HistoricalZcashRecovery
                && RM.BeginZcashCandidate(c, s.next, share.jobId, nonce, share.solution, share.nowMs, false).result
                   == Success(r.value.generation)
  {
    if s.result.Failure? && s.result.error.StaleJob? {
      CandidateGranted(c, s.next, binding, nonce, share, G.HistoricalZcashRecovery, false);
    }
  }

  /** The registry operation that yielded a grant. */
  ghost predicate GrantedBy(c: RM.Config, m: RM.Registry, grant: S.Grant, nonce: Hex32, share: Share) {
    match grant.role
    case Ordinary => RM.BeginAdmission(m, share.jobId, share.nowMs).result == Success(grant.generation)
    case HistoricalZcashRecovery =>
      var tried := RM.BeginAdmission(m, share.jobId, share.nowMs).next;
      RM.BeginZcashCandidate(c, tried, share.jobId, nonce, share.solution, share.nowMs, false).result == Success(grant.generation)
    case PausedZcashCandidate =>
      RM.BeginZcashCandidate(c, m, share.jobId, nonce, share.solution, share.nowMs, true).result == Success(grant.generation)
  }

  lemma GrantedInTrace(c: RM.Config, trace: seq<RR.Op>, grant: S.Grant, nonce: Hex32, share: Share) returns (i: nat)
    ensures GrantedBy(c, RR.Run(c, trace), grant, nonce, share) ==> PreparedInTime(c, trace, i, grant, nonce, share)
  {
    match grant.role
    case Ordinary => i := RR.AdmissionBeforeFirstDeadline(c, trace, share.jobId, share.nowMs);
    case HistoricalZcashRecovery => i := GrantedAfterAdmission(c, trace, nonce, share);
    case PausedZcashCandidate =>
      i := RR.GrantBeforeTailEnds(c, trace, share.jobId, nonce, share.solution, share.nowMs, true);
  }

  lemma AdmitRun(c: RM.Config, trace: seq<RR.Op>, id: JobId, nowMs: nat)
    ensures RR.Run(c, trace + [RR.Admit(id, nowMs)]) == RM.BeginAdmission(RR.Run(c, trace), id, nowMs).next
  {
    assert (trace + [RR.Admit(id, nowMs)])[..|trace|] == trace;
  }

  lemma GrantedAfterAdmission(c: RM.Config, trace: seq<RR.Op>, nonce: Hex32, share: Share) returns (i: nat)
    ensures var admit := RR.Admit(share.jobId, share.nowMs);
            var tried := RM.BeginAdmission(RR.Run(c, trace), share.jobId, share.nowMs).next;
            var r := RM.BeginZcashCandidate(c, tried, share.jobId, nonce, share.solution, share.nowMs, false).result;
            r.Success? ==>
              RR.GrantedInTime(c, trace + [admit], i, share.jobId, nonce, share.solution, share.nowMs, false, r.value)
  {
    var admit := RR.Admit(share.jobId, share.nowMs);
    AdmitRun(c, trace, share.jobId, share.nowMs);
    i := RR.GrantBeforeTailEnds(c, trace + [admit], share.jobId, nonce, share.solution, share.nowMs, false);
  }

  /**
   * Every share prepared anywhere in any pool history is in time: its job was introduced by
   * an earlier delivery, and the share is before the first deadline or, for a late winner,
   * before that deadline plus the tail, with a qualifying hash and Zcash parent.
   */
  lemma PreparedShareIsInTime(c: RM.Config, ops: seq<Op>, sid: nat, share: Share) returns (i: nat)
    requires sid in Run(c, ops).seats
    ensures var p := Run(c, ops);
            var r := Prepared(c, p, sid, share).result;
            r.Success? ==>
              Reaches(p.seats[sid].view, share)
              && PreparedInTime(c, Trace(c, ops), i, r.value, NonceOf(p.seats[sid].view, share).value, share)
  {
    i := 0;
    var p, trace := Run(c, ops), Trace(c, ops);
    if Prepared(c, p, sid, share).result.Success? {
      PreparedBy(c, p, sid, share);
      RegistryFollowsTrace(c, ops);
      i := GrantedInTrace(c, trace, Prepared(c, p, sid, share).result.value, NonceOf(p.seats[sid].view, share).value, share);
    }
  }

  /**
   * A context re-qualified anywhere in any pool history keeps its generation, is still easy
   * enough for both networks and is within its late-winner tail, with a qualifying hash and
   * parent. The generation it held is never found changed, so a refusal is the registry's own.
   */
  lemma RequalifiedInHistory(c: RM.Config, ops: seq<Op>, k: nat, nowMs: nat, recoveryOnly: bool) returns (i: nat)
    requires Constructible(ops) && k < |Run(c, ops).contexts|
    ensures var p, ctx := Run(c, ops), Run(c, ops).contexts[k];
            var r := Requalified(c, p, k, nowMs, recoveryOnly).result;
            if r.Failure? then r.error.Registry?
            else
              && r.value.generation == ctx.grant.generation && S.EasyEnough(r.value.generation, ctx.target, ctx.time)
              && RR.GrantedInTime(c, Trace(c, ops), i, ctx.grant.generation.jobId, ctx.nonce, ctx.solution, nowMs,
                                  AllowsNoCurrent(ctx, recoveryOnly), ctx.grant.generation)
  {
    var p := Run(c, ops);
    var ctx := p.contexts[k];
    var id, allow := ctx.grant.generation.jobId, AllowsNoCurrent(ctx, recoveryOnly);
    RunInv(c, ops);
    assert ContextInv(p.registry.entries, ctx);
    RegistryFollowsTrace(c, ops);
    CandidateIdentity(c, p.registry, id, ctx.nonce, ctx.solution, nowMs, allow);
    i := RR.GrantBeforeTailEnds(c, Trace(c, ops), id, ctx.nonce, ctx.solution, nowMs, allow);
  }

  // ---------------------------------------------------------------- guards

  function GuardOf(grant: S.Grant): multiset<JobId> {
    if grant.role == G.Ordinary then multiset{grant.generation.jobId} else multiset{}
  }

  function Guards(contexts: seq<Context>): multiset<JobId> {
    if |contexts| == 0 then multiset{} else Guards(contexts[..|contexts| - 1]) + GuardOf(contexts[|contexts| - 1].grant)
  }

  /** Every ordinary guard somebody holds, inside a context or not. */
  function HeldGuards(p: Pool): multiset<JobId> {
    p.loose + Guards(p.contexts)
  }

  lemma {:induction false} GuardsConcat(a: seq<Context>, b: seq<Context>)
    ensures Guards(a + b) == Guards(a) + Guards(b)
    decreases |b|
  {
    if |b| == 0 {
      assert a + b == a;
    } else {
      GuardsConcat(a, b[..|b| - 1]);
      assert (a + b)[..|a + b| - 1] == a + b[..|b| - 1];
    }
  }

  lemma GuardsOne(ctx: Context)
    ensures Guards([ctx]) == GuardOf(ctx.grant)
  {
    assert [ctx][..0] == [];
  }

  lemma GuardsReplaced(contexts: seq<Context>, k: nat, with: seq<Context>)
    requires k < |contexts|
    ensures GuardOf(contexts[k].grant) <= Guards(contexts)
    ensures Guards(Replace(contexts, k, with)) == Guards(contexts) - GuardOf(contexts[k].grant) + Guards(with)
  {
    var front, back := contexts[..k], contexts[k + 1..];
    assert contexts == front + [contexts[k]] + back;
    GuardsConcat(front + [contexts[k]], back);
    GuardsConcat(front, [contexts[k]]);
    GuardsOne(contexts[k]);
    GuardsConcat(front + with, back);
    GuardsConcat(front, with);
  }

  /** The guards held after one registry operation; none is dropped that nobody holds. */
  function GuardStep(r: RM.Registry, guards: multiset<JobId>, op: RR.Op): Option<multiset<JobId>> {
    match op
    case Admit(id, nowMs) => Some(if RM.BeginAdmission(r, id, nowMs).result.Success? then guards + multiset{id} else guards)
    case Drop(id) => if id in guards then Some(guards - multiset{id}) else None
    case _ => Some(guards)
  }

  function Ledger(c: RM.Config, r: RM.Registry, guards: multiset<JobId>, ops: seq<RR.Op>): Option<multiset<JobId>>
    decreases |ops|
  {
    if |ops| == 0 then Some(guards)
    else
      var held := GuardStep(r, guards, ops[0]);
      if held.None? then None else Ledger(c, RR.Next(c, r, ops[0]), held.value, ops[1..])
  }

  lemma LedgerCons(c: RM.Config, r: RM.Registry, guards: multiset<JobId>, op: RR.Op, rest: seq<RR.Op>)
    requires GuardStep(r, guards, op).Some?
    ensures Ledger(c, r, guards, [op] + rest) == Ledger(c, RR.Next(c, r, op), GuardStep(r, guards, op).value, rest)
  {
    assert ([op] + rest)[1..] == rest;
  }

  lemma LedgerNone(c: RM.Config, r: RM.Registry, guards: multiset<JobId>)
    ensures Ledger(c, r, guards, []) == Some(guards)
  {
  }

  lemma LedgerOne(c: RM.Config, r: RM.Registry, guards: multiset<JobId>, op: RR.Op)
    ensures Ledger(c, r, guards, [op]) == GuardStep(r, guards, op)
  {
    assert [op][1..] == [];
  }

  lemma LedgerReleases(c: RM.Config, r: RM.Registry, guards: multiset<JobId>, grant: S.Grant)
    requires GuardOf(grant) <= guards
    ensures Ledger(c, r, guards, Releases(grant)) == Some(guards - GuardOf(grant))
  {
    if grant.role == G.Ordinary {
      assert grant.generation.jobId in GuardOf(grant);
      LedgerOne(c, r, guards, RR.Drop(grant.generation.jobId));
    } else {
      assert guards - multiset{} == guards;
    }
  }

  lemma LedgerRequalifies(c: RM.Config, r: RM.Registry, guards: multiset<JobId>, ctx: Context, nowMs: nat, recoveryOnly: bool)
    requires GuardOf(ctx.grant) <= guards
    ensures Ledger(c, r, guards, Requalifies(ctx, nowMs, recoveryOnly)) == Some(guards - GuardOf(ctx.grant))
  {
    var attempt := RR.Recover(ctx.grant.generation.jobId, ctx.nonce, ctx.solution, nowMs, AllowsNoCurrent(ctx, recoveryOnly));
    LedgerCons(c, r, guards, attempt, Releases(ctx.grant));
    LedgerReleases(c, RR.Next(c, r, attempt), guards, ctx.grant);
  }

  function GuardIn(r: Result<S.Grant, S.SessionError>): multiset<JobId> {
    if r.Success? then GuardOf(r.value) else multiset{}
  }

  function GuardTaken(s: RM.Step<JobDescriptor>): multiset<JobId> {
    if s.result.Success? then multiset{s.result.value.jobId} else multiset{}
  }

  /** The guard of an ordinary attempt, if the final checks let it be handed out. */
  function GuardKept(s: RM.Step<JobDescriptor>, binding: TargetBinding, share: Share): multiset<JobId> {
    if s.result.Success? && S.CheckRetained(Some(s.result.value), share.jobId, binding, share.time).None?
    then GuardTaken(s) else multiset{}
  }

  lemma LedgerAfterAdmission(c: RM.Config, r: RM.Registry, guards: multiset<JobId>, s: RM.Step<JobDescriptor>,
                             binding: TargetBinding, nonce: Hex32, share: Share)
    ensures Ledger(c, r, guards + GuardTaken(s), AfterAdmission(s, binding, nonce, share)) == Some(guards + GuardKept(s, binding, share))
  {
    if s.result.Success? {
      var id := s.result.value.jobId;
      LedgerOne(c, r, guards + multiset{id}, RR.Drop(id));
      assert guards + multiset{id} - multiset{id} == guards + multiset{};
    } else {
      LedgerOne(c, r, guards + multiset{}, RR.Recover(share.jobId, nonce, share.solution, share.nowMs, false));
    }
  }

  /** An ordinary attempt and what follows it leave exactly the guard that is handed out. */
  lemma LedgerLive(c: RM.Config, m: RM.Registry, guards: multiset<JobId>, binding: TargetBinding, nonce: Hex32, share: Share)
    requires RI.Inv(c, m)
    ensures var s := RM.BeginAdmission(m, share.jobId, share.nowMs);
            Ledger(c, m, guards, [RR.Admit(share.jobId, share.nowMs)] + AfterAdmission(s, binding, nonce, share))
            == Some(guards + GuardKept(s, binding, share))
  {
    var s := RM.BeginAdmission(m, share.jobId, share.nowMs);
    LedgerCons(c, m, guards, RR.Admit(share.jobId, share.nowMs), AfterAdmission(s, binding, nonce, share));
    if s.result.Success? {
      S.AdmittedIdentity(c, m, share.jobId, share.nowMs);
    }
    assert guards == guards + multiset{};
    LedgerAfterAdmission(c, s.next, guards, s, binding, nonce, share);
  }

  /** The guard a submission keeps, if it gets as far as an ordinary attempt. */
  function SubmissionGuard(m: RM.Registry, v: S.View, share: Share): multiset<JobId> {
    if !Reaches(v, share) || share.pausedOnly then multiset{}
    else GuardKept(RM.BeginAdmission(m, share.jobId, share.nowMs), S.Held(v, share.jobId).value.target, share)
  }

  lemma LedgerSubmit(c: RM.Config, m: RM.Registry, guards: multiset<JobId>, v: S.View, share: Share)
    requires RI.Inv(c, m)
    ensures Ledger(c, m, guards, Performed(c, m, v, share)) == Some(guards + SubmissionGuard(m, v, share))
  {
    assert guards + multiset{} == guards;
    if Reaches(v, share) {
      var nonce := NonceOf(v, share).value;
      if share.pausedOnly {
        LedgerOne(c, m, guards, RR.Recover(share.jobId, nonce, share.solution, share.nowMs, true));
      } else {
        LedgerLive(c, m, guards, S.Held(v, share.jobId).value.target, nonce, share);
      }
    }
  }

  lemma LiveHolds(c: RM.Config, s: RM.Step<JobDescriptor>, binding: TargetBinding, nonce: Hex32, share: Share)
    ensures GuardIn(S.Confirm(S.AfterOrdinary(c, s, share.jobId, binding, share.time, nonce, share.solution, share.nowMs),
                              share.jobId, binding, share.time).result) == GuardKept(s, binding, share)
  {
    CandidateGranted(c, s.next, binding, nonce, share, G.HistoricalZcashRecovery, false);
  }

  /** A submission hands out a context holding exactly the guard it kept. */
  lemma SubmissionHolds(c: RM.Config, m: RM.Registry, v: S.View, share: Share)
    ensures GuardIn(S.Prepare(v, c, m, share.login, share.jobId, share.time, share.suffix, share.solution, share.nowMs, share.pausedOnly).result)
         == SubmissionGuard(m, v, share)
  {
    if Reaches(v, share) {
      var binding, nonce := S.Held(v, share.jobId).value.target, NonceOf(v, share).value;
      CandidateGranted(c, m, binding, nonce, share, G.PausedZcashCandidate, true);
      LiveHolds(c, RM.BeginAdmission(m, share.jobId, share.nowMs), binding, nonce, share);
    }
  }

  lemma SubmittedGuards(c: RM.Config, p: Pool, sid: nat, share: Share)
    requires sid in p.seats
    ensures HeldGuards(Submitted(c, p, sid, share)) == HeldGuards(p) + GuardIn(Prepared(c, p, sid, share).result)
  {
    var v, r := p.seats[sid].view, Prepared(c, p, sid, share).result;
    if r.Success? {
      PreparedBy(c, p, sid, share);
      GuardsConcat(p.contexts, [ContextOf(v, share, r.value)]);
      GuardsOne(ContextOf(v, share, r.value));
    }
  }

  /** Whatever its outcome, a re-qualification gives up the guard of its context and takes no other. */
  lemma RefilteredGuards(c: RM.Config, p: Pool, k: nat, nowMs: nat, recoveryOnly: bool)
    requires k < |p.contexts|
    ensures HeldGuards(Refiltered(c, p, k, nowMs, recoveryOnly)) == HeldGuards(p) - GuardOf(p.contexts[k].grant)
  {
    var ctx, r := p.contexts[k], Requalified(c, p, k, nowMs, recoveryOnly).result;
    var with := if r.Success? then [ctx.(grant := r.value)] else [];
    if r.Success? {
      GuardsOne(ctx.(grant := r.value));
    }
    GuardGivenUp(p.loose, p.contexts, k, with);
  }

  lemma ResolvedGuards(p: Pool, k: nat)
    requires k < |p.contexts|
    ensures HeldGuards(Resolved(p, k)) == HeldGuards(p) - GuardOf(p.contexts[k].grant)
  {
    GuardGivenUp(p.loose, p.contexts, k, []);
  }

  lemma GuardHeld(p: Pool, k: nat)
    requires k < |p.contexts|
    ensures GuardOf(p.contexts[k].grant) <= HeldGuards(p)
  {
    GuardsReplaced(p.contexts, k, []);
  }

  lemma GuardGivenUp(loose: multiset<JobId>, contexts: seq<Context>, k: nat, with: seq<Context>)
    requires k < |contexts| && Guards(with) == multiset{}
    ensures loose + Guards(Replace(contexts, k, with)) == loose + Guards(contexts) - GuardOf(contexts[k].grant)
  {
    GuardsReplaced(contexts, k, with);
  }

  lemma LooseGuard(loose: multiset<JobId>, guards: multiset<JobId>, id: JobId)
    ensures loose + multiset{id} + guards == loose + guards + multiset{id}
    ensures id in loose ==> loose - multiset{id} + guards == loose + guards - multiset{id}
    ensures id !in loose ==> loose - multiset{id} == loose
  {
  }

  /** The guards held after one operation. */
  function GuardsAfter(p: Pool, op: Op): multiset<JobId> {
    match op
    case Submit(sid, share) =>
      if sid in p.seats then HeldGuards(p) + SubmissionGuard(p.registry, p.seats[sid].view, share) else HeldGuards(p)
    case Refilter(k, nowMs, recoveryOnly) => if k < |p.contexts| then HeldGuards(p) - GuardOf(p.contexts[k].grant) else HeldGuards(p)
    case Resolve(k) => if k < |p.contexts| then HeldGuards(p) - GuardOf(p.contexts[k].grant) else HeldGuards(p)
    case Use(use) => LooseAfter(p, use) + Guards(p.contexts)
    case _ => HeldGuards(p)
  }

  lemma SubmitHolds(c: RM.Config, p: Pool, sid: nat, share: Share)
    ensures HeldGuards(Next(c, p, Submit(sid, share))) == GuardsAfter(p, Submit(sid, share))
  {
    if sid in p.seats {
      SubmissionHolds(c, p.registry, p.seats[sid].view, share);
      SubmittedGuards(c, p, sid, share);
    }
  }

  lemma NextHolds(c: RM.Config, p: Pool, op: Op)
    ensures HeldGuards(Next(c, p, op)) == GuardsAfter(p, op)
  {
    hide RR.Next, S.Prepare, S.Requalify, LooseAfter, Guards, GuardOf, SubmissionGuard, Submitted;
    match op
    case Submit(sid, share) => SubmitHolds(c, p, sid, share);
    case Refilter(k, nowMs, recoveryOnly) =>
      if k < |p.contexts| {
        RefilteredGuards(c, p, k, nowMs, recoveryOnly);
      }
    case Resolve(k) =>
      if k < |p.contexts| {
        ResolvedGuards(p, k);
      }
    case _ =>
  }

  lemma UseStep(p: Pool, use: RR.Op)
    ensures !Unheld(p, use) ==> GuardStep(p.registry, HeldGuards(p), use) == Some(LooseAfter(p, use) + Guards(p.contexts))
    ensures Unheld(p, use) ==> HeldGuards(p) == LooseAfter(p, use) + Guards(p.contexts)
  {
    hide Guards, RM.BeginAdmission;
    if use.Admit? || use.Drop? {
      LooseGuard(p.loose, Guards(p.contexts), use.id);
    }
  }

  /** Every operation accounts for the guards it takes and gives up. */
  lemma LedgerPerforms(c: RM.Config, p: Pool, op: Op)
    requires RI.Inv(c, p.registry)
    ensures Ledger(c, p.registry, HeldGuards(p), Performs(c, p, op)) == Some(GuardsAfter(p, op))
  {
    hide Ledger, Guards, GuardOf, HeldGuards, LooseAfter, Performed, SubmissionGuard, GuardStep, Requalifies, Releases, RI.Inv;
    LedgerNone(c, p.registry, HeldGuards(p));
    match op
    case Submit(sid, share) =>
      if sid in p.seats {
        LedgerSubmit(c, p.registry, HeldGuards(p), p.seats[sid].view, share);
      }
    case Refilter(k, nowMs, recoveryOnly) =>
      if k < |p.contexts| {
        GuardHeld(p, k);
        LedgerRequalifies(c, p.registry, HeldGuards(p), p.contexts[k], nowMs, recoveryOnly);
      }
    case Resolve(k) =>
      if k < |p.contexts| {
        GuardHeld(p, k);
        LedgerReleases(c, p.registry, HeldGuards(p), p.contexts[k].grant);
      }
    case Use(use) =>
      UseStep(p, use);
      LedgerOne(c, p.registry, HeldGuards(p), use);
    case _ =>
  }

  lemma StepFollows(c: RM.Config, trace: seq<RR.Op>, op: RR.Op)
    requires RH.Legal(c, trace) && GuardStep(RR.Run(c, trace), RH.Outstanding(c, trace), op).Some?
    ensures RH.Legal(c, trace + [op])
    ensures RH.Outstanding(c, trace + [op]) == GuardStep(RR.Run(c, trace), RH.Outstanding(c, trace), op).value
    ensures RR.Run(c, trace + [op]) == RR.Next(c, RR.Run(c, trace), op)
  {
    hide RR.Next, RM.BeginAdmission;
    assert (trace + [op])[..|trace|] == trace;
  }

  /** Where the ledger goes on, the longer trace is legal and leaves the ledger's guards outstanding. */
  lemma {:induction false} LedgerFollows(c: RM.Config, trace: seq<RR.Op>, guards: multiset<JobId>, r: RM.Registry, ops: seq<RR.Op>)
    requires RH.Legal(c, trace) && r == RR.Run(c, trace) && guards == RH.Outstanding(c, trace) && Ledger(c, r, guards, ops).Some?
    ensures RH.Legal(c, trace + ops) && RH.Outstanding(c, trace + ops) == Ledger(c, r, guards, ops).value
    decreases |ops|
  {
    hide RH.Legal, RH.Outstanding, RR.Run, RR.Next, GuardStep;
    if |ops| == 0 {
      assert trace + ops == trace;
    } else {
      StepFollows(c, trace, ops[0]);
      LedgerFollows(c, trace + [ops[0]], GuardStep(r, guards, ops[0]).value, RR.Next(c, r, ops[0]), ops[1..]);
      assert trace + [ops[0]] + ops[1..] == trace + ops;
    }
  }

  lemma {:induction false} TraceLedger(c: RM.Config, ops: seq<Op>)
    ensures RH.Legal(c, Trace(c, ops)) && RH.Outstanding(c, Trace(c, ops)) == HeldGuards(Run(c, ops))
    decreases |ops|
  {
    if |ops| == 0 {
    } else {
      var front, last := ops[..|ops| - 1], ops[|ops| - 1];
      var p := Run(c, front);
      TraceLedger(c, front);
      RegistryFollowsTrace(c, front);
      RR.RunInv(c, Trace(c, front));
      NextHolds(c, p, last);
      LedgerPerforms(c, p, last);
      LedgerFollows(c, Trace(c, front), HeldGuards(p), p.registry, Performs(c, p, last));
    }
  }

  /**
   * Over every pool history, no guard is dropped that nobody holds, and every generation's
   * in-flight counter is the number of guards held on it.
   */
  lemma GuardsInHistory(c: RM.Config, ops: seq<Op>)
    ensures RH.Legal(c, Trace(c, ops)) && RH.Outstanding(c, Trace(c, ops)) == HeldGuards(Run(c, ops))
    ensures RH.Balanced(Run(c, ops).registry.entries, HeldGuards(Run(c, ops)))
  {
    TraceLedger(c, ops);
    RegistryFollowsTrace(c, ops);
    RH.GuardConservation(c, Trace(c, ops));
  }

  /** Over every pool history, a held ordinary context keeps its generation from being collected. */
  lemma HeldContextNeverRetired(c: RM.Config, ops: seq<Op>, k: nat, nowMs: nat)
    requires k < |Run(c, ops).contexts| && Run(c, ops).contexts[k].grant.role == G.Ordinary
    ensures var p, id := Run(c, ops), Run(c, ops).contexts[k].grant.generation.jobId;
            && id in p.registry.entries && p.registry.entries[id].storage.Live?
            && RM.InFlight(p.registry, id) == Some(HeldGuards(p)[id]) && !RH.Retires(p.registry, id, nowMs)
  {
    var p, id := Run(c, ops), Run(c, ops).contexts[k].grant.generation.jobId;
    GuardsInHistory(c, ops);
    RegistryFollowsTrace(c, ops);
    GuardsReplaced(p.contexts, k, []);
    assert id in GuardOf(p.contexts[k].grant);
    RH.GuardedNeverRetired(c, Trace(c, ops), id);
    RH.RetirementCompacts(p.registry, id, nowMs);
  }

  // ---------------------------------------------------------------- nonces

  /** A prepared share's nonce starts with its session's own prefix. */
  lemma PreparedNonce(c: RM.Config, p: Pool, sid: nat, share: Share)
    requires PoolInv(c, p) && sid in p.seats && Prepared(c, p, sid, share).result.Success?
    ensures var seat := p.seats[sid];
            && seat.issued.Some? && NonceOf(seat.view, share).Some?
            && (var (owner, counter) := seat.issued.value;
                && counter < N.Capacity(owner.profile) && |share.suffix| == N.SuffixWidth(owner.profile)
                && N.JoinNonce(N.Prefix(owner.profile, owner.lease, counter), share.suffix) == Success(NonceOf(seat.view, share).value))
  {
    PreparedBy(c, p, sid, share);
    assert SeatInv(p.allocators, p.seats[sid]);
    assert p.allocators[p.seats[sid].issued.value.0].Valid(p.seats[sid].issued.value.0.profile);
  }

  /**
   * Two sessions never prepare the same 32-byte nonce, at whatever points of a history and
   * whatever suffixes their miners choose.
   */
  lemma SessionsNeverShareNonces(c: RM.Config, ops: seq<Op>, i: nat, s: nat, share: Share, t: nat, share': Share)
    requires Constructible(ops) && i <= |ops| && s != t
    requires s in Run(c, ops[..i]).seats && t in Run(c, ops).seats
    ensures Prepared(c, Run(c, ops[..i]), s, share).result.Success? && Prepared(c, Run(c, ops), t, share').result.Success? ==>
              NonceOf(Run(c, ops[..i]).seats[s].view, share) != NonceOf(Run(c, ops).seats[t].view, share')
  {
    var p, q := Run(c, ops[..i]), Run(c, ops);
    if Prepared(c, p, s, share).result.Success? && Prepared(c, q, t, share').result.Success? {
      RunInv(c, ops[..i]);
      RunInv(c, ops);
      RunEvolves(c, ops, i);
      PreparedNonce(c, p, s, share);
      PreparedNonce(c, q, t, share');
      assert SeatEvolves(p.seats[s], q.seats[s]);
      CountersDecide(q.seats[s].issued.value, share.suffix, q.seats[t].issued.value, share'.suffix);
    }
  }

  lemma CountersDecide(a: (Owner, nat), suffix: seq<byte>, b: (Owner, nat), suffix': seq<byte>)
    requires a != b && a.1 < N.Capacity(a.0.profile) && b.1 < N.Capacity(b.0.profile)
    requires |suffix| == N.SuffixWidth(a.0.profile) && |suffix'| == N.SuffixWidth(b.0.profile)
    ensures N.JoinNonce(N.Prefix(a.0.profile, a.0.lease, a.1), suffix) != N.JoinNonce(N.Prefix(b.0.profile, b.0.lease, b.1), suffix')
  {
    N.DistinctPrefixesNeverCollide(a.0.profile, a.0.lease, a.1, suffix, b.0.profile, b.0.lease, b.1, suffix');
  }
}
