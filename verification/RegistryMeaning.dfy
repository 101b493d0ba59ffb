/**
 * What each registry operation does to the work on offer, as a miner's session sees it: a
 * board of jobs with deadlines, in the order of their roles. The registry keeps four
 * overlapping views and expires them eagerly; the board is what they amount to.
 */
module RegistryMeaning {
  import opened Common
  import opened Protocol
  import opened RegistryModel
  import opened RegistryInvariant
  import opened RegistryRuns
  import H = RegistryHistory

  /** A job on offer and the instant from which it is no longer accepted. */
  datatype Offer = Offer(id: JobId, untilMs: nat)

  datatype Board = Board(current: Option<Offer>, recent: seq<Offer>)

  const NOTHING: Board := Board(None, [])

  function OfferOf(entries: Entries, id: JobId): Offer {
    Offer(id, if id in entries then entries[id].acceptUntilMs else 0)
  }

  function OffersOf(entries: Entries, ids: seq<JobId>): (offers: seq<Offer>)
    ensures |offers| == |ids| && forall i :: 0 <= i < |ids| ==> offers[i] == OfferOf(entries, ids[i])
  {
    seq(|ids|, i requires 0 <= i < |ids| => OfferOf(entries, ids[i]))
  }

  function BoardOf(r: Registry): Board {
    Board(if r.current.Some? then Some(OfferOf(r.entries, r.current.value)) else None, OffersOf(r.entries, r.recent))
  }

  // ---------------------------------------------------------------- boards

  function Unexpired(offers: seq<Offer>, nowMs: nat): seq<Offer> {
    if |offers| == 0 then []
    else
      var last := offers[|offers| - 1];
      Unexpired(offers[..|offers| - 1], nowMs) + (if nowMs < last.untilMs then [last] else [])
  }

  /** What is left of a board at an instant. */
  function BoardAt(b: Board, nowMs: nat): Board {
    Board(if b.current.Some? && nowMs < b.current.value.untilMs then b.current else None, Unexpired(b.recent, nowMs))
  }

  function Others(offers: seq<Offer>, id: JobId): seq<Offer> {
    if |offers| == 0 then []
    else
      var last := offers[|offers| - 1];
      Others(offers[..|offers| - 1], id) + (if last.id != id then [last] else [])
  }

  function Withdrawn(b: Board, id: JobId): Board {
    Board(if b.current.Some? && b.current.value.id == id then None else b.current, Others(b.recent, id))
  }

  /** The offer, for no longer than until `untilMs`. */
  function Capped(o: Offer, untilMs: nat): Offer {
    o.(untilMs := MinOf(o.untilMs, untilMs))
  }

  /** Grace for a superseded job: a current one leads the recent ones, a recent one keeps its place. */
  function Graced(b: Board, id: JobId, untilMs: nat): Board {
    if b.current.Some? && b.current.value.id == id then Board(None, [Capped(b.current.value, untilMs)] + b.recent)
    else
      Board(b.current, seq(|b.recent|, i requires 0 <= i < |b.recent| =>
                             if b.recent[i].id == id then Capped(b.recent[i], untilMs) else b.recent[i]))
  }

  function Promoted(b: Board, id: JobId, untilMs: nat): Board {
    Board(Some(Offer(id, untilMs)), (if b.current.Some? then [b.current.value] else []) + b.recent)
  }

  /** What an event makes of the work still on offer when it is applied. */
  function AfterEvent(b: Board, e: BackendEvent, anchorMs: nat): Board {
    match e
    case JobActivated(_, job) => Promoted(b, job.jobId, anchorMs + job.maxAgeMs)
    case JobInvalidated(_, id, reason, acceptForMs) =>
      if reason == Superseded then Graced(b, id, anchorMs + acceptForMs) else Withdrawn(b, id)
    case GenerationClosed(_, id) => Withdrawn(b, id)
    case _ => b
  }

  /** A snapshot's job on its own terms, never beyond a deadline it already had. */
  function ListedOffer(entries: Entries, a: AcceptableJob, startedMs: nat): Offer {
    var id, untilMs := a.job.jobId, startedMs + a.acceptForMs;
    Offer(id, if id in entries then MinOf(entries[id].acceptUntilMs, untilMs) else untilMs)
  }

  function Listed(entries: Entries, current: Option<AcceptableJob>, recent: seq<AcceptableJob>, startedMs: nat): Board {
    Board(if current.Some? then Some(ListedOffer(entries, current.value, startedMs)) else None,
          seq(|recent|, i requires 0 <= i < |recent| => ListedOffer(entries, recent[i], startedMs)))
  }

  // ---------------------------------------------------------------- expiry

  lemma OffersSnoc(entries: Entries, ids: seq<JobId>, id: JobId)
    ensures OffersOf(entries, ids + [id]) == OffersOf(entries, ids) + [OfferOf(entries, id)]
  {
  }

  lemma UnexpiredSnoc(offers: seq<Offer>, o: Offer, nowMs: nat)
    ensures Unexpired(offers + [o], nowMs) == Unexpired(offers, nowMs) + (if nowMs < o.untilMs then [o] else [])
  {
    assert (offers + [o])[..|offers|] == offers;
  }

  lemma {:induction false} ExpiredOffers(entries: Entries, entries': Entries, ids: seq<JobId>, keep: set<JobId>, nowMs: nat)
    requires forall id :: id in ids ==> OfferOf(entries', id) == OfferOf(entries, id)
    requires forall id :: id in ids ==> (id in keep <==> nowMs < OfferOf(entries, id).untilMs)
    ensures OffersOf(entries', Retain(ids, keep)) == Unexpired(OffersOf(entries, ids), nowMs)
    decreases |ids|
  {
    if |ids| == 0 {
    } else {
      var front, last := ids[..|ids| - 1], ids[|ids| - 1];
      hide OffersOf, OfferOf, Unexpired, Retain;
      ExpiredOffers(entries, entries', front, keep, nowMs);
      assert ids == front + [last] && last in ids;
      OffersSnoc(entries, front, last);
      UnexpiredSnoc(OffersOf(entries, front), OfferOf(entries, last), nowMs);
      H.RetainSnoc(front, last, keep);
      OffersSnoc(entries', Retain(front, keep), last);
    }
  }

  /** Eager expiry of the roles leaves exactly the offers that have not run out. */
  lemma ExpiryMeaning(c: Config, r: Registry, nowMs: nat)
    requires RoleInv(c, r)
    ensures BoardOf(ExpireAt(r, nowMs)) == BoardAt(BoardOf(r), nowMs)
  {
    var entries' := ExpireEntries(r.entries, nowMs);
    var keep := AcceptingIds(entries', nowMs);
    forall id | HasRole(r.current, r.recent, id)
      ensures OfferOf(entries', id) == OfferOf(r.entries, id) && (id in keep <==> nowMs < OfferOf(r.entries, id).untilMs)
    {
      assert IsAccepting(r.entries, id) && WellFormedEntry(id, r.entries[id]);
    }
    assert forall id :: id in r.recent ==> HasRole(r.current, r.recent, id);
    assert r.current.Some? ==> HasRole(r.current, r.recent, r.current.value);
    ExpiredOffers(r.entries, entries', r.recent, keep, nowMs);
  }

  // ---------------------------------------------------------------- events

  lemma SameOffers(entries: Entries, entries': Entries, ids: seq<JobId>)
    requires forall id :: id in ids ==> OfferOf(entries', id) == OfferOf(entries, id)
    ensures OffersOf(entries', ids) == OffersOf(entries, ids)
  {
    forall i | 0 <= i < |ids| ensures OffersOf(entries', ids)[i] == OffersOf(entries, ids)[i] {
      assert ids[i] in ids;
    }
  }

  lemma {:induction false} OtherOffers(entries: Entries, entries': Entries, ids: seq<JobId>, id: JobId)
    requires forall x :: x != id ==> OfferOf(entries', x) == OfferOf(entries, x)
    ensures OffersOf(entries', Without(ids, id)) == Others(OffersOf(entries, ids), id)
    decreases |ids|
  {
    if |ids| == 0 {
    } else {
      var front, last := ids[..|ids| - 1], ids[|ids| - 1];
      OtherOffers(entries, entries', front, id);
      assert ids == front + [last];
      OtherOffersSnoc(entries, entries', front, last, id);
    }
  }

  lemma OtherOffersSnoc(entries: Entries, entries': Entries, front: seq<JobId>, last: JobId, id: JobId)
    requires last != id ==> OfferOf(entries', last) == OfferOf(entries, last)
    requires OffersOf(entries', Without(front, id)) == Others(OffersOf(entries, front), id)
    ensures OffersOf(entries', Without(front + [last], id)) == Others(OffersOf(entries, front + [last]), id)
  {
    hide OffersOf, OfferOf, Others, Without;
    OffersSnoc(entries, front, last);
    OthersSnoc(OffersOf(entries, front), OfferOf(entries, last), id);
    WithoutSnoc(front, last, id);
    OffersSnoc(entries', Without(front, id), last);
    OfferId(entries, last);
  }

  lemma OfferId(entries: Entries, id: JobId)
    ensures OfferOf(entries, id).id == id
  {
  }

  lemma OthersSnoc(offers: seq<Offer>, o: Offer, id: JobId)
    ensures Others(offers + [o], id) == Others(offers, id) + (if o.id != id then [o] else [])
  {
    assert (offers + [o])[..|offers|] == offers;
  }

  lemma WithoutSnoc(front: seq<JobId>, last: JobId, id: JobId)
    ensures Without(front + [last], id) == Without(front, id) + (if last != id then [last] else [])
  {
    var keep := set x | x in front + [last] && x != id;
    H.RetainSnoc(front, last, keep);
    H.RetainCongruent(front, keep, set x | x in front && x != id);
  }

  lemma WithdrawnMeaning(r: Registry, id: JobId, entries: Entries)
    requires forall x :: x != id ==> OfferOf(entries, x) == OfferOf(r.entries, x)
    ensures BoardOf(DropRole(r.(entries := entries), id)) == Withdrawn(BoardOf(r), id)
  {
    OtherOffers(r.entries, entries, r.recent, id);
  }

  lemma ActivateMeaning(c: Config, r: Registry, job: JobDescriptor, anchorMs: nat)
    requires RoleInv(c, r) && Activate(c, r, job, anchorMs).result.Success?
    requires r.current.Some? ==> r.current.value in AcceptingIds(r.entries, anchorMs)
    ensures BoardOf(Activate(c, r, job, anchorMs).next) == Promoted(BoardOf(r), job.jobId, anchorMs + job.maxAgeMs)
  {
    hide Activate, Insert, PushPrior, Promoted;
    ActivateShape(c, r, job, anchorMs);
    InsertMeaning(c, r, job, anchorMs + job.maxAgeMs);
  }

  lemma InsertMeaning(c: Config, r: Registry, job: JobDescriptor, untilMs: nat)
    requires RoleInv(c, r) && job.jobId !in r.entries
    ensures BoardOf(Insert(PushPrior(r, r.current), job, untilMs)) == Promoted(BoardOf(r), job.jobId, untilMs)
  {
    var next := Insert(PushPrior(r, r.current), job, untilMs);
    forall id | HasRole(r.current, r.recent, id) ensures OfferOf(next.entries, id) == OfferOf(r.entries, id) {
      assert IsAccepting(r.entries, id);
    }
    assert forall id :: id in r.recent ==> HasRole(r.current, r.recent, id);
    SameOffers(r.entries, next.entries, r.recent);
    if r.current.Some? {
      assert HasRole(r.current, r.recent, r.current.value);
      assert OffersOf(next.entries, [r.current.value] + r.recent) == [OfferOf(next.entries, r.current.value)] + OffersOf(next.entries, r.recent);
    } else {
      assert [] + BoardOf(r).recent == BoardOf(r).recent;
    }
  }

  lemma SupersedeMeaning(c: Config, r: Registry, id: JobId, proposed: nat, anchorMs: nat)
    requires RoleInv(c, r) && IsAccepting(r.entries, id) && anchorMs < r.entries[id].acceptUntilMs && anchorMs < proposed
    ensures BoardOf(Supersede(r, id, proposed, anchorMs)) == Graced(BoardOf(r), id, proposed)
  {
    assert WellFormedEntry(id, r.entries[id]);
    assert HasRole(r.current, r.recent, id);
    var next := Supersede(r, id, proposed, anchorMs);
    if r.current == Some(id) {
      assert id !in r.recent;
      SameOffers(r.entries, next.entries, r.recent);
      assert OffersOf(next.entries, [id] + r.recent) == [OfferOf(next.entries, id)] + OffersOf(next.entries, r.recent);
    }
  }

  /** A job that is not on the board: withdrawing or gracing it changes nothing. */
  lemma {:induction false} OthersAreAll(offers: seq<Offer>, id: JobId)
    requires forall i :: 0 <= i < |offers| ==> offers[i].id != id
    ensures Others(offers, id) == offers
    decreases |offers|
  {
    if |offers| == 0 {
    } else {
      OthersAreAll(offers[..|offers| - 1], id);
    }
  }

  lemma NoRoleMeaning(r: Registry, id: JobId, untilMs: nat)
    requires !HasRole(r.current, r.recent, id)
    ensures Withdrawn(BoardOf(r), id) == BoardOf(r) && Graced(BoardOf(r), id, untilMs) == BoardOf(r)
  {
    OthersAreAll(BoardOf(r).recent, id);
    GraceElsewhere(BoardOf(r), id, untilMs);
  }

  lemma GraceElsewhere(b: Board, id: JobId, untilMs: nat)
    requires (b.current.Some? ==> b.current.value.id != id) && forall i :: 0 <= i < |b.recent| ==> b.recent[i].id != id
    ensures Graced(b, id, untilMs) == b
  {
    assert Graced(b, id, untilMs).recent == b.recent;
  }

  lemma InvalidateMeaning(c: Config, r: Registry, id: JobId, reason: InvalidationReason, acceptForMs: nat, anchorMs: nat)
    requires RoleInv(c, r) && ValidInvalidation(reason, acceptForMs)
    requires IsAccepting(r.entries, id) ==> anchorMs < r.entries[id].acceptUntilMs
    ensures var s := Invalidate(c, r, id, reason, acceptForMs, anchorMs);
            s.result.Success? ==>
              BoardOf(s.next) == if reason == Superseded then Graced(BoardOf(r), id, anchorMs + acceptForMs) else Withdrawn(BoardOf(r), id)
  {
    hide BoardOf, Withdrawn, Graced;
    assert HasRole(r.current, r.recent, id) <==> IsAccepting(r.entries, id);
    if !IsAccepting(r.entries, id) {
      NoRoleMeaning(r, id, anchorMs + acceptForMs);
      WithdrawnMeaning(r, id, r.entries);
    } else if reason == Superseded {
      SupersedeMeaning(c, r, id, anchorMs + acceptForMs, anchorMs);
    } else {
      WithdrawnMeaning(r, id, r.entries[id := r.entries[id].(state := Invalidated)]);
    }
  }

  lemma CloseMeaning(c: Config, r: Registry, id: JobId)
    requires RoleInv(c, r)
    ensures BoardOf(Close(r, id)) == Withdrawn(BoardOf(r), id)
  {
    if id in r.entries {
      WithdrawnMeaning(r, id, r.entries[id := r.entries[id].(state := Closed)]);
    } else {
      assert HasRole(r.current, r.recent, id) <==> IsAccepting(r.entries, id);
      NoRoleMeaning(r, id, 0);
    }
  }

  lemma DispatchMeaning(c: Config, r: Registry, e: BackendEvent, anchorMs: nat)
    requires RoleInv(c, r) && ValidEvent(c.digests, e)
    requires forall id :: IsAccepting(r.entries, id) ==> anchorMs < r.entries[id].acceptUntilMs
    ensures var s := Dispatch(c, r, e, anchorMs); s.result.Success? ==> BoardOf(s.next) == AfterEvent(BoardOf(r), e, anchorMs)
  {
    hide Withdrawn, Graced, Promoted, Activate, Invalidate, Close;
    match e
    case JobActivated(_, job) =>
      if Activate(c, r, job, anchorMs).result.Success? {
        CurrentAccepts(c, r, anchorMs);
        ActivateMeaning(c, r, job, anchorMs);
      }
    case JobInvalidated(_, id, reason, acceptForMs) =>
      var r' := if reason == ZcashTipChanged then r.(winnerRecovery := Without(r.winnerRecovery, id)) else r;
      assert BoardOf(r') == BoardOf(r);
      InvalidateMeaning(c, r', id, reason, acceptForMs, anchorMs);
    case GenerationClosed(_, id) => CloseMeaning(c, r, id);
    case _ =>
  }

  lemma CurrentAccepts(c: Config, r: Registry, anchorMs: nat)
    requires RoleInv(c, r) && forall id :: IsAccepting(r.entries, id) ==> anchorMs < r.entries[id].acceptUntilMs
    ensures r.current.Some? ==> r.current.value in AcceptingIds(r.entries, anchorMs)
  {
    if r.current.Some? {
      assert HasRole(r.current, r.recent, r.current.value) && IsAccepting(r.entries, r.current.value);
      assert WellFormedEntry(r.current.value, r.entries[r.current.value]);
    }
  }

  /** An accepted event does to the board what it says, at the policy time it is applied at. */
  lemma EventMeaning(c: Config, r: Registry, e: BackendEvent, anchorMs: nat, policyNowMs: nat)
    requires Inv(c, r) && ApplyEventAt(c, r, e, anchorMs, policyNowMs).result.Success?
    ensures BoardOf(ApplyEventAt(c, r, e, anchorMs, policyNowMs).next)
         == BoardAt(AfterEvent(BoardAt(BoardOf(r), policyNowMs), e, anchorMs), policyNowMs)
  {
    var x := ExpireAt(r, policyNowMs);
    var applied := Dispatch(c, x, e, anchorMs);
    AppliedEvent(c, r, e, anchorMs, policyNowMs);
    ExpiryMeaning(c, r, policyNowMs);
    ExpireInv(c, r, policyNowMs);
    StillAccepting(r, anchorMs, policyNowMs);
    DispatchMeaning(c, x, e, anchorMs);
    CurrentAccepts(c, x, anchorMs);
    DispatchInv(c, x, e, anchorMs);
    ExpiryMeaning(c, applied.next, policyNowMs);
  }

  /** An accepted event, as its steps. */
  lemma AppliedEvent(c: Config, r: Registry, e: BackendEvent, anchorMs: nat, policyNowMs: nat)
    requires ApplyEventAt(c, r, e, anchorMs, policyNowMs).result.Success?
    ensures ValidEvent(c.digests, e) && anchorMs <= policyNowMs && r.synchronized
    ensures var applied := Dispatch(c, ExpireAt(r, policyNowMs), e, anchorMs);
            && applied.result.Success?
            && ApplyEventAt(c, r, e, anchorMs, policyNowMs).next == Commit(applied.next, e, anchorMs, policyNowMs)
  {
    assert Latest(r.lastMonotonicMs, policyNowMs) == policyNowMs;
  }

  lemma StillAccepting(r: Registry, anchorMs: nat, nowMs: nat)
    requires anchorMs <= nowMs
    ensures forall id :: IsAccepting(ExpireAt(r, nowMs).entries, id) ==> anchorMs < ExpireAt(r, nowMs).entries[id].acceptUntilMs
  {
  }

  // ---------------------------------------------------------------- snapshots

  /** Each listed job is prepared on its own, and installed under its own identifier. */
  lemma {:induction false} PreparedEach(entries: Entries, jobs: seq<AcceptableJob>, anchorMs: nat, i: nat)
    requires PrepareJobs(entries, jobs, anchorMs).Success? && i < |jobs|
    ensures var p := PrepareJobs(entries, jobs, anchorMs).value;
            && i < |p.ids| && p.ids[i] == jobs[i].job.jobId && p.ids[i] in p.entries
            && PrepareAcceptable(entries, jobs[i], anchorMs) == Success(p.entries[p.ids[i]])
    decreases |jobs|
  {
    JobsLength(entries, jobs[..|jobs| - 1], anchorMs);
    if i < |jobs| - 1 {
      PreparedEach(entries, jobs[..|jobs| - 1], anchorMs, i);
    }
  }

  lemma AcceptedOffer(entries: Entries, a: AcceptableJob, anchorMs: nat)
    requires PrepareAcceptable(entries, a, anchorMs).Success?
    ensures var e := PrepareAcceptable(entries, a, anchorMs).value;
            e.acceptUntilMs == ListedOffer(entries, a, anchorMs).untilMs && e.generation == a.job
  {
  }

  /** A prepared snapshot offers exactly what it lists. */
  lemma PreparedBoard(c: Config, r: Registry, eventSeq: nat, current: Option<AcceptableJob>, recent: seq<AcceptableJob>, startedMs: nat)
    requires PrepareSnapshot(c, r, eventSeq, current, recent, startedMs).Success?
    ensures var p := PrepareSnapshot(c, r, eventSeq, current, recent, startedMs).value;
            BoardOf(r.(entries := p.entries, current := p.current, recent := p.recent)) == Listed(r.entries, current, recent, startedMs)
  {
    hide PrepareJobs, MergeSnapshot, OfferOf, ListedOffer;
    var p := PrepareSnapshot(c, r, eventSeq, current, recent, startedMs).value;
    var jobs := SnapshotJobs(current, recent);
    JobsLength(r.entries, jobs, startedMs);
    if current.Some? {
      assert jobs[0] == current.value;
      PreparedOffer(r.entries, jobs, startedMs, 0);
    }
    var listed := Listed(r.entries, current, recent, startedMs);
    forall i | 0 <= i < |recent|
      ensures OfferOf(p.entries, p.recent[i]) == listed.recent[i]
    {
      var k := if current.Some? then i + 1 else i;
      assert jobs[k] == recent[i];
      PreparedOffer(r.entries, jobs, startedMs, k);
    }
    assert OffersOf(p.entries, p.recent) == listed.recent;
  }

  lemma PreparedOffer(entries: Entries, jobs: seq<AcceptableJob>, startedMs: nat, i: nat)
    requires PrepareJobs(entries, jobs, startedMs).Success? && i < |jobs|
    ensures var p := PrepareJobs(entries, jobs, startedMs).value;
            i < |p.ids| && OfferOf(MergeSnapshot(entries, p.entries), p.ids[i]) == ListedOffer(entries, jobs[i], startedMs)
  {
    PreparedEach(entries, jobs, startedMs, i);
    AcceptedOffer(entries, jobs[i], startedMs);
  }

  lemma PreparedRoleInv(c: Config, r: Registry, p: PreparedSnapshot, startedMs: nat)
    requires Inv(c, r) && WellPrepared(c, r.entries, p, startedMs)
    ensures RoleInv(c, r.(entries := p.entries, current := p.current, recent := p.recent))
  {
    MergedRoles(c, r.entries, p, startedMs);
  }

  /** An accepted snapshot replaces the board by what it lists, less what has already run out. */
  lemma SnapshotMeaning(c: Config, r: Registry, eventSeq: nat, current: Option<AcceptableJob>, recent: seq<AcceptableJob>, startedMs: nat)
    requires Inv(c, r) && ApplySnapshot(c, r, eventSeq, current, recent, startedMs).result.Success?
    ensures BoardOf(ApplySnapshot(c, r, eventSeq, current, recent, startedMs).next)
         == BoardAt(Listed(r.entries, current, recent, startedMs), Latest(r.lastMonotonicMs, startedMs))
  {
    var p := PrepareSnapshot(c, r, eventSeq, current, recent, startedMs).value;
    var nowMs := Latest(r.lastMonotonicMs, startedMs);
    SnapshotPrepared(c, r, eventSeq, current, recent, startedMs);
    PreparedRoleInv(c, r, p, startedMs);
    PreparedBoard(c, r, eventSeq, current, recent, startedMs);
    var installed := r.(entries := p.entries, current := p.current, recent := p.recent);
    ExpiryMeaning(c, installed, nowMs);
    assert BoardOf(ApplySnapshot(c, r, eventSeq, current, recent, startedMs).next) == BoardOf(ExpireAt(installed, nowMs));
  }

  /** The exact deadline an accepted snapshot leaves every job it lists with, and the end of every job it omits. */
  lemma ListedDeadlines(c: Config, r: Registry, eventSeq: nat, current: Option<AcceptableJob>, recent: seq<AcceptableJob>,
                        startedMs: nat, i: nat)
    requires ApplySnapshot(c, r, eventSeq, current, recent, startedMs).result.Success? && i < |SnapshotJobs(current, recent)|
    ensures var a, entries := SnapshotJobs(current, recent)[i], ApplySnapshot(c, r, eventSeq, current, recent, startedMs).next.entries;
            && a.job.jobId in entries && entries[a.job.jobId].generation == a.job
            && entries[a.job.jobId].acceptUntilMs == ListedOffer(r.entries, a, startedMs).untilMs
  {
    var jobs := SnapshotJobs(current, recent);
    PreparedEach(r.entries, jobs, startedMs, i);
    AcceptedOffer(r.entries, jobs[i], startedMs);
  }

  lemma OmittedIsTerminal(c: Config, r: Registry, eventSeq: nat, current: Option<AcceptableJob>, recent: seq<AcceptableJob>,
                          startedMs: nat, id: JobId)
    requires Inv(c, r) && ApplySnapshot(c, r, eventSeq, current, recent, startedMs).result.Success? && id in r.entries
    requires forall a :: a in SnapshotJobs(current, recent) ==> a.job.jobId != id
    ensures var entries := ApplySnapshot(c, r, eventSeq, current, recent, startedMs).next.entries;
            id in entries && Terminal(entries[id].state)
  {
    var jobs := SnapshotJobs(current, recent);
    var p := PrepareJobs(r.entries, jobs, startedMs).value;
    PreparedJobs(r.entries, jobs, startedMs);
    JobsLength(r.entries, jobs, startedMs);
    forall k | 0 <= k < |p.ids| ensures p.ids[k] != id {
      PreparedEach(r.entries, jobs, startedMs, k);
      assert jobs[k] in jobs;
    }
  }

  // ---------------------------------------------------------------- everything else

  lemma SuspendedMeaning(r: Registry)
    ensures BoardOf(Suspend(r)) == NOTHING
  {
  }

  lemma ClockMeaning(c: Config, r: Registry, nowMs: nat)
    requires Inv(c, r)
    ensures BoardOf(AdvanceClock(r, nowMs).next) == BoardAfterQuery(r, BoardOf(r), nowMs)
  {
    ExpiryMeaning(c, r, nowMs);
  }

  /** Asking at a time that has gone back suspends everything; asking later only expires. */
  function BoardAfterQuery(r: Registry, b: Board, nowMs: nat): Board {
    if Before(nowMs, r.lastMonotonicMs) then NOTHING else BoardAt(b, nowMs)
  }

  function BoardAfterEvent(c: Config, r: Registry, b: Board, e: BackendEvent, anchorMs: nat, policyNowMs: nat): Board {
    if ApplyEventAt(c, r, e, anchorMs, policyNowMs).result.Failure? then NOTHING
    else BoardAt(AfterEvent(BoardAt(b, policyNowMs), e, anchorMs), policyNowMs)
  }

  /** The board after any operation, from the board before it; a refused delivery withdraws all work. */
  function BoardNext(c: Config, r: Registry, b: Board, op: Op): Board {
    match op
    case TakeSnapshot(eventSeq, current, recent, startedMs) =>
      if ApplySnapshot(c, r, eventSeq, current, recent, startedMs).result.Failure? then NOTHING
      else BoardAt(Listed(r.entries, current, recent, startedMs), Latest(r.lastMonotonicMs, startedMs))
    case TakeEvent(event, anchorMs, policyNowMs) => BoardAfterEvent(c, r, b, event, anchorMs, policyNowMs)
    case TakeEventNow(event, anchorMs) => BoardAfterEvent(c, r, b, event, anchorMs, Latest(r.lastMonotonicMs, anchorMs))
    case SuspendAll => NOTHING
    case Drop(_) => b
    case QueryRoles(nowMs) => BoardAfterQuery(r, b, nowMs)
    case QueryCurrent(nowMs) => BoardAfterQuery(r, b, nowMs)
    case QueryRecovery(nowMs) => BoardAfterQuery(r, b, nowMs)
    case Admit(_, nowMs) => BoardAfterQuery(r, b, nowMs)
    case Recover(_, _, _, nowMs, _) => BoardAfterQuery(r, b, nowMs)
    case Collect(nowMs) => BoardAfterQuery(r, b, nowMs)
  }

  /** Storage changes are invisible on the board. */
  lemma StorageMeaning(r: Registry, entries: Entries)
    requires entries.Keys == r.entries.Keys && forall id :: id in entries ==> entries[id].acceptUntilMs == r.entries[id].acceptUntilMs
    ensures BoardOf(r.(entries := entries)) == BoardOf(r)
  {
    SameOffers(r.entries, entries, r.recent);
  }

  lemma AdmitMeaning(c: Config, r: Registry, id: JobId, nowMs: nat)
    requires Inv(c, r)
    ensures BoardOf(BeginAdmission(r, id, nowMs).next) == BoardAfterQuery(r, BoardOf(r), nowMs)
  {
    ClockMeaning(c, r, nowMs);
    var g := AdvanceClock(r, nowMs).next;
    H.AdmitTouchesStorage(g, id, nowMs);
    StorageMeaning(g, AdmitAt(g, id, nowMs).next.entries);
  }

  lemma CollectedMeaning(c: Config, r: Registry, nowMs: nat)
    requires Inv(c, r)
    ensures BoardOf(CollectRetired(r, nowMs).next) == BoardAfterQuery(r, BoardOf(r), nowMs)
  {
    ClockMeaning(c, r, nowMs);
    var g := AdvanceClock(r, nowMs).next;
    assert Compact(g).entries.Keys == g.entries.Keys;
    StorageMeaning(g, Compact(g).entries);
  }

  lemma DropMeaning(r: Registry, id: JobId)
    ensures BoardOf(Release(r, id)) == BoardOf(r)
  {
    assert Release(r, id).entries.Keys == r.entries.Keys;
    StorageMeaning(r, Release(r, id).entries);
  }

  lemma DeliveredEventMeaning(c: Config, r: Registry, e: BackendEvent, anchorMs: nat, policyNowMs: nat)
    requires Inv(c, r)
    ensures BoardOf(ApplyEventAt(c, r, e, anchorMs, policyNowMs).next) == BoardAfterEvent(c, r, BoardOf(r), e, anchorMs, policyNowMs)
  {
    if ApplyEventAt(c, r, e, anchorMs, policyNowMs).result.Success? {
      EventMeaning(c, r, e, anchorMs, policyNowMs);
    } else {
      SuspendedMeaning(TryApplyEvent(c, r, e, anchorMs, policyNowMs).next);
    }
  }

  lemma NextMeaning(c: Config, r: Registry, op: Op)
    requires Inv(c, r)
    ensures BoardOf(Next(c, r, op)) == BoardNext(c, r, BoardOf(r), op)
  {
    hide Inv, ExpireAt, BoardOf, ApplySnapshot, ApplyEventAt, BeginAdmission, CollectRetired, Release, BoardAt;
    match op
    case TakeSnapshot(eventSeq, current, recent, startedMs) => SnapshotDelivered(c, r, eventSeq, current, recent, startedMs);
    case TakeEvent(event, anchorMs, policyNowMs) => DeliveredEventMeaning(c, r, event, anchorMs, policyNowMs);
    case TakeEventNow(event, anchorMs) => DeliveredEventMeaning(c, r, event, anchorMs, Latest(r.lastMonotonicMs, anchorMs));
    case SuspendAll => SuspendedMeaning(r);
    case QueryRoles(nowMs) => ClockMeaning(c, r, nowMs);
    case QueryCurrent(nowMs) => ClockMeaning(c, r, nowMs);
    case QueryRecovery(nowMs) => PrunedMeaning(c, r, 0, seq(32, _ => 0), 0, nowMs, false);
    case Admit(id, nowMs) => AdmitMeaning(c, r, id, nowMs);
    case Drop(id) => DropMeaning(r, id);
    case Recover(id, nonce, solution, nowMs, allow) => PrunedMeaning(c, r, id, nonce, solution, nowMs, allow);
    case Collect(nowMs) => CollectedMeaning(c, r, nowMs);
  }

  lemma PrunedMeaning(c: Config, r: Registry, id: JobId, nonce: Hex32, solution: nat, nowMs: nat, allow: bool)
    requires Inv(c, r)
    ensures BoardOf(WinnerRecoveryIds(r, nowMs).next) == BoardAfterQuery(r, BoardOf(r), nowMs)
    ensures BoardOf(BeginZcashCandidate(c, r, id, nonce, solution, nowMs, allow).next) == BoardAfterQuery(r, BoardOf(r), nowMs)
  {
    ClockMeaning(c, r, nowMs);
  }

  lemma SnapshotDelivered(c: Config, r: Registry, eventSeq: nat, current: Option<AcceptableJob>, recent: seq<AcceptableJob>, startedMs: nat)
    requires Inv(c, r)
    ensures BoardOf(ApplySnapshot(c, r, eventSeq, current, recent, startedMs).next)
         == BoardNext(c, r, BoardOf(r), TakeSnapshot(eventSeq, current, recent, startedMs))
  {
    if ApplySnapshot(c, r, eventSeq, current, recent, startedMs).result.Success? {
      SnapshotMeaning(c, r, eventSeq, current, recent, startedMs);
    } else {
      SuspendedMeaning(r);
    }
  }

  // ---------------------------------------------------------------- whole runs

  function BoardRun(c: Config, ops: seq<Op>): Board {
    if |ops| == 0 then NOTHING
    else BoardNext(c, Run(c, ops[..|ops| - 1]), BoardRun(c, ops[..|ops| - 1]), ops[|ops| - 1])
  }

  /** Over every run, the registry's roles and deadlines are what the operations make of an empty board. */
  lemma {:induction false} RunMeaning(c: Config, ops: seq<Op>)
    ensures BoardOf(Run(c, ops)) == BoardRun(c, ops)
    decreases |ops|
  {
    if |ops| == 0 {
    } else {
      RunMeaning(c, ops[..|ops| - 1]);
      RunInv(c, ops[..|ops| - 1]);
      NextMeaning(c, Run(c, ops[..|ops| - 1]), ops[|ops| - 1]);
    }
  }

  /** `id` is on the board and has not run out. */
  predicate Offers(b: Board, id: JobId, nowMs: nat) {
    || (b.current.Some? && b.current.value.id == id && nowMs < b.current.value.untilMs)
    || exists i :: 0 <= i < |b.recent| && b.recent[i].id == id && nowMs < b.recent[i].untilMs
  }

  lemma OfferedRoles(c: Config, r: Registry, id: JobId, nowMs: nat)
    requires Inv(c, r)
    ensures Offers(BoardOf(r), id, nowMs) <==> HasRole(r.current, r.recent, id) && id in r.entries && nowMs < r.entries[id].acceptUntilMs
  {
    assert HasRole(r.current, r.recent, id) <==> IsAccepting(r.entries, id);
    if id in r.recent {
      var i :| 0 <= i < |r.recent| && r.recent[i] == id;
      assert BoardOf(r).recent[i].id == id;
    }
  }

  /**
   * After every run, an ordinary admission succeeds exactly for the work on the board that
   * has not run out, on a clock that has not gone back, while its counter has room.
   */
  lemma AdmittedFromBoard(c: Config, ops: seq<Op>, id: JobId, nowMs: nat)
    ensures Offers(BoardRun(c, ops), id, nowMs) ==> InFlight(Run(c, ops), id).Some?
    ensures BeginAdmission(Run(c, ops), id, nowMs).result.Success? <==>
            && !Before(nowMs, Run(c, ops).lastMonotonicMs) && Offers(BoardRun(c, ops), id, nowMs)
            && InFlight(Run(c, ops), id).value < U64_MAX
  {
    hide BeginAdmission, Offers, BoardRun, Run;
    RunInv(c, ops);
    RunMeaning(c, ops);
    OfferedRoles(c, Run(c, ops), id, nowMs);
    AdmissionExactlyForRoles(c, Run(c, ops), id, nowMs);
  }
}
