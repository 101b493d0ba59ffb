/**
 * The registry as the mutable object the pool holds. Entries and admission guards
 * share reference-counted resources, so the counters live in one arena and entries
 * hold handles into it: cloning the table copies handles, never counters. Every
 * public method is proved to be the corresponding `RegistryModel` transition.
 */
module GenerationRegistry {
  import opened Common
  import opened Protocol
  import Spec = RegistryModel
  import opened RegistryInvariant

  type Error = Spec.RegistryError

  /** One shared allocation: its immutable generation and the handle of its counter. */
  datatype Resource = Resource(handle: nat, generation: JobDescriptor)

  /** The atomic in-flight counters of every resource ever allocated. */
  class ResourceArena {
    var counters: map<nat, nat>
    var nextHandle: nat

    ghost predicate Valid()
      reads this
    {
      forall h :: h in counters ==> h < nextHandle
    }

    constructor ()
      ensures Valid() && counters == map[]
    {
      counters := map[];
      nextHandle := 0;
    }

    method Allocate(generation: JobDescriptor, inFlight: nat) returns (r: Resource)
      requires Valid()
      modifies this
      ensures Valid() && nextHandle == old(nextHandle) + 1
      ensures r == Resource(old(nextHandle), generation)
      ensures counters == old(counters)[r.handle := inFlight]
    {
      r := Resource(nextHandle, generation);
      counters := counters[nextHandle := inFlight];
      nextHandle := nextHandle + 1;
    }
  }

  datatype AdmissionRole = Ordinary | HistoricalZcashRecovery | PausedZcashCandidate

  /** Proof that one submission passed its bounded job policy. */
  datatype GenerationAdmission = GenerationAdmission(resource: Resource, role: AdmissionRole)

  datatype GenerationStorage = Live(resource: Resource) | Tombstone(retired: JobDescriptor)
  {
    function Generation(): JobDescriptor {
      if Live? then resource.generation else retired
    }
  }

  datatype RegistryEntry = RegistryEntry(
    storage: GenerationStorage,
    acceptUntilMs: nat,
    recoveryUntilMs: nat,
    state: Spec.AdmissionState)
  {
    predicate AcceptingAt(nowMs: nat) {
      Spec.AcceptsAt(state, storage.Live?, acceptUntilMs, nowMs)
    }

    predicate RetainedAt(nowMs: nat) {
      Spec.KeptAt(state, storage.Live?, acceptUntilMs, nowMs)
    }
  }

  type Table = map<JobId, RegistryEntry>

  function CountOf(counters: map<nat, nat>, handle: nat): nat {
    if handle in counters then counters[handle] else 0
  }

  function AbsEntry(e: RegistryEntry, counters: map<nat, nat>): Spec.Entry {
    Spec.Entry(e.storage.Generation(),
               if e.storage.Live? then Spec.Live(CountOf(counters, e.storage.resource.handle)) else Spec.Tombstone,
               e.acceptUntilMs, e.recoveryUntilMs, e.state)
  }

  function AbsTable(table: Table, counters: map<nat, nat>): Spec.Entries {
    map id | id in table :: AbsEntry(table[id], counters)
  }

  /** Live entries hold distinct handles that the arena knows. */
  ghost predicate OwnResources(table: Table, counters: map<nat, nat>) {
    && (forall id :: id in table && table[id].storage.Live? ==> table[id].storage.resource.handle in counters)
    && (forall i, j :: i in table && j in table && i != j && table[i].storage.Live? && table[j].storage.Live? ==>
          table[i].storage.resource.handle != table[j].storage.resource.handle)
  }

  /** Counters equal outstanding ordinary guards, and every such guard has a live entry. */
  ghost predicate Balanced(table: Table, counters: map<nat, nat>, guards: multiset<Resource>) {
    && (forall id :: id in table && table[id].storage.Live? ==>
          CountOf(counters, table[id].storage.resource.handle) == guards[table[id].storage.resource])
    && (forall g :: g in guards ==>
          g.generation.jobId in table && table[g.generation.jobId].storage == Live(g))
  }

  /** Two tables with the same identifiers and the same storage behind each. */
  ghost predicate SameStorage(table: Table, table': Table) {
    table'.Keys == table.Keys && forall id :: id in table ==> table'[id].storage == table[id].storage
  }

  function ExpireRecord(e: RegistryEntry, nowMs: nat): RegistryEntry {
    e.(state := Spec.ExpiredState(e.state, e.acceptUntilMs, nowMs))
  }

  function SuspendRecord(e: RegistryEntry): RegistryEntry {
    e.(state := Spec.SuspendedState(e.state))
  }

  function AcceptingIds(table: Table, nowMs: nat): set<JobId> {
    set id | id in table && table[id].AcceptingAt(nowMs)
  }

  function RetainedIds(table: Table, nowMs: nat): set<JobId> {
    set id | id in table && table[id].RetainedAt(nowMs)
  }

  lemma AbsIds(table: Table, counters: map<nat, nat>, nowMs: nat)
    ensures AcceptingIds(table, nowMs) == Spec.AcceptingIds(AbsTable(table, counters), nowMs)
    ensures RetainedIds(table, nowMs) == Spec.RetainedIds(AbsTable(table, counters), nowMs)
  {
  }

  lemma AbsExpired(table: Table, table': Table, counters: map<nat, nat>, nowMs: nat)
    requires table'.Keys == table.Keys && forall id :: id in table ==> table'[id] == ExpireRecord(table[id], nowMs)
    ensures AbsTable(table', counters) == Spec.ExpireEntries(AbsTable(table, counters), nowMs)
  {
  }

  function DemoteRecord(e: RegistryEntry): RegistryEntry {
    e.(state := Spec.DemotedState(e.state))
  }

  /** Handles allocated between `low` and `high`, all with zero counts. */
  ghost predicate Extended(counters: map<nat, nat>, counters': map<nat, nat>, low: nat, high: nat) {
    && (forall h :: h in counters ==> h in counters' && counters'[h] == counters[h])
    && (forall h :: h in counters' && h !in counters ==> low <= h < high && counters'[h] == 0)
  }

  /** Snapshot entries reuse the storage of known identifiers and own new handles otherwise. */
  ghost predicate PreparedTable(table: Table, prepared: Table, counters: map<nat, nat>, low: nat, high: nat) {
    && (forall id :: id in prepared && id in table ==> prepared[id].storage == table[id].storage)
    && (forall id :: id in prepared && id !in table ==>
          && prepared[id].storage.Live? && low <= prepared[id].storage.resource.handle < high
          && prepared[id].storage.resource.handle in counters)
    && (forall i, j :: i in prepared && j in prepared && i !in table && j !in table && i != j ==>
          prepared[i].storage.resource.handle != prepared[j].storage.resource.handle)
  }

  ghost predicate BelowHandle(counters: map<nat, nat>, next: nat) {
    forall h :: h in counters ==> h < next
  }

  lemma AbsExtended(table: Table, counters: map<nat, nat>, counters': map<nat, nat>, low: nat, high: nat)
    requires OwnResources(table, counters) && Extended(counters, counters', low, high)
    ensures AbsTable(table, counters') == AbsTable(table, counters)
    ensures OwnResources(table, counters')
  {
  }

  ghost predicate MergedTable(table: Table, prepared: Table, merged: Table) {
    && merged.Keys == table.Keys + prepared.Keys
    && forall id :: id in merged ==> merged[id] == if id in prepared then prepared[id] else DemoteRecord(table[id])
  }

  /** Behind every identifier the merged table has the known storage, or else the prepared one. */
  ghost predicate MergedStorage(table: Table, prepared: Table, merged: Table) {
    && merged.Keys == table.Keys + prepared.Keys
    && forall id :: id in merged ==> merged[id].storage == (if id in table then table[id] else prepared[id]).storage
  }

  lemma MergeKeepsStorage(table: Table, prepared: Table, merged: Table, counters: map<nat, nat>, low: nat, high: nat)
    requires PreparedTable(table, prepared, counters, low, high) && MergedTable(table, prepared, merged)
    ensures MergedStorage(table, prepared, merged)
  {
  }

  /** Replacing the table by the merged snapshot keeps handles owned and guards balanced. */
  lemma MergeShared(table: Table, prepared: Table, merged: Table, counters: map<nat, nat>, counters': map<nat, nat>,
                    low: nat, high: nat, guards: multiset<Resource>)
    requires OwnResources(table, counters) && Balanced(table, counters, guards) && BelowHandle(counters, low)
    requires Extended(counters, counters', low, high) && PreparedTable(table, prepared, counters', low, high)
    requires MergedStorage(table, prepared, merged)
    ensures OwnResources(merged, counters') && Balanced(merged, counters', guards)
  {
    forall id | id in merged && merged[id].storage.Live?
      ensures CountOf(counters', merged[id].storage.resource.handle) == guards[merged[id].storage.resource]
    {
      if id !in table {
        var res := merged[id].storage.resource;
        assert res in guards ==> res.handle in counters;
      }
    }
  }

  lemma AbsMerged(table: Table, prepared: Table, merged: Table, counters: map<nat, nat>)
    requires MergedTable(table, prepared, merged)
    ensures AbsTable(merged, counters) == Spec.MergeSnapshot(AbsTable(table, counters), AbsTable(prepared, counters))
  {
  }

  predicate Sorted(ids: seq<JobId>) {
    forall i, j :: 0 <= i < j < |ids| ==> ids[i] < ids[j]
  }

  /** Places `id` at its sorted position. */
  function InsertSorted(ids: seq<JobId>, id: JobId): (r: seq<JobId>)
    requires Sorted(ids) && id !in ids
    ensures Sorted(r)
    ensures forall x :: x in r <==> x in ids || x == id
  {
    if |ids| == 0 then [id]
    else
      var last := ids[|ids| - 1];
      assert ids == ids[..|ids| - 1] + [last];
      if last < id then
        ids + [id]
      else
        var front := InsertSorted(ids[..|ids| - 1], id);
        assert forall x :: x in front ==> x < last;
        assert forall i :: 0 <= i < |front| ==> front[i] in front;
        front + [last]
  }

  /** The Zcash predecessor of the current job while it still accepts. */
  function CurrentParent(table: Table, current: Option<JobId>, nowMs: nat): Option<nat> {
    if current.Some? && current.value in table && table[current.value].AcceptingAt(nowMs)
    then Some(table[current.value].storage.Generation().zcashPreviousHash)
    else None
  }

  predicate Recoverable(e: RegistryEntry, parent: Option<nat>, nowMs: nat) {
    Spec.RecoverableAt(e.state, e.recoveryUntilMs, e.storage.Generation(), parent, nowMs)
  }

  function RecoverableIds(table: Table, parent: Option<nat>, nowMs: nat): set<JobId> {
    set id | id in table && Recoverable(table[id], parent, nowMs)
  }

  lemma AbsRecoverable(table: Table, counters: map<nat, nat>, parent: Option<nat>, nowMs: nat)
    ensures RecoverableIds(table, parent, nowMs) == Spec.RecoverableIds(AbsTable(table, counters), parent, nowMs)
  {
  }

  lemma RecountShared(table: Table, counters: map<nat, nat>, guards: multiset<Resource>, id: JobId, n: nat, guards': multiset<Resource>)
    requires OwnResources(table, counters) && Balanced(table, counters, guards)
    requires id in table && table[id].storage.Live? && table[id].storage.resource.generation.jobId == id
    requires guards' == guards[table[id].storage.resource := n]
    ensures var counters' := counters[table[id].storage.resource.handle := n];
            && OwnResources(table, counters') && Balanced(table, counters', guards')
            && AbsTable(table, counters') == AbsTable(table, counters)[id := AbsEntry(table[id], counters').(storage := Spec.Live(n))]
  {
    var counters' := counters[table[id].storage.resource.handle := n];
    forall x | x in table
      ensures AbsEntry(table[x], counters') == if x == id then AbsEntry(table[id], counters').(storage := Spec.Live(n)) else AbsEntry(table[x], counters)
    {
    }
  }

  predicate Collectable(counters: map<nat, nat>, current: Option<JobId>, recent: seq<JobId>, id: JobId, e: RegistryEntry) {
    Spec.CollectableAt(current, recent, id, e.state, e.storage.Live? && CountOf(counters, e.storage.resource.handle) == 0)
  }

  function RetireRecord(e: RegistryEntry): RegistryEntry {
    e.(storage := Tombstone(e.storage.Generation()))
  }

  ghost predicate RetiredFrom(table: Table, table': Table, retired: seq<JobId>) {
    && table'.Keys == table.Keys
    && forall id :: id in table ==> table'[id] == if id in retired then RetireRecord(table[id]) else table[id]
  }

  /** Compacting idle terminal entries keeps handles owned and guards balanced. */
  lemma RetireShared(table: Table, table': Table, counters: map<nat, nat>, guards: multiset<Resource>, retired: seq<JobId>)
    requires OwnResources(table, counters) && Balanced(table, counters, guards) && RetiredFrom(table, table', retired)
    requires forall id :: id in retired ==>
               id in table && table[id].storage.Live? && CountOf(counters, table[id].storage.resource.handle) == 0
    ensures OwnResources(table', counters) && Balanced(table', counters, guards)
  {
  }

  lemma AbsRetired(m: Spec.Registry, table: Table, table': Table, counters: map<nat, nat>, retired: seq<JobId>)
    requires m.entries == AbsTable(table, counters) && RetiredFrom(table, table', retired)
    requires forall id :: id in retired <==> id in table && Collectable(counters, m.current, m.recent, id, table[id])
    ensures forall id :: id in retired <==> id in Spec.Retirable(m)
    ensures AbsTable(table', counters) == Spec.Compact(m).entries
  {
  }

  /** A failing prefix decides the whole preparation. */
  lemma {:induction false} PrepareFails(entries: Spec.Entries, jobs: seq<AcceptableJob>, k: nat, anchorMs: nat)
    requires k <= |jobs| && Spec.PrepareJobs(entries, jobs[..k], anchorMs).Failure?
    ensures Spec.PrepareJobs(entries, jobs, anchorMs) == Spec.PrepareJobs(entries, jobs[..k], anchorMs)
    decreases |jobs| - k
  {
    if k == |jobs| {
      assert jobs[..k] == jobs;
    } else {
      assert jobs[..k + 1][..k] == jobs[..k];
      PrepareFails(entries, jobs, k + 1, anchorMs);
    }
  }

  lemma ExtendedTransitive(a: map<nat, nat>, b: map<nat, nat>, d: map<nat, nat>, low: nat, mid: nat, high: nat)
    requires low <= mid <= high && Extended(a, b, low, mid) && Extended(b, d, mid, high)
    ensures Extended(a, d, low, high)
  {
  }

  /** Adding one prepared entry keeps the prepared table well formed. */
  lemma PreparedGrows(table: Table, prepared: Table, e: RegistryEntry, id: JobId,
                      counters: map<nat, nat>, counters': map<nat, nat>, low: nat, mid: nat, high: nat)
    requires low <= mid <= high && Extended(counters, counters', mid, high)
    requires PreparedTable(table, prepared, counters, low, mid) && id !in prepared
    requires if id in table then e.storage == table[id].storage
             else e.storage.Live? && e.storage.resource.handle in counters' && mid <= e.storage.resource.handle < high
    ensures PreparedTable(table, prepared[id := e], counters', low, high)
  {
  }

  /** Its abstraction grows by exactly that entry: later allocations disturb no earlier count. */
  lemma AbsPreparedGrows(table: Table, prepared: Table, e: RegistryEntry, id: JobId, before: map<nat, nat>,
                         counters: map<nat, nat>, counters': map<nat, nat>, low: nat, mid: nat, high: nat)
    requires OwnResources(table, before)
    requires Extended(before, counters, low, mid) && Extended(counters, counters', mid, high)
    requires PreparedTable(table, prepared, counters, low, mid)
    requires id in table ==> e.storage == table[id].storage
    ensures AbsTable(prepared[id := e], counters') == AbsTable(prepared, counters)[id := AbsEntry(e, counters')]
    ensures id in table ==> AbsEntry(e, counters') == AbsEntry(e, counters)
  {
    forall x | x in prepared
      ensures AbsEntry(prepared[x], counters') == AbsEntry(prepared[x], counters)
    {
      if prepared[x].storage.Live? {
        assert prepared[x].storage.resource.handle in counters;
      }
    }
  }

  /** A prepared table and the model's prepared jobs. */
  ghost predicate PreparedAs(model: Result<Spec.Prepared, Error>, table: Table, ids: seq<JobId>, prepared: Table,
                             counters: map<nat, nat>, low: nat, high: nat)
  {
    && model == Success(Spec.Prepared(ids, AbsTable(prepared, counters)))
    && PreparedTable(table, prepared, counters, low, high)
    && (forall id :: id in prepared <==> id in ids)
  }

  /** The concrete counterpart of one prepared model entry. */
  ghost predicate PreparedEntry(table: Table, id: JobId, e: RegistryEntry, model: Spec.Entry, counters: map<nat, nat>,
                                counters': map<nat, nat>, mid: nat, high: nat)
  {
    if id in table then e.storage == table[id].storage && AbsEntry(e, counters) == model
    else
      && e.storage.Live? && e.storage.resource.handle in counters' && mid <= e.storage.resource.handle < high
      && AbsEntry(e, counters') == model
  }

  lemma AddPreparedEntry(front: Result<Spec.Prepared, Error>, table: Table, ids: seq<JobId>, prepared: Table, id: JobId,
                         e: RegistryEntry, model: Spec.Entry, before: map<nat, nat>, counters: map<nat, nat>,
                         counters': map<nat, nat>, low: nat, mid: nat, high: nat)
    requires OwnResources(table, before) && low <= mid <= high
    requires Extended(before, counters, low, mid) && Extended(counters, counters', mid, high)
    requires PreparedAs(front, table, ids, prepared, counters, low, mid) && id !in ids
    requires PreparedEntry(table, id, e, model, counters, counters', mid, high)
    ensures PreparedAs(Spec.AddPrepared(front, id, Success(model)), table, ids + [id], prepared[id := e], counters', low, high)
  {
    PreparedGrows(table, prepared, e, id, counters, counters', low, mid, high);
    AbsPreparedGrows(table, prepared, e, id, before, counters, counters', low, mid, high);
  }

  lemma AbsSize(table: Table, counters: map<nat, nat>)
    ensures |AbsTable(table, counters)| == |table|
  {
    assert AbsTable(table, counters).Keys == table.Keys;
  }

  /** A new entry with a handle of its own leaves every other entry and guard alone. */
  lemma InsertShared(table: Table, counters: map<nat, nat>, guards: multiset<Resource>, id: JobId, e: RegistryEntry)
    requires OwnResources(table, counters) && Balanced(table, counters, guards) && id !in table
    requires e.storage.Live? && e.storage.resource.handle !in counters
    ensures var counters' := counters[e.storage.resource.handle := 0];
            && OwnResources(table[id := e], counters') && Balanced(table[id := e], counters', guards)
            && AbsTable(table[id := e], counters') == AbsTable(table, counters)[id := AbsEntry(e, counters')]
  {
    InsertBalanced(table, counters, guards, id, e);
    InsertAbstract(table, counters, id, e);
  }

  lemma InsertBalanced(table: Table, counters: map<nat, nat>, guards: multiset<Resource>, id: JobId, e: RegistryEntry)
    requires OwnResources(table, counters) && Balanced(table, counters, guards) && id !in table
    requires e.storage.Live? && e.storage.resource.handle !in counters
    ensures Balanced(table[id := e], counters[e.storage.resource.handle := 0], guards)
  {
    assert e.storage.resource !in guards;
  }

  lemma InsertAbstract(table: Table, counters: map<nat, nat>, id: JobId, e: RegistryEntry)
    requires OwnResources(table, counters) && id !in table && e.storage.Live? && e.storage.resource.handle !in counters
    ensures var counters' := counters[e.storage.resource.handle := 0];
            AbsTable(table[id := e], counters') == AbsTable(table, counters)[id := AbsEntry(e, counters')]
  {
    var counters' := counters[e.storage.resource.handle := 0];
    forall x | x in table ensures AbsEntry(table[x], counters') == AbsEntry(table[x], counters) {
    }
  }

  lemma UpdateShared(table: Table, counters: map<nat, nat>, guards: multiset<Resource>, id: JobId, e: RegistryEntry)
    requires OwnResources(table, counters) && Balanced(table, counters, guards)
    requires id in table && e.storage == table[id].storage
    ensures OwnResources(table[id := e], counters) && Balanced(table[id := e], counters, guards)
    ensures AbsTable(table[id := e], counters) == AbsTable(table, counters)[id := AbsEntry(e, counters)]
  {
    assert SameStorage(table, table[id := e]);
  }

  datatype SnapshotTable = SnapshotTable(ids: seq<JobId>, table: Table)

  datatype SnapshotView = SnapshotView(table: Table, current: Option<JobId>, recent: seq<JobId>)

  /** The descriptor of a listed job that is still recoverable. */
  function Candidate(table: Table, winnerRecovery: seq<JobId>, id: JobId, parent: Option<nat>, nowMs: nat): Option<JobDescriptor> {
    if id in table && id in winnerRecovery && Recoverable(table[id], parent, nowMs) then Some(table[id].storage.Generation()) else None
  }

  lemma AbsGrant(c: Spec.Config, m: Spec.Registry, table: Table, counters: map<nat, nat>, id: JobId,
                 nonce: Hex32, solution: nat, nowMs: nat, allowNoCurrent: bool)
    requires m.entries == AbsTable(table, counters)
    ensures var parent := CurrentParent(table, m.current, nowMs);
            Spec.Decide(c, id, Candidate(table, m.winnerRecovery, id, parent, nowMs), parent, nonce, solution, allowNoCurrent)
            == Spec.GrantAt(c, m, id, nonce, solution, nowMs, allowNoCurrent)
  {
  }

  /** A guard carries exactly the descriptor the transition granted, or the same error. */
  predicate Granted(r: Result<GenerationAdmission, Error>, spec: Result<JobDescriptor, Error>, id: JobId, role: AdmissionRole) {
    if spec.Success? then
      && r.Success? && r.value.role == role
      && r.value.resource.generation == spec.value && r.value.resource.generation.jobId == id
    else
      r.Failure? && r.error == spec.error
  }

  lemma GraceGranted(c: Spec.Config, m: Spec.Registry, id: JobId, acceptForMs: nat, anchorMs: nat)
    requires id in m.entries && Spec.Deadline(anchorMs, acceptForMs).Success?
    requires id in m.recent || |m.recent| != c.maximumRecent
    ensures Spec.SupersedeFor(c, m, id, acceptForMs, anchorMs)
         == Spec.Step(Spec.Supersede(m, id, anchorMs + acceptForMs, anchorMs), Success(()))
  {
  }

  /** An outstanding guard's entry is live, and its counter counts that guard. */
  lemma GuardedCount(table: Table, counters: map<nat, nat>, guards: multiset<Resource>, resource: Resource)
    requires OwnResources(table, counters) && Balanced(table, counters, guards) && resource in guards
    ensures var id := resource.generation.jobId;
            var count := CountOf(counters, resource.handle);
            && id in table && table[id].storage == Live(resource) && count == guards[resource] && count > 0
            && AbsTable(table, counters)[id].storage == Spec.Live(count)
  {
    var id := resource.generation.jobId;
    assert id in table && table[id].storage == Live(resource);
  }

  lemma ReleaseIsRecount(m: Spec.Registry, id: JobId, count: nat)
    requires id in m.entries && m.entries[id].storage == Spec.Live(count) && count > 0
    ensures Spec.Release(m, id) == m.(entries := m.entries[id := m.entries[id].(storage := Spec.Live(count - 1))])
  {
  }

  class GenerationRegistry {
    const config: Spec.Config
    const arena: ResourceArena
    var entries: Table
    var current: Option<JobId>
    var recent: seq<JobId>
    var winnerRecovery: seq<JobId>
    var watermarkCurrent: Option<JobId>
    var watermarkRecent: seq<JobId>
    var lastEventSeq: Option<nat>
    var lastAnchorMs: Option<nat>
    var lastMonotonicMs: Option<nat>
    var synchronized: bool
    /** Ordinary guards handed out and not yet dropped. */
    ghost var guards: multiset<Resource>

    ghost function Model(): Spec.Registry
      reads this, arena
    {
      Spec.Registry(AbsTable(entries, arena.counters), current, recent, winnerRecovery, watermarkCurrent, watermarkRecent,
                    lastEventSeq, lastAnchorMs, lastMonotonicMs, synchronized)
    }

    ghost predicate Shared()
      reads this, arena
    {
      && arena.Valid()
      && OwnResources(entries, arena.counters)
      && Balanced(entries, arena.counters, guards)
    }

    ghost predicate Valid()
      reads this, arena
    {
      Inv(config, Model()) && Shared()
    }

    constructor (config: Spec.Config)
      requires config.Valid()
      ensures Valid() && fresh(arena) && this.config == config && Model() == Spec.Empty() && guards == multiset{}
    {
      this.config := config;
      arena := new ResourceArena();
      entries := map[];
      current, recent, winnerRecovery := None, [], [];
      watermarkCurrent, watermarkRecent := None, [];
      lastEventSeq, lastAnchorMs, lastMonotonicMs := None, None, None;
      synchronized := false;
      guards := multiset{};
      new;
      EmptyInv(config);
    }

    // -------------------------------------------------------------- clock, expiry, suspension

    method SuspendEntries()
      modifies this`entries
      ensures SameStorage(old(entries), entries)
      ensures forall id :: id in entries ==> entries[id] == SuspendRecord(old(entries)[id])
    {
      var todo := entries.Keys;
      while todo != {}
        invariant todo <= entries.Keys && entries.Keys == old(entries).Keys
        invariant forall id :: id in entries ==>
                    entries[id] == if id in todo then old(entries)[id] else SuspendRecord(old(entries)[id])
        decreases |todo|
      {
        var id :| id in todo;
        entries := entries[id := SuspendRecord(entries[id])];
        todo := todo - {id};
      }
    }

    method SuspendWork()
      modifies this`entries, this`current, this`recent, this`winnerRecovery, this`synchronized
      ensures SameStorage(old(entries), entries)
      ensures Model() == Spec.Suspend(old(Model()))
    {
      SuspendEntries();
      current := None;
      recent := [];
      winnerRecovery := [];
      synchronized := false;
      assert AbsTable(entries, arena.counters) == Spec.Suspend(old(Model())).entries;
    }

    /** Suspension of a possibly half-applied state. */
    method SuspendShared()
      requires Shared()
      modifies this
      ensures Shared() && guards == old(guards)
      ensures Model() == Spec.Suspend(old(Model()))
    {
      SuspendWork();
    }

    method ExpireEntries(nowMs: nat)
      modifies this`entries
      ensures SameStorage(old(entries), entries)
      ensures forall id :: id in entries ==> entries[id] == ExpireRecord(old(entries)[id], nowMs)
    {
      var todo := entries.Keys;
      while todo != {}
        invariant todo <= entries.Keys && entries.Keys == old(entries).Keys
        invariant forall id :: id in entries ==>
                    entries[id] == if id in todo then old(entries)[id] else ExpireRecord(old(entries)[id], nowMs)
        decreases |todo|
      {
        var id :| id in todo;
        entries := entries[id := ExpireRecord(entries[id], nowMs)];
        todo := todo - {id};
      }
    }

    method ExpireAt(nowMs: nat)
      modifies this`entries, this`current, this`recent, this`watermarkCurrent, this`watermarkRecent
      ensures SameStorage(old(entries), entries)
      ensures Model() == Spec.ExpireAt(old(Model()), nowMs)
    {
      ghost var before := Model();
      ExpireEntries(nowMs);
      AbsExpired(old(entries), entries, arena.counters, nowMs);
      assert Model() == before.(entries := Spec.ExpireEntries(before.entries, nowMs));
      RetainRoles(nowMs);
    }

    /** Drops from the roles and the watermark whatever the entries no longer support. */
    method RetainRoles(nowMs: nat)
      modifies this`current, this`recent, this`watermarkCurrent, this`watermarkRecent
      ensures var m := old(Model());
              var accepting, retained := Spec.AcceptingIds(m.entries, nowMs), Spec.RetainedIds(m.entries, nowMs);
              Model() == m.(current := Spec.RetainOption(m.current, accepting), recent := Spec.Retain(m.recent, accepting),
                            watermarkCurrent := Spec.RetainOption(m.watermarkCurrent, retained),
                            watermarkRecent := Spec.Retain(m.watermarkRecent, retained))
    {
      AbsIds(entries, arena.counters, nowMs);
      var accepting, retained := AcceptingIds(entries, nowMs), RetainedIds(entries, nowMs);
      current := Spec.RetainOption(current, accepting);
      recent := Spec.Retain(recent, accepting);
      watermarkCurrent := Spec.RetainOption(watermarkCurrent, retained);
      watermarkRecent := Spec.Retain(watermarkRecent, retained);
    }

    method AdvanceClock(nowMs: nat) returns (r: Result<(), Error>)
      requires Valid()
      modifies this
      ensures Valid() && guards == old(guards)
      ensures SameStorage(old(entries), entries)
      ensures Spec.Step(Model(), r) == Spec.AdvanceClock(old(Model()), nowMs)
    {
      ClockInv(config, Model(), nowMs);
      if Spec.Before(nowMs, lastMonotonicMs) {
        SuspendWork();
        return Failure(Spec.ClockMovedBackwards);
      }
      ExpireAt(nowMs);
      lastMonotonicMs := Some(nowMs);
      return Success(());
    }

    method Suspend()
      requires Valid()
      modifies this
      ensures Valid() && guards == old(guards)
      ensures Model() == Spec.Suspend(old(Model()))
    {
      SuspendInv(config, Model());
      SuspendWork();
    }

    method Gate(nowMs: nat) returns (r: Result<(), Error>)
      requires Valid()
      modifies this
      ensures Valid() && guards == old(guards)
      ensures SameStorage(old(entries), entries)
      ensures Spec.Step(Model(), r) == Spec.Gate(old(Model()), nowMs)
    {
      r := AdvanceClock(nowMs);
      if r.Success? && !synchronized {
        return Failure(Spec.NotSynchronized);
      }
    }

    // -------------------------------------------------------------- queries

    method AdmissibleJobIds(nowMs: nat) returns (r: Result<Spec.AdmissibleJobIds, Error>)
      requires Valid()
      modifies this
      ensures Valid() && guards == old(guards)
      ensures Spec.Step(Model(), r) == Spec.AdmissibleIds(old(Model()), nowMs)
    {
      var gate := Gate(nowMs);
      if gate.Failure? {
        return Failure(gate.error);
      }
      return Success(Spec.AdmissibleJobIds(current, recent));
    }

    method CurrentGeneration(nowMs: nat) returns (r: Result<Option<JobDescriptor>, Error>)
      requires Valid()
      modifies this
      ensures Valid() && guards == old(guards)
      ensures Spec.Step(Model(), r) == Spec.CurrentGeneration(old(Model()), nowMs)
    {
      var clock := AdvanceClock(nowMs);
      if clock.Failure? {
        return Failure(clock.error);
      }
      if current.Some? && current.value in entries && synchronized && entries[current.value].AcceptingAt(nowMs) {
        return Success(Some(entries[current.value].storage.Generation()));
      }
      return Success(None);
    }

    /** An immutable retained generation, regardless of admission state. */
    function Generation(id: JobId): (g: Option<JobDescriptor>)
      reads this
    {
      if id in entries then Some(entries[id].storage.Generation()) else None
    }

    method PruneWinnerRecovery(nowMs: nat)
      modifies this`winnerRecovery
      ensures Model() == Spec.Prune(old(Model()), nowMs)
    {
      var parent := CurrentParent(entries, current, nowMs);
      AbsRecoverable(entries, arena.counters, parent, nowMs);
      assert parent == Spec.CurrentParent(Model(), nowMs);
      winnerRecovery := Spec.Retain(winnerRecovery, RecoverableIds(entries, parent, nowMs));
    }

    method WinnerRecoveryJobIds(nowMs: nat) returns (r: Result<seq<JobId>, Error>)
      requires Valid()
      modifies this
      ensures Valid() && guards == old(guards)
      ensures Spec.Step(Model(), r) == Spec.WinnerRecoveryIds(old(Model()), nowMs)
    {
      var gate := Gate(nowMs);
      if gate.Failure? {
        return Failure(gate.error);
      }
      PruneInv(config, Model(), nowMs);
      PruneWinnerRecovery(nowMs);
      return Success(winnerRecovery);
    }

    // -------------------------------------------------------------- admissions

    method BeginAdmission(id: JobId, nowMs: nat) returns (r: Result<GenerationAdmission, Error>)
      requires Valid()
      modifies this, arena
      ensures Valid()
      ensures Model() == Spec.BeginAdmission(old(Model()), id, nowMs).next
      ensures Granted(r, Spec.BeginAdmission(old(Model()), id, nowMs).result, id, Ordinary)
      ensures if r.Success? then guards == old(guards) + multiset{r.value.resource}
              else guards == old(guards) && arena.counters == old(arena.counters)
    {
      AdmissionInv(config, Model(), id, nowMs);
      var gate := Gate(nowMs);
      if gate.Failure? {
        return Failure(gate.error);
      }
      r := CountAdmission(id, nowMs);
    }

    method CountAdmission(id: JobId, nowMs: nat) returns (r: Result<GenerationAdmission, Error>)
      requires Inv(config, Model()) && Shared()
      modifies this`guards, arena
      ensures Shared()
      ensures Model() == Spec.AdmitAt(old(Model()), id, nowMs).next
      ensures Granted(r, Spec.AdmitAt(old(Model()), id, nowMs).result, id, Ordinary)
      ensures if r.Success? then guards == old(guards) + multiset{r.value.resource}
              else guards == old(guards) && arena.counters == old(arena.counters)
    {
      if id !in entries {
        return Failure(Spec.UnknownJob(id));
      }
      if !entries[id].AcceptingAt(nowMs) {
        return Failure(Spec.StaleJob(id));
      }
      var resource := entries[id].storage.resource;
      var count := CountOf(arena.counters, resource.handle);
      if count >= U64_MAX {
        return Failure(Spec.AdmissionCounterExhausted(id));
      }
      assert WellFormedEntry(id, Model().entries[id]);
      Recount(id, count + 1);
      return Success(GenerationAdmission(resource, Ordinary));
    }

    /** Sets one live entry's counter, and the guards that justify it. */
    method Recount(id: JobId, n: nat)
      requires Shared() && id in entries && entries[id].storage.Live? && entries[id].storage.resource.generation.jobId == id
      modifies this`guards, arena
      ensures Shared() && guards == old(guards)[entries[id].storage.resource := n]
      ensures Model() == old(Model()).(entries := old(Model()).entries[id := old(Model()).entries[id].(storage := Spec.Live(n))])
    {
      var resource := entries[id].storage.resource;
      RecountShared(entries, arena.counters, guards, id, n, guards[resource := n]);
      arena.counters := arena.counters[resource.handle := n];
      guards := guards[resource := n];
    }

    /** The drop of one ordinary guard. */
    method DropOrdinary(admission: GenerationAdmission)
      requires Valid() && admission.resource in guards
      modifies this`guards, arena
      ensures Valid()
      ensures guards == old(guards) - multiset{admission.resource}
      ensures Model() == Spec.Release(old(Model()), admission.resource.generation.jobId)
    {
      ReleaseInv(config, Model(), admission.resource.generation.jobId);
      ReleaseGuard(admission.resource);
    }

    method ReleaseGuard(resource: Resource)
      requires Shared() && resource in guards
      modifies this`guards, arena
      ensures Shared() && guards == old(guards) - multiset{resource}
      ensures Model() == Spec.Release(old(Model()), resource.generation.jobId)
    {
      var id := resource.generation.jobId;
      ghost var before := Model();
      var count := CountOf(arena.counters, resource.handle);
      GuardedCount(entries, arena.counters, guards, resource);
      ReleaseIsRecount(before, id, count);
      Recount(id, count - 1);
    }

    /**
     * The late-winner admission. Its guard owns a resource of its own, so it
     * neither extends a lease nor counts against the entry it was granted for.
     */
    method BeginZcashCandidate(id: JobId, nonce: Hex32, solution: nat, nowMs: nat, role: AdmissionRole, allowNoCurrent: bool)
      returns (r: Result<GenerationAdmission, Error>)
      requires Valid() && role != Ordinary
      modifies this, arena
      ensures Valid() && guards == old(guards)
      ensures Model() == Spec.BeginZcashCandidate(config, old(Model()), id, nonce, solution, nowMs, allowNoCurrent).next
      ensures Granted(r, Spec.BeginZcashCandidate(config, old(Model()), id, nonce, solution, nowMs, allowNoCurrent).result, id, role)
    {
      CandidateInv(config, Model(), id, nonce, solution, nowMs, allowNoCurrent);
      var gate := Gate(nowMs);
      if gate.Failure? {
        return Failure(gate.error);
      }
      PruneWinnerRecovery(nowMs);
      r := GrantCandidate(id, nonce, solution, nowMs, role, allowNoCurrent);
    }

    method GrantCandidate(id: JobId, nonce: Hex32, solution: nat, nowMs: nat, role: AdmissionRole, allowNoCurrent: bool)
      returns (r: Result<GenerationAdmission, Error>)
      requires Valid()
      modifies arena
      ensures Valid() && Model() == old(Model())
      ensures Granted(r, Spec.GrantAt(config, Model(), id, nonce, solution, nowMs, allowNoCurrent), id, role)
    {
      AbsGrant(config, Model(), entries, arena.counters, id, nonce, solution, nowMs, allowNoCurrent);
      var parent := CurrentParent(entries, current, nowMs);
      var candidate := Candidate(entries, winnerRecovery, id, parent, nowMs);
      var granted := Spec.Decide(config, id, candidate, parent, nonce, solution, allowNoCurrent);
      if granted.Failure? {
        return Failure(granted.error);
      }
      assert WellFormedEntry(id, Model().entries[id]);
      var resource := AllocateResource(granted.value, 1);
      return Success(GenerationAdmission(resource, role));
    }

    /** A new shared resource, unknown to every entry. */
    method AllocateResource(generation: JobDescriptor, inFlight: nat) returns (resource: Resource)
      requires Valid()
      modifies arena
      ensures Valid() && Model() == old(Model())
      ensures resource.generation == generation
    {
      resource := arena.Allocate(generation, inFlight);
      assert forall id :: id in entries && entries[id].storage.Live? ==> entries[id].storage.resource.handle != resource.handle;
      assert AbsTable(entries, arena.counters) == AbsTable(entries, old(arena.counters));
    }

    // -------------------------------------------------------------- retirement

    method CollectEntries() returns (retired: seq<JobId>)
      modifies this`entries
      ensures RetiredFrom(old(entries), entries, retired) && Sorted(retired)
      ensures forall id :: id in retired <==>
                id in old(entries) && Collectable(arena.counters, current, recent, id, old(entries)[id])
    {
      retired := [];
      var todo := entries.Keys;
      while todo != {}
        invariant todo <= entries.Keys && Sorted(retired)
        invariant RetiredFrom(old(entries), entries, retired)
        invariant forall id :: id in retired <==>
                    id in old(entries) && id !in todo && Collectable(arena.counters, current, recent, id, old(entries)[id])
        decreases |todo|
      {
        var id :| id in todo;
        if Collectable(arena.counters, current, recent, id, entries[id]) {
          entries := entries[id := RetireRecord(entries[id])];
          retired := InsertSorted(retired, id);
        }
        todo := todo - {id};
      }
    }

    method CollectRetired(nowMs: nat) returns (r: Result<seq<JobId>, Error>)
      requires Valid()
      modifies this
      ensures Valid() && guards == old(guards)
      ensures Model() == Spec.CollectRetired(old(Model()), nowMs).next
      ensures var spec := Spec.CollectRetired(old(Model()), nowMs).result;
              if spec.Failure? then r == Failure(spec.error)
              else r.Success? && Sorted(r.value) && forall id :: id in r.value <==> id in spec.value
    {
      CollectInv(config, Model(), nowMs);
      var clock := AdvanceClock(nowMs);
      if clock.Failure? {
        return Failure(clock.error);
      }
      var retired := CompactIdle();
      return Success(retired);
    }

    /** Turns every idle terminal entry into a tombstone. */
    method CompactIdle() returns (retired: seq<JobId>)
      requires Shared()
      modifies this`entries
      ensures Shared() && Sorted(retired)
      ensures forall id :: id in retired <==> id in Spec.Retirable(old(Model()))
      ensures Model() == Spec.Compact(old(Model()))
    {
      ghost var m, table := Model(), entries;
      retired := CollectEntries();
      RetireShared(table, entries, arena.counters, guards, retired);
      AbsRetired(m, table, entries, arena.counters, retired);
    }

    // -------------------------------------------------------------- snapshots

    method PrepareAcceptable(a: AcceptableJob, anchorMs: nat) returns (r: Result<RegistryEntry, Error>)
      requires arena.Valid()
      modifies arena
      ensures arena.Valid() && old(arena.nextHandle) <= arena.nextHandle
      ensures Extended(old(arena.counters), arena.counters, old(arena.nextHandle), arena.nextHandle)
      ensures r.Success? ==>
                r.value.acceptUntilMs == if a.job.jobId in entries then MinOf(entries[a.job.jobId].acceptUntilMs, anchorMs + a.acceptForMs)
                                         else anchorMs + a.acceptForMs
      ensures var spec := Spec.PrepareAcceptable(AbsTable(entries, old(arena.counters)), a, anchorMs);
              if spec.Failure? then r == Failure(spec.error)
              else
                && r.Success?
                && (if a.job.jobId in entries then
                      && r.value.storage == entries[a.job.jobId].storage
                      && AbsEntry(r.value, old(arena.counters)) == spec.value
                    else
                      && r.value.storage.Live? && r.value.storage.resource.handle in arena.counters
                      && old(arena.nextHandle) <= r.value.storage.resource.handle < arena.nextHandle
                      && AbsEntry(r.value, arena.counters) == spec.value)
    {
      var id := a.job.jobId;
      if !ValidDescriptor(a.job) {
        return Failure(Spec.InvalidDescriptor);
      }
      if a.acceptForMs == 0 || a.acceptForMs > a.job.maxAgeMs {
        return Failure(Spec.InvalidRemainingLifetime(id));
      }
      var proposed := Spec.Deadline(anchorMs, a.acceptForMs);
      if proposed.Failure? {
        return Failure(proposed.error);
      }
      if id in entries {
        var known := entries[id];
        if known.storage.Generation() != a.job {
          return Failure(Spec.ConflictingJobId(id));
        }
        if Spec.Terminal(known.state) || known.storage.Tombstone? {
          return Failure(Spec.ResurrectedJob(id));
        }
        var until := MinOf(known.acceptUntilMs, proposed.value);
        if until <= anchorMs {
          return Failure(Spec.ResurrectedJob(id));
        }
        return Success(RegistryEntry(known.storage, until, known.recoveryUntilMs, Spec.Accepting));
      }
      var recovery := Spec.RecoveryDeadline(proposed.value);
      if recovery.Failure? {
        return Failure(recovery.error);
      }
      var resource := arena.Allocate(a.job, 0);
      return Success(RegistryEntry(Live(resource), proposed.value, recovery.value, Spec.Accepting));
    }

    method PrepareJobs(jobs: seq<AcceptableJob>, anchorMs: nat) returns (r: Result<SnapshotTable, Error>)
      requires arena.Valid() && OwnResources(entries, arena.counters)
      modifies arena
      ensures arena.Valid() && old(arena.nextHandle) <= arena.nextHandle
      ensures Extended(old(arena.counters), arena.counters, old(arena.nextHandle), arena.nextHandle)
      ensures var spec := Spec.PrepareJobs(AbsTable(entries, old(arena.counters)), jobs, anchorMs);
              if spec.Failure? then r == Failure(spec.error)
              else
                && r.Success? && spec.value == Spec.Prepared(r.value.ids, AbsTable(r.value.table, arena.counters))
                && PreparedTable(entries, r.value.table, arena.counters, old(arena.nextHandle), arena.nextHandle)
    {
      var done := SnapshotTable([], map[]);
      ghost var before, low, known := arena.counters, arena.nextHandle, AbsTable(entries, arena.counters);
      for k := 0 to |jobs|
        invariant arena.Valid() && low <= arena.nextHandle
        invariant Extended(before, arena.counters, low, arena.nextHandle)
        invariant PreparedAs(Spec.PrepareJobs(known, jobs[..k], anchorMs), entries, done.ids, done.table, arena.counters, low, arena.nextHandle)
      {
        Spec.PrepareSnoc(known, jobs, k, anchorMs);
        r := ExtendPrepared(jobs[k], anchorMs, done, Spec.PrepareJobs(known, jobs[..k], anchorMs), known, before, low);
        if r.Failure? {
          PrepareFails(known, jobs, k + 1, anchorMs);
          return;
        }
        done := r.value;
      }
      assert jobs[..|jobs|] == jobs;
      return Success(done);
    }

    /** One round of the preparation loop, against the model's result so far. */
    method ExtendPrepared(a: AcceptableJob, anchorMs: nat, done: SnapshotTable, ghost front: Result<Spec.Prepared, Error>,
                          ghost known: Spec.Entries, ghost before: map<nat, nat>, ghost low: nat)
      returns (r: Result<SnapshotTable, Error>)
      requires arena.Valid() && OwnResources(entries, before) && known == AbsTable(entries, before)
      requires low <= arena.nextHandle && Extended(before, arena.counters, low, arena.nextHandle)
      requires PreparedAs(front, entries, done.ids, done.table, arena.counters, low, arena.nextHandle)
      modifies arena
      ensures arena.Valid() && low <= arena.nextHandle && Extended(before, arena.counters, low, arena.nextHandle)
      ensures var spec := Spec.AddPrepared(front, a.job.jobId, Spec.PrepareAcceptable(known, a, anchorMs));
              if spec.Failure? then r == Failure(spec.error)
              else r.Success? && PreparedAs(spec, entries, r.value.ids, r.value.table, arena.counters, low, arena.nextHandle)
    {
      var id := a.job.jobId;
      ghost var counters, mid := arena.counters, arena.nextHandle;
      var e := PrepareNext(a, anchorMs, known, before, low);
      if e.Failure? {
        return Failure(e.error);
      }
      if id in done.ids {
        return Failure(Spec.DuplicateSnapshotJob(id));
      }
      AddPreparedEntry(front, entries, done.ids, done.table, id, e.value, Spec.PrepareAcceptable(known, a, anchorMs).value,
                       before, counters, arena.counters, low, mid, arena.nextHandle);
      return Success(SnapshotTable(done.ids + [id], done.table[id := e.value]));
    }

    /** Prepares one job against the table as it was before the snapshot allocated anything. */
    method PrepareNext(a: AcceptableJob, anchorMs: nat, ghost known: Spec.Entries, ghost before: map<nat, nat>, ghost low: nat)
      returns (r: Result<RegistryEntry, Error>)
      requires arena.Valid() && OwnResources(entries, before) && known == AbsTable(entries, before)
      requires low <= arena.nextHandle && Extended(before, arena.counters, low, arena.nextHandle)
      modifies arena
      ensures arena.Valid() && old(arena.nextHandle) <= arena.nextHandle
      ensures Extended(before, arena.counters, low, arena.nextHandle)
      ensures Extended(old(arena.counters), arena.counters, old(arena.nextHandle), arena.nextHandle)
      ensures var spec := Spec.PrepareAcceptable(known, a, anchorMs);
              if spec.Failure? then r == Failure(spec.error)
              else r.Success? && PreparedEntry(entries, a.job.jobId, r.value, spec.value, old(arena.counters), arena.counters,
                                               old(arena.nextHandle), arena.nextHandle)
    {
      ghost var counters, mid := arena.counters, arena.nextHandle;
      AbsExtended(entries, before, counters, low, mid);
      r := PrepareAcceptable(a, anchorMs);
      ExtendedTransitive(before, counters, arena.counters, low, mid, arena.nextHandle);
    }

    /** Clones the table, inserts the prepared entries and makes every omitted one terminal. */
    method MergeTable(prepared: Table) returns (merged: Table)
      ensures MergedTable(entries, prepared, merged)
    {
      merged := entries + prepared;
      var todo := merged.Keys;
      while todo != {}
        invariant todo <= merged.Keys && merged.Keys == entries.Keys + prepared.Keys
        invariant forall id :: id in merged ==>
                    merged[id] == if id in prepared then prepared[id]
                                  else if id in todo then entries[id] else DemoteRecord(entries[id])
        decreases |todo|
      {
        var id :| id in todo;
        if id !in prepared {
          merged := merged[id := DemoteRecord(merged[id])];
        }
        todo := todo - {id};
      }
    }

    method PrepareSnapshot(eventSeq: nat, currentJob: Option<AcceptableJob>, recentJobs: seq<AcceptableJob>, anchorMs: nat)
      returns (r: Result<SnapshotView, Error>)
      requires Shared()
      modifies arena
      ensures Shared() && Model() == old(Model())
      ensures var spec := Spec.PrepareSnapshot(config, old(Model()), eventSeq, currentJob, recentJobs, anchorMs);
              if spec.Failure? then r == Failure(spec.error)
              else
                && r.Success?
                && spec.value == Spec.PreparedSnapshot(AbsTable(r.value.table, arena.counters), r.value.current, r.value.recent)
                && OwnResources(r.value.table, arena.counters) && Balanced(r.value.table, arena.counters, guards)
    {
      hide AbsTable, OwnResources, Balanced;
      if Spec.Before(anchorMs, lastAnchorMs) {
        return Failure(Spec.ClockMovedBackwards);
      }
      if lastEventSeq.Some? && eventSeq < lastEventSeq.value {
        return Failure(Spec.SnapshotSequenceRollback(lastEventSeq.value, eventSeq));
      }
      if |recentJobs| > config.maximumRecent {
        return Failure(Spec.RecentCapacityExceeded(config.maximumRecent));
      }
      var jobs := Spec.SnapshotJobs(currentJob, recentJobs);
      ghost var low, counters, known := arena.nextHandle, arena.counters, AbsTable(entries, arena.counters);
      var prepared := PrepareJobs(jobs, anchorMs);
      KeepShared(counters, low);
      if prepared.Failure? {
        return Failure(prepared.error);
      }
      Spec.JobsLength(known, jobs, anchorMs);
      r := ReconcileSnapshot(eventSeq, currentJob.Some?, prepared.value, counters, low);
    }

    /** Allocating resources for a snapshot disturbs no existing entry or guard. */
    lemma KeepShared(before: map<nat, nat>, low: nat)
      requires OwnResources(entries, before) && Balanced(entries, before, guards)
      requires arena.Valid() && Extended(before, arena.counters, low, arena.nextHandle)
      ensures Shared() && AbsTable(entries, arena.counters) == AbsTable(entries, before)
    {
      AbsExtended(entries, before, arena.counters, low, arena.nextHandle);
    }

    method MergeSnapshot(prepared: Table, ghost before: map<nat, nat>, ghost low: nat) returns (merged: Table)
      requires OwnResources(entries, before) && Balanced(entries, before, guards) && BelowHandle(before, low)
      requires Extended(before, arena.counters, low, arena.nextHandle)
      requires PreparedTable(entries, prepared, arena.counters, low, arena.nextHandle)
      ensures AbsTable(merged, arena.counters)
           == Spec.MergeSnapshot(AbsTable(entries, arena.counters), AbsTable(prepared, arena.counters))
      ensures |merged| == |AbsTable(merged, arena.counters)|
      ensures OwnResources(merged, arena.counters) && Balanced(merged, arena.counters, guards)
    {
      merged := MergeTable(prepared);
      AbsMerged(entries, prepared, merged, arena.counters);
      AbsSize(merged, arena.counters);
      MergeKeepsStorage(entries, prepared, merged, arena.counters, low, arena.nextHandle);
      MergeShared(entries, prepared, merged, before, arena.counters, low, arena.nextHandle, guards);
    }

    method ReconcileSnapshot(eventSeq: nat, hasCurrent: bool, prepared: SnapshotTable, ghost before: map<nat, nat>, ghost low: nat)
      returns (r: Result<SnapshotView, Error>)
      requires OwnResources(entries, before) && Balanced(entries, before, guards) && BelowHandle(before, low)
      requires Extended(before, arena.counters, low, arena.nextHandle)
      requires PreparedTable(entries, prepared.table, arena.counters, low, arena.nextHandle)
      requires hasCurrent ==> |prepared.ids| > 0
      ensures var currentId := if hasCurrent then Some(prepared.ids[0]) else None;
              var recentIds := if hasCurrent then prepared.ids[1..] else prepared.ids;
              var merged := Spec.MergeSnapshot(AbsTable(entries, arena.counters), AbsTable(prepared.table, arena.counters));
              if lastEventSeq == Some(eventSeq) && (currentId != watermarkCurrent || recentIds != watermarkRecent) then
                r == Failure(Spec.SnapshotStateConflict(eventSeq))
              else if |merged| > config.maximumGenerations then
                r == Failure(Spec.GenerationCapacityExceeded(config.maximumGenerations))
              else
                && r.Success? && r.value.current == currentId && r.value.recent == recentIds
                && AbsTable(r.value.table, arena.counters) == merged
                && OwnResources(r.value.table, arena.counters) && Balanced(r.value.table, arena.counters, guards)
    {
      var currentId := if hasCurrent then Some(prepared.ids[0]) else None;
      var recentIds := if hasCurrent then prepared.ids[1..] else prepared.ids;
      if lastEventSeq == Some(eventSeq) && (currentId != watermarkCurrent || recentIds != watermarkRecent) {
        return Failure(Spec.SnapshotStateConflict(eventSeq));
      }
      var merged := MergeSnapshot(prepared.table, before, low);
      if |merged| > config.maximumGenerations {
        return Failure(Spec.GenerationCapacityExceeded(config.maximumGenerations));
      }
      return Success(SnapshotView(merged, currentId, recentIds));
    }

    method RememberWinnerRecovery(id: JobId)
      modifies this`winnerRecovery
      ensures winnerRecovery == Spec.Remember(old(winnerRecovery), id)
    {
      if id in winnerRecovery {
        return;
      }
      if |winnerRecovery| == Spec.MAX_ZCASH_WINNER_RECOVERY_JOBS {
        winnerRecovery := winnerRecovery[1..];
      }
      winnerRecovery := winnerRecovery + [id];
    }

    method RememberRoles()
      modifies this`winnerRecovery
      ensures winnerRecovery == Spec.RememberAll(old(winnerRecovery), Spec.Roles(old(Model())))
    {
      var ids := (if current.Some? then [current.value] else []) + recent;
      for k := 0 to |ids|
        invariant winnerRecovery == Spec.RememberAll(old(winnerRecovery), ids[..k])
      {
        assert ids[..k + 1][..k] == ids[..k];
        RememberWinnerRecovery(ids[k]);
      }
      assert ids[..|ids|] == ids;
    }

    method ReplaceWork(view: SnapshotView, eventSeq: nat, startedMs: nat, nowMs: nat)
      requires arena.Valid() && OwnResources(view.table, arena.counters) && Balanced(view.table, arena.counters, guards)
      modifies this
      ensures Shared() && guards == old(guards)
      ensures Model() == Spec.Registry(AbsTable(view.table, arena.counters), view.current, view.recent, old(winnerRecovery),
                                       view.current, view.recent, Some(eventSeq), Some(startedMs), Some(nowMs), true)
    {
      entries := view.table;
      current := view.current;
      recent := view.recent;
      watermarkCurrent := current;
      watermarkRecent := recent;
      lastEventSeq := Some(eventSeq);
      lastAnchorMs := Some(startedMs);
      lastMonotonicMs := Some(nowMs);
      synchronized := true;
    }

    method InstallSnapshot(view: SnapshotView, eventSeq: nat, startedMs: nat)
      requires arena.Valid() && OwnResources(view.table, arena.counters) && Balanced(view.table, arena.counters, guards)
      modifies this
      ensures Shared() && guards == old(guards)
      ensures Model() == Spec.InstallSnapshot(old(Model()),
                Spec.PreparedSnapshot(AbsTable(view.table, arena.counters), view.current, view.recent), eventSeq, startedMs)
    {
      var nowMs := Spec.Latest(lastMonotonicMs, startedMs);
      ReplaceWork(view, eventSeq, startedMs, nowMs);
      FinishSnapshot(nowMs);
    }

    method FinishSnapshot(nowMs: nat)
      requires Shared()
      modifies this
      ensures Shared() && guards == old(guards)
      ensures var expired := Spec.ExpireAt(old(Model()), nowMs);
              Model() == Spec.Prune(expired.(winnerRecovery := Spec.RememberAll(expired.winnerRecovery, Spec.Roles(expired))), nowMs)
    {
      ghost var before := Model();
      ExpireAt(nowMs);
      ghost var expired := Model();
      assert expired == Spec.ExpireAt(before, nowMs);
      RememberRoles();
      assert Model() == expired.(winnerRecovery := Spec.RememberAll(expired.winnerRecovery, Spec.Roles(expired)));
      PruneWinnerRecovery(nowMs);
    }

    method ApplySnapshot(eventSeq: nat, currentJob: Option<AcceptableJob>, recentJobs: seq<AcceptableJob>, startedMs: nat)
      returns (r: Result<(), Error>)
      requires Valid()
      modifies this, arena
      ensures Valid() && guards == old(guards)
      ensures Spec.Step(Model(), r) == Spec.ApplySnapshot(config, old(Model()), eventSeq, currentJob, recentJobs, startedMs)
    {
      SnapshotInv(config, Model(), eventSeq, currentJob, recentJobs, startedMs);
      r := PrepareAndInstall(eventSeq, currentJob, recentJobs, startedMs);
    }

    method PrepareAndInstall(eventSeq: nat, currentJob: Option<AcceptableJob>, recentJobs: seq<AcceptableJob>, startedMs: nat)
      returns (r: Result<(), Error>)
      requires Shared()
      modifies this, arena
      ensures Shared() && guards == old(guards)
      ensures Spec.Step(Model(), r) == Spec.ApplySnapshot(config, old(Model()), eventSeq, currentJob, recentJobs, startedMs)
    {
      ghost var before := Model();
      var prepared := PrepareSnapshot(eventSeq, currentJob, recentJobs, startedMs);
      assert Model() == before;
      if prepared.Failure? {
        SuspendShared();
        return Failure(prepared.error);
      }
      InstallSnapshot(prepared.value, eventSeq, startedMs);
      return Success(());
    }

    // -------------------------------------------------------------- events

    /** Replaces one known entry without touching its storage. */
    method UpdateEntry(id: JobId, e: RegistryEntry)
      requires Shared() && id in entries && e.storage == entries[id].storage
      modifies this`entries
      ensures Shared() && entries == old(entries)[id := e]
      ensures Model() == old(Model()).(entries := old(Model()).entries[id := AbsEntry(e, arena.counters)])
    {
      UpdateShared(entries, arena.counters, guards, id, e);
      entries := entries[id := e];
    }

    method DropRole(id: JobId)
      modifies this`current, this`recent
      ensures Model() == Spec.DropRole(old(Model()), id)
    {
      if current == Some(id) {
        current := None;
      }
      recent := Spec.Without(recent, id);
    }

    method InsertGeneration(job: JobDescriptor, untilMs: nat, recoveryMs: nat)
      requires Shared() && job.jobId !in entries && recoveryMs == untilMs + Spec.ZCASH_WINNER_RECOVERY_TAIL_MS
      modifies this`entries, this`current, this`winnerRecovery, arena
      ensures Shared() && Model() == Spec.Insert(old(Model()), job, untilMs)
    {
      InsertEntry(job, untilMs, recoveryMs);
      ghost var inserted, table, counters := Model(), entries, arena.counters;
      current := Some(job.jobId);
      RememberWinnerRecovery(job.jobId);
      assert entries == table && arena.counters == counters;
      assert Model() == inserted.(current := current, winnerRecovery := winnerRecovery);
    }

    /** A new accepting entry with a counter of its own. */
    method InsertEntry(job: JobDescriptor, untilMs: nat, recoveryMs: nat)
      requires Shared() && job.jobId !in entries
      modifies this`entries, arena
      ensures Shared()
      ensures Model() == old(Model()).(entries := old(Model()).entries[job.jobId :=
                Spec.Entry(job, Spec.Live(0), untilMs, recoveryMs, Spec.Accepting)])
    {
      ghost var counters := arena.counters;
      var resource := arena.Allocate(job, 0);
      var e := RegistryEntry(Live(resource), untilMs, recoveryMs, Spec.Accepting);
      InsertShared(entries, counters, guards, job.jobId, e);
      assert AbsEntry(e, arena.counters) == Spec.Entry(job, Spec.Live(0), untilMs, recoveryMs, Spec.Accepting);
      entries := entries[job.jobId := e];
    }

    method Activate(job: JobDescriptor, anchorMs: nat) returns (r: Result<(), Error>)
      requires Shared()
      modifies this, arena
      ensures Shared() && guards == old(guards)
      ensures Spec.Step(Model(), r) == Spec.Activate(config, old(Model()), job, anchorMs)
    {
      AbsIds(entries, arena.counters, anchorMs);
      var prior := Spec.RetainOption(current, AcceptingIds(entries, anchorMs));
      var refused := CheckActivation(job, prior, anchorMs);
      if refused.Some? {
        return Failure(refused.value);
      }
      r := Promote(job, prior, anchorMs + job.maxAgeMs, anchorMs);
    }

    method CheckActivation(job: JobDescriptor, prior: Option<JobId>, anchorMs: nat) returns (refused: Option<Error>)
      ensures refused == Spec.RefuseActivation(config, Model(), job, prior, anchorMs)
    {
      AbsSize(entries, arena.counters);
      if !ValidDescriptor(job) {
        return Some(Spec.InvalidDescriptor);
      }
      if job.jobId in entries {
        return Some(Spec.ReusedJobId(job.jobId));
      }
      if prior.Some? && |recent| == config.maximumRecent {
        return Some(Spec.RecentCapacityExceeded(config.maximumRecent));
      }
      if |entries| == config.maximumGenerations {
        return Some(Spec.GenerationCapacityExceeded(config.maximumGenerations));
      }
      var until := Spec.Deadline(anchorMs, job.maxAgeMs);
      return if until.Failure? then Some(until.error) else None;
    }

    method Promote(job: JobDescriptor, prior: Option<JobId>, untilMs: nat, anchorMs: nat) returns (r: Result<(), Error>)
      requires Shared() && job.jobId !in entries
      modifies this, arena
      ensures Shared() && guards == old(guards)
      ensures var pushed := Spec.PushPrior(old(Model()), prior);
              Spec.Step(Model(), r) == if Spec.RecoveryDeadline(untilMs).Failure? then Spec.Step(pushed, Failure(Spec.DeadlineOverflow))
                                       else Spec.Step(Spec.Prune(Spec.Insert(pushed, job, untilMs), anchorMs), Success(()))
    {
      if prior.Some? {
        recent := [prior.value] + recent;
      }
      var recovery := Spec.RecoveryDeadline(untilMs);
      if recovery.Failure? {
        return Failure(recovery.error);
      }
      InsertGeneration(job, untilMs, recovery.value);
      PruneWinnerRecovery(anchorMs);
      return Success(());
    }

    method InvalidateJob(id: JobId, reason: InvalidationReason, acceptForMs: nat, anchorMs: nat) returns (r: Result<(), Error>)
      requires Shared()
      modifies this`entries, this`current, this`recent
      ensures Shared()
      ensures Spec.Step(Model(), r) == Spec.Invalidate(config, old(Model()), id, reason, acceptForMs, anchorMs)
      ensures id in old(entries) && old(entries)[id].state == Spec.Accepting && reason != Superseded ==>
                r.Success? && id in entries && entries[id].state == Spec.Invalidated && current != Some(id) && id !in recent
    {
      if id !in entries {
        return Success(());
      }
      if entries[id].state != Spec.Accepting {
        DropRole(id);
        return Success(());
      }
      if reason == Superseded && acceptForMs != 0 {
        r := SupersedeFor(id, acceptForMs, anchorMs);
        return;
      }
      ghost var before := Model();
      UpdateEntry(id, entries[id].(state := Spec.Invalidated));
      assert Model() == before.(entries := before.entries[id := before.entries[id].(state := Spec.Invalidated)]);
      DropRole(id);
      return Success(());
    }

    /** A superseded job keeps a grace period, if one can be represented and the list has room. */
    method SupersedeFor(id: JobId, acceptForMs: nat, anchorMs: nat) returns (r: Result<(), Error>)
      requires Shared() && id in entries && entries[id].state == Spec.Accepting
      modifies this`entries, this`current, this`recent
      ensures Shared()
      ensures Spec.Step(Model(), r) == Spec.SupersedeFor(config, old(Model()), id, acceptForMs, anchorMs)
    {
      ghost var before := Model();
      assert id in before.entries && before.recent == recent;
      var proposed := Spec.Deadline(anchorMs, acceptForMs);
      if proposed.Failure? {
        return Failure(proposed.error);
      }
      if id !in recent && |recent| == config.maximumRecent {
        return Failure(Spec.RecentCapacityExceeded(config.maximumRecent));
      }
      GraceGranted(config, before, id, acceptForMs, anchorMs);
      Supersede(id, anchorMs + acceptForMs, anchorMs);
      return Success(());
    }

    method Supersede(id: JobId, proposed: nat, anchorMs: nat)
      requires Shared() && id in entries && entries[id].state == Spec.Accepting
      modifies this`entries, this`current, this`recent
      ensures Shared() && Model() == Spec.Supersede(old(Model()), id, proposed, anchorMs)
    {
      ghost var before := Model();
      var until := MinOf(entries[id].acceptUntilMs, proposed);
      var record := entries[id].(acceptUntilMs := until, state := if until > anchorMs then Spec.Accepting else Spec.Invalidated);
      ghost var e := before.entries[id].(acceptUntilMs := until, state := record.state);
      assert AbsEntry(record, arena.counters) == e && (record.AcceptingAt(anchorMs) <==> e.AcceptingAt(anchorMs));
      UpdateEntry(id, record);
      GraceRoles(id, record, anchorMs);
      assert Model() == Spec.Supersede(before, id, proposed, anchorMs);
    }

    method GraceRoles(id: JobId, record: RegistryEntry, anchorMs: nat)
      modifies this`current, this`recent
      ensures current == if old(current) == Some(id) then None else old(current)
      ensures var pushed := if record.state == Spec.Accepting && id !in old(recent) then [id] + old(recent) else old(recent);
              recent == if record.AcceptingAt(anchorMs) then pushed else Spec.Without(pushed, id)
    {
      if record.state == Spec.Accepting && id !in recent {
        recent := [id] + recent;
      }
      if current == Some(id) {
        current := None;
      }
      if !record.AcceptingAt(anchorMs) {
        recent := Spec.Without(recent, id);
      }
    }

    method Close(id: JobId)
      requires Shared()
      modifies this`entries, this`current, this`recent, this`winnerRecovery
      ensures Shared() && Model() == Spec.Close(old(Model()), id)
    {
      if id in entries {
        UpdateEntry(id, entries[id].(state := Spec.Closed));
        winnerRecovery := Spec.Without(winnerRecovery, id);
        DropRole(id);
      }
    }

    method Dispatch(event: BackendEvent, anchorMs: nat) returns (r: Result<(), Error>)
      requires Shared()
      modifies this, arena
      ensures Shared() && guards == old(guards)
      ensures Spec.Step(Model(), r) == Spec.Dispatch(config, old(Model()), event, anchorMs)
    {
      match event
      case JobActivated(_, job) =>
        r := Activate(job, anchorMs);
      case JobInvalidated(_, id, reason, acceptForMs) =>
        if reason == ZcashTipChanged {
          winnerRecovery := Spec.Without(winnerRecovery, id);
        }
        r := InvalidateJob(id, reason, acceptForMs, anchorMs);
      case GenerationClosed(_, id) =>
        Close(id);
        r := Success(());
      case ShareCommitted(_, _, _, _) =>
        r := Success(());
      case WinnerEvent(_, _, _, _, _) =>
        r := Success(());
    }

    /** `ExpireAt` keeps counters and guards, which it never touches. */
    method ExpireShared(nowMs: nat)
      requires Shared()
      modifies this
      ensures Shared() && guards == old(guards) && Model() == Spec.ExpireAt(old(Model()), nowMs)
    {
      ExpireAt(nowMs);
    }

    method CommitEvent(event: BackendEvent, anchorMs: nat, nowMs: nat)
      requires Shared()
      modifies this
      ensures Shared() && guards == old(guards) && Model() == Spec.Commit(old(Model()), event, anchorMs, nowMs)
    {
      ExpireShared(nowMs);
      lastEventSeq := Some(EventSeq(event));
      watermarkCurrent := current;
      watermarkRecent := recent;
      lastAnchorMs := Some(anchorMs);
      lastMonotonicMs := Some(nowMs);
    }

    method TryApplyEvent(event: BackendEvent, anchorMs: nat, policyNowMs: nat) returns (r: Result<(), Error>)
      requires Shared()
      modifies this, arena
      ensures Shared() && guards == old(guards)
      ensures Spec.Step(Model(), r) == Spec.TryApplyEvent(config, old(Model()), event, anchorMs, policyNowMs)
    {
      if !synchronized {
        return Failure(Spec.NotSynchronized);
      }
      if Spec.Before(anchorMs, lastAnchorMs) || Spec.Before(policyNowMs, lastMonotonicMs) || policyNowMs < anchorMs {
        return Failure(Spec.ClockMovedBackwards);
      }
      if !ValidEvent(config.digests, event) {
        return Failure(Spec.InvalidBackendEvent);
      }
      if lastEventSeq.None? {
        return Failure(Spec.NotSynchronized);
      }
      if lastEventSeq.value >= U64_MAX {
        return Failure(Spec.EventSequenceExhausted);
      }
      if EventSeq(event) != lastEventSeq.value + 1 {
        return Failure(Spec.EventSequenceGap(lastEventSeq.value + 1, EventSeq(event)));
      }
      assert Spec.CheckEvent(config, Model(), event, anchorMs, policyNowMs).None?;
      r := ApplyChecked(event, anchorMs, Spec.Latest(lastMonotonicMs, policyNowMs));
    }

    method ApplyChecked(event: BackendEvent, anchorMs: nat, nowMs: nat) returns (r: Result<(), Error>)
      requires Shared()
      modifies this, arena
      ensures Shared() && guards == old(guards)
      ensures Spec.Step(Model(), r)
           == Spec.Conclude(Spec.Dispatch(config, Spec.ExpireAt(old(Model()), nowMs), event, anchorMs), event, anchorMs, nowMs)
    {
      r := DispatchExpired(event, anchorMs, nowMs);
      ConcludeEvent(r, event, anchorMs, nowMs);
    }

    method DispatchExpired(event: BackendEvent, anchorMs: nat, nowMs: nat) returns (r: Result<(), Error>)
      requires Shared()
      modifies this, arena
      ensures Shared() && guards == old(guards)
      ensures Spec.Step(Model(), r) == Spec.Dispatch(config, Spec.ExpireAt(old(Model()), nowMs), event, anchorMs)
    {
      ExpireShared(nowMs);
      r := Dispatch(event, anchorMs);
    }

    method ConcludeEvent(r: Result<(), Error>, event: BackendEvent, anchorMs: nat, nowMs: nat)
      requires Shared()
      modifies this
      ensures Shared() && guards == old(guards)
      ensures Spec.Step(Model(), r) == Spec.Conclude(Spec.Step(old(Model()), r), event, anchorMs, nowMs)
    {
      if r.Success? {
        CommitEvent(event, anchorMs, nowMs);
      }
    }

    method ApplyEventAt(event: BackendEvent, anchorMs: nat, policyNowMs: nat) returns (r: Result<(), Error>)
      requires Valid()
      modifies this, arena
      ensures Valid() && guards == old(guards)
      ensures Spec.Step(Model(), r) == Spec.ApplyEventAt(config, old(Model()), event, anchorMs, policyNowMs)
    {
      ghost var before := Model();
      EventInv(config, before, event, anchorMs, policyNowMs);
      r := TryApplyEvent(event, anchorMs, policyNowMs);
      if r.Failure? {
        SuspendShared();
      }
    }

    method ApplyEvent(event: BackendEvent, anchorMs: nat) returns (r: Result<(), Error>)
      requires Valid()
      modifies this, arena
      ensures Valid() && guards == old(guards)
      ensures Spec.Step(Model(), r) == Spec.ApplyEvent(config, old(Model()), event, anchorMs)
    {
      r := ApplyEventAt(event, anchorMs, Spec.Latest(lastMonotonicMs, anchorMs));
    }
  }
}
