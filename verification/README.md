# Formal model of the W-Cash pool core

This project models the parts of the merged-mining pool that decide whether a miner's
work is accepted, and proves what those decisions guarantee. It is written in Dafny 4.11;
`dafny verify dfyconfig.toml` checks all of it.

What is modelled, in the pool's own terms:

- **Generation registry** (`RegistryModel`, `RegistryInvariant`, `RegistryRuns`,
  `RegistryHistory`, `RegistryMeaning`, `RegistryOutcomes`, `GenerationRegistry`). The table of backend job generations with its
  current and recent roles, suspended watermark, late-winner list, deadlines and ordinary
  admission guards. `RegistryModel` gives every operation as a transition on values. The
  class `GenerationRegistry` mutates the same fields as the original and each of its methods
  is proved equal to the transition. The invariant and the run theorems are about all
  sequences of operations, failing ones included. `RegistryMeaning` says what each operation
  does to the work on offer, and `RegistryOutcomes` exactly when it is accepted.
- **Backend client** (`ClientModel`, `ClientRuns`, `ClientMeaning`, `BackendClient`). One connection to the
  backend: hello, replay pages, the one-way switch to the live stream, the receive loop that
  queues events in front of a response, and the evidence a share commit must match. An
  exchange consumes a list of received messages; a list that runs out is an I/O failure.
- **Composition** of the two: a client's snapshot and its popped events fed to a registry, each
  event at its own anchor or at a policy time the pool samples.
- **Targets, vardiff and wide arithmetic** (`Bytes`, `Target`, `WideArithmetic`, `Vardiff`).
  256-bit targets as byte strings with their numeric meaning, the limb multiplication, the
  bit-serial 320-by-128-bit division, and the difficulty controller.
- **Sessions and nonces** (`Session`, `SessionMeaning`, `Nonce`). The per-connection state machine, the
  preparation of a submission against the registry, and the nonce-prefix allocator.
- **The pool as a whole** (`PoolRuns`). One registry, any number of sessions and allocators, the
  submission contexts their callers hold until the backend resolves them, and every interleaving
  of preparing, re-qualifying and resolving them with everything else. The registry operations of
  a history form a trace, and the trace drops only guards that are held, so the registry theorems,
  guard conservation included, hold of every pool history.
- **Request limiter** (`RateLimiter`), **firewall guard checker** (`FirewallGuard`), and from
  the wallet-recovery script the **Bech32m bit regrouping** (`BitRegrouping`) and the
  **crash-safe mutation ceremony** (`RecoveryCeremony`).

Conventions. A state-changing original is a class whose methods equate the new abstract state
with a specification function; theorems are stated about those functions. Errors are `Result`
values with the original's variants. Job identifiers, hashes, UUIDs and Equihash solutions are
natural numbers, zero standing for all-zero bytes. Digests and the validity checks nested in
protocol messages are uninterpreted functions carried in a `Digests` value, so every theorem
holds for any choice of them and none assumes collision freedom. Clocks and received messages
are parameters. Reference-counted in-flight counters are handles into an arena of counters.
Word limits are written out wherever a checked operation can fail.

A job identifier of zero is refused by the descriptor check before the registry's own zero test,
so that second error does not occur here.

## Model

| member | source | states |
|---|---|---|
| `Bytes.CompareIsIntegerOrder` | crates/wcash-pool-core/src/target.rs:12-13 | the derived byte-wise order on 32-byte big-endian targets is exactly numeric order |
| `Bytes.ReversedCompareIsIntegerOrder` | crates/wcash-pool-core/src/jobs.rs:688-700 | comparing little-endian hashes from the last byte down, as the winner filter does, is numeric order of their little-endian values |
| `Bytes.ReverseSwapsEndianness` | crates/wcash-pool-core/src/target.rs:33-45 | reversing a byte string exchanges its big-endian and little-endian values |
| `Bytes.BeValueInjective` | crates/wcash-pool-core/src/target.rs:13-24 | equal-length byte strings with the same value are the same string |
| `Target.FromBeBytes` | crates/wcash-pool-core/src/target.rs:20-25 | succeeds exactly for nonzero values and keeps the bytes |
| `Target.FromBackend` | crates/wcash-pool-core/src/target.rs:33-35 | succeeds exactly for nonzero values; the target's value is the little-endian value of the input |
| `Target.ToBackend` | crates/wcash-pool-core/src/target.rs:43-45 | the little-endian form has the target's value and reads back to the same target |
| `Target.Easier` | crates/wcash-pool-core/src/target.rs:53-55 | the numeric maximum of two targets |
| `Target.NewBounds` | crates/wcash-pool-core/src/target.rs:114-132 | fails exactly when the operator limit is harder than the easier network; otherwise the floor is the numeric maximum of both networks |
| `Target.NewBinding` | crates/wcash-pool-core/src/target.rs:175-192 | succeeds exactly when the target lies numerically within the bounds |
| `Target.BindingNeverHarderThanNetworks` | crates/wcash-pool-core/src/target.rs:114-192 | a valid binding's target is numerically at least both network targets, also through the little-endian form |
| `WideArithmetic.MultiplyLimbs` | crates/wcash-pool-core/src/vardiff.rs:343-353 | the five result limbs denote the exact product |
| `WideArithmetic.DivisionStep` | crates/wcash-pool-core/src/vardiff.rs:360-372 | one restoring step yields the true quotient bit and remainder even when the 128-bit shift drops its top bit |
| `WideArithmetic.ShiftIn` | crates/wcash-pool-core/src/vardiff.rs:360-374 | one loop round extends the quotient and remainder of the numerator's prefix by one bit, recording overflow above 256 bits |
| `WideArithmetic.Divide320By128` | crates/wcash-pool-core/src/vardiff.rs:355-377 | the result denotes the floored quotient, saturated at the largest 256-bit value, for every 320-bit numerator and nonzero divisor |
| `WideArithmetic.ToLittleLimbs` | crates/wcash-pool-core/src/vardiff.rs:320-329 | four little-endian limbs denote the target's value |
| `WideArithmetic.FromLittleLimbs` | crates/wcash-pool-core/src/vardiff.rs:331-341 | the target has the limbs' value, or one when that is zero |
| `WideArithmetic.ScaleTarget` | crates/wcash-pool-core/src/vardiff.rs:301-305 | the result's value is the floored ratio clamped to one and the largest target |
| `WideArithmetic.MultiplyTarget` | crates/wcash-pool-core/src/vardiff.rs:307-314 | the product saturated at the largest target |
| `WideArithmetic.DivideTarget` | crates/wcash-pool-core/src/vardiff.rs:316-318 | the floored quotient, at least one |
| `Vardiff.NewConfig` | crates/wcash-pool-core/src/vardiff.rs:25-50 | succeeds exactly for the configurations every later theorem assumes valid |
| `Vardiff.StepsAreOrdered` | crates/wcash-pool-core/src/vardiff.rs:139-175 | hardest step, target and easiest step are ordered, so the clamp never meets crossed limits |
| `Vardiff.RetargetDirection` | crates/wcash-pool-core/src/vardiff.rs:139-175 | a fast window never eases, a slow window never hardens, after scaling, step clamp and bounds clamp |
| `Vardiff.ObserveIsBounded` | crates/wcash-pool-core/src/vardiff.rs:108-180 | an accepted share moves the target at most one adjustment factor, in the right direction, within the bounds |
| `Vardiff.TickIsBounded` | crates/wcash-pool-core/src/vardiff.rs:184-235 | an inactivity tick only eases, by at most one factor, within the bounds |
| `Vardiff.StepKeepsBindingSafe` | crates/wcash-pool-core/src/vardiff.rs:88-241 | every operation keeps the controller valid and either keeps the binding or raises the revision by exactly one |
| `Vardiff.RevisionIdentifiesBinding` | crates/wcash-pool-core/src/vardiff.rs:54-253 | over any run a revision names one binding, and every binding is at least as easy as both networks |
| `Vardiff.BandIsSymmetric` | crates/wcash-pool-core/src/vardiff.rs:139-148 | the hysteresis test is elapsed time within the band around the window; the overdue test is elapsed time above it |
| `Vardiff.SampledIsRetargeted` | crates/wcash-pool-core/src/vardiff.rs:150-165 | the retargeted value in whole numbers: scaled, within one step, then within the bounds |
| `Vardiff.ObserveExactly` | crates/wcash-pool-core/src/vardiff.rs:108-180 | every outcome of a share: ignored, refused, counted, kept inside the band, or retargeted to exactly that value under the next revision |
| `Vardiff.TickExactly` | crates/wcash-pool-core/src/vardiff.rs:184-235 | every outcome of a tick: refused, started, waiting inside the band, or eased to exactly that value |
| `Vardiff.RebindExactly` | crates/wcash-pool-core/src/vardiff.rs:88-101 | every outcome of new network targets, with the new target as the easier of the old one and both networks |
| `Vardiff.VardiffController.New` | crates/wcash-pool-core/src/vardiff.rs:64-80 | a fresh valid controller with the given revision and the initial target clamped into the bounds; fails exactly when a network is easier than the operator limit |
| `Vardiff.VardiffController.UpdateNetworkTargets` | crates/wcash-pool-core/src/vardiff.rs:88-101 | equals the rebinding transition: same bounds keep the binding, new bounds clamp and bump the revision |
| `Vardiff.VardiffController.ObserveShare` | crates/wcash-pool-core/src/vardiff.rs:108-180 | equals the share transition, whose every outcome `Vardiff.ObserveExactly` gives in whole numbers |
| `Vardiff.VardiffController.Tick` | crates/wcash-pool-core/src/vardiff.rs:184-235 | equals the tick transition |
| `RegistryInvariant.SnapshotInv` | crates/wcash-pool-core/src/jobs.rs:468-514 | every snapshot, accepted or refused, keeps the registry invariant |
| `RegistryInvariant.EventInv` | crates/wcash-pool-core/src/jobs.rs:520-547 | every event, accepted or refused, keeps the registry invariant |
| `RegistryInvariant.InvalidateInv` | crates/wcash-pool-core/src/jobs.rs:1027-1097 | invalidation with or without grace keeps roles and accepting entries in agreement |
| `RegistryInvariant.ActivateInv` | crates/wcash-pool-core/src/jobs.rs:955-997 | activation keeps roles and accepting entries in agreement, also when it fails midway |
| `RegistryInvariant.SuspendInv` | crates/wcash-pool-core/src/jobs.rs:410-420 | suspension keeps the invariant: the entries still open are exactly the watermark roles |
| `RegistryInvariant.ClockInv` | crates/wcash-pool-core/src/jobs.rs:1119-1159 | clock advances and expiry keep the invariant |
| `RegistryInvariant.AdmissionInv` | crates/wcash-pool-core/src/jobs.rs:553-583 | admissions, granted or refused, keep the invariant |
| `RegistryInvariant.CandidateInv` | crates/wcash-pool-core/src/jobs.rs:653-706 | late-winner admissions keep the invariant |
| `RegistryInvariant.CollectInv` | crates/wcash-pool-core/src/jobs.rs:713-740 | retirement keeps the invariant |
| `RegistryRuns.RunInv` | crates/wcash-pool-core/src/jobs.rs:371-1159 | after any run: accepting IDs are exactly current plus recent, open IDs exactly the watermark roles, lists duplicate-free and bounded, tombstones terminal, table within its limit |
| `RegistryRuns.RunEvolves` | crates/wcash-pool-core/src/jobs.rs:827-1097 | between any two points of a run no ID is forgotten, no descriptor changes, no deadline grows, no terminal state is left |
| `RegistryRuns.FindIntroduction` | crates/wcash-pool-core/src/jobs.rs:827-997 | every known ID was introduced by some snapshot or event whose anchor bounds its deadlines |
| `RegistryRuns.AdmissionBeforeFirstDeadline` | crates/wcash-pool-core/src/jobs.rs:553-583 | every ordinary admission of any run is strictly before first anchor plus maximum age, with the original descriptor |
| `RegistryRuns.AdmissionExactlyForRoles` | crates/wcash-pool-core/src/jobs.rs:553-583 | an admission succeeds if and only if the registry is synchronized, the clock has not gone back, the job holds the current or a recent role before its deadline, and its counter has room |
| `RegistryRuns.TerminalNeverAdmitted` | crates/wcash-pool-core/src/jobs.rs:553-583 | once invalidated or closed, a job is refused after any continuation |
| `RegistryRuns.GrantExactlyWhenQualified` | crates/wcash-pool-core/src/jobs.rs:653-706 | a late-winner grant succeeds, with the job's own descriptor, if and only if the registry is synchronized, the clock has not gone back, the job is listed, not closed and within its tail, the hash meets the target, and the Zcash parent is that of any accepting current job (or none is required) |
| `RegistryRuns.GrantBeforeTailEnds` | crates/wcash-pool-core/src/jobs.rs:653-706 | every grant of any run is strictly before the first deadline plus sixty seconds |
| `RegistryRuns.WithdrawnNeverGranted` | crates/wcash-pool-core/src/jobs.rs:918-933 | a known job closed or invalidated by a Zcash tip change is neither granted nor admitted after any continuation |
| `RegistryHistory.GuardConservation` | crates/wcash-pool-core/src/jobs.rs:569-582 | over any run the in-flight count of each ID is guards created minus guards dropped |
| `RegistryHistory.GuardedNeverRetired` | crates/wcash-pool-core/src/jobs.rs:713-740 | an ID with an outstanding guard is live and reports exactly its guard count |
| `RegistryHistory.RetiredOnce` | crates/wcash-pool-core/src/jobs.rs:713-740 | an ID reported by one collection is reported by no later collection of any continuation |
| `RegistryHistory.StallKeepsWatermark` | crates/wcash-pool-core/src/jobs.rs:1129-1159 | while nothing is delivered, suspensions, queries and refusals change the watermark only by expiry |
| `RegistryHistory.RepeatedSnapshotIsExact` | crates/wcash-pool-core/src/jobs.rs:486-495 | a snapshot repeating the last sequence succeeds only with exactly the roles last held there less those expired since |
| `RegistryMeaning.ExpiryMeaning` | crates/wcash-pool-core/src/jobs.rs:1129-1159 | eager expiry of entries and roles leaves on offer exactly the jobs whose deadline lies ahead, in order |
| `RegistryMeaning.EventMeaning` | crates/wcash-pool-core/src/jobs.rs:874-953 | an accepted event changes the work on offer exactly as it says: an activation leads and pushes the current job to the recent ones, a supersession caps one deadline and moves a current job to the recent ones, any other invalidation or a closure withdraws one job, everything else changes nothing |
| `RegistryMeaning.SnapshotMeaning` | crates/wcash-pool-core/src/jobs.rs:468-514 | an accepted snapshot replaces the work on offer by what it lists, in order, each job until the earlier of its stated lifetime and the deadline it had, less what has run out |
| `RegistryMeaning.ListedDeadlines` | crates/wcash-pool-core/src/jobs.rs:827-872 | after an accepted snapshot every listed job has exactly the earlier of its previous deadline and request instant plus stated lifetime, and is the job listed |
| `RegistryMeaning.OmittedIsTerminal` | crates/wcash-pool-core/src/jobs.rs:802-817 | a known job an accepted snapshot omits is terminal |
| `RegistryMeaning.RunMeaning` | crates/wcash-pool-core/src/jobs.rs:371-1159 | after every run the roles and deadlines are what the operations, one by one, make of an empty board; refused deliveries and clock rollbacks clear it, queries only expire it |
| `RegistryMeaning.AdmittedFromBoard` | crates/wcash-pool-core/src/jobs.rs:553-583 | after every run an admission succeeds if and only if the job is on that board, has not run out, the clock has not gone back and its counter has room |
| `RegistryOutcomes.SnapshotAcceptedExactly` | crates/wcash-pool-core/src/jobs.rs:747-825 | a snapshot is accepted if and only if neither clock nor journal went back, its jobs are distinct and fit what is known, an unchanged position repeats its roles, and list and table have room |
| `RegistryOutcomes.EventAcceptedExactly` | crates/wcash-pool-core/src/jobs.rs:874-997 | an event is accepted if and only if the registry is synchronized at its predecessor, no clock went back, and activated or superseded work is new, fits and has representable deadlines |
| `RegistryOutcomes.EndedNeverAdmitted` | crates/wcash-pool-core/src/jobs.rs:1027-1097 | a known job invalidated for any reason but supersession, or closed, is terminal and refused after any continuation of the run |
| `RegistryOutcomes.SupersededExactly` | crates/wcash-pool-core/src/jobs.rs:1051-1076 | a superseded job still accepting has exactly the earlier of its deadline and the end of its grace, and goes on accepting exactly while that lies beyond the policy time |
| `RegistryOutcomes.ListedBoundsAdmission` | crates/wcash-pool-core/src/jobs.rs:827-872 | after any continuation, an admission of a job that an accepted snapshot listed is strictly before the end of its stated lifetime and of its previous one |
| `RegistryOutcomes.ListedAdmittedUntilThen` | crates/wcash-pool-core/src/jobs.rs:553-583 | until the next delivery a listed job that holds a role is admitted exactly until that instant |
| `RegistryOutcomes.ActivationLists` | crates/wcash-pool-core/src/jobs.rs:955-1025 | an activated job is on the late-winner list, with exactly those listed before that share its Zcash parent, are not closed and are within their tail; a full list loses its oldest |
| `RegistryOutcomes.OtherEventsLists` | crates/wcash-pool-core/src/jobs.rs:907-941 | every other accepted event takes off the list exactly a job it closes or withdraws for a Zcash tip change |
| `RegistryOutcomes.SnapshotLists` | crates/wcash-pool-core/src/jobs.rs:496-514 | after an accepted snapshot exactly the remembered jobs that are still recoverable are listed |
| `RegistryOutcomes.RolesAreListed` | crates/wcash-pool-core/src/jobs.rs:496-514 | when old list and roles fit together, a role is listed after an accepted snapshot if and only if it has the Zcash parent of the current job, or there is no current job |
| `RegistryOutcomes.RememberedExactly` | crates/wcash-pool-core/src/jobs.rs:999-1007 | remembering several jobs forgets none, old or new, if and only if together they are at most 32 |
| `RegistryOutcomes.FullListForgetsRole` | crates/wcash-pool-core/src/jobs.rs:999-1007 | a full list forgets a role that is its oldest member when a later role is new to it, so not every role is always listed |
| `RegistryOutcomes.RoleQueries` | crates/wcash-pool-core/src/jobs.rs:426-461 | the role queries answer with the unexpired board and the current descriptor, or refuse for a rollback or a missing synchronization |
| `RegistryOutcomes.AdmissionRefusals` | crates/wcash-pool-core/src/jobs.rs:553-583 | which error an admission is refused with: rollback, not synchronized, unknown, no longer on offer, counter exhausted |
| `RegistryOutcomes.CollectedExactly` | crates/wcash-pool-core/src/jobs.rs:713-740 | a collection reports exactly the jobs that are over, not yet compacted and held by no guard |
| `RegistryOutcomes.LateQueries` | crates/wcash-pool-core/src/jobs.rs:589-600 | the late-winner query answers with, and every candidate attempt leaves, exactly the listed jobs still recoverable |
| `RegistryOutcomes.NextClock` | crates/wcash-pool-core/src/jobs.rs:1099-1127 | the observed time after every operation is its own if it was accepted and otherwise unchanged |
| `RegistryOutcomes.TimeNeverGoesBack` | crates/wcash-pool-core/src/jobs.rs:1099-1127 | a time before one already observed in a run is refused after any continuation, and suspends |
| `GenerationRegistry.GenerationRegistry.constructor` | crates/wcash-pool-core/src/jobs.rs:373-387 | the empty, unsynchronized registry |
| `GenerationRegistry.GenerationRegistry.Suspend` | crates/wcash-pool-core/src/jobs.rs:410-420 | equals the suspension transition and touches no guard |
| `GenerationRegistry.GenerationRegistry.AdmissibleJobIds` | crates/wcash-pool-core/src/jobs.rs:426-438 | the roles after the clock advance, or the gate's error |
| `GenerationRegistry.GenerationRegistry.CurrentGeneration` | crates/wcash-pool-core/src/jobs.rs:448-461 | the current descriptor after the clock advance, or the gate's error |
| `GenerationRegistry.GenerationRegistry.ApplySnapshot` | crates/wcash-pool-core/src/jobs.rs:468-514 | equals the snapshot transition with every refusal, keeps all guards |
| `GenerationRegistry.GenerationRegistry.PrepareSnapshot` | crates/wcash-pool-core/src/jobs.rs:747-825 | equals snapshot preparation: order, capacity, duplicates and same-sequence conflicts; leaves the registry as it was |
| `GenerationRegistry.GenerationRegistry.PrepareAcceptable` | crates/wcash-pool-core/src/jobs.rs:827-872 | a known job keeps its storage under exactly the earlier of its deadline and the stated lifetime; a new one gets the stated lifetime and its own counter |
| `GenerationRegistry.GenerationRegistry.ApplyEvent` | crates/wcash-pool-core/src/jobs.rs:520-531 | equals the event transition at the later of delivery and policy time |
| `GenerationRegistry.GenerationRegistry.ApplyEventAt` | crates/wcash-pool-core/src/jobs.rs:539-547 | equals the event transition; any failure suspends |
| `GenerationRegistry.GenerationRegistry.TryApplyEvent` | crates/wcash-pool-core/src/jobs.rs:874-953 | equals the checks, expiry, dispatch and commit of one event |
| `GenerationRegistry.GenerationRegistry.Activate` | crates/wcash-pool-core/src/jobs.rs:955-997 | equals activation with every refusal in order |
| `GenerationRegistry.GenerationRegistry.InvalidateJob` | crates/wcash-pool-core/src/jobs.rs:1027-1097 | equals invalidation, grace included; an accepting job invalidated for any other reason ends at once and loses its role |
| `GenerationRegistry.GenerationRegistry.RememberWinnerRecovery` | crates/wcash-pool-core/src/jobs.rs:999-1007 | a new ID is appended, the oldest leaving when thirty-two are held; a listed ID keeps its place |
| `GenerationRegistry.GenerationRegistry.PruneWinnerRecovery` | crates/wcash-pool-core/src/jobs.rs:1009-1025 | keeps exactly the recoverable IDs, in order |
| `GenerationRegistry.GenerationRegistry.ExpireAt` | crates/wcash-pool-core/src/jobs.rs:1129-1159 | equals expiry of entries, roles and watermark |
| `GenerationRegistry.GenerationRegistry.BeginAdmission` | crates/wcash-pool-core/src/jobs.rs:553-583 | equals the admission transition; exactly one guard appears on success and none on failure |
| `GenerationRegistry.GenerationRegistry.DropOrdinary` | crates/wcash-pool-core/src/jobs.rs:1198-1203 | removes exactly that guard and its count |
| `GenerationRegistry.GenerationRegistry.BeginZcashCandidate` | crates/wcash-pool-core/src/jobs.rs:602-706 | equals the late-winner transition and never counts against the entry |
| `GenerationRegistry.GenerationRegistry.WinnerRecoveryJobIds` | crates/wcash-pool-core/src/jobs.rs:589-600 | the pruned list, or the gate's error |
| `GenerationRegistry.GenerationRegistry.CollectRetired` | crates/wcash-pool-core/src/jobs.rs:713-740 | compacts exactly the idle terminal role-free entries and reports them sorted |
| `ClientRuns.ReceiveInv` | crates/wcash-pool-backend-client/src/unix.rs:1603-1689 | the receive loop queues only contiguous valid events under the exchange's prior anchor and keeps cursor and watermark equal |
| `ClientRuns.ReadInv` | crates/wcash-pool-backend-client/src/unix.rs:1437-1510 | a replay page advances the replay cursor and completes only at the watermark |
| `ClientRuns.SubscribeInv` | crates/wcash-pool-backend-client/src/unix.rs:1161-1233 | going live starts the stream at the snapshot's sequence and watermark |
| `ClientRuns.HealthInv` | crates/wcash-pool-backend-client/src/unix.rs:1515-1556 | health responses cannot move the watermark past unflushed events on a usable connection |
| `ClientRuns.PopInv` | crates/wcash-pool-backend-client/src/unix.rs:1147-1157 | popping moves the oldest event to the bounded evidence window and changes no cursor |
| `ClientRuns.CommitIsBacked` | crates/wcash-pool-backend-client/src/unix.rs:1283-1331 | an accepted commit equals the receipt of an event delivered on this connection, a fresh one inside the exchange |
| `ClientRuns.RepeatedFreshWasEvicted` | crates/wcash-pool-backend-client/src/unix.rs:1954-1998 | a share ID can repeat only after a full evidence window of later events was popped |
| `ClientRuns.AcceptedShareIsBacked` | crates/wcash-pool-backend-client/src/unix.rs:1240-1352 | the whole submission: an accepted commit names an event delivered on this connection with the submitted job, worker and target; a fresh one lies past the cursor and is not yet popped; a repeat of a fresh share has left the evidence window |
| `ClientRuns.FreshRepeatNeedsEviction` | crates/wcash-pool-backend-client/src/unix.rs:1954-1998 | over any run, two fresh acceptances of one share ID have more than a full evidence window of events popped between them |
| `ClientRuns.RunKeepsCursor` | crates/wcash-pool-backend-client/src/unix.rs:1861-1915 | over any run: cursor invariant, monotone watermark, Live never back to Replay, unusable stays unusable, stream only grows |
| `ClientRuns.ConnectionInvariant` | crates/wcash-pool-backend-client/src/unix.rs:985-1091 | the same from the hello on |
| `ClientRuns.MismatchDecides` | crates/wcash-pool-backend-client/src/unix.rs:1743-1815 | the field-by-field comparison finds no mismatch exactly for a hello of the expected networks, payouts and ceiling, and of the pinned installation and journal if any |
| `ClientRuns.AuthorityIsPinned` | crates/wcash-pool-backend-client/src/unix.rs:985-1091 | over the whole life of a connection its identity is the one valid, authentic hello it began with, never behind the caller's cursor, and a nonzero cursor implies the pinned journal |
| `ClientMeaning.AnswerIsReceived` | crates/wcash-pool-backend-client/src/unix.rs:1603-1689 | a valid correlated response behind contiguous valid events that fit the queue is returned, and exactly those events are queued under the pre-request instant |
| `ClientMeaning.ReceivedIsAnswer` | crates/wcash-pool-backend-client/src/unix.rs:1603-1689 | the receive loop succeeds on nothing else |
| `ClientMeaning.ConnectExactly` | crates/wcash-pool-backend-client/src/unix.rs:985-1091 | a connection is made if and only if the first message is a valid authentic hello not behind the caller, and starts at exactly that hello |
| `ClientMeaning.ReadExactly` | crates/wcash-pool-backend-client/src/unix.rs:1437-1510 | a page is taken if and only if it is the requested one, within the limit and not short of the watermark; it is handed on as sent and joins the bounded history |
| `ClientMeaning.HistoryIsLastRead` | crates/wcash-pool-backend-client/src/unix.rs:2036-2043 | over any run the retained history is the end of everything read |
| `ClientMeaning.SubscribeExactly` | crates/wcash-pool-backend-client/src/unix.rs:1161-1233 | the live stream starts if and only if the replay is complete and the first message is a valid snapshot carrying the request and not behind; the snapshot handed on has its sequence, current and recent jobs |
| `ClientMeaning.HealthIsReport` | crates/wcash-pool-backend-client/src/unix.rs:1515-1556 | a correlated report that is flushed through is handed on as sent |
| `ClientMeaning.ReportIsHealth` | crates/wcash-pool-backend-client/src/unix.rs:1515-1556 | a health request succeeds on nothing else |
| `ClientMeaning.ContradictionExactly` | crates/wcash-pool-backend-client/src/unix.rs:2000-2034 | the search answers with the first retained event that commits exactly the submitted share, by job, share, attribution, identity and target, and with nothing if there is none |
| `ClientMeaning.ConflictExactly` | crates/wcash-pool-backend-client/src/unix.rs:1954-1998 | the scan reports the first retained event that disagrees with the receipt, and why, and passes if and only if all agree |
| `ClientMeaning.AnsweredSubmit` | crates/wcash-pool-backend-client/src/unix.rs:1240-1282 | only a submission that reached the backend and was acknowledged there succeeds |
| `ClientMeaning.RejectionExactly` | crates/wcash-pool-backend-client/src/unix.rs:1333-1345 | a rejected share is contradictory, and poisons, exactly when a retained event commits it; otherwise the rejection is passed on and the connection stays usable |
| `ClientMeaning.CommittedExactly` | crates/wcash-pool-backend-client/src/unix.rs:1283-1331 | an acknowledged share is accepted, as acknowledged, if and only if its receipt matches, is fresh or repeated, is flushed through, is agreed on by all evidence and is witnessed live |
| `ClientMeaning.FailedRequestPoisons` | crates/wcash-pool-backend-client/src/unix.rs:1573-1690 | a request leaves the connection usable if and only if it succeeds |
| `ClientMeaning.FailureCosts` | crates/wcash-pool-backend-client/src/unix.rs:1161-1510 | a page or subscription request leaves the connection usable exactly on success, on a refusal before asking and on a backend rejection |
| `ClientMeaning.SubmissionCosts` | crates/wcash-pool-backend-client/src/unix.rs:1240-1352 | a submission leaves the connection usable exactly on success, on a local refusal, on a rejection and on a repeat left to the journal projection |
| `BackendClient.BackendClient.Connect` | crates/wcash-pool-backend-client/src/unix.rs:985-1091 | equals the hello transition: journal-identity precondition, each identity comparison with its own error in order, cursor check, adopted identity and watermark |
| `BackendClient.BackendClient.Receive` | crates/wcash-pool-backend-client/src/unix.rs:1603-1689 | the loop equals the recursive receive specification |
| `BackendClient.BackendClient.Exchange` | crates/wcash-pool-backend-client/src/unix.rs:1573-1690 | poisons first, restores usability only on a correlated outcome, raises the anchor floor afterwards |
| `BackendClient.BackendClient.ReadEvents` | crates/wcash-pool-backend-client/src/unix.rs:1437-1510 | equals the replay-page transition |
| `BackendClient.BackendClient.SubscribeJobs` | crates/wcash-pool-backend-client/src/unix.rs:1161-1233 | equals the subscription transition, and hands on exactly the sequence and jobs of the snapshot message received |
| `BackendClient.BackendClient.Health` | crates/wcash-pool-backend-client/src/unix.rs:1515-1556 | equals the health transition |
| `BackendClient.BackendClient.PopQueuedEvent` | crates/wcash-pool-backend-client/src/unix.rs:1147-1157 | equals the pop transition |
| `BackendClient.BackendClient.SubmitShare` | crates/wcash-pool-backend-client/src/unix.rs:1240-1352 | equals the submission transition with every contradiction check |
| `BackendClient.BackendClient.FindHistoryConflict` | crates/wcash-pool-backend-client/src/unix.rs:1954-1998 | the search loop finds a conflict exactly when the evidence holds one |
| `BackendClient.BackendClient.FindContradiction` | crates/wcash-pool-backend-client/src/unix.rs:2000-2034 | finds nothing exactly when no retained event commits the submitted share; otherwise the first such event's sequence |
| `Composition.SubscriptionAnchorsStream` | crates/wcash-pool-backend-client/src/unix.rs:1196-1222 | events popped after a subscription are contiguous from its snapshot under non-decreasing anchors not before it |
| `Composition.DeliveryOutcome` | crates/wcash-pool-core/src/jobs.rs:874-953 | the next delivered event is refused by an unsynchronized registry, refused for its clock exactly when its policy time is behind, applied, or failed on content; nothing else |
| `Composition.FeedStaysInStep` | crates/wcash-pool-core/src/jobs.rs:883-906 | the registry's sequence and anchor follow the delivered stream through any interleaving |
| `Composition.ClientNeverCausesGap` | crates/wcash-pool-backend-client/src/unix.rs:478-501 | one client's snapshot and popped events, applied at their anchors or at any policy times and interleaved with anything else, never make the registry report a sequence gap, and a clock rollback if and only if the policy time is behind |
| `Composition.SampledDeliveryNeverRollsBack` | crates/wcash-pool-edge/src/router.rs:259-275 | a pool that samples one monotonic clock under its lock never delivers behind it |
| `Composition.SubscribedBoard` | crates/wcash-pool-backend-client/src/unix.rs:1196-1222 | after a subscription is applied the registry offers exactly the jobs of the received snapshot message, less those run out, and stands at its sequence |
| `Nonce.DomainIdentifiesOwner` | crates/wcash-pool-core/src/nonce.rs:28-49 | the domain byte determines profile and namespace |
| `Nonce.LeBytesRoundTrip` | crates/wcash-pool-core/src/nonce.rs:244-259 | the little-endian counter bytes determine the counter |
| `Nonce.CapacityIsCounterSpace` | crates/wcash-pool-core/src/nonce.rs:11-16 | the capacity is exactly the number of counter encodings |
| `Nonce.DistinctPrefixesNeverCollide` | crates/wcash-pool-protocol/src/zip301.rs:95-114 | full nonces of distinct profile, namespace and counter differ for every choice of suffixes |
| `Nonce.NoncePrefixAllocator.Restore` | crates/wcash-pool-core/src/nonce.rs:140-156 | succeeds exactly for the cursor's own lease; issues from the cursor on, over the whole remaining capacity |
| `Nonce.NoncePrefixAllocator.RestoreReserved` | crates/wcash-pool-core/src/nonce.rs:165-190 | succeeds exactly for the same lease and a nonempty range within capacity; nothing issued yet |
| `Nonce.NoncePrefixAllocator.ExtendReserved` | crates/wcash-pool-core/src/nonce.rs:208-222 | only a contiguous nonempty range within capacity extends the fence |
| `Nonce.NoncePrefixAllocator.Allocate` | crates/wcash-pool-core/src/nonce.rs:231-262 | issues exactly the next counter, never one issued before and never past the reserved end |
| `Nonce.NoncePrefixAllocator.NextCursor` | crates/wcash-pool-core/src/nonce.rs:265-273 | the cursor is beyond every issued counter |
| `Session.NewAssignment` | crates/wcash-pool-core/src/jobs.rs:175-189 | succeeds exactly when both network targets of the binding are the generation's |
| `Session.NextInv` | crates/wcash-pool-core/src/session.rs:142-428 | every session operation, accepted or refused, keeps the session consistent and moves it forward |
| `Session.RunInv` | crates/wcash-pool-core/src/session.rs:142-428 | after any run of operations: prefix exactly while subscribed or authorized, worker exactly while authorized, bounded duplicate-free disjoint queues of valid bindings, empty otherwise |
| `Session.RunProgresses` | crates/wcash-pool-core/src/session.rs:142-428 | between any two points of any run of operations the state only moves forward, prefix and worker are kept until closure, and a closed session stays empty |
| `Session.BindingIsFrozen` | crates/wcash-pool-core/src/session.rs:225-293 | a job held throughout a stretch of any run keeps the exact target binding it was announced with |
| `Session.MiningSession.New` | crates/wcash-pool-core/src/session.rs:144-160 | refuses a nil identifier or zero capacity; otherwise a connected, empty session |
| `Session.MiningSession.Subscribe` | crates/wcash-pool-core/src/session.rs:181-193 | equals the subscription step on one allocation; the allocator is touched only by a connected session |
| `Session.MiningSession.CompleteAuthorization` | crates/wcash-pool-core/src/session.rs:195-212 | equals the authorization step: binds the worker once; an exact retry is idempotent, another identity or state is refused |
| `Session.MiningSession.RejectAuthorization` | crates/wcash-pool-core/src/session.rs:215-222 | allowed only when subscribed; closes the session |
| `Session.MiningSession.AnnounceJob` | crates/wcash-pool-core/src/session.rs:225-249 | equals the announcement step: a new job goes in front, nothing is evicted, an exact repeat is accepted, a conflicting binding and overflow are refused |
| `Session.MiningSession.RemoveAnnouncedJob` | crates/wcash-pool-core/src/session.rs:261-271 | removes exactly that job from both queues and says whether it was there |
| `Session.MiningSession.RetireAnnouncedJob` | crates/wcash-pool-core/src/session.rs:274-287 | moves the job to the bounded late-winner queue |
| `Session.MiningSession.RetainWinnerRecoveryJobs` | crates/wcash-pool-core/src/session.rs:290-293 | keeps exactly the listed jobs in order |
| `Session.MiningSession.Close` | crates/wcash-pool-core/src/session.rs:421-427 | terminal; clears identity, prefix and jobs |
| `Session.MiningSession.PrepareSubmissionMode` | crates/wcash-pool-core/src/session.rs:349-418 | equals the decision on session and registry; a failure leaves every guard as it was; a success carries the announced target, at least as easy as both networks of the admitted generation |
| `Session.FailedPrepareKeepsCounts` | crates/wcash-pool-core/src/session.rs:349-418 | every failing preparation, wherever it fails, leaves all in-flight counts unchanged |
| `Session.PreparedTargetIsEasyEnough` | crates/wcash-pool-core/src/session.rs:369-417 | every successful preparation's announced target is numerically at least both network targets of the admitted generation, with its exact header time |
| `Session.MiningSession.ConfirmAdmission` | crates/wcash-pool-core/src/session.rs:405-409 | a guard that fails the final binding or time check is dropped again |
| `Session.MiningSession.RefilterZcashCandidate` | crates/wcash-pool-core/src/session.rs:475-500 | succeeds exactly when the registry grants the same generation; the registry is the candidate step followed by the release of an ordinary guard on either outcome; the context stays sound |
| `SessionMeaning.NextHolds` | crates/wcash-pool-core/src/session.rs:225-293 | for every operation and job, the assignment it is held under afterwards, the job displaced from a full recovery queue included |
| `SessionMeaning.AcceptedExactly` | crates/wcash-pool-core/src/session.rs:181-249 | which operations are accepted, that a refused one changes nothing, and the state, prefix and worker an accepted one leaves |
| `SessionMeaning.IdentityIsClaimed` | crates/wcash-pool-core/src/session.rs:181-212 | the worker and prefix of a session are ones an operation of its run brought |
| `SessionMeaning.PreparedExactly` | crates/wcash-pool-core/src/session.rs:349-418 | a share is prepared if and only if session, generation, binding and header time agree and the registry passes it; on-offer work is ordinary, other work a qualified late winner, and during a pause only qualified candidates pass |
| `SessionMeaning.RequalifiedExactly` | crates/wcash-pool-core/src/session.rs:475-500 | a context is re-qualified if and only if its own generation is retained and still qualifies, and under which role |
| `PoolRuns.RunInv` | crates/wcash-pool-core/src/session.rs:142-428 | every history of sessions, allocators and registry keeps all of them consistent and issues no counter twice |
| `PoolRuns.RunEvolves` | crates/wcash-pool-core/src/session.rs:142-428 | between any two points of a history every session only moves forward and keeps its issued counter |
| `PoolRuns.PerformedDoes` | crates/wcash-pool-core/src/session.rs:349-418 | a submission changes the registry exactly as its admission, late-winner attempt and release do one after another |
| `PoolRuns.RegistryFollowsTrace` | crates/wcash-pool-core/src/session.rs:349-418 | the registry of any pool history is the registry of the trace of its operations |
| `PoolRuns.SeatFollowsTrace` | crates/wcash-pool-core/src/session.rs:142-428 | every session of a pool history is the session of its own operations, each subscription with the prefix the allocator issued to it |
| `PoolRuns.PreparedTargetInHistory` | crates/wcash-pool-core/src/session.rs:369-417 | over every session and registry history a prepared share's announced target is at least as easy as both networks of its generation |
| `PoolRuns.PreparedExactlyInHistory` | crates/wcash-pool-core/src/session.rs:349-418 | the same if and only if over every history of the pool |
| `PoolRuns.FailedPrepareInHistory` | crates/wcash-pool-core/src/session.rs:349-418 | over every history a failing preparation leaves every in-flight count unchanged |
| `PoolRuns.PreparedShareIsInTime` | crates/wcash-pool-core/src/session.rs:349-418 | every share prepared in any history is strictly before its job's first deadline or, for a late winner, within the tail with a qualifying hash and parent |
| `PoolRuns.RequalifiesDoes` | crates/wcash-pool-core/src/session.rs:475-500 | a re-qualification changes the registry exactly as its candidate attempt and the release of the old guard do one after another |
| `PoolRuns.RequalifiedInHistory` | crates/wcash-pool-core/src/session.rs:475-500 | a context re-qualified in any history keeps its generation, is still easy enough for both networks and is within its tail with a qualifying hash and parent; its assignment never mismatches, so a refusal is always the registry's |
| `PoolRuns.GuardsInHistory` | crates/wcash-pool-core/src/jobs.rs:1198-1203 | in every history only held guards are dropped, and each generation's in-flight counter is exactly the number of guards held on it, in contexts or outside |
| `PoolRuns.HeldContextNeverRetired` | crates/wcash-pool-core/src/session.rs:440-452 | in every history a held ordinary context keeps its generation live and out of every collection |
| `PoolRuns.SessionsNeverShareNonces` | crates/wcash-pool-core/src/session.rs:181-193 | two sessions never prepare the same 32-byte nonce, at whatever points of a history and with whatever suffixes |
| `RateLimiter.NewLimit` | crates/wcash-pool-edge/src/rate_limit.rs:24-40 | succeeds exactly for budgets up to 65535 and windows from one millisecond to five minutes, cut to whole milliseconds |
| `RateLimiter.RunInv` | crates/wcash-pool-edge/src/rate_limit.rs:72-92 | after any calls the counter is the number admitted in the current fixed window and within the budget |
| `RateLimiter.SlidingWindowBound` | crates/wcash-pool-edge/src/rate_limit.rs:72-92 | any interval of one window length holds at most twice the budget |
| `RateLimiter.BoundIsReached` | crates/wcash-pool-edge/src/rate_limit.rs:72-92 | for windows of two milliseconds or more some calls reach that bound |
| `RateLimiter.RefusedOnlyWhenFull` | crates/wcash-pool-edge/src/rate_limit.rs:72-92 | a refusal for excess follows a full budget within the last window length |
| `RateLimiter.AdmittedExactly` | crates/wcash-pool-edge/src/rate_limit.rs:72-92 | over any calls one is refused for its time exactly when an earlier call, admitted or refused, was later, and for excess exactly when its window is used up |
| `RateLimiter.RequestRateLimiter.constructor` | crates/wcash-pool-edge/src/rate_limit.rs:63-70 | an empty window starting now |
| `RateLimiter.RequestRateLimiter.AdmitRequest` | crates/wcash-pool-edge/src/rate_limit.rs:72-92 | equals the admission step; the counter cannot overflow |
| `FirewallGuard.ParseGuardRule` | scripts/deploy/verify-mining-firewall.py:103-125 | the token loop equals the recursive reading of the rule grammar, refusals included |
| `FirewallGuard.ParseKeepsMeaning` | scripts/deploy/verify-mining-firewall.py:103-125 | the parsed dictionary matches the same packets and has the same target as the token list |
| `FirewallGuard.VerifyHostRules` | scripts/deploy/verify-mining-firewall.py:202-225 | accepts exactly the lists that name each expected host and port once and nothing else |
| `FirewallGuard.VerifyDrops` | scripts/deploy/verify-mining-firewall.py:227-246 | accepts exactly the three prescribed drops |
| `FirewallGuard.VerifyGuard` | scripts/deploy/verify-mining-firewall.py:127-250 | accepts exactly the tables of the prescribed form |
| `FirewallGuard.ExceptionsMeaning` | scripts/deploy/verify-mining-firewall.py:165-225 | accepted exceptions return exactly the TCP packets the mode approves |
| `FirewallGuard.AcceptedGuardFilters` | scripts/deploy/verify-mining-firewall.py:127-250 | for every accepted table and packet, first-match evaluation from INPUT drops exactly the unapproved TCP packets to the managed ports and otherwise leaves the later rules to decide |
| `FirewallGuard.ReferencesExactly` | scripts/deploy/verify-mining-firewall.py:127-163 | the reference scan fails exactly on a dangling jump or goto and misses no rule that hands packets to the guard |
| `FirewallGuard.AcceptedGuardHasOneEntry` | scripts/deploy/verify-mining-firewall.py:127-163 | an accepted table enters the guard from its hook alone, drops what no rule decides, and guards managed ports only |
| `FirewallGuard.ExceptionAdmitsOneHost` | scripts/deploy/verify-mining-firewall.py:202-225 | an accepted source exception matches packets of one address only |
| `FirewallGuard.PrescribedGuardAccepted` | scripts/deploy/verify-mining-firewall.py:159-250 | the policy's own guard is accepted with its sources in any order |
| `BitRegrouping.ConvertBits` | scripts/deploy/verify-zec-wallet-recovery.py:273-293 | the accumulator loop computes the number-theoretic regrouping with both refusals |
| `BitRegrouping.PaddedRoundTrip` | scripts/deploy/verify-zec-wallet-recovery.py:273-293 | padding into narrower digits and decoding back is the identity, for eight to five bits in particular |
| `BitRegrouping.AcceptedIsCanonical` | scripts/deploy/verify-zec-wallet-recovery.py:273-293 | every digit string accepted without padding re-encodes to itself |
| `BitRegrouping.DecodingIsInjective` | scripts/deploy/verify-zec-wallet-recovery.py:273-293 | two accepted strings with one decoding are equal |
| `RecoveryCeremony.LossIsSafe` | scripts/deploy/verify-zec-wallet-recovery.py:1025-1085 | a power loss at any safe moment leaves a safe directory |
| `RecoveryCeremony.MutationIsFinal` | scripts/deploy/verify-zec-wallet-recovery.py:881-901 | once the RPC was issued every later start refuses, after any number of power losses |
| `RecoveryCeremony.Host.CreateIntent` | scripts/deploy/verify-zec-wallet-recovery.py:919-951 | the intent is certain to survive when the method succeeds, and every interruption is safe |
| `RecoveryCeremony.Host.WriteOnce` | scripts/deploy/verify-zec-wallet-recovery.py:1025-1085 | a new entry is complete and certain; an equal existing one is accepted as it stands; a different one is refused |
| `RecoveryCeremony.Host.RemoveExact` | scripts/deploy/verify-zec-wallet-recovery.py:954-985 | removes only the exact content and makes the removal certain |
| `RecoveryCeremony.Host.Capture` | scripts/deploy/verify-zec-wallet-recovery.py:1088-1215 | interruptible at every step: the RPC is issued at most once ever; a completed run leaves exactly the validated output; an undisturbed one completes exactly when its capture is valid |
| `RecoveryCeremony.Host.Campaign` | scripts/deploy/verify-zec-wallet-recovery.py:1218-1386 | over any sequence of ceremonies at most one mutation, and any output that stands or may survive is complete and validated |

## Left out

- Hashing, Equihash, share and attribution identifiers, descriptor and message schemas: uninterpreted functions.
- Socket I/O, framing, JSON and timeouts: an exchange is a list of received messages.
- `submit_prepared_share`, receipt-to-job comparison, connection-binding tokens and `shutdown` of the client: flat comparisons over the modelled operations.
- Winner journal events are one variant: the registry treats every kind alike.
- The allocator's mutex, its poisoning and `remaining`: operations are one at a time. That a lease has one holder at a time is the orchestration's promise and is taken as given by `PoolRuns`.
- `FirewallGuard.VerifyGuard`: does not model the texts of refusals; number and network parsing are parameters that must read back what they write. The user-input half of the script and its line splitting are not modelled.
- `BitRegrouping.ConvertBits`: states digits up to eight bits wide, as the result is a byte string; the Bech32m checksum is not modelled.
- `RecoveryCeremony.Host.Capture`: does not model file modes, owners and link counts, nor the temporary names of a write; overlapping runs on one output path are not modelled; the RPC texts are arbitrary strings and capture validation, with the portable-field comparison of a recovery, is an arbitrary predicate.
- Connection capacity semaphore, settlement, store, portal, address and credential code, deployment rendering: not part of this model.
