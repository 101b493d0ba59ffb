/**
 * Backend protocol values. Opaque 32-byte identifiers and hashes appear as their
 * integers (zero is the all-zero value); targets keep their little-endian bytes.
 */
module Protocol {
  import opened Bytes
  import opened Common

  const MAX_CHAIN_VALUE_ZAT: nat := 2_100_000_000_000_000
  const MAX_MATURITY_CONFIRMATIONS: nat := 1_000_000
  const MAX_EVENT_PAGE_ITEMS: nat := 1_024

  type JobId = nat
  type Hex32 = b: seq<byte> | |b| == 32 witness seq(32, _ => 0)

  /** The 108 header bytes before the nonce, split at their consensus fields. */
  datatype HeaderInput = HeaderInput(version: nat, previousHash: nat, commitments: nat, time: nat, bits: nat)

  datatype ChainFacts = ChainFacts(candidateHash: nat, coinbaseTxid: nat, height: nat, rewardZat: nat, maturity: nat)

  datatype JobDescriptor = JobDescriptor(
    jobId: JobId,
    header: HeaderInput,
    wcashPreviousHash: nat,
    zcashPreviousHash: nat,
    wcashTargetLe: Hex32,
    zcashTargetLe: Hex32,
    wcash: ChainFacts,
    zcash: ChainFacts,
    maxAgeMs: u32)

  predicate ValidFacts(f: ChainFacts) {
    && f.coinbaseTxid != 0
    && f.height != 0
    && f.rewardZat <= MAX_CHAIN_VALUE_ZAT
    && 1 <= f.maturity <= MAX_MATURITY_CONFIRMATIONS
  }

  predicate ValidDescriptor(d: JobDescriptor) {
    && d.jobId != 0
    && d.wcash.candidateHash != 0
    && d.header.version == 4 && d.header.time != 0
    && d.wcashPreviousHash != 0 && d.zcashPreviousHash != 0
    && d.header.previousHash == d.zcashPreviousHash
    && LeValue(d.wcashTargetLe) != 0 && LeValue(d.zcashTargetLe) != 0
    && ValidFacts(d.wcash) && ValidFacts(d.zcash)
    && 1 <= d.maxAgeMs <= 600_000
  }

  datatype AcceptableJob = AcceptableJob(job: JobDescriptor, acceptForMs: u32)

  predicate ValidAcceptable(a: AcceptableJob) {
    ValidDescriptor(a.job) && 0 < a.acceptForMs <= a.job.maxAgeMs
  }

  datatype InvalidationReason = WcashTipChanged | ZcashTipChanged | Superseded | Age

  datatype MergedChain = Wcash | Zcash

  datatype WinnerDescriptor = WinnerDescriptor(chain: MergedChain, blockHash: nat, height: nat, coinbaseTxid: nat, rewardZat: nat, maturity: nat)

  datatype WorkerIdentity = WorkerIdentity(accountId: nat, workerId: nat, loginLabel: string)

  datatype ShareReceipt = ShareReceipt(
    eventSeq: nat,
    jobId: JobId,
    shareId: nat,
    attributionId: nat,
    parentHash: nat,
    winners: seq<WinnerDescriptor>)

  /** Winner bookkeeping events, which no component here interprets. */
  datatype WinnerKind = Observed | SideChain | Orphaned | Quarantined | Requeued | Matured

  datatype BackendEvent =
    | JobActivated(seqNo: nat, job: JobDescriptor)
    | JobInvalidated(seqNo: nat, jobId: JobId, reason: InvalidationReason, acceptForMs: u32)
    | GenerationClosed(seqNo: nat, jobId: JobId)
    | ShareCommitted(receipt: ShareReceipt, jobId: JobId, identity: WorkerIdentity, targetLe: Hex32)
    | WinnerEvent(seqNo: nat, kind: WinnerKind, shareId: nat, jobId: JobId, winner: WinnerDescriptor)

  function EventSeq(e: BackendEvent): nat {
    if e.ShareCommitted? then e.receipt.eventSeq else e.seqNo
  }

  /** The digests and nested wire checks computed outside this model. */
  datatype Digests = Digests(
    parentHash: (HeaderInput, Hex32, nat) -> Hex32,
    shareId: (JobId, nat, Hex32, nat) -> nat,
    attributionId: (WorkerIdentity, Hex32) -> Option<nat>,
    validReceipt: ShareReceipt -> bool,
    validWinner: (WinnerKind, WinnerDescriptor) -> bool)

  predicate ValidInvalidation(reason: InvalidationReason, acceptForMs: nat) {
    match reason
    case WcashTipChanged => acceptForMs == 0
    case ZcashTipChanged => acceptForMs == 0
    case Superseded => 1 <= acceptForMs <= 60_000
    case Age => acceptForMs == 0
  }

  predicate ValidEvent(h: Digests, e: BackendEvent) {
    && EventSeq(e) != 0
    && match e
       case JobActivated(_, job) => ValidDescriptor(job)
       case JobInvalidated(_, jobId, reason, acceptForMs) => jobId != 0 && ValidInvalidation(reason, acceptForMs)
       case GenerationClosed(_, jobId) => jobId != 0
       case ShareCommitted(receipt, jobId, identity, targetLe) =>
         && h.validReceipt(receipt)
         && jobId != 0 && receipt.jobId == jobId
         && h.attributionId(identity, targetLe) == Some(receipt.attributionId)
         && LeValue(targetLe) != 0
       case WinnerEvent(_, kind, shareId, jobId, winner) => shareId != 0 && jobId != 0 && h.validWinner(kind, winner)
  }

  // ---------------------------------------------------------------- hello

  datatype Capability = JobStreamV1 | DurableShareReceiptsV1 | EventReplayV1 | DualTargetV1 | WinnerLifecycleV1 | WinnerSideChainV1

  const REQUIRED_CAPABILITIES: set<Capability> :=
    {JobStreamV1, DurableShareReceiptsV1, EventReplayV1, DualTargetV1, WinnerLifecycleV1, WinnerSideChainV1}

  /** The chains, payout recipients and share ceiling one backend serves. */
  datatype NetworkIdentity = NetworkIdentity(
    wcashGenesis: nat, zcashGenesis: nat, chainId: nat, wcashPayout: nat, zcashPayout: nat, shareTargetCeiling: nat)

  datatype Hello = Hello(
    backendSession: nat, backendInstance: nat, journalStream: nat, capabilities: seq<Capability>,
    networks: NetworkIdentity, currentEventSeq: nat)

  /** Distinct non-nil identities, every capability exactly once, and nonzero networks. */
  predicate ValidHello(h: Hello) {
    && h.backendSession != 0 && h.backendInstance != 0 && h.journalStream != 0
    && h.backendSession != h.backendInstance && h.backendSession != h.journalStream && h.backendInstance != h.journalStream
    && |h.capabilities| == |REQUIRED_CAPABILITIES|
    && (forall i, j :: 0 <= i < j < |h.capabilities| ==> h.capabilities[i] != h.capabilities[j])
    && (forall c :: c in REQUIRED_CAPABILITIES ==> c in h.capabilities)
    && h.networks.wcashGenesis != 0 && h.networks.zcashGenesis != 0 && h.networks.chainId != 0
    && h.networks.wcashPayout != 0 && h.networks.zcashPayout != 0 && h.networks.shareTargetCeiling != 0
  }
}
