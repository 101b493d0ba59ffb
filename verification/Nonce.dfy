/** Session nonce prefixes: exactly one owner per nonce space, whatever suffixes miners choose. */
module Nonce {
  import opened Bytes
  import opened Common

  datatype NonceProfile = FourByte | EightByte

  datatype NonceError =
    | ZeroNamespace
    | NamespaceOutOfRange
    | Exhausted
    | InvalidCursor
    | LeaseMismatch
    | InvalidReservation
    | NonContiguousReservation
    | ProfileMismatch

  const FOUR_BYTE_CAPACITY: nat := 0x100_0000
  const EIGHT_BYTE_CAPACITY: nat := 0x100_0000_0000_0000

  function Capacity(p: NonceProfile): nat {
    if p.FourByte? then FOUR_BYTE_CAPACITY else EIGHT_BYTE_CAPACITY
  }

  /** Bytes of counter behind the domain byte. */
  function CounterWidth(p: NonceProfile): nat {
    if p.FourByte? then 3 else 7
  }

  function SuffixWidth(p: NonceProfile): nat {
    31 - CounterWidth(p)
  }

  /** A namespace leased from durable orchestration. */
  type Lease = x: int | 1 <= x <= 0x7f witness 1

  function NewLease(namespace: byte): (r: Result<Lease, NonceError>)
    ensures r.Success? <==> 1 <= namespace <= 0x7f
    ensures r.Success? ==> r.value == namespace
  {
    if namespace == 0 then Failure(ZeroNamespace)
    else if namespace > 0x7f then Failure(NamespaceOutOfRange)
    else Success(namespace)
  }

  /** The high bit discriminates the profile; the low seven bits carry the namespace. */
  function DomainByte(p: NonceProfile, lease: Lease): byte {
    if p.FourByte? then lease else 0x80 + lease
  }

  lemma DomainIdentifiesOwner(p: NonceProfile, l: Lease, p': NonceProfile, l': Lease)
    ensures DomainByte(p, l) == DomainByte(p', l') <==> p == p' && l == l'
  {
  }

  /** `n` in `width` little-endian bytes, dropping anything above. */
  function LeBytes(n: nat, width: nat): (b: seq<byte>)
    ensures |b| == width
    decreases width
  {
    if width == 0 then [] else [n % 256] + LeBytes(n / 256, width - 1)
  }

  lemma {:induction false} LeBytesRoundTrip(n: nat, width: nat)
    requires n < Pow2(8 * width)
    ensures LeValue(LeBytes(n, width)) == n
    decreases width
  {
    if width == 0 {
    } else {
      ShiftByte(width - 1);
      LeBytesRoundTrip(n / 256, width - 1);
      assert LeBytes(n, width)[1..] == LeBytes(n / 256, width - 1);
    }
  }

  lemma CapacityIsCounterSpace(p: NonceProfile)
    ensures Capacity(p) == Pow2(8 * CounterWidth(p))
  {
    Pow2Values();
    Pow2Add(8, 8);
    Pow2Add(16, 8);
    Pow2Add(24, 32);
    Pow2Add(16, 16);
  }

  datatype PrefixBytes = PrefixBytes(profile: NonceProfile, bytes: seq<byte>)

  /** A prefix leaves exactly its profile's suffix of a 32-byte nonce. */
  type NoncePrefix = p: PrefixBytes | |p.bytes| + SuffixWidth(p.profile) == 32 witness PrefixBytes(FourByte, [0, 0, 0, 0])

  function Prefix(p: NonceProfile, lease: Lease, counter: nat): NoncePrefix {
    PrefixBytes(p, [DomainByte(p, lease)] + LeBytes(counter, CounterWidth(p)))
  }

  /** A full header nonce: prefix and suffix must negotiate the same profile. */
  function JoinNonce(prefix: NoncePrefix, suffix: seq<byte>): (r: Result<seq<byte>, NonceError>)
    ensures r.Success? ==> |r.value| == 32
  {
    if |suffix| != SuffixWidth(prefix.profile) then Failure(ProfileMismatch) else Success(prefix.bytes + suffix)
  }

  /**
   * Full 32-byte nonces of distinct (profile, namespace, counter) differ whatever
   * suffixes the miners choose, across the two prefix widths as well.
   */
  lemma DistinctPrefixesNeverCollide(p: NonceProfile, l: Lease, n: nat, suffix: seq<byte>,
                                     p': NonceProfile, l': Lease, n': nat, suffix': seq<byte>)
    requires n < Capacity(p) && n' < Capacity(p')
    requires (p, l, n) != (p', l', n')
    requires |suffix| == SuffixWidth(p) && |suffix'| == SuffixWidth(p')
    ensures JoinNonce(Prefix(p, l, n), suffix).Success? && JoinNonce(Prefix(p', l', n'), suffix').Success?
    ensures JoinNonce(Prefix(p, l, n), suffix).value != JoinNonce(Prefix(p', l', n'), suffix').value
  {
    var a := JoinNonce(Prefix(p, l, n), suffix).value;
    var b := JoinNonce(Prefix(p', l', n'), suffix').value;
    DomainIdentifiesOwner(p, l, p', l');
    if p == p' && l == l' {
      var w := CounterWidth(p);
      CapacityIsCounterSpace(p);
      LeBytesRoundTrip(n, w);
      LeBytesRoundTrip(n', w);
      assert a[1..1 + w] == LeBytes(n, w) && b[1..1 + w] == LeBytes(n', w);
    } else {
      assert a[0] != b[0];
    }
  }

  datatype NonceCursor = NonceCursor(profile: NonceProfile, lease: Lease, next: nat)

  function NewCursor(p: NonceProfile, lease: Lease, next: nat): (r: Result<NonceCursor, NonceError>)
    ensures r.Success? <==> next <= Capacity(p)
    ensures r.Success? ==> r.value == NonceCursor(p, lease, next)
  {
    if next > Capacity(p) then Failure(InvalidCursor) else Success(NonceCursor(p, lease, next))
  }

  /** What is left of a reserved counter range. */
  datatype Reservation = Reservation(next: nat, endExclusive: nat) {
    ghost predicate Valid(p: NonceProfile) {
      next <= endExclusive <= Capacity(p)
    }
  }

  datatype Taken = Taken(left: Reservation, result: Result<NoncePrefix, NonceError>)

  function Take(p: NonceProfile, lease: Lease, a: Reservation): (t: Taken) {
    if a.next >= a.endExclusive then Taken(a, Failure(Exhausted))
    else Taken(a.(next := a.next + 1), Success(Prefix(p, lease, a.next)))
  }

  /** Only the immediately contiguous range within capacity extends the fence. */
  function Extended(p: NonceProfile, a: Reservation, from: nat, to: nat): (r: Result<Reservation, NonceError>) {
    if from != a.endExclusive || to <= from || to > Capacity(p) then Failure(NonContiguousReservation)
    else Success(a.(endExclusive := to))
  }

  /** The counters from `start` up to `end`. */
  ghost function Range(start: nat, end: nat): (s: seq<nat>)
    requires start <= end
    ensures |s| == end - start && forall i :: 0 <= i < |s| ==> s[i] == start + i
  {
    seq(end - start, i => start + i)
  }

  class NoncePrefixAllocator {
    const profile: NonceProfile
    const lease: Lease
    var next: nat
    var endExclusive: nat
    /** First counter of the reserved range and every counter issued since. */
    ghost const start: nat
    ghost var issued: seq<nat>

    ghost function Abs(): Reservation
      reads this
    {
      Reservation(next, endExclusive)
    }

    /** Issued counters are exactly start, start + 1, ... and lie inside the reservation. */
    ghost predicate Valid()
      reads this
    {
      && start <= next <= endExclusive <= Capacity(profile)
      && issued == Range(start, next)
    }

    constructor Over(profile: NonceProfile, lease: Lease, next: nat, endExclusive: nat)
      requires next <= endExclusive <= Capacity(profile)
      ensures Valid() && this.profile == profile && this.lease == lease && start == next
      ensures this.next == next && this.endExclusive == endExclusive && issued == []
    {
      this.profile := profile;
      this.lease := lease;
      this.next := next;
      this.endExclusive := endExclusive;
      start := next;
      issued := [];
    }

    static method Restore(cursor: NonceCursor, lease: Lease) returns (r: Result<NoncePrefixAllocator, NonceError>)
      requires cursor.next <= Capacity(cursor.profile)
      ensures r.Success? <==> cursor.lease == lease
      ensures r.Success? ==> fresh(r.value) && r.value.Valid() && r.value.start == cursor.next
                             && r.value.profile == cursor.profile && r.value.lease == lease && r.value.issued == []
                             && r.value.endExclusive == Capacity(cursor.profile)
    {
      if cursor.lease != lease {
        return Failure(LeaseMismatch);
      }
      var a := new NoncePrefixAllocator.Over(cursor.profile, lease, cursor.next, Capacity(cursor.profile));
      return Success(a);
    }

    static method RestoreReserved(cursor: NonceCursor, lease: Lease, endExclusive: nat)
      returns (r: Result<NoncePrefixAllocator, NonceError>)
      ensures r.Success? <==> cursor.lease == lease && cursor.next < endExclusive <= Capacity(cursor.profile)
      ensures r.Success? ==> fresh(r.value) && r.value.Valid() && r.value.start == cursor.next
                             && r.value.profile == cursor.profile && r.value.lease == lease && r.value.issued == []
                             && r.value.endExclusive == endExclusive
    {
      if cursor.lease != lease {
        return Failure(LeaseMismatch);
      }
      if endExclusive <= cursor.next || endExclusive > Capacity(cursor.profile) {
        return Failure(InvalidReservation);
      }
      var a := new NoncePrefixAllocator.Over(cursor.profile, lease, cursor.next, endExclusive);
      return Success(a);
    }

    /** Only the immediately contiguous, already committed range extends the fence. */
    method ExtendReserved(from: nat, to: nat) returns (r: Result<(), NonceError>)
      requires Valid()
      modifies this`endExclusive
      ensures Valid()
      ensures var spec := Extended(profile, old(Abs()), from, to);
              if spec.Success? then r == Success(()) && Abs() == spec.value else r == Failure(spec.error) && Abs() == old(Abs())
      ensures r.Success? <==> from == old(endExclusive) < to <= Capacity(profile)
      ensures endExclusive == if r.Success? then to else old(endExclusive)
    {
      if from != endExclusive || to <= from || to > Capacity(profile) {
        return Failure(NonContiguousReservation);
      }
      endExclusive := to;
      return Success(());
    }

    method Allocate() returns (r: Result<NoncePrefix, NonceError>)
      requires Valid()
      modifies this`next, this`issued
      ensures Valid()
      ensures Taken(Abs(), r) == Take(profile, lease, old(Abs()))
      ensures r.Success? <==> old(next) < endExclusive
      ensures r.Success? ==> r.value == Prefix(profile, lease, old(next)) && old(next) !in old(issued)
                             && issued == old(issued) + [old(next)] && next == old(next) + 1
      ensures r.Failure? ==> next == old(next) && issued == old(issued)
    {
      if next >= endExclusive {
        return Failure(Exhausted);
      }
      var value := next;
      next := next + 1;
      issued := issued + [value];
      return Success(Prefix(profile, lease, value));
    }

    /** The cursor a successor must restore to continue without repeating a prefix. */
    method NextCursor() returns (r: Result<NonceCursor, NonceError>)
      requires Valid()
      ensures r == Success(NonceCursor(profile, lease, next))
      ensures forall i :: 0 <= i < |issued| ==> issued[i] < next
    {
      return NewCursor(profile, lease, next);
    }
  }
}
