/** Endian-typed share targets, their safe interval and frozen bindings. */
module Target {
  import opened Bytes
  import opened Common

  /** A non-zero target in canonical 32-byte big-endian form. Larger is easier. */
  type ShareTarget = b: seq<byte> | |b| == 32 && BeValue(b) != 0 witness seq(32, _ => 1)

  /** 2^256 - 1, the easiest target. */
  const MAX_VALUE: nat := 0xffff_ffff_ffff_ffff_ffff_ffff_ffff_ffff_ffff_ffff_ffff_ffff_ffff_ffff_ffff_ffff

  lemma MaxValueIsAllOnes()
    ensures MAX_VALUE == Pow2(256) - 1
  {
    Pow2Values();
    Pow2Add(128, 128);
  }

  datatype TargetError =
    | ZeroTarget
    | OperatorLimitExcludesNetworkWinner
    | OutsideBounds

  function Value(t: ShareTarget): (v: nat)
    ensures 1 <= v <= MAX_VALUE
  {
    BeValueBound(t);
    MaxValueIsAllOnes();
    BeValue(t)
  }

  lemma {:induction false} ZeroBytesAreZero(b: seq<byte>)
    ensures BeValue(b) == 0 <==> forall i :: 0 <= i < |b| ==> b[i] == 0
  {
    if |b| == 0 {
    } else {
      ZeroBytesAreZero(b[..|b| - 1]);
      assert forall i :: 0 <= i < |b| - 1 ==> b[i] == b[..|b| - 1][i];
    }
  }

  function FromBeBytes(bytes: seq<byte>): (r: Result<ShareTarget, TargetError>)
    requires |bytes| == 32
    ensures r.Success? <==> BeValue(bytes) != 0
    ensures r.Success? ==> Value(r.value) == BeValue(bytes)
  {
    ZeroBytesAreZero(bytes);
    if bytes == seq(32, _ => 0) then Failure(ZeroTarget) else Success(bytes)
  }

  /** Imports a backend little-endian target by explicit reversal. */
  function FromBackend(le: seq<byte>): (r: Result<ShareTarget, TargetError>)
    requires |le| == 32
    ensures r.Success? <==> LeValue(le) != 0
    ensures r.Success? ==> Value(r.value) == LeValue(le)
  {
    ReverseSwapsEndianness(le);
    FromBeBytes(Reverse(le))
  }

  function ToBackend(t: ShareTarget): (le: seq<byte>)
    ensures |le| == 32 && LeValue(le) == Value(t)
    ensures FromBackend(le) == Success(t)
  {
    ReverseInvolutive(t);
    ReverseSwapsEndianness(Reverse(t));
    Reverse(t)
  }

  predicate AtMost(a: ShareTarget, b: ShareTarget)
    ensures AtMost(a, b) <==> Value(a) <= Value(b)
  {
    CompareIsIntegerOrder(a, b);
    Compare(a, b) != Greater
  }

  /** `Ord::max` on the byte arrays: the numerically easier of the two. */
  function Easier(a: ShareTarget, b: ShareTarget): (r: ShareTarget)
    ensures r == a || r == b
    ensures Value(a) <= Value(r) && Value(b) <= Value(r)
  {
    if AtMost(a, b) then b else a
  }

  /** `Ord::clamp`, which asserts that its two limits are ordered. */
  function Clamp(t: ShareTarget, low: ShareTarget, high: ShareTarget): (r: ShareTarget)
    requires Value(low) <= Value(high)
    ensures Value(low) <= Value(r) <= Value(high)
    ensures Value(low) <= Value(t) <= Value(high) ==> r == t
    ensures Value(t) < Value(low) ==> r == low
    ensures Value(t) > Value(high) ==> r == high
  {
    if !AtMost(low, t) then low else if !AtMost(t, high) then high else t
  }

  datatype TargetBounds = TargetBounds(
    wcashNetwork: ShareTarget,
    zcashNetwork: ShareTarget,
    hardestAllowed: ShareTarget,
    easiestAllowed: ShareTarget)
  {
    /** What every value built by `NewBounds` satisfies. */
    ghost predicate Valid() {
      && (hardestAllowed == wcashNetwork || hardestAllowed == zcashNetwork)
      && Value(wcashNetwork) <= Value(hardestAllowed)
      && Value(zcashNetwork) <= Value(hardestAllowed)
      && Value(hardestAllowed) <= Value(easiestAllowed)
    }

    predicate Contains(t: ShareTarget)
      ensures Contains(t) <==> Value(hardestAllowed) <= Value(t) <= Value(easiestAllowed)
    {
      AtMost(hardestAllowed, t) && AtMost(t, easiestAllowed)
    }

    function Clamped(t: ShareTarget): (r: ShareTarget)
      requires Valid()
      ensures Value(hardestAllowed) <= Value(r) <= Value(easiestAllowed)
      ensures Value(hardestAllowed) <= Value(t) <= Value(easiestAllowed) ==> r == t
      ensures Value(t) < Value(hardestAllowed) ==> r == hardestAllowed
      ensures Value(t) > Value(easiestAllowed) ==> r == easiestAllowed
    {
      Clamp(t, hardestAllowed, easiestAllowed)
    }
  }

  function NewBounds(wcash: ShareTarget, zcash: ShareTarget, operatorEasiest: ShareTarget)
    : (r: Result<TargetBounds, TargetError>)
    ensures r.Success? <==> Value(wcash) <= Value(operatorEasiest) && Value(zcash) <= Value(operatorEasiest)
    ensures r.Success? ==> r.value.Valid()
    ensures r.Success? ==>
              r.value.wcashNetwork == wcash && r.value.zcashNetwork == zcash && r.value.easiestAllowed == operatorEasiest
  {
    var hardest := Easier(wcash, zcash);
    if !AtMost(hardest, operatorEasiest) then Failure(OperatorLimitExcludesNetworkWinner)
    else Success(TargetBounds(wcash, zcash, hardest, operatorEasiest))
  }

  datatype TargetBinding = TargetBinding(revision: nat, target: ShareTarget, bounds: TargetBounds)
  {
    ghost predicate Valid() {
      bounds.Valid() && Value(bounds.hardestAllowed) <= Value(target) <= Value(bounds.easiestAllowed)
    }
  }

  function NewBinding(revision: nat, target: ShareTarget, bounds: TargetBounds)
    : (r: Result<TargetBinding, TargetError>)
    requires bounds.Valid()
    ensures r.Success? <==> Value(bounds.hardestAllowed) <= Value(target) <= Value(bounds.easiestAllowed)
    ensures r.Success? ==> r.value.Valid() && r.value == TargetBinding(revision, target, bounds)
  {
    if bounds.Contains(target) then Success(TargetBinding(revision, target, bounds)) else Failure(OutsideBounds)
  }

  /** No valid binding can discard a winner of either chain as low difficulty. */
  lemma BindingNeverHarderThanNetworks(b: TargetBinding)
    requires b.Valid()
    ensures Value(b.bounds.wcashNetwork) <= Value(b.target)
    ensures Value(b.bounds.zcashNetwork) <= Value(b.target)
    ensures LeValue(ToBackend(b.bounds.wcashNetwork)) <= LeValue(ToBackend(b.target))
    ensures LeValue(ToBackend(b.bounds.zcashNetwork)) <= LeValue(ToBackend(b.target))
  {
  }
}
