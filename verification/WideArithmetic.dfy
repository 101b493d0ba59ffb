/** 256-bit target scaling over 64-bit limbs, as exact integer arithmetic. */
module WideArithmetic {
  import opened Bytes
  import opened Common
  import opened Target

  const WORD: nat := 0x1_0000_0000_0000_0000
  const DOUBLE: nat := 0x1_0000_0000_0000_0000_0000_0000_0000_0000

  type Limb = x: int | 0 <= x < WORD

  /** Little-endian limb value: limb `i` weighs 2^(64 i). */
  function LimbValue(limbs: seq<Limb>): (v: nat)
  {
    if |limbs| == 0 then 0 else limbs[0] + WORD * LimbValue(limbs[1..])
  }

  lemma {:induction false} LimbValueSnoc(limbs: seq<Limb>, top: Limb)
    ensures LimbValue(limbs + [top]) == LimbValue(limbs) + top * Pow2(64 * |limbs|)
    decreases |limbs|
  {
    if |limbs| == 0 {
      assert limbs + [top] == [top];
      assert LimbValue([top]) == top + WORD * LimbValue([top][1..]);
    } else {
      LimbValueSnoc(limbs[1..], top);
      assert (limbs + [top])[1..] == limbs[1..] + [top];
      WordShift(|limbs| - 1);
      ScaleThrough(limbs[0], LimbValue(limbs[1..]), top, Pow2(64 * (|limbs| - 1)));
    }
  }

  lemma WordShift(n: nat)
    ensures Pow2(64 * (n + 1)) == WORD * Pow2(64 * n)
  {
    Pow2Add(64, 64 * n);
    Pow2Values();
  }

  lemma ScaleThrough(low: int, mid: int, top: int, p: int)
    ensures low + WORD * (mid + top * p) == (low + WORD * mid) + top * (WORD * p)
  {
  }

  lemma {:induction false} LimbValueBound(limbs: seq<Limb>)
    ensures LimbValue(limbs) < Pow2(64 * |limbs|)
    decreases |limbs|
  {
    if |limbs| == 0 {
    } else {
      LimbValueBound(limbs[1..]);
      WordShift(|limbs| - 1);
    }
  }

  // ---------------------------------------------------------------- multiplication

  method MultiplyLimbs(limbs: seq<Limb>, multiplier: Limb) returns (result: seq<Limb>)
    requires |limbs| == 4
    ensures |result| == 5
    ensures LimbValue(result) == LimbValue(limbs) * multiplier
  {
    result := [];
    var carry := 0;
    for index := 0 to 4
      invariant |result| == index
      invariant 0 <= carry < WORD
      invariant LimbValue(result) + carry * Pow2(64 * index) == LimbValue(limbs[..index]) * multiplier
    {
      var product := limbs[index] * multiplier + carry;
      ProductFits(limbs[index], multiplier, carry);
      MultiplyStep(limbs, multiplier, result, carry, index);
      result := result + [product % WORD];
      carry := product / WORD;
    }
    assert limbs[..4] == limbs;
    LimbValueSnoc(result, carry);
    result := result + [carry];
  }

  lemma ProductFits(limb: Limb, multiplier: Limb, carry: Limb)
    ensures 0 <= limb * multiplier + carry
    ensures (limb * multiplier + carry) / WORD < WORD
  {
    assert 0 <= limb * multiplier <= (WORD - 1) * (WORD - 1) by {
      MulUpper(limb, multiplier, WORD - 1);
    }
  }

  lemma MulUpper(x: int, y: int, m: int)
    requires 0 <= x <= m && 0 <= y <= m
    ensures 0 <= x * y <= m * m
  {
    assert x * y <= m * y;
    assert m * y <= m * m;
  }

  lemma MultiplyStep(limbs: seq<Limb>, multiplier: Limb, result: seq<Limb>, carry: Limb, index: nat)
    requires index < |limbs| && |result| == index
    requires LimbValue(result) + carry * Pow2(64 * index) == LimbValue(limbs[..index]) * multiplier
    ensures var product := limbs[index] * multiplier + carry;
            0 <= product / WORD < WORD &&
            LimbValue(result + [product % WORD]) + product / WORD * Pow2(64 * (index + 1))
            == LimbValue(limbs[..index + 1]) * multiplier
  {
    var product := limbs[index] * multiplier + carry;
    ProductFits(limbs[index], multiplier, carry);
    var p := Pow2(64 * index);
    LimbValueSnoc(result, product % WORD);
    assert limbs[..index + 1] == limbs[..index] + [limbs[index]];
    LimbValueSnoc(limbs[..index], limbs[index]);
    WordShift(index);
    CarryAlgebra(LimbValue(result), carry, p, LimbValue(limbs[..index]), multiplier, limbs[index],
                 product % WORD, product / WORD);
  }

  lemma CarryAlgebra(done: int, carry: int, p: int, low: int, multiplier: int, limb: int, digit: int, next: int)
    requires done + carry * p == low * multiplier
    requires digit + WORD * next == limb * multiplier + carry
    ensures (done + digit * p) + next * (WORD * p) == (low + limb * p) * multiplier
  {
    calc {
      (done + digit * p) + next * (WORD * p);
      done + (digit + WORD * next) * p;
      done + (limb * multiplier + carry) * p;
      { assert (limb * multiplier + carry) * p == (limb * p) * multiplier + carry * p; }
      (done + carry * p) + (limb * p) * multiplier;
      low * multiplier + (limb * p) * multiplier;
      (low + limb * p) * multiplier;
    }
  }

  // ---------------------------------------------------------------- division

  /** Bit `k` of a limb. */
  function Bit(limb: Limb, k: nat): (b: int)
    ensures 0 <= b <= 1
  {
    limb / Pow2(k) % 2
  }

  /** The integer formed by bits `k..64 |limbs|` of the numerator. */
  ghost function Prefix(limbs: seq<Limb>, k: nat): (v: nat)
    requires k <= 64 * |limbs|
    decreases 64 * |limbs| - k
  {
    if k == 64 * |limbs| then 0 else 2 * Prefix(limbs, k + 1) + Bit(limbs[k / 64], k % 64)
  }

  lemma {:induction false} PrefixWithinLimb(limbs: seq<Limb>, i: nat, j: nat)
    requires i < |limbs| && j <= 64
    ensures Prefix(limbs, 64 * i + j) == Prefix(limbs, 64 * (i + 1)) * Pow2(64 - j) + limbs[i] / Pow2(j)
    decreases 64 - j
  {
    if j == 64 {
      Pow2Values();
    } else {
      PrefixWithinLimb(limbs, i, j + 1);
      assert (64 * i + j) / 64 == i && (64 * i + j) % 64 == j;
      assert Pow2(j + 1) == 2 * Pow2(j) && Pow2(64 - j) == 2 * Pow2(64 - (j + 1));
      AppendBit(Prefix(limbs, 64 * (i + 1)), Pow2(64 - (j + 1)), limbs[i], Pow2(j));
    }
  }

  /** One more bit below a prefix is one bit more of its lowest limb. */
  lemma AppendBit(high: int, weight: int, limb: nat, p: nat)
    requires p >= 1
    ensures 2 * (high * weight + limb / (2 * p)) + limb / p % 2 == high * (2 * weight) + limb / p
  {
    HalveDivision(limb, p);
    DoubleThrough(high, weight);
  }

  lemma DoubleThrough(x: int, p: int)
    ensures 2 * (x * p) == x * (2 * p)
  {
  }

  lemma HalveDivision(x: nat, p: nat)
    requires p >= 1
    ensures x / p == 2 * (x / (2 * p)) + x / p % 2
  {
    var q := x / p;
    var r := x % p;
    assert x == q * p + r;
    var h := q / 2;
    var b := q % 2;
    assert x == h * (2 * p) + (b * p + r) by {
      assert q * p == (2 * h + b) * p == 2 * h * p + b * p;
      DoubleThrough(h, p);
    }
    assert 0 <= b * p + r < 2 * p;
    QuotientUnique(x, 2 * p, h, b * p + r);
  }

  lemma QuotientUnique(x: nat, d: nat, q: nat, r: nat)
    requires d >= 1 && x == q * d + r && r < d
    ensures x / d == q
  {
    var q' := x / d;
    assert x == q' * d + x % d;
    MulGap(q', q, d);
    MulGap(q, q', d);
  }

  lemma MulGap(a: int, b: int, d: nat)
    ensures a < b ==> a * d + d <= b * d
  {
    if a < b {
      var e := b - a - 1;
      MulNonNegative(e, d);
      assert b * d == (a + 1 + e) * d == a * d + d + e * d;
    }
  }

  lemma MulNonNegative(x: nat, y: nat)
    ensures 0 <= x * y
  {
  }

  /** The whole bit string is the limb value. */
  lemma {:induction false} PrefixIsValue(limbs: seq<Limb>, i: nat)
    requires i <= |limbs|
    ensures Prefix(limbs, 64 * i) == LimbValue(limbs[i..])
    decreases |limbs| - i
  {
    if i == |limbs| {
    } else {
      PrefixIsValue(limbs, i + 1);
      PrefixOfLimb(limbs, i);
      assert limbs[i..][1..] == limbs[i + 1..];
    }
  }

  lemma PrefixOfLimb(limbs: seq<Limb>, i: nat)
    requires i < |limbs|
    ensures Prefix(limbs, 64 * i) == limbs[i] + WORD * Prefix(limbs, 64 * (i + 1))
  {
    PrefixWithinLimb(limbs, i, 0);
    WordIsPow2();
    WholeLimb(Prefix(limbs, 64 * i), Prefix(limbs, 64 * (i + 1)), Pow2(64), limbs[i], Pow2(0));
  }

  lemma WordIsPow2()
    ensures Pow2(64) == WORD && Pow2(0) == 1
  {
    Pow2Values();
  }

  lemma WholeLimb(x: int, high: int, word: int, limb: int, one: int)
    requires word == WORD && one == 1 && x == high * word + limb / one
    ensures x == limb + WORD * high
  {
  }

  /** `limb |= 1 << k` on an unsigned word. */
  function SetBit(limb: Limb, k: nat): (r: int)
    requires k < 64
  {
    if Bit(limb, k) == 1 then limb else limb + Pow2(k)
  }

  lemma SetClearBit(limb: Limb, k: nat)
    requires k < 64 && limb % Pow2(k + 1) == 0
    ensures SetBit(limb, k) == limb + Pow2(k) < WORD
    ensures SetBit(limb, k) % Pow2(k) == 0
    ensures limb % Pow2(k) == 0
  {
    Pow2Add(k + 1, 63 - k);
    Pow2Values();
    AddClearDigit(limb, Pow2(k), Pow2(63 - k));
  }

  lemma AddClearDigit(x: nat, p: nat, c: nat)
    requires p >= 1 && c >= 1 && x < (2 * p) * c && x % (2 * p) == 0
    ensures x % p == 0 && x / p % 2 == 0 && (x + p) % p == 0
    ensures x + p < (2 * p) * c
  {
    var m := x / (2 * p);
    assert x == (2 * p) * m;
    Factor(p, m);
    ExactQuotient(p, 2 * m);
    ExactQuotient(p, 2 * m + 1);
    MulGap(c, m, 2 * p);
    MulGap(m, c, 2 * p);
  }

  lemma Factor(p: int, m: int)
    ensures (2 * p) * m == p * (2 * m) == m * (2 * p)
    ensures (2 * p) * m + p == p * (2 * m + 1)
  {
  }

  lemma ExactQuotient(p: nat, m: nat)
    requires p >= 1
    ensures p * m % p == 0 && p * m / p == m
  {
    QuotientUnique(p * m, p, m, 0);
  }

  /** Every limb bit strictly below position `k` is still clear. */
  ghost predicate ClearBelow(q: seq<Limb>, k: nat)
  {
    forall i {:trigger q[i]} :: 0 <= i < |q| ==>
      (64 * (i + 1) <= k ==> q[i] == 0) && (64 * i <= k < 64 * (i + 1) ==> q[i] % Pow2(k - 64 * i) == 0)
  }

  lemma {:induction false} UpdateLimb(q: seq<Limb>, i: nat, v: Limb)
    requires i < |q|
    ensures LimbValue(q[i := v]) == LimbValue(q) + (v - q[i]) * Pow2(64 * i)
    decreases i
  {
    if i == 0 {
      assert q[0 := v][1..] == q[1..];
    } else {
      UpdateLimb(q[1..], i - 1, v);
      assert q[i := v][1..] == q[1..][i - 1 := v];
      WordShift(i - 1);
      ScaleThrough(q[0], LimbValue(q[1..]), v - q[i], Pow2(64 * (i - 1)));
    }
  }

  /** Setting bit `k` of a quotient that is clear up to `k` adds exactly 2^k. */
  lemma SetQuotientBit(q: seq<Limb>, k: nat)
    requires |q| == 4 && k < 256 && ClearBelow(q, k + 1)
    ensures SetBit(q[k / 64], k % 64) < WORD
    ensures var q' := q[k / 64 := SetBit(q[k / 64], k % 64)];
            ClearBelow(q', k) && LimbValue(q') == LimbValue(q) + Pow2(k)
  {
    TopClearBit(q, k);
    SetBitAt(q, k / 64, k % 64);
    assert k == 64 * (k / 64) + k % 64;
  }

  lemma SetBitAt(q: seq<Limb>, i: nat, j: nat)
    requires |q| == 4 && i < 4 && j < 64 && ClearBelow(q, 64 * i + j + 1) && q[i] % Pow2(j + 1) == 0
    ensures SetBit(q[i], j) < WORD
    ensures var q' := q[i := SetBit(q[i], j)];
            ClearBelow(q', 64 * i + j) && LimbValue(q') == LimbValue(q) + Pow2(64 * i + j)
  {
    SetClearBit(q[i], j);
    UpdateLimb(q, i, SetBit(q[i], j));
    Pow2Add(j, 64 * i);
  }

  lemma ClearBelowWeakens(q: seq<Limb>, k: nat)
    requires |q| == 4 && k < 256 && ClearBelow(q, k + 1)
    ensures ClearBelow(q, k)
  {
    TopClearBit(q, k);
    SetClearBit(q[k / 64], k % 64);
    ClearAt(q, k / 64, k % 64, k);
  }

  lemma ClearAt(q: seq<Limb>, i: nat, j: nat, k: nat)
    requires |q| == 4 && i < 4 && j < 64 && k == 64 * i + j && ClearBelow(q, k + 1) && q[i] % Pow2(j) == 0
    ensures ClearBelow(q, k)
  {
    forall x {:trigger q[x]} | 0 <= x < |q|
      ensures (64 * (x + 1) <= k ==> q[x] == 0) && (64 * x <= k < 64 * (x + 1) ==> q[x] % Pow2(k - 64 * x) == 0)
    {
      if 64 * x <= k < 64 * (x + 1) {
        assert x == i && k - 64 * x == j;
      }
    }
  }

  lemma TopClearBit(q: seq<Limb>, k: nat)
    requires |q| == 4 && k < 256 && ClearBelow(q, k + 1)
    ensures q[k / 64] % Pow2(k % 64 + 1) == 0
  {
    if k % 64 == 63 {
      assert q[k / 64] == 0;
    }
  }

  /**
   * One restoring-division step. The 128-bit shift may lose its top bit; the
   * wrapped subtraction still yields the true remainder.
   */
  lemma DivisionStep(remainder: nat, bit: int, divisor: nat)
    requires 0 <= bit <= 1 && remainder < divisor < DOUBLE
    ensures var high := remainder / (DOUBLE / 2) != 0;
            var shifted := 2 * remainder % DOUBLE + bit;
            && (high || shifted >= divisor <==> 2 * remainder + bit >= divisor)
            && (2 * remainder + bit >= divisor ==>
                  (shifted - divisor) % DOUBLE == 2 * remainder + bit - divisor < divisor)
            && (2 * remainder + bit < divisor ==> shifted == 2 * remainder + bit)
  {
    var top := if remainder >= DOUBLE / 2 then 1 else 0;
    QuotientUnique(remainder, DOUBLE / 2, top, remainder - top * (DOUBLE / 2));
    Wraps(2 * remainder, top);
    var shifted := 2 * remainder - top * DOUBLE + bit;
    if 2 * remainder + bit >= divisor {
      Wraps(shifted - divisor, -top);
    }
  }

  /** Reduction modulo 2^128 of a value known to within one multiple. */
  lemma Wraps(x: int, q: int)
    requires q * DOUBLE <= x < (q + 1) * DOUBLE
    ensures x % DOUBLE == x - q * DOUBLE
  {
    var q' := x / DOUBLE;
    assert x == q' * DOUBLE + x % DOUBLE;
    MulGap(q', q, DOUBLE);
    MulGap(q, q', DOUBLE);
  }

  /**
   * State of the bit-serial division with bits `k..320` consumed: `q` is the true
   * quotient so far, of which the four limbs hold the part that fits.
   */
  ghost predicate Dividing(numerator: seq<Limb>, divisor: nat, k: nat, q: nat, remainder: int,
                           overflow: bool, quotient: seq<Limb>)
  {
    && |numerator| == 5 && k <= 320 && |quotient| == 4
    && 0 <= remainder < divisor
    && Prefix(numerator, k) == q * divisor + remainder
    && (k >= 256 ==> (overflow <==> q != 0) && quotient == [0, 0, 0, 0])
    && (k < 256 ==> ClearBelow(quotient, k) && (overflow <==> q >= Pow2(256 - k)))
    && (!overflow ==> LimbValue(quotient) == q * Pow2(k))
  }

  lemma ZeroLimbs()
    ensures LimbValue([0, 0, 0, 0]) == 0
    ensures ClearBelow([0, 0, 0, 0], 256)
  {
    assert LimbValue([0]) == 0;
    assert [0, 0][1..] == [0] && [0, 0, 0][1..] == [0, 0] && [0, 0, 0, 0][1..] == [0, 0, 0];
  }

  lemma AppendZeroBit(numerator: seq<Limb>, divisor: nat, k: nat, q: nat, remainder: int,
                      overflow: bool, quotient: seq<Limb>)
    requires k < 320 && Dividing(numerator, divisor, k + 1, q, remainder, overflow, quotient)
    requires 2 * remainder + Bit(numerator[k / 64], k % 64) < divisor
    ensures Dividing(numerator, divisor, k, 2 * q, 2 * remainder + Bit(numerator[k / 64], k % 64), overflow, quotient)
  {
    QuotientDoubles(q, divisor, remainder, Bit(numerator[k / 64], k % 64), k);
    ZeroLimbs();
    if k < 256 {
      assert ClearBelow(quotient, k + 1);
      ClearBelowWeakens(quotient, k);
    }
  }

  lemma AppendOneBit(numerator: seq<Limb>, divisor: nat, k: nat, q: nat, remainder: int,
                     overflow: bool, quotient: seq<Limb>)
    requires k < 320 && Dividing(numerator, divisor, k + 1, q, remainder, overflow, quotient)
    requires 2 * remainder + Bit(numerator[k / 64], k % 64) >= divisor
    ensures k < 256 ==> SetBit(quotient[k / 64], k % 64) < WORD
    ensures Dividing(numerator, divisor, k, 2 * q + 1, 2 * remainder + Bit(numerator[k / 64], k % 64) - divisor,
                     overflow || k >= 256,
                     if k >= 256 then quotient else quotient[k / 64 := SetBit(quotient[k / 64], k % 64)])
  {
    QuotientDoubles(q, divisor, remainder, Bit(numerator[k / 64], k % 64), k);
    ZeroLimbs();
    if k < 256 {
      assert ClearBelow(quotient, k + 1);
      SetQuotientBit(quotient, k);
    }
  }

  /** The loop body, whichever branch it takes, consumes one more numerator bit. */
  method ShiftIn(numerator: seq<Limb>, divisor: nat, bitIndex: nat, ghost q: nat,
                 before: nat, overflowed: bool, limbs: seq<Limb>)
    returns (remainder: nat, overflow: bool, quotient: seq<Limb>, ghost q': nat)
    requires divisor < DOUBLE && bitIndex < 320
    requires Dividing(numerator, divisor, bitIndex + 1, q, before, overflowed, limbs)
    ensures Dividing(numerator, divisor, bitIndex, q', remainder, overflow, quotient)
  {
    overflow, quotient := overflowed, limbs;
    var inputBit := Bit(numerator[bitIndex / 64], bitIndex % 64);
    DivisionStep(before, inputBit, divisor);
    var high := before / (DOUBLE / 2) != 0;
    remainder := 2 * before % DOUBLE + inputBit;
    if high || remainder >= divisor {
      AppendOneBit(numerator, divisor, bitIndex, q, before, overflow, quotient);
      q' := 2 * q + 1;
      remainder := (remainder - divisor) % DOUBLE;
      if bitIndex >= 256 {
        overflow := true;
      } else {
        quotient := quotient[bitIndex / 64 := SetBit(quotient[bitIndex / 64], bitIndex % 64)];
      }
    } else {
      AppendZeroBit(numerator, divisor, bitIndex, q, before, overflow, quotient);
      q' := 2 * q;
    }
  }

  lemma DivisionComplete(numerator: seq<Limb>, divisor: nat, q: nat, remainder: int, overflow: bool, quotient: seq<Limb>)
    requires Dividing(numerator, divisor, 0, q, remainder, overflow, quotient)
    ensures MinOf(LimbValue(numerator) / divisor, MAX_VALUE) == if overflow then MAX_VALUE else LimbValue(quotient)
  {
    PrefixIsValue(numerator, 0);
    assert numerator[0..] == numerator;
    QuotientUnique(LimbValue(numerator), divisor, q, remainder);
    LimbValueBound(quotient);
    MaxValueIsAllOnes();
  }

  method Divide320By128(numerator: seq<Limb>, divisor: nat) returns (result: seq<Limb>)
    requires |numerator| == 5 && 0 < divisor < DOUBLE
    ensures |result| == 4
    ensures LimbValue(result) == MinOf(LimbValue(numerator) / divisor, MAX_VALUE)
  {
    var quotient: seq<Limb> := [0, 0, 0, 0];
    var remainder := 0;
    var overflow := false;
    var bitIndex := 320;
    ghost var q: nat := 0;
    ZeroLimbs();
    while bitIndex > 0
      invariant 0 <= bitIndex <= 320
      invariant Dividing(numerator, divisor, bitIndex, q, remainder, overflow, quotient)
    {
      bitIndex := bitIndex - 1;
      remainder, overflow, quotient, q := ShiftIn(numerator, divisor, bitIndex, q, remainder, overflow, quotient);
    }
    DivisionComplete(numerator, divisor, q, remainder, overflow, quotient);
    if overflow {
      AllOnes();
      return [WORD - 1, WORD - 1, WORD - 1, WORD - 1];
    }
    return quotient;
  }

  lemma QuotientDoubles(q: nat, divisor: nat, remainder: nat, bit: int, k: nat)
    requires 0 <= bit <= 1
    ensures 2 * (q * divisor + remainder) + bit == (2 * q) * divisor + (2 * remainder + bit)
    ensures 2 * (q * divisor + remainder) + bit == (2 * q + 1) * divisor + (2 * remainder + bit - divisor)
    ensures (2 * q) * Pow2(k) == q * Pow2(k + 1)
    ensures (2 * q + 1) * Pow2(k) == q * Pow2(k + 1) + Pow2(k)
    ensures k < 256 ==> (Pow2(256 - k) == 2 * Pow2(256 - (k + 1)))
  {
  }

  lemma AllOnes()
    ensures LimbValue([WORD - 1, WORD - 1, WORD - 1, WORD - 1]) == MAX_VALUE
  {
    var m: Limb := WORD - 1;
    assert [m][1..] == [] && [m, m][1..] == [m] && [m, m, m][1..] == [m, m] && [m, m, m, m][1..] == [m, m, m];
    assert LimbValue([m]) == m;
    assert LimbValue([m, m]) == m + WORD * m;
    assert LimbValue([m, m, m]) == m + WORD * (m + WORD * m);
    assert LimbValue([m, m, m, m]) == m + WORD * (m + WORD * (m + WORD * m));
  }

  // ---------------------------------------------------------------- byte conversions

  /** `n` written in exactly `width` big-endian bytes. */
  function ToBe(n: nat, width: nat): (b: seq<byte>)
    requires n < Pow2(8 * width)
    ensures |b| == width && BeValue(b) == n
    decreases width
  {
    if width == 0 then
      []
    else
      ShiftByte(width - 1);
      ToBe(n / 256, width - 1) + [n % 256]
  }

  /** The target with a given numeric value. */
  function TargetOf(v: nat): (t: ShareTarget)
    requires 1 <= v <= MAX_VALUE
    ensures Value(t) == v
  {
    MaxValueIsAllOnes();
    ToBe(v, 32)
  }

  lemma TargetOfValue(t: ShareTarget)
    ensures TargetOf(Value(t)) == t
  {
    BeValueInjective(TargetOf(Value(t)), t);
  }

  /** Prepending eight big-endian bytes appends one little-endian limb. */
  lemma PrependChunk(chunk: seq<byte>, low: seq<byte>, limbs: seq<Limb>)
    requires |chunk| == 8 && |low| == 8 * |limbs| && LimbValue(limbs) == BeValue(low)
    ensures BeValue(chunk) < WORD
    ensures LimbValue(limbs + [BeValue(chunk)]) == BeValue(chunk + low)
  {
    BeValueBound(chunk);
    Pow2Values();
    BeValueConcat(chunk, low);
    assert 8 * |low| == 64 * |limbs|;
    LimbValueSnoc(limbs, BeValue(chunk));
  }

  method ToLittleLimbs(target: ShareTarget) returns (limbs: seq<Limb>)
    ensures |limbs| == 4 && LimbValue(limbs) == Value(target)
  {
    limbs := [];
    for index := 0 to 4
      invariant |limbs| == index
      invariant LimbValue(limbs) == BeValue(target[32 - 8 * index..])
    {
      var chunk := target[24 - 8 * index..32 - 8 * index];
      assert target[32 - 8 * (index + 1)..] == chunk + target[32 - 8 * index..];
      PrependChunk(chunk, target[32 - 8 * index..], limbs);
      limbs := limbs + [BeValue(chunk)];
    }
    assert target[0..] == target;
  }

  /** One limb as eight big-endian bytes. */
  method LimbBytes(limb: Limb) returns (b: seq<byte>)
    ensures |b| == 8 && BeValue(b) == limb
  {
    LimbFits(limb);
    b := ToBe(limb, 8);
  }

  lemma JoinStep(limbs: seq<Limb>, index: nat, chunk: seq<byte>, bytes: seq<byte>)
    requires index < |limbs| && |bytes| == 8 * index && BeValue(bytes) == LimbValue(limbs[..index])
    requires |chunk| == 8 && BeValue(chunk) == limbs[index]
    ensures BeValue(chunk + bytes) == LimbValue(limbs[..index + 1])
  {
    PrependChunk(chunk, bytes, limbs[..index]);
    assert limbs[..index + 1] == limbs[..index] + [limbs[index]];
  }

  method JoinLimbs(limbs: seq<Limb>) returns (bytes: seq<byte>)
    ensures |bytes| == 8 * |limbs| && BeValue(bytes) == LimbValue(limbs)
  {
    bytes := [];
    for index := 0 to |limbs|
      invariant |bytes| == 8 * index
      invariant BeValue(bytes) == LimbValue(limbs[..index])
    {
      var chunk := LimbBytes(limbs[index]);
      JoinStep(limbs, index, chunk, bytes);
      bytes := chunk + bytes;
    }
    assert limbs[..|limbs|] == limbs;
  }

  method FromLittleLimbs(limbs: seq<Limb>) returns (target: ShareTarget)
    requires |limbs| == 4
    ensures Value(target) == MaxOf(1, LimbValue(limbs))
  {
    var bytes := JoinLimbs(limbs);
    ZeroBytesAreZero(bytes);
    if bytes == seq(32, _ => 0) {
      OneTarget(bytes);
      bytes := bytes[31 := 1];
    }
    target := bytes;
  }

  lemma LimbFits(limb: Limb)
    ensures limb < Pow2(64)
  {
    Pow2Values();
  }

  lemma OneTarget(bytes: seq<byte>)
    requires bytes == seq(32, _ => 0)
    ensures BeValue(bytes[31 := 1]) == 1
  {
    var one := bytes[31 := 1];
    ZeroBytesAreZero(one[..31]);
    assert BeValue(one) == 256 * BeValue(one[..31]) + 1;
  }

  // ---------------------------------------------------------------- target scaling

  /** Exact saturating scaling: max(1, min(2^256 - 1, floor(t * m / d))). */
  function ScaledValue(t: nat, multiplier: nat, divisor: nat): (v: nat)
    requires divisor > 0
    ensures 1 <= v <= MAX_VALUE
  {
    MaxOf(1, MinOf(MAX_VALUE, t * multiplier / divisor))
  }

  method ScaleTarget(target: ShareTarget, multiplier: Limb, divisor: nat) returns (scaled: ShareTarget)
    requires 0 < divisor < DOUBLE
    ensures Value(scaled) == ScaledValue(Value(target), multiplier, divisor)
  {
    var limbs := ToLittleLimbs(target);
    var product := MultiplyLimbs(limbs, multiplier);
    var quotient := Divide320By128(product, divisor);
    scaled := FromLittleLimbs(quotient);
  }

  method MultiplyTarget(target: ShareTarget, multiplier: Limb) returns (scaled: ShareTarget)
    requires multiplier > 0
    ensures Value(scaled) == MinOf(MAX_VALUE, Value(target) * multiplier)
  {
    var limbs := ToLittleLimbs(target);
    var product := MultiplyLimbs(limbs, multiplier);
    assert product == product[..4] + [product[4]];
    LimbValueSnoc(product[..4], product[4]);
    LimbValueBound(product[..4]);
    MaxValueIsAllOnes();
    assert Value(target) * multiplier >= 1 by {
      MulGap(0, multiplier, Value(target));
    }
    if product[4] != 0 {
      MulGap(0, product[4], Pow2(256));
      scaled := seq(32, _ => 255);
      MaxTargetValue();
    } else {
      scaled := FromLittleLimbs(product[..4]);
    }
  }

  lemma MaxTargetValue()
    ensures BeValue(seq(32, _ => 255)) == MAX_VALUE
  {
    RepeatedMaxByte(32);
    MaxValueIsAllOnes();
  }

  lemma {:induction false} RepeatedMaxByte(n: nat)
    ensures BeValue(seq(n, _ => 255)) == Pow2(8 * n) - 1
  {
    if n == 0 {
    } else {
      RepeatedMaxByte(n - 1);
      ShiftByte(n - 1);
      assert seq(n, _ => 255)[..n - 1] == seq(n - 1, _ => 255);
    }
  }

  method DivideTarget(target: ShareTarget, divisor: Limb) returns (scaled: ShareTarget)
    requires divisor > 0
    ensures Value(scaled) == MaxOf(1, Value(target) / divisor)
  {
    scaled := ScaleTarget(target, 1, divisor);
    QuotientAtMost(Value(target), divisor);
  }

  lemma QuotientAtMost(x: nat, d: nat)
    requires d >= 1
    ensures x / d <= x
  {
    MulGap(x, x / d, d);
    assert x / d * d <= x;
  }
}
