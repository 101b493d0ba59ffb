/** Fixed-width byte strings, their two endian readings and the byte-wise order. */
module Bytes {

  type byte = x: int | 0 <= x < 256

  datatype Ordering = Less | Equal | Greater

  function Pow2(n: nat): (p: nat)
    ensures p >= 1
  {
    if n == 0 then 1 else 2 * Pow2(n - 1)
  }

  lemma {:induction false} Pow2Add(m: nat, n: nat)
    ensures Pow2(m + n) == Pow2(m) * Pow2(n)
    decreases m
  {
    if m == 0 {
    } else {
      Pow2Add(m - 1, n);
      calc {
        Pow2(m + n);
        2 * (Pow2(m - 1) * Pow2(n));
        Pow2(m) * Pow2(n);
      }
    }
  }

  lemma Pow2Values()
    ensures Pow2(8) == 256
    ensures Pow2(64) == 0x1_0000_0000_0000_0000
    ensures Pow2(127) == 0x8000_0000_0000_0000_0000_0000_0000_0000
    ensures Pow2(128) == 0x1_0000_0000_0000_0000_0000_0000_0000_0000
  {
    Pow2Small();
    Pow2Doubled(16, 0x1_0000);
    Pow2Doubled(32, 0x1_0000_0000);
    Pow2Doubled(64, 0x1_0000_0000_0000_0000);
    assert Pow2(128) == 2 * Pow2(127);
  }

  lemma Pow2Small()
    ensures Pow2(8) == 256 && Pow2(16) == 0x1_0000
  {
    assert Pow2(4) == 16;
    Pow2Doubled(4, 16);
    Pow2Doubled(8, 256);
  }

  /** Doubling the exponent squares the power. */
  lemma Pow2Doubled(n: nat, p: nat)
    requires Pow2(n) == p
    ensures Pow2(2 * n) == p * p
  {
    Pow2Add(n, n);
  }

  /** Numeric value of a big-endian byte string. */
  function BeValue(b: seq<byte>): (v: nat)
  {
    if |b| == 0 then 0 else 256 * BeValue(b[..|b| - 1]) + b[|b| - 1]
  }

  function Reverse<T>(s: seq<T>): (r: seq<T>)
    ensures |r| == |s|
    ensures forall i :: 0 <= i < |s| ==> r[i] == s[|s| - 1 - i]
  {
    if |s| == 0 then [] else Reverse(s[1..]) + [s[0]]
  }

  lemma ReverseInvolutive<T>(s: seq<T>)
    ensures Reverse(Reverse(s)) == s
  {
    var r := Reverse(Reverse(s));
    assert |r| == |s|;
    forall i | 0 <= i < |s|
      ensures r[i] == s[i]
    {
      assert r[i] == Reverse(s)[|s| - 1 - i];
    }
  }

  /** Numeric value of a little-endian byte string. */
  function LeValue(b: seq<byte>): (v: nat)
  {
    if |b| == 0 then 0 else b[0] + 256 * LeValue(b[1..])
  }

  lemma {:induction false} ReverseSwapsEndianness(b: seq<byte>)
    ensures BeValue(Reverse(b)) == LeValue(b)
    decreases |b|
  {
    if |b| == 0 {
    } else {
      ReverseSwapsEndianness(b[1..]);
      assert Reverse(b)[..|b| - 1] == Reverse(b[1..]);
    }
  }

  lemma {:induction false} BeValueBound(b: seq<byte>)
    ensures BeValue(b) < Pow2(8 * |b|)
  {
    if |b| == 0 {
    } else {
      BeValueBound(b[..|b| - 1]);
      Pow2Add(8 * (|b| - 1), 8);
      Pow2Values();
    }
  }

  lemma {:induction false} BeValueConcat(a: seq<byte>, b: seq<byte>)
    ensures BeValue(a + b) == BeValue(a) * Pow2(8 * |b|) + BeValue(b)
    decreases |b|
  {
    if |b| == 0 {
      assert a + b == a;
    } else {
      var front := b[..|b| - 1];
      BeValueConcat(a, front);
      assert (a + b)[..|a + b| - 1] == a + front;
      ShiftByte(|front|);
      AppendDigit(BeValue(a), Pow2(8 * |front|), BeValue(front), b[|b| - 1]);
    }
  }

  lemma ShiftByte(n: nat)
    ensures Pow2(8 * (n + 1)) == 256 * Pow2(8 * n)
  {
    Pow2Add(8, 8 * n);
    Pow2Values();
  }

  lemma AppendDigit(x: int, p: int, low: int, digit: int)
    ensures 256 * (x * p + low) + digit == x * (256 * p) + (256 * low + digit)
  {
  }

  /** The derived order of Rust byte arrays: first differing byte decides. */
  function Compare(a: seq<byte>, b: seq<byte>): (o: Ordering)
  {
    if |a| == 0 then (if |b| == 0 then Equal else Less)
    else if |b| == 0 then Greater
    else if a[0] < b[0] then Less
    else if a[0] > b[0] then Greater
    else Compare(a[1..], b[1..])
  }

  function CompareInt(x: int, y: int): Ordering
  {
    if x < y then Less else if x > y then Greater else Equal
  }

  /** Byte-wise order on equal widths is the order of the big-endian integers. */
  lemma {:induction false} CompareIsIntegerOrder(a: seq<byte>, b: seq<byte>)
    requires |a| == |b|
    ensures Compare(a, b) == CompareInt(BeValue(a), BeValue(b))
    ensures Compare(a, b) == Equal <==> a == b
    decreases |a|
  {
    if |a| == 0 {
    } else {
      var w := Pow2(8 * (|a| - 1));
      assert a == [a[0]] + a[1..] && b == [b[0]] + b[1..];
      assert BeValue([a[0]]) == a[0] && BeValue([b[0]]) == b[0];
      BeValueConcat([a[0]], a[1..]);
      BeValueConcat([b[0]], b[1..]);
      BeValueBound(a[1..]);
      BeValueBound(b[1..]);
      CompareIsIntegerOrder(a[1..], b[1..]);
      if a[0] < b[0] {
        LeadingDigitDecides(a[0], b[0], w, BeValue(a[1..]), BeValue(b[1..]));
      } else if a[0] > b[0] {
        LeadingDigitDecides(b[0], a[0], w, BeValue(b[1..]), BeValue(a[1..]));
      }
    }
  }

  lemma LeadingDigitDecides(x: int, y: int, w: int, lowX: int, lowY: int)
    requires x < y && 0 <= lowX < w && 0 <= lowY
    ensures x * w + lowX < y * w + lowY
  {
    assert (x + 1) * w <= y * w;
  }

  /** Equal widths and equal integers mean equal bytes. */
  lemma BeValueInjective(a: seq<byte>, b: seq<byte>)
    requires |a| == |b| && BeValue(a) == BeValue(b)
    ensures a == b
  {
    CompareIsIntegerOrder(a, b);
  }

  /**
   * Comparing two little-endian strings byte-wise from their last byte, as the
   * late-winner filter does, is the order of the little-endian integers.
   */
  lemma ReversedCompareIsIntegerOrder(a: seq<byte>, b: seq<byte>)
    requires |a| == |b|
    ensures Compare(Reverse(a), Reverse(b)) == CompareInt(LeValue(a), LeValue(b))
  {
    CompareIsIntegerOrder(Reverse(a), Reverse(b));
    ReverseSwapsEndianness(a);
    ReverseSwapsEndianness(b);
  }
}
