/** Regrouping of big-endian digit strings between bit widths, as Bech32m payloads need it. */
module BitRegrouping {
  import opened Bytes
  import opened Common
  import W = WideArithmetic

  // ---- Shifts and masks on unbounded integers -----------------------------------------

  function ShiftRight(x: nat, n: nat): nat {
    if n == 0 then x else ShiftRight(x / 2, n - 1)
  }

  function ShiftLeft(x: nat, n: nat): nat {
    if n == 0 then x else 2 * ShiftLeft(x, n - 1)
  }

  function LowBits(x: nat, n: nat): (r: nat)
    ensures r < Pow2(n)
  {
    if n == 0 then 0 else x % 2 + 2 * LowBits(x / 2, n - 1)
  }

  /** A number is its bits above a cut, and those below it. */
  lemma {:induction false} SplitAtCut(x: nat, n: nat)
    ensures x == ShiftLeft(ShiftRight(x, n), n) + LowBits(x, n)
  {
    if n == 0 {
    } else {
      SplitAtCut(x / 2, n - 1);
    }
  }

  /** Appending `n` bits below a number, and cutting them off again. */
  lemma {:induction false} AppendThenCut(x: nat, v: nat, n: nat)
    requires v < Pow2(n)
    ensures ShiftRight(ShiftLeft(x, n) + v, n) == x
    ensures LowBits(ShiftLeft(x, n) + v, n) == v
  {
    if n == 0 {
    } else {
      AppendThenCut(x, v / 2, n - 1);
      assert (ShiftLeft(x, n) + v) / 2 == ShiftLeft(x, n - 1) + v / 2;
    }
  }

  lemma {:induction false} ShiftRightTwice(x: nat, a: nat, b: nat)
    ensures ShiftRight(ShiftRight(x, a), b) == ShiftRight(x, a + b)
  {
    if a == 0 {
    } else {
      ShiftRightTwice(x / 2, a - 1, b);
    }
  }

  /** Zeros appended below a cut leave what is above it, and are zero bits themselves. */
  lemma {:induction false} PadBelow(x: nat, zeros: nat, n: nat)
    ensures ShiftRight(ShiftLeft(x, zeros), zeros + n) == ShiftRight(x, n)
    ensures LowBits(ShiftLeft(x, zeros), zeros + n) == ShiftLeft(LowBits(x, n), zeros)
  {
    if zeros == 0 {
    } else {
      PadBelow(x, zeros - 1, n);
      assert ShiftLeft(x, zeros) / 2 == ShiftLeft(x, zeros - 1);
    }
  }

  lemma {:induction false} ShiftLeftZero(x: nat, n: nat)
    ensures ShiftLeft(x, n) == 0 <==> x == 0
  {
    if n == 0 {
    } else {
      ShiftLeftZero(x, n - 1);
    }
  }

  // ---- Digit strings ------------------------------------------------------------------

  predicate AllDigits(s: seq<int>, width: nat) {
    forall i :: 0 <= i < |s| ==> 0 <= s[i] < Pow2(width)
  }

  /** The number a big-endian digit string denotes. */
  function NumberOf(s: seq<int>, width: nat): (x: nat)
    requires AllDigits(s, width)
  {
    if s == [] then 0 else ShiftLeft(NumberOf(s[..|s| - 1], width), width) + s[|s| - 1]
  }

  /** The lowest `count` digits of a number, most significant first. */
  function Digits(x: nat, count: nat, width: nat): (s: seq<int>)
    ensures |s| == count && AllDigits(s, width)
    decreases count
  {
    if count == 0 then [] else Digits(ShiftRight(x, width), count - 1, width) + [LowBits(x, width)]
  }

  function CeilDiv(x: nat, y: nat): nat
    requires y > 0
  {
    (x + y - 1) / y
  }

  lemma CeilDivIs(x: nat, y: nat, q: nat)
    requires y > 0 && x <= q * y < x + y
    ensures CeilDiv(x, y) == q
  {
    W.QuotientUnique(x + y - 1, y, q, x + y - 1 - q * y);
  }

  lemma CeilDivBounds(x: nat, y: nat)
    requires y > 0
    ensures x <= CeilDiv(x, y) * y < x + y
  {
    assert x + y - 1 == ((x + y - 1) / y) * y + (x + y - 1) % y;
  }

  /** The bits that remain after the whole digits. */
  function Excess(total: nat, width: nat): (e: nat)
    requires width > 0
    ensures total == (total / width) * width + e && e < width
  {
    total % width
  }

  /**
   * What regrouping means: the same bit string, cut into digits of the new width. With
   * padding, zero bits complete the last digit; without it, the bits left over must be
   * fewer than one old digit and all zero.
   */
  function Regroup(s: seq<int>, fromBits: nat, toBits: nat, pad: bool): (r: Option<seq<int>>)
    requires fromBits > 0 && toBits > 0
  {
    if !AllDigits(s, fromBits) then None
    else
      var x, total := NumberOf(s, fromBits), |s| * fromBits;
      if pad then Some(Padded(x, total, toBits))
      else
        var excess := Excess(total, toBits);
        if excess >= fromBits || LowBits(x, excess) != 0 then None
        else Some(Digits(ShiftRight(x, excess), total / toBits, toBits))
  }

  function Padded(x: nat, total: nat, toBits: nat): seq<int>
    requires toBits > 0
  {
    CeilDivBounds(total, toBits);
    Digits(ShiftLeft(x, CeilDiv(total, toBits) * toBits - total), CeilDiv(total, toBits), toBits)
  }

  // ---- Digits and numbers are inverse -------------------------------------------------

  lemma OneMore(n: nat, width: nat)
    ensures (n + 1) * width == width + n * width
  {
  }

  lemma {:induction false} NumberBound(s: seq<int>, width: nat)
    requires AllDigits(s, width)
    ensures ShiftRight(NumberOf(s, width), |s| * width) == 0
  {
    if s == [] {
    } else {
      var front := s[..|s| - 1];
      NumberBound(front, width);
      AppendThenCut(NumberOf(front, width), s[|s| - 1], width);
      ShiftRightTwice(NumberOf(s, width), width, |front| * width);
      OneMore(|front|, width);
    }
  }

  lemma {:induction false} DigitsOfNumber(s: seq<int>, width: nat)
    requires AllDigits(s, width)
    ensures Digits(NumberOf(s, width), |s|, width) == s
  {
    if s == [] {
    } else {
      var front := s[..|s| - 1];
      DigitsOfNumber(front, width);
      AppendThenCut(NumberOf(front, width), s[|s| - 1], width);
      assert s == front + [s[|s| - 1]];
    }
  }

  lemma {:induction false} NumberOfDigits(x: nat, count: nat, width: nat)
    requires ShiftRight(x, count * width) == 0
    ensures NumberOf(Digits(x, count, width), width) == x
    decreases count
  {
    if count == 0 {
    } else {
      OneMore(count - 1, width);
      ShiftRightTwice(x, width, (count - 1) * width);
      NumberOfDigits(ShiftRight(x, width), count - 1, width);
      SplitAtCut(x, width);
      var s := Digits(x, count, width);
      assert s[..|s| - 1] == Digits(ShiftRight(x, width), count - 1, width);
    }
  }

  // ---- The conversion loop ------------------------------------------------------------

  /** Emits whole digits while the accumulator holds enough pending bits. */
  method Emit(accumulator: nat, pending: nat, toBits: nat, emitted: seq<int>) returns (bits: nat, result: seq<int>)
    requires toBits > 0 && emitted == Digits(ShiftRight(accumulator, pending), |emitted|, toBits)
    ensures bits < toBits && |result| * toBits + bits == |emitted| * toBits + pending
    ensures result == Digits(ShiftRight(accumulator, bits), |result|, toBits)
  {
    bits, result := pending, emitted;
    while bits >= toBits
      invariant |result| * toBits + bits == |emitted| * toBits + pending
      invariant result == Digits(ShiftRight(accumulator, bits), |result|, toBits)
    {
      bits := bits - toBits;
      ShiftRightTwice(accumulator, bits, toBits);
      assert (|result| + 1) * toBits == |result| * toBits + toBits;
      result := result + [LowBits(ShiftRight(accumulator, bits), toBits)];
    }
  }

  /** Completes the last digit with zeros, or insists that nothing but zeros was left. */
  method Finish(ghost values: seq<int>, fromBits: nat, toBits: nat, pad: bool, accumulator: nat, bits: nat, digits: seq<int>)
    returns (r: Option<seq<int>>)
    requires fromBits > 0 && toBits > 0 && AllDigits(values, fromBits) && accumulator == NumberOf(values, fromBits)
    requires bits < toBits && |digits| * toBits + bits == |values| * fromBits
    requires digits == Digits(ShiftRight(accumulator, bits), |digits|, toBits)
    ensures r == Regroup(values, fromBits, toBits, pad)
  {
    ghost var total := |values| * fromBits;
    var completed := ShiftLeft(accumulator, toBits - bits);
    var tail := LowBits(completed, toBits);
    PadBelow(accumulator, toBits - bits, bits);
    if pad {
      if bits > 0 {
        assert (|digits| + 1) * toBits == |digits| * toBits + toBits;
        CeilDivIs(total, toBits, |digits| + 1);
        return Some(digits + [tail]);
      }
      CeilDivIs(total, toBits, |digits|);
      return Some(digits);
    }
    W.QuotientUnique(total, toBits, |digits|, bits);
    ShiftLeftZero(LowBits(accumulator, bits), toBits - bits);
    if bits >= fromBits || tail != 0 {
      return None;
    }
    return Some(digits);
  }

  /** The accumulator loop computes the regrouping, including both refusals. */
  method ConvertBits(values: seq<int>, fromBits: nat, toBits: nat, pad: bool) returns (r: Option<seq<int>>)
    requires fromBits > 0 && 0 < toBits <= 8
    ensures r == Regroup(values, fromBits, toBits, pad)
  {
    var accumulator: nat := 0;
    var bits: nat := 0;
    var result: seq<int> := [];
    for i := 0 to |values|
      invariant AllDigits(values[..i], fromBits)
      invariant accumulator == NumberOf(values[..i], fromBits)
      invariant bits < toBits && |result| * toBits + bits == i * fromBits
      invariant result == Digits(ShiftRight(accumulator, bits), |result|, toBits)
    {
      var value := values[i];
      if value < 0 || value >= Pow2(fromBits) {
        return None;
      }
      AppendThenCut(accumulator, value, fromBits);
      assert values[..i + 1][..i] == values[..i];
      ghost var before := accumulator;
      accumulator := ShiftLeft(accumulator, fromBits) + value;
      ShiftRightTwice(accumulator, fromBits, bits);
      bits, result := Emit(accumulator, bits + fromBits, toBits, result);
      assert (i + 1) * fromBits == i * fromBits + fromBits;
    }
    assert values[..|values|] == values;
    r := Finish(values, fromBits, toBits, pad, accumulator, bits, result);
  }

  // ---- Round trips --------------------------------------------------------------------

  /** Padding into narrower digits and regrouping back gives the original, for every input. */
  lemma PaddedRoundTrip(s: seq<int>, fromBits: nat, toBits: nat)
    requires 0 < toBits <= fromBits && AllDigits(s, fromBits)
    ensures Regroup(s, fromBits, toBits, true).Some?
    ensures Regroup(Regroup(s, fromBits, toBits, true).value, toBits, fromBits, false) == Some(s)
  {
    var x, total := NumberOf(s, fromBits), |s| * fromBits;
    var count := CeilDiv(total, toBits);
    CeilDivBounds(total, toBits);
    var e := count * toBits - total;
    NumberBound(s, fromBits);
    PadBelow(x, e, total);
    NumberOfDigits(ShiftLeft(x, e), count, toBits);
    W.QuotientUnique(count * toBits, fromBits, |s|, e);
    AppendThenCut(x, 0, e);
    DigitsOfNumber(s, fromBits);
  }

  /** Every digit string accepted without padding is the padded form of its own decoding. */
  lemma AcceptedIsCanonical(s: seq<int>, fromBits: nat, toBits: nat)
    requires fromBits > 0 && toBits > 0 && Regroup(s, fromBits, toBits, false).Some?
    ensures Regroup(Regroup(s, fromBits, toBits, false).value, toBits, fromBits, true) == Some(s)
  {
    var x, total := NumberOf(s, fromBits), |s| * fromBits;
    var count, e := total / toBits, Excess(total, toBits);
    NumberBound(s, fromBits);
    ShiftRightTwice(x, e, count * toBits);
    NumberOfDigits(ShiftRight(x, e), count, toBits);
    CeilDivIs(count * toBits, fromBits, |s|);
    SplitAtCut(x, e);
    DigitsOfNumber(s, fromBits);
  }

  /** Two accepted digit strings with the same decoding are the same string. */
  lemma DecodingIsInjective(s: seq<int>, t: seq<int>, fromBits: nat, toBits: nat)
    requires fromBits > 0 && toBits > 0
    requires Regroup(s, fromBits, toBits, false).Some? && Regroup(s, fromBits, toBits, false) == Regroup(t, fromBits, toBits, false)
    ensures s == t
  {
    AcceptedIsCanonical(s, fromBits, toBits);
    AcceptedIsCanonical(t, fromBits, toBits);
  }
}
