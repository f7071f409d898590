/** Bit vectors, as in xls/ir/bits.h: bit 0 is the least significant. */
module Words {

  type Bits = seq<bool>

  function Pow2(n: nat): (p: nat)
    ensures p > 0
  {
    if n == 0 then 1 else 2 * Pow2(n - 1)
  }

  /** The unsigned value. */
  function ToNat(b: Bits): (v: nat)
    ensures v < Pow2(|b|)
  {
    if b == [] then 0 else (if b[0] then 1 else 0) + 2 * ToNat(b[1..])
  }

  /** The bits of a value that fits. */
  function UBits(value: nat, width: nat): (b: Bits)
    requires value < Pow2(width)
    ensures |b| == width && ToNat(b) == value
  {
    if width == 0 then [] else [value % 2 == 1] + UBits(value / 2, width - 1)
  }

  function MinBitCountUnsigned(value: nat): nat {
    if value == 0 then 0 else 1 + MinBitCountUnsigned(value / 2)
  }

  /** A value fits in a width exactly when the width is at least its minimal bit count. */
  lemma {:induction false} FitsExactly(value: nat, width: nat)
    ensures MinBitCountUnsigned(value) <= width <==> value < Pow2(width)
  {
    if value > 0 && width > 0 {
      FitsExactly(value / 2, width - 1);
    }
  }

  lemma {:induction false} SameNumberSameBits(a: Bits, b: Bits)
    requires |a| == |b| && ToNat(a) == ToNat(b)
    ensures a == b
  {
    if a != [] {
      SameNumberSameBits(a[1..], b[1..]);
      assert a == [a[0]] + a[1..] && b == [b[0]] + b[1..];
    }
  }

  lemma {:induction false} Pow2Adds(m: nat, n: nat)
    ensures Pow2(m + n) == Pow2(m) * Pow2(n)
  {
    if m > 0 {
      Pow2Adds(m - 1, n);
    }
  }

  lemma {:induction false} Pow2Grows(m: nat, n: nat)
    requires m <= n
    ensures Pow2(m) <= Pow2(n)
  {
    if m < n {
      Pow2Grows(m, n - 1);
    }
  }

  /** The number of a concatenation whose low part is `low`. */
  lemma {:induction false} ToNatJoins(low: Bits, high: Bits)
    ensures ToNat(low + high) == ToNat(low) + Pow2(|low|) * ToNat(high)
  {
    if low == [] {
      assert low + high == high;
    } else {
      ToNatJoins(low[1..], high);
      assert (low + high)[1..] == low[1..] + high;
      assert Pow2(|low|) == 2 * Pow2(|low| - 1);
      assert ToNat(low + high) == (if low[0] then 1 else 0) + 2 * ToNat(low[1..] + high);
      hide ToNat, Pow2;
      Twice(Pow2(|low| - 1), ToNat(high));
    }
  }

  lemma Twice(x: int, y: int)
    ensures 2 * (x * y) == (2 * x) * y
  {
  }

  function Repeat(bit: bool, n: nat): (b: Bits)
    ensures |b| == n && forall i | 0 <= i < n :: b[i] == bit
  {
    seq(n, _ => bit)
  }

  lemma {:induction false} ZerosAreZero(n: nat)
    ensures ToNat(Repeat(false, n)) == 0
  {
    if n > 0 {
      assert Repeat(false, n)[1..] == Repeat(false, n - 1);
      ZerosAreZero(n - 1);
    }
  }

  lemma {:induction false} OnesAreAll(n: nat)
    ensures ToNat(Repeat(true, n)) == Pow2(n) - 1
  {
    if n > 0 {
      assert Repeat(true, n)[1..] == Repeat(true, n - 1);
      OnesAreAll(n - 1);
    }
  }
}
