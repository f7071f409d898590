/**
 Lowering of shifts and decode (xls/codegen/node_expressions.cc) and of bit-slice update
 (xls/codegen/module_builder.cc). Each guards against shifting by the width or more unless the
 amount is too narrow to say so; the result is what the operation means on unbounded integers.
 */
module BitLowering {
  import opened Options
  import opened Verilog
  import opened Words

  /** An expression denotes a vector of its width. */
  ghost predicate Holds(e: Expr, env: Env, bits: Bits) {
    bits != [] && Eval(e, env) == Some(Vec(bits))
  }

  // ---------------------------------------------------------------------------
  // Arithmetic of shifts
  // ---------------------------------------------------------------------------

  /** The two's complement value. */
  function ToInt(b: Bits): int
    requires b != []
  {
    if b[|b| - 1] then ToNat(b) - Pow2(|b|) else ToNat(b)
  }

  lemma Remainder(x: nat, m: nat, h: int)
    requires x < m
    ensures (x + m * h) % m == x && (x + m * h) / m == h
  {
    var q, r := (x + m * h) / m, (x + m * h) % m;
    assert m * q + r == x + m * h;
    assert m * (h - q) == r - x;
    Bounded(m, h - q, r - x);
  }

  lemma Bounded(m: int, d: int, r: int)
    requires m > 0 && m * d == r && -m < r < m
    ensures d == 0 && r == 0
  {
    Scales(m, d);
  }

  lemma Scales(m: int, d: int)
    requires m > 0
    ensures (d >= 1 ==> m * d >= m) && (d <= -1 ==> m * d <= -m)
  {
  }

  lemma Split(b: Bits, k: nat)
    requires k <= |b|
    ensures ToNat(b) == ToNat(b[..k]) + Pow2(k) * ToNat(b[k..])
  {
    assert b == b[..k] + b[k..];
    ToNatJoins(b[..k], b[k..]);
  }

  lemma ShiftLeftMeans(b: Bits, k: nat)
    requires k <= |b|
    ensures ToNat(ShiftLeft(b, k)) == (ToNat(b) * Pow2(k)) % Pow2(|b|)
  {
    hide ToNat, Pow2, Repeat;
    var low, high := b[..|b| - k], b[|b| - k..];
    Split(b, |b| - k);
    ToNatJoins(Repeat(false, k), low);
    ZerosAreZero(k);
    Pow2Adds(|b| - k, k);
    LowPart(ToNat(low), Pow2(|b| - k), ToNat(high), Pow2(k), ToNat(b), Pow2(|b|));
  }

  /** Multiplying by `p` modulo `m`, which is `q * p`, keeps what lies below `q`. */
  lemma LowPart(low: nat, q: nat, high: nat, p: nat, x: nat, m: nat)
    requires low < q && p > 0 && m > 0 && x == low + q * high && m == q * p
    ensures (x * p) % m == p * low
  {
    ProductBelow(low, q, p);
    Remainder(p * low, m, high);
    Distribute(low, q, high, p);
  }

  lemma ProductBelow(x: nat, m: nat, p: nat)
    requires x < m && p > 0
    ensures 0 <= p * x < m * p
  {
    assert p * (m - x) > 0;
  }

  lemma Distribute(x: int, m: int, h: int, p: int)
    ensures (x + m * h) * p == p * x + (m * p) * h
  {
  }

  lemma ShiftLeftAllMeans(b: Bits, n: nat)
    requires |b| <= n
    ensures (ToNat(b) * Pow2(n)) % Pow2(|b|) == 0
  {
    hide ToNat, Pow2;
    Pow2Adds(|b|, n - |b|);
    Multiple(ToNat(b), Pow2(|b|), Pow2(n - |b|), Pow2(n));
  }

  lemma Multiple(x: nat, m: nat, q: nat, n: nat)
    requires m > 0 && n == m * q
    ensures (x * n) % m == 0
  {
    Remainder(0, m, x * q);
    Reorder(x, m, q);
  }

  lemma Reorder(x: int, m: int, q: int)
    ensures x * (m * q) == m * (x * q)
  {
  }

  lemma ShiftRightMeans(b: Bits, k: nat)
    requires k <= |b|
    ensures ToNat(ShiftRight(b, k, false)) == ToNat(b) / Pow2(k)
  {
    Split(b, k);
    Remainder(ToNat(b[..k]), Pow2(k), ToNat(b[k..]));
    ToNatJoins(b[k..], Repeat(false, k));
    ZerosAreZero(k);
  }

  lemma ShiftRightAllMeans(b: Bits, n: nat)
    requires |b| <= n
    ensures ToNat(b) / Pow2(n) == 0
  {
    Pow2Grows(|b|, n);
    Remainder(ToNat(b), Pow2(n), 0);
  }

  lemma ShiftRightArithMeans(b: Bits, k: nat)
    requires k < |b|
    ensures ToInt(ShiftRight(b, k, b[|b| - 1])) == ToInt(b) / Pow2(k)
  {
    var sign := b[|b| - 1];
    var r := ShiftRight(b, k, sign);
    assert r[|r| - 1] == sign;
    if sign {
      ShiftRightNegative(b, k);
    } else {
      ShiftRightMeans(b, k);
    }
  }

  lemma ShiftRightNegative(b: Bits, k: nat)
    requires k <= |b|
    ensures ToNat(ShiftRight(b, k, true)) - Pow2(|b|) == (ToNat(b) - Pow2(|b|)) / Pow2(k)
  {
    hide ToNat, Pow2, Repeat;
    var w, high, ones := |b|, b[k..], Repeat(true, k);
    Split(b, k);
    ToNatJoins(high, ones);
    Pow2Adds(w - k, k);
    OnesAreAll(k);
    HighPart(ToNat(b[..k]), Pow2(k), ToNat(high), Pow2(w - k), ToNat(b), ToNat(ones), ToNat(high + ones), Pow2(w));
  }

  lemma HighPart(low: nat, p: nat, high: int, q: int, x: int, ones: int, r: int, m: int)
    requires low < p && ones == p - 1
    requires x == low + p * high && r == high + q * ones && m == q * p
    ensures r - m == (x - m) / p
  {
    Regroup(low, p, high, q);
    Remainder(low, p, high - q);
  }

  lemma Regroup(x: int, p: int, h: int, q: int)
    ensures x + p * (h - q) == x + p * h - q * p && h + q * (p - 1) - q * p == h - q
  {
  }

  lemma ShiftRightArithAllMeans(b: Bits, n: nat)
    requires b != [] && |b| <= n
    ensures ToInt(Repeat(b[|b| - 1], |b|)) == ToInt(b) / Pow2(n)
  {
    var sign, w := b[|b| - 1], |b|;
    Pow2Grows(w, n);
    hide Pow2;
    if sign {
      OnesAreAll(w);
      Remainder(ToNat(b) - Pow2(w) + Pow2(n), Pow2(n), -1);
    } else {
      ZerosAreZero(w);
      Remainder(ToNat(b), Pow2(n), 0);
    }
  }

  // ---------------------------------------------------------------------------
  // Shifts
  // ---------------------------------------------------------------------------

  predicate IsShift(op: BinaryOp) {
    op.Shll? || op.Shrl? || op.Shra?
  }

  function EmitShift(op: BinaryOp, operand: Expr, width: nat, amount: Expr, amountWidth: nat): Expr
    requires IsShift(op) && width > 0
  {
    var shifted := Binary(op, operand, amount);
    if amountWidth < MinBitCountUnsigned(width) then shifted
    else
      FitsExactly(width, amountWidth);
      var overshift :=
        if op.Shra? then Replicate(width, IndexAt(operand, width - 1)) else Literal(Repeat(false, width));
      Ternary(Binary(GreaterThanEquals, amount, Literal(UBits(width, amountWidth))), overshift, shifted)
  }

  /** What a shift by any amount means: multiplication modulo the width, or division that rounds down. */
  ghost predicate IsShifted(op: BinaryOp, x: Bits, n: nat, r: Bits)
    requires x != []
  {
    && |r| == |x|
    && match op
       case Shll => ToNat(r) == (ToNat(x) * Pow2(n)) % Pow2(|x|)
       case Shrl => ToNat(r) == ToNat(x) / Pow2(n)
       case _ => ToInt(r) == ToInt(x) / Pow2(n)
  }

  lemma ShortShift(op: BinaryOp, operand: Expr, amount: Expr, env: Env, x: Bits, n: Bits)
    requires IsShift(op) && Holds(operand, env, x) && Holds(amount, env, n) && ToNat(n) < |x|
    ensures var r := Eval(Binary(op, operand, amount), env);
      r.Some? && r.value.Vec? && IsShifted(op, x, ToNat(n), r.value.bits)
  {
    Applied(op, operand, amount, env, x, n);
    hide ToNat, Pow2, Eval;
    match op
    case Shll => ShiftLeftMeans(x, ToNat(n));
    case Shrl => ShiftRightMeans(x, ToNat(n));
    case Shra => ShiftRightArithMeans(x, ToNat(n));
  }

  lemma LongShift(op: BinaryOp, operand: Expr, env: Env, x: Bits, n: nat)
    requires IsShift(op) && Holds(operand, env, x) && |x| <= n
    ensures var r := Eval(if op.Shra? then Replicate(|x|, IndexAt(operand, |x| - 1)) else Literal(Repeat(false, |x|)), env);
      r.Some? && r.value.Vec? && IsShifted(op, x, n, r.value.bits)
  {
    match op
    case Shll =>
      ZerosAreZero(|x|);
      ShiftLeftAllMeans(x, n);
    case Shrl =>
      ZerosAreZero(|x|);
      ShiftRightAllMeans(x, n);
    case Shra =>
      ShiftRightArithAllMeans(x, n);
  }

  /** The lowered shift is the shift, for every amount. */
  lemma ShiftMeans(op: BinaryOp, operand: Expr, amount: Expr, env: Env, x: Bits, n: Bits)
    requires IsShift(op) && Holds(operand, env, x) && Holds(amount, env, n)
    ensures var r := Eval(EmitShift(op, operand, |x|, amount, |n|), env);
      r.Some? && r.value.Vec? && IsShifted(op, x, ToNat(n), r.value.bits)
  {
    hide Eval, UBits, Pow2, IsShifted, ToNat, MinBitCountUnsigned, ShiftLeft, ShiftRight;
    FitsExactly(|x|, |n|);
    var shifted := Binary(op, operand, amount);
    if |n| < MinBitCountUnsigned(|x|) {
      ShortShift(op, operand, amount, env, x, n);
    } else {
      var overshift := if op.Shra? then Replicate(|x|, IndexAt(operand, |x| - 1)) else Literal(Repeat(false, |x|));
      var limit := UBits(|x|, |n|);
      LiteralMeans(limit, env);
      Applied(GreaterThanEquals, amount, Literal(limit), env, n, limit);
      Applied(op, operand, amount, env, x, n);
      if ToNat(n) >= |x| {
        LongShift(op, operand, env, x, ToNat(n));
      } else {
        ShortShift(op, operand, amount, env, x, n);
      }
      OvershiftWidth(op, operand, env, x);
      Chosen(Binary(GreaterThanEquals, amount, Literal(limit)), overshift, shifted, env, ToNat(n) >= |x|);
    }
  }

  lemma OvershiftWidth(op: BinaryOp, operand: Expr, env: Env, x: Bits)
    requires Holds(operand, env, x)
    ensures var r := Eval(if op.Shra? then Replicate(|x|, IndexAt(operand, |x| - 1)) else Literal(Repeat(false, |x|)), env);
      r.Some? && r.value.Vec? && |r.value.bits| == |x|
  {
  }

  // ---------------------------------------------------------------------------
  // Decode
  // ---------------------------------------------------------------------------

  function EmitDecode(operand: Expr, operandWidth: nat, width: nat): Expr
    requires width > 0
  {
    OneFits(width);
    var result := Binary(Shll, Literal(UBits(1, width)), operand);
    if MinBitCountUnsigned(width) > operandWidth then result
    else
      FitsExactly(width, operandWidth);
      Ternary(Binary(GreaterThanEquals, operand, Literal(UBits(width, operandWidth))), Literal(Repeat(false, width)), result)
  }

  lemma OneFits(width: nat)
    requires width > 0
    ensures 1 < Pow2(width)
  {
  }

  lemma {:induction false} ZeroBits(width: nat)
    ensures UBits(0, width) == Repeat(false, width)
  {
    ZerosAreZero(width);
    SameNumberSameBits(UBits(0, width), Repeat(false, width));
  }

  lemma OneBits(width: nat)
    requires width > 0
    ensures 1 < Pow2(width) && forall i | 0 <= i < width :: UBits(1, width)[i] <==> i == 0
  {
    OneFits(width);
    ZeroBits(width - 1);
    assert UBits(1, width) == [true] + Repeat(false, width - 1);
  }

  ghost predicate IsOneHot(r: Bits, n: nat) {
    forall i | 0 <= i < |r| :: r[i] <==> i == n
  }

  /** Exactly the bit that the operand names is set, and none when it names no bit of the result. */
  lemma DecodeMeans(operand: Expr, width: nat, env: Env, n: Bits)
    requires width > 0 && Holds(operand, env, n)
    ensures var r := Eval(EmitDecode(operand, |n|, width), env);
      r.Some? && r.value.Vec? && |r.value.bits| == width && IsOneHot(r.value.bits, ToNat(n))
  {
    OneBits(width);
    FitsExactly(width, |n|);
    var one := UBits(1, width);
    var result := Binary(Shll, Literal(one), operand);
    Applied(Shll, Literal(one), operand, env, one, n);
    if MinBitCountUnsigned(width) <= |n| {
      var limit := UBits(width, |n|);
      Applied(GreaterThanEquals, operand, Literal(limit), env, n, limit);
      hide UBits, ToNat;
      Chosen(Binary(GreaterThanEquals, operand, Literal(limit)), Literal(Repeat(false, width)), result, env, ToNat(n) >= width);
    }
  }

  // ---------------------------------------------------------------------------
  // Bit-slice update
  // ---------------------------------------------------------------------------

  /** The update value at the width of what is updated. */
  function AdjustedUpdate(update: Expr, updateWidth: nat, width: nat): Expr {
    if updateWidth > width then Slice(update, width - 1, 0)
    else if updateWidth < width then Concat([Literal(Repeat(false, width - updateWidth)), update])
    else update
  }

  /** Ones where the update value has bits. */
  function UpdateOnes(updateWidth: nat, width: nat): (b: Bits)
    ensures |b| == width
  {
    if updateWidth < width then Repeat(true, updateWidth) + Repeat(false, width - updateWidth) else Repeat(true, width)
  }

  function UpdatedExpr(toUpdate: Expr, width: nat, start: Expr, update: Expr, updateWidth: nat): Expr {
    var mask := BitwiseNot(Binary(Shll, Literal(UpdateOnes(updateWidth, width)), start));
    Binary(BitwiseOr, Binary(Shll, AdjustedUpdate(update, updateWidth, width), start), Binary(BitwiseAnd, mask, toUpdate))
  }

  function BitSliceUpdate(toUpdate: Expr, width: nat, start: Expr, startWidth: nat, update: Expr, updateWidth: nat): Expr {
    var updated := UpdatedExpr(toUpdate, width, start, update, updateWidth);
    if MinBitCountUnsigned(width) > startWidth then updated
    else
      FitsExactly(width, startWidth);
      Ternary(Binary(GreaterThanEquals, start, Literal(UBits(width, startWidth))), toUpdate, updated)
  }

  /** The bits from `start` on are those of `u`, as far as it and the vector go; the others are those of `x`. */
  ghost predicate IsUpdated(x: Bits, start: nat, u: Bits, r: Bits) {
    |r| == |x| && forall i | 0 <= i < |x| :: r[i] == if start <= i < start + |u| then u[i - start] else x[i]
  }

  function Adjusted(u: Bits, width: nat): (b: Bits)
    ensures |b| == width
  {
    if |u| > width then u[..width] else u + Repeat(false, width - |u|)
  }

  lemma AdjustedMeans(update: Expr, width: nat, env: Env, u: Bits)
    requires width > 0 && Holds(update, env, u)
    ensures Eval(AdjustedUpdate(update, |u|, width), env) == Some(Vec(Adjusted(u, width)))
  {
    if |u| < width {
      var zeros := Repeat(false, width - |u|);
      EvalOne(Literal(zeros), env);
      EvalOne(update, env);
      EvalAllAppends([Literal(zeros)], [update], env);
      assert [Literal(zeros), update] == [Literal(zeros)] + [update];
      JoinedTwo(zeros, u);
    } else if |u| == width {
      assert u + Repeat(false, 0) == u;
    }
  }

  lemma MergedBits(x: Bits, s: nat, u: Bits)
    requires s < |x|
    ensures var w := |x|;
      IsUpdated(x, s, u, Or(ShiftLeft(Adjusted(u, w), s), And(Invert(ShiftLeft(UpdateOnes(|u|, w), s)), x)))
  {
    var w := |x|;
    var put, ones := ShiftLeft(Adjusted(u, w), s), ShiftLeft(UpdateOnes(|u|, w), s);
    forall i | 0 <= i < w
      ensures put[i] == (s <= i < s + |u| && u[i - s]) && ones[i] == (s <= i < s + |u|)
    {
      if i >= s {
        assert put[i] == Adjusted(u, w)[i - s] && ones[i] == UpdateOnes(|u|, w)[i - s];
      }
    }
  }

  lemma LiteralMeans(bits: Bits, env: Env)
    requires bits != []
    ensures Eval(Literal(bits), env) == Some(Vec(bits))
  {
  }

  lemma Inverted(e: Expr, env: Env, bits: Bits)
    requires Eval(e, env) == Some(Vec(bits))
    ensures Eval(BitwiseNot(e), env) == Some(Vec(Invert(bits)))
  {
  }

  lemma NotApplied(op: BinaryOp, x: Expr, y: Expr, env: Env)
    requires Eval(x, env) == None
    ensures Eval(Binary(op, x, y), env) == None
  {
  }

  lemma UpdatedExprMeans(toUpdate: Expr, start: Expr, update: Expr, env: Env, x: Bits, s: Bits, u: Bits)
    requires Holds(toUpdate, env, x) && Holds(start, env, s) && Holds(update, env, u)
    ensures var r := Eval(UpdatedExpr(toUpdate, |x|, start, update, |u|), env);
      if ToNat(s) < |x| then r.Some? && r.value.Vec? && IsUpdated(x, ToNat(s), u, r.value.bits) else r == None
  {
    hide Eval, ToNat, Invert, And, Or, ShiftLeft, Adjusted, UpdateOnes, AdjustedUpdate, IsUpdated;
    var w, ones := |x|, UpdateOnes(|u|, |x|);
    LiteralMeans(ones, env);
    var put, shiftedOnes := Binary(Shll, AdjustedUpdate(update, |u|, w), start), Binary(Shll, Literal(ones), start);
    AdjustedMeans(update, w, env, u);
    Applied(Shll, AdjustedUpdate(update, |u|, w), start, env, Adjusted(u, w), s);
    Applied(Shll, Literal(ones), start, env, ones, s);
    if ToNat(s) < w {
      var k := ToNat(s);
      var mask := Invert(ShiftLeft(ones, k));
      Inverted(shiftedOnes, env, ShiftLeft(ones, k));
      Applied(BitwiseAnd, BitwiseNot(shiftedOnes), toUpdate, env, mask, x);
      Applied(BitwiseOr, put, Binary(BitwiseAnd, BitwiseNot(shiftedOnes), toUpdate), env, ShiftLeft(Adjusted(u, w), k), And(mask, x));
      MergedBits(x, k, u);
    } else {
      NotApplied(BitwiseOr, put, Binary(BitwiseAnd, BitwiseNot(shiftedOnes), toUpdate), env);
    }
  }

  /** The lowered bit-slice update is the update, for every start. */
  lemma BitSliceUpdateMeans(toUpdate: Expr, start: Expr, update: Expr, env: Env, x: Bits, s: Bits, u: Bits)
    requires Holds(toUpdate, env, x) && Holds(start, env, s) && Holds(update, env, u)
    ensures var r := Eval(BitSliceUpdate(toUpdate, |x|, start, |s|, update, |u|), env);
      r.Some? && r.value.Vec? && IsUpdated(x, ToNat(s), u, r.value.bits)
  {
    UpdatedExprMeans(toUpdate, start, update, env, x, s, u);
    FitsExactly(|x|, |s|);
    if MinBitCountUnsigned(|x|) <= |s| {
      var limit := UBits(|x|, |s|);
      Applied(GreaterThanEquals, start, Literal(limit), env, s, limit);
      hide UpdatedExpr, UBits, ToNat, Pow2;
      Chosen(Binary(GreaterThanEquals, start, Literal(limit)), toUpdate, UpdatedExpr(toUpdate, |x|, start, update, |u|), env,
             ToNat(s) >= |x|);
    }
  }
}
