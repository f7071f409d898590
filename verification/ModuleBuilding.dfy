/**
 Emission of array-typed operations as assignments to the parts of a variable, as in
 xls/codegen/module_builder.cc, and array indexing as in xls/codegen/node_expressions.cc.
 */
module ModuleBuilding {
  import opened ArrayLowering
  import opened Collections
  import opened Flattening
  import opened IrValues
  import opened Options
  import opened Verilog
  import opened Words

  // ---------------------------------------------------------------------------
  // Array index
  // ---------------------------------------------------------------------------

  function Min(x: int, y: int): int {
    if x < y then x else y
  }

  /** The index, with a clamp unless it cannot be out of bounds. */
  function ClampIndex(index: IndexType, size: nat, check: bool): Expr
    requires size > 0
  {
    if !check || MinBitCountUnsigned(size) > index.width then index.expression
    else if index.expression.Literal? && ToNat(index.expression.bits) < size then index.expression
    else
      FitsExactly(size, index.width);
      var maxIndex := Literal(UBits(size - 1, index.width));
      Ternary(Binary(GreaterThan, index.expression, maxIndex), maxIndex, index.expression)
  }

  lemma ClampIndexMeans(index: IndexType, size: nat, check: bool, env: Env)
    requires size > 0 && IndexHolds(index, env)
    ensures var x, i := Eval(ClampIndex(index, size, check), env), IndexValue(index, env);
      x.Some? && x.value.Vec? && ToNat(x.value.bits) == if check then Min(i, size - 1) else i
  {
    FitsExactly(size, index.width);
    if size < Pow2(index.width) {
      var e, maxIndex := index.expression, UBits(size - 1, index.width);
      Applied(GreaterThan, e, Literal(maxIndex), env, Eval(e, env).value.bits, maxIndex);
      Chosen(Binary(GreaterThan, e, Literal(maxIndex)), Literal(maxIndex), e, env, IndexValue(index, env) > size - 1);
    }
  }

  /** Selecting with indices clamped to the last element. */
  /** With the check, an index is emitted as it is exactly where its width cannot reach the size or it is a literal below it. */
  lemma ClampedExactly(index: IndexType, size: nat)
    requires size > 0
    ensures ClampIndex(index, size, true) == index.expression <==>
              || Pow2(index.width) <= size
              || (index.expression.Literal? && ToNat(index.expression.bits) < size)
  {
    FitsExactly(size, index.width);
    if size < Pow2(index.width) {
      var maxIndex := Literal(UBits(size - 1, index.width));
      assert index.expression < Ternary(Binary(GreaterThan, index.expression, maxIndex), maxIndex, index.expression);
    }
  }

  function Clamped(v: Value, at: seq<nat>): Value {
    if at == [] || !v.ArrayValue? || v.elements == [] then v
    else Clamped(v.elements[Min(at[0], |v.elements| - 1)], at[1..])
  }

  predicate InBounds(v: Value, at: seq<nat>) {
    at == [] || (v.ArrayValue? && at[0] < |v.elements| && InBounds(v.elements[at[0]], at[1..]))
  }

  /** Every level that is indexed is an array that has elements. */
  predicate Selectable(t: Type, indices: nat) {
    indices == 0 || (t.ArrayType? && t.size > 0 && Selectable(t.element, indices - 1))
  }

  function Indexed(subject: Expr, indices: seq<IndexType>, t: Type, check: bool): Expr
    requires Selectable(t, |indices|)
    decreases |indices|
  {
    if indices == [] then subject
    else Indexed(Index(subject, ClampIndex(indices[0], t.size, check)), indices[1..], t.element, check)
  }

  lemma {:induction false} IndexedNothing(subject: Expr, indices: seq<IndexType>, t: Type, check: bool, env: Env)
    requires Selectable(t, |indices|) && Eval(subject, env) == None
    ensures Eval(Indexed(subject, indices, t, check), env) == None
    decreases |indices|
  {
    if indices != [] {
      IndexedNothing(Index(subject, ClampIndex(indices[0], t.size, check)), indices[1..], t.element, check, env);
    }
  }

  lemma {:induction false} IndexedMeans(subject: Expr, indices: seq<IndexType>, t: Type, check: bool, env: Env, v: Value)
    requires Selectable(t, |indices|) && IndicesHold(indices, env)
    requires HasType(v, t) && Eval(subject, env) == Some(Represented(v))
    ensures var at := IndexValues(indices, env);
      Eval(Indexed(subject, indices, t, check), env)
      == if check || InBounds(v, at) then Some(Represented(Clamped(v, at))) else None
    decreases |indices|
  {
    hide Eval, Represented, HasType, ClampIndex, IndexHolds, IndexValue;
    if indices != [] {
      var i := IndexValue(indices[0], env);
      var next := Index(subject, ClampIndex(indices[0], t.size, check));
      var at := IndexValues(indices, env);
      assert at[0] == i && at[1..] == IndexValues(indices[1..], env);
      IndexStep(subject, indices[0], t, check, env, v);
      if check || i < t.size {
        IndexedMeans(next, indices[1..], t.element, check, env, v.elements[Min(i, t.size - 1)]);
      } else {
        IndexedNothing(next, indices[1..], t.element, check, env);
      }
    }
  }

  lemma IndexStep(subject: Expr, index: IndexType, t: Type, check: bool, env: Env, v: Value)
    requires t.ArrayType? && t.size > 0 && IndexHolds(index, env)
    requires HasType(v, t) && Eval(subject, env) == Some(Represented(v))
    ensures v.ArrayValue? && |v.elements| == t.size
    ensures var i, next := IndexValue(index, env), Eval(Index(subject, ClampIndex(index, t.size, check)), env);
      if check || i < t.size then
        HasType(v.elements[Min(i, t.size - 1)], t.element) && next == Some(Represented(v.elements[Min(i, t.size - 1)]))
      else next == None
  {
    ClampIndexMeans(index, t.size, check, env);
    var i := IndexValue(index, env);
    hide ClampIndex;
    if check || i < t.size {
      ElementAt(subject, ClampIndex(index, t.size, check), t, env, v, Min(i, t.size - 1));
    }
  }

  /** With bounds checking, the element that the clamped indices select; without it, that element exactly when no index
      is out of bounds, and nothing otherwise. */
  method ArrayIndexExpression(subject: Expr, indices: seq<IndexType>, t: Type, check: bool) returns (value: Expr)
    requires Selectable(t, |indices|)
    ensures forall env: Env, v | HasType(v, t) && Eval(subject, env) == Some(Represented(v)) && IndicesHold(indices, env) ::
              var at := IndexValues(indices, env);
              Eval(value, env) == if check || InBounds(v, at) then Some(Represented(Clamped(v, at))) else None
  {
    value := subject;
    var elementType := t;
    for i := 0 to |indices|
      invariant Selectable(elementType, |indices| - i)
      invariant Indexed(value, indices[i..], elementType, check) == Indexed(subject, indices, t, check)
    {
      assert indices[i..][0] == indices[i] && indices[i..][1..] == indices[i + 1..];
      value := Index(value, ClampIndex(indices[i], elementType.size, check));
      elementType := elementType.element;
    }
    forall env: Env, v | HasType(v, t) && Eval(subject, env) == Some(Represented(v)) && IndicesHold(indices, env)
      ensures var at := IndexValues(indices, env);
        Eval(value, env) == if check || InBounds(v, at) then Some(Represented(Clamped(v, at))) else None
    {
      IndexedMeans(subject, indices, t, check, env, v);
    }
  }

  // ---------------------------------------------------------------------------
  // Array slice
  // ---------------------------------------------------------------------------

  /** The start, extended to hold the greatest index. */
  function ExtendedStart(start: IndexType, size: nat): IndexType
    requires size > 0
  {
    var minIndexWidth := MinBitCountUnsigned(size - 1);
    if start.width < minIndexWidth then
      IndexType(Concat([Literal(Repeat(false, minIndexWidth - start.width)), start.expression]), minIndexWidth)
    else start
  }

  lemma ExtendedStartMeans(start: IndexType, size: nat, env: Env)
    requires size > 0 && IndexHolds(start, env)
    ensures IndexHolds(ExtendedStart(start, size), env)
    ensures IndexValue(ExtendedStart(start, size), env) == IndexValue(start, env)
  {
    var w := MinBitCountUnsigned(size - 1);
    if start.width < w {
      var zeros, bits := Repeat(false, w - start.width), Eval(start.expression, env).value.bits;
      var args := [Literal(zeros), start.expression];
      EvalOne(Literal(zeros), env);
      EvalOne(start.expression, env);
      EvalAllAppends([Literal(zeros)], [start.expression], env);
      assert args == [Literal(zeros)] + [start.expression];
      JoinedTwo(zeros, bits);
      ToNatJoins(bits, zeros);
      ZerosAreZero(w - start.width);
    }
  }

  /** The extended start holds the greatest index. */
  lemma ExtendedStartFits(start: IndexType, size: nat)
    requires size > 0
    ensures size - 1 < Pow2(ExtendedStart(start, size).width)
  {
    var w := MinBitCountUnsigned(size - 1);
    FitsExactly(size - 1, w);
    Pow2Grows(w, ExtendedStart(start, size).width);
  }

  /** The index of element `i` of a slice that starts at `start`, which has been extended. */
  function SliceIndex(start: IndexType, size: nat, i: nat): Expr
    requires size > 0 && size - 1 < Pow2(start.width)
  {
    var maxIndex := Literal(UBits(size - 1, start.width));
    if size - 1 - i < 0 then maxIndex
    else
      var outOfBounds := Binary(GreaterThan, start.expression, Literal(UBits(size - 1 - i, start.width)));
      Ternary(outOfBounds, maxIndex, Binary(Add, start.expression, Literal(UBits(i, start.width))))
  }

  /** The index never wraps. */
  lemma SliceIndexMeans(start: IndexType, size: nat, i: nat, env: Env)
    requires size > 0 && size - 1 < Pow2(start.width) && IndexHolds(start, env)
    ensures var x := Eval(SliceIndex(start, size, i), env);
      x.Some? && x.value.Vec? && ToNat(x.value.bits) == Min(IndexValue(start, env) + i, size - 1)
  {
    if i < size {
      var bits, w := Eval(start.expression, env).value.bits, start.width;
      var maxIndex, limit, offset := UBits(size - 1, w), UBits(size - 1 - i, w), UBits(i, w);
      var test, sum := Binary(GreaterThan, start.expression, Literal(limit)), Binary(Add, start.expression, Literal(offset));
      Applied(GreaterThan, start.expression, Literal(limit), env, bits, limit);
      Applied(Add, start.expression, Literal(offset), env, bits, offset);
      Chosen(test, Literal(maxIndex), sum, env, ToNat(bits) > size - 1 - i);
      assert Eval(Literal(maxIndex), env) == Some(Vec(maxIndex));
      hide Eval, ToNat, UBits, Pow2;
      if ToNat(bits) + i < size {
        Unwrapped(ToNat(bits) + i, Pow2(w));
      }
    }
  }

  lemma Unwrapped(x: nat, m: nat)
    requires x < m
    ensures x % m == x
  {
  }

  lemma ElementAt(subject: Expr, index: Expr, t: Type, env: Env, v: Value, i: nat)
    requires t.ArrayType? && i < t.size && HasType(v, t) && Eval(subject, env) == Some(Represented(v))
    requires var x := Eval(index, env); x.Some? && x.value.Vec? && ToNat(x.value.bits) == i
    ensures v.ArrayValue? && i < |v.elements| && Eval(Index(subject, index), env) == Some(Represented(v.elements[i]))
  {
    RepresentedElement(v, t, i);
  }

  /** What a slice means: past the end it repeats the last element. */
  ghost function Sliced(v: Value, start: nat, width: nat): (u: Value)
    ensures u.ArrayValue? && |u.elements| == width
  {
    ArrayValue(seq(width, i requires 0 <= i < width =>
      if v.ArrayValue? && v.elements != [] then v.elements[Min(start + i, |v.elements| - 1)] else v))
  }

  predicate Sliceable(t: Type, start: IndexType) {
    t.ArrayType? && t.size > 0 && t.size - 1 < Pow2(start.width)
  }

  function SliceCopies(whole: bool, subject: Expr, start: IndexType, t: Type, n: nat): seq<Assignment>
    requires Sliceable(t, start)
  {
    if n == 0 then []
    else
      SliceCopies(whole, subject, start, t, n - 1)
      + Generated(whole, t.element, [n - 1], [Index(subject, SliceIndex(start, t.size, n - 1))], Copy())
  }

  /** `subject` holds `v` and the start holds `s`. */
  ghost predicate HoldsForSlice(subject: Expr, start: IndexType, t: Type, env: Env, v: Value, s: nat) {
    && HasType(v, t) && Eval(subject, env) == Some(Represented(v))
    && IndexHolds(start, env) && IndexValue(start, env) == s
  }

  lemma SlicedHasType(subject: Expr, start: IndexType, t: Type, env: Env, v: Value, s: nat, width: nat)
    requires Sliceable(t, start) && HoldsForSlice(subject, start, t, env, v, s)
    ensures HasType(Sliced(v, s, width), ArrayType(t.element, width))
  {
    hide Eval, Represented, Pow2;
    var u := Sliced(v, s, width);
    forall x | x in u.elements
      ensures HasType(x, t.element)
    {
      var i :| 0 <= i < |u.elements| && u.elements[i] == x;
      assert x == v.elements[Min(s + i, |v.elements| - 1)];
    }
  }

  lemma SliceYields(whole: bool, subject: Expr, start: IndexType, t: Type, width: nat, i: nat, env: Env, v: Value, s: nat)
    requires Sliceable(t, start) && HoldsForSlice(subject, start, t, env, v, s) && i < width
    ensures Yields(whole, Copy(), [Index(subject, SliceIndex(start, t.size, i))], env, t.element,
                   Sliced(v, s, width).elements[i])
  {
    hide Represented, Eval, SliceIndex, Pow2, UBits, ToNat, Yields;
    SliceIndexMeans(start, t.size, i, env);
    ElementAt(subject, SliceIndex(start, t.size, i), t, env, v, Min(s + i, t.size - 1));
    SlicedHasType(subject, start, t, env, v, s, width);
    assert HasType(Sliced(v, s, width).elements[i], t.element);
    CopyYields(whole, Index(subject, SliceIndex(start, t.size, i)), env, t.element, Sliced(v, s, width).elements[i]);
  }

  lemma {:induction false} SliceCopiesDrive(whole: bool, subject: Expr, start: IndexType, t: Type, width: nat, n: nat,
                                            env: Env, v: Value, s: nat)
    requires Sliceable(t, start) && HoldsForSlice(subject, start, t, env, v, s) && n <= width
    ensures DrivesFirst(SliceCopies(whole, subject, start, t, n), [], ArrayType(t.element, width), n, env,
                        Represented(Sliced(v, s, width)))
  {
    hide HoldsForSlice, Yields, Drives, DrivesFirst, Represented, HasType, Eval, SliceIndex, Generated, Sliced, Pow2, UBits;
    var out, u := ArrayType(t.element, width), Sliced(v, s, width);
    SlicedHasType(subject, start, t, env, v, s, width);
    if n == 0 {
      DrivesNone([], out, env, Represented(u));
    } else {
      var i := n - 1;
      var source := Index(subject, SliceIndex(start, t.size, i));
      SliceCopiesDrive(whole, subject, start, t, width, i, env, v, s);
      SliceYields(whole, subject, start, t, width, i, env, v, s);
      RepresentedElement(u, out, i);
      GeneratedDrives(whole, t.element, [i], [source], Copy(), env, u.elements[i]);
      assert [] + [i] == [i];
      DrivesNext(SliceCopies(whole, subject, start, t, i), Generated(whole, t.element, [i], [source], Copy()), [], out, i, env,
                 Represented(u));
    }
  }

  // ---------------------------------------------------------------------------
  // Slices of a vector
  // ---------------------------------------------------------------------------

  function SliceAssignments(lhs: Path, rhs: Expr, t: Type, start: nat): seq<Assignment>
    decreases t, 0
  {
    if t.ArrayType? then SliceAssignmentsFirst(lhs, rhs, t, start, t.size)
    else [Assignment(lhs, Slice(rhs, start + FlatBitCount(t) - 1, start))]
  }

  function SliceAssignmentsFirst(lhs: Path, rhs: Expr, t: Type, start: nat, n: nat): seq<Assignment>
    requires t.ArrayType? && n <= t.size
    decreases t.element, 1, n
  {
    if n == 0 then []
    else
      SliceAssignmentsFirst(lhs, rhs, t, start, n - 1)
      + SliceAssignments(lhs + [n - 1], rhs, t.element, start + ElementStart(t, n - 1))
  }

  /** Unflattening a vector into a variable drives each leaf of the variable exactly once. */
  lemma {:induction false} SliceAssignmentsDrive(lhs: Path, rhs: Expr, t: Type, start: nat, env: Env, v: Value)
    requires FlatBitCount(t) > 0 && HasType(v, t) && HoldsAt(rhs, env, start, v)
    ensures Drives(SliceAssignments(lhs, rhs, t, start), lhs, t, env, Represented(v))
    decreases t, 0
  {
    if t.ArrayType? {
      SliceAssignmentsFirstDrive(lhs, rhs, t, start, t.size, env, v);
      DrivesAll(SliceAssignments(lhs, rhs, t, start), lhs, t, env, Represented(v));
    } else {
      SliceUnflattens(start, rhs, t);
      DrivesWhole(lhs, Slice(rhs, start + FlatBitCount(t) - 1, start), t, env, v);
    }
  }

  lemma {:induction false} SliceAssignmentsFirstDrive(lhs: Path, rhs: Expr, t: Type, start: nat, n: nat, env: Env, v: Value)
    requires t.ArrayType? && n <= t.size && FlatBitCount(t) > 0 && HasType(v, t) && HoldsAt(rhs, env, start, v)
    ensures DrivesFirst(SliceAssignmentsFirst(lhs, rhs, t, start, n), lhs, t, n, env, Represented(v))
    decreases t.element, 1, n
  {
    hide Drives, DrivesFirst, Represented, HasType, HoldsAt, FlatBitCount, SliceAssignments, ElementStart, Flat, Eval;
    ArrayHasElements(v, t);
    if n == 0 {
      DrivesNone(lhs, t, env, Represented(v));
    } else {
      SliceAssignmentsFirstDrive(lhs, rhs, t, start, n - 1, env, v);
      PositiveWidthArray(t);
      ElementHeld(start, rhs, env, v, t, n - 1);
      SliceAssignmentsDrive(lhs + [n - 1], rhs, t.element, start + ElementStart(t, n - 1), env, v.elements[n - 1]);
      RepresentedElement(v, t, n - 1);
      DrivesNext(SliceAssignmentsFirst(lhs, rhs, t, start, n - 1),
                 SliceAssignments(lhs + [n - 1], rhs, t.element, start + ElementStart(t, n - 1)),
                 lhs, t, n - 1, env, Represented(v));
    }
  }

  // ---------------------------------------------------------------------------
  // Constants
  // ---------------------------------------------------------------------------

  ghost predicate DrivesAlways(assignments: seq<Assignment>, base: Path, t: Type, x: Data) {
    forall env: Env :: Drives(assignments, base, t, env, x)
  }

  ghost predicate DrivesFirstAlways(assignments: seq<Assignment>, base: Path, t: Type, n: nat, x: Data)
    requires t.ArrayType? && n <= t.size
  {
    forall env: Env :: DrivesFirst(assignments, base, t, n, env, x)
  }

  lemma ConstantDrivesWhole(base: Path, rhs: Expr, t: Type, v: Value)
    requires HasType(v, t) && Denotes(rhs, Represented(v))
    ensures DrivesAlways([Assignment(base, rhs)], base, t, Represented(v))
  {
    forall env: Env
      ensures Drives([Assignment(base, rhs)], base, t, env, Represented(v))
    {
      DrivesWhole(base, rhs, t, env, v);
    }
  }

  lemma ConstantDrivesNone(base: Path, t: Type, x: Data)
    requires t.ArrayType?
    ensures DrivesFirstAlways([], base, t, 0, x)
  {
  }

  lemma ConstantDrivesNext(before: seq<Assignment>, more: seq<Assignment>, base: Path, t: Type, n: nat, v: Value)
    requires t.ArrayType? && n < t.size && HasType(v, t) && DrivesFirstAlways(before, base, t, n, Represented(v))
    requires DrivesAlways(more, base + [n], t.element, Represented(v.elements[n]))
    ensures DrivesFirstAlways(before + more, base, t, n + 1, Represented(v))
  {
    hide Drives, DrivesFirst;
    var all, k, x := before + more, n + 1, Represented(v);
    forall env: Env
      ensures DrivesFirst(all, base, t, k, env, x)
    {
      RepresentedElement(v, t, n);
      DrivesNext(before, more, base, t, n, env, Represented(v));
    }
  }

  lemma ConstantDrivesAll(assignments: seq<Assignment>, base: Path, t: Type, x: Data)
    requires t.ArrayType? && DrivesFirstAlways(assignments, base, t, t.size, x)
    ensures DrivesAlways(assignments, base, t, x)
  {
    forall env: Env
      ensures Drives(assignments, base, t, env, x)
    {
      DrivesAll(assignments, base, t, env, x);
    }
  }

  /** `rhs` holds `v`, the indices hold `at` and `update` holds `x`. */
  ghost predicate HoldsForUpdate(rhs: Expr, update: Expr, indices: seq<IndexType>, t: Type, env: Env, v: Value, at: seq<nat>,
                                 x: Value)
    requires Indexable(t, |indices|)
  {
    && HasType(v, t) && Eval(rhs, env) == Some(Represented(v))
    && HasType(x, Target(t, |indices|)) && Eval(update, env) == Some(Represented(x))
    && IndicesHold(indices, env) && IndexValues(indices, env) == at
  }

  lemma UpdateDrives(whole: bool, lhs: Path, rhs: Expr, update: Expr, indices: seq<IndexType>, m: IndexMatch, t: Type,
                     env: Env, v: Value, at: seq<nat>, x: Value, matches: bool)
    requires Indexable(t, |indices|) && HoldsForUpdate(rhs, update, indices, t, env, v, at, x) && MatchMeans(m, env, matches)
    ensures Drives(CopyAndUpdate(whole, lhs, rhs, update, indices, m, t), lhs, t, env,
                   Represented(if matches then Updated(v, at, x) else v))
  {
    hide Drives, MatchMeans, Represented, Updated, CopyAndUpdate, Eval, HasType;
    CopyAndUpdateDrives(whole, lhs, rhs, update, indices, m, t, env, v, x, matches);
  }

  lemma OneLeaf(lhs: Path, rhs: Expr, t: Type)
    requires !t.ArrayType?
    ensures LeavesOnly([Assignment(lhs, rhs)], lhs, t)
  {
  }

  lemma {:induction false} SliceCopiesLeaves(subject: Expr, start: IndexType, t: Type, width: nat, n: nat)
    requires Sliceable(t, start) && n <= width
    ensures LeavesOnly(SliceCopies(false, subject, start, t, n), [], ArrayType(t.element, width))
  {
    hide LeavesOnly, Generated, SliceIndex, Pow2;
    var out := ArrayType(t.element, width);
    if n == 0 {
      NoLeaves([], out);
    } else {
      var source := [Index(subject, SliceIndex(start, t.size, n - 1))];
      SliceCopiesLeaves(subject, start, t, width, n - 1);
      GeneratedLeaves(false, t.element, [n - 1], source, Copy());
      assert [] + [n - 1] == [n - 1];
      LeavesOfElement(SliceCopies(false, subject, start, t, n - 1), Generated(false, t.element, [n - 1], source, Copy()),
                      [], out, n - 1);
    }
  }

  // ---------------------------------------------------------------------------
  // The builder
  // ---------------------------------------------------------------------------

  /** The assignments of one variable, in the order of emission. */
  class ModuleBuilder {
    const useSystemVerilog: bool
    var assignments: seq<Assignment>

    constructor (useSystemVerilog: bool)
      ensures this.useSystemVerilog == useSystemVerilog && assignments == []
    {
      this.useSystemVerilog := useSystemVerilog;
      assignments := [];
    }

    method AddAssignmentToGeneratedExpression(t: Type, lhs: Path, inputs: seq<Expr>, g: Generator, svArrayExpr: bool)
      modifies this
      ensures assignments == old(assignments) + Generated(useSystemVerilog && svArrayExpr, t, lhs, inputs, g)
      ensures forall env: Env, v | Yields(useSystemVerilog && svArrayExpr, g, inputs, env, t, v) ::
                Drives(assignments[|old(assignments)|..], lhs, t, env, Represented(v))
      ensures !useSystemVerilog || !svArrayExpr ==> LeavesOnly(assignments[|old(assignments)|..], lhs, t)
      ensures useSystemVerilog && svArrayExpr ==> assignments == old(assignments) + [Assignment(lhs, g(inputs))]
      decreases t
    {
      hide Yields, Drives, Represented, LeavesOnly;
      GeneratedLeaves(useSystemVerilog && svArrayExpr, t, lhs, inputs, g);
      var whole := useSystemVerilog && svArrayExpr;
      if t.ArrayType? && !whole {
        for i := 0 to t.size
          invariant assignments == old(assignments) + GeneratedFirst(whole, t, lhs, inputs, g, i)
        {
          AddAssignmentToGeneratedExpression(t.element, lhs + [i], IndexEach(inputs, i), g, svArrayExpr);
        }
      } else {
        assignments := assignments + [Assignment(lhs, g(inputs))];
      }
      assert assignments[|old(assignments)|..] == Generated(whole, t, lhs, inputs, g);
      forall env: Env, v | Yields(whole, g, inputs, env, t, v)
        ensures Drives(assignments[|old(assignments)|..], lhs, t, env, Represented(v))
      {
        GeneratedDrives(whole, t, lhs, inputs, g, env, v);
      }
    }

    method AddAssignment(t: Type, lhs: Path, rhs: Expr)
      modifies this
      ensures assignments == old(assignments) + Generated(useSystemVerilog, t, lhs, [rhs], Copy())
      ensures forall env: Env, v | HasType(v, t) && Eval(rhs, env) == Some(Represented(v)) ::
                Drives(assignments[|old(assignments)|..], lhs, t, env, Represented(v))
      ensures !useSystemVerilog ==> LeavesOnly(assignments[|old(assignments)|..], lhs, t)
    {
      hide Yields, Drives, Represented, HasType, Eval, LeavesOnly;
      AddAssignmentToGeneratedExpression(t, lhs, [rhs], Copy(), true);
      forall env: Env, v | HasType(v, t) && Eval(rhs, env) == Some(Represented(v))
        ensures Drives(assignments[|old(assignments)|..], lhs, t, env, Represented(v))
      {
        CopyYields(useSystemVerilog, rhs, env, t, v);
      }
    }

    method EmitArrayCopyAndUpdate(lhs: Path, rhs: Expr, update: Expr, indices: seq<IndexType>, m: IndexMatch, t: Type)
      requires Indexable(t, |indices|)
      modifies this
      ensures assignments == old(assignments) + CopyAndUpdate(useSystemVerilog, lhs, rhs, update, indices, m, t)
      ensures forall env: Env, v, at, x, matches
                | HoldsForUpdate(rhs, update, indices, t, env, v, at, x) && MatchMeans(m, env, matches) ::
                Drives(assignments[|old(assignments)|..], lhs, t, env, Represented(if matches then Updated(v, at, x) else v))
      ensures !useSystemVerilog ==> LeavesOnly(assignments[|old(assignments)|..], lhs, t)
      decreases |indices|
    {
      hide LeavesOnly, CopyAndUpdate, Generated, MatchIndex, HoldsForUpdate, Drives, MatchMeans, Represented, Updated;
      forall env: Env, v, at, x, matches
        | HoldsForUpdate(rhs, update, indices, t, env, v, at, x) && MatchMeans(m, env, matches)
        ensures Drives(CopyAndUpdate(useSystemVerilog, lhs, rhs, update, indices, m, t), lhs, t, env,
                       Represented(if matches then Updated(v, at, x) else v))
      {
        UpdateDrives(useSystemVerilog, lhs, rhs, update, indices, m, t, env, v, at, x, matches);
      }
      EmitArrayCopies(lhs, rhs, update, indices, m, t);
      assert assignments[|old(assignments)|..] == CopyAndUpdate(useSystemVerilog, lhs, rhs, update, indices, m, t);
      CopyAndUpdateLeaves(lhs, rhs, update, indices, m, t);
    }

    /** The recursion over elements and indices. */
    method EmitArrayCopies(lhs: Path, rhs: Expr, update: Expr, indices: seq<IndexType>, m: IndexMatch, t: Type)
      requires Indexable(t, |indices|)
      modifies this
      ensures assignments == old(assignments) + CopyAndUpdate(useSystemVerilog, lhs, rhs, update, indices, m, t)
      decreases |indices|
    {
      hide Generated, MatchIndex, Drives, Represented, HasType, Eval, Yields;
      if indices == [] {
        if m == Known(true) {
          AddAssignment(t, lhs, update);
        } else if m == Known(false) {
          AddAssignment(t, lhs, rhs);
        } else {
          AddAssignmentToGeneratedExpression(t, lhs, [update, rhs], Choose(m.test), true);
        }
        return;
      }
      for i := 0 to t.size
        invariant assignments
               == old(assignments) + CopyAndUpdateFirst(useSystemVerilog, lhs, rhs, update, indices, m, t, i)
      {
        var current := MatchIndex(indices[0], i);
        EmitArrayCopies(lhs + [i], IndexAt(rhs, i), update, indices[1..], CombineIndexMatches(current, m), t.element);
      }
    }

    /** An array update: every leaf of the variable is driven exactly once, with the functional update. */
    method EmitArrayUpdate(rhs: Expr, update: Expr, indices: seq<IndexType>, t: Type) returns (ghost added: seq<Assignment>)
      requires Indexable(t, |indices|)
      modifies this
      ensures assignments == old(assignments) + added
      ensures forall env: Env, v, at, x | HoldsForUpdate(rhs, update, indices, t, env, v, at, x) ::
                Drives(added, [], t, env, Represented(Updated(v, at, x)))
      ensures !useSystemVerilog ==> LeavesOnly(added, [], t)
    {
      hide Eval, Represented, HasType, Drives, CopyAndUpdate, IndexValues, Updated, LeavesOnly;
      CopyAndUpdateLeaves([], rhs, update, indices, Known(true), t);
      EmitArrayCopyAndUpdate([], rhs, update, indices, Known(true), t);
      added := CopyAndUpdate(useSystemVerilog, [], rhs, update, indices, Known(true), t);
      forall env: Env, v, at, x | HoldsForUpdate(rhs, update, indices, t, env, v, at, x)
        ensures Drives(added, [], t, env, Represented(Updated(v, at, x)))
      {
        UpdateDrives(useSystemVerilog, [], rhs, update, indices, Known(true), t, env, v, at, x, true);
      }
    }

    /** An array slice of `width` elements. */
    method EmitArraySlice(subject: Expr, start: IndexType, t: Type, width: nat) returns (ghost added: seq<Assignment>)
      requires t.ArrayType? && t.size > 0
      modifies this
      ensures assignments == old(assignments) + added
      ensures forall env: Env, v, s: nat | HoldsForSlice(subject, start, t, env, v, s) ::
                Drives(added, [], ArrayType(t.element, width), env, Represented(Sliced(v, s, width)))
      ensures !useSystemVerilog ==> LeavesOnly(added, [], ArrayType(t.element, width))
    {
      hide Eval, Represented, HasType, Drives, DrivesFirst, Generated, SliceIndex, Sliced, Pow2, UBits, ToNat, LeavesOnly;
      var extended := ExtendedStart(start, t.size);
      ExtendedStartFits(start, t.size);
      for i := 0 to width
        invariant assignments == old(assignments) + SliceCopies(useSystemVerilog, subject, extended, t, i)
      {
        AddAssignment(t.element, [i], Index(subject, SliceIndex(extended, t.size, i)));
      }
      added := SliceCopies(useSystemVerilog, subject, extended, t, width);
      SliceCopiesLeaves(subject, extended, t, width, width);
      forall env: Env, v, s: nat | HoldsForSlice(subject, start, t, env, v, s)
        ensures Drives(added, [], ArrayType(t.element, width), env, Represented(Sliced(v, s, width)))
      {
        ExtendedStartMeans(start, t.size, env);
        SliceCopiesDrive(useSystemVerilog, subject, extended, t, width, width, env, v, s);
        DrivesAll(added, [], ArrayType(t.element, width), env, Represented(Sliced(v, s, width)));
      }
    }

    /** A constant. It fails exactly when the constant has no bits. */
    method AddAssignmentFromValue(lhs: Path, value: Value, ghost t: Type) returns (ok: bool, ghost added: seq<Assignment>)
      requires HasType(value, t) && NoEmptyArrays(t)
      modifies this
      ensures assignments == old(assignments) + added
      ensures ok <==> FlatBitCount(t) > 0
      ensures ok ==> DrivesAlways(added, lhs, t, Represented(value))
      ensures ok && !useSystemVerilog ==> LeavesOnly(added, lhs, t)
      ensures ok && useSystemVerilog ==> |added| == 1
      decreases value
    {
      hide DrivesAlways, DrivesFirstAlways, Represented, Denotes, Flat, FlatBitCount, LeavesOnly;
      added := [];
      if value.ArrayValue? && !useSystemVerilog {
        PositiveWidthArray(t);
        ConstantDrivesNone(lhs, t, Represented(value));
        NoLeaves(lhs, t);
        for i := 0 to |value.elements|
          invariant assignments == old(assignments) + added && DrivesFirstAlways(added, lhs, t, i, Represented(value))
          invariant i > 0 ==> FlatBitCount(t.element) > 0
          invariant LeavesOnly(added, lhs, t)
        {
          ghost var more;
          ok, more := AddAssignmentFromValue(lhs + [i], value.elements[i], t.element);
          Associates(old(assignments), added, more);
          if !ok {
            return false, added + more;
          }
          ConstantDrivesNext(added, more, lhs, t, i, value);
          LeavesOfElement(added, more, lhs, t, i);
          added := added + more;
        }
        ConstantDrivesAll(added, lhs, t, Represented(value));
        return true, added;
      }
      var rhs;
      if value.ArrayValue? {
        rhs := ValueToArrayAssignmentPattern(value, t);
      } else {
        FlatLength(value, t);
        VectorRepresented(value);
        rhs := FlattenValueToExpression(value);
      }
      ok := rhs.Some?;
      if ok {
        ConstantDrivesWhole(lhs, rhs.value, t, value);
        if !useSystemVerilog {
          OneLeaf(lhs, rhs.value, t);
        }
        added := [Assignment(lhs, rhs.value)];
        assignments := assignments + [Assignment(lhs, rhs.value)];
      }
    }

    /** Unflattens a vector into a variable. */
    method AssignFromSlice(lhs: Path, rhs: Expr, t: Type, start: nat) returns (ghost added: seq<Assignment>)
      modifies this
      ensures assignments == old(assignments) + added && added == SliceAssignments(lhs, rhs, t, start)
      ensures FlatBitCount(t) > 0 ==>
                forall env: Env, v | HasType(v, t) && HoldsAt(rhs, env, start, v) :: Drives(added, lhs, t, env, Represented(v))
      decreases t
    {
      hide Drives, HasType, HoldsAt, Represented, FlatBitCount;
      if t.ArrayType? {
        for i := 0 to t.size
          invariant assignments == old(assignments) + SliceAssignmentsFirst(lhs, rhs, t, start, i)
        {
          ghost var more := AssignFromSlice(lhs + [i], rhs, t.element, start + ElementStart(t, i));
          Associates(old(assignments), SliceAssignmentsFirst(lhs, rhs, t, start, i), more);
        }
      } else {
        assignments := assignments + [Assignment(lhs, Slice(rhs, start + FlatBitCount(t) - 1, start))];
      }
      added := SliceAssignments(lhs, rhs, t, start);
      if FlatBitCount(t) > 0 {
        forall env: Env, v | HasType(v, t) && HoldsAt(rhs, env, start, v)
          ensures Drives(added, lhs, t, env, Represented(v))
        {
          SliceAssignmentsDrive(lhs, rhs, t, start, env, v);
        }
      }
    }
  }
}
