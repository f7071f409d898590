/**
 Lowering of array operations to Verilog, as in xls/codegen/module_builder.cc and
 xls/codegen/node_expressions.cc: a variable of an array type is driven by assignments to parts of
 it, and together they drive every leaf exactly once.
 */
module ArrayLowering {
  import opened Flattening
  import opened IrValues
  import opened Options
  import opened Verilog
  import opened Words

  // ---------------------------------------------------------------------------
  // Assignments
  // ---------------------------------------------------------------------------

  /** Constant indices into a variable. */
  type Path = seq<nat>

  /** Drives the part of a variable that a path leads to. */
  datatype Assignment = Assignment(path: Path, rhs: Expr)

  /** The paths to the vectors of a variable. */
  predicate IsLeaf(t: Type, p: Path) {
    if t.ArrayType? then p != [] && p[0] < t.size && IsLeaf(t.element, p[1..]) else p == []
  }

  /** The paths to the parts of a variable. */
  predicate IsPart(t: Type, p: Path) {
    p == [] || (t.ArrayType? && p[0] < t.size && IsPart(t.element, p[1..]))
  }

  function At(x: Data, p: Path): Option<Data> {
    if p == [] then Some(x)
    else if x.Unpacked? && p[0] < |x.elements| then At(x.elements[p[0]], p[1..])
    else None
  }

  /** How many of the assignments drive what `full` leads to. */
  function Drivers(assignments: seq<Assignment>, full: Path): nat {
    if assignments == [] then 0
    else (if assignments[0].path <= full then 1 else 0) + Drivers(assignments[1..], full)
  }

  /** The assignment drives `x` there. */
  predicate Puts(a: Assignment, full: Path, env: Env, x: Option<Data>) {
    a.path <= full ==>
      var y := Eval(a.rhs, env);
      x.Some? && y.Some? && At(y.value, full[|a.path|..]) == x
  }

  ghost predicate DrivenOnce(assignments: seq<Assignment>, full: Path, env: Env, x: Option<Data>) {
    Drivers(assignments, full) == 1 && forall a | a in assignments :: Puts(a, full, env, x)
  }

  /** The assignment drives a part of what `base`, of type `t`, leads to. */
  predicate Within(a: Assignment, base: Path, t: Type) {
    base <= a.path && IsPart(t, a.path[|base|..])
  }

  /** The assignments drive every leaf below `base` exactly once, with the leaf of `x`, and nothing else. */
  ghost predicate Drives(assignments: seq<Assignment>, base: Path, t: Type, env: Env, x: Data) {
    && (forall a | a in assignments :: Within(a, base, t))
    && (forall p | IsLeaf(t, p) :: DrivenOnce(assignments, base + p, env, At(x, p)))
  }

  /** ... every leaf of the first `n` elements. */
  ghost predicate DrivesFirst(assignments: seq<Assignment>, base: Path, t: Type, n: nat, env: Env, x: Data)
    requires t.ArrayType? && n <= t.size
  {
    && (forall a | a in assignments :: |base| < |a.path| && a.path[|base|] < n && Within(a, base, t))
    && (forall p | IsLeaf(t, p) && p[0] < n :: DrivenOnce(assignments, base + p, env, At(x, p)))
  }

  lemma {:induction false} DriversAdd(a: seq<Assignment>, b: seq<Assignment>, full: Path)
    ensures Drivers(a + b, full) == Drivers(a, full) + Drivers(b, full)
  {
    if a == [] {
      assert a + b == b;
    } else {
      DriversAdd(a[1..], b, full);
      assert (a + b)[1..] == a[1..] + b;
    }
  }

  lemma {:induction false} NoDrivers(assignments: seq<Assignment>, full: Path)
    requires forall a | a in assignments :: !(a.path <= full)
    ensures Drivers(assignments, full) == 0
  {
    if assignments != [] {
      NoDrivers(assignments[1..], full);
    }
  }

  lemma {:induction false} LeafHasData(v: Value, t: Type, p: Path)
    requires HasType(v, t) && IsLeaf(t, p)
    ensures At(Represented(v), p).Some?
    decreases p
  {
    if t.ArrayType? {
      LeafHasData(v.elements[p[0]], t.element, p[1..]);
    }
  }

  /** One assignment drives a whole variable. */
  lemma DrivesWhole(base: Path, rhs: Expr, t: Type, env: Env, v: Value)
    requires HasType(v, t) && Eval(rhs, env) == Some(Represented(v))
    ensures Drives([Assignment(base, rhs)], base, t, env, Represented(v))
  {
    var all := [Assignment(base, rhs)];
    forall p | IsLeaf(t, p)
      ensures DrivenOnce(all, base + p, env, At(Represented(v), p))
    {
      LeafHasData(v, t, p);
      assert (base + p)[|base|..] == p && base <= base + p;
      assert all[1..] == [];
    }
  }

  lemma DrivesNone(base: Path, t: Type, env: Env, x: Data)
    requires t.ArrayType?
    ensures DrivesFirst([], base, t, 0, env, x)
  {
  }

  /** What drives element `n` drives nothing of another element. */
  lemma OtherElement(a: Assignment, base: Path, n: nat, p: Path)
    requires base + [n] <= a.path && p != [] && p[0] != n
    ensures !(a.path <= base + p)
  {
    assert a.path[|base|] == n && (base + p)[|base|] == p[0];
  }

  lemma NotElement(a: Assignment, base: Path, n: nat, p: Path)
    requires base <= a.path && |base| < |a.path| && a.path[|base|] != n
    ensures !(a.path <= base + [n] + p)
  {
    assert (base + [n] + p)[|base|] == n;
  }

  lemma DrivesNextOld(before: seq<Assignment>, more: seq<Assignment>, base: Path, t: Type, n: nat, env: Env, x: Data, p: Path)
    requires t.ArrayType? && n < t.size && DrivesFirst(before, base, t, n, env, x)
    requires forall a | a in more :: base + [n] <= a.path
    requires IsLeaf(t, p) && p[0] < n
    ensures DrivenOnce(before + more, base + p, env, At(x, p))
  {
    assert p != [];
    hide IsLeaf, IsPart, At, Eval;
    var full := base + p;
    assert DrivenOnce(before, full, env, At(x, p));
    forall a | a in more
      ensures !(a.path <= full)
    {
      OtherElement(a, base, n, p);
    }
    NoDrivers(more, full);
    DriversAdd(before, more, full);
  }

  lemma DrivesNextNew(before: seq<Assignment>, more: seq<Assignment>, base: Path, t: Type, n: nat, env: Env, x: Data, p: Path)
    requires t.ArrayType? && n < t.size && DrivesFirst(before, base, t, n, env, x)
    requires x.Unpacked? && n < |x.elements| && Drives(more, base + [n], t.element, env, x.elements[n])
    requires IsLeaf(t, p) && p[0] == n
    ensures DrivenOnce(before + more, base + p, env, At(x, p))
  {
    var full, inner := base + p, p[1..];
    assert full == base + [n] + inner;
    assert IsLeaf(t.element, inner) && At(x, p) == At(x.elements[n], inner);
    hide IsLeaf, IsPart, At, Eval;
    assert DrivenOnce(more, full, env, At(x, p));
    forall a | a in before
      ensures !(a.path <= full)
    {
      NotElement(a, base, n, inner);
    }
    NoDrivers(before, full);
    DriversAdd(before, more, full);
  }

  lemma WithinElement(a: Assignment, base: Path, t: Type, n: nat)
    requires t.ArrayType? && n < t.size && Within(a, base + [n], t.element)
    ensures |base| < |a.path| && a.path[|base|] == n && Within(a, base, t)
  {
    var rest := a.path[|base|..];
    assert a.path[|base|] == (base + [n])[|base|] == n;
    assert rest[0] == n && rest[1..] == a.path[|base + [n]|..];
    assert base <= a.path by {
      assert base <= base + [n];
    }
  }

  /** Driving the next element as well. */
  lemma DrivesNext(before: seq<Assignment>, more: seq<Assignment>, base: Path, t: Type, n: nat, env: Env, x: Data)
    requires t.ArrayType? && n < t.size && DrivesFirst(before, base, t, n, env, x)
    requires x.Unpacked? && n < |x.elements| && Drives(more, base + [n], t.element, env, x.elements[n])
    ensures DrivesFirst(before + more, base, t, n + 1, env, x)
  {
    hide IsPart, At, Eval, DrivenOnce;
    forall a | a in before + more
      ensures |base| < |a.path| && a.path[|base|] < n + 1 && Within(a, base, t)
    {
      if a in more {
        WithinElement(a, base, t, n);
      }
    }
    forall p | IsLeaf(t, p) && p[0] < n + 1
      ensures DrivenOnce(before + more, base + p, env, At(x, p))
    {
      if p[0] < n {
        DrivesNextOld(before, more, base, t, n, env, x, p);
      } else {
        DrivesNextNew(before, more, base, t, n, env, x, p);
      }
    }
  }

  lemma DrivesAll(assignments: seq<Assignment>, base: Path, t: Type, env: Env, x: Data)
    requires t.ArrayType? && DrivesFirst(assignments, base, t, t.size, env, x)
    ensures Drives(assignments, base, t, env, x)
  {
  }

  // ---------------------------------------------------------------------------
  // Assignments generated from inputs
  // ---------------------------------------------------------------------------

  /** Makes a right-hand side from inputs. */
  type Generator = seq<Expr> -> Expr

  /** The input itself. */
  function Copy(): Generator {
    inputs => if inputs == [] then Concat([]) else inputs[0]
  }

  /** The first input if the test is true, and the second otherwise. */
  function Choose(test: Expr): Generator {
    inputs => if |inputs| < 2 then Concat([]) else Ternary(test, inputs[0], inputs[1])
  }

  function IndexEach(inputs: seq<Expr>, i: nat): seq<Expr> {
    seq(|inputs|, k requires 0 <= k < |inputs| => IndexAt(inputs[k], i))
  }

  /** Whole arrays at once where the language has array assignments, and leaf by leaf otherwise. */
  function Generated(whole: bool, t: Type, lhs: Path, inputs: seq<Expr>, g: Generator): seq<Assignment>
    decreases t, 0
  {
    if t.ArrayType? && !whole then GeneratedFirst(whole, t, lhs, inputs, g, t.size)
    else [Assignment(lhs, g(inputs))]
  }

  function GeneratedFirst(whole: bool, t: Type, lhs: Path, inputs: seq<Expr>, g: Generator, n: nat): seq<Assignment>
    requires t.ArrayType? && n <= t.size
    decreases t.element, 1, n
  {
    if n == 0 then []
    else
      GeneratedFirst(whole, t, lhs, inputs, g, n - 1)
      + Generated(whole, t.element, lhs + [n - 1], IndexEach(inputs, n - 1), g)
  }

  /** The right-hand sides that are generated denote the parts of `v`. */
  ghost predicate Yields(whole: bool, g: Generator, inputs: seq<Expr>, env: Env, t: Type, v: Value)
    decreases t
  {
    && HasType(v, t)
    && if t.ArrayType? && !whole then
         forall i | 0 <= i < t.size :: Yields(whole, g, IndexEach(inputs, i), env, t.element, v.elements[i])
       else Eval(g(inputs), env) == Some(Represented(v))
  }

  lemma SameTypeSameShape(x: Value, y: Value, t: Type)
    requires HasType(x, t) && HasType(y, t)
    ensures SameShape(Represented(x), Represented(y))
  {
    FlatLength(x, t);
    FlatLength(y, t);
  }

  lemma {:induction false} CopyYields(whole: bool, rhs: Expr, env: Env, t: Type, v: Value)
    requires HasType(v, t) && Eval(rhs, env) == Some(Represented(v))
    ensures Yields(whole, Copy(), [rhs], env, t, v)
    decreases t
  {
    if t.ArrayType? && !whole {
      forall i | 0 <= i < t.size
        ensures Yields(whole, Copy(), IndexEach([rhs], i), env, t.element, v.elements[i])
      {
        ElementOf(rhs, env, v, t, i);
        assert IndexEach([rhs], i) == [IndexAt(rhs, i)];
        CopyYields(whole, IndexAt(rhs, i), env, t.element, v.elements[i]);
      }
    }
  }

  lemma {:induction false} ChooseYields(whole: bool, test: Expr, a: Expr, b: Expr, env: Env, t: Type, x: Value, y: Value,
                                        chosen: bool)
    requires HasType(x, t) && Eval(a, env) == Some(Represented(x))
    requires HasType(y, t) && Eval(b, env) == Some(Represented(y))
    requires MatchMeans(Unknown(test), env, chosen)
    ensures Yields(whole, Choose(test), [a, b], env, t, if chosen then x else y)
    decreases t
  {
    if t.ArrayType? && !whole {
      forall i | 0 <= i < t.size
        ensures Yields(whole, Choose(test), IndexEach([a, b], i), env, t.element, (if chosen then x else y).elements[i])
      {
        ElementOf(a, env, x, t, i);
        ElementOf(b, env, y, t, i);
        assert IndexEach([a, b], i) == [IndexAt(a, i), IndexAt(b, i)];
        ChooseYields(whole, test, IndexAt(a, i), IndexAt(b, i), env, t.element, x.elements[i], y.elements[i], chosen);
      }
    } else {
      SameTypeSameShape(x, y, t);
    }
  }

  lemma YieldsArray(whole: bool, g: Generator, inputs: seq<Expr>, env: Env, t: Type, v: Value)
    requires t.ArrayType? && !whole && Yields(whole, g, inputs, env, t, v)
    ensures HasType(v, t) && v.ArrayValue? && |v.elements| == t.size
    ensures forall i | 0 <= i < t.size :: Yields(whole, g, IndexEach(inputs, i), env, t.element, v.elements[i])
  {
  }

  lemma {:induction false} GeneratedDrives(whole: bool, t: Type, lhs: Path, inputs: seq<Expr>, g: Generator, env: Env, v: Value)
    requires Yields(whole, g, inputs, env, t, v)
    ensures Drives(Generated(whole, t, lhs, inputs, g), lhs, t, env, Represented(v))
    decreases t, 0
  {
    if t.ArrayType? && !whole {
      GeneratedFirstDrives(whole, t, lhs, inputs, g, t.size, env, v);
      DrivesAll(Generated(whole, t, lhs, inputs, g), lhs, t, env, Represented(v));
    } else {
      DrivesWhole(lhs, g(inputs), t, env, v);
    }
  }

  lemma {:induction false} GeneratedFirstDrives(whole: bool, t: Type, lhs: Path, inputs: seq<Expr>, g: Generator, n: nat,
                                                env: Env, v: Value)
    requires t.ArrayType? && !whole && n <= t.size && Yields(whole, g, inputs, env, t, v)
    ensures DrivesFirst(GeneratedFirst(whole, t, lhs, inputs, g, n), lhs, t, n, env, Represented(v))
    decreases t.element, 1, n
  {
    hide Drives, DrivesFirst, Yields, Represented, HasType, Eval, Generated, IndexEach;
    var x := Represented(v);
    YieldsArray(whole, g, inputs, env, t, v);
    if n == 0 {
      DrivesNone(lhs, t, env, x);
    } else {
      GeneratedFirstDrives(whole, t, lhs, inputs, g, n - 1, env, v);
      GeneratedDrives(whole, t.element, lhs + [n - 1], IndexEach(inputs, n - 1), g, env, v.elements[n - 1]);
      RepresentedElement(v, t, n - 1);
      DrivesNext(GeneratedFirst(whole, t, lhs, inputs, g, n - 1),
                 Generated(whole, t.element, lhs + [n - 1], IndexEach(inputs, n - 1), g), lhs, t, n - 1, env, x);
    }
  }

  // ---------------------------------------------------------------------------
  // Array update
  // ---------------------------------------------------------------------------

  /** Whether the indices so far match: known, or an expression. */
  datatype IndexMatch = Known(matches: bool) | Unknown(test: Expr)

  /** An index with the width of its type. */
  datatype IndexType = IndexType(expression: Expr, width: nat)

  function CombineIndexMatches(a: IndexMatch, b: IndexMatch): IndexMatch {
    if a == Known(false) || b == Known(false) then Known(false)
    else if a == Known(true) then b
    else if b == Known(true) then a
    else Unknown(Binary(LogicalAnd, a.test, b.test))
  }

  /** Whether the index is `i`. */
  function MatchIndex(index: IndexType, i: nat): IndexMatch {
    if index.expression.Literal? then Known(ToNat(index.expression.bits) == i)
    else if MinBitCountUnsigned(i) > index.width then Known(false)
    else
      FitsExactly(i, index.width);
      Unknown(Binary(Equals, index.expression, Literal(UBits(i, index.width))))
  }

  /** The type has a nesting level for every index. */
  predicate Indexable(t: Type, indices: nat) {
    indices == 0 || (t.ArrayType? && Indexable(t.element, indices - 1))
  }

  function Target(t: Type, indices: nat): Type
    requires Indexable(t, indices)
  {
    if indices == 0 then t else Target(t.element, indices - 1)
  }

  function CopyAndUpdate(whole: bool, lhs: Path, rhs: Expr, update: Expr, indices: seq<IndexType>, m: IndexMatch,
                         t: Type): seq<Assignment>
    requires Indexable(t, |indices|)
    decreases |indices|, 0, 0
  {
    if indices == [] then
      match m
      case Known(true) => Generated(whole, t, lhs, [update], Copy())
      case Known(false) => Generated(whole, t, lhs, [rhs], Copy())
      case Unknown(test) => Generated(whole, t, lhs, [update, rhs], Choose(test))
    else CopyAndUpdateFirst(whole, lhs, rhs, update, indices, m, t, t.size)
  }

  function CopyAndUpdateFirst(whole: bool, lhs: Path, rhs: Expr, update: Expr, indices: seq<IndexType>, m: IndexMatch,
                              t: Type, n: nat): seq<Assignment>
    requires indices != [] && Indexable(t, |indices|) && n <= t.size
    decreases |indices| - 1, 1, n
  {
    if n == 0 then []
    else
      CopyAndUpdateFirst(whole, lhs, rhs, update, indices, m, t, n - 1)
      + CopyAndUpdate(whole, lhs + [n - 1], IndexAt(rhs, n - 1), update, indices[1..],
                      CombineIndexMatches(MatchIndex(indices[0], n - 1), m), t.element)
  }

  /** The functional update: an index out of bounds leaves the array as it is. */
  function Updated(v: Value, at: seq<nat>, x: Value): Value {
    if at == [] then x
    else if v.ArrayValue? && at[0] < |v.elements| then
      ArrayValue(v.elements[at[0] := Updated(v.elements[at[0]], at[1..], x)])
    else v
  }

  /** An index expression denotes a vector of its width. */
  ghost predicate IndexHolds(index: IndexType, env: Env) {
    var x := Eval(index.expression, env);
    index.width > 0 && x.Some? && x.value.Vec? && |x.value.bits| == index.width
  }

  ghost function IndexValue(index: IndexType, env: Env): nat
    requires IndexHolds(index, env)
  {
    ToNat(Eval(index.expression, env).value.bits)
  }

  ghost predicate IndicesHold(indices: seq<IndexType>, env: Env) {
    forall index | index in indices :: IndexHolds(index, env)
  }

  ghost function IndexValues(indices: seq<IndexType>, env: Env): (at: seq<nat>)
    requires IndicesHold(indices, env)
    ensures |at| == |indices|
  {
    if indices == [] then [] else [IndexValue(indices[0], env)] + IndexValues(indices[1..], env)
  }

  ghost predicate MatchMeans(m: IndexMatch, env: Env, matches: bool) {
    match m
    case Known(known) => known == matches
    case Unknown(test) =>
      var x := Eval(test, env);
      x.Some? && x.value.Vec? && (ToNat(x.value.bits) != 0) == matches
  }

  lemma MatchIndexMeans(index: IndexType, i: nat, env: Env)
    requires IndexHolds(index, env)
    ensures MatchMeans(MatchIndex(index, i), env, IndexValue(index, env) == i)
  {
    if !index.expression.Literal? {
      FitsExactly(i, index.width);
      Pow2Grows(0, index.width);
      TruthIsTruth(IndexValue(index, env) == i);
    }
  }

  /** A comparison is emitted exactly where the index is not a literal and can reach the element. */
  lemma ComparedExactly(index: IndexType, i: nat)
    ensures MatchIndex(index, i).Unknown? <==> !index.expression.Literal? && i < Pow2(index.width)
  {
    FitsExactly(i, index.width);
  }

  lemma CombineMeans(a: IndexMatch, b: IndexMatch, env: Env, x: bool, y: bool)
    requires MatchMeans(a, env, x) && MatchMeans(b, env, y)
    ensures MatchMeans(CombineIndexMatches(a, b), env, x && y)
  {
    TruthIsTruth(x && y);
  }

  lemma {:induction false} UpdatedHasType(v: Value, at: seq<nat>, x: Value, t: Type)
    requires Indexable(t, |at|) && HasType(v, t) && HasType(x, Target(t, |at|))
    ensures HasType(Updated(v, at, x), t)
    decreases |at|
  {
    if at != [] && at[0] < |v.elements| {
      UpdatedHasType(v.elements[at[0]], at[1..], x, t.element);
    }
  }

  /** The emitted assignments drive each leaf exactly once, with the functional update. */
  lemma {:induction false} CopyAndUpdateDrives(whole: bool, lhs: Path, rhs: Expr, update: Expr, indices: seq<IndexType>,
                                               m: IndexMatch, t: Type, env: Env, v: Value, x: Value, matches: bool)
    requires Indexable(t, |indices|) && HasType(v, t) && HasType(x, Target(t, |indices|))
    requires Eval(rhs, env) == Some(Represented(v)) && Eval(update, env) == Some(Represented(x))
    requires IndicesHold(indices, env) && MatchMeans(m, env, matches)
    ensures Drives(CopyAndUpdate(whole, lhs, rhs, update, indices, m, t), lhs, t, env,
                   Represented(if matches then Updated(v, IndexValues(indices, env), x) else v))
    decreases |indices|, 0, 0
  {
    hide Drives, DrivesFirst, Yields, Represented, HasType, Eval, Generated, MatchMeans, CopyAndUpdateFirst;
    if indices == [] {
      LeafYields(whole, rhs, update, m, t, env, v, x, matches);
      match m
      case Known(true) => GeneratedDrives(whole, t, lhs, [update], Copy(), env, x);
      case Known(false) => GeneratedDrives(whole, t, lhs, [rhs], Copy(), env, v);
      case Unknown(test) => GeneratedDrives(whole, t, lhs, [update, rhs], Choose(test), env, if matches then x else v);
    } else {
      CopyAndUpdateFirstDrives(whole, lhs, rhs, update, indices, m, t, t.size, env, v, x, matches);
      DrivesAll(CopyAndUpdate(whole, lhs, rhs, update, indices, m, t), lhs, t, env,
                Represented(if matches then Updated(v, IndexValues(indices, env), x) else v));
    }
  }

  lemma LeafYields(whole: bool, rhs: Expr, update: Expr, m: IndexMatch, t: Type, env: Env, v: Value, x: Value, matches: bool)
    requires HasType(v, t) && HasType(x, t) && MatchMeans(m, env, matches)
    requires Eval(rhs, env) == Some(Represented(v)) && Eval(update, env) == Some(Represented(x))
    ensures match m
            case Known(true) => Yields(whole, Copy(), [update], env, t, x) && matches
            case Known(false) => Yields(whole, Copy(), [rhs], env, t, v) && !matches
            case Unknown(test) => Yields(whole, Choose(test), [update, rhs], env, t, if matches then x else v)
  {
    hide Yields, Represented, HasType, Eval;
    match m
    case Known(true) => CopyYields(whole, update, env, t, x);
    case Known(false) => CopyYields(whole, rhs, env, t, v);
    case Unknown(test) => ChooseYields(whole, test, update, rhs, env, t, x, v, matches);
  }

  /** Element `i` of the update. */
  lemma UpdatedElement(v: Value, at: seq<nat>, x: Value, i: nat)
    requires at != [] && v.ArrayValue? && i < |v.elements|
    ensures var u := Updated(v, at, x);
      && u.ArrayValue? && |u.elements| == |v.elements|
      && u.elements[i] == if at[0] == i then Updated(v.elements[i], at[1..], x) else v.elements[i]
  {
  }

  lemma {:induction false} CopyAndUpdateFirstDrives(whole: bool, lhs: Path, rhs: Expr, update: Expr,
                                                    indices: seq<IndexType>, m: IndexMatch, t: Type, n: nat, env: Env,
                                                    v: Value, x: Value, matches: bool)
    requires indices != [] && Indexable(t, |indices|) && HasType(v, t) && HasType(x, Target(t, |indices|)) && n <= t.size
    requires Eval(rhs, env) == Some(Represented(v)) && Eval(update, env) == Some(Represented(x))
    requires IndicesHold(indices, env) && MatchMeans(m, env, matches)
    ensures DrivesFirst(CopyAndUpdateFirst(whole, lhs, rhs, update, indices, m, t, n), lhs, t, n, env,
                        Represented(if matches then Updated(v, IndexValues(indices, env), x) else v))
    decreases |indices| - 1, 1, n
  {
    hide Drives, DrivesFirst, Represented, CopyAndUpdate, Updated, Eval, HasType, MatchMeans;
    var at := IndexValues(indices, env);
    var u := if matches then Updated(v, at, x) else v;
    if n == 0 {
      DrivesNone(lhs, t, env, Represented(u));
    } else {
      var i := n - 1;
      CopyAndUpdateFirstDrives(whole, lhs, rhs, update, indices, m, t, i, env, v, x, matches);
      assert at[1..] == IndexValues(indices[1..], env);
      ArrayHasElements(v, t);
      ElementOf(rhs, env, v, t, i);
      MatchIndexMeans(indices[0], i, env);
      var test := MatchIndex(indices[0], i);
      CombineMeans(test, m, env, at[0] == i, matches);
      UpdatedElement(v, at, x, i);
      UpdatedHasType(v, at, x, t);
      CopyAndUpdateDrives(whole, lhs + [i], IndexAt(rhs, i), update, indices[1..], CombineIndexMatches(test, m), t.element,
                          env, v.elements[i], x, at[0] == i && matches);
      RepresentedElement(u, t, i);
      DrivesNext(CopyAndUpdateFirst(whole, lhs, rhs, update, indices, m, t, i),
                 CopyAndUpdate(whole, lhs + [i], IndexAt(rhs, i), update, indices[1..], CombineIndexMatches(test, m), t.element),
                 lhs, t, i, env, Represented(u));
    }
  }

  // ---------------------------------------------------------------------------
  // Verilog has no assignments of whole arrays
  // ---------------------------------------------------------------------------

  /** Only vectors are assigned. */
  ghost predicate LeavesOnly(assignments: seq<Assignment>, base: Path, t: Type) {
    forall a | a in assignments :: base <= a.path && IsLeaf(t, a.path[|base|..])
  }

  lemma LeavesOfElement(before: seq<Assignment>, more: seq<Assignment>, base: Path, t: Type, i: nat)
    requires t.ArrayType? && i < t.size && LeavesOnly(before, base, t) && LeavesOnly(more, base + [i], t.element)
    ensures LeavesOnly(before + more, base, t)
  {
    forall a | a in more
      ensures base <= a.path && IsLeaf(t, a.path[|base|..])
    {
      assert base + [i] <= a.path && a.path[|base|] == i;
      assert a.path[|base|..][1..] == a.path[|base + [i]|..];
    }
  }

  /** Element by element, only vectors are assigned; otherwise there is one assignment. */
  lemma {:induction false} GeneratedLeaves(whole: bool, t: Type, lhs: Path, inputs: seq<Expr>, g: Generator)
    ensures !whole ==> LeavesOnly(Generated(whole, t, lhs, inputs, g), lhs, t)
    ensures whole ==> Generated(whole, t, lhs, inputs, g) == [Assignment(lhs, g(inputs))]
    decreases t, 0
  {
    if t.ArrayType? && !whole {
      GeneratedFirstLeaves(t, lhs, inputs, g, t.size);
    }
  }

  lemma {:induction false} GeneratedFirstLeaves(t: Type, lhs: Path, inputs: seq<Expr>, g: Generator, n: nat)
    requires t.ArrayType? && n <= t.size
    ensures LeavesOnly(GeneratedFirst(false, t, lhs, inputs, g, n), lhs, t)
    decreases t.element, 1, n
  {
    hide LeavesOnly, Generated;
    if n == 0 {
      NoLeaves(lhs, t);
    } else {
      GeneratedFirstLeaves(t, lhs, inputs, g, n - 1);
      GeneratedLeaves(false, t.element, lhs + [n - 1], IndexEach(inputs, n - 1), g);
      LeavesOfElement(GeneratedFirst(false, t, lhs, inputs, g, n - 1),
                      Generated(false, t.element, lhs + [n - 1], IndexEach(inputs, n - 1), g), lhs, t, n - 1);
    }
  }

  lemma NoLeaves(lhs: Path, t: Type)
    ensures LeavesOnly([], lhs, t)
  {
  }

  lemma {:induction false} CopyAndUpdateLeaves(lhs: Path, rhs: Expr, update: Expr, indices: seq<IndexType>,
                                               m: IndexMatch, t: Type)
    requires Indexable(t, |indices|)
    ensures LeavesOnly(CopyAndUpdate(false, lhs, rhs, update, indices, m, t), lhs, t)
    decreases |indices|, 0, 0
  {
    hide LeavesOnly, Generated;
    if indices == [] {
      match m
      case Known(true) => GeneratedLeaves(false, t, lhs, [update], Copy());
      case Known(false) => GeneratedLeaves(false, t, lhs, [rhs], Copy());
      case Unknown(test) => GeneratedLeaves(false, t, lhs, [update, rhs], Choose(test));
    } else {
      CopyAndUpdateFirstLeaves(lhs, rhs, update, indices, m, t, t.size);
    }
  }

  lemma {:induction false} CopyAndUpdateFirstLeaves(lhs: Path, rhs: Expr, update: Expr, indices: seq<IndexType>, m: IndexMatch,
                                                    t: Type, n: nat)
    requires indices != [] && Indexable(t, |indices|) && n <= t.size
    ensures LeavesOnly(CopyAndUpdateFirst(false, lhs, rhs, update, indices, m, t, n), lhs, t)
    decreases |indices| - 1, 1, n
  {
    hide LeavesOnly, CopyAndUpdate;
    if n == 0 {
      NoLeaves(lhs, t);
    } else {
      var inner := CombineIndexMatches(MatchIndex(indices[0], n - 1), m);
      CopyAndUpdateFirstLeaves(lhs, rhs, update, indices, m, t, n - 1);
      CopyAndUpdateLeaves(lhs + [n - 1], IndexAt(rhs, n - 1), update, indices[1..], inner, t.element);
      LeavesOfElement(CopyAndUpdateFirst(false, lhs, rhs, update, indices, m, t, n - 1),
                      CopyAndUpdate(false, lhs + [n - 1], IndexAt(rhs, n - 1), update, indices[1..], inner, t.element),
                      lhs, t, n - 1);
    }
  }
}
