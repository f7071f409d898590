/** The Verilog expressions that lowering builds (xls/codegen/vast.h), and what they denote. */
module Verilog {
  import opened Collections
  import opened Options
  import opened Words

  /** A vector, or an unpacked array. */
  datatype Data = Vec(bits: Bits) | Unpacked(elements: seq<Data>)

  datatype BinaryOp =
    | Equals | GreaterThan | GreaterThanEquals | LogicalAnd
    | Add | BitwiseAnd | BitwiseOr
    | Shll | Shrl | Shra // Shra is the signed shift between its two casts

  datatype Expr =
    | Var(name: string)
    | Literal(bits: Bits)
    | Index(subject: Expr, index: Expr)
    | IndexAt(subject: Expr, at: int)
    | Slice(subject: Expr, hi: int, lo: int)
    | Concat(args: seq<Expr>)
    | Replicate(count: nat, arg: Expr)
    | Pattern(args: seq<Expr>)
    | Ternary(test: Expr, consequent: Expr, alternate: Expr)
    | Binary(op: BinaryOp, lhs: Expr, rhs: Expr)
    | BitwiseNot(arg: Expr)

  type Env = string -> Data

  function Truth(b: bool): Data {
    Vec([b])
  }

  /** An element of an array or a bit of a vector. Selecting out of bounds gives nothing. */
  function Select(x: Data, i: int): Option<Data> {
    match x
    case Vec(bits) => if 0 <= i < |bits| then Some(Vec([bits[i]])) else None
    case Unpacked(elements) => if 0 <= i < |elements| then Some(elements[i]) else None
  }

  predicate SameShape(x: Data, y: Data) {
    match x
    case Vec(bits) => y.Vec? && |bits| == |y.bits|
    case Unpacked(elements) => y.Unpacked? && |elements| == |y.elements|
  }

  function ShiftLeft(b: Bits, k: nat): (r: Bits)
    requires k <= |b|
    ensures |r| == |b|
  {
    Repeat(false, k) + b[..|b| - k]
  }

  /** Shifting right brings in copies of `fill`. */
  function ShiftRight(b: Bits, k: nat, fill: bool): (r: Bits)
    requires k <= |b|
    ensures |r| == |b|
  {
    b[k..] + Repeat(fill, k)
  }

  function Invert(b: Bits): (r: Bits)
    ensures |r| == |b|
  {
    seq(|b|, i requires 0 <= i < |b| => !b[i])
  }

  function And(a: Bits, b: Bits): (r: Bits)
    requires |a| == |b|
    ensures |r| == |a|
  {
    seq(|a|, i requires 0 <= i < |a| => a[i] && b[i])
  }

  function Or(a: Bits, b: Bits): (r: Bits)
    requires |a| == |b|
    ensures |r| == |a|
  {
    seq(|a|, i requires 0 <= i < |a| => a[i] || b[i])
  }

  /** Operators on vectors. Arithmetic needs equal widths; a shift by the width or more is not relied on. */
  function Apply(op: BinaryOp, a: Bits, b: Bits): Option<Data> {
    match op
    case Equals => Some(Truth(ToNat(a) == ToNat(b)))
    case GreaterThan => Some(Truth(ToNat(a) > ToNat(b)))
    case GreaterThanEquals => Some(Truth(ToNat(a) >= ToNat(b)))
    case LogicalAnd => Some(Truth(ToNat(a) != 0 && ToNat(b) != 0))
    case Add => if |a| == |b| then Some(Vec(UBits((ToNat(a) + ToNat(b)) % Pow2(|a|), |a|))) else None
    case BitwiseAnd => if |a| == |b| then Some(Vec(And(a, b))) else None
    case BitwiseOr => if |a| == |b| then Some(Vec(Or(a, b))) else None
    case Shll => if ToNat(b) < |a| then Some(Vec(ShiftLeft(a, ToNat(b)))) else None
    case Shrl => if ToNat(b) < |a| then Some(Vec(ShiftRight(a, ToNat(b), false))) else None
    case Shra => if ToNat(b) < |a| then Some(Vec(ShiftRight(a, ToNat(b), a[|a| - 1]))) else None
  }

  /** What an expression denotes; nothing when it is illegal or reads out of bounds. */
  function Eval(e: Expr, env: Env): Option<Data>
    decreases e
  {
    match e
    case Var(name) => Some(env(name))
    case Literal(bits) => if bits == [] then None else Some(Vec(bits))
    case IndexAt(subject, at) =>
      var x := Eval(subject, env);
      if x.Some? then Select(x.value, at) else None
    case Index(subject, index) =>
      var x, i := Eval(subject, env), Eval(index, env);
      if x.Some? && i.Some? && i.value.Vec? then Select(x.value, ToNat(i.value.bits)) else None
    case Slice(subject, hi, lo) =>
      var x := Eval(subject, env);
      if x.Some? && x.value.Vec? && 0 <= lo <= hi < |x.value.bits| then Some(Vec(x.value.bits[lo..hi + 1])) else None
    case Concat(args) =>
      var parts := EvalAll(args, env);
      if args != [] && parts.Some? && AllVectors(parts.value) then Some(Vec(Joined(parts.value))) else None
    case Replicate(count, arg) =>
      var x := Eval(arg, env);
      if count > 0 && x.Some? && x.value.Vec? && |x.value.bits| == 1 then Some(Vec(Repeat(x.value.bits[0], count)))
      else None
    case Pattern(args) =>
      var parts := EvalAll(args, env);
      if args != [] && parts.Some? then Some(Unpacked(parts.value)) else None
    case Ternary(test, consequent, alternate) =>
      var t, x, y := Eval(test, env), Eval(consequent, env), Eval(alternate, env);
      if t.None? || !t.value.Vec? || (x.Some? && y.Some? && !SameShape(x.value, y.value)) then None
      else if ToNat(t.value.bits) != 0 then x else y
    case Binary(op, lhs, rhs) =>
      var x, y := Eval(lhs, env), Eval(rhs, env);
      if x.Some? && y.Some? && x.value.Vec? && y.value.Vec? then Apply(op, x.value.bits, y.value.bits) else None
    case BitwiseNot(arg) =>
      var x := Eval(arg, env);
      if x.Some? && x.value.Vec? then Some(Vec(Invert(x.value.bits))) else None
  }

  function EvalAll(args: seq<Expr>, env: Env): (r: Option<seq<Data>>)
    ensures r.Some? ==> |r.value| == |args|
    decreases args
  {
    if args == [] then Some([])
    else
      var first, others := Eval(args[0], env), EvalAll(args[1..], env);
      if first.Some? && others.Some? then Some([first.value] + others.value) else None
  }

  predicate AllVectors(parts: seq<Data>) {
    forall x | x in parts :: x.Vec?
  }

  /** Concatenation: the first part is the most significant. */
  function Joined(parts: seq<Data>): Bits
    requires AllVectors(parts)
  {
    if parts == [] then [] else Joined(parts[1..]) + parts[0].bits
  }

  lemma TruthIsTruth(b: bool)
    ensures (ToNat(Truth(b).bits) != 0) == b
  {
    assert [b][1..] == [];
  }

  lemma Chosen(test: Expr, x: Expr, y: Expr, env: Env, b: bool)
    requires Eval(test, env) == Some(Truth(b))
    requires Eval(x, env).Some? && Eval(y, env).Some? ==> SameShape(Eval(x, env).value, Eval(y, env).value)
    ensures Eval(Ternary(test, x, y), env) == if b then Eval(x, env) else Eval(y, env)
  {
    TruthIsTruth(b);
  }

  lemma Applied(op: BinaryOp, x: Expr, y: Expr, env: Env, a: Bits, b: Bits)
    requires Eval(x, env) == Some(Vec(a)) && Eval(y, env) == Some(Vec(b))
    ensures Eval(Binary(op, x, y), env) == Apply(op, a, b)
  {
  }

  lemma EvalOne(e: Expr, env: Env)
    requires Eval(e, env).Some?
    ensures EvalAll([e], env) == Some([Eval(e, env).value])
  {
    hide Eval;
    var others := EvalAll([e][1..], env);
    assert [e][1..] == [];
    assert others == Some([]);
    assert [Eval(e, env).value] + others.value == [Eval(e, env).value];
  }

  /** An expression that denotes nothing anywhere. */
  ghost predicate DenotesNothing(e: Expr) {
    forall env: Env :: Eval(e, env) == None
  }

  lemma {:induction false} EvalAllFails(args: seq<Expr>, e: Expr, env: Env)
    requires Eval(e, env) == None
    ensures EvalAll(args + [e], env) == None
  {
    hide Eval;
    if args == [] {
      assert args + [e] == [e];
    } else {
      EvalAllFails(args[1..], e, env);
      assert (args + [e])[1..] == args[1..] + [e];
    }
  }

  lemma {:induction false} EvalAllAppends(args: seq<Expr>, more: seq<Expr>, env: Env)
    requires EvalAll(args, env).Some? && EvalAll(more, env).Some?
    ensures EvalAll(args + more, env) == Some(EvalAll(args, env).value + EvalAll(more, env).value)
  {
    hide Eval;
    if args == [] {
      assert args + more == more;
      assert EvalAll(args, env).value + EvalAll(more, env).value == EvalAll(more, env).value;
    } else {
      EvalAllAppends(args[1..], more, env);
      assert (args + more)[1..] == args[1..] + more && (args + more)[0] == args[0];
      var first, others := Eval(args[0], env).value, EvalAll(args[1..], env).value;
      assert [first] + (others + EvalAll(more, env).value) == ([first] + others) + EvalAll(more, env).value;
    }
  }

  lemma {:induction false} JoinedAppends(parts: seq<Data>, more: seq<Data>)
    requires AllVectors(parts) && AllVectors(more)
    ensures AllVectors(parts + more) && Joined(parts + more) == Joined(more) + Joined(parts)
  {
    if parts == [] {
      assert parts + more == more;
    } else {
      JoinedAppends(parts[1..], more);
      assert (parts + more)[1..] == parts[1..] + more;
      Associates(Joined(more), Joined(parts[1..]), parts[0].bits);
    }
  }

  lemma JoinedTwo(high: Bits, low: Bits)
    ensures AllVectors([Vec(high)] + [Vec(low)]) && Joined([Vec(high)] + [Vec(low)]) == low + high
  {
    var parts := [Vec(high)] + [Vec(low)];
    assert parts[1..] == [Vec(low)] && parts[1..][1..] == [];
    assert Joined(parts[1..]) == low;
  }
}
