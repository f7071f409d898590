/**
 The text of a Verilog expression: lowering builds expressions, emission turns them into tokens,
 and whoever reads the tokens by the grammar gets the same expression, with the same meaning.
 */
module VerilogText {
  import opened ArrayLowering
  import opened BitLowering
  import opened Flattening
  import opened IrValues
  import opened ModuleBuilding
  import opened Options
  import opened Verilog
  import opened Words
  import Printer = VastPrinter

  predicate IsIndexable(e: Expr) {
    e.Var? || e.Index? || e.IndexAt? || e.Pattern?
  }

  /** A reference to a variable declared without a width. */
  predicate IsScalar(e: Expr, scalars: set<string>) {
    e.Var? && e.name in scalars
  }

  /** What is indexed or sliced is indexable, and by no negative number, and for variables declared without a width by
      zero. Otherwise building or emitting the expression fails. */
  predicate CanBuild(e: Expr, scalars: set<string>)
    decreases e
  {
    match e
    case Var(_) => true
    case Literal(_) => true
    case Index(subject, index) =>
      && IsIndexable(subject) && CanBuild(subject, scalars) && CanBuild(index, scalars)
      && (IsScalar(subject, scalars) ==> index.Literal? && index.bits != [] && ToNat(index.bits) == 0)
    case IndexAt(subject, at) =>
      IsIndexable(subject) && CanBuild(subject, scalars) && 0 <= at && (IsScalar(subject, scalars) ==> at == 0)
    case Slice(subject, hi, lo) =>
      && IsIndexable(subject) && CanBuild(subject, scalars) && 0 <= hi && 0 <= lo
      && (IsScalar(subject, scalars) ==> hi == lo == 0)
    case Concat(args) => forall k | 0 <= k < |args| :: CanBuild(args[k], scalars)
    case Replicate(_, arg) => CanBuild(arg, scalars)
    case Pattern(args) => forall k | 0 <= k < |args| :: CanBuild(args[k], scalars)
    case Ternary(test, consequent, alternate) =>
      CanBuild(test, scalars) && CanBuild(consequent, scalars) && CanBuild(alternate, scalars)
    case Binary(_, lhs, rhs) => CanBuild(lhs, scalars) && CanBuild(rhs, scalars)
    case BitwiseNot(arg) => CanBuild(arg, scalars)
  }

  function Operator(op: BinaryOp): Printer.BinaryOp {
    match op
    case Equals => Printer.Equals
    case GreaterThan => Printer.GreaterThan
    case GreaterThanEquals => Printer.GreaterThanEquals
    case LogicalAnd => Printer.LogicalAnd
    case Add => Printer.Add
    case BitwiseAnd => Printer.BitwiseAnd
    case BitwiseOr => Printer.BitwiseOr
    case Shll => Printer.Shll
    case Shrl => Printer.Shrl
    case Shra => Printer.Shra
  }

  /** The arithmetic shift is read with its casts only. */
  function OperatorFrom(op: Printer.BinaryOp): Option<BinaryOp> {
    match op
    case Equals => Some(Equals)
    case GreaterThan => Some(GreaterThan)
    case GreaterThanEquals => Some(GreaterThanEquals)
    case LogicalAnd => Some(LogicalAnd)
    case Add => Some(Add)
    case BitwiseAnd => Some(BitwiseAnd)
    case BitwiseOr => Some(BitwiseOr)
    case Shll => Some(Shll)
    case Shrl => Some(Shrl)
    case _ => None
  }

  function Cast(name: string, e: Printer.Expr): Printer.Expr {
    Printer.Call(name, Printer.Cons(e, Printer.Nil))
  }

  /** The tree that is emitted. */
  function Tree(e: Expr): Printer.Expr
    requires CanBuild(e, {})
    decreases e, 1
  {
    match e
    case Literal(bits) => Printer.Literal(bits)
    case Slice(subject, hi, lo) => Printer.Slice(IndexableTree(subject), Printer.Number(hi), Printer.Number(lo))
    case Ternary(test, consequent, alternate) => Printer.Ternary(Tree(test), Tree(consequent), Tree(alternate))
    case Binary(op, lhs, rhs) =>
      if op.Shra? then Cast("unsigned", Printer.Binary(Printer.Shra, Cast("signed", Tree(lhs)), Tree(rhs)))
      else Printer.Binary(Operator(op), Tree(lhs), Tree(rhs))
    case BitwiseNot(arg) => Printer.Unary(Printer.BitwiseNot, Tree(arg))
    case Concat(args) => Printer.Concat(Printer.NoExpr, Trees(args))
    case Replicate(count, arg) =>
      Printer.Concat(Printer.SomeExpr(Printer.Number(count)), Printer.Cons(Tree(arg), Printer.Nil))
    case Var(_) => Printer.Plain(IndexableTree(e))
    case Index(_, _) => Printer.Plain(IndexableTree(e))
    case IndexAt(_, _) => Printer.Plain(IndexableTree(e))
    case Pattern(_) => Printer.Plain(IndexableTree(e))
  }

  function IndexableTree(e: Expr): Printer.Indexable
    requires CanBuild(e, {}) && IsIndexable(e)
    decreases e, 0
  {
    match e
    case Var(name) => Printer.Ref(name)
    case Index(subject, index) => Printer.Index(IndexableTree(subject), Tree(index))
    case IndexAt(subject, at) => Printer.Index(IndexableTree(subject), Printer.Number(at))
    case Pattern(args) => Printer.Pattern(Trees(args))
  }

  function Trees(args: seq<Expr>): Printer.Exprs
    requires forall k | 0 <= k < |args| :: CanBuild(args[k], {})
    decreases args, 0
  {
    if args == [] then Printer.Nil else Printer.Cons(Tree(args[0]), Trees(args[1..]))
  }

  /** The expression of a tree. */
  function FromTree(t: Printer.Expr): Option<Expr> {
    match t
    case Literal(bits) => Some(Literal(bits))
    case Plain(x) => FromIndexable(x)
    case Slice(subject, Number(hi), Number(lo)) =>
      var x := FromIndexable(subject);
      if x.Some? then Some(Slice(x.value, hi, lo)) else None
    case Call("unsigned", Cons(Binary(Shra, Call("signed", Cons(lhs, Nil)), rhs), Nil)) =>
      var x, y := FromTree(lhs), FromTree(rhs);
      if x.Some? && y.Some? then Some(Binary(Shra, x.value, y.value)) else None
    case Ternary(test, consequent, alternate) =>
      var x, y, z := FromTree(test), FromTree(consequent), FromTree(alternate);
      if x.Some? && y.Some? && z.Some? then Some(Ternary(x.value, y.value, z.value)) else None
    case Binary(op, lhs, rhs) =>
      var x, y := FromTree(lhs), FromTree(rhs);
      if OperatorFrom(op).Some? && x.Some? && y.Some? then Some(Binary(OperatorFrom(op).value, x.value, y.value)) else None
    case Unary(op, arg) =>
      var x := FromTree(arg);
      if op.BitwiseNot? && x.Some? then Some(BitwiseNot(x.value)) else None
    case Concat(NoExpr, args) =>
      var all := FromTrees(args);
      if all.Some? then Some(Concat(all.value)) else None
    case Concat(SomeExpr(Number(count)), Cons(arg, Nil)) =>
      var x := FromTree(arg);
      if x.Some? then Some(Replicate(count, x.value)) else None
    case _ => None
  }

  function FromIndexable(x: Printer.Indexable): Option<Expr> {
    match x
    case Ref(name) => Some(Var(name))
    case Index(subject, index) =>
      var y := FromIndexable(subject);
      if y.None? then None
      else if index.Number? then Some(IndexAt(y.value, index.value))
      else
        var i := FromTree(index);
        if i.Some? then Some(Index(y.value, i.value)) else None
    case Pattern(args) =>
      var all := FromTrees(args);
      if all.Some? then Some(Pattern(all.value)) else None
  }

  function FromTrees(ts: Printer.Exprs): Option<seq<Expr>> {
    match ts
    case Nil => Some([])
    case Cons(t, more) =>
      var x, others := FromTree(t), FromTrees(more);
      if x.Some? && others.Some? then Some([x.value] + others.value) else None
  }

  lemma {:induction false} TreeReadsBack(e: Expr)
    requires CanBuild(e, {})
    ensures FromTree(Tree(e)) == Some(e) && !Tree(e).Number?
    decreases e, 1
  {
    match e
    case Ternary(test, consequent, alternate) =>
      TreeReadsBack(test);
      TreeReadsBack(consequent);
      TreeReadsBack(alternate);
    case Binary(op, lhs, rhs) => OperatorReadsBack(e);
    case BitwiseNot(arg) => TreeReadsBack(arg);
    case Concat(args) => TreesReadBack(args);
    case Replicate(count, arg) => TreeReadsBack(arg);
    case Slice(subject, hi, lo) => IndexableReadsBack(subject);
    case Literal(_) =>
    case Var(_) =>
    case Index(_, _) => IndexableReadsBack(e);
    case IndexAt(_, _) => IndexableReadsBack(e);
    case Pattern(_) => IndexableReadsBack(e);
  }

  lemma {:induction false} OperatorReadsBack(e: Expr)
    requires CanBuild(e, {}) && e.Binary?
    ensures FromTree(Tree(e)) == Some(e) && !Tree(e).Number?
    decreases e, 0
  {
    TreeReadsBack(e.lhs);
    TreeReadsBack(e.rhs);
    var x, y := Tree(e.lhs), Tree(e.rhs);
    if e.op.Shra? {
      assert Tree(e) == Cast("unsigned", Printer.Binary(Printer.Shra, Cast("signed", x), y));
    } else {
      assert Tree(e) == Printer.Binary(Operator(e.op), x, y);
      assert OperatorFrom(Operator(e.op)) == Some(e.op);
    }
  }

  lemma {:induction false} IndexableReadsBack(e: Expr)
    requires CanBuild(e, {}) && IsIndexable(e)
    ensures FromIndexable(IndexableTree(e)) == Some(e)
    decreases e, 0
  {
    match e
    case Var(_) =>
    case Index(subject, index) =>
      IndexableReadsBack(subject);
      TreeReadsBack(index);
    case IndexAt(subject, at) => IndexableReadsBack(subject);
    case Pattern(args) => TreesReadBack(args);
  }

  lemma {:induction false} TreesReadBack(args: seq<Expr>)
    requires forall k | 0 <= k < |args| :: CanBuild(args[k], {})
    ensures FromTrees(Trees(args)) == Some(args)
    decreases args, 0
  {
    if args != [] {
      TreeReadsBack(args[0]);
      TreesReadBack(args[1..]);
      assert args == [args[0]] + args[1..];
    }
  }

  // ---------------------------------------------------------------------------
  // Variables declared without a width
  // ---------------------------------------------------------------------------

  lemma {:induction false} BuiltAnyway(e: Expr, scalars: set<string>)
    requires CanBuild(e, scalars)
    ensures CanBuild(e, {})
    decreases e
  {
    match e
    case Var(_) =>
    case Literal(_) =>
    case Index(subject, index) =>
      BuiltAnyway(subject, scalars);
      BuiltAnyway(index, scalars);
    case IndexAt(subject, _) => BuiltAnyway(subject, scalars);
    case Slice(subject, _, _) => BuiltAnyway(subject, scalars);
    case Concat(args) => AllBuiltAnyway(args, scalars);
    case Replicate(_, arg) => BuiltAnyway(arg, scalars);
    case Pattern(args) => AllBuiltAnyway(args, scalars);
    case Ternary(test, consequent, alternate) =>
      BuiltAnyway(test, scalars);
      BuiltAnyway(consequent, scalars);
      BuiltAnyway(alternate, scalars);
    case Binary(_, lhs, rhs) =>
      BuiltAnyway(lhs, scalars);
      BuiltAnyway(rhs, scalars);
    case BitwiseNot(arg) => BuiltAnyway(arg, scalars);
  }

  lemma {:induction false} AllBuiltAnyway(args: seq<Expr>, scalars: set<string>)
    requires forall k | 0 <= k < |args| :: CanBuild(args[k], scalars)
    ensures forall k | 0 <= k < |args| :: CanBuild(args[k], {})
    decreases args
  {
    forall k | 0 <= k < |args|
      ensures CanBuild(args[k], {})
    {
      BuiltAnyway(args[k], scalars);
    }
  }

  /** The expression with the indices and slices left out that emission leaves out. */
  function Dropped(e: Expr, scalars: set<string>): Expr
    decreases e
  {
    match e
    case Var(_) => e
    case Literal(_) => e
    case Index(subject, index) =>
      if IsScalar(subject, scalars) then subject else Index(Dropped(subject, scalars), Dropped(index, scalars))
    case IndexAt(subject, at) => if IsScalar(subject, scalars) then subject else IndexAt(Dropped(subject, scalars), at)
    case Slice(subject, hi, lo) =>
      if IsScalar(subject, scalars) then subject else Slice(Dropped(subject, scalars), hi, lo)
    case Concat(args) => Concat(AllDropped(args, scalars))
    case Replicate(count, arg) => Replicate(count, Dropped(arg, scalars))
    case Pattern(args) => Pattern(AllDropped(args, scalars))
    case Ternary(test, consequent, alternate) =>
      Ternary(Dropped(test, scalars), Dropped(consequent, scalars), Dropped(alternate, scalars))
    case Binary(op, lhs, rhs) => Binary(op, Dropped(lhs, scalars), Dropped(rhs, scalars))
    case BitwiseNot(arg) => BitwiseNot(Dropped(arg, scalars))
  }

  function AllDropped(args: seq<Expr>, scalars: set<string>): (r: seq<Expr>)
    ensures |r| == |args|
    decreases args
  {
    if args == [] then [] else [Dropped(args[0], scalars)] + AllDropped(args[1..], scalars)
  }

  /** The tree of what is left is the tree as shown. */
  lemma {:induction false} DroppedTree(e: Expr, scalars: set<string>)
    requires CanBuild(e, {})
    ensures CanBuild(Dropped(e, scalars), {}) && Tree(Dropped(e, scalars)) == Printer.Shown(Tree(e), scalars)
    decreases e, 1
  {
    match e
    case Ternary(_, _, _) => DroppedTernary(e, scalars);
    case Binary(_, _, _) => DroppedOperator(e, scalars);
    case BitwiseNot(arg) => DroppedTree(arg, scalars);
    case Concat(args) => DroppedTrees(args, scalars);
    case Replicate(_, _) => DroppedReplicate(e, scalars);
    case Slice(_, _, _) => DroppedSlice(e, scalars);
    case Literal(_) =>
    case Var(_) =>
    case Index(_, _) => DroppedIndexable(e, scalars);
    case IndexAt(_, _) => DroppedIndexable(e, scalars);
    case Pattern(_) => DroppedIndexable(e, scalars);
  }

  lemma {:induction false} DroppedTernary(e: Expr, scalars: set<string>)
    requires CanBuild(e, {}) && e.Ternary?
    ensures CanBuild(Dropped(e, scalars), {}) && Tree(Dropped(e, scalars)) == Printer.Shown(Tree(e), scalars)
    decreases e, 0
  {
    DroppedTree(e.test, scalars);
    DroppedTree(e.consequent, scalars);
    DroppedTree(e.alternate, scalars);
  }

  lemma {:induction false} DroppedReplicate(e: Expr, scalars: set<string>)
    requires CanBuild(e, {}) && e.Replicate?
    ensures CanBuild(Dropped(e, scalars), {}) && Tree(Dropped(e, scalars)) == Printer.Shown(Tree(e), scalars)
    decreases e, 0
  {
    DroppedTree(e.arg, scalars);
    ShownOne(Tree(e.arg), scalars);
  }

  lemma {:induction false} DroppedSlice(e: Expr, scalars: set<string>)
    requires CanBuild(e, {}) && e.Slice?
    ensures CanBuild(Dropped(e, scalars), {}) && Tree(Dropped(e, scalars)) == Printer.Shown(Tree(e), scalars)
    decreases e, 0
  {
    DroppedIndexable(e.subject, scalars);
  }

  lemma {:induction false} DroppedOperator(e: Expr, scalars: set<string>)
    requires CanBuild(e, {}) && e.Binary?
    ensures CanBuild(Dropped(e, scalars), {}) && Tree(Dropped(e, scalars)) == Printer.Shown(Tree(e), scalars)
    decreases e, 0
  {
    DroppedTree(e.lhs, scalars);
    DroppedTree(e.rhs, scalars);
    if e.op.Shra? {
      var lhs := Cast("signed", Tree(e.lhs));
      ShownOne(Tree(e.lhs), scalars);
      ShownOne(Printer.Binary(Printer.Shra, lhs, Tree(e.rhs)), scalars);
      assert Printer.Shown(lhs, scalars) == Cast("signed", Printer.Shown(Tree(e.lhs), scalars));
      assert Tree(e) == Cast("unsigned", Printer.Binary(Printer.Shra, lhs, Tree(e.rhs)));
    }
  }

  lemma ShownOne(e: Printer.Expr, scalars: set<string>)
    ensures Printer.ShownArgs(Printer.Cons(e, Printer.Nil), scalars) == Printer.Cons(Printer.Shown(e, scalars), Printer.Nil)
  {
  }

  lemma {:induction false} DroppedIndexable(e: Expr, scalars: set<string>)
    requires CanBuild(e, {}) && IsIndexable(e)
    ensures CanBuild(Dropped(e, scalars), {}) && IsIndexable(Dropped(e, scalars))
    ensures IndexableTree(Dropped(e, scalars)) == Printer.ShownIndexable(IndexableTree(e), scalars)
    ensures Printer.IsScalar(IndexableTree(e), scalars) == IsScalar(e, scalars)
    decreases e, 0
  {
    match e
    case Var(_) =>
    case Index(subject, index) =>
      DroppedIndexable(subject, scalars);
      DroppedTree(index, scalars);
    case IndexAt(subject, at) => DroppedIndexable(subject, scalars);
    case Pattern(args) => DroppedTrees(args, scalars);
  }

  lemma {:induction false} DroppedTrees(args: seq<Expr>, scalars: set<string>)
    requires forall k | 0 <= k < |args| :: CanBuild(args[k], {})
    ensures forall k | 0 <= k < |args| :: CanBuild(AllDropped(args, scalars)[k], {})
    ensures Trees(AllDropped(args, scalars)) == Printer.ShownArgs(Trees(args), scalars)
    decreases args, 0
  {
    if args != [] {
      DroppedTree(args[0], scalars);
      DroppedTrees(args[1..], scalars);
      var r := AllDropped(args, scalars);
      assert r[1..] == AllDropped(args[1..], scalars) && r[0] == Dropped(args[0], scalars);
      forall k | 0 <= k < |args|
        ensures CanBuild(r[k], {})
      {
        assert k > 0 ==> r[k] == r[1..][k - 1];
      }
    }
  }

  /** Variables declared without a width hold one bit. */
  ghost predicate ScalarsHold(scalars: set<string>, env: Env) {
    forall x | x in scalars :: env(x).Vec? && |env(x).bits| == 1
  }

  /** Selecting the only bit of a variable is the variable. */
  lemma OnlyBit(bits: Bits)
    requires |bits| == 1
    ensures Select(Vec(bits), 0) == Some(Vec(bits)) && bits[0..1] == bits
  {
    assert bits == [bits[0]];
  }

  /** What is left means the same. */
  lemma {:induction false} DroppedMeans(e: Expr, scalars: set<string>, env: Env)
    requires CanBuild(e, scalars) && ScalarsHold(scalars, env)
    ensures Eval(Dropped(e, scalars), env) == Eval(e, env)
    decreases e, 1
  {
    match e
    case Var(_) =>
    case Literal(_) =>
    case Index(subject, _) => SelectionMeans(e, subject, scalars, env);
    case IndexAt(subject, _) => SelectionMeans(e, subject, scalars, env);
    case Slice(subject, _, _) => SelectionMeans(e, subject, scalars, env);
    case Concat(args) => AllDroppedMean(args, scalars, env);
    case Replicate(_, arg) => DroppedMeans(arg, scalars, env);
    case Pattern(args) => AllDroppedMean(args, scalars, env);
    case Ternary(test, consequent, alternate) =>
      DroppedMeans(test, scalars, env);
      DroppedMeans(consequent, scalars, env);
      DroppedMeans(alternate, scalars, env);
    case Binary(_, lhs, rhs) =>
      DroppedMeans(lhs, scalars, env);
      DroppedMeans(rhs, scalars, env);
    case BitwiseNot(arg) => DroppedMeans(arg, scalars, env);
  }

  lemma {:induction false} SelectionMeans(e: Expr, subject: Expr, scalars: set<string>, env: Env)
    requires CanBuild(e, scalars) && ScalarsHold(scalars, env)
    requires (e.Index? || e.IndexAt? || e.Slice?) && subject == e.subject
    ensures Eval(Dropped(e, scalars), env) == Eval(e, env)
    decreases e, 0
  {
    if IsScalar(subject, scalars) {
      OnlyBit(env(subject.name).bits);
    } else {
      DroppedMeans(subject, scalars, env);
      if e.Index? {
        DroppedMeans(e.index, scalars, env);
      }
    }
  }

  lemma {:induction false} AllDroppedMean(args: seq<Expr>, scalars: set<string>, env: Env)
    requires (forall k | 0 <= k < |args| :: CanBuild(args[k], scalars)) && ScalarsHold(scalars, env)
    ensures EvalAll(AllDropped(args, scalars), env) == EvalAll(args, env)
    decreases args, 0
  {
    hide Eval, Dropped, CanBuild;
    if args != [] {
      DroppedMeans(args[0], scalars, env);
      AllDroppedMean(args[1..], scalars, env);
      var r := AllDropped(args, scalars);
      assert r[1..] == AllDropped(args[1..], scalars) && r[0] == Dropped(args[0], scalars);
    }
  }

  // ---------------------------------------------------------------------------
  // Texts
  // ---------------------------------------------------------------------------

  /** The text of an expression, given the variables declared without a width. */
  function Text(e: Expr, scalars: set<string>): seq<Printer.Token>
    requires CanBuild(e, scalars)
  {
    BuiltAnyway(e, scalars);
    Printer.Text(Tree(e), scalars)
  }

  /** What the text of an expression denotes to a reader of the grammar. */
  function Meaning(text: seq<Printer.Token>, env: Env): Option<Data> {
    var read := Printer.ParseExpr(text);
    if read.Failed? || read.rest != [] then None
    else
      var e := FromTree(read.value);
      if e.Some? then Eval(e.value, env) else None
  }

  /** Reading the emitted text gives back what emission leaves of the expression. */
  lemma TextReadsBack(e: Expr, scalars: set<string>)
    requires CanBuild(e, scalars)
    ensures var read := Printer.ParseExpr(Text(e, scalars));
            read.Parsed? && read.rest == [] && FromTree(read.value) == Some(Dropped(e, scalars))
  {
    hide Printer.ParseExpr, Printer.Emit, Tree, FromTree, Dropped, CanBuild;
    BuiltAnyway(e, scalars);
    Printer.TextReads(Tree(e), scalars);
    DroppedTree(e, scalars);
    TreeReadsBack(Dropped(e, scalars));
  }

  /** Two expressions have the same text exactly when emission leaves the same of them. */
  lemma TextsAlike(e: Expr, f: Expr, scalars: set<string>)
    requires CanBuild(e, scalars) && CanBuild(f, scalars)
    ensures Text(e, scalars) == Text(f, scalars) <==> Dropped(e, scalars) == Dropped(f, scalars)
  {
    hide Printer.ParseExpr, Printer.Emit, Tree, FromTree, Dropped, CanBuild;
    TextReadsBack(e, scalars);
    TextReadsBack(f, scalars);
    BuiltAnyway(e, scalars);
    BuiltAnyway(f, scalars);
    DroppedTree(e, scalars);
    DroppedTree(f, scalars);
  }

  /** Nothing is left out of the text. */
  predicate NothingDropped(e: Expr, scalars: set<string>)
    requires CanBuild(e, scalars)
  {
    BuiltAnyway(e, scalars);
    Printer.NoScalarSelected(Tree(e), scalars)
  }

  /** So expressions that select nothing of variables declared without a width have different texts. */
  lemma TextIsUnambiguous(e: Expr, f: Expr, scalars: set<string>)
    requires CanBuild(e, scalars) && CanBuild(f, scalars) && NothingDropped(e, scalars) && NothingDropped(f, scalars)
    requires Text(e, scalars) == Text(f, scalars)
    ensures e == f
  {
    hide Printer.ParseExpr, Printer.Text, Printer.NoScalarSelected, Tree, FromTree, CanBuild;
    BuiltAnyway(e, scalars);
    BuiltAnyway(f, scalars);
    Printer.TextReads(Tree(e), scalars);
    Printer.TextReads(Tree(f), scalars);
    TreeReadsBack(e);
    TreeReadsBack(f);
  }

  /** The text of what can be built denotes what the expression does. */
  lemma TextMeans(e: Expr, scalars: set<string>, env: Env)
    requires CanBuild(e, scalars) && ScalarsHold(scalars, env)
    ensures Meaning(Text(e, scalars), env) == Eval(e, env)
  {
    hide Printer.ParseExpr, Text, FromTree, Dropped, CanBuild, Eval;
    TextReadsBack(e, scalars);
    DroppedMeans(e, scalars, env);
  }

  // ---------------------------------------------------------------------------
  // The text of lowered operations
  // ---------------------------------------------------------------------------

  lemma BinaryCanBuild(op: BinaryOp, lhs: Expr, rhs: Expr, scalars: set<string>)
    requires CanBuild(lhs, scalars) && CanBuild(rhs, scalars)
    ensures CanBuild(Binary(op, lhs, rhs), scalars)
  {
  }

  lemma GuardCanBuild(op: BinaryOp, e: Expr, limit: Bits, consequent: Expr, alternate: Expr, scalars: set<string>)
    requires CanBuild(e, scalars) && CanBuild(consequent, scalars) && CanBuild(alternate, scalars)
    ensures CanBuild(Ternary(Binary(op, e, Literal(limit)), consequent, alternate), scalars)
  {
    BinaryCanBuild(op, e, Literal(limit), scalars);
  }

  lemma ClampCanBuild(index: IndexType, size: nat, check: bool, scalars: set<string>)
    requires size > 0 && CanBuild(index.expression, scalars)
    ensures CanBuild(ClampIndex(index, size, check), scalars)
  {
    hide CanBuild;
    if check && MinBitCountUnsigned(size) <= index.width {
      FitsExactly(size, index.width);
      var maxIndex := UBits(size - 1, index.width);
      LiteralCanBuild(maxIndex, scalars);
      GuardCanBuild(GreaterThan, index.expression, maxIndex, Literal(maxIndex), index.expression, scalars);
    }
  }

  lemma LiteralCanBuild(bits: Bits, scalars: set<string>)
    ensures CanBuild(Literal(bits), scalars)
  {
  }

  lemma {:induction false} IndexedCanBuild(subject: Expr, indices: seq<IndexType>, t: Type, check: bool, scalars: set<string>)
    requires Selectable(t, |indices|) && IsIndexable(subject) && CanBuild(subject, scalars)
    requires forall k | 0 <= k < |indices| :: CanBuild(indices[k].expression, scalars)
    requires indices != [] ==> !IsScalar(subject, scalars)
    ensures CanBuild(Indexed(subject, indices, t, check), scalars)
    decreases |indices|
  {
    if indices != [] {
      hide ClampIndex;
      ClampCanBuild(indices[0], t.size, check, scalars);
      IndexedCanBuild(Index(subject, ClampIndex(indices[0], t.size, check)), indices[1..], t.element, check, scalars);
    }
  }

  /** The text of an array index, with the clamps between the brackets, denotes the selected element. */
  lemma IndexTextMeans(subject: Expr, indices: seq<IndexType>, t: Type, check: bool, scalars: set<string>, env: Env, v: Value)
    requires Selectable(t, |indices|) && IsIndexable(subject) && CanBuild(subject, scalars)
    requires forall k | 0 <= k < |indices| :: CanBuild(indices[k].expression, scalars)
    requires HasType(v, t) && Eval(subject, env) == Some(Represented(v)) && IndicesHold(indices, env)
    requires ScalarsHold(scalars, env)
    ensures CanBuild(Indexed(subject, indices, t, check), scalars)
    ensures var at := IndexValues(indices, env);
            Meaning(Text(Indexed(subject, indices, t, check), scalars), env)
            == if check || InBounds(v, at) then Some(Represented(Clamped(v, at))) else None
  {
    hide Meaning, Text, Eval, CanBuild, Indexed, HasType, Represented;
    if indices != [] {
      ArrayIsNoScalar(subject, t, scalars, env, v);
    }
    IndexedCanBuild(subject, indices, t, check, scalars);
    TextMeans(Indexed(subject, indices, t, check), scalars, env);
    IndexedMeans(subject, indices, t, check, env, v);
  }

  lemma ArrayIsNoScalar(subject: Expr, t: Type, scalars: set<string>, env: Env, v: Value)
    requires t.ArrayType? && HasType(v, t) && Eval(subject, env) == Some(Represented(v)) && ScalarsHold(scalars, env)
    ensures !IsScalar(subject, scalars)
  {
  }

  /** A variable declared without a width holds a vector of one bit only. */
  lemma VectorOfScalar(e: Expr, scalars: set<string>, env: Env, x: Bits)
    requires Holds(e, env, x) && ScalarsHold(scalars, env) && IsScalar(e, scalars)
    ensures |x| == 1
  {
  }

  lemma ShiftCanBuild(op: BinaryOp, operand: Expr, width: nat, amount: Expr, amountWidth: nat, scalars: set<string>)
    requires IsShift(op) && width > 0 && CanBuild(operand, scalars) && CanBuild(amount, scalars)
    requires op.Shra? && MinBitCountUnsigned(width) <= amountWidth ==>
               IsIndexable(operand) && (IsScalar(operand, scalars) ==> width == 1)
    ensures CanBuild(EmitShift(op, operand, width, amount, amountWidth), scalars)
  {
    hide CanBuild;
    BinaryCanBuild(op, operand, amount, scalars);
    if MinBitCountUnsigned(width) <= amountWidth {
      FitsExactly(width, amountWidth);
      LiteralCanBuild(Repeat(false, width), scalars);
      if op.Shra? {
        SignCanBuild(operand, width, scalars);
      }
      GuardCanBuild(GreaterThanEquals, amount, UBits(width, amountWidth),
                    if op.Shra? then Replicate(width, IndexAt(operand, width - 1)) else Literal(Repeat(false, width)),
                    Binary(op, operand, amount), scalars);
    }
  }

  lemma SignCanBuild(operand: Expr, width: nat, scalars: set<string>)
    requires width > 0 && CanBuild(operand, scalars) && IsIndexable(operand) && (IsScalar(operand, scalars) ==> width == 1)
    ensures CanBuild(Replicate(width, IndexAt(operand, width - 1)), scalars)
  {
    assert CanBuild(IndexAt(operand, width - 1), scalars);
  }

  /** The text of a shift, with the casts and the guard, denotes the shift by any amount. */
  lemma ShiftTextMeans(op: BinaryOp, operand: Expr, amount: Expr, scalars: set<string>, env: Env, x: Bits, n: Bits)
    requires IsShift(op) && Holds(operand, env, x) && Holds(amount, env, n) && ScalarsHold(scalars, env)
    requires CanBuild(operand, scalars) && CanBuild(amount, scalars)
    requires op.Shra? && MinBitCountUnsigned(|x|) <= |n| ==> IsIndexable(operand)
    ensures CanBuild(EmitShift(op, operand, |x|, amount, |n|), scalars)
    ensures var r := Meaning(Text(EmitShift(op, operand, |x|, amount, |n|), scalars), env);
            r.Some? && r.value.Vec? && IsShifted(op, x, ToNat(n), r.value.bits)
  {
    hide Meaning, Text, Eval, CanBuild, EmitShift, IsShifted;
    if IsScalar(operand, scalars) {
      VectorOfScalar(operand, scalars, env, x);
    }
    ShiftCanBuild(op, operand, |x|, amount, |n|, scalars);
    TextMeans(EmitShift(op, operand, |x|, amount, |n|), scalars, env);
    ShiftMeans(op, operand, amount, env, x, n);
  }

  lemma UpdateCanBuild(toUpdate: Expr, width: nat, start: Expr, startWidth: nat, update: Expr, updateWidth: nat,
                       scalars: set<string>)
    requires width > 0 && CanBuild(toUpdate, scalars) && CanBuild(start, scalars) && CanBuild(update, scalars)
    requires updateWidth > width ==> IsIndexable(update) && !IsScalar(update, scalars)
    ensures CanBuild(BitSliceUpdate(toUpdate, width, start, startWidth, update, updateWidth), scalars)
  {
    hide CanBuild, AdjustedUpdate;
    var ones := Literal(UpdateOnes(updateWidth, width));
    LiteralCanBuild(UpdateOnes(updateWidth, width), scalars);
    BinaryCanBuild(Shll, ones, start, scalars);
    NotCanBuild(Binary(Shll, ones, start), scalars);
    BinaryCanBuild(BitwiseAnd, BitwiseNot(Binary(Shll, ones, start)), toUpdate, scalars);
    AdjustedCanBuild(update, updateWidth, width, scalars);
    var adjusted := Binary(Shll, AdjustedUpdate(update, updateWidth, width), start);
    BinaryCanBuild(Shll, AdjustedUpdate(update, updateWidth, width), start, scalars);
    BinaryCanBuild(BitwiseOr, adjusted, Binary(BitwiseAnd, BitwiseNot(Binary(Shll, ones, start)), toUpdate), scalars);
    if MinBitCountUnsigned(width) <= startWidth {
      FitsExactly(width, startWidth);
      GuardCanBuild(GreaterThanEquals, start, UBits(width, startWidth), toUpdate,
                    UpdatedExpr(toUpdate, width, start, update, updateWidth), scalars);
    }
  }

  lemma NotCanBuild(e: Expr, scalars: set<string>)
    requires CanBuild(e, scalars)
    ensures CanBuild(BitwiseNot(e), scalars)
  {
  }

  lemma AdjustedCanBuild(update: Expr, updateWidth: nat, width: nat, scalars: set<string>)
    requires width > 0 && CanBuild(update, scalars)
    requires updateWidth > width ==> IsIndexable(update) && !IsScalar(update, scalars)
    ensures CanBuild(AdjustedUpdate(update, updateWidth, width), scalars)
  {
    if updateWidth < width {
      LiteralCanBuild(Repeat(false, width - updateWidth), scalars);
      var args := [Literal(Repeat(false, width - updateWidth)), update];
      assert forall k | 0 <= k < |args| :: CanBuild(args[k], scalars);
    }
  }

  /** The text of a bit-slice update denotes the updated vector. */
  lemma UpdateTextMeans(toUpdate: Expr, start: Expr, update: Expr, scalars: set<string>, env: Env, x: Bits, s: Bits, u: Bits)
    requires Holds(toUpdate, env, x) && Holds(start, env, s) && Holds(update, env, u) && ScalarsHold(scalars, env)
    requires CanBuild(toUpdate, scalars) && CanBuild(start, scalars) && CanBuild(update, scalars)
    requires |u| > |x| ==> IsIndexable(update)
    ensures CanBuild(BitSliceUpdate(toUpdate, |x|, start, |s|, update, |u|), scalars)
    ensures var r := Meaning(Text(BitSliceUpdate(toUpdate, |x|, start, |s|, update, |u|), scalars), env);
            r.Some? && r.value.Vec? && IsUpdated(x, ToNat(s), u, r.value.bits)
  {
    hide Meaning, Text, Eval, CanBuild, BitSliceUpdate, IsUpdated;
    if IsScalar(update, scalars) {
      VectorOfScalar(update, scalars, env, u);
    }
    UpdateCanBuild(toUpdate, |x|, start, |s|, update, |u|, scalars);
    TextMeans(BitSliceUpdate(toUpdate, |x|, start, |s|, update, |u|), scalars, env);
    BitSliceUpdateMeans(toUpdate, start, update, env, x, s, u);
  }
}
