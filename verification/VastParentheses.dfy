/**
 The parentheses that emission writes. No text with fewer reads as the same expression, apart from the pairs that
 are there for the reader: around reductions in binary expressions and around nested conditional expressions.
 */
module VastParentheses {
  import opened VastPrinter

  /** The opening parentheses among the tokens. */
  function Parens(ts: seq<Token>): nat {
    if ts == [] then 0 else (if ts[0] == LParen then 1 else 0) + Parens(ts[1..])
  }

  lemma {:induction false} ParensAdd(a: seq<Token>, b: seq<Token>)
    ensures Parens(a + b) == Parens(a) + Parens(b)
  {
    if a == [] {
      assert a + b == b;
    } else {
      ParensAdd(a[1..], b);
      assert (a + b)[1..] == a[1..] + b;
    }
  }

  lemma FirstParen(ts: seq<Token>)
    requires ts != []
    ensures Parens(ts) == One(ts[0] == LParen) + Parens(ts[1..])
  {
  }

  function One(b: bool): nat {
    if b then 1 else 0
  }

  /** The pairs that the grammar needs, those of calls included. */
  function Needed(e: Expr): nat {
    match e
    case Number(_) => 0
    case Literal(_) => 0
    case Plain(x) => NeededIn(x)
    case Slice(subject, hi, lo) => NeededIn(subject) + Needed(hi) + Needed(lo)
    case PartSelect(subject, start, width) => NeededIn(subject) + Needed(start) + Needed(width)
    case Call(_, args) => 1 + NeededInAll(args)
    case CallNoArgs(_) => 0
    case Unary(_, arg) => Needed(arg) + One(Precedence(arg) < 13)
    case Binary(op, lhs, rhs) =>
      Needed(lhs) + One(Precedence(lhs) < Precedence(e)) + Needed(rhs) + One(Precedence(rhs) <= Precedence(e))
    case Ternary(test, consequent, alternate) =>
      Needed(test) + One(test.Ternary?) + Needed(consequent) + Needed(alternate)
    case Concat(NoExpr, args) => NeededInAll(args)
    case Concat(SomeExpr(n), args) => Needed(n) + NeededInAll(args)
  }

  function NeededIn(x: Indexable): nat {
    match x
    case Ref(_) => 0
    case Index(subject, index) => NeededIn(subject) + Needed(index)
    case Pattern(args) => NeededInAll(args)
  }

  function NeededInAll(args: Exprs): nat {
    match args
    case Nil => 0
    case Cons(e, more) => Needed(e) + NeededInAll(more)
  }

  /** Starts with an operator that is a reduction here and a bitwise operator between operands. */
  predicate Reduces(e: Expr) {
    e.Unary? && UnarySymbol(e.uop) in {"&", "|", "^"}
  }

  /** The pairs for the reader. */
  function Extra(e: Expr): nat {
    match e
    case Number(_) => 0
    case Literal(_) => 0
    case Plain(x) => ExtraIn(x)
    case Slice(subject, hi, lo) => ExtraIn(subject) + Extra(hi) + Extra(lo)
    case PartSelect(subject, start, width) => ExtraIn(subject) + Extra(start) + Extra(width)
    case Call(_, args) => ExtraInAll(args)
    case CallNoArgs(_) => 0
    case Unary(_, arg) => Extra(arg)
    case Binary(_, lhs, rhs) => Extra(lhs) + One(Reduces(lhs)) + Extra(rhs) + One(Reduces(rhs))
    case Ternary(test, consequent, alternate) =>
      Extra(test) + Extra(consequent) + One(consequent.Ternary?) + Extra(alternate) + One(alternate.Ternary?)
    case Concat(NoExpr, args) => ExtraInAll(args)
    case Concat(SomeExpr(n), args) => Extra(n) + ExtraInAll(args)
  }

  function ExtraIn(x: Indexable): nat {
    match x
    case Ref(_) => 0
    case Index(subject, index) => ExtraIn(subject) + Extra(index)
    case Pattern(args) => ExtraInAll(args)
  }

  function ExtraInAll(args: Exprs): nat {
    match args
    case Nil => 0
    case Cons(e, more) => Extra(e) + ExtraInAll(more)
  }

  // ---------------------------------------------------------------------------
  // What is emitted
  // ---------------------------------------------------------------------------

  lemma WrappedParens(wrap: bool, ts: seq<Token>)
    ensures Parens(MaybeWrap(wrap, ts)) == Parens(ts) + One(wrap)
  {
    ParensAdd([LParen] + ts, [RParen]);
    ParensAdd([LParen], ts);
  }

  lemma JoinedParens(a: seq<Token>, t: Token, b: seq<Token>)
    requires t != LParen
    ensures Parens(a + [t] + b) == Parens(a) + Parens(b)
  {
    ParensAdd(a + [t], b);
    ParensAdd(a, [t]);
  }

  lemma EnclosedParens(t: Token, a: seq<Token>, u: Token)
    requires u != LParen
    ensures Parens([t] + a + [u]) == One(t == LParen) + Parens(a)
  {
    ParensAdd([t] + a, [u]);
    ParensAdd([t], a);
  }

  lemma BracketParens(a: seq<Token>, b: seq<Token>)
    ensures Parens(a + [LBracket] + b + [RBracket]) == Parens(a) + Parens(b)
  {
    JoinedParens(a, LBracket, b);
    ParensAdd(a + [LBracket] + b, [RBracket]);
  }

  lemma PairParens(a: seq<Token>, b: seq<Token>, t: Token, c: seq<Token>)
    requires t != LParen
    ensures Parens(a + [LBracket] + b + [t] + c + [RBracket]) == Parens(a) + Parens(b) + Parens(c)
  {
    JoinedParens(a, LBracket, b);
    JoinedParens(a + [LBracket] + b, t, c);
    ParensAdd(a + [LBracket] + b + [t] + c, [RBracket]);
  }

  /** Emission writes the needed pairs and those for the reader. */
  lemma {:induction false} EmittedParens(e: Expr)
    ensures Parens(Emit(e)) == Needed(e) + Extra(e)
    decreases e, 1
  {
    match e
    case Number(_) =>
    case Literal(_) =>
    case CallNoArgs(_) =>
    case Plain(x) => EmittedIn(x);
    case Slice(_, _, _) => EmittedSlice(e);
    case PartSelect(_, _, _) => EmittedSlice(e);
    case Call(_, _) => EmittedCall(e);
    case Unary(_, _) => EmittedUnary(e);
    case Binary(_, _, _) => EmittedBinary(e);
    case Ternary(_, _, _) => EmittedTernary(e);
    case Concat(NoExpr, args) =>
      EmittedInAll(args);
      EnclosedParens(LBrace, EmitArgs(args), RBrace);
    case Concat(SomeExpr(_), _) => EmittedReplication(e);
  }

  lemma {:induction false} EmittedSlice(e: Expr)
    requires e.Slice? || e.PartSelect?
    ensures Parens(Emit(e)) == Needed(e) + Extra(e)
    decreases e, 0
  {
    EmittedIn(e.subject);
    EmittedParens(FirstPart(e));
    EmittedParens(SecondPart(e));
    PairParens(EmitIndexable(e.subject), Emit(FirstPart(e)), Separator(e), Emit(SecondPart(e)));
  }

  lemma {:induction false} EmittedCall(e: Expr)
    requires e.Call?
    ensures Parens(Emit(e)) == Needed(e) + Extra(e)
    decreases e, 0
  {
    EmittedInAll(e.args);
    var name, args := [SystemName(e.name)], EmitArgs(e.args);
    assert Emit(e) == name + [LParen] + args + [RParen];
    hide Emit, EmitArgs;
    ParensAdd(name, [LParen]);
    ParensAdd(name + [LParen], args);
    ParensAdd(name + [LParen] + args, [RParen]);
  }

  lemma {:induction false} EmittedUnary(e: Expr)
    requires e.Unary?
    ensures Parens(Emit(e)) == Needed(e) + Extra(e)
    decreases e, 0
  {
    EmittedParens(e.arg);
    WrappedParens(WrapsArg(e), Emit(e.arg));
    ParensAdd([Sym(UnarySymbol(e.uop))], MaybeWrap(WrapsArg(e), Emit(e.arg)));
  }

  lemma ReductionsReduce(e: Expr)
    ensures Reduces(e) <==> IsReduction(e)
  {
  }

  lemma {:induction false} EmittedBinary(e: Expr)
    requires e.Binary?
    ensures Parens(Emit(e)) == Needed(e) + Extra(e)
    decreases e, 0
  {
    hide UnarySymbol, BinarySymbol, Reduces;
    ReductionsReduce(e.lhs);
    ReductionsReduce(e.rhs);
    EmittedParens(e.lhs);
    EmittedParens(e.rhs);
    WrappedParens(WrapsLeft(e), Emit(e.lhs));
    WrappedParens(WrapsRight(e), Emit(e.rhs));
    JoinedParens(MaybeWrap(WrapsLeft(e), Emit(e.lhs)), Sym(BinarySymbol(e.bop)), MaybeWrap(WrapsRight(e), Emit(e.rhs)));
  }

  lemma {:induction false} EmittedTernary(e: Expr)
    requires e.Ternary?
    ensures Parens(Emit(e)) == Needed(e) + Extra(e)
    decreases e, 0
  {
    PrecedencesPositive(e);
    EmittedParens(e.test);
    EmittedParens(e.consequent);
    EmittedParens(e.alternate);
    var t, c := MaybeWrap(e.test.Ternary?, Emit(e.test)), MaybeWrap(e.consequent.Ternary?, Emit(e.consequent));
    var a := MaybeWrap(e.alternate.Ternary?, Emit(e.alternate));
    WrappedParens(e.test.Ternary?, Emit(e.test));
    WrappedParens(e.consequent.Ternary?, Emit(e.consequent));
    WrappedParens(e.alternate.Ternary?, Emit(e.alternate));
    assert Emit(e) == t + [Question] + c + [Colon] + a;
    hide Emit, MaybeWrap;
    JoinedParens(t, Question, c);
    JoinedParens(t + [Question] + c, Colon, a);
  }

  lemma {:induction false} EmittedReplication(e: Expr)
    requires e.Concat? && e.replication.SomeExpr?
    ensures Parens(Emit(e)) == Needed(e) + Extra(e)
    decreases e, 0
  {
    EmittedParens(e.replication.expr);
    EmittedInAll(e.args);
    var n, args := Emit(e.replication.expr), EmitArgs(e.args);
    assert Emit(e) == [LBrace] + n + [LBrace] + args + [RBrace] + [RBrace];
    hide Emit, EmitArgs;
    EnclosedParens(LBrace, n, LBrace);
    ParensAdd([LBrace] + n + [LBrace], args);
    ParensAdd([LBrace] + n + [LBrace] + args, [RBrace]);
    ParensAdd([LBrace] + n + [LBrace] + args + [RBrace], [RBrace]);
  }

  lemma {:induction false} EmittedIn(x: Indexable)
    ensures Parens(EmitIndexable(x)) == NeededIn(x) + ExtraIn(x)
    decreases x, 1
  {
    match x
    case Ref(_) =>
    case Index(subject, index) =>
      EmittedIn(subject);
      EmittedParens(index);
      BracketParens(EmitIndexable(subject), Emit(index));
    case Pattern(args) =>
      EmittedInAll(args);
      EnclosedParens(QuoteBrace, EmitArgs(args), RBrace);
  }

  lemma {:induction false} EmittedInAll(args: Exprs)
    ensures Parens(EmitArgs(args)) == NeededInAll(args) + ExtraInAll(args)
    decreases args, 1
  {
    match args
    case Nil =>
    case Cons(e, more) =>
      EmittedParens(e);
      EmittedInAll(more);
      JoinedParens(Emit(e), Comma, EmitArgs(more));
  }

  // ---------------------------------------------------------------------------
  // What is read
  // ---------------------------------------------------------------------------

  lemma RowOfSymbol(symbol: string)
    requires Row(symbol) != 0
    ensures BinaryPrecedence(BinaryOf(symbol)) == Row(symbol)
  {
  }

  /** The tokens do not go on with an operator of row `row` or above. */
  predicate OperatorsStop(row: int, ts: seq<Token>) {
    ts == [] || !ts[0].Sym? || Row(ts[0].symbol) == 0 || Row(ts[0].symbol) < row
  }

  lemma {:induction false} OperatorsEnd(row: int, lhs: Expr, ts: seq<Token>)
    requires ParseOperators(row, lhs, ts).Parsed?
    ensures OperatorsStop(row, ParseOperators(row, lhs, ts).rest)
    decreases |ts|
  {
    hide Row, ParseBinary, BinaryOf;
    if !OperatorsStop(row, ts) {
      var rhs := ParseBinary(Row(ts[0].symbol) + 1, ts[1..]);
      OperatorsEnd(row, Binary(BinaryOf(ts[0].symbol), lhs, rhs.value), rhs.rest);
    }
  }

  lemma {:induction false} ExprReadsNeeded(ts: seq<Token>)
    requires ParseExpr(ts).Parsed?
    ensures Parens(ts) >= Parens(ParseExpr(ts).rest) + Needed(ParseExpr(ts).value)
    decreases |ts|, 4
  {
    hide ParseBinary, Row, Parens;
    BinaryReadsNeeded(1, ts);
    var test := ParseBinary(1, ts);
    var ts1 := test.rest;
    if ts1 != [] && ts1[0] == Question {
      FirstParen(ts1);
      ExprReadsNeeded(ts1[1..]);
      var ts2 := ParseExpr(ts1[1..]).rest;
      FirstParen(ts2);
      ExprReadsNeeded(ts2[1..]);
    }
  }

  lemma {:induction false} BinaryReadsNeeded(row: int, ts: seq<Token>)
    requires 1 <= row <= 11 && ParseBinary(row, ts).Parsed?
    ensures var e := ParseBinary(row, ts).value;
            Parens(ts) >= Parens(ParseBinary(row, ts).rest) + Needed(e) + One(Precedence(e) < row)
    decreases |ts|, 3
  {
    hide Row, ParseUnary, ParseOperators;
    UnaryReadsNeeded(ts);
    var lhs := ParseUnary(ts);
    if lhs.rest != [] && lhs.rest[0].Sym? {
      RowAtMost(lhs.rest[0].symbol);
    }
    OperatorsReadNeeded(row, lhs.value, lhs.rest, One(Precedence(lhs.value) < 12));
  }

  lemma {:induction false} OperatorsReadNeeded(row: int, lhs: Expr, ts: seq<Token>, paid: nat)
    requires 1 <= row <= 11 && ParseOperators(row, lhs, ts).Parsed?
    requires paid >= 1 || (row <= Precedence(lhs) && OperatorsStop(Precedence(lhs) + 1, ts))
    ensures var r := ParseOperators(row, lhs, ts);
            Parens(ts) + Needed(lhs) + paid >= Parens(r.rest) + Needed(r.value) + One(Precedence(r.value) < row)
    decreases |ts|, 0
  {
    hide Row, ParseBinary, BinaryOf, BinaryPrecedence;
    if !OperatorsStop(row, ts) {
      var symbol := ts[0].symbol;
      RowAtMost(symbol);
      RowOfSymbol(symbol);
      BinaryReadsNeeded(Row(symbol) + 1, ts[1..]);
      var rhs := ParseBinary(Row(symbol) + 1, ts[1..]);
      BinaryEnds(Row(symbol) + 1, ts[1..]);
      OperatorsReadNeeded(row, Binary(BinaryOf(symbol), lhs, rhs.value), rhs.rest, 0);
    }
  }

  lemma RowAtMost(symbol: string)
    ensures 0 <= Row(symbol) <= 10
  {
  }

  lemma BinaryEnds(row: int, ts: seq<Token>)
    requires ParseBinary(row, ts).Parsed?
    ensures OperatorsStop(row, ParseBinary(row, ts).rest)
  {
    hide Row, ParseUnary;
    OperatorsEnd(row, ParseUnary(ts).value, ParseUnary(ts).rest);
  }

  lemma {:induction false} UnaryReadsNeeded(ts: seq<Token>)
    requires ParseUnary(ts).Parsed?
    ensures var e := ParseUnary(ts).value; Parens(ts) >= Parens(ParseUnary(ts).rest) + Needed(e) + One(Precedence(e) < 12)
    decreases |ts|, 2
  {
    hide ParsePrimary, IsUnary, UnaryOf;
    if ts[0].Sym? {
      PrimaryReadsNeeded(ts[1..]);
    } else {
      PrimaryReadsNeeded(ts);
    }
  }

  lemma {:induction false} PrimaryReadsNeeded(ts: seq<Token>)
    requires ParsePrimary(ts).Parsed?
    ensures var e := ParsePrimary(ts).value; Parens(ts) >= Parens(ParsePrimary(ts).rest) + Needed(e) + One(Precedence(e) < 13)
    decreases |ts|, 1
  {
    hide ParseExpr, ParseBraced, ParseSelects, ParseArgs;
    match ts[0]
    case Identifier(name) => SelectsReadNeeded(Ref(name), ts[1..]);
    case QuoteBrace =>
      ArgsReadNeeded(RBrace, ts[1..]);
      var args := ParseArgs(RBrace, ts[1..]);
      SelectsReadNeeded(Pattern(args.value), args.rest);
    case SystemName(_) =>
      if |ts| > 1 && ts[1] == LParen {
        assert ts[1..][0] == LParen;
        ArgsReadNeeded(RParen, ts[1..][1..]);
      }
    case LParen => ExprReadsNeeded(ts[1..]);
    case LBrace => BracedReadsNeeded(ts[1..]);
    case _ =>
  }

  lemma {:induction false} SelectsReadNeeded(x: Indexable, ts: seq<Token>)
    requires ParseSelects(x, ts).Parsed?
    ensures Parens(ts) + NeededIn(x) >= Parens(ParseSelects(x, ts).rest) + Needed(ParseSelects(x, ts).value)
    ensures Precedence(ParseSelects(x, ts).value) == 13
    decreases |ts|, 0
  {
    hide ParseExpr, Parens;
    if ts != [] && ts[0] == LBracket {
      FirstParen(ts);
      ExprReadsNeeded(ts[1..]);
      var e := ParseExpr(ts[1..]);
      FirstParen(e.rest);
      if e.rest[0] == RBracket {
        SelectsReadNeeded(Index(x, e.value), e.rest[1..]);
      } else {
        ExprReadsNeeded(e.rest[1..]);
        FirstParen(ParseExpr(e.rest[1..]).rest);
      }
    }
  }

  lemma {:induction false} BracedReadsNeeded(ts: seq<Token>)
    requires ParseBraced(ts).Parsed?
    ensures Parens(ts) >= Parens(ParseBraced(ts).rest) + Needed(ParseBraced(ts).value)
    ensures Precedence(ParseBraced(ts).value) == 13
    decreases |ts|, 6
  {
    hide ParseExpr, ParseArgs, ParseMore;
    if !(ts != [] && ts[0] == RBrace) {
      ExprReadsNeeded(ts);
      var e := ParseExpr(ts);
      if e.rest != [] && e.rest[0] == LBrace {
        ArgsReadNeeded(RBrace, e.rest[1..]);
      } else {
        MoreReadsNeeded(RBrace, e.rest);
      }
    }
  }

  lemma {:induction false} ArgsReadNeeded(close: Token, ts: seq<Token>)
    requires ParseArgs(close, ts).Parsed?
    ensures Parens(ts) >= Parens(ParseArgs(close, ts).rest) + NeededInAll(ParseArgs(close, ts).value)
    decreases |ts|, 6
  {
    hide ParseExpr, ParseMore;
    if !(ts != [] && ts[0] == close) {
      ExprReadsNeeded(ts);
      MoreReadsNeeded(close, ParseExpr(ts).rest);
    }
  }

  lemma {:induction false} MoreReadsNeeded(close: Token, ts: seq<Token>)
    requires ParseMore(close, ts).Parsed?
    ensures Parens(ts) >= Parens(ParseMore(close, ts).rest) + NeededInAll(ParseMore(close, ts).value)
    decreases |ts|, 5
  {
    hide ParseExpr;
    if ts[0] != close {
      ExprReadsNeeded(ts[1..]);
      MoreReadsNeeded(close, ParseExpr(ts[1..]).rest);
    }
  }

  /** Any text of an expression has at least the needed pairs, and the emitted text has no others, except for the reader. */
  lemma FewestParens(e: Expr, ts: seq<Token>)
    requires ParseExpr(ts) == Parsed(e, [])
    ensures Parens(ts) >= Needed(e) == Parens(Emit(e)) - Extra(e)
  {
    hide ParseExpr, Emit, Needed, Extra;
    ExprReadsNeeded(ts);
    EmittedParens(e);
  }

  /** So where there are none for the reader, leaving out any pair changes what is read. */
  lemma NoneCanBeLeftOut(e: Expr, ts: seq<Token>)
    requires Extra(e) == 0 && Parens(ts) < Parens(Emit(e))
    ensures ParseExpr(ts) != Parsed(e, [])
  {
    hide ParseExpr, Emit, Needed, Extra;
    if ParseExpr(ts) == Parsed(e, []) {
      FewestParens(e, ts);
      assert false;
    }
  }
}
