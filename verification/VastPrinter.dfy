/**
 Emission of Verilog expressions, as the Emit functions of xls/codegen/vast.cc do it: parentheses
 only where the precedences ask for them. A parser for expressions, written from the operator
 precedence and associativity of section 11.3.2 of IEEE Std 1800-2017, reads the tree back.
 */
module VastPrinter {
  import opened Collections

  datatype UnaryOp = Negate | BitwiseNot | LogicalNot | AndReduce | OrReduce | XorReduce

  datatype BinaryOp =
    | Add | Sub | Mul | Div | Mod
    | Shll | Shrl | Shra
    | LessThan | LessThanEquals | GreaterThan | GreaterThanEquals
    | Equals | NotEquals | EqualsX | NotEqualsX
    | BitwiseAnd | BitwiseXor | BitwiseOr
    | LogicalAnd | LogicalOr

  /** A number is a literal without a width, a literal is one with a width; calls are of system functions. */
  datatype Expr =
    | Number(value: nat)
    | Literal(bits: seq<bool>)
    | Plain(indexable: Indexable)
    | Slice(subject: Indexable, hi: Expr, lo: Expr)
    | PartSelect(subject: Indexable, start: Expr, width: Expr)
    | Call(name: string, args: Exprs)
    | CallNoArgs(name: string)
    | Unary(uop: UnaryOp, arg: Expr)
    | Binary(bop: BinaryOp, lhs: Expr, rhs: Expr)
    | Ternary(test: Expr, consequent: Expr, alternate: Expr)
    | Concat(replication: OptionalExpr, args: Exprs)
  /** What can be indexed and sliced: a reference, an element, an array assignment pattern. */
  datatype Indexable = Ref(name: string) | Index(subject: Indexable, index: Expr) | Pattern(args: Exprs)
  datatype OptionalExpr = NoExpr | SomeExpr(expr: Expr)
  datatype Exprs = Nil | Cons(head: Expr, tail: Exprs)

  datatype Token =
    | Digits(value: nat) | Sized(bits: seq<bool>) | Identifier(name: string) | SystemName(name: string)
    | Sym(symbol: string) | LParen | RParen | LBrace | QuoteBrace | RBrace | LBracket | RBracket
    | Comma | Question | Colon | PlusColon

  function UnarySymbol(op: UnaryOp): string {
    match op
    case Negate => "-"
    case BitwiseNot => "~"
    case LogicalNot => "!"
    case AndReduce => "&"
    case OrReduce => "|"
    case XorReduce => "^"
  }

  function BinarySymbol(op: BinaryOp): string {
    match op
    case Add => "+"
    case Sub => "-"
    case Mul => "*"
    case Div => "/"
    case Mod => "%"
    case Shll => "<<"
    case Shrl => ">>"
    case Shra => ">>>"
    case LessThan => "<"
    case LessThanEquals => "<="
    case GreaterThan => ">"
    case GreaterThanEquals => ">="
    case Equals => "=="
    case NotEquals => "!="
    case EqualsX => "==="
    case NotEqualsX => "!=="
    case BitwiseAnd => "&"
    case BitwiseXor => "^"
    case BitwiseOr => "|"
    case LogicalAnd => "&&"
    case LogicalOr => "||"
  }

  // ---------------------------------------------------------------------------
  // Emission
  // ---------------------------------------------------------------------------

  /** The precedences that the expression constructors attach. */
  function BinaryPrecedence(op: BinaryOp): int {
    match op
    case Add => 9
    case Sub => 9
    case Mul => 10
    case Div => 10
    case Mod => 10
    case Shll => 8
    case Shrl => 8
    case Shra => 8
    case LessThan => 7
    case LessThanEquals => 7
    case GreaterThan => 7
    case GreaterThanEquals => 7
    case Equals => 6
    case NotEquals => 6
    case EqualsX => 6
    case NotEqualsX => 6
    case BitwiseAnd => 5
    case BitwiseXor => 4
    case BitwiseOr => 3
    case LogicalAnd => 2
    case LogicalOr => 1
  }

  function Precedence(e: Expr): int {
    match e
    case Unary(_, _) => 12
    case Binary(op, _, _) => BinaryPrecedence(op)
    case Ternary(_, _, _) => 0
    case _ => 13
  }

  predicate IsReduction(e: Expr) {
    e.Unary? && (e.uop.AndReduce? || e.uop.OrReduce? || e.uop.XorReduce?)
  }

  function MaybeWrap(wrap: bool, ts: seq<Token>): seq<Token> {
    if wrap then [LParen] + ts + [RParen] else ts
  }

  /** Emission of an expression as it is shown; `Shown` says what is left out before. */
  function Emit(e: Expr): (ts: seq<Token>)
    ensures ts != [] && !Closing(ts[0])
  {
    match e
    case Number(value) => [Digits(value)]
    case Literal(bits) => [Sized(bits)]
    case Plain(x) => EmitIndexable(x)
    case Slice(subject, hi, lo) => EmitIndexable(subject) + [LBracket] + Emit(hi) + [Colon] + Emit(lo) + [RBracket]
    case PartSelect(subject, start, width) =>
      EmitIndexable(subject) + [LBracket] + Emit(start) + [PlusColon] + Emit(width) + [RBracket]
    case Call(name, args) => [SystemName(name)] + [LParen] + EmitArgs(args) + [RParen]
    case CallNoArgs(name) => [SystemName(name)]
    case Unary(op, arg) =>
      [Sym(UnarySymbol(op))] + MaybeWrap(Precedence(arg) < Precedence(e) || arg.Unary?, Emit(arg))
    case Binary(op, lhs, rhs) =>
      MaybeWrap(Precedence(lhs) < Precedence(e) || IsReduction(lhs), Emit(lhs))
      + [Sym(BinarySymbol(op))]
      + MaybeWrap(Precedence(rhs) <= Precedence(e) || IsReduction(rhs), Emit(rhs))
    case Ternary(test, consequent, alternate) =>
      MaybeWrap(Precedence(test) <= Precedence(e), Emit(test)) + [Question]
      + MaybeWrap(Precedence(consequent) <= Precedence(e), Emit(consequent)) + [Colon]
      + MaybeWrap(Precedence(alternate) <= Precedence(e), Emit(alternate))
    case Concat(NoExpr, args) => [LBrace] + EmitArgs(args) + [RBrace]
    case Concat(SomeExpr(n), args) => [LBrace] + Emit(n) + [LBrace] + EmitArgs(args) + [RBrace] + [RBrace]
  }

  function EmitIndexable(x: Indexable): (ts: seq<Token>)
    ensures ts != [] && (ts[0].Identifier? || ts[0].QuoteBrace?)
  {
    match x
    case Ref(name) => [Identifier(name)]
    case Index(subject, index) => EmitIndexable(subject) + [LBracket] + Emit(index) + [RBracket]
    case Pattern(args) => [QuoteBrace] + EmitArgs(args) + [RBrace]
  }

  predicate Closing(t: Token) {
    t == RBrace || t == RParen
  }

  function EmitArgs(args: Exprs): seq<Token> {
    match args
    case Nil => []
    case Cons(e, Nil) => Emit(e)
    case Cons(e, more) => Emit(e) + [Comma] + EmitArgs(more)
  }

  // ---------------------------------------------------------------------------
  // The grammar
  // ---------------------------------------------------------------------------

  /** Binary operators by row of the table of precedence, counted from the lowest, `||`; all associate to the left. */
  function Row(symbol: string): int {
    if symbol in {"||"} then 1
    else if symbol in {"&&"} then 2
    else if symbol in {"|"} then 3
    else if symbol in {"^"} then 4
    else if symbol in {"&"} then 5
    else if symbol in {"==", "!=", "===", "!=="} then 6
    else if symbol in {"<", "<=", ">", ">="} then 7
    else if symbol in {"<<", ">>", ">>>"} then 8
    else if symbol in {"+", "-"} then 9
    else if symbol in {"*", "/", "%"} then 10
    else 0
  }

  function BinaryOf(symbol: string): BinaryOp {
    if symbol == "+" then Add
    else if symbol == "-" then Sub
    else if symbol == "*" then Mul
    else if symbol == "/" then Div
    else if symbol == "%" then Mod
    else if symbol == "<<" then Shll
    else if symbol == ">>" then Shrl
    else if symbol == ">>>" then Shra
    else if symbol == "<" then LessThan
    else if symbol == "<=" then LessThanEquals
    else if symbol == ">" then GreaterThan
    else if symbol == ">=" then GreaterThanEquals
    else if symbol == "==" then Equals
    else if symbol == "!=" then NotEquals
    else if symbol == "===" then EqualsX
    else if symbol == "!==" then NotEqualsX
    else if symbol == "&" then BitwiseAnd
    else if symbol == "^" then BitwiseXor
    else if symbol == "|" then BitwiseOr
    else if symbol == "&&" then LogicalAnd
    else LogicalOr
  }

  predicate IsUnary(symbol: string) {
    symbol in {"-", "~", "!", "&", "|", "^"}
  }

  function UnaryOf(symbol: string): UnaryOp {
    if symbol == "-" then Negate
    else if symbol == "~" then BitwiseNot
    else if symbol == "!" then LogicalNot
    else if symbol == "&" then AndReduce
    else if symbol == "|" then OrReduce
    else XorReduce
  }

  datatype Parsed<+T> = Failed | Parsed(value: T, rest: seq<Token>)

  /** expression ::= binary | binary ? expression : expression */
  function ParseExpr(ts: seq<Token>): (r: Parsed<Expr>)
    ensures r.Parsed? ==> |r.rest| < |ts|
    decreases |ts|, 4
  {
    match ParseBinary(1, ts)
    case Failed => Failed
    case Parsed(test, ts1) =>
      if ts1 == [] || ts1[0] != Question then Parsed(test, ts1)
      else
        match ParseExpr(ts1[1..])
        case Failed => Failed
        case Parsed(consequent, ts2) =>
          if ts2 == [] || ts2[0] != Colon then Failed
          else
            match ParseExpr(ts2[1..])
            case Failed => Failed
            case Parsed(alternate, ts3) => Parsed(Ternary(test, consequent, alternate), ts3)
  }

  /** Operators of row `row` and above. */
  function ParseBinary(row: int, ts: seq<Token>): (r: Parsed<Expr>)
    ensures r.Parsed? ==> |r.rest| < |ts|
    decreases |ts|, 3
  {
    match ParseUnary(ts)
    case Failed => Failed
    case Parsed(lhs, ts1) => ParseOperators(row, lhs, ts1)
  }

  function ParseOperators(row: int, lhs: Expr, ts: seq<Token>): (r: Parsed<Expr>)
    ensures r.Parsed? ==> |r.rest| <= |ts|
    decreases |ts|, 0
  {
    if ts == [] || !ts[0].Sym? || Row(ts[0].symbol) == 0 || Row(ts[0].symbol) < row then Parsed(lhs, ts)
    else
      match ParseBinary(Row(ts[0].symbol) + 1, ts[1..])
      case Failed => Failed
      case Parsed(rhs, ts1) => ParseOperators(row, Binary(BinaryOf(ts[0].symbol), lhs, rhs), ts1)
  }

  function ParseUnary(ts: seq<Token>): (r: Parsed<Expr>)
    ensures r.Parsed? ==> |r.rest| < |ts|
    decreases |ts|, 2
  {
    if ts == [] then Failed
    else if ts[0].Sym? then
      if !IsUnary(ts[0].symbol) then Failed
      else
        match ParsePrimary(ts[1..])
        case Failed => Failed
        case Parsed(arg, ts1) => Parsed(Unary(UnaryOf(ts[0].symbol), arg), ts1)
    else ParsePrimary(ts)
  }

  function ParsePrimary(ts: seq<Token>): (r: Parsed<Expr>)
    ensures r.Parsed? ==> |r.rest| < |ts|
    decreases |ts|, 1
  {
    if ts == [] then Failed
    else
      match ts[0]
      case Digits(value) => Parsed(Number(value), ts[1..])
      case Sized(bits) => Parsed(Literal(bits), ts[1..])
      case Identifier(name) => ParseSelects(Ref(name), ts[1..])
      case QuoteBrace =>
        (match ParseArgs(RBrace, ts[1..])
         case Failed => Failed
         case Parsed(args, ts1) => ParseSelects(Pattern(args), ts1))
      case SystemName(name) =>
        if |ts| == 1 || ts[1] != LParen then Parsed(CallNoArgs(name), ts[1..])
        else
          (match ParseArgs(RParen, ts[1..][1..])
           case Failed => Failed
           case Parsed(args, ts1) => Parsed(Call(name, args), ts1))
      case LParen =>
        (match ParseExpr(ts[1..])
         case Failed => Failed
         case Parsed(e, ts1) => if ts1 == [] || ts1[0] != RParen then Failed else Parsed(e, ts1[1..]))
      case LBrace => ParseBraced(ts[1..])
      case _ => Failed
  }

  /** The brackets after what can be indexed; nothing can follow a slice or a part select. */
  function ParseSelects(x: Indexable, ts: seq<Token>): (r: Parsed<Expr>)
    ensures r.Parsed? ==> |r.rest| <= |ts|
    decreases |ts|, 0
  {
    if ts == [] || ts[0] != LBracket then Parsed(Plain(x), ts)
    else
      match ParseExpr(ts[1..])
      case Failed => Failed
      case Parsed(e, ts1) =>
        if ts1 == [] then Failed
        else if ts1[0] == RBracket then ParseSelects(Index(x, e), ts1[1..])
        else if ts1[0] != Colon && ts1[0] != PlusColon then Failed
        else
          match ParseExpr(ts1[1..])
          case Failed => Failed
          case Parsed(f, ts2) =>
            if ts2 == [] || ts2[0] != RBracket then Failed
            else Parsed(if ts1[0] == Colon then Slice(x, e, f) else PartSelect(x, e, f), ts2[1..])
  }

  /** After an opening brace: a concatenation, or a replication if another brace follows the first expression. */
  function ParseBraced(ts: seq<Token>): (r: Parsed<Expr>)
    ensures r.Parsed? ==> |r.rest| < |ts|
    decreases |ts|, 6
  {
    if ts != [] && ts[0] == RBrace then Parsed(Concat(NoExpr, Nil), ts[1..])
    else
      match ParseExpr(ts)
      case Failed => Failed
      case Parsed(e, ts1) =>
        if ts1 != [] && ts1[0] == LBrace then
          match ParseArgs(RBrace, ts1[1..])
          case Failed => Failed
          case Parsed(args, ts2) =>
            if ts2 == [] || ts2[0] != RBrace then Failed else Parsed(Concat(SomeExpr(e), args), ts2[1..])
        else
          match ParseMore(RBrace, ts1)
          case Failed => Failed
          case Parsed(more, ts2) => Parsed(Concat(NoExpr, Cons(e, more)), ts2)
  }

  /** Expressions separated by commas, up to and including the closing token. */
  function ParseArgs(close: Token, ts: seq<Token>): (r: Parsed<Exprs>)
    ensures r.Parsed? ==> |r.rest| < |ts|
    decreases |ts|, 6
  {
    if ts != [] && ts[0] == close then Parsed(Nil, ts[1..])
    else
      match ParseExpr(ts)
      case Failed => Failed
      case Parsed(e, ts1) =>
        match ParseMore(close, ts1)
        case Failed => Failed
        case Parsed(more, ts2) => Parsed(Cons(e, more), ts2)
  }

  function ParseMore(close: Token, ts: seq<Token>): (r: Parsed<Exprs>)
    ensures r.Parsed? ==> |r.rest| < |ts|
    decreases |ts|, 5
  {
    if ts == [] then Failed
    else if ts[0] == close then Parsed(Nil, ts[1..])
    else if ts[0] != Comma then Failed
    else
      match ParseExpr(ts[1..])
      case Failed => Failed
      case Parsed(e, ts1) =>
        match ParseMore(close, ts1)
        case Failed => Failed
        case Parsed(more, ts2) => Parsed(Cons(e, more), ts2)
  }

  // ---------------------------------------------------------------------------
  // Round trip
  // ---------------------------------------------------------------------------

  lemma UnaryReadsBack(u: UnaryOp)
    ensures IsUnary(UnarySymbol(u)) && UnaryOf(UnarySymbol(u)) == u
  {
  }

  lemma BinaryReadsBack(b: BinaryOp)
    ensures BinaryOf(BinarySymbol(b)) == b && Row(BinarySymbol(b)) == BinaryPrecedence(b)
  {
    assert b.Add? || b.Sub? || b.Mul? || b.Div? || b.Mod? || b.Shll? || b.Shrl? || b.Shra? || b.LessThan?
        || b.LessThanEquals? || b.GreaterThan? || b.GreaterThanEquals? || b.Equals? || b.NotEquals? || b.EqualsX?
        || b.NotEqualsX? || b.BitwiseAnd? || b.BitwiseXor? || b.BitwiseOr? || b.LogicalAnd? || b.LogicalOr?;
  }

  /** The tokens do not go on with a bracket or arguments, nor with an operator of row `row` or above. */
  predicate StopsAt(row: int, ts: seq<Token>) {
    ts == [] || (Separate(ts) && (!ts[0].Sym? || Row(ts[0].symbol) == 0 || Row(ts[0].symbol) < row))
  }

  predicate Separate(ts: seq<Token>) {
    ts == [] || (ts[0] != LBracket && ts[0] != LParen)
  }

  /** ... nor with any operator. */
  predicate Stops(ts: seq<Token>) {
    StopsAt(1, ts) && (ts == [] || ts[0] != Question)
  }

  // How the tokens of an expression followed by `rest` split.

  predicate WrapsLeft(e: Expr)
    requires e.Binary?
  {
    Precedence(e.lhs) < Precedence(e) || IsReduction(e.lhs)
  }

  predicate WrapsRight(e: Expr)
    requires e.Binary?
  {
    Precedence(e.rhs) <= Precedence(e) || IsReduction(e.rhs)
  }

  lemma BinarySplits(e: Expr, rest: seq<Token>)
    requires e.Binary?
    ensures Emit(e) + rest == MaybeWrap(WrapsLeft(e), Emit(e.lhs))
                              + ([Sym(BinarySymbol(e.bop))] + (MaybeWrap(WrapsRight(e), Emit(e.rhs)) + rest))
  {
    hide MaybeWrap, Precedence, IsReduction;
    AssociatesFour(MaybeWrap(WrapsLeft(e), Emit(e.lhs)), [Sym(BinarySymbol(e.bop))], MaybeWrap(WrapsRight(e), Emit(e.rhs)), rest);
  }

  lemma TernarySplits(e: Expr, rest: seq<Token>)
    requires e.Ternary?
    ensures Emit(e) + rest
         == MaybeWrap(e.test.Ternary?, Emit(e.test))
            + ([Question] + (MaybeWrap(e.consequent.Ternary?, Emit(e.consequent))
                             + ([Colon] + (MaybeWrap(e.alternate.Ternary?, Emit(e.alternate)) + rest))))
  {
    hide MaybeWrap;
    PrecedencesPositive(e);
    var t, c := MaybeWrap(e.test.Ternary?, Emit(e.test)), MaybeWrap(e.consequent.Ternary?, Emit(e.consequent));
    var a := MaybeWrap(e.alternate.Ternary?, Emit(e.alternate));
    assert Emit(e) == t + [Question] + c + [Colon] + a;
    hide Emit;
    AssociatesFour(t, [Question], c, [Colon] + a + rest);
    AssociatesFour(t + [Question] + c, [Colon], a, rest);
  }

  lemma ParenSplits(ts: seq<Token>, rest: seq<Token>)
    ensures MaybeWrap(true, ts) + rest == [LParen] + (ts + ([RParen] + rest))
  {
    AssociatesFour([LParen], ts, [RParen], rest);
  }

  lemma DropFirst<T>(x: T, ts: seq<T>)
    ensures ([x] + ts)[0] == x && ([x] + ts)[1..] == ts
  {
  }

  /** Not an operator: emitted as a primary. */
  predicate IsPrimary(e: Expr) {
    Precedence(e) == 13
  }

  /** A primary, or anything in parentheses, reads back. */
  lemma {:induction false} PrimaryReads(e: Expr, wrap: bool, rest: seq<Token>)
    requires wrap || (IsPrimary(e) && Separate(rest))
    ensures ParsePrimary(MaybeWrap(wrap, Emit(e)) + rest) == Parsed(e, rest)
    decreases e, if wrap then 7 else 3
  {
    if wrap {
      hide Row, Emit, ParseExpr;
      ExprReads(e, [RParen] + rest);
      ParenSplits(Emit(e), rest);
      DropFirst(LParen, Emit(e) + ([RParen] + rest));
      DropFirst(RParen, rest);
    } else {
      UnwrappedReads(e, rest);
    }
  }

  lemma {:induction false} UnwrappedReads(e: Expr, rest: seq<Token>)
    requires IsPrimary(e) && Separate(rest)
    ensures ParsePrimary(Emit(e) + rest) == Parsed(e, rest)
    decreases e, 2
  {
    match e
    case Number(value) => DropFirst(Digits(value), rest);
    case Literal(bits) => DropFirst(Sized(bits), rest);
    case Plain(x) => IndexableReads(x, rest);
    case Slice(_, _, _) => SliceReads(e, rest);
    case PartSelect(_, _, _) => SliceReads(e, rest);
    case Call(_, _) => CallReads(e, rest);
    case CallNoArgs(name) => DropFirst(SystemName(name), rest);
    case Concat(_, _) => BracedReads(e, rest);
    case Unary(_, _) =>
    case Binary(_, _, _) =>
    case Ternary(_, _, _) =>
  }

  /** Reading what can be indexed reaches the point where it has been read and brackets may follow. */
  lemma {:induction false} IndexableReads(x: Indexable, rest: seq<Token>)
    ensures ParsePrimary(EmitIndexable(x) + rest) == ParseSelects(x, rest)
    decreases x, 3
  {
    match x
    case Ref(name) => DropFirst(Identifier(name), rest);
    case Index(subject, index) => ElementReads(x, rest);
    case Pattern(args) =>
      var ts := EmitArgs(args) + [RBrace] + rest;
      assert EmitIndexable(x) + rest == [QuoteBrace] + ts;
      hide ParseArgs, ParseSelects;
      DropFirst(QuoteBrace, ts);
      ArgsRead(RBrace, args, rest);
  }

  lemma {:induction false} ElementReads(x: Indexable, rest: seq<Token>)
    requires x.Index?
    ensures ParsePrimary(EmitIndexable(x) + rest) == ParseSelects(x, rest)
    decreases x, 2
  {
    var index := Emit(x.index) + ([RBracket] + rest);
    BracketsSplit(EmitIndexable(x.subject), Emit(x.index), rest);
    IndexableReads(x.subject, [LBracket] + index);
    hide ParsePrimary, ParseExpr, Emit;
    DropFirst(LBracket, index);
    ExprReads(x.index, [RBracket] + rest);
    DropFirst(RBracket, rest);
  }

  lemma BracketsSplit(subject: seq<Token>, index: seq<Token>, rest: seq<Token>)
    ensures subject + [LBracket] + index + [RBracket] + rest == subject + ([LBracket] + (index + ([RBracket] + rest)))
  {
    AssociatesFour(subject, [LBracket], index, [RBracket] + rest);
    Associates(subject + [LBracket] + index, [RBracket], rest);
  }

  // The two parts between the brackets of a slice or a part select.

  function Separator(e: Expr): Token
    requires e.Slice? || e.PartSelect?
  {
    if e.Slice? then Colon else PlusColon
  }

  function FirstPart(e: Expr): Expr
    requires e.Slice? || e.PartSelect?
  {
    if e.Slice? then e.hi else e.start
  }

  function SecondPart(e: Expr): Expr
    requires e.Slice? || e.PartSelect?
  {
    if e.Slice? then e.lo else e.width
  }

  lemma {:induction false} SliceReads(e: Expr, rest: seq<Token>)
    requires e.Slice? || e.PartSelect?
    ensures ParsePrimary(Emit(e) + rest) == Parsed(e, rest)
    decreases e, 1
  {
    hide ParsePrimary, ParseExpr, Emit, EmitIndexable, Row;
    var first, second := FirstPart(e), SecondPart(e);
    var tail := Emit(second) + ([RBracket] + rest);
    var after := [Separator(e)] + tail;
    SliceSplits(e, rest);
    IndexableReads(e.subject, [LBracket] + (Emit(first) + after));
    DropFirst(LBracket, Emit(first) + after);
    ExprReads(first, after);
    DropFirst(Separator(e), tail);
    ExprReads(second, [RBracket] + rest);
    DropFirst(RBracket, rest);
  }

  lemma SliceSplits(e: Expr, rest: seq<Token>)
    requires e.Slice? || e.PartSelect?
    ensures Emit(e) + rest
         == EmitIndexable(e.subject)
            + ([LBracket] + (Emit(FirstPart(e)) + ([Separator(e)] + (Emit(SecondPart(e)) + ([RBracket] + rest)))))
  {
    var x, f, g := EmitIndexable(e.subject), Emit(FirstPart(e)), Emit(SecondPart(e));
    assert Emit(e) == x + [LBracket] + f + [Separator(e)] + g + [RBracket];
    hide Emit, EmitIndexable;
    var start := x + [LBracket] + f;
    AssociatesFour(start, [Separator(e)], g, [RBracket] + rest);
    Associates(start + [Separator(e)] + g, [RBracket], rest);
    AssociatesFour(x, [LBracket], f, [Separator(e)] + (g + ([RBracket] + rest)));
  }

  lemma {:induction false} CallReads(e: Expr, rest: seq<Token>)
    requires e.Call?
    ensures ParsePrimary(Emit(e) + rest) == Parsed(e, rest)
    decreases e, 1
  {
    var ts := EmitArgs(e.args) + [RParen] + rest;
    assert Emit(e) + rest == [SystemName(e.name)] + ([LParen] + ts);
    hide ParseArgs, Emit;
    DropFirst(SystemName(e.name), [LParen] + ts);
    DropFirst(LParen, ts);
    ArgsRead(RParen, e.args, rest);
  }

  lemma {:induction false} BracedReads(e: Expr, rest: seq<Token>)
    requires e.Concat?
    ensures ParsePrimary(Emit(e) + rest) == Parsed(e, rest)
    decreases e, 1
  {
    if e.replication.NoExpr? {
      hide EmitArgs, ParseBraced;
      var args := EmitArgs(e.args);
      ConcatReads(e.args, rest);
      AssociatesFour([LBrace], args, [RBrace], rest);
      Associates(args, [RBrace], rest);
      DropFirst(LBrace, args + [RBrace] + rest);
    } else {
      ReplicationReads(e, rest);
    }
  }

  lemma {:induction false} ConcatReads(args: Exprs, rest: seq<Token>)
    ensures ParseBraced(EmitArgs(args) + [RBrace] + rest) == Parsed(Concat(NoExpr, args), rest)
    decreases args, 10
  {
    var ts := EmitArgs(args) + [RBrace] + rest;
    if args.Nil? {
      assert ts[1..] == rest;
    } else {
      ArgSplits(RBrace, args.head, args.tail, rest);
      MoreReads(RBrace, args.tail, rest);
      ExprReads(args.head, AfterArg(RBrace, args.tail, rest));
    }
  }

  lemma {:induction false} ReplicationReads(e: Expr, rest: seq<Token>)
    requires e.Concat? && e.replication.SomeExpr?
    ensures ParsePrimary(Emit(e) + rest) == Parsed(e, rest)
    decreases e, 0
  {
    var n, args := e.replication.expr, e.args;
    var after := [LBrace] + (EmitArgs(args) + [RBrace] + ([RBrace] + rest));
    ReplicationSplits(e, rest);
    hide Emit, EmitArgs, Row, ParseExpr, ParseArgs;
    DropFirst(LBrace, Emit(n) + after);
    ExprReads(n, after);
    ArgsRead(RBrace, args, [RBrace] + rest);
    DropFirst(LBrace, EmitArgs(args) + [RBrace] + ([RBrace] + rest));
    DropFirst(RBrace, rest);
    FirstIsNotClosing(n, after);
  }

  lemma ReplicationSplits(e: Expr, rest: seq<Token>)
    requires e.Concat? && e.replication.SomeExpr?
    ensures Emit(e) + rest
         == [LBrace] + (Emit(e.replication.expr) + ([LBrace] + (EmitArgs(e.args) + [RBrace] + ([RBrace] + rest))))
  {
    var n, args := Emit(e.replication.expr), EmitArgs(e.args);
    assert Emit(e) == [LBrace] + n + [LBrace] + args + [RBrace] + [RBrace];
    hide Emit, EmitArgs;
    var start, tail := [LBrace] + n + [LBrace], [RBrace] + rest;
    AssociatesFour(start, args, [RBrace], tail);
    AssociatesFour(start + args, [RBrace], [RBrace], rest);
    Associates(args, [RBrace], tail);
    AssociatesFour([LBrace], n, [LBrace], args + [RBrace] + tail);
  }

  lemma FirstIsNotClosing(n: Expr, after: seq<Token>)
    ensures Emit(n) + after != [] && !Closing((Emit(n) + after)[0])
  {
  }

  /** What follows an argument. */
  function AfterArg(close: Token, more: Exprs, rest: seq<Token>): seq<Token> {
    if more.Nil? then [close] + rest else [Comma] + (EmitArgs(more) + [close] + rest)
  }

  lemma ArgSplits(close: Token, e: Expr, more: Exprs, rest: seq<Token>)
    requires Closing(close)
    ensures EmitArgs(Cons(e, more)) + [close] + rest == Emit(e) + AfterArg(close, more, rest)
    ensures Stops(AfterArg(close, more, rest)) && AfterArg(close, more, rest)[0] != LBrace
    ensures !Closing((Emit(e) + AfterArg(close, more, rest))[0])
  {
    hide Emit, Row;
    var ts, others := Emit(e), EmitArgs(more);
    if more.Nil? {
      Associates(ts, [close], rest);
    } else {
      assert EmitArgs(Cons(e, more)) == ts + [Comma] + others;
      hide EmitArgs;
      AssociatesFour(ts, [Comma], others, [close] + rest);
      Associates(ts + [Comma] + others, [close], rest);
      Associates(others, [close], rest);
    }
  }

  lemma {:induction false} ArgsRead(close: Token, args: Exprs, rest: seq<Token>)
    requires Closing(close)
    ensures ParseArgs(close, EmitArgs(args) + [close] + rest) == Parsed(args, rest)
    decreases args, 9
  {
    var ts := EmitArgs(args) + [close] + rest;
    if args.Nil? {
      assert ts[1..] == rest;
    } else {
      ArgSplits(close, args.head, args.tail, rest);
      hide ParseExpr, ParseMore, EmitArgs, Emit;
      ExprReads(args.head, AfterArg(close, args.tail, rest));
      MoreReads(close, args.tail, rest);
    }
  }

  lemma {:induction false} MoreReads(close: Token, more: Exprs, rest: seq<Token>)
    requires Closing(close)
    ensures ParseMore(close, AfterArg(close, more, rest)) == Parsed(more, rest)
    decreases more, 9
  {
    var ts := AfterArg(close, more, rest);
    if more.Nil? {
      assert ts[1..] == rest;
    } else {
      ArgSplits(close, more.head, more.tail, rest);
      assert ts[1..] == Emit(more.head) + AfterArg(close, more.tail, rest);
      hide ParseExpr, EmitArgs, Emit;
      ExprReads(more.head, AfterArg(close, more.tail, rest));
      MoreReads(close, more.tail, rest);
    }
  }

  lemma {:induction false} UnaryReads(e: Expr, wrap: bool, rest: seq<Token>)
    requires wrap || (12 <= Precedence(e) && Separate(rest))
    ensures ParseUnary(MaybeWrap(wrap, Emit(e)) + rest) == Parsed(e, rest)
    decreases e, if wrap then 8 else 4
  {
    hide Row, UnarySymbol, UnaryOf, IsUnary, BinarySymbol, BinaryOf, Emit, MaybeWrap, ParsePrimary;
    if !wrap && e.Unary? {
      var arg := MaybeWrap(WrapsArg(e), Emit(e.arg)) + rest;
      PrimaryReads(e.arg, WrapsArg(e), rest);
      UnaryReadsBack(e.uop);
      UnarySplits(e, rest);
      DropFirst(Sym(UnarySymbol(e.uop)), arg);
    } else {
      PrimaryReads(e, wrap, rest);
      FirstIsNotSymbol(e, wrap, rest);
    }
  }

  predicate WrapsArg(e: Expr)
    requires e.Unary?
  {
    Precedence(e.arg) < 12 || e.arg.Unary?
  }

  lemma UnarySplits(e: Expr, rest: seq<Token>)
    requires e.Unary?
    ensures MaybeWrap(false, Emit(e)) + rest
         == [Sym(UnarySymbol(e.uop))] + (MaybeWrap(WrapsArg(e), Emit(e.arg)) + rest)
  {
    var arg := MaybeWrap(WrapsArg(e), Emit(e.arg));
    assert Emit(e) == [Sym(UnarySymbol(e.uop))] + arg;
  }

  lemma FirstIsNotSymbol(e: Expr, wrap: bool, rest: seq<Token>)
    requires wrap || IsPrimary(e)
    ensures var ts := MaybeWrap(wrap, Emit(e)) + rest; ts != [] && !ts[0].Sym?
  {
  }

  /** An operand of a binary operator: parsing at row `row` reaches the point where `e` has been read. */
  lemma {:induction false} OperandReads(e: Expr, wrap: bool, row: int, rest: seq<Token>)
    requires wrap || (1 <= row <= Precedence(e) && StopsAt(Precedence(e) + 1, rest))
    ensures ParseBinary(row, MaybeWrap(wrap, Emit(e)) + rest) == ParseOperators(row, e, rest)
    decreases e, if wrap then 9 else 5
  {
    hide ParseOperators;
    if wrap || !e.Binary? {
      UnaryReads(e, wrap, rest);
    } else {
      BinaryReads(e, row, rest);
    }
  }

  lemma {:induction false} BinaryReads(e: Expr, row: int, rest: seq<Token>)
    requires e.Binary? && 1 <= row <= Precedence(e) && StopsAt(Precedence(e) + 1, rest)
    ensures ParseBinary(row, Emit(e) + rest) == ParseOperators(row, e, rest)
    decreases e, 2
  {
    var p := Precedence(e);
    var right := MaybeWrap(WrapsRight(e), Emit(e.rhs)) + rest;
    var after := [Sym(BinarySymbol(e.bop))] + right;
    BinarySplits(e, rest);
    BinaryReadsBack(e.bop);
    DropFirst(Sym(BinarySymbol(e.bop)), right);
    hide ParseBinary, BinaryOf, Row, Emit, MaybeWrap, BinarySymbol;
    OperandReads(e.lhs, WrapsLeft(e), row, after);
    OperandReads(e.rhs, WrapsRight(e), p + 1, rest);
  }

  /** An expression reads back when no operator follows. */
  lemma {:induction false} ExprReads(e: Expr, rest: seq<Token>)
    requires Stops(rest)
    ensures ParseExpr(Emit(e) + rest) == Parsed(e, rest)
    decreases e, 6
  {
    hide Row;
    if e.Ternary? {
      TernaryReads(e, rest);
    } else {
      OperandReads(e, false, 1, rest);
    }
  }

  lemma {:induction false} TernaryReads(e: Expr, rest: seq<Token>)
    requires e.Ternary? && Stops(rest)
    ensures ParseExpr(Emit(e) + rest) == Parsed(e, rest)
    decreases e, 4
  {
    TernarySplits(e, rest);
    PrecedencesPositive(e);
    hide Row, ParseBinary, Emit, MaybeWrap, ParseOperators;
    var alternate := MaybeWrap(e.alternate.Ternary?, Emit(e.alternate)) + rest;
    var consequent := MaybeWrap(e.consequent.Ternary?, Emit(e.consequent)) + ([Colon] + alternate);
    TestReads(e.test, consequent);
    DropFirst(Question, consequent);
    WrappedReads(e.consequent, e.consequent.Ternary?, [Colon] + alternate);
    DropFirst(Colon, alternate);
    WrappedReads(e.alternate, e.alternate.Ternary?, rest);
  }

  lemma {:induction false} TestReads(test: Expr, consequent: seq<Token>)
    ensures ParseBinary(1, MaybeWrap(test.Ternary?, Emit(test)) + ([Question] + consequent))
         == Parsed(test, [Question] + consequent)
    decreases test, 10
  {
    hide Row, ParseBinary, Emit, MaybeWrap;
    OperandReads(test, test.Ternary?, 1, [Question] + consequent);
  }

  lemma PrecedencesPositive(e: Expr)
    requires e.Ternary?
    ensures Precedence(e.test) <= 0 <==> e.test.Ternary?
    ensures Precedence(e.consequent) <= 0 <==> e.consequent.Ternary?
    ensures Precedence(e.alternate) <= 0 <==> e.alternate.Ternary?
  {
  }

  lemma {:induction false} WrappedReads(e: Expr, wrap: bool, rest: seq<Token>)
    requires Stops(rest)
    ensures ParseExpr(MaybeWrap(wrap, Emit(e)) + rest) == Parsed(e, rest)
    decreases e, 10
  {
    hide Row;
    if wrap {
      OperandReads(e, true, 1, rest);
    } else {
      ExprReads(e, rest);
    }
  }

  /** Parsing what is emitted gives the expression back, for every expression. */
  lemma RoundTrip(e: Expr)
    ensures ParseExpr(Emit(e)) == Parsed(e, [])
  {
    ExprReads(e, []);
    assert Emit(e) + [] == Emit(e);
  }

  /** So two expressions are never emitted alike. */
  lemma EmissionIsUnambiguous(e: Expr, f: Expr)
    requires Emit(e) == Emit(f)
    ensures e == f
  {
    RoundTrip(e);
    RoundTrip(f);
  }

  // ---------------------------------------------------------------------------
  // Variables declared without a width
  // ---------------------------------------------------------------------------

  /** A reference to a variable declared without a width. */
  predicate IsScalar(x: Indexable, scalars: set<string>) {
    x.Ref? && x.name in scalars
  }

  /** Emission leaves out an index or a slice of such a variable. */
  function Shown(e: Expr, scalars: set<string>): Expr {
    match e
    case Number(_) => e
    case Literal(_) => e
    case Plain(x) => Plain(ShownIndexable(x, scalars))
    case Slice(subject, hi, lo) =>
      if IsScalar(subject, scalars) then Plain(subject)
      else Slice(ShownIndexable(subject, scalars), Shown(hi, scalars), Shown(lo, scalars))
    case PartSelect(subject, start, width) =>
      PartSelect(ShownIndexable(subject, scalars), Shown(start, scalars), Shown(width, scalars))
    case Call(name, args) => Call(name, ShownArgs(args, scalars))
    case CallNoArgs(_) => e
    case Unary(op, arg) => Unary(op, Shown(arg, scalars))
    case Binary(op, lhs, rhs) => Binary(op, Shown(lhs, scalars), Shown(rhs, scalars))
    case Ternary(test, consequent, alternate) =>
      Ternary(Shown(test, scalars), Shown(consequent, scalars), Shown(alternate, scalars))
    case Concat(NoExpr, args) => Concat(NoExpr, ShownArgs(args, scalars))
    case Concat(SomeExpr(n), args) => Concat(SomeExpr(Shown(n, scalars)), ShownArgs(args, scalars))
  }

  function ShownIndexable(x: Indexable, scalars: set<string>): Indexable {
    match x
    case Ref(_) => x
    case Index(subject, index) =>
      if IsScalar(subject, scalars) then subject else Index(ShownIndexable(subject, scalars), Shown(index, scalars))
    case Pattern(args) => Pattern(ShownArgs(args, scalars))
  }

  function ShownArgs(args: Exprs, scalars: set<string>): Exprs {
    match args
    case Nil => Nil
    case Cons(e, more) => Cons(Shown(e, scalars), ShownArgs(more, scalars))
  }

  /** The text of an expression. */
  function Text(e: Expr, scalars: set<string>): seq<Token> {
    Emit(Shown(e, scalars))
  }

  /** No variable declared without a width is indexed or sliced. */
  predicate NoScalarSelected(e: Expr, scalars: set<string>) {
    match e
    case Number(_) => true
    case Literal(_) => true
    case Plain(x) => NoScalarIndexed(x, scalars)
    case Slice(subject, hi, lo) =>
      && !IsScalar(subject, scalars) && NoScalarIndexed(subject, scalars)
      && NoScalarSelected(hi, scalars) && NoScalarSelected(lo, scalars)
    case PartSelect(subject, start, width) =>
      NoScalarIndexed(subject, scalars) && NoScalarSelected(start, scalars) && NoScalarSelected(width, scalars)
    case Call(_, args) => NoScalarsSelected(args, scalars)
    case CallNoArgs(_) => true
    case Unary(_, arg) => NoScalarSelected(arg, scalars)
    case Binary(_, lhs, rhs) => NoScalarSelected(lhs, scalars) && NoScalarSelected(rhs, scalars)
    case Ternary(test, consequent, alternate) =>
      && NoScalarSelected(test, scalars) && NoScalarSelected(consequent, scalars)
      && NoScalarSelected(alternate, scalars)
    case Concat(NoExpr, args) => NoScalarsSelected(args, scalars)
    case Concat(SomeExpr(n), args) => NoScalarSelected(n, scalars) && NoScalarsSelected(args, scalars)
  }

  predicate NoScalarIndexed(x: Indexable, scalars: set<string>) {
    match x
    case Ref(_) => true
    case Index(subject, index) =>
      !IsScalar(subject, scalars) && NoScalarIndexed(subject, scalars) && NoScalarSelected(index, scalars)
    case Pattern(args) => NoScalarsSelected(args, scalars)
  }

  predicate NoScalarsSelected(args: Exprs, scalars: set<string>) {
    args.Cons? ==> NoScalarSelected(args.head, scalars) && NoScalarsSelected(args.tail, scalars)
  }

  lemma {:induction false} ShownSame(e: Expr, scalars: set<string>)
    ensures Shown(e, scalars) == e <==> NoScalarSelected(e, scalars)
    decreases e
  {
    match e
    case Number(_) =>
    case Literal(_) =>
    case CallNoArgs(_) =>
    case Plain(x) => IndexableSame(x, scalars);
    case Slice(subject, hi, lo) =>
      IndexableSame(subject, scalars);
      ShownSame(hi, scalars);
      ShownSame(lo, scalars);
    case PartSelect(subject, start, width) =>
      IndexableSame(subject, scalars);
      ShownSame(start, scalars);
      ShownSame(width, scalars);
    case Call(_, args) => ArgsSame(args, scalars);
    case Unary(_, arg) => ShownSame(arg, scalars);
    case Binary(_, lhs, rhs) =>
      ShownSame(lhs, scalars);
      ShownSame(rhs, scalars);
    case Ternary(test, consequent, alternate) =>
      ShownSame(test, scalars);
      ShownSame(consequent, scalars);
      ShownSame(alternate, scalars);
    case Concat(NoExpr, args) => ArgsSame(args, scalars);
    case Concat(SomeExpr(n), args) =>
      ShownSame(n, scalars);
      ArgsSame(args, scalars);
  }

  lemma {:induction false} IndexableSame(x: Indexable, scalars: set<string>)
    ensures ShownIndexable(x, scalars) == x <==> NoScalarIndexed(x, scalars)
    decreases x
  {
    match x
    case Ref(_) =>
    case Index(subject, index) =>
      IndexableSame(subject, scalars);
      ShownSame(index, scalars);
      assert x.subject == subject && x != subject;
    case Pattern(args) => ArgsSame(args, scalars);
  }

  lemma {:induction false} ArgsSame(args: Exprs, scalars: set<string>)
    ensures ShownArgs(args, scalars) == args <==> NoScalarsSelected(args, scalars)
    decreases args
  {
    if args.Cons? {
      ShownSame(args.head, scalars);
      ArgsSame(args.tail, scalars);
    }
  }

  /** Reading the text gives the expression as shown, and the expression itself exactly when no variable declared without
      a width is indexed or sliced. */
  lemma TextReads(e: Expr, scalars: set<string>)
    ensures ParseExpr(Text(e, scalars)) == Parsed(Shown(e, scalars), [])
    ensures ParseExpr(Text(e, scalars)) == Parsed(e, []) <==> NoScalarSelected(e, scalars)
  {
    hide Shown, NoScalarSelected, Emit, ParseExpr;
    RoundTrip(Shown(e, scalars));
    ShownSame(e, scalars);
  }

  /** Two expressions have the same text exactly when they are shown alike. */
  lemma TextsAlike(e: Expr, f: Expr, scalars: set<string>)
    ensures Text(e, scalars) == Text(f, scalars) <==> Shown(e, scalars) == Shown(f, scalars)
  {
    hide Shown, Emit, ParseExpr;
    RoundTrip(Shown(e, scalars));
    RoundTrip(Shown(f, scalars));
  }

  /** An index of such a variable reads back as the variable. */
  lemma ScalarIndexReadsBare(name: string, index: Expr, scalars: set<string>)
    requires name in scalars
    ensures ParseExpr(Text(Plain(Index(Ref(name), index)), scalars)) == Parsed(Plain(Ref(name)), [])
  {
    hide Emit, ParseExpr;
    assert ShownIndexable(Index(Ref(name), index), scalars) == Ref(name);
    RoundTrip(Plain(Ref(name)));
  }
}
