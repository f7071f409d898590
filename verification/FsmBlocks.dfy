/**
 The blocks of a finite state machine (xls/codegen/finite_state_machine.h): what they assign on a
 code path, how often at most, and when some path assigns a variable more than once.
 */
module FsmBlocks {

  /** A Verilog variable, by identity. */
  type Ref = nat

  /** A Verilog expression object. Literals made separately are different objects but have bits to compare. */
  datatype Expr = Literal(id: nat, bits: seq<bool>) | Other(id: nat)

  datatype Assignment = Assignment(lhs: Ref, rhs: Expr)

  /** An output and its default value. */
  datatype Output = Output(ref: Ref, default: Expr)

  /** A block: unconditional assignments, then conditional ladders. */
  datatype Block = Block(assignments: seq<Assignment>, conds: Conds)
  datatype Conds = Nil | Cons(head: Ladder, tail: Conds)
  datatype Ladder = Ladder(condition: nat, block: Block, rest: Alternate)
  datatype Alternate = NoElse | ElseIf(next: Ladder) | Else(last: Block)

  const EMPTY: Block := Block([], Nil)

  /** The truth of every condition: a code path. */
  type Path = nat -> bool

  /** The value of every expression that is not a literal. */
  type Values = nat -> seq<bool>

  ghost function ValueOf(e: Expr, v: Values): seq<bool> {
    match e
    case Literal(_, bits) => bits
    case Other(id) => v(id)
  }

  // ---------------------------------------------------------------------------
  // What a block assigns
  // ---------------------------------------------------------------------------

  /** Right-hand sides of the assignments to `r`, in order. */
  function Own(a: seq<Assignment>, r: Ref): seq<Expr> {
    if a == [] then []
    else Own(a[..|a| - 1], r) + if a[|a| - 1].lhs == r then [a[|a| - 1].rhs] else []
  }

  lemma OwnAppend(a: seq<Assignment>, x: Assignment, r: Ref)
    ensures Own(a + [x], r) == Own(a, r) + if x.lhs == r then [x.rhs] else []
  {
    assert (a + [x])[..|a|] == a;
  }

  /** What is assigned to `r` along a code path. */
  ghost function Assigned(b: Block, r: Ref, p: Path): seq<Expr> {
    Own(b.assignments, r) + AssignedC(b.conds, r, p)
  }

  ghost function AssignedC(cs: Conds, r: Ref, p: Path): seq<Expr> {
    match cs
    case Nil => []
    case Cons(l, t) => AssignedL(l, r, p) + AssignedC(t, r, p)
  }

  ghost function AssignedL(l: Ladder, r: Ref, p: Path): seq<Expr> {
    if p(l.condition) then Assigned(l.block, r, p)
    else
      match l.rest
      case NoElse => []
      case ElseIf(n) => AssignedL(n, r, p)
      case Else(b) => Assigned(b, r, p)
  }

  /** The query HasAssignmentToOutput. */
  predicate Assigns(b: Block, r: Ref) {
    Own(b.assignments, r) != [] || AssignsC(b.conds, r)
  }

  predicate AssignsC(cs: Conds, r: Ref) {
    match cs
    case Nil => false
    case Cons(l, t) => AssignsL(l, r) || AssignsC(t, r)
  }

  predicate AssignsL(l: Ladder, r: Ref) {
    || Assigns(l.block, r)
    || match l.rest
       case NoElse => false
       case ElseIf(n) => AssignsL(n, r)
       case Else(b) => Assigns(b, r)
  }

  function Max(x: nat, y: nat): nat {
    if x < y then y else x
  }

  /** The source's count of assignments to `r`: the most on any code path, as if conditions were independent. */
  function Most(b: Block, r: Ref): nat {
    |Own(b.assignments, r)| + MostC(b.conds, r)
  }

  function MostC(cs: Conds, r: Ref): nat {
    match cs
    case Nil => 0
    case Cons(l, t) => MostL(l, r) + MostC(t, r)
  }

  function MostL(l: Ladder, r: Ref): nat {
    Max(Most(l.block, r),
        match l.rest
        case NoElse => 0
        case ElseIf(n) => MostL(n, r)
        case Else(b) => Most(b, r))
  }

  /** `r` is assigned exactly once on every code path, whatever the conditions. */
  ghost predicate Once(b: Block, r: Ref) {
    if Own(b.assignments, r) != [] then |Own(b.assignments, r)| == 1 && !AssignsC(b.conds, r)
    else OnceC(b.conds, r)
  }

  ghost predicate OnceC(cs: Conds, r: Ref) {
    match cs
    case Nil => false
    case Cons(l, t) => if AssignsL(l, r) then OnceL(l, r) && !AssignsC(t, r) else OnceC(t, r)
  }

  ghost predicate OnceL(l: Ladder, r: Ref) {
    && Once(l.block, r)
    && match l.rest
       case NoElse => false
       case ElseIf(n) => OnceL(n, r)
       case Else(b) => Once(b, r)
  }

  // Assigning nothing, at most `Most`, and exactly once, on a path.

  lemma {:induction false} MostBounds(b: Block, r: Ref, p: Path)
    ensures |Assigned(b, r, p)| <= Most(b, r)
    ensures Assigns(b, r) <==> Most(b, r) > 0
  {
    MostBoundsC(b.conds, r, p);
  }

  lemma {:induction false} MostBoundsC(cs: Conds, r: Ref, p: Path)
    ensures |AssignedC(cs, r, p)| <= MostC(cs, r)
    ensures AssignsC(cs, r) <==> MostC(cs, r) > 0
  {
    match cs
    case Nil =>
    case Cons(l, t) =>
      MostBoundsL(l, r, p);
      MostBoundsC(t, r, p);
  }

  lemma {:induction false} MostBoundsL(l: Ladder, r: Ref, p: Path)
    ensures |AssignedL(l, r, p)| <= MostL(l, r)
    ensures AssignsL(l, r) <==> MostL(l, r) > 0
  {
    MostBounds(l.block, r, p);
    match l.rest
    case NoElse =>
    case ElseIf(n) => MostBoundsL(n, r, p);
    case Else(b) => MostBounds(b, r, p);
  }

  lemma {:induction false} OnceMeansOnce(b: Block, r: Ref, p: Path)
    requires Once(b, r)
    ensures |Assigned(b, r, p)| == 1
    ensures Own(b.assignments, r) != [] ==> Assigned(b, r, p) == Own(b.assignments, r)
  {
    if Own(b.assignments, r) != [] {
      MostBoundsC(b.conds, r, p);
    } else {
      OnceMeansOnceC(b.conds, r, p);
    }
  }

  lemma {:induction false} OnceMeansOnceC(cs: Conds, r: Ref, p: Path)
    requires OnceC(cs, r)
    ensures |AssignedC(cs, r, p)| == 1
  {
    if AssignsL(cs.head, r) {
      OnceMeansOnceL(cs.head, r, p);
      MostBoundsC(cs.tail, r, p);
    } else {
      MostBoundsL(cs.head, r, p);
      OnceMeansOnceC(cs.tail, r, p);
    }
  }

  lemma {:induction false} OnceMeansOnceL(l: Ladder, r: Ref, p: Path)
    requires OnceL(l, r)
    ensures |AssignedL(l, r, p)| == 1
  {
    OnceMeansOnce(l.block, r, p);
    match l.rest
    case ElseIf(n) => OnceMeansOnceL(n, r, p);
    case Else(b) => OnceMeansOnce(b, r, p);
  }

  // ---------------------------------------------------------------------------
  // When some path assigns a variable more than once
  // ---------------------------------------------------------------------------

  /** Some code path assigns `r` more than once. */
  ghost predicate AssignedTwice(b: Block, r: Ref) {
    exists p: Path :: |Assigned(b, r, p)| > 1
  }

  /** A branch taken: a condition and its truth. */
  datatype Branch = Branch(condition: nat, truth: bool)

  /** What must hold for an assignment to be reached. */
  type Guard = seq<Branch>

  predicate Satisfied(g: Guard, p: Path) {
    forall x | x in g :: p(x.condition) == x.truth
  }

  function Under(x: Branch, gs: seq<Guard>): (under: seq<Guard>)
    ensures |under| == |gs|
  {
    seq(|gs|, i requires 0 <= i < |gs| => [x] + gs[i])
  }

  /** The guards of the assignments to `r`, one for each. */
  function Guards(b: Block, r: Ref): seq<Guard> {
    Unguarded(|Own(b.assignments, r)|) + GuardsC(b.conds, r)
  }

  function Unguarded(n: nat): seq<Guard> {
    seq(n, _ => [])
  }

  function GuardsC(cs: Conds, r: Ref): seq<Guard> {
    match cs
    case Nil => []
    case Cons(l, t) => GuardsL(l, r) + GuardsC(t, r)
  }

  function GuardsL(l: Ladder, r: Ref): seq<Guard> {
    Under(Branch(l.condition, true), Guards(l.block, r))
    + match l.rest
      case NoElse => []
      case ElseIf(n) => Under(Branch(l.condition, false), GuardsL(n, r))
      case Else(b) => Under(Branch(l.condition, false), Guards(b, r))
  }

  /** How many of the guards hold on a path. */
  ghost function Holding(gs: seq<Guard>, p: Path): nat {
    if gs == [] then 0 else (if Satisfied(gs[0], p) then 1 else 0) + Holding(gs[1..], p)
  }

  lemma {:induction false} HoldingAdds(gs: seq<Guard>, hs: seq<Guard>, p: Path)
    ensures Holding(gs + hs, p) == Holding(gs, p) + Holding(hs, p)
  {
    if gs == [] {
      assert gs + hs == hs;
    } else {
      HoldingAdds(gs[1..], hs, p);
      assert (gs + hs)[1..] == gs[1..] + hs;
    }
  }

  lemma {:induction false} HoldingUnder(x: Branch, gs: seq<Guard>, p: Path)
    ensures Holding(Under(x, gs), p) == if p(x.condition) == x.truth then Holding(gs, p) else 0
  {
    if gs != [] {
      HoldingUnder(x, gs[1..], p);
      assert Under(x, gs)[1..] == Under(x, gs[1..]);
      assert Satisfied([x] + gs[0], p) <==> p(x.condition) == x.truth && Satisfied(gs[0], p);
    }
  }

  lemma {:induction false} HoldingUnguarded(n: nat, p: Path)
    ensures Holding(Unguarded(n), p) == n
  {
    if n > 0 {
      HoldingUnguarded(n - 1, p);
      assert Unguarded(n)[1..] == Unguarded(n - 1);
    }
  }

  /** On every path as many assignments are made as guards hold. */
  lemma {:induction false} GuardsCount(b: Block, r: Ref, p: Path)
    ensures |Assigned(b, r, p)| == Holding(Guards(b, r), p)
  {
    HoldingUnguarded(|Own(b.assignments, r)|, p);
    HoldingAdds(Unguarded(|Own(b.assignments, r)|), GuardsC(b.conds, r), p);
    GuardsCountC(b.conds, r, p);
  }

  lemma {:induction false} GuardsCountC(cs: Conds, r: Ref, p: Path)
    ensures |AssignedC(cs, r, p)| == Holding(GuardsC(cs, r), p)
  {
    match cs
    case Nil =>
    case Cons(l, t) =>
      GuardsCountL(l, r, p);
      GuardsCountC(t, r, p);
      HoldingAdds(GuardsL(l, r), GuardsC(t, r), p);
  }

  lemma {:induction false} GuardsCountL(l: Ladder, r: Ref, p: Path)
    ensures |AssignedL(l, r, p)| == Holding(GuardsL(l, r), p)
  {
    var yes, no := Branch(l.condition, true), Branch(l.condition, false);
    GuardsCount(l.block, r, p);
    HoldingUnder(yes, Guards(l.block, r), p);
    match l.rest
    case NoElse =>
      assert GuardsL(l, r) == Under(yes, Guards(l.block, r));
    case ElseIf(n) =>
      GuardsCountL(n, r, p);
      HoldingUnder(no, GuardsL(n, r), p);
      HoldingAdds(Under(yes, Guards(l.block, r)), Under(no, GuardsL(n, r)), p);
    case Else(b) =>
      GuardsCount(b, r, p);
      HoldingUnder(no, Guards(b, r), p);
      HoldingAdds(Under(yes, Guards(l.block, r)), Under(no, Guards(b, r)), p);
  }

  /** No condition is needed both true and false. */
  predicate Compatible(g: Guard, h: Guard) {
    forall x, y | x in g + h && y in g + h :: x.condition == y.condition ==> x.truth == y.truth
  }

  /** Two assignments to `r` have compatible guards. This can be read off the block. */
  predicate Overlaps(b: Block, r: Ref) {
    exists i, j | 0 <= i < j < |Guards(b, r)| :: Compatible(Guards(b, r)[i], Guards(b, r)[j])
  }

  lemma {:induction false} HoldingOnce(gs: seq<Guard>, p: Path) returns (i: nat)
    requires Holding(gs, p) > 0
    ensures i < |gs| && Satisfied(gs[i], p)
  {
    if Satisfied(gs[0], p) {
      i := 0;
    } else {
      i := HoldingOnce(gs[1..], p);
      i := i + 1;
    }
  }

  lemma {:induction false} HoldingTwice(gs: seq<Guard>, p: Path) returns (i: nat, j: nat)
    requires Holding(gs, p) > 1
    ensures i < j < |gs| && Satisfied(gs[i], p) && Satisfied(gs[j], p)
  {
    if Satisfied(gs[0], p) {
      j := HoldingOnce(gs[1..], p);
      i, j := 0, j + 1;
    } else {
      i, j := HoldingTwice(gs[1..], p);
      i, j := i + 1, j + 1;
    }
  }

  lemma {:induction false} HoldsOnce(gs: seq<Guard>, p: Path, i: nat)
    requires i < |gs| && Satisfied(gs[i], p)
    ensures Holding(gs, p) > 0
  {
    if i > 0 {
      HoldsOnce(gs[1..], p, i - 1);
    }
  }

  lemma {:induction false} HoldsTwice(gs: seq<Guard>, p: Path, i: nat, j: nat)
    requires i < j < |gs| && Satisfied(gs[i], p) && Satisfied(gs[j], p)
    ensures Holding(gs, p) > 1
  {
    if i == 0 {
      HoldsOnce(gs[1..], p, j - 1);
    } else {
      HoldsTwice(gs[1..], p, i - 1, j - 1);
    }
  }

  /** Some path assigns `r` more than once exactly when two of its assignments have compatible guards. */
  lemma TwiceMeansOverlap(b: Block, r: Ref)
    ensures AssignedTwice(b, r) <==> Overlaps(b, r)
  {
    var gs := Guards(b, r);
    if AssignedTwice(b, r) {
      var p: Path :| |Assigned(b, r, p)| > 1;
      GuardsCount(b, r, p);
      var i, j := HoldingTwice(gs, p);
      assert Compatible(gs[i], gs[j]);
    }
    if Overlaps(b, r) {
      var i, j :| 0 <= i < j < |gs| && Compatible(gs[i], gs[j]);
      var p: Path := (c: nat) => Branch(c, true) in gs[i] + gs[j];
      forall x: Branch | x in gs[i] + gs[j]
        ensures p(x.condition) == x.truth
      {
        assert x in gs[i] + gs[j];
      }
      assert Satisfied(gs[i], p) && Satisfied(gs[j], p);
      HoldsTwice(gs, p, i, j);
      GuardsCount(b, r, p);
    }
  }

  // ---------------------------------------------------------------------------
  // The count is reached when no condition is asked twice
  // ---------------------------------------------------------------------------

  function Conditions(b: Block): set<nat> {
    ConditionsC(b.conds)
  }

  function ConditionsC(cs: Conds): set<nat> {
    match cs
    case Nil => {}
    case Cons(l, t) => ConditionsL(l) + ConditionsC(t)
  }

  function ConditionsL(l: Ladder): set<nat> {
    {l.condition} + Conditions(l.block)
    + match l.rest
      case NoElse => {}
      case ElseIf(n) => ConditionsL(n)
      case Else(b) => Conditions(b)
  }

  /** No code path asks the same condition twice. */
  predicate AskedOnce(b: Block) {
    AskedOnceC(b.conds)
  }

  predicate AskedOnceC(cs: Conds) {
    match cs
    case Nil => true
    case Cons(l, t) => AskedOnceL(l) && AskedOnceC(t) && ConditionsL(l) !! ConditionsC(t)
  }

  predicate AskedOnceL(l: Ladder) {
    && AskedOnce(l.block) && l.condition !in Conditions(l.block)
    && match l.rest
       case NoElse => true
       case ElseIf(n) => AskedOnceL(n) && l.condition !in ConditionsL(n)
       case Else(b) => AskedOnce(b) && l.condition !in Conditions(b)
  }

  ghost predicate Agree(p: Path, q: Path, conditions: set<nat>) {
    forall c | c in conditions :: p(c) == q(c)
  }

  lemma {:induction false} OnlyConditionsMatter(b: Block, r: Ref, p: Path, q: Path)
    requires Agree(p, q, Conditions(b))
    ensures Assigned(b, r, p) == Assigned(b, r, q)
  {
    OnlyConditionsMatterC(b.conds, r, p, q);
  }

  lemma {:induction false} OnlyConditionsMatterC(cs: Conds, r: Ref, p: Path, q: Path)
    requires Agree(p, q, ConditionsC(cs))
    ensures AssignedC(cs, r, p) == AssignedC(cs, r, q)
  {
    match cs
    case Nil =>
    case Cons(l, t) =>
      OnlyConditionsMatterL(l, r, p, q);
      OnlyConditionsMatterC(t, r, p, q);
  }

  lemma {:induction false} OnlyConditionsMatterL(l: Ladder, r: Ref, p: Path, q: Path)
    requires Agree(p, q, ConditionsL(l))
    ensures AssignedL(l, r, p) == AssignedL(l, r, q)
  {
    OnlyConditionsMatter(l.block, r, p, q);
    match l.rest
    case NoElse =>
    case ElseIf(n) => OnlyConditionsMatterL(n, r, p, q);
    case Else(b) => OnlyConditionsMatter(b, r, p, q);
  }

  /** If no path asks a condition twice, some path makes as many assignments as `Most` says. */
  lemma {:induction false} MostIsReached(b: Block, r: Ref) returns (p: Path)
    requires AskedOnce(b)
    ensures |Assigned(b, r, p)| == Most(b, r)
  {
    p := MostIsReachedC(b.conds, r);
  }

  lemma {:induction false} MostIsReachedC(cs: Conds, r: Ref) returns (p: Path)
    requires AskedOnceC(cs)
    ensures |AssignedC(cs, r, p)| == MostC(cs, r)
  {
    match cs
    case Nil =>
      p := _ => false;
    case Cons(l, t) =>
      var q := MostIsReachedL(l, r);
      var s := MostIsReachedC(t, r);
      p := (c: nat) => if c in ConditionsL(l) then q(c) else s(c);
      OnlyConditionsMatterL(l, r, p, q);
      OnlyConditionsMatterC(t, r, p, s);
  }

  lemma {:induction false} MostIsReachedL(l: Ladder, r: Ref) returns (p: Path)
    requires AskedOnceL(l)
    ensures |AssignedL(l, r, p)| == MostL(l, r)
  {
    var q := MostIsReached(l.block, r);
    var elseMost := match l.rest case NoElse => 0 case ElseIf(n) => MostL(n, r) case Else(b) => Most(b, r);
    if elseMost <= Most(l.block, r) {
      p := (c: nat) => if c == l.condition then true else q(c);
      OnlyConditionsMatter(l.block, r, p, q);
    } else {
      match l.rest
      case ElseIf(n) =>
        q := MostIsReachedL(n, r);
        p := (c: nat) => if c == l.condition then false else q(c);
        OnlyConditionsMatterL(n, r, p, q);
      case Else(b) =>
        q := MostIsReached(b, r);
        p := (c: nat) => if c == l.condition then false else q(c);
        OnlyConditionsMatter(b, r, p, q);
    }
  }

  /** A path with two assignments always exceeds the count; where no path asks a condition twice, the converse holds. */
  lemma TwiceExceedsMost(b: Block, r: Ref)
    ensures AssignedTwice(b, r) ==> Most(b, r) > 1
    ensures AskedOnce(b) ==> (AssignedTwice(b, r) <==> Most(b, r) > 1)
  {
    if AssignedTwice(b, r) {
      var p: Path :| |Assigned(b, r, p)| > 1;
      MostBounds(b, r, p);
    }
    if AskedOnce(b) {
      var p := MostIsReached(b, r);
      assert |Assigned(b, r, p)| == Most(b, r);
    }
  }

  // ---------------------------------------------------------------------------
  // All right-hand sides
  // ---------------------------------------------------------------------------

  /** The right-hand sides of all assignments to `r`, on whatever path. */
  ghost function Sides(b: Block, r: Ref): set<Expr> {
    (set e | e in Own(b.assignments, r)) + SidesC(b.conds, r)
  }

  ghost function SidesC(cs: Conds, r: Ref): set<Expr> {
    match cs
    case Nil => {}
    case Cons(l, t) => SidesL(l, r) + SidesC(t, r)
  }

  ghost function SidesL(l: Ladder, r: Ref): set<Expr> {
    Sides(l.block, r)
    + match l.rest
      case NoElse => {}
      case ElseIf(n) => SidesL(n, r)
      case Else(b) => Sides(b, r)
  }

  /** The expressions have the same value, whatever the values of expressions are. */
  ghost predicate Alike(a: Expr, b: Expr) {
    forall v: Values :: ValueOf(a, v) == ValueOf(b, v)
  }

  ghost predicate AllAlike(es: set<Expr>) {
    forall a, b | a in es && b in es :: Alike(a, b)
  }

  lemma AlikeTrans(a: Expr, b: Expr, c: Expr)
    requires Alike(a, b) && Alike(b, c)
    ensures Alike(b, a) && Alike(a, c)
  {
    forall v: Values
      ensures ValueOf(b, v) == ValueOf(a, v) && ValueOf(a, v) == ValueOf(c, v)
    {
      assert ValueOf(a, v) == ValueOf(b, v);
    }
  }

  /** If no path asks a condition twice, every right-hand side is assigned on some path. */
  lemma {:induction false} SideIsReached(b: Block, r: Ref, x: Expr) returns (p: Path)
    requires AskedOnce(b) && x in Sides(b, r)
    ensures x in Assigned(b, r, p)
  {
    if x in Own(b.assignments, r) {
      p := _ => false;
    } else {
      p := SideIsReachedC(b.conds, r, x);
    }
  }

  lemma {:induction false} SideIsReachedC(cs: Conds, r: Ref, x: Expr) returns (p: Path)
    requires AskedOnceC(cs) && x in SidesC(cs, r)
    ensures x in AssignedC(cs, r, p)
  {
    if x in SidesL(cs.head, r) {
      p := SideIsReachedL(cs.head, r, x);
    } else {
      p := SideIsReachedC(cs.tail, r, x);
    }
  }

  lemma {:induction false} SideIsReachedL(l: Ladder, r: Ref, x: Expr) returns (p: Path)
    requires AskedOnceL(l) && x in SidesL(l, r)
    ensures x in AssignedL(l, r, p)
  {
    if x in Sides(l.block, r) {
      var q := SideIsReached(l.block, r, x);
      p := (c: nat) => if c == l.condition then true else q(c);
      OnlyConditionsMatter(l.block, r, p, q);
    } else {
      match l.rest
      case ElseIf(n) =>
        var q := SideIsReachedL(n, r, x);
        p := (c: nat) => if c == l.condition then false else q(c);
        OnlyConditionsMatterL(n, r, p, q);
      case Else(b) =>
        var q := SideIsReached(b, r, x);
        p := (c: nat) => if c == l.condition then false else q(c);
        OnlyConditionsMatter(b, r, p, q);
    }
  }

  lemma {:induction false} AssignedIsSide(b: Block, r: Ref, p: Path, x: Expr)
    requires x in Assigned(b, r, p)
    ensures x in Sides(b, r)
  {
    if x in AssignedC(b.conds, r, p) {
      AssignedIsSideC(b.conds, r, p, x);
    }
  }

  lemma {:induction false} AssignedIsSideC(cs: Conds, r: Ref, p: Path, x: Expr)
    requires x in AssignedC(cs, r, p)
    ensures x in SidesC(cs, r)
  {
    if x in AssignedL(cs.head, r, p) {
      AssignedIsSideL(cs.head, r, p, x);
    } else {
      AssignedIsSideC(cs.tail, r, p, x);
    }
  }

  lemma {:induction false} AssignedIsSideL(l: Ladder, r: Ref, p: Path, x: Expr)
    requires x in AssignedL(l, r, p)
    ensures x in SidesL(l, r)
  {
    if p(l.condition) {
      AssignedIsSide(l.block, r, p, x);
    } else {
      match l.rest
      case ElseIf(n) => AssignedIsSideL(n, r, p, x);
      case Else(b) => AssignedIsSide(b, r, p, x);
    }
  }

  lemma {:induction false} NoSides(b: Block, r: Ref)
    requires !Assigns(b, r)
    ensures Sides(b, r) == {}
  {
    NoSidesC(b.conds, r);
  }

  lemma {:induction false} NoSidesC(cs: Conds, r: Ref)
    requires !AssignsC(cs, r)
    ensures SidesC(cs, r) == {}
  {
    if cs.Cons? {
      NoSidesL(cs.head, r);
      NoSidesC(cs.tail, r);
    }
  }

  lemma {:induction false} NoSidesL(l: Ladder, r: Ref)
    requires !AssignsL(l, r)
    ensures SidesL(l, r) == {}
  {
    NoSides(l.block, r);
    match l.rest
    case NoElse =>
    case ElseIf(n) => NoSidesL(n, r);
    case Else(b) => NoSides(b, r);
  }

  // ---------------------------------------------------------------------------
  // Common assignments
  // ---------------------------------------------------------------------------

  /** Every alternate of the conditional assigns `r` unconditionally, to what is like `x`. */
  ghost predicate AlternatesAssign(l: Ladder, r: Ref, x: Expr) {
    && AssignsAlike(l.block, r, x)
    && match l.rest
       case NoElse => true
       case ElseIf(n) => AlternatesAssign(n, r, x)
       case Else(b) => AssignsAlike(b, r, x)
  }

  ghost predicate AssignsAlike(b: Block, r: Ref, x: Expr) {
    Own(b.assignments, r) != [] && Alike(Own(b.assignments, r)[0], x)
  }

  /** No conditional in the block has a common assignment to `r` left. */
  ghost predicate NoneCommon(b: Block, r: Ref) {
    NoneCommonC(b.conds, r)
  }

  ghost predicate NoneCommonC(cs: Conds, r: Ref) {
    match cs
    case Nil => true
    case Cons(l, t) => (forall x :: !AlternatesAssign(l, r, x)) && NoneCommonL(l, r) && NoneCommonC(t, r)
  }

  ghost predicate NoneCommonL(l: Ladder, r: Ref) {
    && NoneCommon(l.block, r)
    && match l.rest
       case NoElse => true
       case ElseIf(n) => NoneCommonL(n, r)
       case Else(b) => NoneCommon(b, r)
  }

  lemma {:induction false} NoneCommonWithout(b: Block, r: Ref)
    requires !AssignsC(b.conds, r)
    ensures NoneCommon(b, r)
  {
    NoneCommonWithoutC(b.conds, r);
  }

  lemma {:induction false} NoneCommonWithoutC(cs: Conds, r: Ref)
    requires !AssignsC(cs, r)
    ensures NoneCommonC(cs, r)
  {
    if cs.Cons? {
      NoneCommonWithoutL(cs.head, r);
      NoneCommonWithoutC(cs.tail, r);
    }
  }

  lemma {:induction false} NoneCommonWithoutL(l: Ladder, r: Ref)
    requires !AssignsL(l, r)
    ensures NoneCommonL(l, r)
  {
    NoneCommonWithout(l.block, r);
    match l.rest
    case NoElse =>
    case ElseIf(n) => NoneCommonWithoutL(n, r);
    case Else(b) => NoneCommonWithout(b, r);
  }
}
