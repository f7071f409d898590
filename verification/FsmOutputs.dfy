/**
 Output logic of finite state machines, as xls/codegen/finite_state_machine.cc builds it: default
 assignments are sunk into the code paths that assign nothing, assignments common to all
 alternates of a conditional are hoisted out of it, and the result is emitted. Every output ends
 up assigned exactly once on every code path.
 */
module FsmOutputs {
  import opened FsmBlocks
  import opened Options
  import opened Words

  // ---------------------------------------------------------------------------
  // Sinking the default
  // ---------------------------------------------------------------------------

  datatype Result<+T> = Ok(value: T) | Err(error: Error)

  datatype Error = AssignedMoreThanOnce(output: Ref) | NoAssignment(lhs: Ref) | MultipleAssignments(lhs: Ref)

  function Size(b: Block): nat { 1 + SizeC(b.conds) }

  function SizeC(cs: Conds): nat {
    match cs
    case Nil => 0
    case Cons(l, t) => 1 + SizeL(l) + SizeC(t)
  }

  function SizeL(l: Ladder): nat {
    1 + Size(l.block) + match l.rest case NoElse => 2 case ElseIf(n) => 1 + SizeL(n) case Else(b) => 1 + Size(b)
  }

  /** Gives the ladder a final else block if it has none. */
  function WithFinal(l: Ladder): (l': Ladder)
    ensures SizeL(l') == SizeL(l)
  {
    match l.rest
    case NoElse => l.(rest := Else(EMPTY))
    case ElseIf(n) => l.(rest := ElseIf(WithFinal(n)))
    case Else(_) => l
  }

  /** Adds the default along all code paths without an assignment to the output. */
  function AddDefaults(b: Block, o: Output): Result<Block>
    decreases Size(b)
  {
    match AddDefaultsC(b.conds, o)
    case Err(e) => Err(e)
    case Ok((cs, n)) =>
      var count := |Own(b.assignments, o.ref)| + n;
      if count > 1 then Err(AssignedMoreThanOnce(o.ref))
      else if count == 0 then Ok(Block(b.assignments + [Assignment(o.ref, o.default)], cs))
      else Ok(Block(b.assignments, cs))
  }

  /** Also counts the ladders that assign the output. */
  function AddDefaultsC(cs: Conds, o: Output): Result<(Conds, nat)>
    decreases SizeC(cs)
  {
    match cs
    case Nil => Ok((Nil, 0))
    case Cons(l, t) =>
      if !AssignsL(l, o.ref) then
        match AddDefaultsC(t, o)
        case Err(e) => Err(e)
        case Ok((t', n)) => Ok((Cons(l, t'), n))
      else
        match AddDefaultsL(WithFinal(l), o)
        case Err(e) => Err(e)
        case Ok(l') =>
          match AddDefaultsC(t, o)
          case Err(e) => Err(e)
          case Ok((t', n)) => Ok((Cons(l', t'), n + 1))
  }

  function AddDefaultsL(l: Ladder, o: Output): Result<Ladder>
    decreases SizeL(l)
  {
    match AddDefaults(l.block, o)
    case Err(e) => Err(e)
    case Ok(b) =>
      match l.rest
      case NoElse => Ok(Ladder(l.condition, b, NoElse))
      case ElseIf(n) =>
        (match AddDefaultsL(n, o)
         case Err(e) => Err(e)
         case Ok(n') => Ok(Ladder(l.condition, b, ElseIf(n'))))
      case Else(last) =>
        match AddDefaults(last, o)
        case Err(e) => Err(e)
        case Ok(last') => Ok(Ladder(l.condition, b, Else(last')))
  }

  predicate HasFinal(l: Ladder) {
    match l.rest
    case NoElse => false
    case ElseIf(n) => HasFinal(n)
    case Else(_) => true
  }

  /** What was assigned, or the default where nothing was. */
  ghost function OrDefault(given: seq<Expr>, o: Output): seq<Expr> {
    if given == [] then [o.default] else given
  }

  lemma EmptyAssignsNothing(r: Ref, p: Path)
    ensures Assigned(EMPTY, r, p) == [] && Most(EMPTY, r) == 0 && !Assigns(EMPTY, r) && !Once(EMPTY, r)
  {
    assert AssignedC(Nil, r, p) == [] && MostC(Nil, r) == 0;
  }

  /** An empty else changes nothing. */
  lemma {:induction false} WithFinalSame(l: Ladder, r: Ref, p: Path)
    ensures HasFinal(WithFinal(l))
    ensures AssignedL(WithFinal(l), r, p) == AssignedL(l, r, p)
    ensures MostL(WithFinal(l), r) == MostL(l, r) && AssignsL(WithFinal(l), r) == AssignsL(l, r)
    ensures OnceL(WithFinal(l), r) == OnceL(l, r)
  {
    match l.rest
    case NoElse => EmptyAssignsNothing(r, p);
    case ElseIf(n) => WithFinalSame(n, r, p);
    case Else(_) =>
  }

  /** Where a block is completed for output `o`: it succeeds exactly when the count is at most one, assigns `o` exactly
      once on every path with the right value, and leaves every other variable alone. */
  lemma {:induction false} AddDefaultsWorks(b: Block, o: Output, r: Ref, p: Path)
    ensures AddDefaults(b, o).Ok? <==> Most(b, o.ref) <= 1
    ensures AddDefaults(b, o).Ok? ==>
              var b' := AddDefaults(b, o).value;
              && Once(b', o.ref) && Assigned(b', o.ref, p) == OrDefault(Assigned(b, o.ref, p), o)
              && (r != o.ref ==> SameAt(b, b', r, p))
    decreases Size(b)
  {
    hide AddDefaultsC, AddDefaultsL, Own, AssignedC, MostC, OnceC, AssignsC;
    AddDefaultsWorksC(b.conds, o, r, p);
    OwnAppend(b.assignments, Assignment(o.ref, o.default), o.ref);
    OwnAppend(b.assignments, Assignment(o.ref, o.default), r);
  }

  lemma {:induction false} RefusalNamesOutput(b: Block, o: Output)
    ensures AddDefaults(b, o).Err? ==> AddDefaults(b, o).error == AssignedMoreThanOnce(o.ref)
    decreases Size(b)
  {
    RefusalNamesOutputC(b.conds, o);
  }

  lemma {:induction false} RefusalNamesOutputC(cs: Conds, o: Output)
    ensures AddDefaultsC(cs, o).Err? ==> AddDefaultsC(cs, o).error == AssignedMoreThanOnce(o.ref)
    decreases SizeC(cs)
  {
    if cs.Cons? {
      RefusalNamesOutputC(cs.tail, o);
      RefusalNamesOutputL(WithFinal(cs.head), o);
    }
  }

  lemma {:induction false} RefusalNamesOutputL(l: Ladder, o: Output)
    ensures AddDefaultsL(l, o).Err? ==> AddDefaultsL(l, o).error == AssignedMoreThanOnce(o.ref)
    decreases SizeL(l)
  {
    RefusalNamesOutput(l.block, o);
    match l.rest
    case NoElse =>
    case ElseIf(n) => RefusalNamesOutputL(n, o);
    case Else(b) => RefusalNamesOutput(b, o);
  }

  /** That a block is refused exactly when some path assigns the output more than once holds exactly for the blocks whose
      count is at most one or that have two assignments with compatible guards, so for all that ask no condition
      twice on a path. */
  lemma RefusalIsExact(b: Block, o: Output)
    ensures (AddDefaults(b, o).Err? <==> AssignedTwice(b, o.ref)) <==> Most(b, o.ref) <= 1 || Overlaps(b, o.ref)
    ensures AskedOnce(b) ==> (AddDefaults(b, o).Err? <==> AssignedTwice(b, o.ref))
  {
    hide AddDefaults, Most, Overlaps, AssignedTwice, AskedOnce;
    AddDefaultsWorks(b, o, o.ref, _ => false);
    TwiceMeansOverlap(b, o.ref);
    TwiceExceedsMost(b, o.ref);
  }

  /** Two conditionals on the same condition, the first assigning variable 0 when it is true, the second when it is
      false. */
  const ASKED_TWICE: Block :=
    Block([], Cons(Ladder(0, Block([Assignment(0, Other(1))], Nil), NoElse),
              Cons(Ladder(0, EMPTY, Else(Block([Assignment(0, Other(2))], Nil))), Nil)))

  /** Every path assigns the variable exactly once, and the block is refused. */
  lemma RefusedWithoutTwice(o: Output, p: Path)
    requires o.ref == 0
    ensures |Assigned(ASKED_TWICE, 0, p)| == 1
    ensures AddDefaults(ASKED_TWICE, o).Err?
    ensures !AskedOnce(ASKED_TWICE) && !Overlaps(ASKED_TWICE, 0)
  {
    var first, second := Block([Assignment(0, Other(1))], Nil), Block([Assignment(0, Other(2))], Nil);
    var l1, l2 := Ladder(0, first, NoElse), Ladder(0, EMPTY, Else(second));
    OwnAppend([], Assignment(0, Other(1)), 0);
    OwnAppend([], Assignment(0, Other(2)), 0);
    assert [] + [Assignment(0, Other(1))] == [Assignment(0, Other(1))];
    assert [] + [Assignment(0, Other(2))] == [Assignment(0, Other(2))];
    forall q: Path
      ensures |Assigned(ASKED_TWICE, 0, q)| == 1
    {
      assert Assigned(first, 0, q) == [Other(1)] && Assigned(second, 0, q) == [Other(2)];
      assert AssignedL(l1, 0, q) == if q(0) then [Other(1)] else [];
      assert AssignedL(l2, 0, q) == if q(0) then [] else [Other(2)];
      assert AssignedC(Cons(l2, Nil), 0, q) == AssignedL(l2, 0, q);
      assert Assigned(ASKED_TWICE, 0, q) == AssignedL(l1, 0, q) + AssignedL(l2, 0, q);
    }
    TwiceMeansOverlap(ASKED_TWICE, 0);
    assert Most(first, 0) == 1 && Most(second, 0) == 1;
    assert MostL(l1, 0) == 1 && MostL(l2, 0) == 1;
    assert MostC(Cons(l2, Nil), 0) == 1;
    AddDefaultsWorks(ASKED_TWICE, o, 0, p);
    assert 0 in ConditionsL(l1) && 0 in ConditionsC(Cons(l2, Nil));
  }

  ghost predicate SameAt(b: Block, b': Block, r: Ref, p: Path) {
    && Assigned(b', r, p) == Assigned(b, r, p) && Most(b', r) == Most(b, r)
    && Assigns(b', r) == Assigns(b, r) && Once(b', r) == Once(b, r)
  }

  ghost predicate SameAtC(cs: Conds, cs': Conds, r: Ref, p: Path) {
    && AssignedC(cs', r, p) == AssignedC(cs, r, p) && MostC(cs', r) == MostC(cs, r)
    && AssignsC(cs', r) == AssignsC(cs, r) && OnceC(cs', r) == OnceC(cs, r)
  }

  ghost predicate SameAtL(l: Ladder, l': Ladder, r: Ref, p: Path) {
    && AssignedL(l', r, p) == AssignedL(l, r, p) && MostL(l', r) == MostL(l, r)
    && AssignsL(l', r) == AssignsL(l, r) && OnceL(l', r) == OnceL(l, r)
  }

  lemma {:induction false} AddDefaultsWorksC(cs: Conds, o: Output, r: Ref, p: Path)
    ensures MostC(cs, o.ref) <= 1 ==> AddDefaultsC(cs, o).Ok?
    ensures AddDefaultsC(cs, o).Ok? ==>
              var (cs', n) := AddDefaultsC(cs, o).value;
              && MostC(cs, o.ref) == n
              && (n == 0 ==> !AssignsC(cs', o.ref) && AssignedC(cs', o.ref, p) == AssignedC(cs, o.ref, p) == [])
              && (n == 1 ==> OnceC(cs', o.ref) && AssignedC(cs', o.ref, p) == OrDefault(AssignedC(cs, o.ref, p), o))
              && (r != o.ref ==> SameAtC(cs, cs', r, p))
    decreases SizeC(cs)
  {
    match cs
    case Nil =>
    case Cons(l, t) =>
      MostBoundsL(l, o.ref, p);
      AddDefaultsWorksC(t, o, r, p);
      if AssignsL(l, o.ref) {
        WithFinalSame(l, o.ref, p);
        WithFinalSame(l, r, p);
        AddDefaultsWorksL(WithFinal(l), o, r, p);
        if AddDefaultsC(cs, o).Ok? {
          var (cs', n) := AddDefaultsC(cs, o).value;
          if n == 1 {
            MostBoundsL(cs'.head, o.ref, p);
            OnceMeansOnceL(cs'.head, o.ref, p);
          }
        }
      }
  }

  lemma {:induction false} AddDefaultsWorksL(l: Ladder, o: Output, r: Ref, p: Path)
    requires HasFinal(l)
    ensures AddDefaultsL(l, o).Ok? <==> MostL(l, o.ref) <= 1
    ensures AddDefaultsL(l, o).Ok? ==>
              var l' := AddDefaultsL(l, o).value;
              && OnceL(l', o.ref) && AssignedL(l', o.ref, p) == OrDefault(AssignedL(l, o.ref, p), o)
              && (r != o.ref ==> SameAtL(l, l', r, p))
    decreases SizeL(l)
  {
    AddDefaultsWorks(l.block, o, r, p);
    match l.rest
    case ElseIf(n) => AddDefaultsWorksL(n, o, r, p);
    case Else(b) => AddDefaultsWorks(b, o, r, p);
  }

  // ---------------------------------------------------------------------------
  // Hoisting
  // ---------------------------------------------------------------------------

  /** The same object, or literals with the same bits. */
  predicate Same(a: Expr, b: Expr) {
    a == b || (a.Literal? && b.Literal? && a.bits == b.bits)
  }

  predicate AllSameAndNonNull(es: seq<Option<Expr>>) {
    && (forall i | 0 <= i < |es| :: es[i].Some?)
    && (forall i | 0 <= i < |es| :: Same(es[i].value, es[0].value))
  }

  /** Removes the one assignment to `r`. */
  function RemoveAssignment(b: Block, r: Ref): Result<Block> {
    if Own(b.assignments, r) == [] then Err(NoAssignment(r))
    else if |Own(b.assignments, r)| > 1 then Err(MultipleAssignments(r))
    else Ok(b.(assignments := Without(b.assignments, r)))
  }

  function Without(a: seq<Assignment>, r: Ref): seq<Assignment> {
    if a == [] then []
    else Without(a[..|a| - 1], r) + if a[|a| - 1].lhs == r then [] else [a[|a| - 1]]
  }

  lemma {:induction false} WithoutOwn(a: seq<Assignment>, r: Ref, q: Ref)
    ensures Own(Without(a, r), q) == if q == r then [] else Own(a, q)
  {
    if a != [] {
      WithoutOwn(a[..|a| - 1], r, q);
      OwnAppend(Without(a[..|a| - 1], r), a[|a| - 1], q);
      assert Without(a[..|a| - 1], r) + [] == Without(a[..|a| - 1], r);
    }
  }

  function RemoveFromAll(l: Ladder, r: Ref): Result<Ladder> {
    match RemoveAssignment(l.block, r)
    case Err(e) => Err(e)
    case Ok(b) =>
      match l.rest
      case NoElse => Ok(Ladder(l.condition, b, NoElse))
      case ElseIf(n) =>
        (match RemoveFromAll(n, r)
         case Err(e) => Err(e)
         case Ok(n') => Ok(Ladder(l.condition, b, ElseIf(n'))))
      case Else(last) =>
        match RemoveAssignment(last, r)
        case Err(e) => Err(e)
        case Ok(last') => Ok(Ladder(l.condition, b, Else(last')))
  }

  /** Hoists assignments to `r` that are the same on all alternates of a conditional. Also returns the block's
      unconditional right-hand side, if it has one. */
  function Hoist(b: Block, r: Ref): Result<(Option<Expr>, Block)> {
    if Own(b.assignments, r) != [] then Ok((Some(Own(b.assignments, r)[0]), b))
    else
      match HoistC(b.conds, r)
      case Err(e) => Err(e)
      case Ok((None, cs)) => Ok((None, Block(b.assignments, cs)))
      case Ok((Some(e), cs)) => Ok((Some(e), Block(b.assignments + [Assignment(r, e)], cs)))
  }

  function HoistC(cs: Conds, r: Ref): Result<(Option<Expr>, Conds)> {
    match cs
    case Nil => Ok((None, Nil))
    case Cons(l, t) =>
      if !AssignsL(l, r) then
        match HoistC(t, r)
        case Err(e) => Err(e)
        case Ok((e, t')) => Ok((e, Cons(l, t')))
      else
        match HoistL(l, r)
        case Err(e) => Err(e)
        case Ok((es, l')) =>
          if !AllSameAndNonNull(es) then Ok((None, Cons(l', t)))
          else
            match RemoveFromAll(l', r)
            case Err(e) => Err(e)
            case Ok(l2) => Ok((if es == [] then None else es[0], Cons(l2, t)))
  }

  /** The right-hand sides of all alternates, and the ladder with each alternate hoisted. */
  function HoistL(l: Ladder, r: Ref): Result<(seq<Option<Expr>>, Ladder)> {
    match Hoist(l.block, r)
    case Err(e) => Err(e)
    case Ok((e, b)) =>
      match l.rest
      case NoElse => Ok(([e], Ladder(l.condition, b, NoElse)))
      case ElseIf(n) =>
        (match HoistL(n, r)
         case Err(e) => Err(e)
         case Ok((es, n')) => Ok(([e] + es, Ladder(l.condition, b, ElseIf(n')))))
      case Else(last) =>
        match Hoist(last, r)
        case Err(e) => Err(e)
        case Ok((e2, last')) => Ok(([e, e2], Ladder(l.condition, b, Else(last'))))
  }

  /** Same values on the path, though possibly other literal objects. */
  ghost predicate SameValues(a: seq<Expr>, b: seq<Expr>, v: Values) {
    |a| == |b| && forall i | 0 <= i < |a| :: ValueOf(a[i], v) == ValueOf(b[i], v)
  }

  /** Hoisting a variable that is assigned exactly once never hits an error, keeps it assigned exactly once with the
      same value on every path, and leaves every other variable alone. */
  lemma {:induction false} HoistWorks(b: Block, r: Ref, q: Ref, p: Path, v: Values)
    requires Once(b, r)
    ensures Hoist(b, r).Ok?
    ensures var (e, b') := Hoist(b, r).value;
            && Once(b', r) && SameValues(Assigned(b', r, p), Assigned(b, r, p), v)
            && (if e.Some? then Own(b'.assignments, r) == [e.value] else Own(b'.assignments, r) == [])
            && (q != r ==> SameAt(b, b', q, p))
  {
    if Own(b.assignments, r) == [] {
      HoistWorksC(b.conds, r, q, p, v);
      var (e, cs) := HoistC(b.conds, r).value;
      HoistedBlock(b, cs, e, r, q, p, v);
    } else {
      assert Hoist(b, r) == Ok((Some(Own(b.assignments, r)[0]), b));
    }
  }

  /** A block on whose conditionals the hoisting worked. */
  lemma HoistedBlock(b: Block, cs: Conds, e: Option<Expr>, r: Ref, q: Ref, p: Path, v: Values)
    requires Own(b.assignments, r) == []
    requires e.Some? ==> !AssignsC(cs, r) && AssignedC(cs, r, p) == [] && SameValues([e.value], AssignedC(b.conds, r, p), v)
    requires e.None? ==> OnceC(cs, r) && SameValues(AssignedC(cs, r, p), AssignedC(b.conds, r, p), v)
    requires q != r ==> SameAtC(b.conds, cs, q, p)
    ensures var b' := Block(if e.Some? then b.assignments + [Assignment(r, e.value)] else b.assignments, cs);
            && Once(b', r) && SameValues(Assigned(b', r, p), Assigned(b, r, p), v)
            && (if e.Some? then Own(b'.assignments, r) == [e.value] else Own(b'.assignments, r) == [])
            && (q != r ==> SameAt(b, b', q, p))
  {
    hide OnceC, AssignedC, MostC, AssignsC;
    if e.Some? {
      OwnAppend(b.assignments, Assignment(r, e.value), r);
      OwnAppend(b.assignments, Assignment(r, e.value), q);
      assert [e.value] + [] == [e.value];
    }
    assert Assigned(b, r, p) == AssignedC(b.conds, r, p);
  }

  lemma {:induction false} HoistWorksC(cs: Conds, r: Ref, q: Ref, p: Path, v: Values)
    requires OnceC(cs, r)
    ensures HoistC(cs, r).Ok?
    ensures var (e, cs') := HoistC(cs, r).value;
            && (e.Some? ==> !AssignsC(cs', r) && AssignedC(cs', r, p) == [] && SameValues([e.value], AssignedC(cs, r, p), v))
            && (e.None? ==> OnceC(cs', r) && SameValues(AssignedC(cs', r, p), AssignedC(cs, r, p), v))
            && (q != r ==> SameAtC(cs, cs', q, p))
  {
    var l, t := cs.head, cs.tail;
    if !AssignsL(l, r) {
      MostBoundsL(l, r, p);
      HoistWorksC(t, r, q, p, v);
    } else {
      MostBoundsC(t, r, p);
      HoistWorksL(l, r, q, p, v);
      var (es, l') := HoistL(l, r).value;
      OnceAssigns(l', r, p);
      if AllSameAndNonNull(es) {
        HoistedIsFirst(l', r, es, p, v);
        RemoveFromAllWorks(l', r, es, q, p);
      }
    }
  }

  lemma OnceAssigns(l: Ladder, r: Ref, p: Path)
    requires OnceL(l, r)
    ensures AssignsL(l, r)
  {
    OnceMeansOnceL(l, r, p);
    MostBoundsL(l, r, p);
  }

  /** `es` are the unconditional right-hand sides of the alternates. */
  ghost predicate Heads(l: Ladder, r: Ref, es: seq<Option<Expr>>) {
    && |es| >= 1
    && HeadOf(l.block, r, es[0])
    && match l.rest
       case NoElse => |es| == 1
       case ElseIf(n) => Heads(n, r, es[1..])
       case Else(b) => |es| == 2 && HeadOf(b, r, es[1])
  }

  ghost predicate HeadOf(b: Block, r: Ref, e: Option<Expr>) {
    if e.Some? then Own(b.assignments, r) == [e.value] else Own(b.assignments, r) == []
  }

  lemma {:induction false} HoistWorksL(l: Ladder, r: Ref, q: Ref, p: Path, v: Values)
    requires OnceL(l, r)
    ensures HoistL(l, r).Ok?
    ensures var (es, l') := HoistL(l, r).value;
            && Heads(l', r, es) && OnceL(l', r)
            && SameValues(AssignedL(l', r, p), AssignedL(l, r, p), v)
            && (q != r ==> SameAtL(l, l', q, p))
  {
    hide Hoist, Own, Assigned, Most, Once, Assigns;
    HoistWorks(l.block, r, q, p, v);
    match l.rest
    case ElseIf(n) =>
      HoistWorksL(n, r, q, p, v);
      var (es, n') := HoistL(n, r).value;
      var (e, b) := Hoist(l.block, r).value;
      assert ([e] + es)[1..] == es;
    case Else(b) =>
      HoistWorks(b, r, q, p, v);
  }

  /** When all alternates assign the same, every path gives the value of the first. */
  lemma {:induction false} HoistedIsFirst(l: Ladder, r: Ref, es: seq<Option<Expr>>, p: Path, v: Values)
    requires Heads(l, r, es) && OnceL(l, r) && forall i | 0 <= i < |es| :: es[i].Some?
    ensures exists i :: 0 <= i < |es| && AssignedL(l, r, p) == [es[i].value]
    ensures AllSameAndNonNull(es) ==> SameValues([es[0].value], AssignedL(l, r, p), v)
  {
    OnceMeansOnce(l.block, r, p);
    if p(l.condition) {
      assert AssignedL(l, r, p) == [es[0].value];
    } else {
      match l.rest
      case ElseIf(n) =>
        HoistedIsFirst(n, r, es[1..], p, v);
        var i :| 0 <= i < |es[1..]| && AssignedL(n, r, p) == [es[1..][i].value];
        assert AssignedL(l, r, p) == [es[i + 1].value];
      case Else(b) =>
        OnceMeansOnce(b, r, p);
        assert AssignedL(l, r, p) == [es[1].value];
    }
  }

  /** Removing the unconditional assignment of every alternate succeeds and leaves no assignment to the variable. */
  lemma {:induction false} RemoveFromAllWorks(l: Ladder, r: Ref, es: seq<Option<Expr>>, q: Ref, p: Path)
    requires Heads(l, r, es) && OnceL(l, r) && forall i | 0 <= i < |es| :: es[i].Some?
    ensures RemoveFromAll(l, r).Ok?
    ensures var l' := RemoveFromAll(l, r).value;
            !AssignsL(l', r) && AssignedL(l', r, p) == [] && (q != r ==> SameAtL(l, l', q, p))
  {
    RemoveWorks(l.block, r, q, p);
    match l.rest
    case ElseIf(n) => RemoveFromAllWorks(n, r, es[1..], q, p);
    case Else(b) => RemoveWorks(b, r, q, p);
  }

  lemma RemoveWorks(b: Block, r: Ref, q: Ref, p: Path)
    requires Once(b, r) && Own(b.assignments, r) != []
    ensures RemoveAssignment(b, r).Ok?
    ensures var b' := RemoveAssignment(b, r).value;
            !Assigns(b', r) && Assigned(b', r, p) == [] && (q != r ==> SameAt(b, b', q, p))
  {
    WithoutOwn(b.assignments, r, r);
    WithoutOwn(b.assignments, r, q);
    MostBoundsC(b.conds, r, p);
  }

  // ---------------------------------------------------------------------------
  // What is hoisted stays hoisted
  // ---------------------------------------------------------------------------

  /** No conditional gets to assign `q` the same on all alternates. */
  ghost predicate NoMoreCommon(b: Block, b': Block, q: Ref) {
    Own(b'.assignments, q) == Own(b.assignments, q) && (NoneCommon(b, q) ==> NoneCommon(b', q))
  }

  ghost predicate NoMoreCommonL(l: Ladder, l': Ladder, q: Ref) {
    (forall x | AlternatesAssign(l', q, x) :: AlternatesAssign(l, q, x)) && (NoneCommonL(l, q) ==> NoneCommonL(l', q))
  }

  predicate SameShape(l: Ladder, l': Ladder) {
    match l.rest
    case NoElse => l'.rest.NoElse?
    case ElseIf(_) => l'.rest.ElseIf?
    case Else(_) => l'.rest.Else?
  }

  lemma NoMoreOfParts(l: Ladder, l': Ladder, q: Ref)
    requires SameShape(l, l') && NoMoreCommon(l.block, l'.block, q)
    requires l.rest.ElseIf? ==> NoMoreCommonL(l.rest.next, l'.rest.next, q)
    requires l.rest.Else? ==> NoMoreCommon(l.rest.last, l'.rest.last, q)
    ensures NoMoreCommonL(l, l', q)
  {
    hide Alike, NoneCommon;
    forall x | AlternatesAssign(l', q, x)
      ensures AlternatesAssign(l, q, x)
    {
      assert AssignsAlike(l.block, q, x);
      if l.rest.ElseIf? {
        assert AlternatesAssign(l'.rest.next, q, x);
      } else if l.rest.Else? {
        assert AssignsAlike(l'.rest.last, q, x);
      }
    }
  }

  lemma {:induction false} WithFinalNoMore(l: Ladder, q: Ref)
    ensures NoMoreCommonL(l, WithFinal(l), q)
  {
    hide Alike;
    match l.rest
    case NoElse =>
      assert Own(EMPTY.assignments, q) == [] && NoneCommon(EMPTY, q);
      assert forall x :: !AssignsAlike(EMPTY, q, x);
    case ElseIf(n) =>
      WithFinalNoMore(n, q);
      NoMoreOfParts(l, WithFinal(l), q);
    case Else(_) => assert WithFinal(l) == l;
  }

  lemma {:induction false} AddDefaultsNoMore(b: Block, o: Output, q: Ref)
    requires q != o.ref && AddDefaults(b, o).Ok?
    ensures NoMoreCommon(b, AddDefaults(b, o).value, q)
    decreases Size(b)
  {
    AddDefaultsNoMoreC(b.conds, o, q);
    OwnAppend(b.assignments, Assignment(o.ref, o.default), q);
  }

  lemma {:induction false} AddDefaultsNoMoreC(cs: Conds, o: Output, q: Ref)
    requires q != o.ref && AddDefaultsC(cs, o).Ok?
    ensures NoneCommonC(cs, q) ==> NoneCommonC(AddDefaultsC(cs, o).value.0, q)
    decreases SizeC(cs)
  {
    hide AlternatesAssign;
    if cs.Cons? {
      AddDefaultsNoMoreC(cs.tail, o, q);
      if AssignsL(cs.head, o.ref) {
        WithFinalNoMore(cs.head, q);
        AddDefaultsNoMoreL(WithFinal(cs.head), o, q);
      }
    }
  }

  lemma {:induction false} AddDefaultsNoMoreL(l: Ladder, o: Output, q: Ref)
    requires q != o.ref && AddDefaultsL(l, o).Ok?
    ensures NoMoreCommonL(l, AddDefaultsL(l, o).value, q)
    decreases SizeL(l)
  {
    hide AddDefaults, NoMoreCommon;
    AddDefaultsNoMore(l.block, o, q);
    match l.rest {
      case NoElse =>
      case ElseIf(n) => AddDefaultsNoMoreL(n, o, q);
      case Else(b) => AddDefaultsNoMore(b, o, q);
    }
    NoMoreOfParts(l, AddDefaultsL(l, o).value, q);
  }

  lemma {:induction false} RemoveNoMore(l: Ladder, r: Ref, q: Ref)
    requires q != r && RemoveFromAll(l, r).Ok?
    ensures NoMoreCommonL(l, RemoveFromAll(l, r).value, q)
  {
    WithoutOwn(l.block.assignments, r, q);
    match l.rest {
      case NoElse =>
      case ElseIf(n) => RemoveNoMore(n, r, q);
      case Else(b) => WithoutOwn(b.assignments, r, q);
    }
    NoMoreOfParts(l, RemoveFromAll(l, r).value, q);
  }

  lemma {:induction false} HoistNoMore(b: Block, r: Ref, q: Ref)
    requires q != r && Hoist(b, r).Ok?
    ensures NoMoreCommon(b, Hoist(b, r).value.1, q)
  {
    if Own(b.assignments, r) == [] {
      HoistNoMoreC(b.conds, r, q);
      if HoistC(b.conds, r).value.0.Some? {
        OwnAppend(b.assignments, Assignment(r, HoistC(b.conds, r).value.0.value), q);
      }
    }
  }

  lemma {:induction false} HoistNoMoreC(cs: Conds, r: Ref, q: Ref)
    requires q != r && HoistC(cs, r).Ok?
    ensures NoneCommonC(cs, q) ==> NoneCommonC(HoistC(cs, r).value.1, q)
  {
    hide AlternatesAssign, RemoveFromAll, AllSameAndNonNull;
    if cs.Cons? {
      if !AssignsL(cs.head, r) {
        HoistNoMoreC(cs.tail, r, q);
      } else {
        HoistNoMoreL(cs.head, r, q);
        var (es, l) := HoistL(cs.head, r).value;
        if AllSameAndNonNull(es) {
          RemoveNoMore(l, r, q);
        }
      }
    }
  }

  lemma {:induction false} HoistNoMoreL(l: Ladder, r: Ref, q: Ref)
    requires q != r && HoistL(l, r).Ok?
    ensures NoMoreCommonL(l, HoistL(l, r).value.1, q)
  {
    hide Hoist, NoMoreCommon;
    HoistNoMore(l.block, r, q);
    match l.rest {
      case NoElse =>
      case ElseIf(n) => HoistNoMoreL(n, r, q);
      case Else(b) => HoistNoMore(b, r, q);
    }
    NoMoreOfParts(l, HoistL(l, r).value.1, q);
  }

  // ---------------------------------------------------------------------------
  // What is hoisted
  // ---------------------------------------------------------------------------

  /** Expressions that compare the same are those that have the same value whatever the values of expressions are. */
  lemma SameIsAlike(a: Expr, b: Expr)
    ensures Same(a, b) <==> Alike(a, b)
  {
    if !Same(a, b) {
      var v: Values := (id: nat) =>
        if a.Literal? then a.bits + [true] else if b.Literal? then b.bits + [true] else if id == a.id then [true] else [];
      assert ValueOf(a, v) != ValueOf(b, v);
    }
  }

  /** The variable is hoisted, to what is like `x`, exactly when all right-hand sides in the block are like `x`. */
  lemma {:induction false} HoistsExactly(b: Block, r: Ref, x: Expr)
    requires Once(b, r)
    ensures Hoist(b, r).Ok?
    ensures var (e, b') := Hoist(b, r).value;
            && ((e.Some? && Alike(e.value, x)) <==> forall y | y in Sides(b, r) :: Alike(y, x))
            && (e.Some? ==> e.value in Sides(b, r) && !AssignsC(b'.conds, r))
            && Sides(b, r) != {} && NoneCommon(b', r)
  {
    hide Alike;
    HoistWorks(b, r, r, _ => false, _ => []);
    if Own(b.assignments, r) == [] {
      HoistsExactlyC(b.conds, r, x);
    } else {
      NoSidesC(b.conds, r);
      NoneCommonWithout(b, r);
      assert Own(b.assignments, r)[0] in Sides(b, r);
    }
  }

  lemma {:induction false} HoistsExactlyC(cs: Conds, r: Ref, x: Expr)
    requires OnceC(cs, r)
    ensures HoistC(cs, r).Ok?
    ensures var (e, cs') := HoistC(cs, r).value;
            && ((e.Some? && Alike(e.value, x)) <==> forall y | y in SidesC(cs, r) :: Alike(y, x))
            && (e.Some? ==> e.value in SidesC(cs, r) && !AssignsC(cs', r))
            && SidesC(cs, r) != {} && NoneCommonC(cs', r)
  {
    hide Alike;
    var l, t := cs.head, cs.tail;
    HoistWorksC(cs, r, r, _ => false, _ => []);
    if !AssignsL(l, r) {
      HoistsExactlyC(t, r, x);
      NoSidesL(l, r);
      NoneCommonWithoutL(l, r);
    } else {
      HoistWorksL(l, r, r, _ => false, _ => []);
      NoSidesC(t, r);
      HoistsExactlyL(l, r, x);
      var (es, l') := HoistL(l, r).value;
      AllSameMeans(es, x);
      if AllSameAndNonNull(es) {
        NoneCommonWithoutC(HoistC(cs, r).value.1, r);
      } else {
        NotCommon(l', r, es);
        NoneCommonWithoutC(t, r);
      }
    }
  }

  lemma AllSameMeans(es: seq<Option<Expr>>, x: Expr)
    requires es != []
    ensures (AllSameAndNonNull(es) && Alike(es[0].value, x)) <==> forall k | 0 <= k < |es| :: es[k].Some? && Alike(es[k].value, x)
  {
    hide Alike, Same;
    forall k | 0 <= k < |es| && es[k].Some? && es[0].Some?
      ensures Same(es[k].value, es[0].value) <==> Alike(es[k].value, es[0].value)
    {
      SameIsAlike(es[k].value, es[0].value);
    }
    if AllSameAndNonNull(es) && Alike(es[0].value, x) {
      forall k | 0 <= k < |es|
        ensures Alike(es[k].value, x)
      {
        AlikeTrans(es[k].value, es[0].value, x);
      }
    }
    if forall k | 0 <= k < |es| :: es[k].Some? && Alike(es[k].value, x) {
      forall k | 0 <= k < |es|
        ensures Alike(es[k].value, es[0].value)
      {
        AlikeSymmetric(es[0].value, x);
        AlikeTrans(es[k].value, x, es[0].value);
      }
    }
  }

  lemma AlikeSymmetric(a: Expr, b: Expr)
    requires Alike(a, b)
    ensures Alike(b, a)
  {
    AlikeTrans(a, b, b);
  }

  /** The alternates of a hoisted ladder have no common assignment, unless they are all the same. */
  lemma NotCommon(l: Ladder, r: Ref, es: seq<Option<Expr>>)
    requires Heads(l, r, es) && !AllSameAndNonNull(es)
    ensures forall x :: !AlternatesAssign(l, r, x)
  {
    hide Alike;
    forall x
      ensures !AlternatesAssign(l, r, x)
    {
      if AlternatesAssign(l, r, x) {
        HeadsAlike(l, r, es, x);
        AllSameMeans(es, x);
        assert false;
      }
    }
  }

  lemma {:induction false} HeadsAlike(l: Ladder, r: Ref, es: seq<Option<Expr>>, x: Expr)
    requires Heads(l, r, es) && AlternatesAssign(l, r, x)
    ensures forall k | 0 <= k < |es| :: es[k].Some? && Alike(es[k].value, x)
  {
    hide Alike;
    match l.rest
    case NoElse =>
    case ElseIf(n) =>
      HeadsAlike(n, r, es[1..], x);
      forall k | 0 <= k < |es|
        ensures es[k].Some? && Alike(es[k].value, x)
      {
        assert k > 0 ==> es[k] == es[1..][k - 1];
      }
    case Else(b) =>
  }

  lemma {:induction false} HoistsExactlyL(l: Ladder, r: Ref, x: Expr)
    requires OnceL(l, r)
    ensures HoistL(l, r).Ok?
    ensures var (es, l') := HoistL(l, r).value;
            && ((forall k | 0 <= k < |es| :: es[k].Some? && Alike(es[k].value, x)) <==>
                forall y | y in SidesL(l, r) :: Alike(y, x))
            && es != [] && (es[0].Some? ==> es[0].value in SidesL(l, r))
            && SidesL(l, r) != {} && NoneCommonL(l', r)
  {
    hide Alike, Hoist, Sides, NoneCommon, Once;
    HoistsExactly(l.block, r, x);
    var (e, b) := Hoist(l.block, r).value;
    match l.rest
    case ElseIf(n) =>
      HoistsExactlyL(n, r, x);
      var (es, n') := HoistL(n, r).value;
      AllOfCons(e, es, x);
    case Else(last) =>
      HoistsExactly(last, r, x);
      var (e2, last') := Hoist(last, r).value;
      var es := [e2];
      assert [e] + es == [e, e2] && es[0] == e2;
      AllOfCons(e, es, x);
  }

  lemma AllOfCons(e: Option<Expr>, es: seq<Option<Expr>>, x: Expr)
    ensures (forall k | 0 <= k < |[e] + es| :: ([e] + es)[k].Some? && Alike(([e] + es)[k].value, x)) <==>
              && (e.Some? && Alike(e.value, x))
              && forall k | 0 <= k < |es| :: es[k].Some? && Alike(es[k].value, x)
  {
    hide Alike;
    var all := [e] + es;
    assert all[0] == e && forall k | 0 <= k < |es| :: all[k + 1] == es[k];
  }

  /** Hoisting returns a right-hand side exactly when all are alike in value; then no conditional assigns the variable, and
      in any case no conditional has a common assignment left. */
  lemma HoistsCommon(b: Block, r: Ref)
    requires Once(b, r)
    ensures Hoist(b, r).Ok?
    ensures var (e, b') := Hoist(b, r).value;
            && (e.Some? <==> AllAlike(Sides(b, r)))
            && (e.Some? ==> e.value in Sides(b, r) && !AssignsC(b'.conds, r))
            && NoneCommon(b', r)
  {
    hide Alike, Hoist, Sides, Once;
    HoistsExactly(b, r, Other(0));
    var (e, b') := Hoist(b, r).value;
    if e.Some? {
      HoistsExactly(b, r, e.value);
      LikeItself(e.value);
      forall y, z | y in Sides(b, r) && z in Sides(b, r)
        ensures Alike(y, z)
      {
        AlikeSymmetric(z, e.value);
        AlikeTrans(y, e.value, z);
      }
    }
    if AllAlike(Sides(b, r)) {
      var x :| x in Sides(b, r);
      HoistsExactly(b, r, x);
    }
  }

  lemma LikeItself(a: Expr)
    ensures Alike(a, a)
  {
  }

  /** All paths assign the same to `r`. */
  ghost predicate PathsAgree(b: Block, r: Ref) {
    forall p: Path, q: Path, v: Values :: SameValues(Assigned(b, r, p), Assigned(b, r, q), v)
  }

  /** Where no path asks a condition twice, that is exactly when all paths assign the same. */
  lemma HoistsWhenPathsAgree(b: Block, r: Ref)
    requires Once(b, r) && AskedOnce(b)
    ensures Hoist(b, r).Ok?
    ensures Hoist(b, r).value.0.Some? <==> PathsAgree(b, r)
  {
    hide Hoist, Sides, Once, AskedOnce, Assigned;
    HoistsCommon(b, r);
    if AllAlike(Sides(b, r)) {
      forall p: Path, q: Path, v: Values
        ensures SameValues(Assigned(b, r, p), Assigned(b, r, q), v)
      {
        OnceMeansOnce(b, r, p);
        OnceMeansOnce(b, r, q);
        AssignedIsSide(b, r, p, Assigned(b, r, p)[0]);
        AssignedIsSide(b, r, q, Assigned(b, r, q)[0]);
        assert Alike(Assigned(b, r, p)[0], Assigned(b, r, q)[0]);
      }
    }
    if PathsAgree(b, r) {
      forall y, z | y in Sides(b, r) && z in Sides(b, r)
        ensures Alike(y, z)
      {
        var p := SideIsReached(b, r, y);
        var q := SideIsReached(b, r, z);
        OnceMeansOnce(b, r, p);
        OnceMeansOnce(b, r, q);
        forall v: Values
          ensures ValueOf(y, v) == ValueOf(z, v)
        {
          assert SameValues(Assigned(b, r, p), Assigned(b, r, q), v);
        }
      }
    }
  }

  // ---------------------------------------------------------------------------
  // Emission
  // ---------------------------------------------------------------------------

  /** Verilog statements. */
  datatype Statements =
    | End
    | Assign(lhs: Ref, rhs: Expr, next: Statements)
    | If(conditional: Conditional, next: Statements)
  datatype Conditional = Conditional(condition: nat, body: Statements, alternate: ConditionalAlternate)
  datatype ConditionalAlternate = NoAlternate | AlternateIf(next: Conditional) | AlternateElse(body: Statements)

  /** Right-hand sides that running the statements assigns to `r`. */
  ghost function Executed(s: Statements, r: Ref, p: Path): seq<Expr> {
    match s
    case End => []
    case Assign(lhs, rhs, next) => (if lhs == r then [rhs] else []) + Executed(next, r, p)
    case If(c, next) => ExecutedIf(c, r, p) + Executed(next, r, p)
  }

  ghost function ExecutedIf(c: Conditional, r: Ref, p: Path): seq<Expr> {
    if p(c.condition) then Executed(c.body, r, p)
    else
      match c.alternate
      case NoAlternate => []
      case AlternateIf(n) => ExecutedIf(n, r, p)
      case AlternateElse(s) => Executed(s, r, p)
  }

  predicate HasAssignments(b: Block) {
    b.assignments != [] || HasAssignmentsC(b.conds)
  }

  predicate HasAssignmentsC(cs: Conds) {
    match cs
    case Nil => false
    case Cons(l, t) => HasAssignmentsL(l) || HasAssignmentsC(t)
  }

  predicate HasAssignmentsL(l: Ladder) {
    || HasAssignments(l.block)
    || match l.rest
       case NoElse => false
       case ElseIf(n) => HasAssignmentsL(n)
       case Else(b) => HasAssignments(b)
  }

  function Emit(b: Block): Statements
    decreases b, 1
  {
    EmitOwn(b.assignments, EmitC(b.conds))
  }

  function EmitOwn(a: seq<Assignment>, next: Statements): Statements {
    if a == [] then next else Assign(a[0].lhs, a[0].rhs, EmitOwn(a[1..], next))
  }

  /** A ladder without assignments is not emitted. */
  function EmitC(cs: Conds): Statements {
    match cs
    case Nil => End
    case Cons(l, t) => if HasAssignmentsL(l) then If(EmitL(l), EmitC(t)) else EmitC(t)
  }

  function EmitL(l: Ladder): Conditional {
    Conditional(
      l.condition,
      Emit(l.block),
      match l.rest
      case NoElse => NoAlternate
      case ElseIf(n) => if HasAssignmentsL(n) then AlternateIf(EmitL(n)) else NoAlternate
      case Else(b) => if HasAssignments(b) then AlternateElse(Emit(b)) else NoAlternate)
  }

  lemma {:induction false} OwnFirst(a: seq<Assignment>, r: Ref)
    requires a != []
    ensures Own(a, r) == (if a[0].lhs == r then [a[0].rhs] else []) + Own(a[1..], r)
  {
    if |a| > 1 {
      OwnFirst(a[..|a| - 1], r);
      assert a[..|a| - 1][1..] == a[1..][..|a| - 2];
    } else {
      assert a[..0] == [] && a[1..] == [];
    }
  }

  lemma {:induction false} EmitOwnExecutes(a: seq<Assignment>, next: Statements, r: Ref, p: Path)
    ensures Executed(EmitOwn(a, next), r, p) == Own(a, r) + Executed(next, r, p)
  {
    if a != [] {
      OwnFirst(a, r);
      EmitOwnExecutes(a[1..], next, r, p);
    }
  }

  lemma {:induction false} NoAssignmentsAssignsNothing(b: Block, r: Ref, p: Path)
    requires !HasAssignments(b)
    ensures Assigned(b, r, p) == []
  {
    NoAssignmentsAssignsNothingC(b.conds, r, p);
  }

  lemma {:induction false} NoAssignmentsAssignsNothingC(cs: Conds, r: Ref, p: Path)
    requires !HasAssignmentsC(cs)
    ensures AssignedC(cs, r, p) == []
  {
    match cs
    case Nil =>
    case Cons(l, t) =>
      NoAssignmentsAssignsNothingL(l, r, p);
      NoAssignmentsAssignsNothingC(t, r, p);
  }

  lemma {:induction false} NoAssignmentsAssignsNothingL(l: Ladder, r: Ref, p: Path)
    requires !HasAssignmentsL(l)
    ensures AssignedL(l, r, p) == []
  {
    NoAssignmentsAssignsNothing(l.block, r, p);
    match l.rest
    case NoElse =>
    case ElseIf(n) => NoAssignmentsAssignsNothingL(n, r, p);
    case Else(b) => NoAssignmentsAssignsNothing(b, r, p);
  }

  /** Some statement is an assignment. */
  predicate Assigning(s: Statements) {
    match s
    case End => false
    case Assign(_, _, _) => true
    case If(c, next) => AssigningIf(c) || Assigning(next)
  }

  predicate AssigningIf(c: Conditional) {
    || Assigning(c.body)
    || match c.alternate
       case NoAlternate => false
       case AlternateIf(n) => AssigningIf(n)
       case AlternateElse(s) => Assigning(s)
  }

  /** No conditional statement and no else part is without assignments. */
  predicate Trim(s: Statements) {
    match s
    case End => true
    case Assign(_, _, next) => Trim(next)
    case If(c, next) => TrimIf(c) && Trim(next)
  }

  predicate TrimIf(c: Conditional) {
    && AssigningIf(c) && Trim(c.body)
    && match c.alternate
       case NoAlternate => true
       case AlternateIf(n) => TrimIf(n)
       case AlternateElse(s) => Assigning(s) && Trim(s)
  }

  /** Conditional blocks and alternates without assignments are left out of what is emitted, and no others. */
  lemma {:induction false} EmissionTrims(b: Block)
    ensures Trim(Emit(b)) && (Assigning(Emit(b)) <==> HasAssignments(b))
  {
    EmissionTrimsC(b.conds);
    EmitOwnTrims(b.assignments, EmitC(b.conds));
  }

  lemma {:induction false} EmitOwnTrims(a: seq<Assignment>, next: Statements)
    requires Trim(next)
    ensures Trim(EmitOwn(a, next)) && (Assigning(EmitOwn(a, next)) <==> a != [] || Assigning(next))
  {
    if a != [] {
      EmitOwnTrims(a[1..], next);
    }
  }

  lemma {:induction false} EmissionTrimsC(cs: Conds)
    ensures Trim(EmitC(cs)) && (Assigning(EmitC(cs)) <==> HasAssignmentsC(cs))
  {
    match cs
    case Nil =>
    case Cons(l, t) =>
      EmissionTrimsC(t);
      if HasAssignmentsL(l) {
        EmissionTrimsL(l);
      }
  }

  lemma {:induction false} EmissionTrimsL(l: Ladder)
    requires HasAssignmentsL(l)
    ensures TrimIf(EmitL(l))
  {
    EmissionTrims(l.block);
    match l.rest
    case NoElse =>
    case ElseIf(n) =>
      if HasAssignmentsL(n) {
        EmissionTrimsL(n);
      }
    case Else(b) => EmissionTrims(b);
  }

  /** The emitted statements assign what the block assigns, to every variable and on every path. */
  lemma {:induction false} EmissionPreserves(b: Block, r: Ref, p: Path)
    ensures Executed(Emit(b), r, p) == Assigned(b, r, p)
  {
    EmissionPreservesC(b.conds, r, p);
    EmitOwnExecutes(b.assignments, EmitC(b.conds), r, p);
  }

  lemma {:induction false} EmissionPreservesC(cs: Conds, r: Ref, p: Path)
    ensures Executed(EmitC(cs), r, p) == AssignedC(cs, r, p)
  {
    match cs
    case Nil =>
    case Cons(l, t) =>
      EmissionPreservesC(t, r, p);
      if HasAssignmentsL(l) {
        EmissionPreservesL(l, r, p);
      } else {
        NoAssignmentsAssignsNothingL(l, r, p);
      }
  }

  lemma {:induction false} EmissionPreservesL(l: Ladder, r: Ref, p: Path)
    ensures ExecutedIf(EmitL(l), r, p) == AssignedL(l, r, p)
  {
    EmissionPreserves(l.block, r, p);
    match l.rest
    case NoElse =>
    case ElseIf(n) =>
      if HasAssignmentsL(n) {
        EmissionPreservesL(n, r, p);
      } else {
        NoAssignmentsAssignsNothingL(n, r, p);
      }
    case Else(b) =>
      if HasAssignments(b) {
        EmissionPreserves(b, r, p);
      } else {
        NoAssignmentsAssignsNothing(b, r, p);
      }
  }

  // ---------------------------------------------------------------------------
  // The output logic of a machine
  // ---------------------------------------------------------------------------

  /** On every path `b` assigns output `o` once: what `b0` assigned, or the default where `b0` assigned nothing. */
  ghost predicate Drives(b0: Block, b: Block, o: Output) {
    Once(b, o.ref) && forall p: Path, v: Values :: SameValues(Assigned(b, o.ref, p), OrDefault(Assigned(b0, o.ref, p), o), v)
  }

  ghost predicate Untouched(b0: Block, b: Block, r: Ref) {
    forall p: Path :: SameAt(b0, b, r, p)
  }

  /** No other output drives the same variable. */
  predicate Sole(outputs: seq<Output>, j: nat)
    requires j < |outputs|
  {
    forall k | 0 <= k < |outputs| && k != j :: outputs[k].ref != outputs[j].ref
  }

  /** No earlier output drives the same variable. */
  predicate IsFirst(outputs: seq<Output>, j: nat)
    requires j < |outputs|
  {
    forall k | 0 <= k < j :: outputs[k].ref != outputs[j].ref
  }

  lemma {:induction false} FirstFor(outputs: seq<Output>, j: nat) returns (i: nat)
    requires j < |outputs|
    ensures i <= j && IsFirst(outputs, i) && outputs[i].ref == outputs[j].ref
  {
    if IsFirst(outputs, j) {
      i := j;
    } else {
      var k :| 0 <= k < j && outputs[k].ref == outputs[j].ref;
      i := FirstFor(outputs, k);
    }
  }

  predicate IsOutput(outputs: seq<Output>, n: nat, r: Ref)
    requires n <= |outputs|
  {
    exists k | 0 <= k < n :: outputs[k].ref == r
  }

  /** The first `n` outputs have been processed. */
  ghost predicate Processed(b0: Block, b: Block, outputs: seq<Output>, n: nat)
    requires n <= |outputs|
  {
    && (forall j | 0 <= j < n && IsFirst(outputs, j) :: Drives(b0, b, outputs[j]))
    && (forall j | 0 <= j < n :: Once(b, outputs[j].ref) && Most(b0, outputs[j].ref) <= 1)
    && (forall r | !IsOutput(outputs, n, r) :: Untouched(b0, b, r))
  }

  /** No conditional assigns one of the first `n` outputs the same on all alternates. */
  ghost predicate HoistedAll(b: Block, outputs: seq<Output>, n: nat)
    requires n <= |outputs|
  {
    forall j | 0 <= j < n :: NoneCommon(b, outputs[j].ref)
  }

  /** Output `j` is the first that is counted more than once. */
  ghost predicate FirstTwice(b: Block, outputs: seq<Output>, j: nat) {
    && j < |outputs| && Most(b, outputs[j].ref) > 1
    && forall i | 0 <= i < j :: Most(b, outputs[i].ref) <= 1
  }

  /** Default then hoist on one more output leaves the others hoisted. */
  lemma HoistedNext(b: Block, outputs: seq<Output>, n: nat)
    requires n < |outputs| && HoistedAll(b, outputs, n) && AddDefaults(b, outputs[n]).Ok?
    requires Once(AddDefaults(b, outputs[n]).value, outputs[n].ref)
    ensures Hoist(AddDefaults(b, outputs[n]).value, outputs[n].ref).Ok?
    ensures HoistedAll(Hoist(AddDefaults(b, outputs[n]).value, outputs[n].ref).value.1, outputs, n + 1)
  {
    hide AddDefaults, Hoist, NoneCommon, Once;
    var o := outputs[n];
    var b1 := AddDefaults(b, o).value;
    HoistsCommon(b1, o.ref);
    forall j | 0 <= j < n + 1
      ensures NoneCommon(Hoist(b1, o.ref).value.1, outputs[j].ref)
    {
      if outputs[j].ref != o.ref {
        AddDefaultsNoMore(b, o, outputs[j].ref);
        HoistNoMore(b1, o.ref, outputs[j].ref);
      }
    }
  }

  lemma {:induction false} OnceIsMostOne(b: Block, r: Ref)
    requires Once(b, r)
    ensures Most(b, r) == 1
  {
    if Own(b.assignments, r) != [] {
      MostBoundsC(b.conds, r, _ => false);
    } else {
      OnceIsMostOneC(b.conds, r);
    }
  }

  lemma {:induction false} OnceIsMostOneC(cs: Conds, r: Ref)
    requires OnceC(cs, r)
    ensures MostC(cs, r) == 1
  {
    MostBoundsL(cs.head, r, _ => false);
    MostBoundsC(cs.tail, r, _ => false);
    if AssignsL(cs.head, r) {
      OnceIsMostOneL(cs.head, r);
    } else {
      OnceIsMostOneC(cs.tail, r);
    }
  }

  lemma {:induction false} OnceIsMostOneL(l: Ladder, r: Ref)
    requires OnceL(l, r)
    ensures MostL(l, r) == 1
  {
    OnceIsMostOne(l.block, r);
    match l.rest
    case ElseIf(n) => OnceIsMostOneL(n, r);
    case Else(b) => OnceIsMostOne(b, r);
  }

  /** The variable is assigned once on every path, with the same value, and every other variable is left alone. */
  ghost predicate KeepsValues(b: Block, b': Block, r: Ref) {
    && Once(b', r) && (forall p: Path, v: Values :: SameValues(Assigned(b', r, p), Assigned(b, r, p), v))
    && forall q | q != r :: Untouched(b, b', q)
  }

  lemma HoistKeepsValues(b: Block, r: Ref)
    requires Once(b, r)
    ensures Hoist(b, r).Ok? && KeepsValues(b, Hoist(b, r).value.1, r)
  {
    hide Hoist, Once, Assigned, SameValues, SameAt;
    HoistWorks(b, r, r, _ => false, _ => []);
    var b' := Hoist(b, r).value.1;
    forall p: Path, v: Values
      ensures SameValues(Assigned(b', r, p), Assigned(b, r, p), v)
    {
      HoistWorks(b, r, r, p, v);
    }
    forall q, p: Path | q != r
      ensures SameAt(b, b', q, p)
    {
      HoistWorks(b, r, q, p, _ => []);
    }
  }

  lemma DefaultsComplete(b: Block, o: Output)
    requires AddDefaults(b, o).Ok?
    ensures Completed(b, AddDefaults(b, o).value, o)
  {
    hide AddDefaults, Once, Assigned, SameAt, OrDefault;
    AddDefaultsWorks(b, o, o.ref, _ => false);
    var b' := AddDefaults(b, o).value;
    forall p: Path, v: Values
      ensures SameValues(Assigned(b', o.ref, p), OrDefault(Assigned(b, o.ref, p), o), v)
    {
      AddDefaultsWorks(b, o, o.ref, p);
    }
    forall q, p: Path | q != o.ref
      ensures SameAt(b, b', q, p)
    {
      AddDefaultsWorks(b, o, q, p);
    }
  }

  /** Completing one output. */
  ghost predicate Completed(b: Block, b': Block, o: Output) {
    Drives(b, b', o) && forall r | r != o.ref :: Untouched(b, b', r)
  }

  lemma DefaultThenHoist(b: Block, o: Output)
    requires Most(b, o.ref) <= 1
    ensures AddDefaults(b, o).Ok?
    ensures Once(AddDefaults(b, o).value, o.ref)
    ensures Hoist(AddDefaults(b, o).value, o.ref).Ok?
    ensures Completed(b, Hoist(AddDefaults(b, o).value, o.ref).value.1, o)
  {
    hide AddDefaults, Hoist, Once, Assigned, SameAt;
    var noPath: Path := _ => false;
    AddDefaultsWorks(b, o, o.ref, noPath);
    var b1 := AddDefaults(b, o).value;
    HoistWorks(b1, o.ref, o.ref, noPath, _ => []);
    var b2 := Hoist(b1, o.ref).value.1;
    forall p: Path, v: Values
      ensures SameValues(Assigned(b2, o.ref, p), OrDefault(Assigned(b, o.ref, p), o), v)
    {
      AddDefaultsWorks(b, o, o.ref, p);
      HoistWorks(b1, o.ref, o.ref, p, v);
    }
    forall r | r != o.ref
      ensures Untouched(b, b2, r)
    {
      forall p: Path
        ensures SameAt(b, b2, r, p)
      {
        AddDefaultsWorks(b, o, r, p);
        HoistWorks(b1, o.ref, r, p, _ => []);
        SameAtTrans(b, b1, b2, r, p);
      }
    }
  }

  lemma SameAtTrans(a: Block, b: Block, c: Block, r: Ref, p: Path)
    requires SameAt(a, b, r, p) && SameAt(b, c, r, p)
    ensures SameAt(a, c, r, p)
  {
  }

  lemma UntouchedTrans(a: Block, b: Block, c: Block, r: Ref)
    requires Untouched(a, b, r) && Untouched(b, c, r)
    ensures Untouched(a, c, r)
  {
    hide SameAt;
    forall p: Path
      ensures SameAt(a, c, r, p)
    {
      SameAtTrans(a, b, c, r, p);
    }
  }

  /** Later outputs do not disturb an output that is done. */
  lemma DrivesTrans(b0: Block, b: Block, b': Block, o: Output)
    requires Drives(b0, b, o) && Untouched(b, b', o.ref)
    ensures Drives(b0, b', o)
  {
    hide Once, Assigned, OrDefault;
    var noPath: Path := _ => false;
    assert SameAt(b, b', o.ref, noPath);
    forall p: Path, v: Values
      ensures SameValues(Assigned(b', o.ref, p), OrDefault(Assigned(b0, o.ref, p), o), v)
    {
      assert SameAt(b, b', o.ref, p);
    }
  }

  lemma DrivesFrom(b0: Block, b: Block, b': Block, o: Output)
    requires Untouched(b0, b, o.ref) && Drives(b, b', o)
    ensures Drives(b0, b', o)
  {
    hide Once, Assigned, OrDefault;
    forall p: Path, v: Values
      ensures SameValues(Assigned(b', o.ref, p), OrDefault(Assigned(b0, o.ref, p), o), v)
    {
      assert SameAt(b0, b, o.ref, p);
    }
  }

  /** A second output on the same variable finds it assigned and changes no value. */
  lemma DrivesAgain(b0: Block, b: Block, b': Block, first: Output, o: Output)
    requires Drives(b0, b, first) && Drives(b, b', o) && first.ref == o.ref
    ensures Drives(b0, b', first)
  {
    hide Once, Assigned;
    forall p: Path, v: Values
      ensures SameValues(Assigned(b', o.ref, p), OrDefault(Assigned(b0, o.ref, p), first), v)
    {
      OnceMeansOnce(b, o.ref, p);
      assert SameValues(Assigned(b, o.ref, p), OrDefault(Assigned(b0, o.ref, p), first), v);
      assert SameValues(Assigned(b', o.ref, p), OrDefault(Assigned(b, o.ref, p), o), v);
    }
  }

  lemma NothingProcessed(b: Block, outputs: seq<Output>)
    ensures Processed(b, b, outputs, 0)
  {
  }

  lemma ProcessNext(b0: Block, b: Block, b': Block, outputs: seq<Output>, n: nat)
    requires n < |outputs| && Processed(b0, b, outputs, n) && Completed(b, b', outputs[n])
    requires Most(b0, outputs[n].ref) <= 1
    ensures Processed(b0, b', outputs, n + 1)
  {
    hide Drives, Untouched, Once, Most;
    var o := outputs[n];
    forall j | 0 <= j < n + 1 && IsFirst(outputs, j)
      ensures Drives(b0, b', outputs[j])
    {
      if j < n && outputs[j].ref == o.ref {
        DrivesAgain(b0, b, b', outputs[j], o);
      } else if j < n {
        DrivesTrans(b0, b, b', outputs[j]);
      } else {
        assert !IsOutput(outputs, n, o.ref);
        DrivesFrom(b0, b, b', o);
      }
    }
    forall j | 0 <= j < n + 1
      ensures Once(b', outputs[j].ref)
    {
      if outputs[j].ref == o.ref {
        DrivesOnce(b, b', o);
      } else {
        UntouchedOnce(b, b', outputs[j].ref);
      }
    }
    forall r | !IsOutput(outputs, n + 1, r)
      ensures Untouched(b0, b', r)
    {
      assert !IsOutput(outputs, n, r) && r != o.ref;
      UntouchedTrans(b0, b, b', r);
    }
  }

  lemma DrivesOnce(b: Block, b': Block, o: Output)
    requires Drives(b, b', o)
    ensures Once(b', o.ref)
  {
  }

  lemma UntouchedOnce(b: Block, b': Block, r: Ref)
    requires Untouched(b, b', r)
    ensures Once(b', r) == Once(b, r) && Most(b', r) == Most(b, r)
  {
    assert SameAt(b, b', r, _ => false);
  }

  /** Whether the next output can be completed depends on the original block only. */
  lemma NextMost(b0: Block, b: Block, outputs: seq<Output>, n: nat)
    requires n < |outputs| && Processed(b0, b, outputs, n)
    ensures Most(b, outputs[n].ref) <= 1 <==> Most(b0, outputs[n].ref) <= 1
  {
    hide Drives, Untouched, Once, Most;
    var r := outputs[n].ref;
    if IsOutput(outputs, n, r) {
      OnceIsMostOne(b, r);
    } else {
      UntouchedOnce(b0, b, r);
    }
  }

  /** A state of the machine: its block is rewritten in place. */
  class FsmState {
    var block: Block

    constructor (b: Block)
      ensures block == b
    {
      block := b;
    }

    method AddDefaultOutputAssignments(o: Output) returns (r: Result<()>)
      modifies this
      ensures r.Ok? <==> Most(old(block), o.ref) <= 1
      ensures AssignedTwice(old(block), o.ref) ==> !r.Ok?
      ensures AskedOnce(old(block)) ==> (r.Ok? <==> !AssignedTwice(old(block), o.ref))
      ensures r.Ok? ==> AddDefaults(old(block), o) == Ok(block) && Completed(old(block), block, o)
      ensures !r.Ok? ==> r.error == AssignedMoreThanOnce(o.ref) && block == old(block)
    {
      hide Most, AssignedTwice, AskedOnce, AddDefaults, Completed;
      TwiceExceedsMost(block, o.ref);
      AddDefaultsWorks(block, o, o.ref, _ => false);
      RefusalNamesOutput(block, o);
      if AddDefaults(block, o).Ok? {
        DefaultsComplete(block, o);
      }
      match AddDefaults(block, o) {
        case Err(e) => return Err(e);
        case Ok(b) => block := b;
      }
      return Ok(());
    }

    method HoistCommonConditionalAssignments(o: Output) returns (r: Result<Option<Expr>>)
      modifies this
      ensures Once(old(block), o.ref) ==> r.Ok? && KeepsValues(old(block), block, o.ref)
      ensures Once(old(block), o.ref) ==>
                && (r.value.Some? <==> AllAlike(Sides(old(block), o.ref)))
                && (r.value.Some? ==> r.value.value in Sides(old(block), o.ref) && !AssignsC(block.conds, o.ref))
                && NoneCommon(block, o.ref)
      ensures r.Ok? ==> Hoist(old(block), o.ref) == Ok((r.value, block))
      ensures r.Err? ==> Hoist(old(block), o.ref) == Err(r.error) && block == old(block)
    {
      hide Hoist, Once, KeepsValues;
      if Once(block, o.ref) {
        HoistKeepsValues(block, o.ref);
        HoistsCommon(block, o.ref);
      }
      match Hoist(block, o.ref) {
        case Err(e) => r := Err(e);
        case Ok((e, b)) =>
          block := b;
          r := Ok(e);
      }
    }

    /** Processes every output in turn. */
    method ProcessOutputs(outputs: seq<Output>) returns (r: Result<()>)
      modifies this
      ensures r.Ok? <==> forall j | 0 <= j < |outputs| :: Most(old(block), outputs[j].ref) <= 1
      ensures r.Ok? ==> forall j | 0 <= j < |outputs| :: !AssignedTwice(old(block), outputs[j].ref)
      ensures AskedOnce(old(block)) ==>
                (r.Ok? <==> forall j | 0 <= j < |outputs| :: !AssignedTwice(old(block), outputs[j].ref))
      ensures r.Ok? ==> Processed(old(block), block, outputs, |outputs|) && HoistedAll(block, outputs, |outputs|)
      ensures r.Err? ==> exists j: nat :: FirstTwice(old(block), outputs, j) && r.error == AssignedMoreThanOnce(outputs[j].ref)
    {
      hide Drives, Once, Most, AddDefaults, Hoist, SameAt, AssignedTwice, AskedOnce, NoneCommon;
      ghost var b0 := block;
      forall j | 0 <= j < |outputs|
        ensures AssignedTwice(b0, outputs[j].ref) ==> Most(b0, outputs[j].ref) > 1
        ensures AskedOnce(b0) ==> (AssignedTwice(b0, outputs[j].ref) <==> Most(b0, outputs[j].ref) > 1)
      {
        TwiceExceedsMost(b0, outputs[j].ref);
      }
      NothingProcessed(b0, outputs);
      for n := 0 to |outputs|
        invariant Processed(b0, block, outputs, n) && HoistedAll(block, outputs, n)
      {
        ghost var b := block;
        NextMost(b0, block, outputs, n);
        var added := AddDefaultOutputAssignments(outputs[n]);
        if !added.Ok? {
          assert FirstTwice(b0, outputs, n);
          return Err(added.error);
        }
        DefaultThenHoist(b, outputs[n]);
        HoistedNext(b, outputs, n);
        var hoisted := HoistCommonConditionalAssignments(outputs[n]);
        ProcessNext(b0, b, block, outputs, n);
      }
      return Ok(());
    }
  }

  /** The case statement over the state register. */
  datatype Case = Case(arms: seq<Statements>, defaultArm: Option<Statements>)

  ghost function ExecutedCase(c: Case, state: nat, r: Ref, p: Path): seq<Expr> {
    if state < |c.arms| then Executed(c.arms[state], r, p)
    else if c.defaultArm.Some? then Executed(c.defaultArm.value, r, p)
    else []
  }

  lemma LeastWidth(states: nat)
    requires 1 <= states
    ensures var n := MinBitCountUnsigned(states - 1);
            && states <= Pow2(if n < 1 then 1 else n)
            && forall w: nat | states <= Pow2(w) :: n <= w
  {
    var n := MinBitCountUnsigned(states - 1);
    FitsExactly(states - 1, n);
    FitsExactly(states - 1, 1);
    forall w: nat | states <= Pow2(w)
      ensures n <= w
    {
      FitsExactly(states - 1, w);
    }
  }

  /** The least width, but at least 1, that has a value for every state. */
  function StateRegisterWidth(states: nat): (width: nat)
    requires 1 <= states
    ensures 1 <= width && states <= Pow2(width)
    ensures forall w: nat | 1 <= w && states <= Pow2(w) :: width <= w
  {
    LeastWidth(states);
    if MinBitCountUnsigned(states - 1) < 1 then 1 else MinBitCountUnsigned(states - 1)
  }

  function DefaultArm(outputs: seq<Output>): Statements {
    if outputs == [] then End else Assign(outputs[0].ref, outputs[0].default, DefaultArm(outputs[1..]))
  }

  /** The defaults of the outputs on variable `r`. */
  function Defaults(outputs: seq<Output>, r: Ref): seq<Expr> {
    if outputs == [] then []
    else (if outputs[0].ref == r then [outputs[0].default] else []) + Defaults(outputs[1..], r)
  }

  lemma {:induction false} DefaultArmExecutes(outputs: seq<Output>, r: Ref, p: Path)
    ensures Executed(DefaultArm(outputs), r, p) == Defaults(outputs, r)
  {
    if outputs != [] {
      DefaultArmExecutes(outputs[1..], r, p);
    }
  }

  lemma {:induction false} NoDefaults(outputs: seq<Output>, r: Ref)
    ensures Defaults(outputs, r) == [] <==> !IsOutput(outputs, |outputs|, r)
  {
    if outputs != [] {
      NoDefaults(outputs[1..], r);
      if IsOutput(outputs[1..], |outputs| - 1, r) {
        var k :| 0 <= k < |outputs| - 1 && outputs[1..][k].ref == r;
        assert outputs[k + 1].ref == r;
      }
      if IsOutput(outputs, |outputs|, r) && outputs[0].ref != r {
        var k :| 0 <= k < |outputs| && outputs[k].ref == r;
        assert outputs[1..][k - 1].ref == r;
      }
    }
  }

  /** A variable has one default exactly when one output drives it. */
  lemma {:induction false} OneDefault(outputs: seq<Output>, j: nat)
    requires j < |outputs|
    ensures |Defaults(outputs, outputs[j].ref)| == 1 <==> Sole(outputs, j)
    ensures |Defaults(outputs, outputs[j].ref)| >= 1
  {
    var r := outputs[j].ref;
    NoDefaults(outputs[1..], r);
    if j == 0 {
      if IsOutput(outputs[1..], |outputs| - 1, r) {
        var k :| 0 <= k < |outputs| - 1 && outputs[1..][k].ref == r;
        assert outputs[k + 1].ref == r;
      } else {
        forall k | 0 <= k < |outputs| && k != 0
          ensures outputs[k].ref != r
        {
          assert outputs[1..][k - 1].ref != r;
        }
      }
    } else {
      OneDefault(outputs[1..], j - 1);
      assert outputs[1..][j - 1] == outputs[j];
      if Sole(outputs[1..], j - 1) && outputs[0].ref != r {
        forall k | 0 <= k < |outputs| && k != j
          ensures outputs[k].ref != r
        {
          assert k > 0 ==> outputs[1..][k - 1].ref != r;
        }
      }
      if Sole(outputs, j) {
        forall k | 0 <= k < |outputs| - 1 && k != j - 1
          ensures outputs[1..][k].ref != r
        {
          assert outputs[k + 1].ref != r;
        }
      }
    }
  }

  /** In every state each output's variable is assigned exactly once on every path, to what the state says or else to the
      default of the first output on it. Where the state register holds no state, each output assigns its default. */
  ghost predicate OutputsCorrect(c: Case, states: seq<Block>, outputs: seq<Output>)
    requires 1 <= |states|
  {
    forall state: nat, j, p: Path, v: Values
      | state < Pow2(StateRegisterWidth(|states|)) && 0 <= j < |outputs| && IsFirst(outputs, j) ::
      OutputCorrect(c, states, outputs, state, j, p, v)
  }

  ghost predicate OutputCorrect(c: Case, states: seq<Block>, outputs: seq<Output>, state: nat, j: nat, p: Path, v: Values)
    requires j < |outputs|
  {
    var o := outputs[j];
    var done := ExecutedCase(c, state, o.ref, p);
    if state < |states| then |done| == 1 && SameValues(done, OrDefault(Assigned(states[state], o.ref, p), o), v)
    else done == Defaults(outputs, o.ref)
  }

  /** Whatever the state register holds, variable `r` is assigned exactly once on every path. */
  ghost predicate AlwaysOnce(c: Case, states: nat, r: Ref)
    requires 1 <= states
  {
    forall state: nat, p: Path | state < Pow2(StateRegisterWidth(states)) :: |ExecutedCase(c, state, r, p)| == 1
  }

  /** An output is assigned exactly once everywhere exactly if it does not share its variable or every value of the
      state register is a state. */
  lemma OnceUnlessShared(c: Case, states: seq<Block>, outputs: seq<Output>, j: nat)
    requires 1 <= |states| <= Pow2(StateRegisterWidth(|states|)) && j < |outputs| && OutputsCorrect(c, states, outputs)
    ensures AlwaysOnce(c, |states|, outputs[j].ref)
       <==> Sole(outputs, j) || |states| == Pow2(StateRegisterWidth(|states|))
  {
    hide ExecutedCase, Assigned, Pow2, Sole, Defaults;
    var i := FirstFor(outputs, j);
    var r, n := outputs[j].ref, Pow2(StateRegisterWidth(|states|));
    OneDefault(outputs, j);
    forall state: nat, p: Path | state < n
      ensures |ExecutedCase(c, state, r, p)| == if state < |states| then 1 else |Defaults(outputs, r)|
    {
      assert OutputCorrect(c, states, outputs, state, i, p, _ => []);
    }
    if |states| < n {
      var p: Path := _ => false;
      assert |ExecutedCase(c, |states|, r, p)| == |Defaults(outputs, r)|;
    }
  }

  ghost predicate ArmOk(state: Block, arm: Statements, outputs: seq<Output>) {
    exists b :: Processed(state, b, outputs, |outputs|) && HoistedAll(b, outputs, |outputs|) && arm == Emit(b)
  }

  lemma ArmExecutes(state: Block, arm: Statements, outputs: seq<Output>, j: nat, p: Path, v: Values)
    requires ArmOk(state, arm, outputs) && j < |outputs| && IsFirst(outputs, j)
    ensures |Executed(arm, outputs[j].ref, p)| == 1
    ensures SameValues(Executed(arm, outputs[j].ref, p), OrDefault(Assigned(state, outputs[j].ref, p), outputs[j]), v)
  {
    hide Assigned, Once, OrDefault, Untouched, Most;
    var b :| Processed(state, b, outputs, |outputs|) && arm == Emit(b);
    assert Drives(state, b, outputs[j]);
    EmissionPreserves(b, outputs[j].ref, p);
    OnceMeansOnce(b, outputs[j].ref, p);
  }

  /** All arms are in place. */
  lemma CaseCorrect(c: Case, states: seq<Block>, outputs: seq<Output>)
    requires 1 <= |states| == |c.arms| && forall i | 0 <= i < |states| :: ArmOk(states[i], c.arms[i], outputs)
    requires |states| < Pow2(StateRegisterWidth(|states|)) ==> c.defaultArm == Some(DefaultArm(outputs))
    ensures OutputsCorrect(c, states, outputs)
  {
    hide Assigned, OrDefault, Executed, Processed, Defaults, Pow2;
    forall state: nat, j, p: Path, v: Values
      | state < Pow2(StateRegisterWidth(|states|)) && 0 <= j < |outputs| && IsFirst(outputs, j)
      ensures OutputCorrect(c, states, outputs, state, j, p, v)
    {
      if state < |states| {
        ArmExecutes(states[state], c.arms[state], outputs, j, p, v);
      } else {
        DefaultArmExecutes(outputs, outputs[j].ref, p);
      }
    }
  }

  lemma StatesFit(states: nat)
    requires 1 <= states
    ensures states <= Pow2(StateRegisterWidth(states))
  {
    FitsExactly(states - 1, MinBitCountUnsigned(states - 1));
  }

  /** No state assigns an output more than once on a path. */
  ghost predicate NeverTwice(states: seq<Block>, outputs: seq<Output>) {
    forall s, j | 0 <= s < |states| && 0 <= j < |outputs| :: !AssignedTwice(states[s], outputs[j].ref)
  }

  /** State `s` is the first in which an output is refused, and output `j` the first refused there. */
  ghost predicate FirstRefused(states: seq<Block>, outputs: seq<Output>, s: nat, j: nat) {
    && s < |states| && FirstTwice(states[s], outputs, j)
    && forall i, k | 0 <= i < s && 0 <= k < |outputs| :: Most(states[i], outputs[k].ref) <= 1
  }

  /** The output logic. */
  method BuildOutputLogic(states: seq<Block>, outputs: seq<Output>) returns (r: Result<Case>)
    requires 1 <= |states|
    ensures r.Ok? <==>
              forall s, j | 0 <= s < |states| && 0 <= j < |outputs| :: Most(states[s], outputs[j].ref) <= 1
    ensures r.Ok? ==> NeverTwice(states, outputs)
    ensures (forall s | 0 <= s < |states| :: AskedOnce(states[s])) ==> (r.Ok? <==> NeverTwice(states, outputs))
    ensures r.Err? ==> exists s: nat, j: nat ::
                         FirstRefused(states, outputs, s, j) && r.error == AssignedMoreThanOnce(outputs[j].ref)
    ensures r.Ok? ==> OutputsCorrect(r.value, states, outputs)
    ensures r.Ok? ==> |r.value.arms| == |states| && forall i | 0 <= i < |states| :: ArmOk(states[i], r.value.arms[i], outputs)
    ensures r.Ok? ==> (r.value.defaultArm.Some? <==> |states| < Pow2(StateRegisterWidth(|states|)))
    ensures r.Ok? ==> forall j | 0 <= j < |outputs| ::
                        AlwaysOnce(r.value, |states|, outputs[j].ref)
                        <==> Sole(outputs, j) || |states| == Pow2(StateRegisterWidth(|states|))
  {
    hide Most, Assigned, OrDefault, Executed, Processed, AssignedTwice, AskedOnce, OutputsCorrect, AlwaysOnce, Sole, Pow2;
    var arms := [];
    for s := 0 to |states|
      invariant |arms| == s
      invariant forall i | 0 <= i < s :: ArmOk(states[i], arms[i], outputs)
      invariant forall i, j | 0 <= i < s && 0 <= j < |outputs| :: Most(states[i], outputs[j].ref) <= 1
      invariant forall i, j | 0 <= i < s && 0 <= j < |outputs| :: !AssignedTwice(states[i], outputs[j].ref)
    {
      var state := new FsmState(states[s]);
      var processed := state.ProcessOutputs(outputs);
      if !processed.Ok? {
        ghost var j: nat :| FirstTwice(states[s], outputs, j) && processed.error == AssignedMoreThanOnce(outputs[j].ref);
        assert FirstRefused(states, outputs, s, j);
        return Err(processed.error);
      }
      var arm := Emit(state.block);
      assert ArmOk(states[s], arm, outputs);
      arms := arms + [arm];
    }
    var c := Case(arms, if |states| != Pow2(StateRegisterWidth(|states|)) then Some(DefaultArm(outputs)) else None);
    StatesFit(|states|);
    CaseCorrect(c, states, outputs);
    forall j | 0 <= j < |outputs|
      ensures AlwaysOnce(c, |states|, outputs[j].ref)
         <==> Sole(outputs, j) || |states| == Pow2(StateRegisterWidth(|states|))
    {
      OnceUnlessShared(c, states, outputs, j);
    }
    return Ok(c);
  }
}
