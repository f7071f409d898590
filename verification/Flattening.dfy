/** Flattening and unflattening of values and of Verilog arrays, as in xls/codegen/flattening.cc. */
module Flattening {
  import opened Collections
  import opened IrValues
  import opened Options
  import opened Verilog
  import opened Words

  // ---------------------------------------------------------------------------
  // Values
  // ---------------------------------------------------------------------------

  datatype Error = WrongWidth | EmptyArray

  datatype Result<+T> = Ok(value: T) | Err(error: Error)

  /** Concatenation: the first leaf is the most significant. */
  function ConcatBits(leaves: seq<Bits>): Bits {
    if leaves == [] then [] else ConcatBits(leaves[1..]) + leaves[0]
  }

  lemma {:induction false} ConcatBitsPush(leaves: seq<Bits>, bits: Bits)
    ensures ConcatBits(leaves + [bits]) == bits + ConcatBits(leaves)
  {
    if leaves == [] {
      assert leaves + [bits] == [bits];
      assert ConcatBits([bits]) == bits;
    } else {
      ConcatBitsPush(leaves[1..], bits);
      assert (leaves + [bits])[1..] == leaves[1..] + [bits];
    }
  }

  /** Pushes the leaves of a value, most significant first. */
  method GatherValueLeaves(value: Value, leaves: seq<Bits>) returns (all: seq<Bits>)
    ensures ConcatBits(all) == Flat(value) + ConcatBits(leaves)
    decreases value
  {
    hide ConcatBits;
    match value
    case BitsValue(bits) =>
      all := leaves + [bits];
      ConcatBitsPush(leaves, bits);
    case TupleValue(members) =>
      all := leaves;
      for i := 0 to |members|
        invariant ConcatBits(all) == FlatMembers(members[..i]) + ConcatBits(leaves)
      {
        all := GatherValueLeaves(members[i], all);
        NextMember(members, i);
      }
      assert members[..|members|] == members;
    case ArrayValue(elements) =>
      all := leaves;
      for i := |elements| downto 0
        invariant ConcatBits(all) == FlatElements(elements[i..]) + ConcatBits(leaves)
      {
        all := GatherValueLeaves(elements[i], all);
        NextElement(elements, i);
      }
      assert elements[0..] == elements;
  }

  lemma NextMember(members: seq<Value>, i: nat)
    requires i < |members|
    ensures FlatMembers(members[..i + 1]) == Flat(members[i]) + FlatMembers(members[..i])
  {
    FlatMembersAppend(members[..i], [members[i]]);
    assert members[..i + 1] == members[..i] + [members[i]];
    assert FlatMembers([members[i]]) == Flat(members[i]);
  }

  lemma NextElement(elements: seq<Value>, i: nat)
    requires i < |elements|
    ensures FlatElements(elements[i..]) == Flat(elements[i]) + FlatElements(elements[i + 1..])
  {
    assert elements[i..][1..] == elements[i + 1..];
  }

  /** The bits of a value, in the layout. */
  method FlattenValueToBits(value: Value) returns (bits: Bits)
    ensures bits == Flat(value)
    ensures forall t | HasType(value, t) :: |bits| == FlatBitCount(t)
  {
    var leaves := GatherValueLeaves(value, []);
    bits := ConcatBits(leaves);
    forall t | HasType(value, t)
      ensures |bits| == FlatBitCount(t)
    {
      FlatLength(value, t);
    }
  }

  /** Where a member of a flattened tuple starts: after all the members that follow it. */
  method MemberStart(members: seq<Type>, index: nat) returns (start: nat)
    requires index < |members|
    ensures start == FlatBitCounts(members[index + 1..])
  {
    start := 0;
    var i := |members| - 1;
    assert members[|members|..] == [];
    while i > index
      invariant index <= i < |members|
      invariant start == FlatBitCounts(members[i + 1..])
    {
      start := start + FlatBitCount(members[i]);
      assert members[i..][1..] == members[i + 1..];
      i := i - 1;
    }
  }

  function ElementStart(t: Type, index: nat): nat
    requires t.ArrayType? && index < t.size
  {
    index * FlatBitCount(t.element)
  }

  /** Unflattening undoes flattening, in both orders; it fails exactly when the width is wrong or the type has an
      empty array in it. */
  method UnflattenBitsToValue(bits: Bits, t: Type) returns (r: Result<Value>)
    ensures r.Ok? <==> |bits| == FlatBitCount(t) && NoEmptyArrays(t)
    ensures r.Err? ==> (r.error.WrongWidth? <==> |bits| != FlatBitCount(t))
    ensures r.Ok? ==> HasType(r.value, t) && Flat(r.value) == bits
    ensures r.Ok? ==> forall v | HasType(v, t) && Flat(v) == bits :: v == r.value
    decreases t, 1
  {
    if |bits| != FlatBitCount(t) {
      return Err(WrongWidth);
    }
    if t.BitsType? {
      r := Ok(BitsValue(bits));
    } else if t.TupleType? {
      r := UnflattenTuple(bits, t);
    } else {
      r := UnflattenArrayValue(bits, t);
    }
    if r.Ok? {
      forall v | HasType(v, t) && Flat(v) == bits
        ensures v == r.value
      {
        FlatInjective(v, r.value, t);
      }
    }
  }

  method UnflattenTuple(bits: Bits, t: Type) returns (r: Result<Value>)
    requires t.TupleType? && |bits| == FlatBitCount(t)
    ensures r.Ok? <==> NoEmptyArrays(t)
    ensures r.Err? ==> r.error.EmptyArray?
    ensures r.Ok? ==> HasType(r.value, t) && Flat(r.value) == bits
    decreases t, 0
  {
    hide HasType, NoEmptyArrays, Flat, FlatBitCount, FlatMembers;
    var members: seq<Value> := [];
    TupleBitCount(t);
    TupleStarts(t, bits);
    for i := 0 to |t.members|
      invariant |members| == i && (forall k | 0 <= k < i :: HasType(members[k], t.members[k]))
      invariant forall k | 0 <= k < i :: NoEmptyArrays(t.members[k])
      invariant FlatBitCounts(t.members[i..]) <= |bits| && FlatMembers(members) == bits[FlatBitCounts(t.members[i..])..]
    {
      var start := MemberStart(t.members, i);
      NextMemberStart(t.members, i);
      var width := FlatBitCount(t.members[i]);
      var member := UnflattenBitsToValue(bits[start..start + width], t.members[i]);
      if member.Err? {
        MemberHasEmpty(t, i);
        return Err(member.error);
      }
      PushMember(members, member.value, bits, start, width);
      members := members + [member.value];
    }
    r := Ok(TupleValue(members));
    TupleDone(t, members, bits);
  }

  lemma TupleBitCount(t: Type)
    requires t.TupleType?
    ensures FlatBitCount(t) == FlatBitCounts(t.members)
  {
  }

  lemma TupleStarts(t: Type, bits: Bits)
    requires t.TupleType? && |bits| == FlatBitCounts(t.members)
    ensures t.members[0..] == t.members && FlatMembers([]) == bits[FlatBitCounts(t.members)..]
  {
  }

  lemma NextMemberStart(members: seq<Type>, i: nat)
    requires i < |members|
    ensures FlatBitCounts(members[i..]) == FlatBitCount(members[i]) + FlatBitCounts(members[i + 1..])
  {
    assert members[i..][1..] == members[i + 1..];
  }

  lemma MemberHasEmpty(t: Type, i: nat)
    requires t.TupleType? && i < |t.members| && !NoEmptyArrays(t.members[i])
    ensures !NoEmptyArrays(t)
  {
  }

  lemma PushMember(members: seq<Value>, member: Value, bits: Bits, start: nat, width: nat)
    requires start + width <= |bits| && FlatMembers(members) == bits[start + width..]
    requires Flat(member) == bits[start..start + width]
    ensures FlatMembers(members + [member]) == bits[start..]
  {
    FlatMembersAppend(members, [member]);
    assert FlatMembers([member]) == Flat(member);
    assert bits[start..] == bits[start..start + width] + bits[start + width..];
  }

  lemma TupleDone(t: Type, members: seq<Value>, bits: Bits)
    requires t.TupleType? && |members| == |t.members|
    requires forall k | 0 <= k < |members| :: HasType(members[k], t.members[k]) && NoEmptyArrays(t.members[k])
    requires FlatBitCounts(t.members[|t.members|..]) <= |bits|
    requires FlatMembers(members) == bits[FlatBitCounts(t.members[|t.members|..])..]
    ensures HasType(TupleValue(members), t) && Flat(TupleValue(members)) == bits && NoEmptyArrays(t)
  {
    HaveTypesEach(members, t.members);
    assert t.members[|t.members|..] == [];
  }

  method UnflattenArrayValue(bits: Bits, t: Type) returns (r: Result<Value>)
    requires t.ArrayType? && |bits| == FlatBitCount(t)
    ensures r.Ok? <==> NoEmptyArrays(t)
    ensures r.Err? ==> r.error.EmptyArray?
    ensures r.Ok? ==> HasType(r.value, t) && Flat(r.value) == bits
    decreases t, 0
  {
    var elements: seq<Value> := [];
    var width := FlatBitCount(t.element);
    hide Flat, FlatBitCount, FlatElements;
    ArrayStarts(t, bits);
    for i := 0 to t.size
      invariant |elements| == i && (forall x | x in elements :: HasType(x, t.element))
      invariant i > 0 ==> NoEmptyArrays(t.element)
      invariant 0 <= i * width <= |bits| && FlatElements(elements) == bits[..i * width]
    {
      NextElementStart(i, t.size, width);
      var start := ElementStart(t, i);
      var element := UnflattenBitsToValue(bits[start..start + width], t.element);
      if element.Err? {
        return Err(element.error);
      }
      PushElement(elements, element.value, bits, start, width);
      elements := elements + [element.value];
    }
    r := if elements == [] then Err(EmptyArray) else Ok(ArrayValue(elements));
    ArrayDone(t, elements, bits);
  }

  lemma ArrayStarts(t: Type, bits: Bits)
    requires t.ArrayType? && |bits| == FlatBitCount(t)
    ensures |bits| == t.size * FlatBitCount(t.element) && FlatElements([]) == bits[..0]
  {
  }

  lemma NextElementStart(i: nat, size: nat, width: nat)
    requires i < size
    ensures 0 <= i * width && (i + 1) * width == i * width + width && (i + 1) * width <= size * width
  {
    OneMoreTime(i, width);
    MoreTimes(i + 1, size, width);
  }

  lemma OneMoreTime(i: nat, width: nat)
    ensures 0 <= i * width && (i + 1) * width == i * width + width
  {
  }

  lemma MoreTimes(i: nat, n: nat, width: nat)
    requires i <= n
    ensures i * width <= n * width
  {
    assert n * width == i * width + (n - i) * width;
  }

  lemma PushElement(elements: seq<Value>, element: Value, bits: Bits, start: nat, width: nat)
    requires start + width <= |bits| && FlatElements(elements) == bits[..start]
    requires Flat(element) == bits[start..start + width]
    ensures FlatElements(elements + [element]) == bits[..start + width]
  {
    FlatElementsAppend(elements, [element]);
    assert FlatElements([element]) == Flat(element);
    assert bits[..start + width] == bits[..start] + bits[start..start + width];
  }

  lemma ArrayDone(t: Type, elements: seq<Value>, bits: Bits)
    requires t.ArrayType? && |elements| == t.size
    requires |bits| == t.size * FlatBitCount(t.element) && FlatElements(elements) == bits[..t.size * FlatBitCount(t.element)]
    ensures Flat(ArrayValue(elements)) == bits
  {
  }

  // ---------------------------------------------------------------------------
  // Verilog arrays
  // ---------------------------------------------------------------------------

  /** How Verilog holds a value: arrays are unpacked and everything else is one vector. */
  function Represented(v: Value): Data {
    match v
    case BitsValue(bits) => Vec(bits)
    case TupleValue(_) => Vec(Flat(v))
    case ArrayValue(elements) => Unpacked(RepresentedAll(elements))
  }

  function RepresentedAll(vs: seq<Value>): (all: seq<Data>)
    ensures |all| == |vs|
  {
    seq(|vs|, i requires 0 <= i < |vs| => Represented(vs[i]))
  }

  /** Exactly the types of positive width have variables: no array is empty and no vector has width 0. */
  lemma PositiveWidthArray(t: Type)
    requires t.ArrayType?
    ensures FlatBitCount(t) > 0 <==> t.size > 0 && FlatBitCount(t.element) > 0
  {
    var w := FlatBitCount(t.element);
    if t.size > 0 && w > 0 {
      assert t.size * w >= w by {
        assert (t.size - 1) * w >= 0;
      }
    } else {
      assert t.size * w == 0;
    }
  }

  /** Whenever `input` holds a value of type `t`, `e` denotes its bits. */
  ghost predicate FlattensTo(input: Expr, e: Expr, t: Type) {
    forall env: Env, v | HasType(v, t) && Eval(input, env) == Some(Represented(v)) :: Eval(e, env) == Some(Vec(Flat(v)))
  }

  /** ... `elements` denote, joined, the bits of its elements from `i` on. */
  ghost predicate FlattensTail(input: Expr, elements: seq<Expr>, t: Type, i: nat)
    requires t.ArrayType? && i <= t.size
  {
    forall env: Env, v | HasType(v, t) && Eval(input, env) == Some(Represented(v)) ::
      JoinsTo(elements, env, FlatElements(v.elements[i..]))
  }

  ghost predicate JoinsTo(elements: seq<Expr>, env: Env, bits: Bits) {
    var parts := EvalAll(elements, env);
    parts.Some? && AllVectors(parts.value) && Joined(parts.value) == bits
  }

  lemma JoinsMore(elements: seq<Expr>, env: Env, bits: Bits, e: Expr, more: Bits)
    requires JoinsTo(elements, env, bits) && Eval(e, env) == Some(Vec(more))
    ensures JoinsTo(elements + [e], env, more + bits)
  {
    EvalAllAppends(elements, [e], env);
    EvalOne(e, env);
    JoinedAppends(EvalAll(elements, env).value, [Vec(more)]);
  }

  lemma ConcatOf(elements: seq<Expr>, env: Env, bits: Bits)
    requires JoinsTo(elements, env, bits) && elements != []
    ensures Eval(Concat(elements), env) == Some(Vec(bits))
  {
  }

  /** Neither the array nor an array that is its element is empty. */
  predicate HasElements(t: Type) {
    t.ArrayType? ==> t.size > 0 && HasElements(t.element)
  }

  lemma {:induction false} WideHasElements(t: Type)
    requires FlatBitCount(t) > 0
    ensures HasElements(t)
  {
    if t.ArrayType? {
      PositiveWidthArray(t);
      WideHasElements(t.element);
    }
  }

  ghost predicate AllDenoteNothing(elements: seq<Expr>) {
    forall env: Env :: EvalAll(elements, env) == None
  }

  lemma NothingMore(elements: seq<Expr>, e: Expr)
    requires DenotesNothing(e)
    ensures AllDenoteNothing(elements + [e])
  {
    forall env: Env
      ensures EvalAll(elements + [e], env) == None
    {
      EvalAllFails(elements, e, env);
    }
  }

  lemma NothingMade(elements: seq<Expr>)
    requires elements == [] || AllDenoteNothing(elements)
    ensures DenotesNothing(Concat(elements)) && DenotesNothing(Pattern(elements))
  {
  }

  /** The vector of an unpacked array; Verilog has no expression for an array without elements. */
  method FlattenArray(input: Expr, t: Type) returns (e: Expr)
    requires t.ArrayType?
    ensures HasElements(t) ==> FlattensTo(input, e, t)
    ensures !HasElements(t) ==> DenotesNothing(e)
    decreases t
  {
    hide FlattensTo, FlattensTail, DenotesNothing, AllDenoteNothing;
    var elements: seq<Expr> := [];
    NothingFlattened(input, t);
    for i := t.size downto 0
      invariant |elements| == t.size - i
      invariant HasElements(t.element) ==> FlattensTail(input, elements, t, i)
      invariant !HasElements(t.element) && i < t.size ==> AllDenoteNothing(elements)
    {
      var element := IndexAt(input, i);
      if t.element.ArrayType? {
        element := FlattenArray(element, t.element);
      } else {
        VectorIsFlat(element, t.element);
      }
      if HasElements(t.element) {
        FlattenNext(input, elements, t, i, element);
      } else {
        NothingMore(elements, element);
      }
      elements := elements + [element];
    }
    e := Concat(elements);
    if HasElements(t) {
      AllFlattened(input, elements, t);
    } else {
      NothingMade(elements);
    }
  }

  lemma NothingFlattened(input: Expr, t: Type)
    requires t.ArrayType?
    ensures FlattensTail(input, [], t, t.size)
  {
  }

  lemma VectorIsFlat(e: Expr, t: Type)
    requires !t.ArrayType?
    ensures FlattensTo(e, e, t)
  {
  }

  lemma ElementOf(input: Expr, env: Env, v: Value, t: Type, i: nat)
    requires t.ArrayType? && i < t.size && HasType(v, t) && Eval(input, env) == Some(Represented(v))
    ensures HasType(v.elements[i], t.element) && Eval(IndexAt(input, i), env) == Some(Represented(v.elements[i]))
  {
  }

  lemma FlattenNext(input: Expr, elements: seq<Expr>, t: Type, i: nat, element: Expr)
    requires t.ArrayType? && i < t.size
    requires FlattensTail(input, elements, t, i + 1) && FlattensTo(IndexAt(input, i), element, t.element)
    ensures FlattensTail(input, elements + [element], t, i)
  {
    forall env: Env, v | HasType(v, t) && Eval(input, env) == Some(Represented(v))
      ensures JoinsTo(elements + [element], env, FlatElements(v.elements[i..]))
    {
      ElementOf(input, env, v, t, i);
      hide Eval, Represented, HasType;
      assert HasType(v.elements[i], t.element);
      NextElement(v.elements, i);
      JoinsMore(elements, env, FlatElements(v.elements[i + 1..]), element, Flat(v.elements[i]));
    }
  }

  lemma AllFlattened(input: Expr, elements: seq<Expr>, t: Type)
    requires t.ArrayType? && FlattensTail(input, elements, t, 0) && elements != []
    ensures FlattensTo(input, Concat(elements), t)
  {
    forall env: Env, v | HasType(v, t) && Eval(input, env) == Some(Represented(v))
      ensures Eval(Concat(elements), env) == Some(Vec(Flat(v)))
    {
      assert v.elements[0..] == v.elements;
      ConcatOf(elements, env, Flat(v));
    }
  }

  // ---------------------------------------------------------------------------
  // Unflattening a vector
  // ---------------------------------------------------------------------------

  /** `input` is a vector that has the bits of `v` at `offset`. */
  ghost predicate HoldsAt(input: Expr, env: Env, offset: nat, v: Value) {
    var x := Eval(input, env);
    && x.Some? && x.value.Vec? && offset + |Flat(v)| <= |x.value.bits|
    && x.value.bits[offset..offset + |Flat(v)|] == Flat(v)
  }

  /** Whenever `input` holds a value of type `t` at `offset`, `e` denotes that value. */
  ghost predicate UnflattensTo(offset: nat, input: Expr, e: Expr, t: Type) {
    forall env: Env, v | HasType(v, t) && HoldsAt(input, env, offset, v) :: Eval(e, env) == Some(Represented(v))
  }

  ghost predicate UnflattensHead(offset: nat, input: Expr, elements: seq<Expr>, t: Type, i: nat)
    requires t.ArrayType? && i <= t.size
  {
    forall env: Env, v | HasType(v, t) && HoldsAt(input, env, offset, v) ::
      EvalAll(elements, env) == Some(Represented(v).elements[..i])
  }

  /** The array at `offset` of a vector; Verilog has no expression for an array without bits. */
  method UnflattenArrayHelper(offset: nat, input: Expr, t: Type) returns (e: Expr)
    requires t.ArrayType?
    ensures FlatBitCount(t) > 0 ==> UnflattensTo(offset, input, e, t)
    ensures FlatBitCount(t) == 0 ==> DenotesNothing(e)
    decreases t
  {
    hide UnflattensTo, UnflattensHead, FlatBitCount, DenotesNothing, AllDenoteNothing;
    PositiveWidthArray(t);
    var elements: seq<Expr> := [];
    var width := FlatBitCount(t.element);
    NothingUnflattened(offset, input, t);
    for i := 0 to t.size
      invariant |elements| == i && (width > 0 ==> UnflattensHead(offset, input, elements, t, i))
      invariant width == 0 && i > 0 ==> AllDenoteNothing(elements)
    {
      var start := offset + ElementStart(t, i);
      var element;
      if t.element.ArrayType? {
        element := UnflattenArrayHelper(start, input, t.element);
      } else {
        element := Slice(input, start + width - 1, start);
        SliceUnflattens(start, input, t.element);
      }
      if width > 0 {
        UnflattenNext(offset, input, elements, t, i, element);
      } else {
        NothingMore(elements, element);
      }
      elements := elements + [element];
    }
    e := Pattern(elements);
    if FlatBitCount(t) > 0 {
      AllUnflattened(offset, input, elements, t);
    } else {
      NothingMade(elements);
    }
  }

  lemma NothingUnflattened(offset: nat, input: Expr, t: Type)
    requires t.ArrayType?
    ensures UnflattensHead(offset, input, [], t, 0)
  {
  }

  lemma SliceUnflattens(start: nat, input: Expr, t: Type)
    requires !t.ArrayType?
    ensures FlatBitCount(t) > 0 ==> UnflattensTo(start, input, Slice(input, start + FlatBitCount(t) - 1, start), t)
    ensures FlatBitCount(t) == 0 ==> DenotesNothing(Slice(input, start + FlatBitCount(t) - 1, start))
  {
    forall env: Env, v | FlatBitCount(t) > 0 && HasType(v, t) && HoldsAt(input, env, start, v)
      ensures Eval(Slice(input, start + FlatBitCount(t) - 1, start), env) == Some(Represented(v))
    {
      FlatLength(v, t);
    }
  }

  lemma {:induction false} ElementBits(elements: seq<Value>, i: nat, w: nat)
    requires i < |elements| && forall x | x in elements :: |Flat(x)| == w
    ensures 0 <= i * w && i * w + w <= |FlatElements(elements)|
    ensures FlatElements(elements)[i * w..i * w + w] == Flat(elements[i])
  {
    hide Flat;
    var before, after := elements[..i], elements[i + 1..];
    FlatElementsLength(before, w);
    FlatElementsAppend(before, elements[i..]);
    NextElement(elements, i);
    assert elements == before + elements[i..];
    Middle(FlatElements(before), Flat(elements[i]), FlatElements(after));
  }

  lemma Middle(a: Bits, b: Bits, c: Bits)
    ensures (a + (b + c))[|a|..|a| + |b|] == b
  {
  }

  lemma InnerSlice(bits: Bits, offset: nat, size: nat, start: nat, w: nat)
    requires offset + size <= |bits| && start + w <= size
    ensures bits[offset..offset + size][start..start + w] == bits[offset + start..offset + start + w]
  {
    var outer, inner := bits[offset..offset + size], bits[offset + start..offset + start + w];
    assert forall k | 0 <= k < w :: outer[start..start + w][k] == outer[start + k] == bits[offset + start + k] == inner[k];
  }

  lemma ElementHeld(offset: nat, input: Expr, env: Env, v: Value, t: Type, i: nat)
    requires t.ArrayType? && i < t.size && HasType(v, t) && HoldsAt(input, env, offset, v)
    ensures HasType(v.elements[i], t.element) && HoldsAt(input, env, offset + ElementStart(t, i), v.elements[i])
  {
    hide FlatElements, FlatBitCount, Flat, Eval, HasType, ElementStart;
    ElementSlice(v, t, i);
    InnerSlice(Eval(input, env).value.bits, offset, |Flat(v)|, ElementStart(t, i), |Flat(v.elements[i])|);
  }

  /** Where an element is within the bits of its array. */
  lemma ElementSlice(v: Value, t: Type, i: nat)
    requires t.ArrayType? && i < t.size && HasType(v, t)
    ensures v.ArrayValue? && i < |v.elements| && HasType(v.elements[i], t.element)
    ensures var start, element := ElementStart(t, i), Flat(v.elements[i]);
      start + |element| <= |Flat(v)| && Flat(v)[start..start + |element|] == element
  {
    forall x | x in v.elements
      ensures |Flat(x)| == FlatBitCount(t.element)
    {
      FlatLength(x, t.element);
    }
    assert v.elements[i] in v.elements;
    ElementBits(v.elements, i, FlatBitCount(t.element));
  }

  lemma UnflattenNext(offset: nat, input: Expr, elements: seq<Expr>, t: Type, i: nat, element: Expr)
    requires t.ArrayType? && i < t.size && UnflattensHead(offset, input, elements, t, i)
    requires UnflattensTo(offset + ElementStart(t, i), input, element, t.element)
    ensures UnflattensHead(offset, input, elements + [element], t, i + 1)
  {
    forall env: Env, v | HasType(v, t) && HoldsAt(input, env, offset, v)
      ensures EvalAll(elements + [element], env) == Some(Represented(v).elements[..i + 1])
    {
      ElementHeld(offset, input, env, v, t, i);
      RepresentedElement(v, t, i);
      hide HasType, HoldsAt, Represented, Eval;
      assert Eval(element, env) == Some(Represented(v.elements[i]));
      EvalOne(element, env);
      EvalAllAppends(elements, [element], env);
    }
  }

  lemma RepresentedElement(v: Value, t: Type, i: nat)
    requires t.ArrayType? && i < t.size && HasType(v, t)
    ensures Represented(v).Unpacked?
    ensures var all := Represented(v).elements;
      |all| == t.size && all[i] == Represented(v.elements[i]) && all[..i + 1] == all[..i] + [all[i]]
  {
    var all := Represented(v).elements;
    assert all[..i + 1] == all[..i] + [all[i]];
  }

  lemma AllUnflattened(offset: nat, input: Expr, elements: seq<Expr>, t: Type)
    requires t.ArrayType? && t.size > 0 && |elements| == t.size && UnflattensHead(offset, input, elements, t, t.size)
    ensures UnflattensTo(offset, input, Pattern(elements), t)
  {
    forall env: Env, v | HasType(v, t) && HoldsAt(input, env, offset, v)
      ensures Eval(Pattern(elements), env) == Some(Represented(v))
    {
      assert Represented(v).elements[..t.size] == Represented(v).elements;
    }
  }

  /** The inverse of `FlattenArray`. */
  method UnflattenArray(input: Expr, t: Type) returns (e: Expr)
    requires t.ArrayType?
    ensures FlatBitCount(t) > 0 ==>
              forall env: Env, v | HasType(v, t) && Eval(input, env) == Some(Vec(Flat(v))) ::
                Eval(e, env) == Some(Represented(v))
    ensures FlatBitCount(t) == 0 ==> DenotesNothing(e)
  {
    hide FlatBitCount, DenotesNothing;
    e := UnflattenArrayHelper(0, input, t);
    forall env: Env, v | FlatBitCount(t) > 0 && HasType(v, t) && Eval(input, env) == Some(Vec(Flat(v)))
      ensures Eval(e, env) == Some(Represented(v))
    {
      assert HoldsAt(input, env, 0, v);
    }
  }

  /** The array at `index` of a flattened tuple. */
  method UnflattenArrayShapedTupleElement(input: Expr, t: Type, index: nat) returns (e: Expr)
    requires t.TupleType? && index < |t.members| && t.members[index].ArrayType?
    ensures FlatBitCount(t.members[index]) > 0 ==>
              forall env: Env, v | HasType(v, t) && Eval(input, env) == Some(Vec(Flat(v))) ::
                index < |v.members| && Eval(e, env) == Some(Represented(v.members[index]))
    ensures FlatBitCount(t.members[index]) == 0 ==> DenotesNothing(e)
  {
    hide DenotesNothing;
    var offset := MemberStart(t.members, index);
    e := UnflattenArrayHelper(offset, input, t.members[index]);
    forall env: Env, v | FlatBitCount(t.members[index]) > 0 && HasType(v, t) && Eval(input, env) == Some(Vec(Flat(v)))
      ensures index < |v.members| && Eval(e, env) == Some(Represented(v.members[index]))
    {
      HaveTypesEach(v.members, t.members);
      MemberBits(v.members, t.members, index);
      assert HoldsAt(input, env, offset, v.members[index]);
    }
  }

  lemma MemberBits(vs: seq<Value>, ts: seq<Type>, i: nat)
    requires HaveTypes(vs, ts) && i < |vs|
    ensures var start := FlatBitCounts(ts[i + 1..]);
      && start + |Flat(vs[i])| <= |FlatMembers(vs)|
      && FlatMembers(vs)[start..start + |Flat(vs[i])|] == Flat(vs[i])
  {
    HaveTypesEach(vs, ts);
    HaveTypesEach(vs[i + 1..], ts[i + 1..]);
    FlatMembersLength(vs[i + 1..], ts[i + 1..]);
    FlatMembersAppend(vs[..i], vs[i..]);
    assert vs == vs[..i] + vs[i..] && vs[i..][1..] == vs[i + 1..];
    hide FlatMembers, HasType;
    assert FlatMembers(vs[i..]) == FlatMembers(vs[i + 1..]) + Flat(vs[i]) by {
      FlatMembersFirst(vs[i..]);
    }
    Associates(FlatMembers(vs[i + 1..]), Flat(vs[i]), FlatMembers(vs[..i]));
    Middle(FlatMembers(vs[i + 1..]), Flat(vs[i]), FlatMembers(vs[..i]));
  }

  lemma FlatMembersFirst(vs: seq<Value>)
    requires vs != []
    ensures FlatMembers(vs) == FlatMembers(vs[1..]) + Flat(vs[0])
  {
  }

  // ---------------------------------------------------------------------------
  // Flattening tuples
  // ---------------------------------------------------------------------------

  /** The members that have bits; the others have no Verilog expression. */
  ghost function Nontrivial(ts: seq<Type>): seq<Type> {
    if ts == [] then [] else (if FlatBitCount(ts[0]) != 0 then [ts[0]] else []) + Nontrivial(ts[1..])
  }

  ghost function NontrivialValues(vs: seq<Value>, ts: seq<Type>): seq<Value> {
    if vs == [] || ts == [] then [] else (if FlatBitCount(ts[0]) != 0 then [vs[0]] else []) + NontrivialValues(vs[1..], ts[1..])
  }

  lemma {:induction false} NontrivialAppend(ts: seq<Type>, us: seq<Type>)
    ensures Nontrivial(ts + us) == Nontrivial(ts) + Nontrivial(us)
  {
    hide FlatBitCount;
    if ts == [] {
      assert ts + us == us;
    } else {
      NontrivialAppend(ts[1..], us);
      assert (ts + us)[1..] == ts[1..] + us;
      Associates(if FlatBitCount(ts[0]) != 0 then [ts[0]] else [], Nontrivial(ts[1..]), Nontrivial(us));
    }
  }

  /** Dropping members without bits loses no bits. */
  lemma {:induction false} NontrivialKeepsBits(vs: seq<Value>, ts: seq<Type>)
    requires HaveTypes(vs, ts)
    ensures HaveTypes(NontrivialValues(vs, ts), Nontrivial(ts))
    ensures FlatMembers(NontrivialValues(vs, ts)) == FlatMembers(vs)
  {
    if vs != [] {
      NontrivialKeepsBits(vs[1..], ts[1..]);
      FlatLength(vs[0], ts[0]);
      var values, types := NontrivialValues(vs[1..], ts[1..]), Nontrivial(ts[1..]);
      hide FlatBitCount, HasType, Flat;
      if FlatBitCount(ts[0]) != 0 {
        assert ([vs[0]] + values)[1..] == values && ([ts[0]] + types)[1..] == types;
      } else {
        assert [] + values == values && [] + types == types;
      }
    }
  }

  /** The inputs hold the values, in order. */
  ghost predicate Supplies(inputs: seq<Expr>, env: Env, vs: seq<Value>) {
    |inputs| == |vs| && forall k | 0 <= k < |vs| :: Eval(inputs[k], env) == Some(Represented(vs[k]))
  }

  ghost predicate FlattensHead(inputs: seq<Expr>, elements: seq<Expr>, ts: seq<Type>, i: nat)
    requires i <= |ts|
  {
    forall env: Env, vs | HaveTypes(vs, ts) && Supplies(inputs, env, vs) :: JoinsTo(elements, env, FlatMembers(vs[..i]))
  }

  /** The vector of a tuple, from expressions for the members that have bits. */
  method FlattenTuple(inputs: seq<Expr>, t: Type) returns (r: Option<Expr>)
    requires t.TupleType?
    ensures r.Some? <==> |inputs| == |Nontrivial(t.members)|
    ensures r.Some? ==>
              forall env: Env, v
                | HasType(v, t) && FlatBitCount(t) > 0 && Supplies(inputs, env, NontrivialValues(v.members, t.members)) ::
                Eval(r.value, env) == Some(Vec(Flat(v)))
  {
    hide Nontrivial, FlattensHead, HaveTypes, FlattensTo, FlatBitCounts, Supplies, NontrivialValues;
    var types := NontrivialTypes(t.members);
    if |types| != |inputs| {
      return None;
    }
    var elements: seq<Expr> := [];
    NoInputs(inputs, types);
    for i := 0 to |inputs|
      invariant |elements| == i && FlattensHead(inputs, elements, types, i)
    {
      var element := inputs[i];
      if types[i].ArrayType? {
        element := FlattenArray(element, types[i]);
        WideHasElements(types[i]);
      } else {
        VectorIsFlat(element, types[i]);
      }
      NextInput(inputs, elements, types, i, element);
      elements := elements + [element];
    }
    r := Some(Concat(elements));
    forall env: Env, v
      | HasType(v, t) && FlatBitCount(t) > 0 && Supplies(inputs, env, NontrivialValues(v.members, t.members))
      ensures Eval(r.value, env) == Some(Vec(Flat(v)))
    {
      TupleFlattened(inputs, elements, t, env, v);
    }
  }

  method NontrivialTypes(ts: seq<Type>) returns (types: seq<Type>)
    ensures types == Nontrivial(ts) && forall x | x in types :: FlatBitCount(x) != 0
  {
    types := [];
    for i := 0 to |ts|
      invariant types == Nontrivial(ts[..i]) && forall x | x in types :: FlatBitCount(x) != 0
    {
      NontrivialAppend(ts[..i], [ts[i]]);
      assert ts[..i + 1] == ts[..i] + [ts[i]] && [ts[i]][1..] == [];
      hide FlatBitCount;
      if FlatBitCount(ts[i]) != 0 {
        types := types + [ts[i]];
      }
    }
    assert ts[..|ts|] == ts;
  }

  lemma NoInputs(inputs: seq<Expr>, ts: seq<Type>)
    ensures FlattensHead(inputs, [], ts, 0)
  {
  }

  lemma NextInput(inputs: seq<Expr>, elements: seq<Expr>, ts: seq<Type>, i: nat, element: Expr)
    requires |inputs| == |ts| && i < |ts| && FlattensHead(inputs, elements, ts, i)
    requires FlattensTo(inputs[i], element, ts[i])
    ensures FlattensHead(inputs, elements + [element], ts, i + 1)
  {
    forall env: Env, vs | HaveTypes(vs, ts) && Supplies(inputs, env, vs)
      ensures JoinsTo(elements + [element], env, FlatMembers(vs[..i + 1]))
    {
      HaveTypesEach(vs, ts);
      hide Eval, HasType, HaveTypes, Represented, Flat, FlatMembers, JoinsTo;
      assert HasType(vs[i], ts[i]);
      NextMember(vs, i);
      JoinsMore(elements, env, FlatMembers(vs[..i]), element, Flat(vs[i]));
    }
  }

  lemma TupleFlattened(inputs: seq<Expr>, elements: seq<Expr>, t: Type, env: Env, v: Value)
    requires t.TupleType? && HasType(v, t) && FlatBitCount(t) > 0
    requires Supplies(inputs, env, NontrivialValues(v.members, t.members))
    requires |elements| == |inputs| == |Nontrivial(t.members)|
    requires FlattensHead(inputs, elements, Nontrivial(t.members), |inputs|)
    ensures Eval(Concat(elements), env) == Some(Vec(Flat(v)))
  {
    var vs := NontrivialValues(v.members, t.members);
    NontrivialKeepsBits(v.members, t.members);
    FlatLength(v, t);
    HaveTypesEach(vs, Nontrivial(t.members));
    assert vs[..|vs|] == vs;
    assert Flat(v) == FlatMembers(vs);
    assert elements != [] by {
      assert vs == [] ==> FlatMembers(vs) == [];
    }
    ConcatOf(elements, env, Flat(v));
  }

  // ---------------------------------------------------------------------------
  // Constants
  // ---------------------------------------------------------------------------

  ghost predicate Denotes(e: Expr, x: Data) {
    forall env: Env :: Eval(e, env) == Some(x)
  }

  ghost predicate JoinToConstant(elements: seq<Expr>, bits: Bits) {
    forall env: Env :: JoinsTo(elements, env, bits)
  }

  /** A constant as one vector: it fails exactly for values without bits. */
  method FlattenValueToExpression(value: Value) returns (r: Option<Expr>)
    ensures r.Some? <==> |Flat(value)| > 0
    ensures r.Some? ==> Denotes(r.value, Vec(Flat(value)))
    decreases value
  {
    hide Denotes, JoinToConstant;
    if |Flat(value)| == 0 {
      return None;
    }
    if value.BitsValue? {
      LiteralDenotes(value.bits);
      return Some(Literal(value.bits));
    }
    var ordered := MostSignificantFirst(value);
    hide Flat, FlatMembers;
    var elements: seq<Expr> := [];
    NoConstants(ordered);
    for i := 0 to |ordered|
      invariant JoinToConstant(elements, FlatMembers(ordered[..i]))
      invariant FlatMembers(ordered[..i]) != [] ==> elements != []
    {
      NextMember(ordered, i);
      if |Flat(ordered[i])| > 0 {
        var element := FlattenValueToExpression(ordered[i]);
        ConstantMore(elements, FlatMembers(ordered[..i]), element.value, Flat(ordered[i]));
        elements := elements + [element.value];
      } else {
        assert Flat(ordered[i]) + FlatMembers(ordered[..i]) == FlatMembers(ordered[..i]);
      }
    }
    assert ordered[..|ordered|] == ordered;
    r := Some(Concat(elements));
    ConstantConcat(elements, Flat(value));
  }

  /** The parts of a compound value in the order a concatenation lists them. */
  method MostSignificantFirst(value: Value) returns (ordered: seq<Value>)
    requires !value.BitsValue?
    ensures Flat(value) == FlatMembers(ordered)
    ensures forall i | 0 <= i < |ordered| :: (value decreases to ordered[i])
  {
    if value.TupleValue? {
      return value.members;
    }
    ordered := [];
    for i := |value.elements| downto 0
      invariant FlatMembers(ordered) == FlatElements(value.elements[i..])
      invariant forall k | 0 <= k < |ordered| :: (value decreases to ordered[k])
    {
      FlatMembersAppend(ordered, [value.elements[i]]);
      NextElement(value.elements, i);
      assert FlatMembers([value.elements[i]]) == Flat(value.elements[i]);
      ordered := ordered + [value.elements[i]];
    }
    assert value.elements[0..] == value.elements;
  }

  lemma LiteralDenotes(bits: Bits)
    requires bits != []
    ensures Denotes(Literal(bits), Vec(bits))
  {
  }

  lemma NoConstants(ordered: seq<Value>)
    ensures FlatMembers(ordered[..0]) == [] && JoinToConstant([], FlatMembers(ordered[..0]))
  {
  }

  lemma ConstantMore(elements: seq<Expr>, bits: Bits, e: Expr, more: Bits)
    requires JoinToConstant(elements, bits) && Denotes(e, Vec(more))
    ensures JoinToConstant(elements + [e], more + bits)
  {
    forall env: Env
      ensures JoinsTo(elements + [e], env, more + bits)
    {
      JoinsMore(elements, env, bits, e, more);
    }
  }

  lemma ConstantConcat(elements: seq<Expr>, bits: Bits)
    requires JoinToConstant(elements, bits) && elements != []
    ensures Denotes(Concat(elements), Vec(bits))
  {
    forall env: Env
      ensures Eval(Concat(elements), env) == Some(Vec(bits))
    {
      ConcatOf(elements, env, bits);
    }
  }

  /** A constant array as an assignment pattern. */
  method ValueToArrayAssignmentPattern(value: Value, ghost t: Type) returns (r: Option<Expr>)
    requires value.ArrayValue? && HasType(value, t) && NoEmptyArrays(t)
    ensures r.Some? <==> FlatBitCount(t) > 0
    ensures r.Some? ==> Denotes(r.value, Represented(value))
    decreases value
  {
    hide Denotes, DenoteAll, FlatBitCount, Represented;
    PositiveWidthArray(t);
    var pieces: seq<Expr> := [];
    NoPieces(value);
    for i := 0 to |value.elements|
      invariant |pieces| == i && DenoteAll(pieces, value.elements[..i])
      invariant i > 0 ==> FlatBitCount(t.element) > 0
    {
      var element := value.elements[i];
      FlatLength(element, t.element);
      var piece;
      if element.ArrayValue? {
        piece := ValueToArrayAssignmentPattern(element, t.element);
      } else {
        piece := FlattenValueToExpression(element);
        VectorRepresented(element);
      }
      if piece.None? {
        return None;
      }
      NextPiece(pieces, value.elements, i, piece.value);
      pieces := pieces + [piece.value];
    }
    r := Some(Pattern(pieces));
    PatternDenotes(pieces, value);
  }

  ghost predicate DenoteAll(pieces: seq<Expr>, vs: seq<Value>) {
    forall env: Env :: EvalAll(pieces, env) == Some(RepresentedAll(vs))
  }

  lemma NoPieces(value: Value)
    requires value.ArrayValue?
    ensures DenoteAll([], value.elements[..0])
  {
  }

  lemma VectorRepresented(v: Value)
    requires !v.ArrayValue?
    ensures Represented(v) == Vec(Flat(v))
  {
  }

  lemma NextPiece(pieces: seq<Expr>, vs: seq<Value>, i: nat, piece: Expr)
    requires i < |vs| && DenoteAll(pieces, vs[..i]) && Denotes(piece, Represented(vs[i]))
    ensures DenoteAll(pieces + [piece], vs[..i + 1])
  {
    hide Represented, Eval;
    assert RepresentedAll(vs[..i + 1]) == RepresentedAll(vs[..i]) + [Represented(vs[i])];
    forall env: Env
      ensures EvalAll(pieces + [piece], env) == Some(RepresentedAll(vs[..i + 1]))
    {
      EvalOne(piece, env);
      EvalAllAppends(pieces, [piece], env);
    }
  }

  lemma PatternDenotes(pieces: seq<Expr>, value: Value)
    requires value.ArrayValue? && pieces != [] && DenoteAll(pieces, value.elements[..|value.elements|])
    ensures Denotes(Pattern(pieces), Represented(value))
  {
    assert value.elements[..|value.elements|] == value.elements;
  }
}
