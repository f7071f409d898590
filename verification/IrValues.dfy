/** Types and values of the IR, and their layout as one vector of bits. */
module IrValues {
  import opened Collections
  import opened Words

  datatype Type = BitsType(width: nat) | TupleType(members: seq<Type>) | ArrayType(element: Type, size: nat)

  datatype Value = BitsValue(bits: Bits) | TupleValue(members: seq<Value>) | ArrayValue(elements: seq<Value>)

  function FlatBitCount(t: Type): nat {
    match t
    case BitsType(width) => width
    case TupleType(members) => FlatBitCounts(members)
    case ArrayType(element, size) => size * FlatBitCount(element)
  }

  function FlatBitCounts(ts: seq<Type>): nat {
    if ts == [] then 0 else FlatBitCount(ts[0]) + FlatBitCounts(ts[1..])
  }

  predicate HasType(v: Value, t: Type) {
    match t
    case BitsType(width) => v.BitsValue? && |v.bits| == width
    case TupleType(members) => v.TupleValue? && HaveTypes(v.members, members)
    case ArrayType(element, size) => v.ArrayValue? && |v.elements| == size && forall x | x in v.elements :: HasType(x, element)
  }

  predicate HaveTypes(vs: seq<Value>, ts: seq<Type>) {
    |vs| == |ts| && (vs != [] ==> HasType(vs[0], ts[0]) && HaveTypes(vs[1..], ts[1..]))
  }

  /** There are no values of empty array types. */
  predicate NoEmptyArrays(t: Type) {
    match t
    case BitsType(width) => true
    case TupleType(members) => forall m | m in members :: NoEmptyArrays(m)
    case ArrayType(element, size) => size > 0 && NoEmptyArrays(element)
  }

  /** The layout: member 0 of a tuple is at the top, element 0 of an array at the bottom. */
  function Flat(v: Value): Bits {
    match v
    case BitsValue(bits) => bits
    case TupleValue(members) => FlatMembers(members)
    case ArrayValue(elements) => FlatElements(elements)
  }

  function FlatMembers(vs: seq<Value>): Bits {
    if vs == [] then [] else FlatMembers(vs[1..]) + Flat(vs[0])
  }

  function FlatElements(vs: seq<Value>): Bits {
    if vs == [] then [] else Flat(vs[0]) + FlatElements(vs[1..])
  }

  lemma {:induction false} FlatMembersAppend(vs: seq<Value>, ws: seq<Value>)
    ensures FlatMembers(vs + ws) == FlatMembers(ws) + FlatMembers(vs)
  {
    hide Flat;
    if vs == [] {
      assert vs + ws == ws;
    } else {
      FlatMembersAppend(vs[1..], ws);
      assert (vs + ws)[1..] == vs[1..] + ws;
      Associates(FlatMembers(ws), FlatMembers(vs[1..]), Flat(vs[0]));
    }
  }

  lemma {:induction false} FlatElementsAppend(vs: seq<Value>, ws: seq<Value>)
    ensures FlatElements(vs + ws) == FlatElements(vs) + FlatElements(ws)
  {
    hide Flat;
    if vs == [] {
      assert vs + ws == ws;
    } else {
      FlatElementsAppend(vs[1..], ws);
      assert (vs + ws)[1..] == vs[1..] + ws;
      Associates(Flat(vs[0]), FlatElements(vs[1..]), FlatElements(ws));
    }
  }

  lemma ArrayHasElements(v: Value, t: Type)
    requires t.ArrayType? && HasType(v, t)
    ensures v.ArrayValue? && |v.elements| == t.size
  {
  }

  lemma {:induction false} HaveTypesEach(vs: seq<Value>, ts: seq<Type>)
    ensures HaveTypes(vs, ts) <==> |vs| == |ts| && forall i | 0 <= i < |vs| :: HasType(vs[i], ts[i])
  {
    hide HasType;
    if |vs| == |ts| && vs != [] {
      HaveTypesEach(vs[1..], ts[1..]);
      if forall i | 0 <= i < |vs| - 1 :: HasType(vs[1..][i], ts[1..][i]) {
        if HasType(vs[0], ts[0]) {
          forall i | 0 <= i < |vs|
            ensures HasType(vs[i], ts[i])
          {
            assert i > 0 ==> HasType(vs[1..][i - 1], ts[1..][i - 1]);
          }
        }
      } else {
        var i :| 0 <= i < |vs| - 1 && !HasType(vs[1..][i], ts[1..][i]);
        assert !HasType(vs[i + 1], ts[i + 1]);
      }
    }
  }

  /** A value fills exactly the bits of its type. */
  lemma {:induction false} FlatLength(v: Value, t: Type)
    requires HasType(v, t)
    ensures |Flat(v)| == FlatBitCount(t)
    decreases t
  {
    match t
    case BitsType(width) =>
    case TupleType(members) => FlatMembersLength(v.members, members);
    case ArrayType(element, size) =>
      forall x | x in v.elements
        ensures |Flat(x)| == FlatBitCount(element)
      {
        FlatLength(x, element);
      }
      FlatElementsLength(v.elements, FlatBitCount(element));
  }

  lemma {:induction false} FlatMembersLength(vs: seq<Value>, ts: seq<Type>)
    requires HaveTypes(vs, ts)
    ensures |FlatMembers(vs)| == FlatBitCounts(ts)
    decreases ts
  {
    if vs != [] {
      FlatLength(vs[0], ts[0]);
      FlatMembersLength(vs[1..], ts[1..]);
    }
  }

  lemma {:induction false} FlatElementsLength(vs: seq<Value>, w: nat)
    requires forall x | x in vs :: |Flat(x)| == w
    ensures |FlatElements(vs)| == |vs| * w
  {
    hide Flat;
    if vs != [] {
      FlatElementsLength(vs[1..], w);
      assert |vs| * w == w + (|vs| - 1) * w;
    }
  }

  /** Values of one type with the same bits are the same. */
  lemma {:induction false} FlatInjective(v: Value, w: Value, t: Type)
    requires HasType(v, t) && HasType(w, t) && Flat(v) == Flat(w)
    ensures v == w
    decreases t, 0
  {
    match t
    case BitsType(width) =>
    case TupleType(members) => FlatMembersInjective(v.members, w.members, members);
    case ArrayType(element, size) => FlatElementsInjective(v.elements, w.elements, element);
  }

  lemma {:induction false} FlatMembersInjective(vs: seq<Value>, ws: seq<Value>, ts: seq<Type>)
    requires HaveTypes(vs, ts) && HaveTypes(ws, ts) && FlatMembers(vs) == FlatMembers(ws)
    ensures vs == ws
    decreases ts, 0
  {
    if vs != [] {
      FlatMembersLength(vs[1..], ts[1..]);
      FlatMembersLength(ws[1..], ts[1..]);
      SplitSame(FlatMembers(vs[1..]), Flat(vs[0]), FlatMembers(ws[1..]), Flat(ws[0]));
      FlatInjective(vs[0], ws[0], ts[0]);
      FlatMembersInjective(vs[1..], ws[1..], ts[1..]);
      assert vs == [vs[0]] + vs[1..] && ws == [ws[0]] + ws[1..];
    }
  }

  lemma {:induction false} FlatElementsInjective(vs: seq<Value>, ws: seq<Value>, t: Type)
    requires |vs| == |ws| && FlatElements(vs) == FlatElements(ws)
    requires (forall x | x in vs :: HasType(x, t)) && (forall x | x in ws :: HasType(x, t))
    ensures vs == ws
    decreases t, 1 + |vs|
  {
    if vs != [] {
      FlatLength(vs[0], t);
      FlatLength(ws[0], t);
      SplitSame(Flat(vs[0]), FlatElements(vs[1..]), Flat(ws[0]), FlatElements(ws[1..]));
      FlatInjective(vs[0], ws[0], t);
      FlatElementsInjective(vs[1..], ws[1..], t);
      assert vs == [vs[0]] + vs[1..] && ws == [ws[0]] + ws[1..];
    }
  }

  lemma SplitSame(a: Bits, b: Bits, c: Bits, d: Bits)
    requires a + b == c + d && |a| == |c|
    ensures a == c && b == d
  {
    assert a == (a + b)[..|a|] && c == (c + d)[..|c|];
    assert b == (a + b)[|a|..] && d == (c + d)[|c|..];
  }
}
