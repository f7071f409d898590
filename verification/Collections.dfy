/** Facts about sequences and sets that several modules use. */
module Collections {

  lemma Associates<T>(a: seq<T>, b: seq<T>, c: seq<T>)
    ensures a + b + c == a + (b + c)
  {
  }

  lemma AssociatesFour<T>(a: seq<T>, b: seq<T>, c: seq<T>, d: seq<T>)
    ensures a + b + c + d == a + (b + (c + d))
  {
  }

  lemma SubsetSmaller<T>(a: set<T>, b: set<T>)
    requires a <= b
    ensures |a| <= |b| && (|a| == |b| ==> a == b)
  {
    assert b == a + (b - a);
    assert |b - a| == 0 ==> b - a == {};
  }

  /** The union of a sequence of sets. */
  ghost function Union<T>(sets: seq<set<T>>): set<T> {
    if sets == [] then {} else Union(sets[..|sets| - 1]) + sets[|sets| - 1]
  }
}
