/** Small sequence vocabulary shared by the rest of the model. */
module Seqs {

  /** No element occurs twice. */
  ghost predicate Distinct<T>(s: seq<T>) {
    forall i, j :: 0 <= i < j < |s| ==> s[i] != s[j]
  }

  /** The set of elements of a sequence. */
  ghost function Elems<T>(s: seq<T>): set<T> {
    set x | x in s
  }

  function Min(a: nat, b: nat): nat {
    if a <= b then a else b
  }

  /** Position of the first occurrence of `x` in `s`, or `|s|` when `x` does not occur. */
  function IndexOf<T(==)>(s: seq<T>, x: T): (k: nat)
    ensures k <= |s|
    ensures k < |s| <==> x in s
    ensures k < |s| ==> s[k] == x
    ensures forall i :: 0 <= i < k ==> s[i] != x
  {
    if |s| == 0 then 0
    else if s[0] == x then 0
    else 1 + IndexOf(s[1..], x)
  }

  lemma {:induction false} IndexOfDistinct<T>(s: seq<T>, i: int)
    requires Distinct(s)
    requires 0 <= i < |s|
    ensures IndexOf(s, s[i]) == i
  {
  }

  /** Appending an element does not move the first occurrence of anything already present. */
  lemma {:induction false} IndexOfAppend<T>(s: seq<T>, x: T, y: T)
    requires y in s
    ensures IndexOf(s + [x], y) == IndexOf(s, y)
  {
    var k := IndexOf(s, y);
    assert (s + [x])[k] == y;
    var k' := IndexOf(s + [x], y);
    assert forall i :: 0 <= i < k ==> (s + [x])[i] == s[i];
  }

  /** A new last element is found at the end. */
  lemma {:induction false} IndexOfNewLast<T>(s: seq<T>, x: T)
    requires x !in s
    ensures IndexOf(s + [x], x) == |s|
  {
    assert forall i :: 0 <= i < |s| ==> (s + [x])[i] == s[i];
  }

  /** A sequence without repetitions has as many elements as its set. */
  lemma {:induction false} DistinctCard<T>(s: seq<T>)
    requires Distinct(s)
    ensures |Elems(s)| == |s|
  {
    if |s| > 0 {
      var t := s[..|s| - 1];
      assert Distinct(t);
      DistinctCard(t);
      assert Elems(s) == Elems(t) + {s[|s| - 1]};
      assert s[|s| - 1] !in Elems(t);
    }
  }
}
