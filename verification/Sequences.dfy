/** Facts about lists that the parser, the layer-2 merge and the thread pool share. */
module Sequences {

  ghost predicate NoDuplicates<T>(s: seq<T>) {
    forall i, j :: 0 <= i < j < |s| ==> s[i] != s[j]
  }

  /** Appends `x` unless the list already holds it. */
  function PushUnique<T(==)>(s: seq<T>, x: T): seq<T> {
    if x in s then s else s + [x]
  }

  /** The list with every repetition after the first occurrence removed. */
  function Distinct<T(==)>(s: seq<T>): seq<T> {
    if s == [] then [] else PushUnique(Distinct(s[..|s| - 1]), s[|s| - 1])
  }

  /** `s` followed by the elements of `t` that it does not hold yet, each once. */
  function Union<T(==)>(s: seq<T>, t: seq<T>): seq<T> {
    if t == [] then s else PushUnique(Union(s, t[..|t| - 1]), t[|t| - 1])
  }

  lemma {:induction false} DistinctElements<T>(s: seq<T>)
    ensures NoDuplicates(Distinct(s))
    ensures forall x :: x in Distinct(s) ==> x in s
    ensures forall x :: x in s ==> x in Distinct(s)
  {
    if s != [] {
      DistinctElements(s[..|s| - 1]);
      assert s == s[..|s| - 1] + [s[|s| - 1]];
    }
  }

  lemma DistinctSnoc<T>(s: seq<T>, x: T)
    ensures Distinct(s + [x]) == PushUnique(Distinct(s), x)
  {
    assert (s + [x])[..|s|] == s;
  }

  lemma {:induction false} UnionElements<T>(s: seq<T>, t: seq<T>)
    ensures forall x :: x in Union(s, t) <==> x in s || x in t
  {
    if t != [] {
      UnionElements(s, t[..|t| - 1]);
      assert t == t[..|t| - 1] + [t[|t| - 1]];
    }
  }

  lemma UnionPush<T>(s: seq<T>, t: seq<T>, x: T)
    ensures PushUnique(Union(s, t), x) == Union(s, PushUnique(t, x))
  {
    UnionElements(s, t);
    if x !in t {
      assert (t + [x])[..|t|] == t;
    }
  }

  /** The position at which `x` first occurs. */
  function FirstIndex<T(==)>(s: seq<T>, x: T): (i: nat)
    requires x in s
    ensures i < |s| && s[i] == x && x !in s[..i]
  {
    if s[0] == x then 0 else 1 + FirstIndex(s[1..], x)
  }

  lemma {:induction false} FirstIndexPrefix<T>(s: seq<T>, x: T, y: T)
    requires x in s
    ensures x in s + [y] && FirstIndex(s + [y], x) == FirstIndex(s, x)
  {
    assert (s + [y])[0] == s[0];
    if s[0] != x {
      assert (s + [y])[1..] == s[1..] + [y];
      FirstIndexPrefix(s[1..], x, y);
    }
  }

  /** The surviving elements keep the order in which they were first seen. */
  lemma {:induction false} DistinctKeepsFirstSeenOrder<T>(s: seq<T>, i: nat, j: nat)
    requires i < j < |Distinct(s)|
    ensures Distinct(s)[i] in s && Distinct(s)[j] in s
    ensures FirstIndex(s, Distinct(s)[i]) < FirstIndex(s, Distinct(s)[j])
  {
    DistinctElements(s);
    var front, y := s[..|s| - 1], s[|s| - 1];
    assert s == front + [y];
    DistinctElements(front);
    var d := Distinct(front);
    if j < |d| {
      DistinctKeepsFirstSeenOrder(front, i, j);
      FirstIndexPrefix(front, d[i], y);
      FirstIndexPrefix(front, d[j], y);
    } else {
      assert d[i] in d && d[i] in Distinct(front);
      FirstIndexPrefix(front, d[i], y);
    }
  }

  lemma {:induction false} DistinctConcat<T>(s: seq<T>, t: seq<T>)
    ensures Distinct(s + t) == Union(Distinct(s), t)
  {
    if t == [] {
      assert s + t == s;
    } else {
      var n := |t| - 1;
      assert (s + t)[..|s + t| - 1] == s + t[..n];
      DistinctConcat(s, t[..n]);
    }
  }

  lemma {:induction false} UnionDistinct<T>(s: seq<T>, t: seq<T>)
    ensures Union(s, Distinct(t)) == Union(s, t)
  {
    if t != [] {
      var n := |t| - 1;
      UnionDistinct(s, t[..n]);
      UnionPush(s, Distinct(t[..n]), t[n]);
    }
  }

  lemma {:induction false} DistinctIsDistinct<T>(s: seq<T>)
    requires NoDuplicates(s)
    ensures Distinct(s) == s
  {
    if s != [] {
      var n := |s| - 1;
      DistinctIsDistinct(s[..n]);
      assert s[n] !in s[..n] && s == s[..n] + [s[n]];
    }
  }

  /** Repetitions may be removed from the parts first. */
  lemma DistinctParts<T>(s: seq<T>, t: seq<T>)
    ensures Distinct(Distinct(s) + t) == Distinct(s + t) == Distinct(s + Distinct(t))
  {
    DistinctElements(s);
    DistinctIsDistinct(Distinct(s));
    DistinctConcat(Distinct(s), t);
    DistinctConcat(s, t);
    DistinctConcat(s, Distinct(t));
    UnionDistinct(Distinct(s), t);
  }
}
