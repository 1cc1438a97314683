/** Java's null reference, for values that may be absent. */
module Wrappers {
  datatype Option<+T> = None | Some(value: T)
}

/** Sums of the values of a finite map, independent of any iteration order. */
module Sums {

  /** Some key of a non-empty map; a named choice so that proofs can refer to it. */
  ghost function Pick<K>(m: map<K, int>): (k: K)
    requires m != map[]
    ensures k in m
  {
    var k :| k in m; k
  }

  /** The sum of all values of m. */
  ghost function MapSum<K>(m: map<K, int>): int
    decreases |m|
  {
    if m == map[] then 0 else m[Pick(m)] + MapSum(m - {Pick(m)})
  }

  /** The sum does not depend on which key is taken out first. */
  lemma {:induction false} MapSumRemove<K>(m: map<K, int>, k: K)
    requires k in m
    ensures MapSum(m) == m[k] + MapSum(m - {k})
    decreases |m|
  {
    var j := Pick(m);
    if j != k {
      assert |m - {j}| < |m| by { assert j in m; }
      assert |m - {k}| < |m| by { assert k in m; }
      MapSumRemove(m - {j}, k);
      MapSumRemove(m - {k}, j);
      assert (m - {j}) - {k} == (m - {k}) - {j};
    }
  }

  /** Adding a fresh key adds its value to the sum. */
  lemma MapSumAdd<K>(m: map<K, int>, k: K, v: int)
    requires k !in m
    ensures MapSum(m[k := v]) == MapSum(m) + v
  {
    MapSumRemove(m[k := v], k);
    assert m[k := v] - {k} == m;
  }

  /** Changing one value changes the sum by the difference. */
  lemma MapSumUpdate<K>(m: map<K, int>, k: K, v: int)
    requires k in m
    ensures MapSum(m[k := v]) == MapSum(m) - m[k] + v
  {
    MapSumRemove(m[k := v], k);
    MapSumRemove(m, k);
    assert m[k := v] - {k} == m - {k};
  }

  /** A loop over the keys of a map adding up its values, in whatever order it visits them. */
  method SumValues<K>(m: map<K, int>) returns (total: int)
    ensures total == MapSum(m)
  {
    total := 0;
    var rest := m;
    while rest != map[]
      invariant total + MapSum(rest) == MapSum(m)
      decreases |rest|
    {
      var k :| k in rest;
      MapSumRemove(rest, k);
      total := total + rest[k];
      rest := rest - {k};
    }
  }
}

/** Sequences without repeated elements. */
module Seqs {

  ghost predicate Distinct<X>(s: seq<X>)
  {
    forall i, j :: 0 <= i < j < |s| ==> s[i] != s[j]
  }

  /** The elements of a sequence, as a set. */
  ghost function Elements<X>(s: seq<X>): set<X>
  {
    set x | x in s
  }

  /** Dropping the last element of a sequence without repetitions leaves one without
      repetitions, which does not hold that element. */
  lemma DistinctInit<X>(s: seq<X>)
    requires Distinct(s) && s != []
    ensures Distinct(s[..|s| - 1]) && s[|s| - 1] !in Elements(s[..|s| - 1])
    ensures Elements(s) == Elements(s[..|s| - 1]) + {s[|s| - 1]}
  {
    var init := s[..|s| - 1];
    assert forall i :: 0 <= i < |init| ==> init[i] == s[i];
    assert s == init + [s[|s| - 1]];
  }

  /** A sequence without repetitions has as many elements as its set. */
  lemma {:induction false} DistinctCard<X>(s: seq<X>)
    requires Distinct(s)
    ensures |Elements(s)| == |s|
    decreases |s|
  {
    if s != [] {
      DistinctInit(s);
      DistinctCard(s[..|s| - 1]);
    }
  }

  /** Appending an element not yet present keeps a sequence without repetitions. */
  lemma DistinctAppend<X>(s: seq<X>, x: X)
    requires Distinct(s) && x !in Elements(s)
    ensures Distinct(s + [x]) && Elements(s + [x]) == Elements(s) + {x}
  {
    assert forall i :: 0 <= i < |s| ==> (s + [x])[i] == s[i];
  }

  /** f applied to each element of s: one of the parallel lists built from a sequence of records. */
  function Apply<A, B>(f: A -> B, s: seq<A>): seq<B>
  {
    seq(|s|, k requires 0 <= k < |s| => f(s[k]))
  }

  lemma ApplyAppend<A, B>(f: A -> B, s: seq<A>, t: seq<A>)
    ensures Apply(f, s + t) == Apply(f, s) + Apply(f, t)
  {
  }

  lemma ApplyAfter<A, B>(f: A -> B, prefix: seq<B>, s: seq<A>, t: seq<A>)
    ensures prefix + Apply(f, s) + Apply(f, t) == prefix + Apply(f, s + t)
  {
    ApplyAppend(f, s, t);
  }

  lemma ApplySnoc<A, B>(f: A -> B, s: seq<A>, j: int)
    requires 0 <= j < |s|
    ensures Apply(f, s[..j + 1]) == Apply(f, s[..j]) + [f(s[j])]
  {
  }

  /** Position |s| + k of two parallel lists laid end to end, in the second part. */
  lemma ApplyConcatRight<A, B, C>(f: A -> C, g: B -> C, s: seq<A>, t: seq<B>, k: int)
    requires 0 <= k < |t|
    ensures |Apply(f, s) + Apply(g, t)| == |s| + |t| && (Apply(f, s) + Apply(g, t))[|s| + k] == g(t[k])
  {
  }

  /** Lists the members of a set once each, in an unspecified order: the order in which
      a for-each loop visits a hash set. */
  method Enumerate<X>(s: set<X>) returns (order: seq<X>)
    ensures Distinct(order) && Elements(order) == s && |order| == |s|
  {
    order := [];
    var rest := s;
    while rest != {}
      invariant rest + Elements(order) == s && rest !! Elements(order) && Distinct(order)
      decreases rest
    {
      var x :| x in rest;
      DistinctAppend(order, x);
      order := order + [x];
      rest := rest - {x};
    }
    DistinctCard(order);
  }
}
