// Sums over maps. Go ranges over a map in no fixed order; these folds pick an
// arbitrary key, and the *Remove lemmas show that the result does not depend
// on which key is picked first.
module Folds {

  /** The count stored under `k`, or 0 when `k` is absent (Go's zero value). */
  function CountOf(m: map<string, nat>, k: string): nat
  {
    if k in m then m[k] else 0
  }

  /** Some key of a non-empty map; which one is left open. */
  ghost function Pick<V>(m: map<string, V>): (k: string)
    requires |m| != 0
    ensures k in m
  {
    var k :| k in m; k
  }

  /** The sum of all counts in `m`. */
  ghost function Sum(m: map<string, nat>): nat
    decreases |m|
  {
    if |m| == 0 then 0
    else
      var k := Pick(m);
      m[k] + Sum(m - {k})
  }

  lemma {:induction false} SumRemove(m: map<string, nat>, k: string)
    requires k in m
    ensures Sum(m) == m[k] + Sum(m - {k})
    decreases |m|
  {
    var j := Pick(m);
    if j != k {
      var mj, mk := m - {j}, m - {k};
      assert mj[k] == m[k] && mk[j] == m[j];
      SumRemove(mj, k);
      SumRemove(mk, j);
      assert mj - {k} == mk - {j};
    }
  }

  /** Overwriting one entry changes the sum by the difference. */
  lemma SumUpdate(m: map<string, nat>, k: string, v: nat)
    ensures Sum(m[k := v]) + CountOf(m, k) == Sum(m) + v
  {
    SumRemove(m[k := v], k);
    if k in m {
      SumRemove(m, k);
      assert m[k := v] - {k} == m - {k};
    } else {
      assert m[k := v] - {k} == m;
    }
  }

  /** Key-wise addition of two count maps: how per-file value counts are merged. */
  function AddCounts(m: map<string, nat>, p: map<string, nat>): (r: map<string, nat>)
    ensures r.Keys == m.Keys + p.Keys
    ensures forall k :: k in r ==> r[k] == CountOf(m, k) + CountOf(p, k)
  {
    map k | k in m.Keys + p.Keys :: CountOf(m, k) + CountOf(p, k)
  }

  /** Merging count maps does not depend on which map is merged into which. */
  lemma AddCountsCommutes(m: map<string, nat>, p: map<string, nat>)
    ensures AddCounts(m, p) == AddCounts(p, m)
  {
    assert AddCounts(m, p).Keys == AddCounts(p, m).Keys;
  }

  /** Merging count maps does not depend on how the merges are grouped. */
  lemma AddCountsAssociates(m: map<string, nat>, p: map<string, nat>, q: map<string, nat>)
    ensures AddCounts(AddCounts(m, p), q) == AddCounts(m, AddCounts(p, q))
  {
    var l, r := AddCounts(AddCounts(m, p), q), AddCounts(m, AddCounts(p, q));
    forall k | k in l ensures k in r && l[k] == r[k] {
      assert CountOf(AddCounts(m, p), k) == CountOf(m, k) + CountOf(p, k);
      assert CountOf(AddCounts(p, q), k) == CountOf(p, k) + CountOf(q, k);
    }
    assert l.Keys == r.Keys;
  }

  /** Dropping a key from a sum of count maps drops it from both. */
  lemma AddCountsRemove(m: map<string, nat>, p: map<string, nat>, k: string)
    ensures AddCounts(m, p) - {k} == AddCounts(m - {k}, p - {k})
  {
    var a, b := AddCounts(m, p) - {k}, AddCounts(m - {k}, p - {k});
    forall j | j in a ensures j in b && a[j] == b[j] {
      assert CountOf(m, j) == CountOf(m - {k}, j) && CountOf(p, j) == CountOf(p - {k}, j);
    }
    assert a.Keys == b.Keys;
  }

  /** Adding count maps adds their sums: no count is lost or doubled. */
  lemma {:induction false} SumAddCounts(m: map<string, nat>, p: map<string, nat>)
    ensures Sum(AddCounts(m, p)) == Sum(m) + Sum(p)
    decreases |p|
  {
    if |p| == 0 {
      assert AddCounts(m, p) == m;
    } else {
      var k := Pick(p);
      SumAddCounts(m - {k}, p - {k});
      SumAddCountsStep(m, p, k);
    }
  }

  lemma SumAddCountsStep(m: map<string, nat>, p: map<string, nat>, k: string)
    requires k in p
    requires Sum(AddCounts(m - {k}, p - {k})) == Sum(m - {k}) + Sum(p - {k})
    ensures Sum(AddCounts(m, p)) == Sum(m) + Sum(p)
  {
    AddCountsRemove(m, p, k);
    SumSplit(m, p, AddCounts(m, p), k);
  }

  /** The sum of `a` splits at `k` into the sums of `m` and `p`, given that
      it does so once `k` is removed. */
  lemma SumSplit(m: map<string, nat>, p: map<string, nat>, a: map<string, nat>, k: string)
    requires k in p && k in a && a[k] == CountOf(m, k) + p[k]
    requires Sum(a - {k}) == Sum(m - {k}) + Sum(p - {k})
    ensures Sum(a) == Sum(m) + Sum(p)
  {
    SumRemove(a, k);
    SumRemove(p, k);
    SumWithout(m, k);
  }

  /** Removing a key, present or not, takes its count out of the sum. */
  lemma SumWithout(m: map<string, nat>, k: string)
    ensures Sum(m) == CountOf(m, k) + Sum(m - {k})
  {
    if k in m {
      SumRemove(m, k);
    } else {
      assert m - {k} == m;
    }
  }

  /** The multiset union of all bags in `m`. */
  ghost function Union<T>(m: map<string, multiset<T>>): multiset<T>
    decreases |m|
  {
    if |m| == 0 then multiset{}
    else
      var k := Pick(m);
      m[k] + Union(m - {k})
  }

  lemma {:induction false} UnionRemove<T>(m: map<string, multiset<T>>, k: string)
    requires k in m
    ensures Union(m) == m[k] + Union(m - {k})
    decreases |m|
  {
    var j := Pick(m);
    if j != k {
      UnionRemove(m - {j}, k);
      UnionRemove(m - {k}, j);
      assert m - {j} - {k} == m - {k} - {j};
    }
  }

  lemma UnionInsert<T>(m: map<string, multiset<T>>, k: string, v: multiset<T>)
    requires k !in m
    ensures Union(m[k := v]) == v + Union(m)
  {
    UnionRemove(m[k := v], k);
    assert m[k := v] - {k} == m;
  }

  /** An element is in the union exactly when some bag holds it. */
  lemma {:induction false} UnionMember<T>(m: map<string, multiset<T>>, x: T)
    ensures x in Union(m) <==> exists k :: k in m && x in m[k]
    decreases |m|
  {
    if |m| != 0 {
      var k :| k in m;
      UnionRemove(m, k);
      UnionMember(m - {k}, x);
      assert forall j :: j in m - {k} ==> j in m && (m - {k})[j] == m[j];
      if x in Union(m) && x !in m[k] {
        var j :| j in m - {k} && x in (m - {k})[j];
        assert j in m && x in m[j];
      }
    }
  }

  /** Sizes of the bags in `m`. */
  function Sizes<T>(m: map<string, multiset<T>>): (r: map<string, nat>)
    ensures r.Keys == m.Keys
    ensures forall k :: k in m ==> r[k] == |m[k]|
  {
    map k | k in m :: |m[k]|
  }

  /** The union holds exactly as many elements as all bags together. */
  lemma {:induction false} UnionSize<T>(m: map<string, multiset<T>>)
    ensures |Union(m)| == Sum(Sizes(m))
    decreases |m|
  {
    if |m| != 0 {
      var k :| k in m;
      UnionRemove(m, k);
      UnionSize(m - {k});
      SumRemove(Sizes(m), k);
      assert Sizes(m) - {k} == Sizes(m - {k});
    }
  }

  /** Shrinking every bag shrinks the union. */
  lemma {:induction false} UnionMono<T>(m1: map<string, multiset<T>>, m2: map<string, multiset<T>>)
    requires m1.Keys == m2.Keys
    requires forall k :: k in m1 ==> m1[k] <= m2[k]
    ensures Union(m1) <= Union(m2)
    decreases |m1|
  {
    if |m1| != 0 {
      var k :| k in m1;
      UnionRemove(m1, k);
      UnionRemove(m2, k);
      UnionMono(m1 - {k}, m2 - {k});
    }
  }

  /** Taking one more key out of `keys` adds its bag to the union of the rest. */
  lemma UnionStep<T>(m: map<string, multiset<T>>, keys: set<string>, k: string)
    requires k in keys && k in m
    ensures Union(m - (keys - {k})) == m[k] + Union(m - keys)
  {
    assert m - (keys - {k}) == (m - keys)[k := m[k]];
    UnionInsert(m - keys, k, m[k]);
  }

  /** Taking one more key of `p` out of `keys` adds its count under that key. */
  lemma AddCountsStep(m: map<string, nat>, p: map<string, nat>, keys: set<string>, k: string)
    requires k in keys && k in p
    ensures var x := AddCounts(m, p - keys);
            AddCounts(m, p - (keys - {k})) == x[k := CountOf(x, k) + p[k]]
  {
    var x := AddCounts(m, p - keys);
    var a, y := AddCounts(m, p - (keys - {k})), x[k := CountOf(x, k) + p[k]];
    forall j | j in a ensures j in y && a[j] == y[j] {
      if j != k {
        assert CountOf(p - keys, j) == CountOf(p - (keys - {k}), j);
      }
    }
    assert a.Keys == y.Keys;
  }

  lemma BagCancel<T>(a: multiset<T>, b: multiset<T>, x: T)
    requires a + multiset{x} == b + multiset{x}
    ensures a == b
  {
    forall y ensures a[y] == b[y] {
      assert (a + multiset{x})[y] == (b + multiset{x})[y];
    }
  }

  /** Two lists holding the same elements still do once the first element of
      one and a matching element of the other are taken out. */
  lemma BagRemove<T>(ps: seq<T>, qs: seq<T>, j: nat)
    requires multiset(ps) == multiset(qs)
    requires ps != [] && j < |qs| && qs[j] == ps[0]
    ensures multiset(ps[1..]) == multiset(qs[..j] + qs[j + 1..])
  {
    var rest := qs[..j] + qs[j + 1..];
    assert qs == qs[..j] + [qs[j]] + qs[j + 1..];
    assert ps == [ps[0]] + ps[1..];
    assert multiset(ps[1..]) + multiset{ps[0]} == multiset(ps) == multiset(qs)
        == multiset(rest) + multiset{ps[0]};
    BagCancel(multiset(ps[1..]), multiset(rest), ps[0]);
  }
}
