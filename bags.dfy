/**
 * Order-free accumulation. Go iterates maps in an unspecified order, so what a loop over a map
 * appends is specified here as a multiset: the sum of the bags contributed by every key.
 */
module Bags {

  /** The sum of all bags in `m`, independent of the order in which the keys are visited. */
  ghost function SumValues<K, T>(m: map<K, multiset<T>>): multiset<T>
    decreases m.Keys
  {
    if m == map[] then multiset{}
    else
      var k :| k in m;
      m[k] + SumValues(m - {k})
  }

  /** Any key may be taken out first: the sum does not depend on the visiting order. */
  lemma {:induction false} SumValuesRemove<K, T>(m: map<K, multiset<T>>, k: K)
    requires k in m
    ensures SumValues(m) == m[k] + SumValues(m - {k})
    decreases m.Keys
  {
    var j :| j in m && SumValues(m) == m[j] + SumValues(m - {j});
    if j != k {
      SumValuesRemove(m - {j}, k);
      SumValuesRemove(m - {k}, j);
      assert m - {j} - {k} == m - {k} - {j};
    }
  }

  /** Visiting one more key adds exactly that key's bag. */
  lemma SumValuesAdd<K, T>(m: map<K, multiset<T>>, k: K, v: multiset<T>)
    requires k !in m
    ensures SumValues(m[k := v]) == v + SumValues(m)
  {
    SumValuesRemove(m[k := v], k);
    assert m[k := v] - {k} == m;
  }

  /** An element is in the sum exactly when it is in the bag of some key. */
  lemma {:induction false} SumValuesMember<K, T>(m: map<K, multiset<T>>, x: T)
    ensures x in SumValues(m) <==> exists k :: k in m && x in m[k]
    decreases m.Keys
  {
    if m != map[] {
      var k :| k in m;
      SumValuesRemove(m, k);
      SumValuesMember(m - {k}, x);
      if x in SumValues(m - {k}) {
        var j :| j in m - {k} && x in (m - {k})[j];
        assert j in m && x in m[j];
      }
      if exists j :: j in m && x in m[j] {
        var j :| j in m && x in m[j];
        assert j == k || (j in m - {k} && x in (m - {k})[j]);
      }
    }
  }

  /** When only the bag of `k` can hold `x`, the sum holds `x` as often as that bag does. */
  lemma SumValuesSingleSource<K, T>(m: map<K, multiset<T>>, k: K, x: T)
    requires k in m
    requires forall j :: j in m && j != k ==> x !in m[j]
    ensures SumValues(m)[x] == m[k][x]
  {
    SumValuesRemove(m, k);
    SumValuesMember(m - {k}, x);
  }

  /** Sums of bags of equal sizes, key by key, have equal sizes. */
  lemma {:induction false} SumValuesSize<K, T, U>(m: map<K, multiset<T>>, n: map<K, multiset<U>>)
    requires m.Keys == n.Keys
    requires forall k :: k in m ==> |m[k]| == |n[k]|
    ensures |SumValues(m)| == |SumValues(n)|
    decreases m.Keys
  {
    if m != map[] {
      var k :| k in m;
      SumValuesRemove(m, k);
      SumValuesRemove(n, k);
      SumValuesSize(m - {k}, n - {k});
    }
  }

  /** The bag that each entry of `m` contributes, by key. */
  ghost function Image<K, V, T>(m: map<K, V>, f: V -> multiset<T>): map<K, multiset<T>>
  {
    map k | k in m :: f(m[k])
  }

  /** The bag that each element of `s` contributes, by element. */
  ghost function SetImage<K, T>(s: set<K>, f: K -> multiset<T>): map<K, multiset<T>>
  {
    map k | k in s :: f(k)
  }

  /** Visiting one more entry adds that entry's bag. */
  lemma SumImageAdd<K, V, T>(m: map<K, V>, k: K, v: V, f: V -> multiset<T>)
    requires k !in m
    ensures SumValues(Image(m[k := v], f)) == SumValues(Image(m, f)) + f(v)
  {
    assert Image(m[k := v], f) == Image(m, f)[k := f(v)];
    SumValuesAdd(Image(m, f), k, f(v));
  }

  /** Visiting one more element adds that element's bag. */
  lemma SumSetImageAdd<K, T>(s: set<K>, k: K, f: K -> multiset<T>)
    requires k !in s
    ensures SumValues(SetImage(s + {k}, f)) == SumValues(SetImage(s, f)) + f(k)
  {
    assert SetImage(s + {k}, f) == SetImage(s, f)[k := f(k)];
    SumValuesAdd(SetImage(s, f), k, f(k));
  }
}
