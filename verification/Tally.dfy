/** Counting the entries of a finite map that satisfy a predicate. */
module Tally {

  ghost function Where<K, V>(m: map<K, V>, p: V -> bool): set<K> {
    set k | k in m && p(m[k])
  }

  ghost function Count<K, V>(m: map<K, V>, p: V -> bool): nat {
    |Where(m, p)|
  }

  /** Changing one entry moves the count by the change at that entry. */
  lemma CountUpdate<K, V>(m: map<K, V>, k: K, v: V, p: V -> bool)
    requires k in m
    ensures Count(m[k := v], p) + (if p(m[k]) then 1 else 0) == Count(m, p) + (if p(v) then 1 else 0)
  {
    var m' := m[k := v];
    Without(m, k, p);
    Without(m', k, p);
    assert Where(m, p) - {k} == Where(m', p) - {k};
  }

  lemma Without<K, V>(m: map<K, V>, k: K, p: V -> bool)
    requires k in m
    ensures Count(m, p) == |Where(m, p) - {k}| + (if p(m[k]) then 1 else 0)
  {
    var rest := Where(m, p) - {k};
    if p(m[k]) {
      assert Where(m, p) == rest + {k};
    } else {
      assert Where(m, p) == rest;
    }
  }

  lemma CountPositive<K, V>(m: map<K, V>, k: K, p: V -> bool)
    requires k in m && p(m[k])
    ensures Count(m, p) > 0
  {
    assert k in Where(m, p);
  }

  lemma CountNone<K, V>(m: map<K, V>, p: V -> bool)
    requires forall k :: k in m ==> !p(m[k])
    ensures Count(m, p) == 0
  {
    assert Where(m, p) == {};
  }

  lemma CountAtMost<K, V>(m: map<K, V>, p: V -> bool)
    ensures Count(m, p) <= |m|
  {
    SubsetSize(Where(m, p), m.Keys);
  }

  lemma CountMonotone<K, V>(m: map<K, V>, p: V -> bool, q: V -> bool)
    requires forall k :: k in m && p(m[k]) ==> q(m[k])
    ensures Count(m, p) <= Count(m, q)
  {
    SubsetSize(Where(m, p), Where(m, q));
  }

  /** Two exclusive predicates count separately. */
  lemma CountSplit<K, V>(m: map<K, V>, p: V -> bool, q: V -> bool, r: V -> bool)
    requires forall k :: k in m ==> !(p(m[k]) && q(m[k]))
    requires forall k :: k in m ==> (r(m[k]) <==> p(m[k]) || q(m[k]))
    ensures Count(m, r) == Count(m, p) + Count(m, q)
  {
    assert Where(m, r) == Where(m, p) + Where(m, q);
    assert Where(m, p) !! Where(m, q);
  }

  lemma SubsetSize<T>(a: set<T>, b: set<T>)
    requires a <= b
    ensures |a| <= |b|
  {
    assert b == a + (b - a);
  }
}
