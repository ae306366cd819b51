/** Python's insertion-ordered `dict`, as a sequence of key/value pairs.
    Assigning to a key that is present replaces its value where it stands;
    assigning to a new key appends it at the end. */
module AssocList {
  import opened Options

  /** The keys, in insertion order. */
  function Keys<K, V>(m: seq<(K, V)>): (ks: seq<K>)
    ensures |ks| == |m|
    ensures forall i :: 0 <= i < |m| ==> ks[i] == m[i].0
  {
    if m == [] then [] else [m[0].0] + Keys(m[1..])
  }

  predicate Distinct<K(==)>(ks: seq<K>) {
    forall i, j :: 0 <= i < j < |ks| ==> ks[i] != ks[j]
  }

  /** `k in d` together with `d[k]`: the value stored under `k`, if any. */
  function Find<K(==), V>(m: seq<(K, V)>, k: K): (r: Option<V>)
    ensures r.None? <==> k !in Keys(m)
    ensures r.Some? ==> (k, r.value) in m
  {
    if m == [] then None
    else if m[0].0 == k then Some(m[0].1)
    else Find(m[1..], k)
  }

  /** `d[k]` for a key known to be present. */
  function Lookup<K(==), V>(m: seq<(K, V)>, k: K): V
    requires k in Keys(m)
  {
    Find(m, k).value
  }

  /** `d[k] = v`. */
  function Put<K(==), V>(m: seq<(K, V)>, k: K, v: V): (r: seq<(K, V)>)
    ensures Keys(r) == if k in Keys(m) then Keys(m) else Keys(m) + [k]
    ensures Find(r, k) == Some(v)
  {
    if m == [] then [(k, v)]
    else if m[0].0 == k then [(k, v)] + m[1..]
    else
      var rest := Put(m[1..], k, v);
      KeysCons(m[0], rest);
      [m[0]] + rest
  }

  lemma KeysCons<K, V>(p: (K, V), m: seq<(K, V)>)
    ensures Keys([p] + m) == [p.0] + Keys(m)
    ensures ([p] + m)[1..] == m
  {
    assert ([p] + m)[1..] == m;
  }

  /** Assignment leaves every other key's value as it was. */
  lemma {:induction false} PutOther<K, V>(m: seq<(K, V)>, k: K, v: V, k': K)
    requires k' != k
    ensures Find(Put(m, k, v), k') == Find(m, k')
  {
    if m != [] && m[0].0 != k {
      PutOther(m[1..], k, v, k');
    }
  }

  lemma DistinctAppend<K>(ks: seq<K>, k: K)
    requires Distinct(ks) && k !in ks
    ensures Distinct(ks + [k])
  {
  }

  /** Assignment keeps the keys of a dictionary distinct. */
  lemma PutDistinct<K, V>(m: seq<(K, V)>, k: K, v: V)
    requires Distinct(Keys(m))
    ensures Distinct(Keys(Put(m, k, v)))
  {
    if k !in Keys(m) {
      DistinctAppend(Keys(m), k);
    }
  }

  lemma DistinctTail<K>(ks: seq<K>)
    requires Distinct(ks) && ks != []
    ensures Distinct(ks[1..]) && ks[0] !in ks[1..]
  {
    forall a, b | 0 <= a < b < |ks| - 1
      ensures ks[1..][a] != ks[1..][b]
    {
      assert ks[1..][a] == ks[a + 1];
    }
  }

  /** Every entry after an assignment was there before or is the new one. */
  lemma {:induction false} PutMembers<K, V>(m: seq<(K, V)>, k: K, v: V, p: (K, V))
    requires p in Put(m, k, v)
    ensures p == (k, v) || p in m
  {
    if m != [] && m[0].0 != k {
      if p != m[0] {
        PutMembers(m[1..], k, v, p);
      }
    }
  }

  /** Assigning a new key appends it at the end. */
  lemma {:induction false} PutFresh<K, V>(m: seq<(K, V)>, k: K, v: V)
    requires k !in Keys(m)
    ensures Put(m, k, v) == m + [(k, v)]
  {
    if m != [] {
      var rest := m[1..];
      assert m == [m[0]] + rest;
      KeysCons(m[0], rest);
      PutFresh(rest, k, v);
      assert Put(m, k, v) == [m[0]] + (rest + [(k, v)]);
    }
  }

  /** A second assignment to a key overrides the first. */
  lemma {:induction false} PutPut<K, V>(m: seq<(K, V)>, k: K, v0: V, v: V)
    ensures Put(Put(m, k, v0), k, v) == Put(m, k, v)
  {
    if m != [] && m[0].0 != k {
      PutPut(m[1..], k, v0, v);
    }
  }

  /** `s` with every element after its first occurrence removed. */
  function FirstOccurrences<T(==)>(s: seq<T>): seq<T>
    decreases |s|
  {
    if s == [] then []
    else
      var d := FirstOccurrences(s[..|s| - 1]);
      if s[|s| - 1] in d then d else d + [s[|s| - 1]]
  }

  lemma {:induction false} FirstOccurrencesMembers<T>(s: seq<T>, x: T)
    ensures x in FirstOccurrences(s) <==> x in s
    decreases |s|
  {
    if s != [] {
      var init := s[..|s| - 1];
      FirstOccurrencesMembers(init, x);
      assert s == init + [s[|s| - 1]];
    }
  }
}
