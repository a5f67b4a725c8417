/** `std::map<int, V>`: an association list in strictly ascending key
    order, the order in which a `std::map` iterator visits it. */
module IntMap {
  import opened Wrappers

  type Map<V> = seq<(int, V)>

  predicate Sorted<V>(m: Map<V>) {
    forall i, j :: 0 <= i < j < |m| ==> m[i].0 < m[j].0
  }

  function Keys<V>(m: Map<V>): (ks: set<int>)
    ensures forall i :: 0 <= i < |m| ==> m[i].0 in ks
    ensures forall k :: k in ks ==> exists i :: 0 <= i < |m| && m[i].0 == k
  {
    if m == [] then {} else {m[0].0} + Keys(m[1..])
  }

  /** `m.find(k)`. */
  function Get<V>(m: Map<V>, k: int): (r: Option<V>)
    ensures r.None? <==> k !in Keys(m)
    ensures r.Some? ==> exists i :: 0 <= i < |m| && m[i] == (k, r.value)
  {
    if m == [] then None
    else if m[0].0 == k then Some(m[0].1)
    else Get(m[1..], k)
  }

  /** In a sorted map, the entry at index `i` is the one `Get` finds. */
  lemma {:induction false} GetSorted<V>(m: Map<V>, i: int)
    requires Sorted(m) && 0 <= i < |m|
    ensures Get(m, m[i].0) == Some(m[i].1)
  {
    if i > 0 {
      GetSorted(m[1..], i - 1);
    }
  }

  lemma SortedCons<V>(x: (int, V), t: Map<V>)
    requires Sorted(t)
    requires forall k :: k in Keys(t) ==> x.0 < k
    ensures Sorted([x] + t)
  {
    var r := [x] + t;
    forall i, j | 0 <= i < j < |r|
      ensures r[i].0 < r[j].0
    {
      if i > 0 {
        assert r[i] == t[i - 1] && r[j] == t[j - 1];
      } else {
        assert r[j].0 in Keys(t) by { assert r[j] == t[j - 1]; }
      }
    }
  }

  lemma SortedTail<V>(m: Map<V>)
    requires Sorted(m) && m != []
    ensures Sorted(m[1..])
    ensures forall k :: k in Keys(m[1..]) ==> m[0].0 < k
  {
    forall k | k in Keys(m[1..])
      ensures m[0].0 < k
    {
      var i :| 0 <= i < |m[1..]| && m[1..][i].0 == k;
      assert m[i + 1].0 == k;
    }
  }

  /** `m[k] = v`. */
  function Put<V>(m: Map<V>, k: int, v: V): (r: Map<V>)
    requires Sorted(m)
    ensures Sorted(r)
    ensures Get(r, k) == Some(v)
    ensures forall k' :: k' != k ==> Get(r, k') == Get(m, k')
  {
    if m == [] then [(k, v)]
    else
      SortedTail(m);
      if m[0].0 == k then
        var r := [(k, v)] + m[1..];
        assert r[1..] == m[1..];
        SortedCons((k, v), m[1..]);
        r
      else if k < m[0].0 then
        var r := [(k, v)] + m;
        assert r[1..] == m;
        SortedCons((k, v), m);
        r
      else
        var t := Put(m[1..], k, v);
        var r := [m[0]] + t;
        assert r[1..] == t;
        SortedCons(m[0], t);
        r
  }
}
