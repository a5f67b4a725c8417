/** `std::map<std::string, V>`: an association list kept in strictly
    ascending key order, so that iterating it visits the keys the way a
    `std::map` iterator does (`std::less<std::string>`, which compares
    characters as unsigned values). */
module SortedMap {
  import opened Wrappers

  /** Lexicographic order on strings, character by character. */
  predicate Less(a: string, b: string) {
    if a == [] then b != []
    else b != [] && (a[0] < b[0] || (a[0] == b[0] && Less(a[1..], b[1..])))
  }

  lemma {:induction false} LessIrreflexive(a: string)
    ensures !Less(a, a)
  {
    if a != [] {
      LessIrreflexive(a[1..]);
    }
  }

  lemma {:induction false} LessTransitive(a: string, b: string, c: string)
    requires Less(a, b) && Less(b, c)
    ensures Less(a, c)
  {
    if a != [] && a[0] == b[0] && b[0] == c[0] {
      LessTransitive(a[1..], b[1..], c[1..]);
    }
  }

  lemma {:induction false} LessTotal(a: string, b: string)
    requires a != b
    ensures Less(a, b) || Less(b, a)
  {
    if a != [] && b != [] && a[0] == b[0] {
      assert a == [a[0]] + a[1..] && b == [b[0]] + b[1..];
      LessTotal(a[1..], b[1..]);
    }
  }

  /** A `std::map` as the sequence of its entries in iteration order. */
  type Map<V> = seq<(string, V)>

  predicate Sorted<V>(m: Map<V>) {
    forall i, j :: 0 <= i < j < |m| ==> Less(m[i].0, m[j].0)
  }

  function Keys<V>(m: Map<V>): (ks: set<string>)
    ensures forall i :: 0 <= i < |m| ==> m[i].0 in ks
    ensures forall k :: k in ks ==> exists i :: 0 <= i < |m| && m[i].0 == k
  {
    if m == [] then {} else {m[0].0} + Keys(m[1..])
  }

  /** `m.find(k)`: the value under `k`, or None for `m.end()`. */
  function Get<V>(m: Map<V>, k: string): (r: Option<V>)
    ensures r.None? <==> k !in Keys(m)
    ensures r.Some? ==> exists i :: 0 <= i < |m| && m[i] == (k, r.value)
  {
    if m == [] then None
    else if m[0].0 == k then Some(m[0].1)
    else Get(m[1..], k)
  }

  /** In a sorted map, the entry at index `i` is the one `Get` finds. */
  lemma {:induction false} GetSorted<V>(m: Map<V>, i: int)
    requires Sorted(m) && 0 <= i < |m|
    ensures Get(m, m[i].0) == Some(m[i].1)
  {
    if i > 0 {
      if m[0].0 == m[i].0 {
        LessIrreflexive(m[0].0);
        assert false;
      }
      GetSorted(m[1..], i - 1);
    }
  }

  /** A key placed before a sorted map smaller than all its keys keeps it sorted. */
  lemma SortedCons<V>(x: (string, V), t: Map<V>)
    requires Sorted(t)
    requires forall k :: k in Keys(t) ==> Less(x.0, k)
    ensures Sorted([x] + t)
  {
    var r := [x] + t;
    forall i, j | 0 <= i < j < |r|
      ensures Less(r[i].0, r[j].0)
    {
      if i > 0 {
        assert r[i] == t[i - 1] && r[j] == t[j - 1];
      } else {
        assert r[j].0 in Keys(t) by { assert r[j] == t[j - 1]; }
      }
    }
  }

  /** Every key after the first of a sorted map is greater than the first. */
  lemma SortedTail<V>(m: Map<V>)
    requires Sorted(m) && m != []
    ensures Sorted(m[1..])
    ensures forall k :: k in Keys(m[1..]) ==> Less(m[0].0, k)
  {
    forall k | k in Keys(m[1..])
      ensures Less(m[0].0, k)
    {
      var i :| 0 <= i < |m[1..]| && m[1..][i].0 == k;
      assert m[i + 1].0 == k;
    }
  }

  /** Overwriting the first entry's value keeps the map sorted. */
  lemma PutFirst<V>(m: Map<V>, k: string, v: V)
    requires Sorted(m) && m != [] && m[0].0 == k
    ensures Sorted([(k, v)] + m[1..]) && Keys([(k, v)] + m[1..]) == Keys(m)
  {
    SortedTail(m);
    assert ([(k, v)] + m[1..])[1..] == m[1..];
    SortedCons((k, v), m[1..]);
  }

  /** A key below the first key goes in front. */
  lemma PutFront<V>(m: Map<V>, k: string, v: V)
    requires Sorted(m) && m != [] && Less(k, m[0].0)
    ensures Sorted([(k, v)] + m) && k !in Keys(m)
  {
    SortedTail(m);
    forall k' | k' in Keys(m)
      ensures Less(k, k')
    {
      if k' != m[0].0 {
        LessTransitive(k, m[0].0, k');
      }
    }
    LessIrreflexive(k);
    SortedCons((k, v), m);
  }

  /** A key above the first key goes into the rest. */
  lemma PutRest<V>(m: Map<V>, k: string, t: Map<V>)
    requires Sorted(m) && m != [] && m[0].0 != k && !Less(k, m[0].0)
    requires Sorted(t) && Keys(t) == Keys(m[1..]) + {k}
    ensures Sorted([m[0]] + t) && Keys([m[0]] + t) == Keys(m) + {k}
    ensures k in Keys(m) <==> k in Keys(m[1..])
  {
    SortedTail(m);
    LessTotal(k, m[0].0);
    LessIrreflexive(m[0].0);
    SortedCons(m[0], t);
    assert ([m[0]] + t)[1..] == t;
  }

  /** `m[k] = v`: overwrites the value of an existing key, or inserts the
      key at its place in the order. */
  function Put<V>(m: Map<V>, k: string, v: V): (r: Map<V>)
    requires Sorted(m)
    ensures Sorted(r)
    ensures Keys(r) == Keys(m) + {k}
    ensures |r| == if k in Keys(m) then |m| else |m| + 1
  {
    if m == [] then [(k, v)]
    else if m[0].0 == k then
      PutFirst(m, k, v);
      [(k, v)] + m[1..]
    else if Less(k, m[0].0) then
      PutFront(m, k, v);
      [(k, v)] + m
    else
      SortedTail(m);
      var t := Put(m[1..], k, v);
      PutRest(m, k, t);
      [m[0]] + t
  }

  /** After `m[k] = v`, `k` finds `v` and every other key finds what it
      found before. */
  lemma {:induction false} PutGet<V>(m: Map<V>, k: string, v: V)
    requires Sorted(m)
    ensures Get(Put(m, k, v), k) == Some(v)
    ensures forall k' :: k' != k ==> Get(Put(m, k, v), k') == Get(m, k')
  {
    var r := Put(m, k, v);
    if m == [] {
      assert r == [(k, v)];
      forall k' | k' != k
        ensures Get(r, k') == Get(m, k')
      {
        assert r[1..] == [];
      }
    } else if m[0].0 == k {
      assert r == [(k, v)] + m[1..];
      forall k' | k' != k
        ensures Get(r, k') == Get(m, k')
      {
        assert r[1..] == m[1..];
      }
    } else if Less(k, m[0].0) {
      assert r == [(k, v)] + m;
      forall k' | k' != k
        ensures Get(r, k') == Get(m, k')
      {
        assert r[1..] == m;
      }
    } else {
      SortedTail(m);
      var t := Put(m[1..], k, v);
      assert r == [m[0]] + t;
      assert r[1..] == t;
      PutGet(m[1..], k, v);
    }
  }

  /** `m.insert(std::make_pair(k, v))`: adds the entry only when `k` is not
      already a key; an existing value is never overwritten. */
  function Insert<V>(m: Map<V>, k: string, v: V): (r: Map<V>)
    requires Sorted(m)
    ensures Sorted(r)
    ensures Keys(r) == Keys(m) + {k}
    ensures k in Keys(m) ==> r == m
    ensures k !in Keys(m) ==> Get(r, k) == Some(v)
    ensures forall k' :: k' != k ==> Get(r, k') == Get(m, k')
  {
    if k in Keys(m) then m else PutGet(m, k, v); Put(m, k, v)
  }

  /** The map a sequence of `m[k] = v` assignments builds, in order. */
  function PutAll<V>(m: Map<V>, es: seq<(string, V)>): (r: Map<V>)
    requires Sorted(m)
    ensures Sorted(r)
    decreases |es|
  {
    if es == [] then m else PutAll(Put(m, es[0].0, es[0].1), es[1..])
  }

  /** Keys a run of assignments never names keep their earlier value. */
  lemma {:induction false} PutAllUnassigned<V>(m: Map<V>, es: seq<(string, V)>, k: string)
    requires Sorted(m)
    requires forall i :: 0 <= i < |es| ==> es[i].0 != k
    decreases |es|
    ensures Get(PutAll(m, es), k) == Get(m, k)
  {
    if es != [] {
      assert es[0].0 != k;
      forall i | 0 <= i < |es[1..]|
        ensures es[1..][i].0 != k
      {
        assert es[1..][i] == es[i + 1];
      }
      PutGet(m, es[0].0, es[0].1);
      PutAllUnassigned(Put(m, es[0].0, es[0].1), es[1..], k);
    }
  }

  /** After a run of assignments, a key holds the value of its last
      assignment. */
  lemma {:induction false} PutAllLastWins<V>(m: Map<V>, es: seq<(string, V)>, i: int)
    requires Sorted(m)
    requires 0 <= i < |es|
    requires forall j :: i < j < |es| ==> es[j].0 != es[i].0
    decreases |es|
    ensures Get(PutAll(m, es), es[i].0) == Some(es[i].1)
  {
    var m' := Put(m, es[0].0, es[0].1);
    PutGet(m, es[0].0, es[0].1);
    forall j | 0 <= j < |es[1..]| && i - 1 < j
      ensures es[1..][j].0 != es[i].0
    {
      assert es[1..][j] == es[j + 1];
    }
    if i == 0 {
      PutAllUnassigned(m', es[1..], es[0].0);
    } else {
      assert es[1..][i - 1] == es[i];
      PutAllLastWins(m', es[1..], i - 1);
    }
  }

  /** The names a run of assignments uses. */
  function Names<V>(es: seq<(string, V)>): set<string> {
    set i | 0 <= i < |es| :: es[i].0
  }

  lemma NamesCons<V>(es: seq<(string, V)>)
    requires es != []
    ensures Names(es) == {es[0].0} + Names(es[1..])
  {
    var t := es[1..];
    forall k | k in Names(es)
      ensures k in {es[0].0} + Names(t)
    {
      var i :| 0 <= i < |es| && es[i].0 == k;
      if i > 0 {
        assert t[i - 1] == es[i];
      }
    }
    forall k | k in Names(t)
      ensures k in Names(es)
    {
      var i :| 0 <= i < |t| && t[i].0 == k;
      assert es[i + 1] == t[i];
    }
  }

  /** Distinct names, none of them a key of `m`. */
  predicate FreshNames<V>(m: Map<V>, es: seq<(string, V)>) {
    (forall i, j :: 0 <= i < j < |es| ==> es[i].0 != es[j].0) &&
    (forall i :: 0 <= i < |es| ==> es[i].0 !in Keys(m))
  }

  lemma FreshNamesTail<V>(m: Map<V>, es: seq<(string, V)>)
    requires Sorted(m) && es != [] && FreshNames(m, es)
    ensures FreshNames(Put(m, es[0].0, es[0].1), es[1..])
  {
    var t := es[1..];
    forall i | 0 <= i < |t|
      ensures t[i].0 !in Keys(Put(m, es[0].0, es[0].1))
    {
      assert t[i] == es[i + 1];
    }
    forall i, j | 0 <= i < j < |t|
      ensures t[i].0 != t[j].0
    {
      assert t[i] == es[i + 1] && t[j] == es[j + 1];
    }
  }

  /** A run of assignments to distinct new names adds one entry per
      assignment, and the keys are the old keys and those names. */
  lemma {:induction false} PutAllFresh<V>(m: Map<V>, es: seq<(string, V)>)
    requires Sorted(m) && FreshNames(m, es)
    decreases |es|
    ensures |PutAll(m, es)| == |m| + |es|
    ensures Keys(PutAll(m, es)) == Keys(m) + Names(es)
  {
    if es != [] {
      FreshNamesTail(m, es);
      PutAllFresh(Put(m, es[0].0, es[0].1), es[1..]);
      NamesCons(es);
    }
  }

  /** The value of the last assignment to `k` in a run, if any. */
  function LastValue<V>(es: seq<(string, V)>, k: string): (r: Option<V>)
    ensures r.None? <==> forall i :: 0 <= i < |es| ==> es[i].0 != k
  {
    if es == [] then None
    else
      var t := LastValue(es[1..], k);
      if t.Some? then t
      else
        assert forall i :: 1 <= i < |es| ==> es[i] == es[1..][i - 1];
        if es[0].0 == k then Some(es[0].1) else None
  }

  /** After a run of assignments a key holds its last assigned value, or
      its earlier value when the run never assigns it. */
  lemma {:induction false} PutAllGet<V>(m: Map<V>, es: seq<(string, V)>, k: string)
    requires Sorted(m)
    decreases |es|
    ensures Get(PutAll(m, es), k) == if LastValue(es, k).Some? then LastValue(es, k) else Get(m, k)
  {
    if es != [] {
      PutGet(m, es[0].0, es[0].1);
      PutAllGet(Put(m, es[0].0, es[0].1), es[1..], k);
    }
  }
}
