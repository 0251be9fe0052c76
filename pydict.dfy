/** Python's built-in `dict`, as far as the symbol tables use it: a list of
    (key, value) items in insertion order.  Assigning `d[k] = v` overwrites
    the value of an existing key in place and appends a new key at the end,
    so a dict literal, a dict comprehension and `update` are all folds of
    that one assignment over a list of pairs.  The order matters only for
    building a reverse table, where the last pair written for a key wins. */
module PyDict {

  type Items<K, V> = seq<(K, V)>

  /** The keys that occur in a list of pairs. */
  function Keys<K, V>(d: Items<K, V>): set<K>
  {
    set i | 0 <= i < |d| :: d[i].0
  }

  /** The values that occur in a list of pairs. */
  function Values<K, V>(d: Items<K, V>): set<V>
  {
    set i | 0 <= i < |d| :: d[i].1
  }

  /** No key occurs twice: true of the items of every dict. */
  ghost predicate UniqueKeys<K, V>(d: Items<K, V>)
  {
    forall i, j :: 0 <= i < j < |d| ==> d[i].0 != d[j].0
  }

  /** The mapping a list of pairs denotes when written into an empty dict in
      order: a later pair overrides an earlier one with the same key. */
  function ToMap<K, V>(d: Items<K, V>): (m: map<K, V>)
    ensures m.Keys == Keys(d)
  {
    if d == [] then map[]
    else
      var init := d[..|d| - 1];
      assert Keys(d) == Keys(init) + {d[|d| - 1].0} by {
        forall k | k in Keys(d) ensures k in Keys(init) + {d[|d| - 1].0} {
          var i :| 0 <= i < |d| && d[i].0 == k;
          if i < |d| - 1 { assert init[i].0 == k; }
        }
      }
      ToMap(init)[d[|d| - 1].0 := d[|d| - 1].1]
  }

  /** `d[k] = v`: an existing key keeps its position and takes the new value,
      a new key is appended. */
  function Put<K(==), V>(d: Items<K, V>, k: K, v: V): (r: Items<K, V>)
    ensures ToMap(r) == ToMap(d)[k := v]
    ensures Keys(r) == Keys(d) + {k}
    ensures k in Keys(d) ==> |r| == |d| && forall i :: 0 <= i < |d| ==> r[i].0 == d[i].0
    ensures k !in Keys(d) ==> r == d + [(k, v)]
    ensures UniqueKeys(d) ==> UniqueKeys(r)
  {
    if k in Keys(d) then
      var r := Overwrite(d, k, v);
      OverwriteToMap(d, k, v);
      assert Keys(r) == Keys(d) by {
        forall x | x in Keys(d) ensures x in Keys(r) {
          var i :| 0 <= i < |d| && d[i].0 == x;
          assert r[i].0 == x;
        }
      }
      r
    else
      var r := d + [(k, v)];
      assert ToMap(r) == ToMap(d)[k := v] by { assert r[..|r| - 1] == d; }
      r
  }

  /** Every pair with key `k` takes the value `v`. */
  function Overwrite<K(==), V>(d: Items<K, V>, k: K, v: V): (r: Items<K, V>)
    ensures |r| == |d|
    ensures forall i :: 0 <= i < |d| ==> r[i] == if d[i].0 == k then (k, v) else d[i]
  {
    seq(|d|, i requires 0 <= i < |d| => if d[i].0 == k then (k, v) else d[i])
  }

  /** Overwriting the value of key `k` changes the mapping at `k` only, and
      only if `k` is present. */
  lemma {:induction false} OverwriteToMap<K, V>(d: Items<K, V>, k: K, v: V)
    ensures ToMap(Overwrite(d, k, v)) == if k in Keys(d) then ToMap(d)[k := v] else ToMap(d)
  {
    if d != [] {
      var n := |d| - 1;
      var init := d[..n];
      assert Overwrite(d, k, v)[..n] == Overwrite(init, k, v);
      OverwriteToMap(init, k, v);
    }
  }

  /** Assigns each pair of `ps` into `d` in order: `d.update(ps)`, or, from
      an empty dict, a dict literal or a dict comprehension. */
  function PutAll<K(==), V>(d: Items<K, V>, ps: Items<K, V>): (r: Items<K, V>)
    ensures ToMap(r) == ToMap(d) + ToMap(ps)
    ensures Keys(r) == Keys(d) + Keys(ps)
    ensures UniqueKeys(d) ==> UniqueKeys(r)
  {
    if ps == [] then d
    else
      var init, last := ps[..|ps| - 1], ps[|ps| - 1];
      var r0 := PutAll(d, init);
      var r := Put(r0, last.0, last.1);
      UnionUpdate(ToMap(d), ToMap(init), last.0, last.1);
      r
  }

  /** Overriding with an updated map is updating the override. */
  lemma UnionUpdate<K, V>(a: map<K, V>, b: map<K, V>, k: K, v: V)
    ensures a + b[k := v] == (a + b)[k := v]
  {
  }

  /** Writing pairs whose keys are all new and distinct appends them in
      order: the item order of `base.update(extra)` when no key of `extra`
      is already in `base`. */
  lemma {:induction false} PutAllFresh<K, V>(d: Items<K, V>, ps: Items<K, V>)
    requires UniqueKeys(ps) && Keys(d) !! Keys(ps)
    ensures PutAll(d, ps) == d + ps
  {
    if ps != [] {
      var n := |ps| - 1;
      var init, last := ps[..n], ps[n];
      assert ps == init + [last];
      KeysAppend(init, [last]);
      assert UniqueKeys(init);
      PutAllFresh(d, init);
      assert last.0 !in Keys(init) by {
        forall i | 0 <= i < n ensures init[i].0 != last.0 {
          assert init[i] == ps[i];
        }
      }
      KeysAppend(d, init);
      assert d + init + [last] == d + ps;
    }
  }

  lemma KeysAppend<K, V>(a: Items<K, V>, b: Items<K, V>)
    ensures Keys(a + b) == Keys(a) + Keys(b)
  {
    forall k | k in Keys(a + b) ensures k in Keys(a) + Keys(b) {
      var i :| 0 <= i < |a + b| && (a + b)[i].0 == k;
      if i >= |a| { assert b[i - |a|].0 == k; }
    }
    forall k | k in Keys(a) + Keys(b) ensures k in Keys(a + b) {
      if k in Keys(a) {
        var i :| 0 <= i < |a| && a[i].0 == k;
        assert (a + b)[i].0 == k;
      } else {
        var i :| 0 <= i < |b| && b[i].0 == k;
        assert (a + b)[|a| + i].0 == k;
      }
    }
  }

  /** A dict literal or comprehension over a list of pairs. */
  function FromPairs<K(==), V>(ps: Items<K, V>): (r: Items<K, V>)
    ensures ToMap(r) == ToMap(ps)
    ensures Keys(r) == Keys(ps)
    ensures UniqueKeys(r)
    ensures UniqueKeys(ps) ==> r == ps
  {
    var r := PutAll([], ps);
    assert ToMap(r) == ToMap(ps) by { assert ToMap<K, V>([]) + ToMap(ps) == ToMap(ps); }
    PutAllEmpty(ps);
    r
  }

  lemma PutAllEmpty<K, V>(ps: Items<K, V>)
    ensures UniqueKeys(ps) ==> PutAll([], ps) == ps
  {
    if UniqueKeys(ps) { PutAllFresh([], ps); }
  }

  /** The pairs with key and value exchanged. */
  function Swap<K, V>(d: Items<K, V>): (r: Items<V, K>)
    ensures |r| == |d|
    ensures forall i :: 0 <= i < |d| ==> r[i] == (d[i].1, d[i].0)
  {
    seq(|d|, i requires 0 <= i < |d| => (d[i].1, d[i].0))
  }

  /** `{v: k for (k, v) in d.items()}`. */
  function Invert<K(==), V(==)>(d: Items<K, V>): (r: Items<V, K>)
    ensures UniqueKeys(r) && Keys(r) == Values(d)
  {
    var sw := Swap(d);
    assert Keys(sw) == Values(d) by {
      forall v | v in Values(d) ensures v in Keys(sw) {
        var i :| 0 <= i < |d| && d[i].1 == v;
        assert sw[i].0 == v;
      }
    }
    FromPairs(sw)
  }

  /** In a list of pairs, the pair at `j` decides the mapping of its key when
      no later pair has the same key. */
  lemma {:induction false} LookupLast<K, V>(ps: Items<K, V>, j: nat)
    requires j < |ps|
    requires forall i :: j < i < |ps| ==> ps[i].0 != ps[j].0
    ensures ps[j].0 in ToMap(ps) && ToMap(ps)[ps[j].0] == ps[j].1
  {
    var n := |ps| - 1;
    if j < n {
      assert ps[..n][j] == ps[j];
      LookupLast(ps[..n], j);
    }
  }

  /** Writing `a` and then `b` denotes the mapping of `a` overridden by `b`:
      a literal split into consecutive runs denotes their union in order. */
  lemma {:induction false} ToMapAppend<K, V>(a: Items<K, V>, b: Items<K, V>)
    ensures ToMap(a + b) == ToMap(a) + ToMap(b)
  {
    if b != [] {
      var n := |b| - 1;
      assert (a + b)[..|a + b| - 1] == a + b[..n];
      assert (a + b)[|a + b| - 1] == b[n];
      ToMapAppend(a, b[..n]);
      UnionUpdate(ToMap(a), ToMap(b[..n]), b[n].0, b[n].1);
    } else {
      assert a + b == a;
    }
  }

  /** In a list of pairs with unique keys every pair is in the mapping. */
  lemma LookupUnique<K, V>(d: Items<K, V>, i: nat)
    requires UniqueKeys(d) && i < |d|
    ensures d[i].0 in ToMap(d) && ToMap(d)[d[i].0] == d[i].1
  {
    LookupLast(d, i);
  }

  /** The values of the mapping of a list of pairs with unique keys are the
      values in the list. */
  lemma ValuesOfUnique<K, V>(d: Items<K, V>)
    requires UniqueKeys(d)
    ensures ToMap(d).Values == Values(d)
  {
    forall v | v in Values(d) ensures v in ToMap(d).Values {
      var i :| 0 <= i < |d| && d[i].1 == v;
      LookupUnique(d, i);
    }
    forall v | v in ToMap(d).Values ensures v in Values(d) {
      var k :| k in ToMap(d) && ToMap(d)[k] == v;
      var i :| 0 <= i < |d| && d[i].0 == k;
      LookupUnique(d, i);
    }
  }

  /** The index of the last pair whose value is `v`. */
  function LastWithValue<K, V(==)>(d: Items<K, V>, v: V): (j: nat)
    requires v in Values(d)
    ensures j < |d| && d[j].1 == v
    ensures forall i :: j < i < |d| ==> d[i].1 != v
  {
    var n := |d| - 1;
    if d[n].1 == v then n
    else
      assert v in Values(d[..n]) by {
        var i :| 0 <= i < |d| && d[i].1 == v;
        assert d[..n][i].1 == v;
      }
      LastWithValue(d[..n], v)
  }

  /** Inverting a dict: its keys are exactly the values of the dict, each
      maps back to a key that has that value, and the key chosen is the last
      one in iteration order (last write wins). */
  lemma Inversion<K, V>(d: Items<K, V>)
    requires UniqueKeys(d)
    ensures ToMap(Invert(d)).Keys == ToMap(d).Values
    ensures forall v :: v in ToMap(Invert(d)) ==>
              var j := LastWithValue(d, v); ToMap(Invert(d))[v] == d[j].0
    ensures forall v :: v in ToMap(Invert(d)) ==>
              ToMap(Invert(d))[v] in ToMap(d) && ToMap(d)[ToMap(Invert(d))[v]] == v
  {
    var inv := ToMap(Invert(d));
    InvertedKeys(d);
    forall v | v in inv
      ensures var j := LastWithValue(d, v); inv[v] == d[j].0
      ensures inv[v] in ToMap(d) && ToMap(d)[inv[v]] == v
    {
      InvertedEntry(d, v);
    }
  }

  /** The keys of an inverted dict are the values of the dict. */
  lemma InvertedKeys<K, V>(d: Items<K, V>)
    requires UniqueKeys(d)
    ensures ToMap(Invert(d)).Keys == ToMap(d).Values
  {
    ValuesOfUnique(d);
  }

  /** One entry of an inverted dict. */
  lemma InvertedEntry<K, V>(d: Items<K, V>, v: V)
    requires UniqueKeys(d) && v in Values(d)
    ensures var j := LastWithValue(d, v);
      && v in ToMap(Invert(d)) && ToMap(Invert(d))[v] == d[j].0
      && d[j].0 in ToMap(d) && ToMap(d)[d[j].0] == v
  {
    var j := LastWithValue(d, v);
    LookupLast(Swap(d), j);
    LookupUnique(d, j);
  }
  /** Every value of a map union is a value of one of its two sides. */
  lemma UnionValues<K, V>(a: map<K, V>, b: map<K, V>)
    ensures (a + b).Values <= a.Values + b.Values
  {
    forall v | v in (a + b).Values ensures v in a.Values || v in b.Values {
      var x :| x in a + b && (a + b)[x] == v;
      if x in b { assert b[x] == v; } else { assert a[x] == v; }
    }
  }
}
