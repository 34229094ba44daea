/**
 * Plain JavaScript objects as the plugin uses them: their own enumerable
 * properties in enumeration order (what `Object.entries` yields), property
 * assignment, and object spread `{...a, ...b}`.
 */
module OrderedObjects {

  /** An object as its (key, value) entries in enumeration order. */
  type Entries<V> = seq<(string, V)>

  /** No key occurs twice, as in every entry list `Object.entries` returns. */
  ghost predicate DistinctKeys<V>(m: Entries<V>) {
    forall i, j :: 0 <= i < j < |m| ==> m[i].0 != m[j].0
  }

  /** The keys of the object (`Object.keys`, as a set). */
  function KeySet<V>(m: Entries<V>): set<string> {
    set i | 0 <= i < |m| :: m[i].0
  }

  /** The object seen as a map from keys to values; for a repeated key the later entry wins. */
  function ToMap<V>(m: Entries<V>): map<string, V> {
    if m == [] then map[] else map[m[0].0 := m[0].1] + ToMap(m[1..])
  }

  /** The map view has exactly the object's keys. */
  lemma {:induction false} ToMapKeys<V>(m: Entries<V>)
    ensures ToMap(m).Keys == KeySet(m)
  {
    if m != [] {
      ToMapKeys(m[1..]);
      KeySetCons(m);
    }
  }

  /** With distinct keys, the map view gives each entry's own value. */
  lemma {:induction false} ToMapAt<V>(m: Entries<V>, i: nat)
    requires DistinctKeys(m) && i < |m|
    ensures m[i].0 in ToMap(m) && ToMap(m)[m[i].0] == m[i].1
  {
    DistinctCons(m);
    if i > 0 {
      assert m[1..][i - 1] == m[i];
      ToMapAt(m[1..], i - 1);
      assert m[0].0 != m[i].0;
    } else {
      ToMapKeys(m[1..]);
    }
  }

  /**
   * Assignment `obj[k] = v`: a key already present keeps its position and
   * takes the new value; a new key is enumerated last.
   */
  function Put<V>(m: Entries<V>, k: string, v: V): Entries<V> {
    if m == [] then [(k, v)]
    else if m[0].0 == k then [(k, v)] + m[1..]
    else [m[0]] + Put(m[1..], k, v)
  }

  /** Assigning a new key appends it. */
  lemma {:induction false} PutNew<V>(m: Entries<V>, k: string, v: V)
    requires k !in KeySet(m)
    ensures Put(m, k, v) == m + [(k, v)]
  {
    if m != [] {
      assert m[0].0 in KeySet(m);
      assert KeySet(m[1..]) <= KeySet(m) by {
        forall x | x in KeySet(m[1..]) ensures x in KeySet(m) {
          var j :| 0 <= j < |m[1..]| && m[1..][j].0 == x;
          assert m[j + 1].0 == x;
        }
      }
      PutNew(m[1..], k, v);
      assert [m[0]] + (m[1..] + [(k, v)]) == m + [(k, v)];
    }
  }

  /** Assigning keeps the enumeration order of the keys already present. */
  lemma {:induction false} PutKeys<V>(m: Entries<V>, k: string, v: V)
    ensures |Put(m, k, v)| >= |m|
    ensures forall i :: 0 <= i < |m| ==> Put(m, k, v)[i].0 == m[i].0
    ensures KeySet(Put(m, k, v)) == KeySet(m) + {k}
  {
    var r := Put(m, k, v);
    if m == [] {
      assert r == [(k, v)];
      KeySetCons(r);
    } else if m[0].0 != k {
      var t := Put(m[1..], k, v);
      PutKeys(m[1..], k, v);
      assert r == [m[0]] + t;
      forall i | 0 <= i < |m| ensures r[i].0 == m[i].0 {
        if i > 0 { assert r[i] == t[i - 1] && m[i] == m[1..][i - 1]; }
      }
      assert r[1..] == t;
      KeySetCons(r);
      KeySetCons(m);
    } else {
      assert r == [(k, v)] + m[1..];
      assert r[1..] == m[1..];
      KeySetCons(r);
      KeySetCons(m);
    }
  }

  /** The keys of a non-empty object are its first key and the keys of the rest. */
  lemma KeySetCons<V>(m: Entries<V>)
    requires m != []
    ensures KeySet(m) == {m[0].0} + KeySet(m[1..])
  {
  }

  /** Keys are distinct exactly when the first key is not among the others and the rest are distinct. */
  lemma DistinctCons<V>(m: Entries<V>)
    requires m != []
    ensures DistinctKeys(m) <==> m[0].0 !in KeySet(m[1..]) && DistinctKeys(m[1..])
  {
  }

  /** Assignment keeps keys distinct. */
  lemma {:induction false} PutDistinct<V>(m: Entries<V>, k: string, v: V)
    requires DistinctKeys(m)
    ensures DistinctKeys(Put(m, k, v))
  {
    var r := Put(m, k, v);
    if m == [] {
      assert r == [(k, v)];
    } else if m[0].0 == k {
      assert r[1..] == m[1..];
      DistinctCons(m);
      DistinctCons(r);
    } else {
      var t := Put(m[1..], k, v);
      DistinctCons(m);
      PutDistinct(m[1..], k, v);
      PutKeys(m[1..], k, v);
      assert r == [m[0]] + t;
      assert r[1..] == t;
      DistinctCons(r);
    }
  }

  /** Assignment updates the map view at `k` and nowhere else. */
  lemma {:induction false} PutToMap<V>(m: Entries<V>, k: string, v: V)
    requires DistinctKeys(m)
    ensures ToMap(Put(m, k, v)) == ToMap(m)[k := v]
  {
    var r := Put(m, k, v);
    if m == [] {
      assert r == [(k, v)];
      assert r[1..] == [];
    } else if m[0].0 == k {
      assert r == [(k, v)] + m[1..];
      assert r[1..] == m[1..];
      DistinctCons(m);
      ToMapKeys(m[1..]);
      OverwriteFirst(k, v, m[0].1, ToMap(m[1..]));
    } else {
      var t := Put(m[1..], k, v);
      DistinctCons(m);
      PutToMap(m[1..], k, v);
      assert r == [m[0]] + t;
      assert r[1..] == t;
      OverwriteLater(m[0].0, m[0].1, k, v, ToMap(m[1..]));
    }
  }

  lemma OverwriteFirst<V>(k: string, v: V, w: V, tail: map<string, V>)
    requires k !in tail
    ensures map[k := v] + tail == (map[k := w] + tail)[k := v]
  {
  }

  lemma OverwriteLater<V>(a: string, x: V, k: string, v: V, tail: map<string, V>)
    requires a != k
    ensures map[a := x] + tail[k := v] == (map[a := x] + tail)[k := v]
  {
  }

  lemma AssignThenUnion<V>(k: string, v: V, acc: map<string, V>, rest: map<string, V>)
    ensures acc[k := v] + rest == acc + (map[k := v] + rest)
  {
  }

  /**
   * Object spread `{...acc, ...src}`: the entries of `src` assigned onto
   * `acc` from left to right.
   */
  function Spread<V>(acc: Entries<V>, src: Entries<V>): Entries<V>
    decreases |src|
  {
    if src == [] then acc else Spread(Put(acc, src[0].0, src[0].1), src[1..])
  }

  /** Spreading keeps the keys of `acc` first, in their order, and adds the keys of `src`. */
  lemma {:induction false} SpreadKeys<V>(acc: Entries<V>, src: Entries<V>)
    ensures |Spread(acc, src)| >= |acc|
    ensures forall i :: 0 <= i < |acc| ==> Spread(acc, src)[i].0 == acc[i].0
    ensures KeySet(Spread(acc, src)) == KeySet(acc) + KeySet(src)
    decreases |src|
  {
    if src != [] {
      var p := Put(acc, src[0].0, src[0].1);
      PutKeys(acc, src[0].0, src[0].1);
      SpreadKeys(p, src[1..]);
      KeySetCons(src);
    }
  }

  /** Spreading keeps keys distinct, and its map view is the right-biased union: values of `src` win. */
  lemma {:induction false} SpreadMap<V>(acc: Entries<V>, src: Entries<V>)
    requires DistinctKeys(acc)
    ensures DistinctKeys(Spread(acc, src))
    ensures ToMap(Spread(acc, src)) == ToMap(acc) + ToMap(src)
    decreases |src|
  {
    if src != [] {
      var p := Put(acc, src[0].0, src[0].1);
      PutDistinct(acc, src[0].0, src[0].1);
      PutToMap(acc, src[0].0, src[0].1);
      SpreadMap(p, src[1..]);
      AssignThenUnion(src[0].0, src[0].1, ToMap(acc), ToMap(src[1..]));
    } else {
      assert ToMap(src) == map[];
      assert ToMap(acc) + map[] == ToMap(acc);
    }
  }

  /** Spreading entries whose keys are all new just appends them, in order. */
  lemma {:induction false} SpreadDisjoint<V>(acc: Entries<V>, src: Entries<V>)
    requires DistinctKeys(acc + src)
    ensures Spread(acc, src) == acc + src
    decreases |src|
  {
    if src == [] {
      assert acc + src == acc;
    } else {
      var k := src[0].0;
      assert k !in KeySet(acc) by {
        forall i | 0 <= i < |acc| ensures acc[i].0 != k {
          assert (acc + src)[i] == acc[i] && (acc + src)[|acc|] == src[0];
        }
      }
      PutNew(acc, k, src[0].1);
      assert (acc + [src[0]]) + src[1..] == acc + src;
      SpreadDisjoint(acc + [src[0]], src[1..]);
    }
  }
}
