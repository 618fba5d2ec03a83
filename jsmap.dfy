/** A JavaScript `Map` (or a plain object used as a record) with string
    keys: keys enumerate in insertion order, and setting an existing key
    replaces its value without moving it. */
module JsMap {
  import Uniq
  import Seqs

  datatype OrderedMap<V> = OrderedMap(keys: seq<string>, values: map<string, V>) {

    /** Keys are distinct and are exactly the keys that hold a value. */
    ghost predicate Valid() {
      && (forall i, j :: 0 <= i < j < |keys| ==> keys[i] != keys[j])
      && (forall k :: k in values <==> k in keys)
    }

    /** `m.set(k, v)`, or `obj[k] = v`. */
    function Set(k: string, v: V): (r: OrderedMap<V>)
      ensures Valid() ==> r.Valid()
      ensures k in r.values && r.values[k] == v
      ensures forall k' :: k' != k ==> (k' in r.values <==> k' in values)
      ensures forall k' :: k' != k && k' in values ==> r.values[k'] == values[k']
      ensures Valid() && k in values ==> r.keys == keys
      ensures Valid() && k !in values ==> r.keys == keys + [k]
    {
      OrderedMap(if k in values then keys else keys + [k], values[k := v])
    }

    /** Setting a key twice leaves the second value, in the first one's
        place. */
    lemma SetTwice(k: string, v: V, w: V)
      ensures Set(k, v).Set(k, w) == Set(k, w)
    {
      assert values[k := v][k := w] == values[k := w];
    }

    /** `Array.from(m.values())`. */
    function Values(): (vs: seq<V>)
      requires Valid()
      ensures |vs| == |keys|
      ensures forall i :: 0 <= i < |keys| ==> keys[i] in values && vs[i] == values[keys[i]]
    {
      ValuesOfAll(keys, values);
      ValuesOf(keys, values)
    }
  }

  /** The values stored under `ks`, in the order of `ks`; a key without a
      value contributes nothing. */
  function ValuesOf<V>(ks: seq<string>, values: map<string, V>): (vs: seq<V>)
    ensures |vs| <= |ks|
  {
    if ks == [] then []
    else ValuesOf(ks[..|ks| - 1], values) + (if ks[|ks| - 1] in values then [values[ks[|ks| - 1]]] else [])
  }

  lemma {:induction false} ValuesOfAll<V>(ks: seq<string>, values: map<string, V>)
    requires forall k :: k in ks ==> k in values
    ensures |ValuesOf(ks, values)| == |ks|
    ensures forall i :: 0 <= i < |ks| ==> ks[i] in values && ValuesOf(ks, values)[i] == values[ks[i]]
  {
    if ks != [] {
      var n := |ks| - 1;
      assert forall k :: k in ks[..n] ==> k in ks;
      ValuesOfAll(ks[..n], values);
      assert ks[n] in ks;
      forall i | 0 <= i < n ensures ks[i] in values && ValuesOf(ks, values)[i] == values[ks[i]] {
        assert ks[..n][i] == ks[i];
      }
    }
  }

  /** `Array.from(m.values()).map(f)` holds the image of every value of
      `m`, and nothing else. */
  lemma MapValuesMembers<V, W>(m: OrderedMap<V>, f: V -> W)
    requires m.Valid()
    ensures var r := Seqs.Map(m.Values(), f);
      && (forall k :: k in m.values ==> f(m.values[k]) in r)
      && (forall y :: y in r ==> exists k :: k in m.values && y == f(m.values[k]))
  {
    var vs := m.Values();
    var r := Seqs.Map(vs, f);
    forall k | k in m.values ensures f(m.values[k]) in r {
      var i :| 0 <= i < |m.keys| && m.keys[i] == k;
      assert r[i] == f(vs[i]);
    }
    forall y | y in r ensures exists k :: k in m.values && y == f(m.values[k]) {
      var i :| 0 <= i < |r| && r[i] == y;
      assert y == f(vs[i]) && vs[i] == m.values[m.keys[i]];
    }
  }

  function Empty<V>(): (m: OrderedMap<V>)
    ensures m.Valid() && m.keys == [] && m.values == map[]
  {
    OrderedMap([], map[])
  }

  /** `m.set(key(x), val(x))` for every `x` of `s` in order, starting from an
      empty map. */
  function SetAll<T, V>(s: seq<T>, key: T -> string, val: T -> V): (m: OrderedMap<V>)
    ensures m.Valid()
  {
    if s == [] then Empty()
    else SetAll(s[..|s| - 1], key, val).Set(key(s[|s| - 1]), val(s[|s| - 1]))
  }

  lemma SetAllStep<T, V>(s: seq<T>, key: T -> string, val: T -> V, j: nat)
    requires j < |s|
    ensures SetAll(s[..j + 1], key, val) == SetAll(s[..j], key, val).Set(key(s[j]), val(s[j]))
  {
    assert s[..j + 1][..j] == s[..j];
  }

  /** The value kept for a key is the one set last. */
  lemma {:induction false} SetAllLastWins<T, V>(s: seq<T>, key: T -> string, val: T -> V, i: nat)
    requires i < |s|
    requires forall j :: i < j < |s| ==> key(s[j]) != key(s[i])
    ensures var m := SetAll(s, key, val);
      key(s[i]) in m.values && m.values[key(s[i])] == val(s[i])
  {
    var n := |s| - 1;
    var prev := SetAll(s[..n], key, val);
    assert SetAll(s, key, val) == prev.Set(key(s[n]), val(s[n]));
    if i < n {
      var init := s[..n];
      assert init[i] == s[i];
      forall j | i < j < n ensures key(init[j]) != key(init[i]) {
        assert init[j] == s[j];
      }
      SetAllLastWins(init, key, val, i);
      assert key(s[n]) != key(s[i]);
    }
  }

  /** Keys enumerate in the order of their first `set`, each once. */
  lemma {:induction false} SetAllKeys<T, V>(s: seq<T>, key: T -> string, val: T -> V)
    ensures SetAll(s, key, val).keys == Uniq.KeysInOrder(s, key)
  {
    if s != [] {
      var n := |s| - 1;
      SetAllKeys(s[..n], key, val);
      Uniq.KeysInOrderStep(s, key, n);
      assert s[..n + 1] == s;
    }
  }

  /** Every value of the map was set for its key by some element of `s`. */
  lemma {:induction false} SetAllOrigin<T, V>(s: seq<T>, key: T -> string, val: T -> V, k: string)
    requires k in SetAll(s, key, val).values
    ensures exists i :: 0 <= i < |s| && key(s[i]) == k && SetAll(s, key, val).values[k] == val(s[i])
  {
    var n := |s| - 1;
    if key(s[n]) != k {
      SetAllOrigin(s[..n], key, val, k);
      var i :| 0 <= i < n && key(s[..n][i]) == k && SetAll(s[..n], key, val).values[k] == val(s[..n][i]);
      assert s[..n][i] == s[i];
    }
  }
}
