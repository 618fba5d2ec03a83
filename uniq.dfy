/** Deduplication through a JavaScript `Map`: `uniq.set(key(x), x)` for
    every `x` in arrival order, then `Array.from(uniq.values())`. A key
    keeps the place of its first `set`; its value is the last one set. */
module Uniq {

  /** The distinct keys of `s` in order of first occurrence. */
  function KeysInOrder<T>(s: seq<T>, key: T -> string): (ks: seq<string>)
    ensures forall i, j :: 0 <= i < j < |ks| ==> ks[i] != ks[j]
    ensures forall k :: k in ks <==> exists i :: 0 <= i < |s| && key(s[i]) == k
  {
    if s == [] then []
    else
      var init := s[..|s| - 1];
      var ks := KeysInOrder(init, key);
      assert forall i :: 0 <= i < |init| ==> init[i] == s[i];
      if key(s[|s| - 1]) in ks then ks else ks + [key(s[|s| - 1])]
  }

  /** The last element of `s` whose key is `k`. */
  function LastWithKey<T>(s: seq<T>, key: T -> string, k: string): (x: T)
    requires exists i :: 0 <= i < |s| && key(s[i]) == k
    ensures key(x) == k
    ensures exists i :: 0 <= i < |s| && s[i] == x && forall j :: i < j < |s| ==> key(s[j]) != k
  {
    var n := |s| - 1;
    if key(s[n]) == k then s[n]
    else
      assert exists i :: 0 <= i < n && key(s[..n][i]) == k by {
        var i :| 0 <= i < |s| && key(s[i]) == k;
        assert s[..n][i] == s[i];
      }
      assert forall i :: 0 <= i < n ==> s[..n][i] == s[i];
      LastWithKey(s[..n], key, k)
  }

  /** `Array.from(uniq.values())`: one element per key, in first-occurrence
      order of the keys, each the last element carrying that key. */
  function DedupLast<T>(s: seq<T>, key: T -> string): (r: seq<T>)
    ensures |r| == |KeysInOrder(s, key)|
    ensures forall i :: 0 <= i < |r| ==> key(r[i]) == KeysInOrder(s, key)[i]
  {
    var ks := KeysInOrder(s, key);
    assert forall i :: 0 <= i < |ks| ==> ks[i] in ks;
    seq(|ks|, i requires 0 <= i < |ks| => LastWithKey(s, key, ks[i]))
  }

  /** After deduplication no two elements share a key, every key of the
      input is still there, and the element kept for a key is the last one
      of the input with that key. */
  lemma DedupLastSpec<T>(s: seq<T>, key: T -> string)
    ensures var r := DedupLast(s, key);
      && (forall i, j :: 0 <= i < j < |r| ==> key(r[i]) != key(r[j]))
      && (forall i :: 0 <= i < |s| ==> exists j :: 0 <= j < |r| && key(r[j]) == key(s[i]))
      && (forall j :: 0 <= j < |r| ==> r[j] in s && r[j] == LastWithKey(s, key, key(r[j])))
  {
    var r, ks := DedupLast(s, key), KeysInOrder(s, key);
    forall i | 0 <= i < |s| ensures exists j :: 0 <= j < |r| && key(r[j]) == key(s[i]) {
      assert key(s[i]) in ks;
      var j :| 0 <= j < |ks| && ks[j] == key(s[i]);
      assert key(r[j]) == key(s[i]);
    }
  }

  lemma KeysInOrderStep<T>(s: seq<T>, key: T -> string, j: nat)
    requires j < |s|
    ensures KeysInOrder(s[..j + 1], key)
         == if key(s[j]) in KeysInOrder(s[..j], key) then KeysInOrder(s[..j], key)
            else KeysInOrder(s[..j], key) + [key(s[j])]
  {
    assert s[..j + 1][..j] == s[..j];
  }

  lemma LastWithKeyStep<T>(s: seq<T>, key: T -> string, j: nat, k: string)
    requires j < |s| && (key(s[j]) == k || k in KeysInOrder(s[..j], key))
    ensures k in KeysInOrder(s[..j + 1], key)
    ensures LastWithKey(s[..j + 1], key, k)
         == if key(s[j]) == k then s[j] else LastWithKey(s[..j], key, k)
  {
    assert s[..j + 1][..j] == s[..j];
    assert s[..j + 1][j] == s[j];
    if key(s[j]) != k {
      var i :| 0 <= i < j && key(s[..j][i]) == k;
      assert s[..j + 1][i] == s[..j][i];
    }
  }

  /** What the map holds after the first `j` calls of `uniq.set`. */
  ghost predicate Holds<T>(s: seq<T>, key: T -> string, j: nat, uniq: map<string, T>, order: seq<string>)
    requires j <= |s|
  {
    && order == KeysInOrder(s[..j], key)
    && (forall k :: k in uniq <==> k in order)
    && (forall k :: k in uniq ==> uniq[k] == LastWithKey(s[..j], key, k))
  }

  lemma SetStep<T>(s: seq<T>, key: T -> string, j: nat, uniq: map<string, T>, order: seq<string>)
    requires j < |s| && Holds(s, key, j, uniq, order)
    ensures var k := key(s[j]);
      Holds(s, key, j + 1, uniq[k := s[j]], if k in uniq then order else order + [k])
  {
    var k := key(s[j]);
    KeysInOrderStep(s, key, j);
    forall k' | k' in uniq || k' == k
      ensures LastWithKey(s[..j + 1], key, k') == if k' == k then s[j] else uniq[k']
    {
      LastWithKeyStep(s, key, j, k');
    }
  }

  lemma CopyOut<T>(s: seq<T>, key: T -> string, uniq: map<string, T>, order: seq<string>)
    requires Holds(s, key, |s|, uniq, order)
    ensures forall i :: 0 <= i < |order| ==> order[i] in uniq
    ensures seq(|order|, i requires 0 <= i < |order| && order[i] in uniq => uniq[order[i]]) == DedupLast(s, key)
  {
    assert s[..|s|] == s;
    assert forall i :: 0 <= i < |order| ==> order[i] in order;
  }

  /** The loop over `uniq.set` and the copy out of the map. */
  method DedupByKey<T>(s: seq<T>, key: T -> string) returns (r: seq<T>)
    ensures r == DedupLast(s, key)
  {
    var uniq: map<string, T> := map[];
    var order: seq<string> := [];
    for j := 0 to |s|
      invariant Holds(s, key, j, uniq, order)
    {
      var k := key(s[j]);
      SetStep(s, key, j, uniq, order);
      if k !in uniq {
        order := order + [k];
      }
      uniq := uniq[k := s[j]];
    }
    CopyOut(s, key, uniq, order);
    r := seq(|order|, i requires 0 <= i < |order| && order[i] in uniq => uniq[order[i]]);
  }
}
