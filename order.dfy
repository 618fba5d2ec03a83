/** The string order used by every sort in the catalog code, and the sort
    itself.

    `localeCompare` is a locale collation; the model uses plain
    lexicographic order on code points, which is a total order (proved
    below). `Array.prototype.sort` is stable; the model sorts by stable
    insertion, and `StableSortUnique` shows that any stable sort by the same
    order produces the very same sequence, so nothing depends on the choice
    of algorithm. */
module Order {

  /** Strict lexicographic order on strings. */
  predicate Less(a: string, b: string) {
    if a == [] then b != []
    else if b == [] then false
    else a[0] < b[0] || (a[0] == b[0] && Less(a[1..], b[1..]))
  }

  /** `a` sorts no later than `b`. */
  predicate Le(a: string, b: string) {
    !Less(b, a)
  }

  lemma {:induction false} LessIrreflexive(a: string)
    ensures !Less(a, a)
  {
    if a != [] {
      LessIrreflexive(a[1..]);
    }
  }

  lemma {:induction false} LessAsymmetric(a: string, b: string)
    ensures !(Less(a, b) && Less(b, a))
  {
    if a != [] && b != [] && a[0] == b[0] {
      LessAsymmetric(a[1..], b[1..]);
    }
  }

  lemma {:induction false} LessTransitive(a: string, b: string, c: string)
    requires Less(a, b) && Less(b, c)
    ensures Less(a, c)
  {
    if a != [] && a[0] == b[0] && b[0] == c[0] {
      LessTransitive(a[1..], b[1..], c[1..]);
    }
  }

  /** Any two distinct strings are ordered one way or the other. */
  lemma {:induction false} LessTotal(a: string, b: string)
    ensures a == b || Less(a, b) || Less(b, a)
  {
    if a != [] && b != [] && a[0] == b[0] {
      LessTotal(a[1..], b[1..]);
      if a[1..] == b[1..] {
        assert a == [a[0]] + a[1..] && b == [b[0]] + b[1..];
      }
    }
  }

  lemma LeTransitive(a: string, b: string, c: string)
    requires Le(a, b) && Le(b, c)
    ensures Le(a, c)
  {
    if Less(c, a) {
      LessTotal(a, b);
      LessTotal(b, c);
      if a == b {
      } else if b == c {
      } else {
        LessTransitive(c, a, b);
      }
    }
  }

  lemma LeAntisymmetric(a: string, b: string)
    requires Le(a, b) && Le(b, a)
    ensures a == b
  {
    LessTotal(a, b);
  }

  /** Ascending by `key`: no element is preceded by one with a larger key. */
  predicate SortedBy<T>(s: seq<T>, key: T -> string) {
    forall i, j :: 0 <= i < j < |s| ==> Le(key(s[i]), key(s[j]))
  }

  /** Inserts `x` after every element whose key is not larger than its own,
      which keeps equal keys in arrival order. */
  function Insert<T>(x: T, s: seq<T>, key: T -> string): (r: seq<T>)
    ensures |r| == |s| + 1
    ensures multiset(r) == multiset(s) + multiset{x}
    ensures SortedBy(s, key) ==> SortedBy(r, key)
  {
    if s == [] then [x]
    else if Less(key(x), key(s[0])) then
      var r := [x] + s;
      assert SortedBy(s, key) ==> SortedBy(r, key) by {
        if SortedBy(s, key) {
          forall j | 1 <= j < |r| ensures Le(key(x), key(r[j])) {
            LessAsymmetric(key(x), key(s[0]));
            if j > 1 {
              LeTransitive(key(x), key(s[0]), key(s[j - 1]));
            }
          }
        }
      }
      r
    else
      var t := Insert(x, s[1..], key);
      var r := [s[0]] + t;
      assert s == [s[0]] + s[1..];
      assert SortedBy(s, key) ==> SortedBy(r, key) by {
        if SortedBy(s, key) {
          forall j | 0 <= j < |t| ensures Le(key(s[0]), key(t[j])) {
            assert t[j] in multiset(t);
            if t[j] != x {
              assert t[j] in s[1..];
              var i :| 0 <= i < |s[1..]| && s[1..][i] == t[j];
              assert s[i + 1] == t[j];
            }
          }
        }
      }
      r
  }

  /** The stable sort the handlers call `sort` with: sorted and a
      permutation of its input. */
  function SortBy<T>(s: seq<T>, key: T -> string): (r: seq<T>)
    ensures |r| == |s|
    ensures multiset(r) == multiset(s)
    ensures SortedBy(r, key)
  {
    if s == [] then []
    else
      assert s == s[..|s| - 1] + [s[|s| - 1]];
      Insert(s[|s| - 1], SortBy(s[..|s| - 1], key), key)
  }

  /** The elements of `s` whose key is `k`, in order. */
  function WithKey<T>(s: seq<T>, key: T -> string, k: string): (r: seq<T>)
    ensures |r| <= |s|
    ensures forall x :: x in r ==> x in s && key(x) == k
  {
    if s == [] then []
    else (if key(s[0]) == k then [s[0]] else []) + WithKey(s[1..], key, k)
  }

  lemma {:induction false} WithKeyAppend<T>(a: seq<T>, b: seq<T>, key: T -> string, k: string)
    ensures WithKey(a + b, key, k) == WithKey(a, key, k) + WithKey(b, key, k)
  {
    if a == [] {
      assert a + b == b;
    } else {
      var head := if key(a[0]) == k then [a[0]] else [];
      assert (a + b)[0] == a[0];
      assert (a + b)[1..] == a[1..] + b;
      WithKeyAppend(a[1..], b, key, k);
      calc {
        WithKey(a + b, key, k);
        head + WithKey(a[1..] + b, key, k);
        head + (WithKey(a[1..], key, k) + WithKey(b, key, k));
        (head + WithKey(a[1..], key, k)) + WithKey(b, key, k);
        WithKey(a, key, k) + WithKey(b, key, k);
      }
    }
  }

  lemma {:induction false} WithKeyAbsent<T>(s: seq<T>, key: T -> string, k: string)
    requires forall i :: 0 <= i < |s| ==> key(s[i]) != k
    ensures WithKey(s, key, k) == []
  {
    if s != [] {
      WithKeyAbsent(s[1..], key, k);
    }
  }

  /** No element of a sorted sequence has a key below that of its head. */
  lemma SortedAbove<T>(x: T, s: seq<T>, key: T -> string)
    requires SortedBy(s, key) && s != [] && Less(key(x), key(s[0]))
    ensures WithKey(s, key, key(x)) == []
  {
    forall i | 0 <= i < |s| ensures key(s[i]) != key(x) {
      if i == 0 {
        LessIrreflexive(key(x));
      } else {
        assert Le(key(s[0]), key(s[i]));
      }
    }
    WithKeyAbsent(s, key, key(x));
  }

  lemma {:induction false} InsertWithKey<T>(x: T, s: seq<T>, key: T -> string, k: string)
    requires SortedBy(s, key)
    ensures WithKey(Insert(x, s, key), key, k)
         == WithKey(s, key, k) + (if key(x) == k then [x] else [])
    decreases |s|
  {
    if s == [] {
      assert Insert(x, s, key) == [x];
    } else if Less(key(x), key(s[0])) {
      InsertFrontWithKey(x, s, key, k);
    } else {
      var t := Insert(x, s[1..], key);
      InsertSkip(x, s, key);
      SortedTail(s, key);
      InsertWithKey(x, s[1..], key, k);
      WithKeyCons(s[0], t, s[1..], key, k, if key(x) == k then [x] else []);
      assert [s[0]] + s[1..] == s;
    }
  }

  /** Putting the same head in front of two sequences keeps a relation
      between their elements of key `k`. */
  lemma WithKeyCons<T>(h: T, t: seq<T>, u: seq<T>, key: T -> string, k: string, extra: seq<T>)
    requires WithKey(t, key, k) == WithKey(u, key, k) + extra
    ensures WithKey([h] + t, key, k) == WithKey([h] + u, key, k) + extra
  {
    var head := if key(h) == k then [h] else [];
    assert ([h] + t)[0] == h && ([h] + t)[1..] == t;
    assert ([h] + u)[0] == h && ([h] + u)[1..] == u;
    var b := WithKey(u, key, k);
    assert head + (b + extra) == (head + b) + extra;
  }

  /** `x` goes behind a head whose key is not larger. */
  lemma InsertSkip<T>(x: T, s: seq<T>, key: T -> string)
    requires s != [] && !Less(key(x), key(s[0]))
    ensures Insert(x, s, key) == [s[0]] + Insert(x, s[1..], key)
  {
  }

  lemma InsertFrontWithKey<T>(x: T, s: seq<T>, key: T -> string, k: string)
    requires SortedBy(s, key) && s != [] && Less(key(x), key(s[0]))
    ensures WithKey([x] + s, key, k)
         == WithKey(s, key, k) + (if key(x) == k then [x] else [])
  {
    if key(x) == k {
      SortedAbove(x, s, key);
    }
    WithKeyAppend([x], s, key, k);
  }

  /** Stability: sorting keeps the elements of each key in arrival order. */
  lemma {:induction false} SortByWithKey<T>(s: seq<T>, key: T -> string, k: string)
    ensures WithKey(SortBy(s, key), key, k) == WithKey(s, key, k)
  {
    if s != [] {
      var init, last := s[..|s| - 1], s[|s| - 1];
      var sorted := SortBy(init, key);
      var tail := if key(last) == k then [last] else [];
      calc {
        WithKey(SortBy(s, key), key, k);
        WithKey(Insert(last, sorted, key), key, k);
        { InsertWithKey(last, sorted, key, k); }
        WithKey(sorted, key, k) + tail;
        { SortByWithKey(init, key, k); }
        WithKey(init, key, k) + tail;
        { assert WithKey([last], key, k) == tail + WithKey([], key, k);
          WithKeyAppend(init, [last], key, k); }
        WithKey(init + [last], key, k);
        { assert s == init + [last]; }
        WithKey(s, key, k);
      }
    }
  }

  lemma NonEmptyHasKey<T>(s: seq<T>, key: T -> string)
    requires s != []
    ensures WithKey(s, key, key(s[0])) != []
  {
  }

  /** The first key of a sorted `b` is no larger than that of any sequence
      with the same per-key subsequences. */
  lemma FirstWithKeyBound<T>(a: seq<T>, b: seq<T>, key: T -> string)
    requires SortedBy(b, key) && a != [] && b != []
    requires forall k :: WithKey(a, key, k) == WithKey(b, key, k)
    ensures Le(key(b[0]), key(a[0]))
  {
    var ka := key(a[0]);
    assert WithKey(a, key, ka) != [];
    var w := WithKey(b, key, ka);
    assert w[0] in w;
    var ib :| 0 <= ib < |b| && b[ib] == w[0];
    if ib > 0 {
      assert Le(key(b[0]), key(b[ib]));
    } else {
      LessIrreflexive(ka);
    }
  }

  lemma SortedTail<T>(s: seq<T>, key: T -> string)
    requires SortedBy(s, key) && s != []
    ensures SortedBy(s[1..], key)
  {
  }

  /** A sorted sequence is determined by its per-key subsequences: any stable
      sort by `key` returns `SortBy(s, key)`. */
  lemma {:induction false} StableSortUnique<T>(a: seq<T>, b: seq<T>, key: T -> string)
    requires SortedBy(a, key) && SortedBy(b, key)
    requires forall k :: WithKey(a, key, k) == WithKey(b, key, k)
    ensures a == b
    decreases |a|
  {
    if a != [] {
      NonEmptyHasKey(a, key);
    }
    if b != [] {
      NonEmptyHasKey(b, key);
    }
    if a != [] {
      var ka, kb := key(a[0]), key(b[0]);
      FirstWithKeyBound(a, b, key);
      FirstWithKeyBound(b, a, key);
      LeAntisymmetric(ka, kb);
      assert WithKey(a, key, ka)[0] == a[0];
      assert WithKey(b, key, kb)[0] == b[0];
      forall k ensures WithKey(a[1..], key, k) == WithKey(b[1..], key, k) {
        var ha := if ka == k then [a[0]] else [];
        assert WithKey(a, key, k) == ha + WithKey(a[1..], key, k);
        assert WithKey(b, key, k) == ha + WithKey(b[1..], key, k);
        assert WithKey(a[1..], key, k) == WithKey(a, key, k)[|ha|..];
        assert WithKey(b[1..], key, k) == WithKey(b, key, k)[|ha|..];
      }
      SortedTail(a, key);
      SortedTail(b, key);
      StableSortUnique(a[1..], b[1..], key);
      assert a == [a[0]] + a[1..] && b == [b[0]] + b[1..];
    }
  }

  /** No two elements of `s` share a key. */
  predicate DistinctKeys<T>(s: seq<T>, key: T -> string) {
    forall i, j :: 0 <= i < j < |s| ==> key(s[i]) != key(s[j])
  }

  /** `s` without its element at `p`. */
  function RemoveAt<T>(s: seq<T>, p: nat): (r: seq<T>)
    requires p < |s|
    ensures |r| == |s| - 1
    ensures multiset(r) == multiset(s) - multiset{s[p]}
    ensures forall i :: 0 <= i < |r| ==> r[i] == s[if i < p then i else i + 1]
  {
    assert s == s[..p] + [s[p]] + s[p + 1..];
    s[..p] + s[p + 1..]
  }

  lemma RemoveAtDistinct<T>(s: seq<T>, p: nat, key: T -> string)
    requires p < |s| && DistinctKeys(s, key)
    ensures DistinctKeys(RemoveAt(s, p), key)
    ensures forall i :: 0 <= i < |s| - 1 ==> key(RemoveAt(s, p)[i]) != key(s[p])
  {
    var r := RemoveAt(s, p);
    forall i, j | 0 <= i < j < |r| ensures key(r[i]) != key(r[j]) {
      assert r[i] == s[if i < p then i else i + 1];
      assert r[j] == s[if j < p then j else j + 1];
    }
    forall i | 0 <= i < |r| ensures key(r[i]) != key(s[p]) {
      assert r[i] == s[if i < p then i else i + 1];
    }
  }

  /** Reordering keeps keys distinct. */
  lemma {:induction false} PermutationKeepsDistinct<T>(a: seq<T>, b: seq<T>, key: T -> string)
    requires multiset(a) == multiset(b) && DistinctKeys(a, key)
    ensures DistinctKeys(b, key)
    decreases |b|
  {
    if b != [] {
      var x := b[0];
      assert x in multiset(a);
      var p :| 0 <= p < |a| && a[p] == x;
      var a' := RemoveAt(a, p);
      assert b == [x] + b[1..];
      assert multiset(b[1..]) == multiset(b) - multiset{x};
      assert multiset(a') == multiset(b[1..]);
      RemoveAtDistinct(a, p, key);
      PermutationKeepsDistinct(a', b[1..], key);
      assert DistinctKeys(b[1..], key);
      HeadKeyDiffers(a', b, key, x);
    }
  }

  lemma HeadKeyDiffers<T>(rest: seq<T>, b: seq<T>, key: T -> string, x: T)
    requires b != [] && b[0] == x && multiset(rest) == multiset(b[1..])
    requires forall i :: 0 <= i < |rest| ==> key(rest[i]) != key(x)
    ensures forall j :: 1 <= j < |b| ==> key(b[0]) != key(b[j])
  {
    forall j | 1 <= j < |b| ensures key(b[0]) != key(b[j]) {
      assert b[j] == b[1..][j - 1];
      assert b[j] in multiset(rest);
      var q :| 0 <= q < |rest| && rest[q] == b[j];
    }
  }

  /** A sorted sequence with distinct keys is strictly ascending. */
  lemma SortedDistinctStrict<T>(s: seq<T>, key: T -> string)
    requires SortedBy(s, key) && DistinctKeys(s, key)
    ensures forall i, j :: 0 <= i < j < |s| ==> Less(key(s[i]), key(s[j]))
  {
    forall i, j | 0 <= i < j < |s| ensures Less(key(s[i]), key(s[j])) {
      LessTotal(key(s[i]), key(s[j]));
    }
  }

  /** Sorting a sequence with distinct keys gives strictly ascending keys. */
  lemma SortByStrict<T>(s: seq<T>, key: T -> string)
    requires DistinctKeys(s, key)
    ensures var r := SortBy(s, key);
      forall i, j :: 0 <= i < j < |r| ==> Less(key(r[i]), key(r[j]))
  {
    PermutationKeepsDistinct(s, SortBy(s, key), key);
    SortedDistinctStrict(SortBy(s, key), key);
  }

  /** Sorting neither adds nor drops an element. */
  lemma SortByMembers<T>(s: seq<T>, key: T -> string)
    ensures forall x :: x in SortBy(s, key) <==> x in s
  {
    forall x ensures x in SortBy(s, key) <==> x in s {
      assert x in SortBy(s, key) <==> x in multiset(SortBy(s, key));
      assert x in s <==> x in multiset(s);
    }
  }

  /** Strictly ascending strings. */
  predicate Ascending(s: seq<string>) {
    forall i, j :: 0 <= i < j < |s| ==> Less(s[i], s[j])
  }

  /** Two strictly ascending sequences holding the same strings are equal:
      sorting distinct strings does not depend on their initial order. */
  lemma {:induction false} AscendingUnique(a: seq<string>, b: seq<string>)
    requires Ascending(a) && Ascending(b)
    requires forall x :: x in a <==> x in b
    ensures a == b
    decreases |a|
  {
    assert a != [] ==> a[0] in b;
    assert b != [] ==> b[0] in a;
    if a != [] && b != [] {
      var i :| 0 <= i < |a| && a[i] == b[0];
      var j :| 0 <= j < |b| && b[j] == a[0];
      LessAsymmetric(a[0], b[0]);
      assert a[0] == b[0];
      forall x ensures x in a[1..] <==> x in b[1..] {
        LessIrreflexive(x);
        if x in a[1..] {
          var k :| 1 <= k < |a| && a[k] == x;
          assert Less(a[0], x);
          assert x in a && x in b;
          var m :| 0 <= m < |b| && b[m] == x;
          assert m != 0;
          assert b[1..][m - 1] == x;
        }
        if x in b[1..] {
          var k :| 1 <= k < |b| && b[k] == x;
          assert Less(b[0], x);
          assert x in b && x in a;
          var m :| 0 <= m < |a| && a[m] == x;
          assert m != 0;
          assert a[1..][m - 1] == x;
        }
      }
      AscendingUnique(a[1..], b[1..]);
      assert a == [a[0]] + a[1..] && b == [b[0]] + b[1..];
    }
  }
}
