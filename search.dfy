/** The catalog page: the search box filters the groups fetched from the
    JSON endpoint, the filtered groups are bucketed by upper-cased
    category, and the buckets of the fixed category order are rendered
    under a counter of the filtered groups. */
module Search {
  import opened Wrappers
  import opened Text
  import opened JsMap

  /** An item as the page reads it; a missing `medida` or `apps` is `""`. */
  datatype Item = Item(sku: string, medida: string, apps: string, inventario: int)

  /** A group as the page reads it; missing fields are `""` and `[]`. */
  datatype Group = Group(categoria: string, grabado: string, imagen: string, items: seq<Item>)

  // ---------------------------------------------------------------------
  // Order-preserving selection

  /** `s.filter(keep)`. */
  function Select<T>(s: seq<T>, keep: T -> bool): (r: seq<T>)
    ensures |r| <= |s|
  {
    if s == [] then []
    else
      var n := |s| - 1;
      Select(s[..n], keep) + (if keep(s[n]) then [s[n]] else [])
  }

  /** `r` lists `s` at the strictly increasing positions `idx`. */
  ghost predicate Picks<T>(s: seq<T>, r: seq<T>, idx: seq<nat>) {
    && |idx| == |r|
    && (forall j :: 0 <= j < |idx| ==> idx[j] < |s| && r[j] == s[idx[j]])
    && (forall j, k :: 0 <= j < k < |idx| ==> idx[j] < idx[k])
  }

  /** Appending one element, picked or not, extends the positions. */
  lemma PicksExtend<T>(init: seq<T>, r: seq<T>, idx: seq<nat>, x: T, picked: bool)
    requires Picks(init, r, idx)
    ensures Picks(init + [x], r + (if picked then [x] else []), if picked then idx + [|init|] else idx)
  {
    var s, r', idx' := init + [x], r + (if picked then [x] else []), if picked then idx + [|init|] else idx;
    forall j | 0 <= j < |idx'| ensures idx'[j] < |s| && r'[j] == s[idx'[j]] {
      if j < |idx| {
        assert idx'[j] == idx[j] && r'[j] == r[j] && s[idx[j]] == init[idx[j]];
      }
    }
  }

  /** The positions of the elements of `s` that satisfy `keep`. */
  ghost function Positions<T>(s: seq<T>, keep: T -> bool): (idx: seq<nat>)
    ensures forall j :: 0 <= j < |idx| ==> idx[j] < |s|
  {
    if s == [] then []
    else
      var n := |s| - 1;
      Positions(s[..n], keep) + (if keep(s[n]) then [n] else [])
  }

  /** Position `i` is listed exactly when its element satisfies `keep`. */
  lemma {:induction false} PositionAt<T>(s: seq<T>, keep: T -> bool, i: nat)
    requires i < |s|
    ensures keep(s[i]) <==> i in Positions(s, keep)
  {
    var n := |s| - 1;
    var init := s[..n];
    var prev := Positions(init, keep);
    assert Positions(s, keep) == prev + (if keep(s[n]) then [n] else []);
    assert n !in prev;
    if i < n {
      PositionAt(init, keep, i);
      assert init[i] == s[i];
    }
  }

  lemma {:induction false} SelectPicks<T>(s: seq<T>, keep: T -> bool)
    ensures Picks(s, Select(s, keep), Positions(s, keep))
  {
    if s != [] {
      var n := |s| - 1;
      var init := s[..n];
      SelectPicks(init, keep);
      assert init + [s[n]] == s;
      PicksExtend(init, Select(init, keep), Positions(init, keep), s[n], keep(s[n]));
    }
  }

  /** The selection lists, in their original order, exactly the elements
      that satisfy `keep`. */
  lemma SelectSpec<T>(s: seq<T>, keep: T -> bool)
    ensures Picks(s, Select(s, keep), Positions(s, keep))
    ensures forall i :: 0 <= i < |s| ==> (keep(s[i]) <==> i in Positions(s, keep))
  {
    SelectPicks(s, keep);
    forall i | 0 <= i < |s| ensures keep(s[i]) <==> i in Positions(s, keep) {
      PositionAt(s, keep, i);
    }
  }

  /** An element is selected exactly when it occurs and satisfies `keep`. */
  lemma {:induction false} SelectMembers<T>(s: seq<T>, keep: T -> bool, x: T)
    ensures x in Select(s, keep) <==> x in s && keep(x)
  {
    if s != [] {
      var n := |s| - 1;
      SelectMembers(s[..n], keep, x);
      assert s == s[..n] + [s[n]];
    }
  }

  /** Nothing is selected when no element satisfies `keep`. */
  lemma {:induction false} SelectNone<T>(s: seq<T>, keep: T -> bool)
    requires forall i :: 0 <= i < |s| ==> !keep(s[i])
    ensures Select(s, keep) == []
  {
    if s != [] {
      var n := |s| - 1;
      assert forall i :: 0 <= i < n ==> s[..n][i] == s[i];
      SelectNone(s[..n], keep);
    }
  }

  /** Nothing is dropped exactly when every element satisfies `keep`. */
  lemma {:induction false} SelectAll<T>(s: seq<T>, keep: T -> bool)
    ensures |Select(s, keep)| == |s| <==> forall i :: 0 <= i < |s| ==> keep(s[i])
  {
    if s != [] {
      var n := |s| - 1;
      SelectAll(s[..n], keep);
      if forall i :: 0 <= i < |s| ==> keep(s[i]) {
        assert forall i :: 0 <= i < n ==> keep(s[..n][i]);
      }
      if forall i :: 0 <= i < n ==> keep(s[..n][i]) {
        forall i | 0 <= i < n ensures keep(s[i]) {
          assert s[..n][i] == s[i];
        }
      }
    }
  }

  /** Selecting by two exclusive conditions counts the selection by either. */
  lemma {:induction false} SelectSplit<T>(s: seq<T>, p: T -> bool, q: T -> bool, either: T -> bool)
    requires forall i :: 0 <= i < |s| ==> (either(s[i]) <==> p(s[i]) || q(s[i])) && !(p(s[i]) && q(s[i]))
    ensures |Select(s, either)| == |Select(s, p)| + |Select(s, q)|
  {
    if s != [] {
      var n := |s| - 1;
      assert forall i :: 0 <= i < n ==> s[..n][i] == s[i];
      SelectSplit(s[..n], p, q, either);
    }
  }

  /** `s.map(f).filter(Boolean)`, with `None` for the `null` results. */
  function MapFilter<T, U>(s: seq<T>, f: T -> Option<U>): (r: seq<U>)
    ensures |r| <= |s|
  {
    if s == [] then []
    else
      var n := |s| - 1;
      MapFilter(s[..n], f) + (match f(s[n]) case Some(y) => [y] case None => [])
  }

  /** `r` lists the results of `f` on `s` at the strictly increasing
      positions `idx`. */
  ghost predicate KeptBy<T, U>(s: seq<T>, r: seq<U>, idx: seq<nat>, f: T -> Option<U>) {
    && |idx| == |r|
    && (forall j :: 0 <= j < |idx| ==> idx[j] < |s| && f(s[idx[j]]) == Some(r[j]))
    && (forall j, k :: 0 <= j < k < |idx| ==> idx[j] < idx[k])
  }

  /** The positions where `f` returns a value. */
  ghost function KeptPositions<T, U>(s: seq<T>, f: T -> Option<U>): (idx: seq<nat>)
    ensures forall j :: 0 <= j < |idx| ==> idx[j] < |s|
  {
    if s == [] then []
    else
      var n := |s| - 1;
      KeptPositions(s[..n], f) + (if f(s[n]).Some? then [n] else [])
  }

  lemma KeptExtend<T, U>(init: seq<T>, r: seq<U>, idx: seq<nat>, x: T, f: T -> Option<U>)
    requires KeptBy(init, r, idx, f)
    ensures KeptBy(init + [x], r + (match f(x) case Some(y) => [y] case None => []),
                   if f(x).Some? then idx + [|init|] else idx, f)
  {
    var s, r' := init + [x], r + (match f(x) case Some(y) => [y] case None => []);
    var idx' := if f(x).Some? then idx + [|init|] else idx;
    forall j | 0 <= j < |idx'| ensures idx'[j] < |s| && f(s[idx'[j]]) == Some(r'[j]) {
      if j < |idx| {
        assert idx'[j] == idx[j] && r'[j] == r[j] && s[idx[j]] == init[idx[j]];
      }
    }
  }

  /** Position `i` is kept exactly when `f` returns a value there. */
  lemma {:induction false} KeptPositionAt<T, U>(s: seq<T>, f: T -> Option<U>, i: nat)
    requires i < |s|
    ensures f(s[i]).Some? <==> i in KeptPositions(s, f)
  {
    var n := |s| - 1;
    var init := s[..n];
    var prev := KeptPositions(init, f);
    assert KeptPositions(s, f) == prev + (if f(s[n]).Some? then [n] else []);
    assert n !in prev;
    if i < n {
      KeptPositionAt(init, f, i);
      assert init[i] == s[i];
    }
  }

  lemma {:induction false} MapFilterKept<T, U>(s: seq<T>, f: T -> Option<U>)
    ensures KeptBy(s, MapFilter(s, f), KeptPositions(s, f), f)
  {
    if s != [] {
      var n := |s| - 1;
      var init := s[..n];
      MapFilterKept(init, f);
      assert init + [s[n]] == s;
      KeptExtend(init, MapFilter(init, f), KeptPositions(init, f), s[n], f);
    }
  }

  /** The results kept are those of the elements where `f` returns a value,
      in the elements' order. */
  lemma MapFilterSpec<T, U>(s: seq<T>, f: T -> Option<U>)
    ensures KeptBy(s, MapFilter(s, f), KeptPositions(s, f), f)
    ensures forall i :: 0 <= i < |s| ==> (f(s[i]).Some? <==> i in KeptPositions(s, f))
  {
    MapFilterKept(s, f);
    forall i | 0 <= i < |s| ensures f(s[i]).Some? <==> i in KeptPositions(s, f) {
      KeptPositionAt(s, f, i);
    }
  }

  // ---------------------------------------------------------------------
  // The `filtered` memo

  /** `categoria` or `grabado`, lower-cased, contains the term. */
  predicate HeaderHit(g: Group, term: string) {
    Contains(Lower(g.categoria), term) || Contains(Lower(g.grabado), term)
  }

  /** The item filter: the lower-cased SKU, medida, apps or inventory
      (`String(it.inventario)`) contains the term. */
  predicate ItemMatches(it: Item, term: string) {
    || Contains(Lower(it.sku), term) || Contains(Lower(it.medida), term)
    || Contains(Lower(it.apps), term) || Contains(Lower(IntToString(it.inventario)), term)
  }

  function Matcher(term: string): Item -> bool {
    it => ItemMatches(it, term)
  }

  /** The `.map` callback for one group: the whole group on a header hit,
      otherwise the group with its matching items if there are any, and
      `null` otherwise. */
  function FilterGroup(g: Group, term: string): (r: Option<Group>)
    ensures r.Some? ==> r.value.categoria == g.categoria && r.value.grabado == g.grabado && r.value.imagen == g.imagen
  {
    var items := Select(g.items, Matcher(term));
    if HeaderHit(g, term) then Some(g)
    else if |items| > 0 then Some(g.(items := items))
    else None
  }

  function Callback(term: string): Group -> Option<Group> {
    g => FilterGroup(g, term)
  }

  /** `groups.map(...).filter(Boolean)`. */
  function FilterGroups(gs: seq<Group>, term: string): (r: seq<Group>)
    ensures |r| <= |gs|
  {
    MapFilter(gs, Callback(term))
  }

  /** The `filtered` memo: `q` trimmed and lower-cased; a blank term keeps
      `groups` as they are. */
  function Filtered(gs: seq<Group>, q: string): seq<Group> {
    var term := Lower(Trim(q));
    if term == "" then gs else FilterGroups(gs, term)
  }

  /** A group is kept exactly when its header matches or one of its items
      does; a header hit keeps all items, otherwise exactly the matching
      items are kept, in order. */
  lemma FilterGroupSpec(g: Group, term: string)
    ensures var r := FilterGroup(g, term);
      && (r.Some? <==> HeaderHit(g, term) || exists i :: 0 <= i < |g.items| && ItemMatches(g.items[i], term))
      && (r.Some? && HeaderHit(g, term) ==> r.value == g)
      && (r.Some? && !HeaderHit(g, term) ==> r.value.items != [] && exists idx :: (Picks(g.items, r.value.items, idx)
            && forall i :: 0 <= i < |g.items| ==> (ItemMatches(g.items[i], term) <==> i in idx)))
  {
    var items := Select(g.items, Matcher(term));
    SelectSpec(g.items, Matcher(term));
    var idx := Positions(g.items, Matcher(term));
    if exists i :: 0 <= i < |g.items| && ItemMatches(g.items[i], term) {
      var i :| 0 <= i < |g.items| && ItemMatches(g.items[i], term);
      assert i in idx;
    }
    if items != [] {
      assert ItemMatches(g.items[idx[0]], term);
    }
  }

  /** Filtering keeps the relative order of groups and drops exactly the
      groups the callback maps to `null`. */
  lemma FilterGroupsSpec(gs: seq<Group>, term: string)
    ensures var r, idx := FilterGroups(gs, term), KeptPositions(gs, Callback(term));
      && |idx| == |r|
      && (forall j :: 0 <= j < |idx| ==> idx[j] < |gs| && FilterGroup(gs[idx[j]], term) == Some(r[j]))
      && (forall j, k :: 0 <= j < k < |idx| ==> idx[j] < idx[k])
      && (forall i :: 0 <= i < |gs| ==> (FilterGroup(gs[i], term).Some? <==> i in idx))
  {
    MapFilterSpec(gs, Callback(term));
  }

  /** A term that is blank after trimming leaves the groups unchanged;
      otherwise the trimmed, lower-cased term filters them. */
  lemma FilteredTerm(gs: seq<Group>, q: string)
    ensures Trim(q) == "" ==> Filtered(gs, q) == gs
    ensures Trim(q) != "" ==> Filtered(gs, q) == FilterGroups(gs, Lower(Trim(q)))
  {
    assert |Lower(Trim(q))| == |Trim(q)|;
  }

  // ---------------------------------------------------------------------
  // Bucketing into a record of arrays

  /** `map[c] = []` for every `c` of `cs`. */
  function Seeded<T>(cs: seq<string>): (m: OrderedMap<seq<T>>)
    ensures m.Valid()
  {
    if cs == [] then Empty() else Seeded(cs[..|cs| - 1]).Set(cs[|cs| - 1], [])
  }

  /** With distinct categories the seeded record has them as its keys, in
      order, each with an empty bucket. */
  lemma {:induction false} SeededSpec<T>(cs: seq<string>)
    requires forall i, j :: 0 <= i < j < |cs| ==> cs[i] != cs[j]
    ensures var m := Seeded<T>(cs);
      && m.keys == cs
      && forall c :: c in m.values ==> m.values[c] == []
  {
    if cs != [] {
      var n := |cs| - 1;
      SeededSpec<T>(cs[..n]);
      var m0 := Seeded<T>(cs[..n]);
      assert Seeded<T>(cs) == m0.Set(cs[n], []);
      assert cs[n] !in m0.values by {
        assert cs[n] !in cs[..n];
      }
      assert cs[..n] + [cs[n]] == cs;
    }
  }

  function KeyIs<T>(key: T -> string, c: string): T -> bool {
    x => key(x) == c
  }

  function KeyIn<T>(key: T -> string, cs: seq<string>): T -> bool {
    x => key(x) in cs
  }

  /** `if (!map[c]) map[c] = []; map[c].push(x)` with `c = key(x)`. */
  function Place<T>(m: OrderedMap<seq<T>>, x: T, key: T -> string): (r: OrderedMap<seq<T>>)
    ensures m.Valid() ==> r.Valid()
  {
    var c := key(x);
    var m1 := if c in m.values then m else m.Set(c, []);
    m1.Set(c, m1.values[c] + [x])
  }

  /** Place every element of `s`, in order. */
  function PushAll<T>(m: OrderedMap<seq<T>>, s: seq<T>, key: T -> string): (r: OrderedMap<seq<T>>)
    ensures m.Valid() ==> r.Valid()
  {
    if s == [] then m else Place(PushAll(m, s[..|s| - 1], key), s[|s| - 1], key)
  }

  /** Which keys the record has and what each bucket holds. */
  ghost predicate Bucketed<T>(m: OrderedMap<seq<T>>, seeds: seq<string>, s: seq<T>, key: T -> string) {
    && (forall c :: c in m.values <==> c in seeds || exists i :: 0 <= i < |s| && key(s[i]) == c)
    && (forall c :: c in m.values ==> m.values[c] == Select(s, KeyIs(key, c)))
    && |m.keys| >= |seeds| && m.keys[..|seeds|] == seeds
  }

  lemma PlaceBucketed<T>(m: OrderedMap<seq<T>>, seeds: seq<string>, s: seq<T>, x: T, key: T -> string)
    requires m.Valid() && Bucketed(m, seeds, s, key)
    ensures Bucketed(Place(m, x, key), seeds, s + [x], key)
  {
    var s', r, k := s + [x], Place(m, x, key), key(x);
    assert s'[..|s|] == s;
    assert s'[|s|] == x;
    forall c ensures c in r.values <==> c in seeds || exists i :: 0 <= i < |s'| && key(s'[i]) == c {
      if c != k {
        if exists i :: 0 <= i < |s'| && key(s'[i]) == c {
          var i :| 0 <= i < |s'| && key(s'[i]) == c;
          assert i < |s| && s'[i] == s[i];
        }
        if exists i :: 0 <= i < |s| && key(s[i]) == c {
          var i :| 0 <= i < |s| && key(s[i]) == c;
          assert s'[i] == s[i];
        }
      }
    }
    if k !in m.values {
      SelectNone(s, KeyIs(key, k));
    }
    forall c | c in r.values ensures r.values[c] == Select(s', KeyIs(key, c)) {
    }
    assert r.keys[..|seeds|] == m.keys[..|seeds|];
  }

  lemma SeededBucketed<T>(seeds: seq<string>, s: seq<T>, key: T -> string)
    requires forall i, j :: 0 <= i < j < |seeds| ==> seeds[i] != seeds[j]
    requires s == []
    ensures Bucketed(Seeded(seeds), seeds, s, key)
  {
    SeededSpec<T>(seeds);
    var m := Seeded<T>(seeds);
    assert m.keys == seeds;
    assert m.keys[..|seeds|] == seeds;
    forall c | c in m.values ensures m.values[c] == Select(s, KeyIs(key, c)) {
      assert m.values[c] == [];
    }
  }

  /** From distinct seeds, every seed has a bucket, first and in order;
      every other key is the key of some element; and each bucket holds
      exactly the elements with its key, in their order. */
  lemma {:induction false} PushAllSpec<T>(seeds: seq<string>, s: seq<T>, key: T -> string)
    requires forall i, j :: 0 <= i < j < |seeds| ==> seeds[i] != seeds[j]
    ensures Bucketed(PushAll(Seeded(seeds), s, key), seeds, s, key)
    decreases |s|, 1
  {
    if s == [] {
      SeededBucketed(seeds, s, key);
    } else {
      PushAllStep(seeds, s, key);
    }
  }

  lemma {:induction false} PushAllStep<T>(seeds: seq<string>, s: seq<T>, key: T -> string)
    requires forall i, j :: 0 <= i < j < |seeds| ==> seeds[i] != seeds[j]
    requires s != []
    ensures Bucketed(PushAll(Seeded(seeds), s, key), seeds, s, key)
    decreases |s|, 0
  {
    var n := |s| - 1;
    var init := s[..n];
    assert init + [s[n]] == s;
    var m0 := PushAll(Seeded(seeds), init, key);
    assert PushAll(Seeded(seeds), s, key) == Place(m0, s[n], key);
    PushAllSpec(seeds, init, key);
    PlaceBucketed(m0, seeds, init, s[n], key);
  }

  // ---------------------------------------------------------------------
  // The `byCategory` memo

  const CategoryOrder: seq<string> := ["TOURING", "ADVENTURE", "TRAIL RALLY", "THREE WHEELS", "SCOOTER"]

  type Buckets = OrderedMap<seq<Group>>

  /** `String(g.categoria || "").toUpperCase()`. */
  function BucketKey(g: Group): string {
    Upper(g.categoria)
  }

  /** The record `byCategory` returns for `filtered`. */
  function BucketsOf(gs: seq<Group>): (m: Buckets)
    ensures m.Valid()
  {
    PushAll(Seeded(CategoryOrder), gs, BucketKey)
  }

  lemma CategoryOrderDistinct()
    ensures forall i, j :: 0 <= i < j < |CategoryOrder| ==> CategoryOrder[i] != CategoryOrder[j]
  {
  }

  /** Every key of `CATEGORY_ORDER` has a bucket, first and in order; every
      other key is the upper-cased category of some group; and each bucket
      holds exactly the groups of that category, in their filtered order. */
  lemma BucketsSpec(gs: seq<Group>)
    ensures Bucketed(BucketsOf(gs), CategoryOrder, gs, BucketKey)
  {
    CategoryOrderDistinct();
    PushAllSpec(CategoryOrder, gs, BucketKey);
  }

  /** The `byCategory` memo: seed `CATEGORY_ORDER`, then push each filtered
      group into the bucket of its upper-cased category. */
  method ByCategory(filtered: seq<Group>) returns (m: Buckets)
    ensures m == BucketsOf(filtered)
  {
    m := Empty();
    for i := 0 to |CategoryOrder|
      invariant m == Seeded(CategoryOrder[..i])
    {
      assert CategoryOrder[..i + 1][..i] == CategoryOrder[..i];
      m := m.Set(CategoryOrder[i], []);
    }
    assert CategoryOrder[..|CategoryOrder|] == CategoryOrder;
    for i := 0 to |filtered|
      invariant m == PushAll(Seeded(CategoryOrder), filtered[..i], BucketKey)
    {
      assert filtered[..i + 1][..i] == filtered[..i];
      var g := filtered[i];
      var c := Upper(g.categoria);
      if c !in m.values {
        m := m.Set(c, []);
      }
      m := m.Set(c, m.values[c] + [g]);
    }
    assert filtered[..|filtered|] == filtered;
  }

  // ---------------------------------------------------------------------
  // What the page renders

  /** `byCategory[cat] || []`. */
  function BucketOf<T>(m: OrderedMap<seq<T>>, c: string): seq<T> {
    if c in m.values then m.values[c] else []
  }

  /** `CATEGORY_ORDER.map(...)`: one section per category with a non-empty
      bucket, in the order of `cats`. */
  function SectionsFrom<T>(m: OrderedMap<seq<T>>, cats: seq<string>): seq<(string, seq<T>)> {
    if cats == [] then []
    else
      var n := |cats| - 1;
      var list := BucketOf(m, cats[n]);
      SectionsFrom(m, cats[..n]) + (if |list| > 0 then [(cats[n], list)] else [])
  }

  function HasItems<T>(m: OrderedMap<seq<T>>): string -> bool {
    c => |BucketOf(m, c)| > 0
  }

  function Names<T>(secs: seq<(string, seq<T>)>): seq<string> {
    seq(|secs|, j requires 0 <= j < |secs| => secs[j].0)
  }

  /** The sections are the non-empty buckets of `cats`, in that order. */
  lemma {:induction false} SectionsFromSpec<T>(m: OrderedMap<seq<T>>, cats: seq<string>)
    ensures var secs := SectionsFrom(m, cats);
      && Names(secs) == Select(cats, HasItems(m))
      && forall j :: 0 <= j < |secs| ==> secs[j].1 == BucketOf(m, secs[j].0) && secs[j].1 != []
  {
    if cats != [] {
      SectionsFromSpec(m, cats[..|cats| - 1]);
    }
  }

  /** The number of elements shown in the sections. */
  function Shown<T>(secs: seq<(string, seq<T>)>): nat {
    if secs == [] then 0 else Shown(secs[..|secs| - 1]) + |secs[|secs| - 1].1|
  }

  /** Over distinct categories the sections show exactly the elements whose
      key is one of them. */
  lemma {:induction false} ShownCount<T>(m: OrderedMap<seq<T>>, seeds: seq<string>, s: seq<T>, key: T -> string, cats: seq<string>)
    requires Bucketed(m, seeds, s, key)
    requires forall i, j :: 0 <= i < j < |cats| ==> cats[i] != cats[j]
    ensures Shown(SectionsFrom(m, cats)) == |Select(s, KeyIn(key, cats))|
  {
    forall c ensures BucketOf(m, c) == Select(s, KeyIs(key, c)) {
      BucketOfBucketed(m, seeds, s, key, c);
    }
    ShownCountOf(m, s, key, cats);
  }

  /** A bucket, present or not, holds exactly the elements with its key. */
  lemma BucketOfBucketed<T>(m: OrderedMap<seq<T>>, seeds: seq<string>, s: seq<T>, key: T -> string, c: string)
    requires Bucketed(m, seeds, s, key)
    ensures BucketOf(m, c) == Select(s, KeyIs(key, c))
  {
    if c !in m.values {
      SelectNone(s, KeyIs(key, c));
    }
  }

  lemma {:induction false} ShownCountOf<T>(m: OrderedMap<seq<T>>, s: seq<T>, key: T -> string, cats: seq<string>)
    requires forall c :: BucketOf(m, c) == Select(s, KeyIs(key, c))
    requires forall i, j :: 0 <= i < j < |cats| ==> cats[i] != cats[j]
    ensures Shown(SectionsFrom(m, cats)) == |Select(s, KeyIn(key, cats))|
  {
    if cats == [] {
      SelectNone(s, KeyIn(key, cats));
    } else {
      var n := |cats| - 1;
      var c := cats[n];
      ShownCountOf(m, s, key, cats[..n]);
      assert |BucketOf(m, c)| == |Select(s, KeyIs(key, c))|;
      var before := SectionsFrom(m, cats[..n]);
      var tail := if |BucketOf(m, c)| > 0 then [(c, BucketOf(m, c))] else [];
      assert SectionsFrom(m, cats) == before + tail;
      if tail != [] {
        assert (before + tail)[..|before|] == before;
      } else {
        assert before + tail == before;
      }
      assert Shown(before + tail) == Shown(before) + |BucketOf(m, c)|;
      assert c !in cats[..n];
      assert cats == cats[..n] + [c];
      SelectSplit(s, KeyIn(key, cats[..n]), KeyIs(key, c), KeyIn(key, cats));
    }
  }

  /** The page: the counter (hidden while loading) and the sections. */
  datatype View = View(counter: Option<nat>, sections: seq<(string, seq<Group>)>)

  function Home(groups: seq<Group>, q: string, loading: bool): View {
    var filtered := Filtered(groups, q);
    View(if loading then None else Some(|filtered|), SectionsFrom(BucketsOf(filtered), CategoryOrder))
  }

  /** Sections appear in `CATEGORY_ORDER` for the categories that have
      filtered groups, each listing exactly those groups in order; the
      counter counts every filtered group, so it exceeds the groups shown
      exactly when some filtered group's upper-cased category is outside
      `CATEGORY_ORDER`. */
  lemma HomeSpec(groups: seq<Group>, q: string, loading: bool)
    ensures var v, filtered := Home(groups, q, loading), Filtered(groups, q);
      && Names(v.sections) == Select(CategoryOrder, HasItems(BucketsOf(filtered)))
      && (forall j :: 0 <= j < |v.sections| ==>
            v.sections[j].1 == Select(filtered, KeyIs(BucketKey, v.sections[j].0)) && v.sections[j].1 != [])
      && (v.counter.Some? <==> !loading)
      && (!loading ==> Shown(v.sections) <= v.counter.value)
      && (!loading ==> (Shown(v.sections) == v.counter.value <==>
            forall i :: 0 <= i < |filtered| ==> BucketKey(filtered[i]) in CategoryOrder))
  {
    var filtered := Filtered(groups, q);
    var m := BucketsOf(filtered);
    BucketsSpec(filtered);
    SectionsFromSpec(m, CategoryOrder);
    var secs := SectionsFrom(m, CategoryOrder);
    forall j | 0 <= j < |secs| ensures secs[j].1 == Select(filtered, KeyIs(BucketKey, secs[j].0)) {
      assert secs[j].1 != [];
    }
    CategoryOrderDistinct();
    ShownCount(m, CategoryOrder, filtered, BucketKey, CategoryOrder);
    SelectAll(filtered, KeyIn(BucketKey, CategoryOrder));
  }
}
