/** The flat JSON catalog endpoint: products are classified into a category
    through an alias table, grouped by category and product title, their
    variants turned into priced items, and the result deduplicated by SKU
    and sorted. */
module CatalogJson {
  import opened Wrappers
  import opened Text
  import opened Order
  import opened Prices
  import opened Paging
  import opened JsMap
  import Uniq

  // ---------------------------------------------------------------------
  // The `limit` query parameter

  /** `req.query.limit` after `Number(...)`: missing or empty, a number, or
      text that is not a number. */
  datatype LimitQuery = Absent | Numeric(value: real) | NotANumber

  /** A JavaScript number as the clamp leaves it. */
  datatype Limit = Finite(n: real) | NaN

  /** `Math.min(Math.max(Number(q || 300), 1), 2000)` as written: a `NaN`
      passes through both `Math.max` and `Math.min`. */
  function ClampLimitAsWritten(q: LimitQuery): Limit {
    match q
    case Absent => Finite(300.0)
    case Numeric(v) => Finite(if v < 1.0 then 1.0 else if v > 2000.0 then 2000.0 else v)
    case NotANumber => NaN
  }

  /** `currentCount >= limit`; every comparison with `NaN` is false. */
  predicate LimitReached(count: nat, limit: Limit) {
    limit.Finite? && count as real >= limit.n
  }

  /** The clamp the code evidently intends: always a number in [1, 2000],
      300 when the parameter is missing or not a number. */
  function ClampLimit(q: LimitQuery): (r: real)
    ensures 1.0 <= r <= 2000.0
    ensures !q.Numeric? ==> r == 300.0
    ensures q.Numeric? && 1.0 <= q.value <= 2000.0 ==> r == q.value
    ensures q.Numeric? && q.value < 1.0 ==> r == 1.0
    ensures q.Numeric? && q.value > 2000.0 ==> r == 2000.0
  {
    match q
    case Numeric(v) => if v < 1.0 then 1.0 else if v > 2000.0 then 2000.0 else v
    case _ => 300.0
  }

  /** The correction changes nothing but the non-numeric case. */
  lemma ClampLimitAgrees(q: LimitQuery)
    ensures !q.NotANumber? ==> ClampLimitAsWritten(q) == Finite(ClampLimit(q))
    ensures q.NotANumber? ==> ClampLimitAsWritten(q) == NaN
  {
  }

  // ---------------------------------------------------------------------
  // The category alias table

  /** `normalize(x).toUpperCase()`. */
  function CanonicalKey(s: string): string {
    Upper(Trim(s))
  }

  /** A key is canonical when normalising it again leaves it unchanged. */
  predicate IsCanonical(s: string) {
    CanonicalKey(s) == s
  }

  lemma CanonicalKeyCanonical(s: string)
    ensures IsCanonical(CanonicalKey(s))
  {
    CanonicalKeyStable(s);
  }

  /** One value of the parsed `CATEGORY_MAP_JSON` object: an array of
      aliases, a falsy value (`null`, `""`, `0`, ...), or any other value,
      on which `.map` throws. */
  datatype AliasValue = Aliases(items: seq<string>) | Falsy | NotAnArray

  /** The outcome of `JSON.parse`: a failure, or the object's entries in
      `Object.keys` order. */
  datatype ParsedConfig = Unparsable | Parsed(entries: seq<(string, AliasValue)>)

  type CategoryMap = OrderedMap<seq<string>>

  /** No alias is empty and each is trimmed and upper-cased. */
  predicate AllCanonical(xs: seq<string>) {
    forall i :: 0 <= i < |xs| ==> xs[i] != "" && IsCanonical(xs[i])
  }

  /** Every key of the table is trimmed and upper-cased, and so are its
      aliases. */
  ghost predicate CanonicalTable(m: CategoryMap) {
    forall k :: k in m.values ==> IsCanonical(k) && AllCanonical(m.values[k])
  }

  /** `.map((x) => normalize(x).toUpperCase()).filter(Boolean)`. */
  function CanonicalAliases(xs: seq<string>): (r: seq<string>)
    ensures |r| <= |xs|
  {
    if xs == [] then []
    else
      var a := CanonicalKey(xs[0]);
      (if a == "" then [] else [a]) + CanonicalAliases(xs[1..])
  }

  /** The aliases kept are exactly the non-empty normalised inputs. */
  lemma CanonicalAliasesMembers(xs: seq<string>)
    ensures var r := CanonicalAliases(xs);
      && (forall i :: 0 <= i < |xs| && CanonicalKey(xs[i]) != "" ==> CanonicalKey(xs[i]) in r)
      && (forall i :: 0 <= i < |r| ==> r[i] != "" && exists j :: 0 <= j < |xs| && r[i] == CanonicalKey(xs[j]))
  {
    CanonicalAliasesComplete(xs);
    CanonicalAliasesSound(xs);
    var r := CanonicalAliases(xs);
    assert forall i :: 0 <= i < |r| ==> r[i] in r;
  }

  lemma {:induction false} CanonicalAliasesComplete(xs: seq<string>)
    ensures forall i :: 0 <= i < |xs| && CanonicalKey(xs[i]) != "" ==> CanonicalKey(xs[i]) in CanonicalAliases(xs)
  {
    if xs != [] {
      var a := CanonicalKey(xs[0]);
      var rest := CanonicalAliases(xs[1..]);
      var head := if a == "" then [] else [a];
      assert CanonicalAliases(xs) == head + rest;
      CanonicalAliasesComplete(xs[1..]);
      forall i | 0 <= i < |xs| && CanonicalKey(xs[i]) != "" ensures CanonicalKey(xs[i]) in head + rest {
        if i > 0 {
          assert xs[i] == xs[1..][i - 1];
        }
      }
    }
  }

  lemma {:induction false} CanonicalAliasesSound(xs: seq<string>)
    ensures forall a :: a in CanonicalAliases(xs) ==> a != "" && exists j :: 0 <= j < |xs| && a == CanonicalKey(xs[j])
  {
    if xs != [] {
      var a := CanonicalKey(xs[0]);
      var rest := CanonicalAliases(xs[1..]);
      var head := if a == "" then [] else [a];
      var r := head + rest;
      assert CanonicalAliases(xs) == r;
      CanonicalAliasesSound(xs[1..]);
      forall x | x in r ensures x != "" && exists j :: 0 <= j < |xs| && x == CanonicalKey(xs[j]) {
        if x in head {
          assert x == CanonicalKey(xs[0]);
        } else {
          var j :| 0 <= j < |xs| - 1 && x == CanonicalKey(xs[1..][j]);
          assert xs[1..][j] == xs[j + 1];
        }
      }
    }
  }

  /** Every alias kept is non-empty, trimmed and upper-cased. */
  lemma CanonicalAliasesCanonical(xs: seq<string>)
    ensures AllCanonical(CanonicalAliases(xs))
  {
    var r := CanonicalAliases(xs);
    CanonicalAliasesMembers(xs);
    forall i | 0 <= i < |r| ensures r[i] != "" && IsCanonical(r[i]) {
      var j :| 0 <= j < |xs| && r[i] == CanonicalKey(xs[j]);
      CanonicalKeyCanonical(xs[j]);
    }
  }

  /** The key one entry of the object sets in the table. */
  function EntryKey(e: (string, AliasValue)): string {
    CanonicalKey(e.0)
  }

  /** The aliases one entry sets: `[]` for a falsy value. */
  function EntryAliases(e: (string, AliasValue)): seq<string> {
    if e.1.Aliases? then CanonicalAliases(e.1.items) else []
  }

  /** The loop over the entries throws: some value is neither an array nor
      falsy, so that `.map` is not a function of it. */
  predicate Throws(entries: seq<(string, AliasValue)>) {
    entries != [] && (entries[|entries| - 1].1.NotAnArray? || Throws(entries[..|entries| - 1]))
  }

  /** The loop throws exactly when some value is not an array and not
      falsy, wherever it stands. */
  lemma {:induction false} ThrowsSpec(entries: seq<(string, AliasValue)>)
    ensures Throws(entries) <==> exists i :: 0 <= i < |entries| && entries[i].1.NotAnArray?
  {
    if entries != [] {
      var n := |entries| - 1;
      ThrowsSpec(entries[..n]);
      if Throws(entries[..n]) {
        var i :| 0 <= i < n && entries[..n][i].1.NotAnArray?;
        assert entries[i] == entries[..n][i];
      }
      if exists i :: 0 <= i < |entries| && entries[i].1.NotAnArray? {
        var i :| 0 <= i < |entries| && entries[i].1.NotAnArray?;
        if i < n {
          assert entries[..n][i] == entries[i];
        }
      }
    }
  }

  /** `parseCategoryMap()`: the keys and aliases set entry by entry, or the
      empty table when parsing or normalising throws. */
  function CategoryMapOf(config: ParsedConfig): (m: CategoryMap)
    ensures m.Valid()
  {
    match config
    case Unparsable => Empty()
    case Parsed(entries) => if Throws(entries) then Empty() else SetAll(entries, EntryKey, EntryAliases)
  }

  /** Every key and every alias of the table is trimmed and upper-cased, and
      no alias is empty. */
  lemma CategoryMapCanonical(config: ParsedConfig)
    ensures CanonicalTable(CategoryMapOf(config))
  {
    var m := CategoryMapOf(config);
    forall k | k in m.values ensures IsCanonical(k) && AllCanonical(m.values[k]) {
      SetAllOrigin(config.entries, EntryKey, EntryAliases, k);
      var i :| 0 <= i < |config.entries| && EntryKey(config.entries[i]) == k
        && m.values[k] == EntryAliases(config.entries[i]);
      CanonicalKeyCanonical(config.entries[i].0);
      if config.entries[i].1.Aliases? {
        CanonicalAliasesCanonical(config.entries[i].1.items);
      }
    }
  }

  /** The keys of the table are the normalised keys of the object, each
      once, in the order of their first occurrence. */
  lemma CategoryKeysInOrder(entries: seq<(string, AliasValue)>)
    requires !Throws(entries)
    ensures CategoryMapOf(Parsed(entries)).keys == Uniq.KeysInOrder(entries, EntryKey)
  {
    SetAllKeys(entries, EntryKey, EntryAliases);
  }

  /** Of several keys that normalise alike, the aliases of the last one are
      kept. */
  lemma LastEntryWins(entries: seq<(string, AliasValue)>, i: nat)
    requires !Throws(entries) && i < |entries|
    requires forall j :: i < j < |entries| ==> EntryKey(entries[j]) != EntryKey(entries[i])
    ensures var m := CategoryMapOf(Parsed(entries));
      EntryKey(entries[i]) in m.values && m.values[EntryKey(entries[i])] == EntryAliases(entries[i])
  {
    SetAllLastWins(entries, EntryKey, EntryAliases, i);
  }

  /** The loop of `parseCategoryMap`, with its `try`/`catch`. */
  method ParseCategoryMap(config: ParsedConfig) returns (out: CategoryMap)
    ensures out == CategoryMapOf(config)
  {
    if config.Unparsable? {
      return Empty();
    }
    var entries := config.entries;
    out := Empty();
    for j := 0 to |entries|
      invariant !Throws(entries[..j])
      invariant out == SetAll(entries[..j], EntryKey, EntryAliases)
    {
      SetAllStep(entries, EntryKey, EntryAliases, j);
      assert entries[..j + 1][..j] == entries[..j];
      var e := entries[j];
      if e.1.NotAnArray? {
        ThrowsSpec(entries);
        return Empty();
      }
      out := out.Set(EntryKey(e), EntryAliases(e));
    }
    assert entries[..|entries|] == entries;
  }

  // ---------------------------------------------------------------------
  // Classification

  /** `new Set(collectionTitles.map((t) => normalize(t).toUpperCase()).filter(Boolean))`. */
  function TitleSet(titles: seq<string>): (set_: set<string>)
    ensures "" !in set_
  {
    CanonicalAliasesMembers(titles);
    set t | t in CanonicalAliases(titles)
  }

  /** `map[cat] || []`. */
  function Needles(m: CategoryMap, cat: string): seq<string> {
    if cat in m.values then m.values[cat] else []
  }

  /** `needles.some((n) => set.has(normalize(n).toUpperCase()))`. */
  predicate Hit(titleSet: set<string>, needles: seq<string>) {
    exists n :: n in needles && CanonicalKey(n) in titleSet
  }

  /** The first position from `from` on whose key's aliases hit, or `|ks|`
      when none does. */
  function FirstHitFrom(titleSet: set<string>, m: CategoryMap, ks: seq<string>, from: nat): (i: nat)
    requires from <= |ks|
    ensures from <= i <= |ks|
    ensures i < |ks| ==> Hit(titleSet, Needles(m, ks[i]))
    ensures forall j :: from <= j < i ==> !Hit(titleSet, Needles(m, ks[j]))
    decreases |ks| - from
  {
    if from == |ks| then from
    else if Hit(titleSet, Needles(m, ks[from])) then from
    else FirstHitFrom(titleSet, m, ks, from + 1)
  }

  /** `pickCategoryFromCollections`: the first key of the table, in key
      order, one of whose aliases matches a collection title; `""` when
      there is none. */
  function CategoryOf(titles: seq<string>, m: CategoryMap): string {
    var i := FirstHitFrom(TitleSet(titles), m, m.keys, 0);
    if i < |m.keys| then m.keys[i] else ""
  }

  /** The category is the first key with a hit: no key before it hits, the
      first key that hits is the category, and the category is `""` exactly
      when no key hits or the first key that hits is `""`. */
  lemma CategoryOfSpec(titles: seq<string>, m: CategoryMap)
    requires m.Valid()
    ensures var cat, ts := CategoryOf(titles, m), TitleSet(titles);
      && (cat == "" || (cat in m.keys && Hit(ts, m.values[cat])))
      && (forall i :: 0 <= i < |m.keys| && m.keys[i] != cat ==> Hit(ts, m.values[m.keys[i]]) ==>
            exists j :: 0 <= j < i && m.keys[j] == cat)
      && ((forall k :: k in m.values && k != "" ==> !Hit(ts, m.values[k])) ==> cat == "")
      && (forall i :: (0 <= i < |m.keys| && Hit(ts, m.values[m.keys[i]])
                         && forall j :: 0 <= j < i ==> !Hit(ts, m.values[m.keys[j]])) ==> cat == m.keys[i])
      && ((forall i :: 0 <= i < |m.keys| ==> !Hit(ts, m.values[m.keys[i]])) ==> cat == "")
  {
    var ts := TitleSet(titles);
    var ks := m.keys;
    var f := FirstHitFrom(ts, m, ks, 0);
    assert forall i :: 0 <= i < |ks| ==> ks[i] in m.values by {
      forall i | 0 <= i < |ks| ensures ks[i] in m.values {
        assert ks[i] in ks;
      }
    }
    forall i | 0 <= i < |ks| && ks[i] != CategoryOf(titles, m) && Hit(ts, m.values[ks[i]])
      ensures exists j :: 0 <= j < i && ks[j] == CategoryOf(titles, m)
    {
      assert f < i;
    }
    forall i | 0 <= i < |ks| && Hit(ts, m.values[ks[i]]) && (forall j :: 0 <= j < i ==> !Hit(ts, m.values[ks[j]]))
      ensures CategoryOf(titles, m) == ks[i]
    {
      assert f == i;
    }
  }

  /** Aliases from the table are canonical already, so normalising them
      again changes nothing: a hit is an alias that is a title key. */
  lemma HitCanonical(titleSet: set<string>, needles: seq<string>)
    requires AllCanonical(needles)
    ensures Hit(titleSet, needles) <==> exists i :: 0 <= i < |needles| && needles[i] in titleSet
  {
    if Hit(titleSet, needles) {
      var n :| n in needles && CanonicalKey(n) in titleSet;
      var i :| 0 <= i < |needles| && needles[i] == n;
    }
    if exists i :: 0 <= i < |needles| && needles[i] in titleSet {
      var i :| 0 <= i < |needles| && needles[i] in titleSet;
      assert IsCanonical(needles[i]);
    }
  }

  /** The loop of `pickCategoryFromCollections`. */
  method PickCategoryFromCollections(titles: seq<string>, m: CategoryMap) returns (cat: string)
    ensures cat == CategoryOf(titles, m)
  {
    var titleSet := set t | t in CanonicalAliases(titles);
    for i := 0 to |m.keys|
      invariant FirstHitFrom(titleSet, m, m.keys, 0) == FirstHitFrom(titleSet, m, m.keys, i)
    {
      var needles := if m.keys[i] in m.values then m.values[m.keys[i]] else [];
      if exists n | n in needles :: CanonicalKey(n) in titleSet {
        return m.keys[i];
      }
    }
    return "";
  }

  // ---------------------------------------------------------------------
  // Products, groups and items

  /** A product variant as the query returns it; `price` and
      `inventoryQuantity` are `None` when `Number(...)` of them is not
      finite. */
  datatype Variant = Variant(sku: string, price: Option<real>, inventoryQuantity: Option<int>)

  /** A product node: `featuredImage?.url || ""`, `apps?.value || ""`, the
      titles of its collections and its variants. */
  datatype Product = Product(title: string, imageUrl: string, apps: string, collections: seq<string>, variants: seq<Variant>)

  datatype Item = Item(
    sku: string, inventario: int,
    precioCatalogoSinIva: real, precioCatalogoConIva: real,
    precio35: real, precio30: real, precio25: real, precio20: real)

  datatype Group = Group(categoria: string, grabado: string, imagen: string, aplicaciones: string, items: seq<Item>)

  /** `groupsMap`: groups by `categoria||grabado`, in order of creation. */
  type Builder = OrderedMap<Group>

  /** `` `${categoria}||${grabado}` ``. */
  function GroupKey(categoria: string, grabado: string): string {
    categoria + "||" + grabado
  }

  /** The category a product is filed under, `""` for none. */
  function Classify(p: Product, m: CategoryMap): string {
    CategoryOf(NonEmptyTrimmed(p.collections), m)
  }

  /** The group key of a product, `None` when the product is skipped. */
  function ProductKey(p: Product, m: CategoryMap): Option<string> {
    var cat := Classify(p, m);
    if cat == "" then None else Some(GroupKey(cat, Trim(p.title)))
  }

  /** One entry of `g.items`: prices from `safeNumber(v.price)`. */
  function MakeItem(v: Variant): (it: Item)
    ensures it.sku == Trim(v.sku)
    ensures it.precioCatalogoConIva == v.price.GetOr(0.0)
    ensures it.inventario == v.inventoryQuantity.GetOr(0)
  {
    var p := v.price.GetOr(0.0);
    Item(Trim(v.sku), v.inventoryQuantity.GetOr(0),
         PriceWithoutTax(p), p,
         ApplyDiscount(p, 0.35), ApplyDiscount(p, 0.30), ApplyDiscount(p, 0.25), ApplyDiscount(p, 0.20))
  }

  /** An item's prices: the price without VAT and the 35, 30, 25 and 20
      percent tiers of the variant's price, each in whole cents, the tiers
      ordered from the largest discount up whenever the price is not
      negative. */
  lemma MakeItemPrices(v: Variant)
    ensures var it, p := MakeItem(v), v.price.GetOr(0.0);
      && it.precioCatalogoSinIva == PriceWithoutTax(p)
      && it.precio35 == ApplyDiscount(p, 0.35) && it.precio30 == ApplyDiscount(p, 0.30)
      && it.precio25 == ApplyDiscount(p, 0.25) && it.precio20 == ApplyDiscount(p, 0.20)
      && (p >= 0.0 ==> it.precio35 <= it.precio30 <= it.precio25 <= it.precio20)
  {
    var p := v.price.GetOr(0.0);
    if p >= 0.0 {
      TiersOrdered(p);
    }
  }

  /** The items pushed for the variants of one product: variants whose
      trimmed SKU is empty are skipped. */
  function VariantItems(vs: seq<Variant>): (items: seq<Item>)
    ensures |items| <= |vs|
  {
    if vs == [] then []
    else
      var v := vs[|vs| - 1];
      VariantItems(vs[..|vs| - 1]) + (if Trim(v.sku) == "" then [] else [MakeItem(v)])
  }

  /** The items are exactly the variants with a non-empty trimmed SKU,
      each turned into an item. */
  lemma VariantItemsSpec(vs: seq<Variant>)
    ensures var items := VariantItems(vs);
      && (forall i :: 0 <= i < |vs| && Trim(vs[i].sku) != "" ==> MakeItem(vs[i]) in items)
      && (forall j :: 0 <= j < |items| ==> items[j].sku != "" && exists i :: 0 <= i < |vs| && items[j] == MakeItem(vs[i]))
  {
    VariantItemsComplete(vs);
    var items := VariantItems(vs);
    forall j | 0 <= j < |items| ensures items[j].sku != "" && exists i :: 0 <= i < |vs| && items[j] == MakeItem(vs[i]) {
      VariantItemAt(vs, j);
    }
  }

  /** Every variant with a SKU has its item. */
  lemma VariantItemsComplete(vs: seq<Variant>)
    ensures forall i :: 0 <= i < |vs| && Trim(vs[i].sku) != "" ==> MakeItem(vs[i]) in VariantItems(vs)
  {
    forall i | 0 <= i < |vs| && Trim(vs[i].sku) != "" ensures MakeItem(vs[i]) in VariantItems(vs) {
      VariantItemIn(vs, i);
    }
  }

  lemma {:induction false} VariantItemIn(vs: seq<Variant>, i: nat)
    requires i < |vs| && Trim(vs[i].sku) != ""
    ensures MakeItem(vs[i]) in VariantItems(vs)
  {
    var n := |vs| - 1;
    var prev := VariantItems(vs[..n]);
    if i < n {
      VariantItemIn(vs[..n], i);
      assert vs[..n][i] == vs[i];
      assert prev <= VariantItems(vs);
    } else {
      assert VariantItems(vs) == prev + [MakeItem(vs[n])];
    }
  }

  /** The `j`-th item is the item of a variant with a SKU. */
  lemma {:induction false} VariantItemAt(vs: seq<Variant>, j: nat)
    requires j < |VariantItems(vs)|
    ensures VariantItems(vs)[j].sku != ""
    ensures exists i :: 0 <= i < |vs| && Trim(vs[i].sku) != "" && VariantItems(vs)[j] == MakeItem(vs[i])
  {
    var n := |vs| - 1;
    var prev := VariantItems(vs[..n]);
    if j < |prev| {
      assert VariantItems(vs)[j] == prev[j];
      VariantItemAt(vs[..n], j);
      var i :| 0 <= i < n && Trim(vs[..n][i].sku) != "" && prev[j] == MakeItem(vs[..n][i]);
      assert vs[..n][i] == vs[i];
    } else {
      assert VariantItems(vs)[j] == MakeItem(vs[n]);
    }
  }

  /** The group `groupsMap.set(key, {...})` creates for the first product
      of a key. */
  function NewGroup(p: Product, m: CategoryMap): Group {
    Group(Classify(p, m), Trim(p.title), Trim(p.imageUrl), Trim(p.apps), [])
  }

  /** A product's effect on its group: the image filled in while still
      empty, then one item pushed per variant with a SKU. */
  function Updated(g: Group, p: Product): Group {
    var g' := if g.imagen == "" && p.imageUrl != "" then g.(imagen := Trim(p.imageUrl)) else g;
    g'.(items := g'.items + VariantItems(p.variants))
  }

  /** One iteration of the product loop: a product without a category is
      skipped; otherwise its group is created if absent and then updated. */
  function AddProduct(b: Builder, p: Product, m: CategoryMap): (r: Builder)
    ensures b.Valid() ==> r.Valid()
  {
    match ProductKey(p, m)
    case None => b
    case Some(key) => b.Set(key, Updated(if key in b.values then b.values[key] else NewGroup(p, m), p))
  }

  /** `for (const p of page.nodes)`, over any sequence of products. */
  function AddProducts(b: Builder, ps: seq<Product>, m: CategoryMap): (r: Builder)
    ensures b.Valid() ==> r.Valid()
  {
    if ps == [] then b else AddProduct(AddProducts(b, ps[..|ps| - 1], m), ps[|ps| - 1], m)
  }

  lemma {:induction false} AddProductsAppend(b: Builder, xs: seq<Product>, ys: seq<Product>, m: CategoryMap)
    ensures AddProducts(b, xs + ys, m) == AddProducts(AddProducts(b, xs, m), ys, m)
    decreases |ys|
  {
    if ys == [] {
      assert xs + ys == xs;
    } else {
      var n := |ys| - 1;
      assert (xs + ys)[..|xs + ys| - 1] == xs + ys[..n];
      AddProductsAppend(b, xs, ys[..n], m);
    }
  }

  // The group a key ends up with, stated independently of the map.

  /** The products filed under `key`, in order. */
  function ProductsFor(ps: seq<Product>, m: CategoryMap, key: string): (fs: seq<Product>)
    ensures forall i :: 0 <= i < |fs| ==> ProductKey(fs[i], m) == Some(key)
  {
    if ps == [] then []
    else
      var p := ps[|ps| - 1];
      ProductsFor(ps[..|ps| - 1], m, key) + (if ProductKey(p, m) == Some(key) then [p] else [])
  }

  /** The first non-empty trimmed image URL of `fs`, `""` when there is none. */
  function FirstImage(fs: seq<Product>): string {
    if fs == [] then ""
    else if Trim(fs[0].imageUrl) != "" then Trim(fs[0].imageUrl)
    else FirstImage(fs[1..])
  }

  lemma {:induction false} FirstImageAppend(fs: seq<Product>, p: Product)
    ensures FirstImage(fs + [p]) == if FirstImage(fs) != "" then FirstImage(fs) else Trim(p.imageUrl)
  {
    if fs != [] {
      assert (fs + [p])[1..] == fs[1..] + [p];
      FirstImageAppend(fs[1..], p);
    }
  }

  /** The items of the variants of `fs`, product after product. */
  function AllItems(fs: seq<Product>): seq<Item> {
    if fs == [] then [] else AllItems(fs[..|fs| - 1]) + VariantItems(fs[|fs| - 1].variants)
  }

  /** The group built from the products filed under one key: category and
      engraving of the first, its applications, the first non-empty image,
      and all the items in arrival order. */
  function GroupOf(fs: seq<Product>, m: CategoryMap): Group
    requires fs != []
  {
    Group(Classify(fs[0], m), Trim(fs[0].title), FirstImage(fs), Trim(fs[0].apps), AllItems(fs))
  }

  lemma GroupOfSingle(p: Product, m: CategoryMap)
    ensures GroupOf([p], m) == Updated(NewGroup(p, m), p)
  {
    assert [p][..0] == [] && [p][1..] == [];
    assert AllItems([p]) == VariantItems(p.variants);
    assert FirstImage([p]) == Trim(p.imageUrl);
  }

  lemma GroupOfSnoc(fs: seq<Product>, p: Product, m: CategoryMap)
    requires fs != []
    ensures GroupOf(fs + [p], m) == Updated(GroupOf(fs, m), p)
  {
    FirstImageAppend(fs, p);
    assert (fs + [p])[..|fs|] == fs;
    assert (fs + [p])[0] == fs[0];
  }

  /** What one product does to the group under `key`. */
  lemma AddProductEffect(b: Builder, p: Product, m: CategoryMap, key: string)
    ensures var r := AddProduct(b, p, m);
      && (ProductKey(p, m) != Some(key) ==>
            (key in r.values <==> key in b.values) && (key in b.values ==> r.values[key] == b.values[key]))
      && (ProductKey(p, m) == Some(key) ==>
            key in r.values && r.values[key] == Updated(if key in b.values then b.values[key] else NewGroup(p, m), p))
  {
  }

  /** A key holds a group exactly when some product is filed under it, and
      that group is `GroupOf` those products. */
  lemma {:induction false} AddProductsGroups(ps: seq<Product>, m: CategoryMap, key: string)
    ensures var b, fs := AddProducts(Empty(), ps, m), ProductsFor(ps, m, key);
      && (key in b.values <==> fs != [])
      && (fs != [] ==> b.values[key] == GroupOf(fs, m))
  {
    if ps != [] {
      var n := |ps| - 1;
      var p := ps[n];
      var init := ps[..n];
      AddProductsGroups(init, m, key);
      var b0, fs0 := AddProducts(Empty(), init, m), ProductsFor(init, m, key);
      assert AddProducts(Empty(), ps, m) == AddProduct(b0, p, m);
      AddProductEffect(b0, p, m, key);
      if ProductKey(p, m) == Some(key) {
        assert ProductsFor(ps, m, key) == fs0 + [p];
        if fs0 == [] {
          assert fs0 + [p] == [p];
          GroupOfSingle(p, m);
        } else {
          GroupOfSnoc(fs0, p, m);
        }
      } else {
        assert ProductsFor(ps, m, key) == fs0 + [];
        assert fs0 + [] == fs0;
      }
    }
  }

  /** Each group sits under the key `categoria||grabado` built from its own
      fields, and its category is not empty. */
  lemma GroupsKeyed(ps: seq<Product>, m: CategoryMap)
    ensures var b := AddProducts(Empty(), ps, m);
      forall k :: k in b.values ==>
        k == GroupKey(b.values[k].categoria, b.values[k].grabado) && b.values[k].categoria != ""
  {
    var b := AddProducts(Empty(), ps, m);
    forall k | k in b.values
      ensures k == GroupKey(b.values[k].categoria, b.values[k].grabado) && b.values[k].categoria != ""
    {
      AddProductsGroups(ps, m, k);
      var fs := ProductsFor(ps, m, k);
      assert ProductKey(fs[0], m) == Some(k);
    }
  }

  // ---------------------------------------------------------------------
  // Paging and the limit

  /** `g.items?.length` summed over the groups. */
  function TotalItems(gs: seq<Group>): nat {
    if gs == [] then 0 else TotalItems(gs[..|gs| - 1]) + |gs[|gs| - 1].items|
  }

  /** `currentCount` for the groups built so far. */
  function ItemCount(b: Builder): nat
    requires b.Valid()
  {
    TotalItems(b.Values())
  }

  /** The `while (true)` loop from page `i` on: the page's products are
      added, then the loop stops after the last page, or when the items
      gathered reach the limit. Returns the groups and the number of pages
      requested. */
  function CrawlFrom(b: Builder, pages: seq<Page<Product>>, i: nat, m: CategoryMap, limit: Limit): (r: (Builder, nat))
    requires b.Valid() && ListingEnds(pages) && i <= LastPage(pages)
    ensures r.0.Valid() && i < r.1 <= LastPage(pages) + 1
    decreases LastPage(pages) - i
  {
    var b' := AddProducts(b, pages[i].nodes, m);
    if !pages[i].hasNextPage then (b', i + 1)
    else if LimitReached(ItemCount(b'), limit) then (b', i + 1)
    else CrawlFrom(b', pages, i + 1, m, limit)
  }

  function Crawl(pages: seq<Page<Product>>, m: CategoryMap, limit: Limit): (r: (Builder, nat))
    requires ListingEnds(pages)
    ensures r.0.Valid() && 0 < r.1 <= LastPage(pages) + 1
  {
    CrawlFrom(Empty(), pages, 0, m, limit)
  }

  /** The groups after the first `n` pages. */
  function BuiltAfter(pages: seq<Page<Product>>, n: nat, m: CategoryMap): (b: Builder)
    requires n <= |pages|
    ensures b.Valid()
  {
    AddProducts(Empty(), AllNodes(pages[..n]), m)
  }

  lemma BuiltAfterStep(pages: seq<Page<Product>>, i: nat, m: CategoryMap)
    requires i < |pages|
    ensures BuiltAfter(pages, i + 1, m) == AddProducts(BuiltAfter(pages, i, m), pages[i].nodes, m)
  {
    assert pages[..i + 1][..i] == pages[..i];
    AddProductsAppend(Empty(), AllNodes(pages[..i]), pages[i].nodes, m);
  }

  /** The crawl reads a prefix of the pages: it ends after the last page or
      after the first page at which the item count reaches the limit, and
      its groups are those built from every product of the pages read. */
  lemma {:induction false} CrawlFromSpec(pages: seq<Page<Product>>, i: nat, m: CategoryMap, limit: Limit)
    requires ListingEnds(pages) && i <= LastPage(pages)
    ensures var r := CrawlFrom(BuiltAfter(pages, i, m), pages, i, m, limit);
      && r.0 == BuiltAfter(pages, r.1, m)
      && (r.1 == LastPage(pages) + 1 || LimitReached(ItemCount(r.0), limit))
      && (forall j :: i < j < r.1 ==> !LimitReached(ItemCount(BuiltAfter(pages, j, m)), limit))
    decreases LastPage(pages) - i
  {
    BuiltAfterStep(pages, i, m);
    var b1 := BuiltAfter(pages, i + 1, m);
    var stop := !pages[i].hasNextPage || LimitReached(ItemCount(b1), limit);
    assert CrawlFrom(BuiltAfter(pages, i, m), pages, i, m, limit)
        == if stop then (b1, i + 1) else CrawlFrom(b1, pages, i + 1, m, limit);
    if !stop {
      CrawlFromSpec(pages, i + 1, m, limit);
      var r := CrawlFrom(b1, pages, i + 1, m, limit);
      forall j | i < j < r.1 ensures !LimitReached(ItemCount(BuiltAfter(pages, j, m)), limit) {
        if j == i + 1 {
          assert BuiltAfter(pages, j, m) == b1;
        }
      }
    }
  }

  /** The whole crawl: the pages read are the shortest prefix that ends the
      listing or reaches the limit, and the groups come from their
      products. */
  lemma CrawlSpec(pages: seq<Page<Product>>, m: CategoryMap, limit: Limit)
    requires ListingEnds(pages)
    ensures var (b, n) := Crawl(pages, m, limit);
      && b == BuiltAfter(pages, n, m)
      && (n == LastPage(pages) + 1 || LimitReached(ItemCount(b), limit))
      && (forall j :: 0 < j < n ==> !LimitReached(ItemCount(BuiltAfter(pages, j, m)), limit))
  {
    assert pages[..0] == [];
    CrawlFromSpec(pages, 0, m, limit);
  }

  /** As written, `limit=abc` clamps to `NaN`, every comparison with which
      is false: the crawl reads every page of the listing. */
  lemma NaNLimitReadsAll(pages: seq<Page<Product>>, m: CategoryMap)
    requires ListingEnds(pages)
    ensures Crawl(pages, m, ClampLimitAsWritten(NotANumber)).1 == LastPage(pages) + 1
  {
    CrawlSpec(pages, m, NaN);
  }

  // ---------------------------------------------------------------------
  // Deduplication and ordering of the result

  function SkuOf(it: Item): string {
    it.sku
  }

  /** The string `groups.sort` compares: `categoria + "||" + grabado`. */
  function SortKey(g: Group): string {
    GroupKey(g.categoria, g.grabado)
  }

  /** `g.items` after `uniq.set(it.sku, it)` for every item and the sort by
      SKU. */
  function FinalItems(items: seq<Item>): seq<Item> {
    SortBy(Uniq.DedupLast(items, SkuOf), SkuOf)
  }

  /** After finalization the SKUs of a group are strictly ascending, hence
      distinct; no SKU of the input is lost; and the item kept for a SKU is
      the last one pushed with it. */
  lemma FinalItemsSpec(items: seq<Item>)
    ensures var r := FinalItems(items);
      && (forall i, j :: 0 <= i < j < |r| ==> Less(r[i].sku, r[j].sku))
      && (forall i :: 0 <= i < |items| ==> exists j :: 0 <= j < |r| && r[j].sku == items[i].sku)
      && (forall j :: 0 <= j < |r| ==> r[j] in items && r[j] == Uniq.LastWithKey(items, SkuOf, r[j].sku))
  {
    Uniq.DedupLastSpec(items, SkuOf);
    FinalItemsStrict(items);
    FinalItemsCover(items);
    FinalItemsKept(items);
  }

  lemma FinalItemsStrict(items: seq<Item>)
    requires DistinctKeys(Uniq.DedupLast(items, SkuOf), SkuOf)
    ensures var r := FinalItems(items);
      forall i, j :: 0 <= i < j < |r| ==> Less(r[i].sku, r[j].sku)
  {
    var r := FinalItems(items);
    PermutationKeepsDistinct(Uniq.DedupLast(items, SkuOf), r, SkuOf);
    SortedDistinctStrict(r, SkuOf);
  }

  lemma FinalItemsCover(items: seq<Item>)
    requires var d := Uniq.DedupLast(items, SkuOf);
      forall i :: 0 <= i < |items| ==> exists j :: 0 <= j < |d| && SkuOf(d[j]) == SkuOf(items[i])
    ensures var r := FinalItems(items);
      forall i :: 0 <= i < |items| ==> exists j :: 0 <= j < |r| && r[j].sku == items[i].sku
  {
    var d := Uniq.DedupLast(items, SkuOf);
    var r := FinalItems(items);
    forall i | 0 <= i < |items| ensures exists j :: 0 <= j < |r| && r[j].sku == items[i].sku {
      var j :| 0 <= j < |d| && SkuOf(d[j]) == SkuOf(items[i]);
      assert d[j] in multiset(r);
      var j' :| 0 <= j' < |r| && r[j'] == d[j];
    }
  }

  lemma FinalItemsKept(items: seq<Item>)
    requires var d := Uniq.DedupLast(items, SkuOf);
      forall j :: 0 <= j < |d| ==> d[j] in items && d[j] == Uniq.LastWithKey(items, SkuOf, SkuOf(d[j]))
    ensures var r := FinalItems(items);
      forall j :: 0 <= j < |r| ==> r[j] in items && r[j] == Uniq.LastWithKey(items, SkuOf, r[j].sku)
  {
    var d := Uniq.DedupLast(items, SkuOf);
    var r := FinalItems(items);
    forall j | 0 <= j < |r| ensures r[j] in items && r[j] == Uniq.LastWithKey(items, SkuOf, r[j].sku) {
      assert r[j] in multiset(d);
      var i :| 0 <= i < |d| && d[i] == r[j];
    }
  }

  /** One call of the `.map` over the groups. */
  function FinalGroup(g: Group): (r: Group)
    ensures r.categoria == g.categoria && r.grabado == g.grabado
    ensures r.imagen == g.imagen && r.aplicaciones == g.aplicaciones
  {
    g.(items := FinalItems(g.items))
  }

  /** `Array.from(groupsMap.values()).map(...)`. */
  function FinalGroups(gs: seq<Group>): (r: seq<Group>)
    ensures |r| == |gs|
    ensures forall i :: 0 <= i < |gs| ==> r[i] == FinalGroup(gs[i])
  {
    if gs == [] then [] else FinalGroups(gs[..|gs| - 1]) + [FinalGroup(gs[|gs| - 1])]
  }

  /** The `groups` array of the response. */
  function Finalize(b: Builder): seq<Group>
    requires b.Valid()
  {
    SortBy(FinalGroups(b.Values()), SortKey)
  }

  /** Every group sits under the key built from its own category and
      engraving. */
  ghost predicate Keyed(b: Builder) {
    forall k :: k in b.values ==> k == SortKey(b.values[k])
  }

  lemma BuiltKeyed(ps: seq<Product>, m: CategoryMap)
    ensures Keyed(AddProducts(Empty(), ps, m))
  {
    GroupsKeyed(ps, m);
  }

  /** The response holds one finalized group per key of `groupsMap`, and
      they are in strictly ascending `categoria||grabado` order. */
  lemma FinalizeSpec(b: Builder)
    requires b.Valid() && Keyed(b)
    ensures var r := Finalize(b);
      && |r| == |b.keys|
      && (forall i, j :: 0 <= i < j < |r| ==> Less(SortKey(r[i]), SortKey(r[j])))
      && (forall k :: k in b.values ==> FinalGroup(b.values[k]) in r)
      && (forall j :: 0 <= j < |r| ==> exists k :: k in b.values && r[j] == FinalGroup(b.values[k]))
  {
    FinalGroupsDistinct(b);
    FinalizeStrict(b);
    FinalizeMembers(b);
  }

  lemma FinalGroupsDistinct(b: Builder)
    requires b.Valid() && Keyed(b)
    ensures DistinctKeys(FinalGroups(b.Values()), SortKey)
  {
    var fg := FinalGroups(b.Values());
    forall i, j | 0 <= i < j < |fg| ensures SortKey(fg[i]) != SortKey(fg[j]) {
      assert SortKey(fg[i]) == b.keys[i] && SortKey(fg[j]) == b.keys[j];
    }
  }

  lemma FinalizeStrict(b: Builder)
    requires b.Valid() && DistinctKeys(FinalGroups(b.Values()), SortKey)
    ensures var r := Finalize(b);
      forall i, j :: 0 <= i < j < |r| ==> Less(SortKey(r[i]), SortKey(r[j]))
  {
    PermutationKeepsDistinct(FinalGroups(b.Values()), Finalize(b), SortKey);
    SortedDistinctStrict(Finalize(b), SortKey);
  }

  lemma FinalizeMembers(b: Builder)
    requires b.Valid()
    ensures var r := Finalize(b);
      && (forall k :: k in b.values ==> FinalGroup(b.values[k]) in r)
      && (forall j :: 0 <= j < |r| ==> exists k :: k in b.values && r[j] == FinalGroup(b.values[k]))
  {
    forall k | k in b.values ensures FinalGroup(b.values[k]) in Finalize(b) {
      FinalizeKeeps(b, k);
    }
    forall j | 0 <= j < |Finalize(b)| ensures exists k :: k in b.values && Finalize(b)[j] == FinalGroup(b.values[k]) {
      FinalizeOrigin(b, j);
    }
  }

  lemma FinalizeKeeps(b: Builder, k: string)
    requires b.Valid() && k in b.values
    ensures FinalGroup(b.values[k]) in Finalize(b)
  {
    var fg := FinalGroups(b.Values());
    var i :| 0 <= i < |b.keys| && b.keys[i] == k;
    assert fg[i] == FinalGroup(b.values[k]);
    assert fg[i] in multiset(Finalize(b));
  }

  lemma FinalizeOrigin(b: Builder, j: nat)
    requires b.Valid() && j < |Finalize(b)|
    ensures exists k :: k in b.values && Finalize(b)[j] == FinalGroup(b.values[k])
  {
    var fg := FinalGroups(b.Values());
    var r := Finalize(b);
    assert r[j] in multiset(fg);
    var i :| 0 <= i < |fg| && fg[i] == r[j];
    assert r[j] == FinalGroup(b.values[b.keys[i]]);
  }

  // ---------------------------------------------------------------------
  // The handler

  /** The loop over `p.variants?.nodes`, pushing onto `g.items`. */
  method PushVariantItems(items: seq<Item>, vs: seq<Variant>) returns (out: seq<Item>)
    ensures out == items + VariantItems(vs)
  {
    out := items;
    for j := 0 to |vs|
      invariant out == items + VariantItems(vs[..j])
    {
      assert vs[..j + 1][..j] == vs[..j];
      var sku := Trim(vs[j].sku);
      if sku != "" {
        out := out + [MakeItem(vs[j])];
      }
    }
    assert vs[..|vs|] == vs;
  }

  /** The loop over `page.nodes`, updating `groupsMap`. */
  method AddPage(b: Builder, nodes: seq<Product>, m: CategoryMap) returns (out: Builder)
    ensures out == AddProducts(b, nodes, m)
  {
    out := b;
    for j := 0 to |nodes|
      invariant out == AddProducts(b, nodes[..j], m)
    {
      assert nodes[..j + 1][..j] == nodes[..j];
      var p := nodes[j];
      var categoria := PickCategoryFromCollections(NonEmptyTrimmed(p.collections), m);
      if categoria != "" {
        var grabado := Trim(p.title);
        var key := GroupKey(categoria, grabado);
        ghost var before := out;
        if key !in out.values {
          out := out.Set(key, Group(categoria, grabado, Trim(p.imageUrl), Trim(p.apps), []));
        }
        var g := out.values[key];
        if g.imagen == "" && p.imageUrl != "" {
          g := g.(imagen := Trim(p.imageUrl));
        }
        var items := PushVariantItems(g.items, p.variants);
        if key !in before.values {
          before.SetTwice(key, NewGroup(p, m), g.(items := items));
        }
        out := out.Set(key, g.(items := items));
      }
    }
    assert nodes[..|nodes|] == nodes;
  }

  /** `Array.from(groupsMap.values()).map(...)` followed by `groups.sort`. */
  method FinalizeGroups(b: Builder) returns (groups: seq<Group>)
    requires b.Valid()
    ensures groups == Finalize(b)
  {
    var vs := b.Values();
    var mapped: seq<Group> := [];
    for i := 0 to |vs|
      invariant mapped == FinalGroups(vs[..i])
    {
      assert vs[..i + 1][..i] == vs[..i];
      var g := vs[i];
      var uniq := Uniq.DedupByKey(g.items, SkuOf);
      mapped := mapped + [g.(items := SortBy(uniq, SkuOf))];
    }
    assert vs[..|vs|] == vs;
    groups := SortBy(mapped, SortKey);
  }

  /** What the handler answers: 400 without an admin token, otherwise
      `{ ok: true, count, groups }`. */
  datatype Response = MissingToken | Catalog(count: nat, groups: seq<Group>)

  /** The response for a token flag, a `limit` parameter, the category
      configuration and the pages the listing returns. */
  function CatalogResponse(hasToken: bool, q: LimitQuery, config: ParsedConfig, pages: seq<Page<Product>>): Response
    requires ListingEnds(pages)
  {
    if !hasToken then MissingToken
    else
      var gs := Finalize(Crawl(pages, CategoryMapOf(config), ClampLimitAsWritten(q)).0);
      Catalog(|gs|, gs)
  }

  /** The finalized groups of a builder whose groups all carry a category
      and sit under their own key are strictly ascending by key, keep their
      category, and list their SKUs strictly ascending. */
  lemma FinalizeOrdered(b: Builder)
    requires b.Valid() && Keyed(b)
    requires forall k :: k in b.values ==> b.values[k].categoria != ""
    ensures var gs := Finalize(b);
      && (forall i, j :: 0 <= i < j < |gs| ==> Less(SortKey(gs[i]), SortKey(gs[j])))
      && (forall i :: 0 <= i < |gs| ==> gs[i].categoria != "")
      && (forall g, i, j :: g in gs && 0 <= i < j < |g.items| ==> Less(g.items[i].sku, g.items[j].sku))
  {
    FinalizeSpec(b);
    var gs := Finalize(b);
    forall i | 0 <= i < |gs| ensures gs[i].categoria != "" && forall x, y :: 0 <= x < y < |gs[i].items| ==> Less(gs[i].items[x].sku, gs[i].items[y].sku) {
      FinalizeOrigin(b, i);
      var k :| k in b.values && gs[i] == FinalGroup(b.values[k]);
      FinalItemsSpec(b.values[k].items);
    }
  }

  /** The groups gathered by a crawl carry a category and sit under their
      own key. */
  lemma CrawlKeyed(pages: seq<Page<Product>>, m: CategoryMap, limit: Limit)
    requires ListingEnds(pages)
    ensures var b := Crawl(pages, m, limit).0;
      Keyed(b) && forall k :: k in b.values ==> b.values[k].categoria != ""
  {
    CrawlSpec(pages, m, limit);
    var n := Crawl(pages, m, limit).1;
    var ps := AllNodes(pages[..n]);
    assert Crawl(pages, m, limit).0 == AddProducts(Empty(), ps, m);
    GroupsKeyed(ps, m);
    BuiltKeyed(ps, m);
  }

  /** The response is an error exactly when the token is missing; otherwise
      `count` is the number of groups, the groups are strictly ascending by
      `categoria||grabado`, each has a category, and the SKUs within each
      group are strictly ascending. */
  lemma CatalogResponseSpec(hasToken: bool, q: LimitQuery, config: ParsedConfig, pages: seq<Page<Product>>)
    requires ListingEnds(pages)
    ensures var r := CatalogResponse(hasToken, q, config, pages);
      && (r.MissingToken? <==> !hasToken)
      && (r.Catalog? ==> r.count == |r.groups|)
      && (r.Catalog? ==> forall i, j :: 0 <= i < j < |r.groups| ==> Less(SortKey(r.groups[i]), SortKey(r.groups[j])))
      && (r.Catalog? ==> forall i :: 0 <= i < |r.groups| ==> r.groups[i].categoria != "")
      && (r.Catalog? ==> forall g, i, j :: g in r.groups && 0 <= i < j < |g.items| ==> Less(g.items[i].sku, g.items[j].sku))
  {
    if hasToken {
      var m, limit := CategoryMapOf(config), ClampLimitAsWritten(q);
      CrawlKeyed(pages, m, limit);
      FinalizeOrdered(Crawl(pages, m, limit).0);
    }
  }

  /** The `while (true)` paging loop: request a page with the current
      cursor, add its products, stop after the last page or once the items
      gathered reach the limit. `cursors` lists the `cursor` sent with each
      request. */
  method CrawlPages(pages: seq<Page<Product>>, m: CategoryMap, limit: Limit)
    returns (b: Builder, cursors: seq<Option<string>>)
    requires ListingEnds(pages)
    ensures (b, |cursors|) == Crawl(pages, m, limit)
    ensures forall j :: 0 <= j < |cursors| ==> j < |pages| && cursors[j] == RequestCursor(pages, j)
  {
    ghost var total := Crawl(pages, m, limit);
    b := Empty();
    var cursor: Option<string> := None;
    var i := 0;
    cursors := [];
    while true
      invariant i <= LastPage(pages) && b.Valid()
      invariant CrawlFrom(b, pages, i, m, limit) == total
      invariant cursor == RequestCursor(pages, i)
      invariant cursors == RequestCursors(pages, i)
      decreases LastPage(pages) - i
    {
      cursors := cursors + [cursor];
      assert cursors == RequestCursors(pages, i + 1);
      var page := pages[i];
      ghost var before := b;
      b := AddPage(b, page.nodes, m);
      CrawlFromStep(before, pages, i, m, limit);
      if !page.hasNextPage {
        break;
      }
      cursor := Some(page.endCursor);
      if LimitReached(ItemCount(b), limit) {
        break;
      }
      i := i + 1;
    }
  }

  /** One turn of the paging loop, as `CrawlFrom` states it. */
  lemma CrawlFromStep(b: Builder, pages: seq<Page<Product>>, i: nat, m: CategoryMap, limit: Limit)
    requires b.Valid() && ListingEnds(pages) && i <= LastPage(pages)
    ensures var b' := AddProducts(b, pages[i].nodes, m);
      && (!pages[i].hasNextPage || LimitReached(ItemCount(b'), limit) ==> CrawlFrom(b, pages, i, m, limit) == (b', i + 1))
      && (pages[i].hasNextPage && !LimitReached(ItemCount(b'), limit) ==>
            i + 1 <= LastPage(pages) && CrawlFrom(b, pages, i, m, limit) == CrawlFrom(b', pages, i + 1, m, limit))
  {
  }

  /** The handler: the token check, the clamp, the category table, the
      paging loop and finalization. */
  method Handler(hasToken: bool, q: LimitQuery, config: ParsedConfig, pages: seq<Page<Product>>)
    returns (res: Response, cursors: seq<Option<string>>)
    requires ListingEnds(pages)
    ensures res == CatalogResponse(hasToken, q, config, pages)
    ensures !hasToken ==> cursors == []
    ensures hasToken ==> |cursors| == Crawl(pages, CategoryMapOf(config), ClampLimitAsWritten(q)).1
    ensures hasToken && q.NotANumber? ==> |cursors| == LastPage(pages) + 1
    ensures forall j :: 0 <= j < |cursors| ==> j < |pages| && cursors[j] == RequestCursor(pages, j)
  {
    if !hasToken {
      return MissingToken, [];
    }
    var limit := ClampLimitAsWritten(q);
    var m := ParseCategoryMap(config);
    var b;
    b, cursors := CrawlPages(pages, m, limit);
    var groups := FinalizeGroups(b);
    res := Catalog(|groups|, groups);
    if q.NotANumber? {
      NaNLimitReadsAll(pages, m);
    }
  }
}
