/** The grouped catalog endpoint: collection titles that contain a slash
    name categories ("parents"), the others name engravings ("treads");
    every product is filed under each (parent, tread) pair it carries, and
    the result is deduplicated by `sku||medida` and sorted at every level. */
module CatalogGrouped {
  import opened Wrappers
  import opened Text
  import opened Order
  import opened Prices
  import opened Paging
  import opened JsMap
  import Uniq
  import Seqs

  // ---------------------------------------------------------------------
  // Parents and treads

  /** `isParentCollection`: the title contains `/`. */
  predicate IsParent(title: string) {
    Contains(title, "/")
  }

  lemma IsParentSlash(title: string)
    ensures IsParent(title) <==> '/' in title
  {
    ContainsChar(title, '/');
  }

  /** `collectionTitles.filter(isParentCollection)`. */
  function Parents(ts: seq<string>): (r: seq<string>)
    ensures |r| <= |ts|
  {
    if ts == [] then []
    else Parents(ts[..|ts| - 1]) + (if IsParent(ts[|ts| - 1]) then [ts[|ts| - 1]] else [])
  }

  /** `collectionTitles.filter((t) => !isParentCollection(t))`. */
  function Treads(ts: seq<string>): (r: seq<string>)
    ensures |r| <= |ts|
  {
    if ts == [] then []
    else Treads(ts[..|ts| - 1]) + (if IsParent(ts[|ts| - 1]) then [] else [ts[|ts| - 1]])
  }

  /** The two filters split the titles: together they hold every title
      exactly as often as the input does, parents on one side and the rest
      on the other. */
  lemma {:induction false} SplitPartition(ts: seq<string>)
    ensures multiset(Parents(ts)) + multiset(Treads(ts)) == multiset(ts)
    ensures forall x :: x in Parents(ts) <==> x in ts && IsParent(x)
    ensures forall x :: x in Treads(ts) <==> x in ts && !IsParent(x)
  {
    if ts != [] {
      var n := |ts| - 1;
      SplitPartition(ts[..n]);
      assert ts == ts[..n] + [ts[n]];
      assert multiset(ts) == multiset(ts[..n]) + multiset{ts[n]};
    }
  }

  // ---------------------------------------------------------------------
  // Products, items, blocks and categories

  /** A variant: `sku`, `title` and `Number(v.price || 0)`. */
  datatype Variant = Variant(sku: string, title: string, price: real)

  /** A product: its title, `featuredImage?.url || ""` (not trimmed), its
      collection titles and its variants. */
  datatype Product = Product(title: string, imageUrl: string, collections: seq<string>, variants: seq<Variant>)

  datatype Item = Item(sku: string, medida: string, precioIva: real, precioSin: real)

  datatype Block = Block(grabado: string, imagen: string, items: seq<Item>)

  /** An entry of `groupsMap`: a category and its `bloques` map. */
  datatype Category = Category(categoria: string, bloques: OrderedMap<Block>)

  type Groups = OrderedMap<Category>

  /** The item pushed for a variant. */
  function MakeItem(v: Variant): (it: Item)
    ensures it.sku == Trim(v.sku) && it.medida == Trim(v.title) && it.precioIva == v.price
    ensures it.precioSin == PriceWithoutTax(v.price)
  {
    Item(Trim(v.sku), Trim(v.title), v.price, PriceWithoutTax(v.price))
  }

  /** The items pushed for a product's variants: those with an empty
      trimmed SKU are skipped. */
  function VariantItems(vs: seq<Variant>): (items: seq<Item>)
    ensures |items| <= |vs|
  {
    if vs == [] then []
    else
      var v := vs[|vs| - 1];
      VariantItems(vs[..|vs| - 1]) + (if Trim(v.sku) == "" then [] else [MakeItem(v)])
  }

  /** Exactly the variants with a SKU are pushed. */
  lemma VariantItemsSpec(vs: seq<Variant>)
    ensures var items := VariantItems(vs);
      && (forall i :: 0 <= i < |vs| && Trim(vs[i].sku) != "" ==> MakeItem(vs[i]) in items)
      && (forall j :: 0 <= j < |items| ==> items[j].sku != "" && exists i :: 0 <= i < |vs| && items[j] == MakeItem(vs[i]))
  {
    VariantItemsComplete(vs);
    var items := VariantItems(vs);
    forall j | 0 <= j < |items| ensures items[j].sku != "" && exists i :: 0 <= i < |vs| && items[j] == MakeItem(vs[i]) {
      VariantItemAt(vs, j);
    }
  }

  /** Every variant with a SKU has its item. */
  lemma VariantItemsComplete(vs: seq<Variant>)
    ensures forall i :: 0 <= i < |vs| && Trim(vs[i].sku) != "" ==> MakeItem(vs[i]) in VariantItems(vs)
  {
    forall i | 0 <= i < |vs| && Trim(vs[i].sku) != "" ensures MakeItem(vs[i]) in VariantItems(vs) {
      VariantItemIn(vs, i);
    }
  }

  lemma {:induction false} VariantItemIn(vs: seq<Variant>, i: nat)
    requires i < |vs| && Trim(vs[i].sku) != ""
    ensures MakeItem(vs[i]) in VariantItems(vs)
  {
    var n := |vs| - 1;
    var prev := VariantItems(vs[..n]);
    if i < n {
      VariantItemIn(vs[..n], i);
      assert vs[..n][i] == vs[i];
      assert prev <= VariantItems(vs);
    } else {
      assert VariantItems(vs) == prev + [MakeItem(vs[n])];
    }
  }

  /** The `j`-th item is the item of a variant with a SKU. */
  lemma {:induction false} VariantItemAt(vs: seq<Variant>, j: nat)
    requires j < |VariantItems(vs)|
    ensures VariantItems(vs)[j].sku != ""
    ensures exists i :: 0 <= i < |vs| && Trim(vs[i].sku) != "" && VariantItems(vs)[j] == MakeItem(vs[i])
  {
    var n := |vs| - 1;
    var prev := VariantItems(vs[..n]);
    if j < |prev| {
      assert VariantItems(vs)[j] == prev[j];
      VariantItemAt(vs[..n], j);
      var i :| 0 <= i < n && Trim(vs[..n][i].sku) != "" && prev[j] == MakeItem(vs[..n][i]);
      assert vs[..n][i] == vs[i];
    } else {
      assert VariantItems(vs)[j] == MakeItem(vs[n]);
    }
  }

  /** The block created for a tread: the product's image, no items. */
  function NewBlock(grabado: string, imageUrl: string): Block {
    Block(grabado, imageUrl, [])
  }

  /** A product's effect on one of its blocks: the image filled in while
      empty, then one item per variant with a SKU. */
  function AddToBlock(blk: Block, imageUrl: string, vs: seq<Variant>): Block {
    var b := if blk.imagen == "" && imageUrl != "" then blk.(imagen := imageUrl) else blk;
    b.(items := b.items + VariantItems(vs))
  }

  /** Every block sits under its own `grabado`. */
  ghost predicate BlocksKeyed(bl: OrderedMap<Block>) {
    bl.Valid() && forall t :: t in bl.values ==> bl.values[t].grabado == t
  }

  /** Every category sits under its own `categoria`, with keyed blocks. */
  ghost predicate GroupsKeyed(gm: Groups) {
    gm.Valid() && forall k :: k in gm.values ==> gm.values[k].categoria == k && BlocksKeyed(gm.values[k].bloques)
  }

  /** The loop over `treads` for one category's `bloques`. */
  function AddTreads(bl: OrderedMap<Block>, treads: seq<string>, imageUrl: string, vs: seq<Variant>): (r: OrderedMap<Block>)
    ensures BlocksKeyed(bl) ==> BlocksKeyed(r)
  {
    if treads == [] then bl
    else
      var prev := AddTreads(bl, treads[..|treads| - 1], imageUrl, vs);
      var t := treads[|treads| - 1];
      prev.Set(t, AddToBlock(if t in prev.values then prev.values[t] else NewBlock(t, imageUrl), imageUrl, vs))
  }

  /** The loop over `parents`, each followed by the loop over `treads`. */
  function AddParents(gm: Groups, parents: seq<string>, treads: seq<string>, imageUrl: string, vs: seq<Variant>): (r: Groups)
    ensures GroupsKeyed(gm) ==> GroupsKeyed(r)
  {
    if parents == [] then gm
    else
      var prev := AddParents(gm, parents[..|parents| - 1], treads, imageUrl, vs);
      var par := parents[|parents| - 1];
      var cat := if par in prev.values then prev.values[par] else Category(par, Empty());
      prev.Set(par, cat.(bloques := AddTreads(cat.bloques, treads, imageUrl, vs)))
  }

  /** One iteration of the product loop: a product without a parent or
      without a tread is skipped. */
  function AddProduct(gm: Groups, p: Product): (r: Groups)
    ensures GroupsKeyed(gm) ==> GroupsKeyed(r)
  {
    var ts := NonEmptyTrimmed(p.collections);
    var parents, treads := Parents(ts), Treads(ts);
    if parents == [] || treads == [] then gm
    else AddParents(gm, parents, treads, p.imageUrl, p.variants)
  }

  function AddProducts(gm: Groups, ps: seq<Product>): (r: Groups)
    ensures GroupsKeyed(gm) ==> GroupsKeyed(r)
  {
    if ps == [] then gm else AddProduct(AddProducts(gm, ps[..|ps| - 1]), ps[|ps| - 1])
  }

  lemma {:induction false} AddProductsAppend(gm: Groups, xs: seq<Product>, ys: seq<Product>)
    ensures AddProducts(gm, xs + ys) == AddProducts(AddProducts(gm, xs), ys)
    decreases |ys|
  {
    if ys == [] {
      assert xs + ys == xs;
    } else {
      var n := |ys| - 1;
      assert (xs + ys)[..|xs + ys| - 1] == xs + ys[..n];
      AddProductsAppend(gm, xs, ys[..n]);
    }
  }

  // ---------------------------------------------------------------------
  // How a product changes the groups

  /** `b` is `a` with, at most, its image filled in and items appended. */
  ghost predicate BlockGrows(a: Block, b: Block) {
    a.grabado == b.grabado && (a.imagen != "" ==> b.imagen == a.imagen) && a.items <= b.items
  }

  ghost predicate BlocksGrow(x: OrderedMap<Block>, y: OrderedMap<Block>) {
    forall t :: t in x.values ==> t in y.values && BlockGrows(x.values[t], y.values[t])
  }

  ghost predicate GroupsGrow(x: Groups, y: Groups) {
    forall k :: k in x.values ==> k in y.values && BlocksGrow(x.values[k].bloques, y.values[k].bloques)
  }

  lemma BlockGrowsTransitive(a: Block, b: Block, c: Block)
    requires BlockGrows(a, b) && BlockGrows(b, c)
    ensures BlockGrows(a, c)
  {
    assert a.items == b.items[..|a.items|] == c.items[..|b.items|][..|a.items|];
  }

  lemma AddToBlockEffect(blk: Block, imageUrl: string, vs: seq<Variant>)
    ensures BlockGrows(blk, AddToBlock(blk, imageUrl, vs))
  {
  }

  lemma GroupsGrowReflexive(gm: Groups)
    ensures GroupsGrow(gm, gm)
  {
    forall k | k in gm.values ensures BlocksGrow(gm.values[k].bloques, gm.values[k].bloques) {
      var bl := gm.values[k].bloques;
      forall t | t in bl.values ensures BlockGrows(bl.values[t], bl.values[t]) {
        assert bl.values[t].items <= bl.values[t].items;
      }
    }
  }

  lemma BlocksGrowTransitive(x: OrderedMap<Block>, y: OrderedMap<Block>, z: OrderedMap<Block>)
    requires BlocksGrow(x, y) && BlocksGrow(y, z)
    ensures BlocksGrow(x, z)
  {
    forall t | t in x.values ensures t in z.values && BlockGrows(x.values[t], z.values[t]) {
      BlockGrowsTransitive(x.values[t], y.values[t], z.values[t]);
    }
  }

  /** The tread loop only grows blocks, and touches no block outside
      `treads`. */
  lemma AddTreadsGrows(bl: OrderedMap<Block>, treads: seq<string>, imageUrl: string, vs: seq<Variant>)
    ensures BlocksGrow(bl, AddTreads(bl, treads, imageUrl, vs))
    ensures forall t :: t !in treads ==>
      (t in AddTreads(bl, treads, imageUrl, vs).values <==> t in bl.values) &&
      (t in bl.values ==> AddTreads(bl, treads, imageUrl, vs).values[t] == bl.values[t])
  {
    AddTreadsGrow(bl, treads, imageUrl, vs);
    forall t | t !in treads
      ensures (t in AddTreads(bl, treads, imageUrl, vs).values <==> t in bl.values)
      ensures (t in bl.values ==> AddTreads(bl, treads, imageUrl, vs).values[t] == bl.values[t])
    {
      AddTreadsBlock(bl, treads, imageUrl, vs, t);
      OccurrencesPositive(treads, t);
    }
  }

  lemma {:induction false} AddTreadsGrow(bl: OrderedMap<Block>, treads: seq<string>, imageUrl: string, vs: seq<Variant>)
    ensures BlocksGrow(bl, AddTreads(bl, treads, imageUrl, vs))
  {
    if treads != [] {
      var n := |treads| - 1;
      AddTreadsGrow(bl, treads[..n], imageUrl, vs);
      var prev := AddTreads(bl, treads[..n], imageUrl, vs);
      var t := treads[n];
      var old_ := if t in prev.values then prev.values[t] else NewBlock(t, imageUrl);
      AddToBlockEffect(old_, imageUrl, vs);
      var r := AddTreads(bl, treads, imageUrl, vs);
      assert r == prev.Set(t, AddToBlock(old_, imageUrl, vs));
      assert BlocksGrow(prev, r);
      BlocksGrowTransitive(bl, prev, r);
    }
  }

  lemma CategoryGrows(gm: Groups, prev: Groups, par: string, treads: seq<string>, imageUrl: string, vs: seq<Variant>)
    requires GroupsGrow(gm, prev)
    ensures var cat := if par in prev.values then prev.values[par] else Category(par, Empty());
      var r := prev.Set(par, cat.(bloques := AddTreads(cat.bloques, treads, imageUrl, vs)));
      GroupsGrow(gm, r) && GroupsGrow(prev, r)
  {
    var cat := if par in prev.values then prev.values[par] else Category(par, Empty());
    AddTreadsGrows(cat.bloques, treads, imageUrl, vs);
    var r := prev.Set(par, cat.(bloques := AddTreads(cat.bloques, treads, imageUrl, vs)));
    forall k | k in gm.values ensures k in r.values && BlocksGrow(gm.values[k].bloques, r.values[k].bloques) {
      if k == par {
        BlocksGrowTransitive(gm.values[k].bloques, prev.values[k].bloques, r.values[k].bloques);
      }
    }
  }

  /** The parent loop only grows categories and their blocks, and touches
      no category outside `parents`. */
  lemma {:induction false} AddParentsGrows(gm: Groups, parents: seq<string>, treads: seq<string>, imageUrl: string, vs: seq<Variant>)
    ensures GroupsGrow(gm, AddParents(gm, parents, treads, imageUrl, vs))
    ensures forall k :: k !in parents ==>
      (k in AddParents(gm, parents, treads, imageUrl, vs).values <==> k in gm.values) &&
      (k in gm.values ==> AddParents(gm, parents, treads, imageUrl, vs).values[k] == gm.values[k])
  {
    if parents == [] {
      GroupsGrowReflexive(gm);
    } else {
      var n := |parents| - 1;
      AddParentsGrows(gm, parents[..n], treads, imageUrl, vs);
      var prev := AddParents(gm, parents[..n], treads, imageUrl, vs);
      CategoryGrows(gm, prev, parents[n], treads, imageUrl, vs);
      assert parents == parents[..n] + [parents[n]];
    }
  }

  /** A product without a parent or without a tread changes nothing. */
  lemma AddProductSkips(gm: Groups, p: Product)
    requires var ts := NonEmptyTrimmed(p.collections); Parents(ts) == [] || Treads(ts) == []
    ensures AddProduct(gm, p) == gm
  {
  }

  /** The block under `(par, t)`, `None` when there is none. */
  function BlockIn(bl: OrderedMap<Block>, t: string): Option<Block> {
    if t in bl.values then Some(bl.values[t]) else None
  }

  function BlockAt(gm: Groups, par: string, t: string): Option<Block> {
    if par in gm.values then BlockIn(gm.values[par].bloques, t) else None
  }

  /** `n` passes of the tread loop's body over the block under `t`: the
      first creates the block, with `imageUrl`, if it is missing; each fills
      an empty image with `imageUrl` and appends the variants' items. */
  function Receive(o: Option<Block>, t: string, imageUrl: string, vs: seq<Variant>, n: nat): Option<Block> {
    if n == 0 then o
    else
      var b := if o.Some? then o.value else NewBlock(t, imageUrl);
      Some(Block(b.grabado, if b.imagen == "" && imageUrl != "" then imageUrl else b.imagen,
                 b.items + Seqs.Repeat(VariantItems(vs), n)))
  }

  /** `a` passes, then `b` more, are `a + b` passes. */
  lemma ReceiveTwice(o: Option<Block>, t: string, imageUrl: string, vs: seq<Variant>, a: nat, b: nat)
    ensures Receive(Receive(o, t, imageUrl, vs, a), t, imageUrl, vs, b) == Receive(o, t, imageUrl, vs, a + b)
  {
    if a != 0 && b != 0 {
      var xs := VariantItems(vs);
      var base := (if o.Some? then o.value else NewBlock(t, imageUrl)).items;
      Seqs.RepeatAdd(xs, a, b);
      assert (base + Seqs.Repeat(xs, a)) + Seqs.Repeat(xs, b) == base + Seqs.Repeat(xs, a + b);
    }
  }

  /** How often `x` occurs in `s`. */
  function Occurrences(s: seq<string>, x: string): nat {
    if s == [] then 0 else Occurrences(s[..|s| - 1], x) + (if s[|s| - 1] == x then 1 else 0)
  }

  lemma {:induction false} OccurrencesPositive(s: seq<string>, x: string)
    ensures Occurrences(s, x) > 0 <==> x in s
  {
    if s != [] {
      var n := |s| - 1;
      OccurrencesPositive(s[..n], x);
      assert s == s[..n] + [s[n]];
    }
  }

  /** One pass of the tread loop, over the block under `t` when the tread
      is `t` and over no block under `t` otherwise. */
  lemma AddTreadsStep(bl: OrderedMap<Block>, treads: seq<string>, imageUrl: string, vs: seq<Variant>, t: string)
    requires treads != []
    ensures var n := |treads| - 1;
      var prev := BlockIn(AddTreads(bl, treads[..n], imageUrl, vs), t);
      BlockIn(AddTreads(bl, treads, imageUrl, vs), t) == Receive(prev, t, imageUrl, vs, if treads[n] == t then 1 else 0)
  {
    assert Seqs.Repeat(VariantItems(vs), 1) == VariantItems(vs);
  }

  /** The tread loop passes over the block under `t` once per occurrence
      of `t` in `treads`. */
  lemma {:induction false} AddTreadsBlock(bl: OrderedMap<Block>, treads: seq<string>, imageUrl: string, vs: seq<Variant>, t: string)
    ensures BlockIn(AddTreads(bl, treads, imageUrl, vs), t) == Receive(BlockIn(bl, t), t, imageUrl, vs, Occurrences(treads, t))
  {
    if treads != [] {
      var n := |treads| - 1;
      AddTreadsBlock(bl, treads[..n], imageUrl, vs, t);
      AddTreadsStep(bl, treads, imageUrl, vs, t);
      ReceiveTwice(BlockIn(bl, t), t, imageUrl, vs, Occurrences(treads[..n], t), if treads[n] == t then 1 else 0);
    }
  }

  /** One pass of the parent loop: over the category `par` when the parent
      is `par`, and over no category `par` otherwise. */
  lemma AddParentsStep(gm: Groups, parents: seq<string>, treads: seq<string>, imageUrl: string, vs: seq<Variant>, par: string, t: string)
    requires parents != []
    ensures var n := |parents| - 1;
      var prev := BlockAt(AddParents(gm, parents[..n], treads, imageUrl, vs), par, t);
      BlockAt(AddParents(gm, parents, treads, imageUrl, vs), par, t)
        == Receive(prev, t, imageUrl, vs, if parents[n] == par then Occurrences(treads, t) else 0)
  {
    var n := |parents| - 1;
    if parents[n] == par {
      var prev := AddParents(gm, parents[..n], treads, imageUrl, vs);
      var cat := if par in prev.values then prev.values[par] else Category(par, Empty());
      assert BlockIn(cat.bloques, t) == BlockAt(prev, par, t);
      AddTreadsBlock(cat.bloques, treads, imageUrl, vs, t);
    }
  }

  /** The parent loop passes over the block under `(par, t)` once per
      occurrence of `par` in `parents` and of `t` in `treads`. */
  lemma {:induction false} AddParentsBlock(gm: Groups, parents: seq<string>, treads: seq<string>, imageUrl: string, vs: seq<Variant>, par: string, t: string)
    ensures BlockAt(AddParents(gm, parents, treads, imageUrl, vs), par, t)
         == Receive(BlockAt(gm, par, t), t, imageUrl, vs, Passes(Occurrences(parents, par), Occurrences(treads, t)))
    decreases |parents|, 1
  {
    if parents != [] {
      AddParentsBlockSnoc(gm, parents, treads, imageUrl, vs, par, t);
    } else {
      assert Passes(Occurrences(parents, par), Occurrences(treads, t)) == 0;
    }
  }

  lemma {:induction false} AddParentsBlockSnoc(gm: Groups, parents: seq<string>, treads: seq<string>, imageUrl: string, vs: seq<Variant>, par: string, t: string)
    requires parents != []
    ensures BlockAt(AddParents(gm, parents, treads, imageUrl, vs), par, t)
         == Receive(BlockAt(gm, par, t), t, imageUrl, vs, Passes(Occurrences(parents, par), Occurrences(treads, t)))
    decreases |parents|, 0
  {
    var n := |parents| - 1;
    var a, c := Occurrences(parents[..n], par), Occurrences(treads, t);
    AddParentsBlock(gm, parents[..n], treads, imageUrl, vs, par, t);
    AddParentsStep(gm, parents, treads, imageUrl, vs, par, t);
    assert Occurrences(parents, par) == a + (if parents[n] == par then 1 else 0);
    ChainPasses(BlockAt(gm, par, t), BlockAt(AddParents(gm, parents[..n], treads, imageUrl, vs), par, t),
                BlockAt(AddParents(gm, parents, treads, imageUrl, vs), par, t),
                t, imageUrl, vs, a, c, parents[n] == par, Occurrences(parents, par));
  }

  /** A round of passes more, or none. */
  lemma ChainPasses(x: Option<Block>, p: Option<Block>, r: Option<Block>, t: string, imageUrl: string, vs: seq<Variant>,
                    a: nat, c: nat, more: bool, m: nat)
    requires p == Receive(x, t, imageUrl, vs, Passes(a, c))
    requires r == Receive(p, t, imageUrl, vs, if more then c else 0)
    requires m == a + (if more then 1 else 0)
    ensures r == Receive(x, t, imageUrl, vs, Passes(m, c))
  {
    ReceiveTwice(x, t, imageUrl, vs, Passes(a, c), if more then c else 0);
    if more {
      assert Passes(m, c) == Passes(a, c) + c;
    }
  }

  /** After the parent loop a category exists exactly when it did before
      or is one of the parents. */
  lemma {:induction false} AddParentsHas(gm: Groups, parents: seq<string>, treads: seq<string>, imageUrl: string, vs: seq<Variant>, par: string)
    ensures par in AddParents(gm, parents, treads, imageUrl, vs).values <==> par in gm.values || par in parents
  {
    if parents != [] {
      var n := |parents| - 1;
      AddParentsHas(gm, parents[..n], treads, imageUrl, vs, par);
      assert parents == parents[..n] + [parents[n]];
    }
  }

  /** How often a product files its items under `(par, t)`: once for each
      occurrence of `par` among its parents and of `t` among its treads. */
  function Times(p: Product, par: string, t: string): nat {
    var ts := NonEmptyTrimmed(p.collections);
    Passes(Occurrences(Parents(ts), par), Occurrences(Treads(ts), t))
  }

  /** The product lists `par` as a parent and `t` as a tread. */
  predicate Lists(p: Product, par: string, t: string) {
    var ts := NonEmptyTrimmed(p.collections);
    par in Parents(ts) && t in Treads(ts)
  }

  /** The product lists `par` as a parent and has a tread. */
  predicate Opens(p: Product, par: string) {
    var ts := NonEmptyTrimmed(p.collections);
    par in Parents(ts) && Treads(ts) != []
  }

  lemma TimesLists(p: Product, par: string, t: string)
    ensures Times(p, par, t) > 0 <==> Lists(p, par, t)
  {
    var ts := NonEmptyTrimmed(p.collections);
    PassesPositive(Occurrences(Parents(ts), par), Occurrences(Treads(ts), t));
    OccurrencesPositive(Parents(ts), par);
    OccurrencesPositive(Treads(ts), t);
  }

  /** `a * c`, as `a` rounds of `c` passes each. */
  function Passes(a: nat, c: nat): nat {
    if a == 0 then 0 else Passes(a - 1, c) + c
  }

  lemma {:induction false} PassesPositive(a: nat, c: nat)
    ensures Passes(a, c) > 0 <==> a > 0 && c > 0
  {
    if a > 0 {
      PassesPositive(a - 1, c);
    }
  }

  /** The block under `(par, t)` receives the product once per
      (parent, tread) occurrence. */
  lemma AddProductBlock(gm: Groups, p: Product, par: string, t: string)
    ensures BlockAt(AddProduct(gm, p), par, t) == Receive(BlockAt(gm, par, t), t, p.imageUrl, p.variants, Times(p, par, t))
  {
    var ts := NonEmptyTrimmed(p.collections);
    var parents, treads := Parents(ts), Treads(ts);
    if parents != [] && treads != [] {
      AddParentsBlock(gm, parents, treads, p.imageUrl, p.variants, par, t);
    } else {
      PassesPositive(Occurrences(parents, par), Occurrences(treads, t));
    }
  }

  /** A product opens the categories it lists as parents, provided it has
      a tread, and no other. */
  lemma AddProductHas(gm: Groups, p: Product, par: string)
    ensures par in AddProduct(gm, p).values <==> par in gm.values || Opens(p, par)
  {
    var ts := NonEmptyTrimmed(p.collections);
    var parents, treads := Parents(ts), Treads(ts);
    if parents != [] && treads != [] {
      AddParentsHas(gm, parents, treads, p.imageUrl, p.variants, par);
    }
  }

  /** One product only grows blocks; the block under `(par, t)` is passed
      over once per (parent, tread) occurrence the product lists, so it is
      created with the product's image, an empty image is filled with it,
      and the product's items are appended that many times, while a block
      the product does not list stays as it is; categories outside the
      product's parents are untouched. */
  lemma AddProductSpec(gm: Groups, p: Product)
    ensures GroupsGrow(gm, AddProduct(gm, p))
    ensures forall par, t :: BlockAt(AddProduct(gm, p), par, t)
                          == Receive(BlockAt(gm, par, t), t, p.imageUrl, p.variants, Times(p, par, t))
    ensures forall par, t :: !Lists(p, par, t) ==> BlockAt(AddProduct(gm, p), par, t) == BlockAt(gm, par, t)
    ensures var ts := NonEmptyTrimmed(p.collections);
      forall k :: k !in Parents(ts) ==>
        (k in AddProduct(gm, p).values <==> k in gm.values) &&
        (k in gm.values ==> AddProduct(gm, p).values[k] == gm.values[k])
  {
    AddProductGrows(gm, p);
    AddProductBlocks(gm, p);
  }

  lemma AddProductGrows(gm: Groups, p: Product)
    ensures GroupsGrow(gm, AddProduct(gm, p))
    ensures var ts := NonEmptyTrimmed(p.collections);
      forall k :: k !in Parents(ts) ==>
        (k in AddProduct(gm, p).values <==> k in gm.values) &&
        (k in gm.values ==> AddProduct(gm, p).values[k] == gm.values[k])
  {
    var ts := NonEmptyTrimmed(p.collections);
    AddParentsGrows(gm, Parents(ts), Treads(ts), p.imageUrl, p.variants);
    GroupsGrowReflexive(gm);
  }

  lemma AddProductBlocks(gm: Groups, p: Product)
    ensures forall par, t :: BlockAt(AddProduct(gm, p), par, t)
                          == Receive(BlockAt(gm, par, t), t, p.imageUrl, p.variants, Times(p, par, t))
    ensures forall par, t :: !Lists(p, par, t) ==> BlockAt(AddProduct(gm, p), par, t) == BlockAt(gm, par, t)
  {
    forall par, t ensures BlockAt(AddProduct(gm, p), par, t)
                       == Receive(BlockAt(gm, par, t), t, p.imageUrl, p.variants, Times(p, par, t)) {
      AddProductBlock(gm, p, par, t);
    }
    forall par, t | !Lists(p, par, t) ensures BlockAt(AddProduct(gm, p), par, t) == BlockAt(gm, par, t) {
      AddProductBlock(gm, p, par, t);
      TimesLists(p, par, t);
    }
  }

  // ---------------------------------------------------------------------
  // The whole run, block by block

  /** Some product of `ps` lists `(par, t)`. */
  predicate Listed(ps: seq<Product>, par: string, t: string) {
    exists i :: 0 <= i < |ps| && Lists(ps[i], par, t)
  }

  /** Some product of `ps` opens the category `par`. */
  predicate Opened(ps: seq<Product>, par: string) {
    exists i :: 0 <= i < |ps| && Opens(ps[i], par)
  }

  /** The image the block under `(par, t)` ends with: the first non-empty
      image among the products that list it, `""` when there is none. */
  function BlockImage(ps: seq<Product>, par: string, t: string): string {
    if ps == [] then ""
    else
      var prev := BlockImage(ps[..|ps| - 1], par, t);
      var p := ps[|ps| - 1];
      if prev == "" && Lists(p, par, t) then p.imageUrl else prev
  }

  /** The items the block under `(par, t)` ends with: each product's
      items, once per (parent, tread) occurrence, in product order. */
  function BlockItems(ps: seq<Product>, par: string, t: string): seq<Item> {
    if ps == [] then []
    else
      var p := ps[|ps| - 1];
      BlockItems(ps[..|ps| - 1], par, t) + Seqs.Repeat(VariantItems(p.variants), Times(p, par, t))
  }

  /** No product listing the pair has an image: the block has none. */
  lemma {:induction false} BlockImageNone(ps: seq<Product>, par: string, t: string)
    requires forall j :: 0 <= j < |ps| && Lists(ps[j], par, t) ==> ps[j].imageUrl == ""
    ensures BlockImage(ps, par, t) == ""
  {
    if ps != [] {
      var n := |ps| - 1;
      forall j | 0 <= j < n && Lists(ps[..n][j], par, t) ensures ps[..n][j].imageUrl == "" {
        assert ps[..n][j] == ps[j];
      }
      BlockImageNone(ps[..n], par, t);
    }
  }

  /** The block takes the image of the first product listing it whose
      image is not empty. */
  lemma {:induction false} BlockImageFirst(ps: seq<Product>, par: string, t: string, i: nat)
    requires i < |ps| && Lists(ps[i], par, t) && ps[i].imageUrl != ""
    requires forall j :: 0 <= j < i && Lists(ps[j], par, t) ==> ps[j].imageUrl == ""
    ensures BlockImage(ps, par, t) == ps[i].imageUrl
  {
    var n := |ps| - 1;
    var init := ps[..n];
    forall j | 0 <= j < i && j < n && Lists(init[j], par, t) ensures init[j].imageUrl == "" {
      assert init[j] == ps[j];
    }
    if i == n {
      BlockImageNone(init, par, t);
    } else {
      assert init[i] == ps[i];
      BlockImageFirst(init, par, t, i);
    }
  }

  lemma ListedSnoc(ps: seq<Product>, par: string, t: string)
    requires ps != []
    ensures Listed(ps, par, t) <==> Listed(ps[..|ps| - 1], par, t) || Lists(ps[|ps| - 1], par, t)
  {
    var n := |ps| - 1;
    assert forall i :: 0 <= i < n ==> ps[..n][i] == ps[i];
  }

  lemma OpenedSnoc(ps: seq<Product>, par: string)
    requires ps != []
    ensures Opened(ps, par) <==> Opened(ps[..|ps| - 1], par) || Opens(ps[|ps| - 1], par)
  {
    var n := |ps| - 1;
    assert forall i :: 0 <= i < n ==> ps[..n][i] == ps[i];
  }

  /** A pair no product lists has neither image nor items. */
  lemma {:induction false} UnlistedEmpty(ps: seq<Product>, par: string, t: string)
    requires !Listed(ps, par, t)
    ensures BlockImage(ps, par, t) == "" && BlockItems(ps, par, t) == []
  {
    if ps != [] {
      var n := |ps| - 1;
      ListedSnoc(ps, par, t);
      TimesLists(ps[n], par, t);
      UnlistedEmpty(ps[..n], par, t);
    }
  }

  /** The block under `(par, t)` as the products `ps` leave it. */
  function BlockOf(ps: seq<Product>, par: string, t: string): Option<Block> {
    if Listed(ps, par, t) then Some(Block(t, BlockImage(ps, par, t), BlockItems(ps, par, t))) else None
  }

  /** One more product passes over that block as often as it lists the
      pair. */
  lemma BlockOfSnoc(ps: seq<Product>, par: string, t: string)
    requires ps != []
    ensures var p := ps[|ps| - 1];
      BlockOf(ps, par, t) == Receive(BlockOf(ps[..|ps| - 1], par, t), t, p.imageUrl, p.variants, Times(p, par, t))
  {
    var n := |ps| - 1;
    var init, p := ps[..n], ps[n];
    var k := Times(p, par, t);
    var more := Seqs.Repeat(VariantItems(p.variants), k);
    TimesLists(p, par, t);
    ListedSnoc(ps, par, t);
    assert BlockItems(ps, par, t) == BlockItems(init, par, t) + more;
    if k == 0 {
      assert BlockItems(init, par, t) + more == BlockItems(init, par, t);
    } else if !Listed(init, par, t) {
      UnlistedEmpty(init, par, t);
      assert [] + more == more;
    }
  }

  /** After the whole product loop the block under `(par, t)` exists exactly
      when some product lists `par` as a parent and `t` as a tread; it sits
      under `t`, its image is the first non-empty image among those
      products, and its items are their items, once per (parent, tread)
      occurrence, in product order. */
  lemma {:induction false} AddProductsBlock(ps: seq<Product>, par: string, t: string)
    ensures BlockAt(AddProducts(Empty(), ps), par, t)
         == if Listed(ps, par, t) then Some(Block(t, BlockImage(ps, par, t), BlockItems(ps, par, t))) else None
  {
    if ps != [] {
      var n := |ps| - 1;
      var init, p := ps[..n], ps[n];
      AddProductsBlock(init, par, t);
      AddProductBlock(AddProducts(Empty(), init), p, par, t);
      BlockOfSnoc(ps, par, t);
    }
  }

  /** After the whole product loop a category exists exactly when some
      product lists it as a parent and has a tread. */
  lemma {:induction false} AddProductsCategory(ps: seq<Product>, par: string)
    ensures par in AddProducts(Empty(), ps).values <==> Opened(ps, par)
  {
    if ps != [] {
      var n := |ps| - 1;
      AddProductsCategory(ps[..n], par);
      AddProductHas(AddProducts(Empty(), ps[..n]), ps[n], par);
      OpenedSnoc(ps, par);
    }
  }

  // ---------------------------------------------------------------------
  // Paging

  /** The groups after the `while (true)` loop: every product of every page
      up to the first one without a successor. */
  function Collected(pages: seq<Page<Product>>): (gm: Groups)
    requires ListingEnds(pages)
    ensures GroupsKeyed(gm)
  {
    AddProducts(Empty(), AllNodes(pages[..LastPage(pages) + 1]))
  }

  // ---------------------------------------------------------------------
  // Deduplication and ordering of the result

  function SkuOf(it: Item): string {
    it.sku
  }

  /** The `uniq` key `` `${it.sku}||${it.medida}` ``. */
  function ItemKey(it: Item): string {
    it.sku + "||" + it.medida
  }

  /** The key does not separate its parts: two different (SKU, size) pairs
      can share it, and then only the later item is kept. */
  lemma ItemKeyCollides()
    ensures ItemKey(Item("A||B", "C", 0.0, 0.0)) == ItemKey(Item("A", "B||C", 0.0, 0.0))
  {
  }

  /** `b.items` after the `uniq` map and the sort by SKU. */
  function FinalItems(items: seq<Item>): seq<Item> {
    SortBy(Uniq.DedupLast(items, ItemKey), SkuOf)
  }

  /** After finalization a block is sorted by SKU, holds at most one item per
      `sku||medida` key, loses no key of its input, and keeps for each key the
      last item pushed with it. */
  lemma FinalItemsSpec(items: seq<Item>)
    ensures var r := FinalItems(items);
      && SortedBy(r, SkuOf)
      && DistinctKeys(r, ItemKey)
      && (forall i :: 0 <= i < |items| ==> exists j :: 0 <= j < |r| && ItemKey(r[j]) == ItemKey(items[i]))
      && (forall j :: 0 <= j < |r| ==> r[j] in items && r[j] == Uniq.LastWithKey(items, ItemKey, ItemKey(r[j])))
  {
    Uniq.DedupLastSpec(items, ItemKey);
    PermutationKeepsDistinct(Uniq.DedupLast(items, ItemKey), FinalItems(items), ItemKey);
    FinalItemsCover(items);
    FinalItemsKept(items);
  }

  lemma FinalItemsCover(items: seq<Item>)
    requires var d := Uniq.DedupLast(items, ItemKey);
      forall i :: 0 <= i < |items| ==> exists j :: 0 <= j < |d| && ItemKey(d[j]) == ItemKey(items[i])
    ensures var r := FinalItems(items);
      forall i :: 0 <= i < |items| ==> exists j :: 0 <= j < |r| && ItemKey(r[j]) == ItemKey(items[i])
  {
    var d := Uniq.DedupLast(items, ItemKey);
    var r := FinalItems(items);
    forall i | 0 <= i < |items| ensures exists j :: 0 <= j < |r| && ItemKey(r[j]) == ItemKey(items[i]) {
      var j :| 0 <= j < |d| && ItemKey(d[j]) == ItemKey(items[i]);
      assert d[j] in multiset(r);
      var j' :| 0 <= j' < |r| && r[j'] == d[j];
    }
  }

  lemma FinalItemsKept(items: seq<Item>)
    requires var d := Uniq.DedupLast(items, ItemKey);
      forall j :: 0 <= j < |d| ==> d[j] in items && d[j] == Uniq.LastWithKey(items, ItemKey, ItemKey(d[j]))
    ensures var r := FinalItems(items);
      forall j :: 0 <= j < |r| ==> r[j] in items && r[j] == Uniq.LastWithKey(items, ItemKey, ItemKey(r[j]))
  {
    var d := Uniq.DedupLast(items, ItemKey);
    var r := FinalItems(items);
    forall j | 0 <= j < |r| ensures r[j] in items && r[j] == Uniq.LastWithKey(items, ItemKey, ItemKey(r[j])) {
      assert r[j] in multiset(d);
      var i :| 0 <= i < |d| && d[i] == r[j];
    }
  }

  function FinalBlock(b: Block): (r: Block)
    ensures r.grabado == b.grabado && r.imagen == b.imagen
  {
    b.(items := FinalItems(b.items))
  }

  /** `Array.from(g.bloques.values()).map(...)`. */
  function FinalBlocks(bs: seq<Block>): (r: seq<Block>)
    ensures |r| == |bs|
    ensures forall i :: 0 <= i < |bs| ==> r[i] == FinalBlock(bs[i])
  {
    Seqs.Map(bs, FinalBlock)
  }

  function GrabadoOf(b: Block): string {
    b.grabado
  }

  /** A category of the response: `{ categoria, bloques: bloquesArr }`. */
  datatype OutCategory = OutCategory(categoria: string, bloques: seq<Block>)

  function CategoriaOf(c: OutCategory): string {
    c.categoria
  }

  /** One call of the `.map` over `groupsMap.values()`: the category's
      blocks, each finalized, sorted by `grabado`. */
  function FinalCategory(c: Category): (r: OutCategory)
    ensures r.categoria == c.categoria
  {
    OutCategory(c.categoria, SortBy(FinalBlocks(ValuesOf(c.bloques.keys, c.bloques.values)), GrabadoOf))
  }

  function FinalCategories(cs: seq<Category>): (r: seq<OutCategory>)
    ensures |r| == |cs|
  {
    Seqs.Map(cs, FinalCategory)
  }

  /** The `groups` array of the response, sorted by category. */
  function Finalize(gm: Groups): seq<OutCategory>
    requires gm.Valid()
  {
    SortBy(FinalCategories(gm.Values()), CategoriaOf)
  }

  /** The blocks of a finalized category are strictly ascending by
      `grabado`, one per key of its `bloques`, each finalized. */
  lemma FinalCategorySpec(c: Category)
    requires BlocksKeyed(c.bloques)
    ensures var r := FinalCategory(c).bloques;
      && |r| == |c.bloques.keys|
      && (forall i, j :: 0 <= i < j < |r| ==> Less(GrabadoOf(r[i]), GrabadoOf(r[j])))
      && (forall t :: t in c.bloques.values ==> FinalBlock(c.bloques.values[t]) in r)
      && (forall b :: b in r ==> exists t :: t in c.bloques.values && b == FinalBlock(c.bloques.values[t]))
  {
    var fb := FinalBlocks(c.bloques.Values());
    assert FinalCategory(c).bloques == SortBy(fb, GrabadoOf);
    FinalBlocksDistinct(c.bloques);
    SortByStrict(fb, GrabadoOf);
    SortByMembers(fb, GrabadoOf);
    FinalBlocksMembers(c.bloques);
  }

  lemma FinalBlocksDistinct(bl: OrderedMap<Block>)
    requires BlocksKeyed(bl)
    ensures DistinctKeys(FinalBlocks(bl.Values()), GrabadoOf)
  {
    var fb := FinalBlocks(bl.Values());
    forall i, j | 0 <= i < j < |fb| ensures GrabadoOf(fb[i]) != GrabadoOf(fb[j]) {
      assert GrabadoOf(fb[i]) == bl.keys[i] && GrabadoOf(fb[j]) == bl.keys[j];
    }
  }

  lemma FinalBlocksMembers(bl: OrderedMap<Block>)
    requires bl.Valid()
    ensures var fb := FinalBlocks(bl.Values());
      && (forall t :: t in bl.values ==> FinalBlock(bl.values[t]) in fb)
      && (forall b :: b in fb ==> exists t :: t in bl.values && b == FinalBlock(bl.values[t]))
  {
    JsMap.MapValuesMembers(bl, FinalBlock);
  }

  /** The response holds one finalized category per key of `groupsMap`,
      strictly ascending by `categoria`. */
  lemma FinalizeSpec(gm: Groups)
    requires GroupsKeyed(gm)
    ensures var r := Finalize(gm);
      && |r| == |gm.keys|
      && (forall i, j :: 0 <= i < j < |r| ==> Less(CategoriaOf(r[i]), CategoriaOf(r[j])))
      && (forall k :: k in gm.values ==> FinalCategory(gm.values[k]) in r)
      && (forall c :: c in r ==> exists k :: k in gm.values && c == FinalCategory(gm.values[k]))
  {
    var fc := FinalCategories(gm.Values());
    assert Finalize(gm) == SortBy(fc, CategoriaOf);
    FinalCategoriesDistinct(gm);
    SortByStrict(fc, CategoriaOf);
    SortByMembers(fc, CategoriaOf);
    FinalCategoriesMembers(gm);
  }

  lemma FinalCategoriesDistinct(gm: Groups)
    requires GroupsKeyed(gm)
    ensures DistinctKeys(FinalCategories(gm.Values()), CategoriaOf)
  {
    var fc := FinalCategories(gm.Values());
    forall i, j | 0 <= i < j < |fc| ensures CategoriaOf(fc[i]) != CategoriaOf(fc[j]) {
      assert CategoriaOf(fc[i]) == gm.keys[i] && CategoriaOf(fc[j]) == gm.keys[j];
    }
  }

  lemma FinalCategoriesMembers(gm: Groups)
    requires GroupsKeyed(gm)
    ensures var fc := FinalCategories(gm.Values());
      && (forall k :: k in gm.values ==> FinalCategory(gm.values[k]) in fc)
      && (forall c :: c in fc ==> exists k :: k in gm.values && c == FinalCategory(gm.values[k]))
  {
    JsMap.MapValuesMembers(gm, FinalCategory);
  }

  // ---------------------------------------------------------------------
  // The handler

  /** The loop over `p.variants?.nodes`, pushing onto `bloque.items`. */
  method PushVariantItems(items: seq<Item>, vs: seq<Variant>) returns (out: seq<Item>)
    ensures out == items + VariantItems(vs)
  {
    out := items;
    for j := 0 to |vs|
      invariant out == items + VariantItems(vs[..j])
    {
      assert vs[..j + 1][..j] == vs[..j];
      var sku := Trim(vs[j].sku);
      if sku != "" {
        out := out + [MakeItem(vs[j])];
      }
    }
    assert vs[..|vs|] == vs;
  }

  /** The loop over `treads`, updating `group.bloques`. */
  method AddTreadsLoop(bl: OrderedMap<Block>, treads: seq<string>, imageUrl: string, vs: seq<Variant>)
    returns (out: OrderedMap<Block>)
    ensures out == AddTreads(bl, treads, imageUrl, vs)
  {
    out := bl;
    for j := 0 to |treads|
      invariant out == AddTreads(bl, treads[..j], imageUrl, vs)
    {
      assert treads[..j + 1][..j] == treads[..j];
      var grabado := treads[j];
      ghost var before := out;
      if grabado !in out.values {
        out := out.Set(grabado, Block(grabado, imageUrl, []));
      }
      var bloque := out.values[grabado];
      if bloque.imagen == "" && imageUrl != "" {
        bloque := bloque.(imagen := imageUrl);
      }
      var items := PushVariantItems(bloque.items, vs);
      if grabado !in before.values {
        before.SetTwice(grabado, NewBlock(grabado, imageUrl), bloque.(items := items));
      }
      out := out.Set(grabado, bloque.(items := items));
    }
    assert treads[..|treads|] == treads;
  }

  /** The loop over `parents`, each category created if absent and its
      `bloques` updated by the tread loop. */
  method AddParentsLoop(gm: Groups, parents: seq<string>, treads: seq<string>, imageUrl: string, vs: seq<Variant>)
    returns (out: Groups)
    ensures out == AddParents(gm, parents, treads, imageUrl, vs)
  {
    out := gm;
    for j := 0 to |parents|
      invariant out == AddParents(gm, parents[..j], treads, imageUrl, vs)
    {
      assert parents[..j + 1][..j] == parents[..j];
      var parent := parents[j];
      ghost var before := out;
      if parent !in out.values {
        out := out.Set(parent, Category(parent, Empty()));
      }
      var group := out.values[parent];
      var bloques := AddTreadsLoop(group.bloques, treads, imageUrl, vs);
      if parent !in before.values {
        before.SetTwice(parent, Category(parent, Empty()), group.(bloques := bloques));
      }
      out := out.Set(parent, group.(bloques := bloques));
    }
    assert parents[..|parents|] == parents;
  }

  /** One product: the partition of its titles, the skip, and the parent
      loop. */
  method AddProductStep(gm: Groups, p: Product) returns (out: Groups)
    ensures out == AddProduct(gm, p)
  {
    var titles := NonEmptyTrimmed(p.collections);
    var parents, treads := Parents(titles), Treads(titles);
    if parents == [] || treads == [] {
      return gm;
    }
    out := AddParentsLoop(gm, parents, treads, p.imageUrl, p.variants);
  }

  /** The loop over `page.nodes`. */
  method AddPage(gm: Groups, nodes: seq<Product>) returns (out: Groups)
    ensures out == AddProducts(gm, nodes)
  {
    out := gm;
    for j := 0 to |nodes|
      invariant out == AddProducts(gm, nodes[..j])
    {
      assert nodes[..j + 1][..j] == nodes[..j];
      out := AddProductStep(out, nodes[j]);
    }
    assert nodes[..|nodes|] == nodes;
  }

  lemma CollectedStep(pages: seq<Page<Product>>, i: nat)
    requires i < |pages|
    ensures AddProducts(Empty(), AllNodes(pages[..i + 1]))
         == AddProducts(AddProducts(Empty(), AllNodes(pages[..i])), pages[i].nodes)
  {
    assert pages[..i + 1][..i] == pages[..i];
    AddProductsAppend(Empty(), AllNodes(pages[..i]), pages[i].nodes);
  }

  /** The `while (true)` loop: it requests pages until one reports no
      successor. `cursors` lists the `cursor` sent with each request. */
  method CollectPages(pages: seq<Page<Product>>) returns (gm: Groups, cursors: seq<Option<string>>)
    requires ListingEnds(pages)
    ensures gm == Collected(pages)
    ensures |cursors| == LastPage(pages) + 1
    ensures forall j :: 0 <= j < |cursors| ==> cursors[j] == RequestCursor(pages, j)
  {
    gm := Empty();
    var cursor: Option<string> := None;
    var i := 0;
    cursors := [];
    assert pages[..0] == [];
    while true
      invariant i <= LastPage(pages)
      invariant gm == AddProducts(Empty(), AllNodes(pages[..i]))
      invariant cursor == RequestCursor(pages, i)
      invariant cursors == RequestCursors(pages, i)
      decreases LastPage(pages) - i
    {
      cursors := cursors + [cursor];
      assert cursors == RequestCursors(pages, i + 1);
      var page := pages[i];
      CollectedStep(pages, i);
      gm := AddPage(gm, page.nodes);
      if !page.hasNextPage {
        break;
      }
      cursor := Some(page.endCursor);
      i := i + 1;
    }
  }

  /** The inner `.map` over one category's blocks, with the `uniq` map and
      the sort by SKU, then the sort of the blocks. */
  method FinalizeCategory(g: Category) returns (c: OutCategory)
    requires g.bloques.Valid()
    ensures c == FinalCategory(g)
  {
    var bs := g.bloques.Values();
    var bloquesArr: seq<Block> := [];
    for j := 0 to |bs|
      invariant bloquesArr == FinalBlocks(bs[..j])
    {
      Seqs.MapSnoc(bs, FinalBlock, j);
      var b := bs[j];
      var uniq := Uniq.DedupByKey(b.items, ItemKey);
      bloquesArr := bloquesArr + [b.(items := SortBy(uniq, SkuOf))];
    }
    assert bs[..|bs|] == bs;
    bloquesArr := SortBy(bloquesArr, GrabadoOf);
    c := OutCategory(g.categoria, bloquesArr);
  }

  lemma ValueKeyed(gm: Groups, i: nat)
    requires GroupsKeyed(gm) && i < |gm.keys|
    ensures gm.Values()[i].bloques.Valid()
  {
    assert gm.Values()[i] == gm.values[gm.keys[i]];
  }

  /** The outer `.map` over `groupsMap.values()` and the sort by
      category. */
  method FinalizeGroups(gm: Groups) returns (groups: seq<OutCategory>)
    requires GroupsKeyed(gm)
    ensures groups == Finalize(gm)
  {
    var cs := gm.Values();
    var mapped: seq<OutCategory> := [];
    for i := 0 to |cs|
      invariant mapped == FinalCategories(cs[..i])
    {
      ValueKeyed(gm, i);
      Seqs.MapSnoc(cs, FinalCategory, i);
      var c := FinalizeCategory(cs[i]);
      mapped := mapped + [c];
    }
    assert cs[..|cs|] == cs;
    groups := SortBy(mapped, CategoriaOf);
  }

  /** What the handler answers: 400 without an admin token, otherwise
      `{ ok: true, count, groups }`. */
  datatype Response = MissingToken | Catalog(count: nat, groups: seq<OutCategory>)

  function CatalogResponse(hasToken: bool, pages: seq<Page<Product>>): Response
    requires ListingEnds(pages)
  {
    if !hasToken then MissingToken
    else
      var gs := Finalize(Collected(pages));
      Catalog(|gs|, gs)
  }

  /** The response is an error exactly when the token is missing; otherwise
      `count` is the number of categories, categories are strictly ascending
      by name, the blocks of each strictly ascending by engraving, and the
      items of each block sorted by SKU with one item per `sku||medida`. */
  lemma CatalogResponseSpec(hasToken: bool, pages: seq<Page<Product>>)
    requires ListingEnds(pages)
    ensures var r := CatalogResponse(hasToken, pages);
      && (r.MissingToken? <==> !hasToken)
      && (r.Catalog? ==> r.count == |r.groups|)
      && (r.Catalog? ==> forall i, j :: 0 <= i < j < |r.groups| ==> Less(CategoriaOf(r.groups[i]), CategoriaOf(r.groups[j])))
      && (r.Catalog? ==> forall c, i, j :: c in r.groups && 0 <= i < j < |c.bloques| ==> Less(GrabadoOf(c.bloques[i]), GrabadoOf(c.bloques[j])))
      && (r.Catalog? ==> forall c, b :: c in r.groups && b in c.bloques ==> SortedBy(b.items, SkuOf) && DistinctKeys(b.items, ItemKey))
  {
    if hasToken {
      var gm := Collected(pages);
      FinalizeSpec(gm);
      var gs := Finalize(gm);
      forall c | c in gs
        ensures (forall i, j :: 0 <= i < j < |c.bloques| ==> Less(GrabadoOf(c.bloques[i]), GrabadoOf(c.bloques[j])))
        ensures forall b :: b in c.bloques ==> SortedBy(b.items, SkuOf) && DistinctKeys(b.items, ItemKey)
      {
        var k :| k in gm.values && c == FinalCategory(gm.values[k]);
        FinalCategorySpec(gm.values[k]);
        forall b | b in c.bloques ensures SortedBy(b.items, SkuOf) && DistinctKeys(b.items, ItemKey) {
          var t :| t in gm.values[k].bloques.values && b == FinalBlock(gm.values[k].bloques.values[t]);
          FinalItemsSpec(gm.values[k].bloques.values[t].items);
        }
      }
    }
  }

  /** The products of the pages the handler reads, in order. */
  function ListedProducts(pages: seq<Page<Product>>): seq<Product>
    requires ListingEnds(pages)
  {
    AllNodes(pages[..LastPage(pages) + 1])
  }

  /** Block `b`, shown under category `par`, is the block the products
      `ps` make for the pair: some product lists the pair, and `b` carries
      the pair's first non-empty image and its items deduplicated and
      sorted. */
  ghost predicate BlockFromListing(ps: seq<Product>, par: string, b: Block) {
    && Listed(ps, par, b.grabado)
    && b.imagen == BlockImage(ps, par, b.grabado)
    && b.items == FinalItems(BlockItems(ps, par, b.grabado))
  }

  /** Every block of the response belongs to a (category, engraving) pair
      some product read lists, carries that pair's first non-empty image,
      and holds that pair's items deduplicated and sorted; and every pair
      some product read lists has its block in the response. */
  lemma CatalogBlocksSpec(hasToken: bool, pages: seq<Page<Product>>)
    requires ListingEnds(pages)
    ensures var r, ps := CatalogResponse(hasToken, pages), ListedProducts(pages);
      && (r.Catalog? ==> forall c, b :: c in r.groups && b in c.bloques ==> BlockFromListing(ps, c.categoria, b))
      && (r.Catalog? ==> forall par, t :: Listed(ps, par, t) ==>
            exists i, j :: 0 <= i < |r.groups| && 0 <= j < |r.groups[i].bloques|
                        && r.groups[i].categoria == par && r.groups[i].bloques[j].grabado == t)
  {
    if hasToken {
      var ps := ListedProducts(pages);
      var gm := Collected(pages);
      var gs := Finalize(gm);
      forall c, b | c in gs && b in c.bloques
        ensures BlockFromListing(ps, c.categoria, b)
      {
        ResponseBlock(gm, c, b);
        CollectedBlock(pages, c.categoria, b.grabado);
      }
      forall par, t | Listed(ps, par, t)
        ensures exists i, j :: 0 <= i < |gs| && 0 <= j < |gs[i].bloques| && gs[i].categoria == par && gs[i].bloques[j].grabado == t
      {
        CollectedBlock(pages, par, t);
        BlockInResponse(gm, par, t);
      }
    }
  }

  /** The categories of the response are exactly those some product read
      lists as a parent while having a tread. */
  lemma CatalogCategoriesSpec(hasToken: bool, pages: seq<Page<Product>>)
    requires ListingEnds(pages)
    ensures var r, ps := CatalogResponse(hasToken, pages), ListedProducts(pages);
      && (r.Catalog? ==> forall c :: c in r.groups ==> Opened(ps, c.categoria))
      && (r.Catalog? ==> forall par :: Opened(ps, par) ==>
            exists i :: 0 <= i < |r.groups| && r.groups[i].categoria == par)
  {
    if hasToken {
      var ps := ListedProducts(pages);
      var gm := Collected(pages);
      var gs := Finalize(gm);
      FinalizeSpec(gm);
      forall c | c in gs ensures Opened(ps, c.categoria) {
        var k :| k in gm.values && c == FinalCategory(gm.values[k]);
        CollectedCategory(pages, k);
      }
      forall par | Opened(ps, par) ensures exists i :: 0 <= i < |gs| && gs[i].categoria == par {
        CollectedCategory(pages, par);
        var i :| 0 <= i < |gs| && gs[i] == FinalCategory(gm.values[par]);
      }
    }
  }

  /** The categories the handler gathers are those the products it reads
      open. */
  lemma CollectedCategory(pages: seq<Page<Product>>, par: string)
    requires ListingEnds(pages)
    ensures par in Collected(pages).values <==> Opened(ListedProducts(pages), par)
  {
    AddProductsCategory(ListedProducts(pages), par);
  }

  /** The blocks the handler gathers are those of the products it reads. */
  lemma CollectedBlock(pages: seq<Page<Product>>, par: string, t: string)
    requires ListingEnds(pages)
    ensures BlockAt(Collected(pages), par, t) == BlockOf(ListedProducts(pages), par, t)
  {
    AddProductsBlock(ListedProducts(pages), par, t);
  }

  /** A block of the response is a gathered block, finalized. */
  lemma ResponseBlock(gm: Groups, c: OutCategory, b: Block)
    requires GroupsKeyed(gm)
    requires c in Finalize(gm) && b in c.bloques
    ensures var o := BlockAt(gm, c.categoria, b.grabado);
      o.Some? && b == FinalBlock(o.value)
  {
    FinalizeSpec(gm);
    var k :| k in gm.values && c == FinalCategory(gm.values[k]);
    var bl := gm.values[k].bloques;
    FinalCategorySpec(gm.values[k]);
    var t :| t in bl.values && b == FinalBlock(bl.values[t]);
  }

  /** A gathered block appears in the response, under its category. */
  lemma BlockInResponse(gm: Groups, par: string, t: string)
    requires GroupsKeyed(gm)
    requires BlockAt(gm, par, t).Some?
    ensures var gs := Finalize(gm);
      exists i, j :: 0 <= i < |gs| && 0 <= j < |gs[i].bloques| && gs[i].categoria == par && gs[i].bloques[j].grabado == t
  {
    var gs := Finalize(gm);
    FinalizeSpec(gm);
    var cat := gm.values[par];
    FinalCategorySpec(cat);
    var oc := FinalCategory(cat);
    var i :| 0 <= i < |gs| && gs[i] == oc;
    var j :| 0 <= j < |oc.bloques| && oc.bloques[j] == FinalBlock(cat.bloques.values[t]);
  }

  /** The handler: the token check, the paging loop and finalization. */
  method Handler(hasToken: bool, pages: seq<Page<Product>>) returns (res: Response, cursors: seq<Option<string>>)
    requires ListingEnds(pages)
    ensures res == CatalogResponse(hasToken, pages)
    ensures !hasToken ==> cursors == []
    ensures hasToken ==> |cursors| == LastPage(pages) + 1 && forall j :: 0 <= j < |cursors| ==> cursors[j] == RequestCursor(pages, j)
  {
    if !hasToken {
      return MissingToken, [];
    }
    var gm;
    gm, cursors := CollectPages(pages);
    var groups := FinalizeGroups(gm);
    res := Catalog(|groups|, groups);
  }
}
