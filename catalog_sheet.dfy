/** The spreadsheet endpoint: every product is read, its parent category
    found from its collection titles, and every variant with a SKU becomes
    one row of the `CATALOGO` worksheet, optionally with the product image
    anchored in the `IMAGEN` column of that row. */
module CatalogSheet {
  import opened Wrappers
  import opened Text
  import opened Prices
  import opened Paging

  // ---------------------------------------------------------------------
  // The parent table

  /** `PARENT_BY_CHILD`: each parent category with its child collection
      names, in `Object.keys` order. */
  type ParentTable = seq<(string, seq<string>)>

  const ParentByChild: ParentTable := [("TOURING", TouringChildren)]

  /** `titles.map((t) => t.toLowerCase())`. */
  function LowerAll(titles: seq<string>): (r: seq<string>)
    ensures |r| == |titles|
    ensures forall i :: 0 <= i < |titles| ==> r[i] == Lower(titles[i])
  {
    seq(|titles|, i requires 0 <= i < |titles| => Lower(titles[i]))
  }

  /** `children.some((child) => lower.some((t) => t.includes(child.toLowerCase())))`. */
  predicate Hit(lower: seq<string>, children: seq<string>) {
    exists c, t :: c in children && t in lower && Contains(t, Lower(c))
  }

  /** `parentFromCollections` over any table: the first parent one of
      whose children occurs in a lower-cased title, or `""`. */
  function ParentFrom(titles: seq<string>, table: ParentTable): string {
    if table == [] then ""
    else if Hit(LowerAll(titles), table[0].1) then table[0].0
    else ParentFrom(titles, table[1..])
  }

  /** The parent found is the first one of the table whose children hit;
      `""` exactly when no entry hits (and no parent is named `""`). */
  lemma {:induction false} ParentFromSpec(titles: seq<string>, table: ParentTable)
    ensures var r, lower := ParentFrom(titles, table), LowerAll(titles);
      || (r == "" && forall i :: 0 <= i < |table| ==> !Hit(lower, table[i].1))
      || (exists i :: 0 <= i < |table| && r == table[i].0 && Hit(lower, table[i].1)
            && forall j :: 0 <= j < i ==> !Hit(lower, table[j].1))
  {
    var lower := LowerAll(titles);
    if table != [] && !Hit(lower, table[0].1) {
      ParentFromSpec(titles, table[1..]);
      var r := ParentFrom(titles, table[1..]);
      if r == "" && forall i :: 0 <= i < |table| - 1 ==> !Hit(lower, table[1..][i].1) {
        forall i | 0 <= i < |table| ensures !Hit(lower, table[i].1) {
          if i > 0 {
            assert table[i] == table[1..][i - 1];
          }
        }
      } else {
        var i :| 0 <= i < |table| - 1 && r == table[1..][i].0 && Hit(lower, table[1..][i].1)
          && forall j :: 0 <= j < i ==> !Hit(lower, table[1..][j].1);
        assert table[i + 1] == table[1..][i];
        forall j | 0 <= j < i + 1 ensures !Hit(lower, table[j].1) {
          if j > 0 {
            assert table[j] == table[1..][j - 1];
          }
        }
      }
    }
  }

  /** The children of the shipped table, already lower-cased. */
  const TouringChildren: seq<string> := ["mrf", "snake", "angus", "esport"]

  /** A title contains one of the shipped children. */
  predicate TouringTitle(t: string) {
    Contains(t, "mrf") || Contains(t, "snake") || Contains(t, "angus") || Contains(t, "esport")
  }

  lemma LowerChildren()
    ensures forall c :: c in TouringChildren ==> Lower(c) == c
  {
    forall c | c in TouringChildren ensures Lower(c) == c {
      LowerOfLowercase(c);
    }
  }

  lemma TouringHit(lower: seq<string>)
    ensures Hit(lower, TouringChildren) <==> exists t :: t in lower && TouringTitle(t)
  {
    if Hit(lower, TouringChildren) {
      var c, t :| c in TouringChildren && t in lower && Contains(t, Lower(c));
      ChildTitle(c, t);
    }
    if exists t :: t in lower && TouringTitle(t) {
      var t :| t in lower && TouringTitle(t);
      TitleChild(t);
    }
  }

  lemma ChildTitle(c: string, t: string)
    requires c in TouringChildren && Contains(t, Lower(c))
    ensures TouringTitle(t)
  {
    LowerChildren();
  }

  lemma TitleChild(t: string)
    requires TouringTitle(t)
    ensures exists c :: c in TouringChildren && Contains(t, Lower(c))
  {
    LowerChildren();
    var c := if Contains(t, "mrf") then "mrf" else if Contains(t, "snake") then "snake"
      else if Contains(t, "angus") then "angus" else "esport";
    assert c in TouringChildren && Contains(t, Lower(c));
  }

  /** With the shipped table the parent is `TOURING` exactly when some
      lower-cased collection title contains `mrf`, `snake`, `angus` or
      `esport`, and `""` otherwise. */
  lemma TouringRule(titles: seq<string>)
    ensures var r := ParentFrom(titles, ParentByChild);
      && (r == "" || r == "TOURING")
      && (r == "TOURING" <==> exists t :: t in LowerAll(titles) && TouringTitle(t))
  {
    assert ParentByChild[0].1 == TouringChildren;
    assert ParentByChild[1..] == [];
    TouringHit(LowerAll(titles));
  }

  /** The loop of `parentFromCollections` over `Object.keys(PARENT_BY_CHILD)`. */
  method ParentFromCollections(titles: seq<string>, table: ParentTable) returns (parent: string)
    ensures parent == ParentFrom(titles, table)
  {
    var lower := LowerAll(titles);
    for i := 0 to |table|
      invariant ParentFrom(titles, table) == ParentFrom(titles, table[i..])
    {
      assert table[i..][1..] == table[i + 1..];
      if Hit(lower, table[i].1) {
        return table[i].0;
      }
    }
    return "";
  }

  // ---------------------------------------------------------------------
  // Products and rows

  /** `Number(v.price || 0)`: a number, or `NaN` for text that is not one. */
  datatype Amount = Num(value: real) | NaN

  /** A variant node; a missing `sku` or `title` is `""` and a missing
      price is `Num(0.0)`. */
  datatype Variant = Variant(sku: string, title: string, price: Amount)

  /** A product node; missing `productType`, `featuredImage.url`, `nombre`
      and `apps` values are `""`. */
  datatype Product = Product(
    title: string, productType: string, imageUrl: string, nombre: string, apps: string,
    collections: seq<string>, variants: seq<Variant>)

  /** One data row of the worksheet, column by column. */
  datatype Row = Row(
    categoria: string, imagen: string, nombre: string, sku: string, medida: string,
    precioIva: Amount, precioSin: real, apps: string)

  /** An image placed with its top-left corner at 0-based (`col`, `row`),
      90 by 90 pixels. */
  datatype Image = Image(ext: string, col: nat, row: nat)

  /** `categoriaPadre || (p.productType || "")`. */
  function Categoria(p: Product): (r: string)
    ensures var parent := ParentFrom(p.collections, ParentByChild);
      (parent != "" ==> r == parent) && (parent == "" ==> r == p.productType)
  {
    var parent := ParentFrom(p.collections, ParentByChild);
    if parent != "" then parent else p.productType
  }

  /** `(p.nombre?.value || "").trim() || p.title`. */
  function Nombre(p: Product): (r: string)
    ensures Trim(p.nombre) != "" ==> r == Trim(p.nombre)
    ensures Trim(p.nombre) == "" ==> r == p.title
  {
    if Trim(p.nombre) != "" then Trim(p.nombre) else p.title
  }

  /** `precioIva ? round2(precioIva / (1 + IVA)) : 0`; `NaN` and `0` are
      both falsy. */
  function PriceWithoutTaxOf(precioIva: Amount): (r: real)
    ensures precioIva.NaN? || precioIva == Num(0.0) ==> r == 0.0
    ensures precioIva.Num? && precioIva.value != 0.0 ==>
      precioIva.value / (1.0 + IVA) - 0.005 < r <= precioIva.value / (1.0 + IVA) + 0.005
    ensures r == (r * 100.0).Floor as real / 100.0
  {
    match precioIva
    case Num(x) => PriceWithoutTax(x)
    case NaN => 0.0
  }

  /** The row `ws.addRow` receives for variant `v` of product `p`. */
  function MakeRow(p: Product, v: Variant): (r: Row)
    ensures r.categoria == Categoria(p) && r.nombre == Nombre(p)
    ensures r.sku == Trim(v.sku) && r.medida == Trim(v.title)
    ensures r.imagen == p.imageUrl && r.apps == Trim(p.apps)
    ensures r.precioIva == v.price && r.precioSin == PriceWithoutTaxOf(v.price)
  {
    Row(Categoria(p), p.imageUrl, Nombre(p), Trim(v.sku), Trim(v.title), v.price, PriceWithoutTaxOf(v.price), Trim(p.apps))
  }

  /** `ext`: `jpeg` when the lower-cased URL contains `.jpg` or `.jpeg`,
      `png` otherwise. */
  function ExtOf(url: string): (r: string)
    ensures r == "jpeg" || r == "png"
  {
    if Contains(Lower(url), ".jpg") || Contains(Lower(url), ".jpeg") then "jpeg" else "png"
  }

  /** The extension test ignores the case of the URL. */
  lemma ExtOfIgnoresCase(url: string)
    ensures ExtOf(Upper(url)) == ExtOf(url)
  {
    LowerUpper(url);
  }

  /** A URL ending in `.jpg` or `.jpeg`, in any case, is a JPEG. */
  lemma ExtOfJpegSuffix(base: string)
    ensures ExtOf(base + ".jpg") == "jpeg" && ExtOf(base + ".JPG") == "jpeg"
    ensures ExtOf(base + ".jpeg") == "jpeg" && ExtOf(base + ".JPEG") == "jpeg"
  {
    LowerSuffix(base, ".jpg", ".jpg");
    LowerSuffix(base, ".JPG", ".jpg");
    LowerSuffix(base, ".jpeg", ".jpeg");
    LowerSuffix(base, ".JPEG", ".jpeg");
  }

  /** A URL without any `.` is written as PNG. */
  lemma ExtOfNoDot(url: string)
    requires '.' !in url
    ensures ExtOf(url) == "png"
  {
    ContainsHead(Lower(url), ".jpg");
    ContainsHead(Lower(url), ".jpeg");
  }

  /** The lowered URL ends with `t` lowered, so it contains the prefix `q`
      of that. */
  lemma LowerSuffix(base: string, t: string, q: string)
    requires |q| <= |t| && forall i :: 0 <= i < |q| ==> LowerChar(t[i]) == q[i]
    ensures Contains(Lower(base + t), q)
  {
    var s := Lower(base + t);
    assert q <= s[|base|..];
    ContainsInfix(s, |base|, q);
  }

  lemma {:induction false} ContainsHead(s: string, t: string)
    requires t != []
    ensures Contains(s, t) ==> t[0] in s
  {
    if s != [] && !(t <= s) {
      ContainsHead(s[1..], t);
    }
  }

  lemma LowerUpper(s: string)
    ensures Lower(Upper(s)) == Lower(s)
  {
    assert forall i :: 0 <= i < |s| ==> Lower(Upper(s))[i] == Lower(s)[i];
  }

  /** An image is placed for a row when embedding was asked for, the URL
      starts with `http` and downloading it succeeds (`fetchOk`); a failed
      download is swallowed by the empty `catch`. */
  predicate Embeds(url: string, embed: bool, fetchOk: string -> bool) {
    embed && StartsWith(url, "http") && fetchOk(url)
  }

  /** The rows and images written so far. */
  datatype Emitted = Emitted(rows: seq<Row>, images: seq<Image>)

  /** The body of the inner loop for one variant: a variant without a
      trimmed SKU is skipped; otherwise its row is added as sheet row
      `rowIndex = 2 + |rows|` and its image, if any, anchored at column 1,
      row `rowIndex - 1`. */
  function AddVariant(e: Emitted, p: Product, v: Variant, embed: bool, fetchOk: string -> bool): Emitted {
    if Trim(v.sku) == "" then e
    else
      var rowIndex := 2 + |e.rows|;
      var images := if Embeds(p.imageUrl, embed, fetchOk)
        then e.images + [Image(ExtOf(p.imageUrl), 1, rowIndex - 1)]
        else e.images;
      Emitted(e.rows + [MakeRow(p, v)], images)
  }

  function AddVariants(e: Emitted, p: Product, vs: seq<Variant>, embed: bool, fetchOk: string -> bool): Emitted {
    if vs == [] then e
    else AddVariant(AddVariants(e, p, vs[..|vs| - 1], embed, fetchOk), p, vs[|vs| - 1], embed, fetchOk)
  }

  /** The outer loop over the products. */
  function AddProducts(e: Emitted, ps: seq<Product>, embed: bool, fetchOk: string -> bool): Emitted {
    if ps == [] then e
    else
      var last := ps[|ps| - 1];
      AddVariants(AddProducts(e, ps[..|ps| - 1], embed, fetchOk), last, last.variants, embed, fetchOk)
  }

  // ---------------------------------------------------------------------
  // The rows, stated independently of the loop

  /** The rows of one product: one per variant with a non-empty trimmed
      SKU, in variant order. */
  function VariantRows(p: Product, vs: seq<Variant>): seq<Row> {
    if vs == [] then []
    else (if Trim(vs[0].sku) == "" then [] else [MakeRow(p, vs[0])]) + VariantRows(p, vs[1..])
  }

  /** The rows of all products, product after product. */
  function AllRows(ps: seq<Product>): seq<Row> {
    if ps == [] then []
    else
      var last := ps[|ps| - 1];
      AllRows(ps[..|ps| - 1]) + VariantRows(last, last.variants)
  }

  /** A product's rows are the rows of exactly its variants with a SKU, and
      every one has a non-empty trimmed SKU. */
  lemma {:induction false} VariantRowsSpec(p: Product, vs: seq<Variant>)
    ensures var rs := VariantRows(p, vs);
      && |rs| <= |vs|
      && (forall i :: 0 <= i < |vs| && Trim(vs[i].sku) != "" ==> MakeRow(p, vs[i]) in rs)
      && (forall j :: 0 <= j < |rs| ==>
            (rs[j].sku != "" && rs[j].sku == Trim(rs[j].sku)
             && exists i :: 0 <= i < |vs| && rs[j] == MakeRow(p, vs[i])))
  {
    VariantRowsComplete(p, vs);
    VariantRowsSound(p, vs);
    var rs := VariantRows(p, vs);
    forall j | 0 <= j < |rs| ensures rs[j].sku != "" && rs[j].sku == Trim(rs[j].sku) {
      var i :| 0 <= i < |vs| && Trim(vs[i].sku) != "" && rs[j] == MakeRow(p, vs[i]);
      TrimIdempotent(vs[i].sku);
    }
  }

  /** Every variant with a SKU has its row. */
  lemma {:induction false} VariantRowsComplete(p: Product, vs: seq<Variant>)
    ensures forall i :: 0 <= i < |vs| && Trim(vs[i].sku) != "" ==> MakeRow(p, vs[i]) in VariantRows(p, vs)
  {
    if vs != [] {
      VariantRowsComplete(p, vs[1..]);
      forall i | 0 <= i < |vs| && Trim(vs[i].sku) != "" ensures MakeRow(p, vs[i]) in VariantRows(p, vs) {
        if i > 0 {
          assert vs[i] == vs[1..][i - 1];
        }
      }
    }
  }

  /** Every row is the row of a variant with a SKU. */
  lemma VariantRowsSound(p: Product, vs: seq<Variant>)
    ensures var rs := VariantRows(p, vs);
      && |rs| <= |vs|
      && (forall j :: 0 <= j < |rs| ==>
            exists i :: 0 <= i < |vs| && Trim(vs[i].sku) != "" && rs[j] == MakeRow(p, vs[i]))
  {
    VariantRowsLength(p, vs);
    forall j | 0 <= j < |VariantRows(p, vs)|
      ensures exists i :: 0 <= i < |vs| && Trim(vs[i].sku) != "" && VariantRows(p, vs)[j] == MakeRow(p, vs[i])
    {
      VariantRowAt(p, vs, j);
    }
  }

  lemma {:induction false} VariantRowsLength(p: Product, vs: seq<Variant>)
    ensures |VariantRows(p, vs)| <= |vs|
  {
    if vs != [] {
      VariantRowsLength(p, vs[1..]);
    }
  }

  /** The `j`-th row is the row of some variant with a SKU. */
  lemma {:induction false} VariantRowAt(p: Product, vs: seq<Variant>, j: nat)
    requires j < |VariantRows(p, vs)|
    ensures exists i :: 0 <= i < |vs| && Trim(vs[i].sku) != "" && VariantRows(p, vs)[j] == MakeRow(p, vs[i])
  {
    var rest := VariantRows(p, vs[1..]);
    if Trim(vs[0].sku) != "" && j == 0 {
      assert VariantRows(p, vs)[0] == MakeRow(p, vs[0]);
    } else {
      var k := if Trim(vs[0].sku) == "" then j else j - 1;
      assert VariantRows(p, vs)[j] == rest[k];
      VariantRowAt(p, vs[1..], k);
      var i :| 0 <= i < |vs| - 1 && Trim(vs[1..][i].sku) != "" && rest[k] == MakeRow(p, vs[1..][i]);
      assert vs[1..][i] == vs[i + 1];
    }
  }

  lemma {:induction false} VariantRowsAppend(p: Product, xs: seq<Variant>, ys: seq<Variant>)
    ensures VariantRows(p, xs + ys) == VariantRows(p, xs) + VariantRows(p, ys)
  {
    if xs == [] {
      assert xs + ys == ys;
    } else {
      assert (xs + ys)[1..] == xs[1..] + ys;
      VariantRowsAppend(p, xs[1..], ys);
    }
  }

  lemma VariantRowsSnoc(p: Product, vs: seq<Variant>)
    requires vs != []
    ensures VariantRows(p, vs) == VariantRows(p, vs[..|vs| - 1]) + VariantRows(p, [vs[|vs| - 1]])
  {
    var n := |vs| - 1;
    assert vs[..n] + [vs[n]] == vs;
    VariantRowsAppend(p, vs[..n], [vs[n]]);
  }

  /** The inner loop appends exactly the product's rows. */
  lemma {:induction false} AddVariantsRows(e: Emitted, p: Product, vs: seq<Variant>, embed: bool, fetchOk: string -> bool)
    ensures AddVariants(e, p, vs, embed, fetchOk).rows == e.rows + VariantRows(p, vs)
  {
    if vs != [] {
      var n := |vs| - 1;
      var prev := AddVariants(e, p, vs[..n], embed, fetchOk);
      AddVariantsRows(e, p, vs[..n], embed, fetchOk);
      AddVariantRowsStep(prev, p, vs[n], embed, fetchOk);
      VariantRowsSnoc(p, vs);
    }
  }

  /** One variant appends its own rows. */
  lemma AddVariantRowsStep(e: Emitted, p: Product, v: Variant, embed: bool, fetchOk: string -> bool)
    ensures AddVariant(e, p, v, embed, fetchOk).rows == e.rows + VariantRows(p, [v])
  {
    assert [v][1..] == [];
  }

  /** Whatever the images, the worksheet rows are `AllRows`: one row per
      variant with a SKU, products in listing order, variants in product
      order. */
  lemma {:induction false} AddProductsRows(e: Emitted, ps: seq<Product>, embed: bool, fetchOk: string -> bool)
    ensures AddProducts(e, ps, embed, fetchOk).rows == e.rows + AllRows(ps)
  {
    if ps != [] {
      var n := |ps| - 1;
      AddProductsRows(e, ps[..n], embed, fetchOk);
      var mid := AddProducts(e, ps[..n], embed, fetchOk);
      AddVariantsRows(mid, ps[n], ps[n].variants, embed, fetchOk);
    }
  }

  /** Every product row is in the sheet and every sheet row is one of a
      product's variants, with a non-empty trimmed SKU. */
  lemma AllRowsSpec(ps: seq<Product>)
    ensures var rs := AllRows(ps);
      && (forall i, k :: 0 <= i < |ps| && 0 <= k < |ps[i].variants| && Trim(ps[i].variants[k].sku) != ""
            ==> MakeRow(ps[i], ps[i].variants[k]) in rs)
      && (forall j :: 0 <= j < |rs| ==>
            (rs[j].sku != "" && rs[j].sku == Trim(rs[j].sku)
             && exists i, k :: 0 <= i < |ps| && 0 <= k < |ps[i].variants| && rs[j] == MakeRow(ps[i], ps[i].variants[k])))
  {
    AllRowsComplete(ps);
    AllRowsSound(ps);
    var rs := AllRows(ps);
    forall j | 0 <= j < |rs|
      ensures rs[j].sku != "" && rs[j].sku == Trim(rs[j].sku)
      ensures exists i, k :: 0 <= i < |ps| && 0 <= k < |ps[i].variants| && rs[j] == MakeRow(ps[i], ps[i].variants[k])
    {
      assert rs[j] in rs;
    }
  }

  /** Every variant with a SKU, of every product, has its row. */
  lemma AllRowsComplete(ps: seq<Product>)
    ensures forall i, k :: 0 <= i < |ps| && 0 <= k < |ps[i].variants| && Trim(ps[i].variants[k].sku) != ""
                       ==> MakeRow(ps[i], ps[i].variants[k]) in AllRows(ps)
  {
    forall i, k | 0 <= i < |ps| && 0 <= k < |ps[i].variants| && Trim(ps[i].variants[k].sku) != ""
      ensures MakeRow(ps[i], ps[i].variants[k]) in AllRows(ps)
    {
      VariantRowsComplete(ps[i], ps[i].variants);
      AllRowsHas(ps, i, MakeRow(ps[i], ps[i].variants[k]));
    }
  }

  /** Each product's rows are among the sheet's. */
  lemma {:induction false} AllRowsHas(ps: seq<Product>, i: nat, r: Row)
    requires i < |ps| && r in VariantRows(ps[i], ps[i].variants)
    ensures r in AllRows(ps)
  {
    var n := |ps| - 1;
    assert AllRows(ps) == AllRows(ps[..n]) + VariantRows(ps[n], ps[n].variants);
    if i < n {
      assert ps[..n][i] == ps[i];
      AllRowsHas(ps[..n], i, r);
    }
  }

  /** Every row is the row of a variant, with a SKU, of one of the
      products. */
  lemma {:induction false} AllRowsSound(ps: seq<Product>)
    ensures forall r :: r in AllRows(ps) ==>
      && r.sku != "" && r.sku == Trim(r.sku)
      && exists i, k :: 0 <= i < |ps| && 0 <= k < |ps[i].variants| && r == MakeRow(ps[i], ps[i].variants[k])
  {
    if ps != [] {
      var n := |ps| - 1;
      AllRowsSound(ps[..n]);
      VariantRowsSpec(ps[n], ps[n].variants);
      var init, last := AllRows(ps[..n]), VariantRows(ps[n], ps[n].variants);
      assert AllRows(ps) == init + last;
      forall r: Row | r in init + last
        ensures && r.sku != "" && r.sku == Trim(r.sku)
                && exists i, k :: 0 <= i < |ps| && 0 <= k < |ps[i].variants| && r == MakeRow(ps[i], ps[i].variants[k])
      {
        if r in last {
          var j :| 0 <= j < |last| && last[j] == r;
          var k :| 0 <= k < |ps[n].variants| && r == MakeRow(ps[n], ps[n].variants[k]);
        } else {
          var i, k :| 0 <= i < n && 0 <= k < |ps[..n][i].variants| && r == MakeRow(ps[..n][i], ps[..n][i].variants[k]);
          assert ps[..n][i] == ps[i];
        }
      }
    }
  }

  // ---------------------------------------------------------------------
  // The images

  /** Each image sits in column 1 at the 0-based row of a data row that
      embeds its URL, with that URL's extension. */
  predicate ImagesPlaced(e: Emitted, embed: bool, fetchOk: string -> bool) {
    forall k :: 0 <= k < |e.images| ==>
      && 1 <= e.images[k].row <= |e.rows| && e.images[k].col == 1
      && Embeds(e.rows[e.images[k].row - 1].imagen, embed, fetchOk)
      && e.images[k].ext == ExtOf(e.rows[e.images[k].row - 1].imagen)
  }

  /** Anchors strictly increase. */
  predicate ImagesOrdered(images: seq<Image>) {
    forall k, l :: 0 <= k < l < |images| ==> images[k].row < images[l].row
  }

  /** Every data row that embeds its URL has its image. */
  predicate RowsCovered(e: Emitted, embed: bool, fetchOk: string -> bool) {
    forall i :: 0 <= i < |e.rows| && Embeds(e.rows[i].imagen, embed, fetchOk) ==>
      exists k :: 0 <= k < |e.images| && e.images[k].row == i + 1
  }

  /** Images match rows. */
  predicate ImagesMatch(e: Emitted, embed: bool, fetchOk: string -> bool) {
    ImagesPlaced(e, embed, fetchOk) && ImagesOrdered(e.images) && RowsCovered(e, embed, fetchOk)
  }

  /** The image, if any, that a new row adds after `rows`. */
  function NewImage(rows: seq<Row>, row: Row, embed: bool, fetchOk: string -> bool): seq<Image> {
    if Embeds(row.imagen, embed, fetchOk) then [Image(ExtOf(row.imagen), 1, |rows| + 1)] else []
  }

  lemma PlacedStep(e: Emitted, row: Row, embed: bool, fetchOk: string -> bool)
    requires ImagesPlaced(e, embed, fetchOk)
    ensures ImagesPlaced(Emitted(e.rows + [row], e.images + NewImage(e.rows, row, embed, fetchOk)), embed, fetchOk)
  {
    var rows, images := e.rows + [row], e.images + NewImage(e.rows, row, embed, fetchOk);
    forall k | 0 <= k < |images| ensures 1 <= images[k].row <= |rows| && images[k].col == 1
        && Embeds(rows[images[k].row - 1].imagen, embed, fetchOk)
        && images[k].ext == ExtOf(rows[images[k].row - 1].imagen)
    {
      if k < |e.images| {
        assert images[k] == e.images[k];
        assert rows[e.images[k].row - 1] == e.rows[e.images[k].row - 1];
      } else {
        assert rows[|e.rows|] == row;
      }
    }
  }

  lemma OrderedStep(e: Emitted, row: Row, embed: bool, fetchOk: string -> bool)
    requires ImagesPlaced(e, embed, fetchOk) && ImagesOrdered(e.images)
    ensures ImagesOrdered(e.images + NewImage(e.rows, row, embed, fetchOk))
  {
  }

  lemma CoveredStep(e: Emitted, row: Row, embed: bool, fetchOk: string -> bool)
    requires RowsCovered(e, embed, fetchOk)
    ensures RowsCovered(Emitted(e.rows + [row], e.images + NewImage(e.rows, row, embed, fetchOk)), embed, fetchOk)
  {
    var rows, images := e.rows + [row], e.images + NewImage(e.rows, row, embed, fetchOk);
    forall i | 0 <= i < |rows| && Embeds(rows[i].imagen, embed, fetchOk)
      ensures exists k :: 0 <= k < |images| && images[k].row == i + 1
    {
      if i < |e.rows| {
        assert rows[i] == e.rows[i];
        var k :| 0 <= k < |e.images| && e.images[k].row == i + 1;
        assert images[k] == e.images[k];
      } else {
        assert images[|images| - 1].row == i + 1;
      }
    }
  }

  lemma AddVariantImages(e: Emitted, p: Product, v: Variant, embed: bool, fetchOk: string -> bool)
    requires ImagesMatch(e, embed, fetchOk)
    ensures ImagesMatch(AddVariant(e, p, v, embed, fetchOk), embed, fetchOk)
  {
    if Trim(v.sku) != "" {
      var row := MakeRow(p, v);
      assert AddVariant(e, p, v, embed, fetchOk) == Emitted(e.rows + [row], e.images + NewImage(e.rows, row, embed, fetchOk));
      PlacedStep(e, row, embed, fetchOk);
      OrderedStep(e, row, embed, fetchOk);
      CoveredStep(e, row, embed, fetchOk);
    }
  }

  lemma {:induction false} AddVariantsImages(e: Emitted, p: Product, vs: seq<Variant>, embed: bool, fetchOk: string -> bool)
    requires ImagesMatch(e, embed, fetchOk)
    ensures ImagesMatch(AddVariants(e, p, vs, embed, fetchOk), embed, fetchOk)
  {
    if vs != [] {
      AddVariantsImages(e, p, vs[..|vs| - 1], embed, fetchOk);
      AddVariantImages(AddVariants(e, p, vs[..|vs| - 1], embed, fetchOk), p, vs[|vs| - 1], embed, fetchOk);
    }
  }

  /** The outer loop keeps images and rows matched. */
  lemma {:induction false} AddProductsImages(e: Emitted, ps: seq<Product>, embed: bool, fetchOk: string -> bool)
    requires ImagesMatch(e, embed, fetchOk)
    ensures ImagesMatch(AddProducts(e, ps, embed, fetchOk), embed, fetchOk)
  {
    if ps != [] {
      var n := |ps| - 1;
      AddProductsImages(e, ps[..n], embed, fetchOk);
      AddVariantsImages(AddProducts(e, ps[..n], embed, fetchOk), ps[n], ps[n].variants, embed, fetchOk);
    }
  }

  /** Without `embedImages=1` no image is ever added. */
  lemma {:induction false} NoEmbedNoImages(e: Emitted, ps: seq<Product>, fetchOk: string -> bool)
    ensures AddProducts(e, ps, false, fetchOk).images == e.images
  {
    if ps != [] {
      var n := |ps| - 1;
      NoEmbedNoImages(e, ps[..n], fetchOk);
      NoEmbedVariants(AddProducts(e, ps[..n], false, fetchOk), ps[n], ps[n].variants, fetchOk);
    }
  }

  lemma {:induction false} NoEmbedVariants(e: Emitted, p: Product, vs: seq<Variant>, fetchOk: string -> bool)
    ensures AddVariants(e, p, vs, false, fetchOk).images == e.images
  {
    if vs != [] {
      NoEmbedVariants(e, p, vs[..|vs| - 1], fetchOk);
    }
  }

  // ---------------------------------------------------------------------
  // The request

  /** `String(req.query.embedImages || "0") === "1"`: a missing or empty
      parameter reads as `"0"`, so images are embedded exactly when the
      parameter is `"1"`. */
  function EmbedFlag(q: Option<string>): (embed: bool)
    ensures embed <==> q == Some("1")
    ensures q == None || q == Some("") ==> !embed
  {
    match q
    case Some(s) => (if s == "" then "0" else s) == "1"
    case None => false
  }

  /** `ws.columns`: the header row, column by column. */
  const Columns: seq<string> := [
    "CATEGOR\U{CD}A", "IMAGEN", "NOMBRE DE LA LLANTA", "REF INTERNA", "MEDIDA",
    "PRECIO + IVA", "PRECIO SIN IVA", "APLICACIONES"]

  /** The worksheet `CATALOGO`: the header row, the data rows from sheet
      row 2 on, and the anchored images. */
  datatype Sheet = Sheet(name: string, columns: seq<string>, rows: seq<Row>, images: seq<Image>)

  datatype Response = MissingToken | Workbook(fileName: string, sheet: Sheet)

  /** Every product of the listing, page after page. */
  function Products(pages: seq<Page<Product>>): seq<Product>
    requires ListingEnds(pages)
  {
    AllNodes(pages[..LastPage(pages) + 1])
  }

  /** What the handler answers: status 400 without a token, otherwise the
      workbook built from every product of the listing. */
  function CatalogResponse(hasToken: bool, embedQ: Option<string>, pages: seq<Page<Product>>, fetchOk: string -> bool): Response
    requires ListingEnds(pages)
  {
    if !hasToken then MissingToken
    else
      var e := AddProducts(Emitted([], []), Products(pages), EmbedFlag(embedQ), fetchOk);
      Workbook("catalogo_paytton.xlsx", Sheet("CATALOGO", Columns, e.rows, e.images))
  }

  /** The response is an error exactly without a token; otherwise the rows
      are exactly `AllRows` of the listed products, at most one image per
      row, each in the row of a variant whose product image is embedded,
      and none unless `embedImages=1`. */
  lemma CatalogResponseSpec(hasToken: bool, embedQ: Option<string>, pages: seq<Page<Product>>, fetchOk: string -> bool)
    requires ListingEnds(pages)
    ensures var r := CatalogResponse(hasToken, embedQ, pages, fetchOk);
      && (r.MissingToken? <==> !hasToken)
      && (r.Workbook? ==> r.sheet.rows == AllRows(Products(pages)))
      && (r.Workbook? ==> ImagesMatch(Emitted(r.sheet.rows, r.sheet.images), EmbedFlag(embedQ), fetchOk))
      && (r.Workbook? && embedQ != Some("1") ==> r.sheet.images == [])
  {
    if hasToken {
      var e0 := Emitted([], []);
      var ps, embed := Products(pages), EmbedFlag(embedQ);
      AddProductsRows(e0, ps, embed, fetchOk);
      AddProductsImages(e0, ps, embed, fetchOk);
      if embedQ != Some("1") {
        NoEmbedNoImages(e0, ps, fetchOk);
      }
    }
  }

  /** Strictly increasing anchors from row 1 on: the k-th is at least
      k + 1. */
  lemma {:induction false} AnchorsAbove(images: seq<Image>, k: nat)
    requires ImagesOrdered(images) && k < |images|
    requires forall l :: 0 <= l < |images| ==> 1 <= images[l].row
    ensures images[k].row >= k + 1
  {
    if k > 0 {
      AnchorsAbove(images, k - 1);
    }
  }

  /** Matched images are at most one per row. */
  lemma ImagesAtMostRows(e: Emitted, embed: bool, fetchOk: string -> bool)
    requires ImagesMatch(e, embed, fetchOk)
    ensures |e.images| <= |e.rows|
  {
    if e.images != [] {
      AnchorsAbove(e.images, |e.images| - 1);
    }
  }

  // ---------------------------------------------------------------------
  // The handler

  lemma AllNodesStep(pages: seq<Page<Product>>, i: nat)
    requires i < |pages|
    ensures AllNodes(pages[..i + 1]) == AllNodes(pages[..i]) + pages[i].nodes
  {
    assert pages[..i + 1][..i] == pages[..i];
  }

  /** The `while (true)` loop: `products.push(...page.nodes)` until a page
      reports no successor. */
  method CollectProducts(pages: seq<Page<Product>>) returns (products: seq<Product>, cursors: seq<Option<string>>)
    requires ListingEnds(pages)
    ensures products == Products(pages)
    ensures |cursors| == LastPage(pages) + 1
    ensures forall j :: 0 <= j < |cursors| ==> cursors[j] == RequestCursor(pages, j)
  {
    products := [];
    var cursor: Option<string> := None;
    var i := 0;
    cursors := [];
    assert pages[..0] == [];
    while true
      invariant i <= LastPage(pages)
      invariant products == AllNodes(pages[..i])
      invariant cursor == RequestCursor(pages, i)
      invariant cursors == RequestCursors(pages, i)
      decreases LastPage(pages) - i
    {
      cursors := cursors + [cursor];
      assert cursors == RequestCursors(pages, i + 1);
      var page := pages[i];
      AllNodesStep(pages, i);
      products := products + page.nodes;
      if !page.hasNextPage {
        break;
      }
      cursor := Some(page.endCursor);
      i := i + 1;
    }
  }

  /** The inner `for (const v of p.variants)` loop, with `rowIndex`. */
  method AddVariantRows(rows: seq<Row>, images: seq<Image>, rowIndex: nat, p: Product, embed: bool, fetchOk: string -> bool)
    returns (rows': seq<Row>, images': seq<Image>, rowIndex': nat)
    requires rowIndex == 2 + |rows|
    ensures Emitted(rows', images') == AddVariants(Emitted(rows, images), p, p.variants, embed, fetchOk)
    ensures rowIndex' == 2 + |rows'|
  {
    var categoria := Categoria(p);
    var nombre := Nombre(p);
    var appsText := Trim(p.apps);
    var imageUrl := p.imageUrl;
    var vs := p.variants;
    rows', images', rowIndex' := rows, images, rowIndex;
    for j := 0 to |vs|
      invariant Emitted(rows', images') == AddVariants(Emitted(rows, images), p, vs[..j], embed, fetchOk)
      invariant rowIndex' == 2 + |rows'|
    {
      AddVariantsPrefix(Emitted(rows, images), p, vs, j, embed, fetchOk);
      var v := vs[j];
      var sku := Trim(v.sku);
      if sku == "" {
        continue;
      }
      var medida := Trim(v.title);
      var precioSin := PriceWithoutTaxOf(v.price);
      rows' := rows' + [Row(categoria, imageUrl, nombre, sku, medida, v.price, precioSin, appsText)];
      if embed && StartsWith(imageUrl, "http") && fetchOk(imageUrl) {
        var ext := if Contains(Lower(imageUrl), ".jpg") || Contains(Lower(imageUrl), ".jpeg") then "jpeg" else "png";
        images' := images' + [Image(ext, 1, rowIndex' - 1)];
      }
      rowIndex' := rowIndex' + 1;
    }
    assert vs[..|vs|] == vs;
  }

  /** The inner loop over one more variant. */
  lemma AddVariantsPrefix(e: Emitted, p: Product, vs: seq<Variant>, j: nat, embed: bool, fetchOk: string -> bool)
    requires j < |vs|
    ensures AddVariants(e, p, vs[..j + 1], embed, fetchOk) == AddVariant(AddVariants(e, p, vs[..j], embed, fetchOk), p, vs[j], embed, fetchOk)
  {
    assert vs[..j + 1][..j] == vs[..j];
  }

  /** The handler: the crawl, then one row per variant with a SKU. */
  method Handler(hasToken: bool, embedQ: Option<string>, pages: seq<Page<Product>>, fetchOk: string -> bool)
    returns (res: Response, cursors: seq<Option<string>>)
    requires ListingEnds(pages)
    ensures res == CatalogResponse(hasToken, embedQ, pages, fetchOk)
    ensures !hasToken ==> cursors == []
    ensures hasToken ==> |cursors| == LastPage(pages) + 1
    ensures forall j :: 0 <= j < |cursors| ==> cursors[j] == RequestCursor(pages, j)
  {
    if !hasToken {
      return MissingToken, [];
    }
    var embed := EmbedFlag(embedQ);
    var products;
    products, cursors := CollectProducts(pages);
    var rows: seq<Row> := [];
    var images: seq<Image> := [];
    var rowIndex: nat := 2;
    for i := 0 to |products|
      invariant Emitted(rows, images) == AddProducts(Emitted([], []), products[..i], embed, fetchOk)
      invariant rowIndex == 2 + |rows|
    {
      assert products[..i + 1][..i] == products[..i];
      rows, images, rowIndex := AddVariantRows(rows, images, rowIndex, products[i], embed, fetchOk);
    }
    assert products[..|products|] == products;
    res := Workbook("catalogo_paytton.xlsx", Sheet("CATALOGO", Columns, rows, images));
  }
}
