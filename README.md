# Tyre catalog: a verified model of the catalog endpoints, the search page and the OAuth callback

This project models the logic of a small Next.js application. The
application reads a Shopify store's products through the Admin GraphQL API
and publishes them as a tyre catalog. The model covers:

- **`/api/catalogo-json`** (module `CatalogJson`, file `catalog_json.dfy`). It parses the
  `CATEGORY_MAP_JSON` alias table and files each product under the first
  category whose aliases match one of its collections. It groups products
  by `categoria||grabado`, where the tread name (`grabado`) is the trimmed
  product title. It turns variants into priced items with four discount
  tiers. It stops paging once the item count reaches the clamped `limit`;
  a non-numeric `limit` clamps to `NaN`, which no count reaches.
  Finally it deduplicates items by SKU (the last one wins), sorts them by
  SKU, and sorts the groups by their key.
- **`/api/catalogo-grouped`** (module `CatalogGrouped`). Collections whose
  title contains `/` are parent categories; the other collections are
  treads. Every parent × tread pair receives the product's variants.
  Blocks are deduplicated by `sku||medida` and sorted by SKU, blocks by
  tread, categories by name.
- **`/api/catalogo`** (module `CatalogSheet`). This builds the spreadsheet:
  one row per variant with a SKU. The category is a parent from the fixed
  `PARENT_BY_CHILD` table, or otherwise the product type. With
  `embedImages=1`, an image is anchored beside each row whose image URL
  starts with `http` and can be fetched.
- **`pages/index.tsx`** (module `Search`). It covers the `filtered` memo
  (search over headers and items), the `byCategory` memo (buckets seeded
  with `CATEGORY_ORDER`, keyed by the upper-cased category), and what the
  page shows: the sections in `CATEGORY_ORDER` and the counter.
- **`/api/auth/callback`** (module `OAuthCallback`). It checks the state
  cookie, builds the message signed by the HMAC, and decides the outcome.

Shared modules:

- `Text`: JavaScript `trim`, upper- and lower-case mapping, `includes`, `join`, and `String(n)`.
- `Order`: the `localeCompare` order and a stable sort.
- `Prices`: `round2`, the price without tax, and the discount tiers.
- `Paging`: the cursor-paged listing.
- `Uniq`: deduplication through a `Map`, where the last value for a key wins.
- `JsMap`: a JavaScript `Map` or object, which keeps its keys in insertion order.
- `Wrappers`: `Option`.

The handlers are methods with loops. Each one is proved equal to a
specification function, and the properties the code promises are proved
about those functions. The network is a parameter:

- The listing is a sequence of pages.
- An image fetch is a predicate `fetchOk` on URLs.
- The SHA-256 HMAC is a function `digest(secret, message)`.

The code differs from the obvious reading of the catalogue in these
places, and the model follows the code:

- Groups in `catalogo-json` are sorted by the string `categoria||grabado`.
  They are not sorted by the canonical category order first.
- Category names are trimmed and upper-cased only; accents are not folded.
- The tread name is the trimmed product title, not a looked-up alias.
- A malformed `CATEGORY_MAP_JSON` gives the empty table, so every product
  is skipped. It is not reported as an error.
- A non-numeric `limit` is not replaced by the default of 300, and it is
  not clamped into 1 to 2000 either. It becomes `NaN`, and every
  comparison with `NaN` is false, so the handler reads every page of the
  listing (see Findings).
- `catalogo-grouped` deduplicates by `sku||medida`, not by SKU alone.
- The image of a JSON group is the first non-empty one. The applications
  text is set once, by the product that creates the group.

## Model

| member | source | states |
|---|---|---|
| Text.TrimSpec | pages/api/catalogo-json.ts:17-19 | `normalize` removes exactly the leading and trailing white space: the result is the slice between them, and everything cut off is white space |
| Text.TrimEnds | pages/api/catalogo-json.ts:17-19 | a trimmed string is empty or begins and ends with a non-space character |
| Text.TrimIdempotent | pages/api/catalogo-json.ts:17-19 | normalising twice is normalising once |
| Text.UpperTrim | pages/api/catalogo-json.ts:40 | upper-casing commutes with trimming |
| Text.CanonicalKeyStable | pages/api/catalogo-json.ts:40 | `normalize(k).toUpperCase()` is stable under a second application |
| Text.UpperIdempotent | pages/api/catalogo-json.ts:40 | upper-casing twice equals upper-casing once |
| Text.Upper | pages/api/catalogo-json.ts:40 | `toUpperCase` maps every character independently and keeps the length |
| Text.Lower | pages/api/catalogo.ts:13 | `toLowerCase` maps every character independently and keeps the length |
| Text.ContainsChar | pages/api/catalogo-grouped.ts:22-24 | `includes` of a one-character string holds iff the character occurs |
| Text.NonEmptyTrimmedSpec | pages/api/catalogo-json.ts:93-95 | `.map(normalize).filter(Boolean)` keeps exactly the non-empty normalised titles, each from an input title |
| Text.NonEmptyTrimmed | pages/api/catalogo-json.ts:93-95 | no kept title is empty and none is added |
| Text.Join | pages/api/auth/callback.ts:12 | joining no parts gives `""` and joining one part gives that part |
| Text.JoinAppend | pages/api/auth/callback.ts:12 | joining two non-empty lists one after the other is joining each and putting one separator between them |
| Text.JoinSnoc | pages/api/auth/callback.ts:12 | each further part follows the join of the parts before it after exactly one separator |
| Text.NatToString | pages/index.tsx:91 | a natural number prints as a decimal numeral without leading zeros, and as `"0"` exactly when it is zero |
| Text.NatToStringValue | pages/index.tsx:91 | reading the printed digits back gives the number |
| Text.IntToString | pages/index.tsx:91 | `String(n)` is the decimal numeral of `n`, without leading zeros, preceded by `-` exactly when `n` is negative, and its digits read back to the magnitude of `n` |
| Prices.Round2 | pages/api/catalogo-json.ts:26-28 | `round2` gives the unique multiple of 0.01 within half a cent of its argument, ties rounding up |
| Prices.Round2Monotone | pages/api/catalogo-json.ts:26-28 | `round2` never reverses the order of two prices |
| Prices.Round2Cents | pages/api/catalogo-json.ts:26-28 | a price already in whole cents is left unchanged |
| Prices.PriceWithoutTax | pages/api/catalogo-json.ts:121 | a zero price stays zero; otherwise the result is a whole number of cents within half a cent of the price divided by 1.19 |
| Prices.PriceWithoutTaxBelowPrice | pages/api/catalogo-json.ts:121 | the price without tax never exceeds the price with tax |
| Prices.ApplyDiscount | pages/api/catalogo-json.ts:30-32 | a tier price is a whole number of cents within half a cent of the price times `1 - pct` |
| Prices.TiersOrdered | pages/api/catalogo-json.ts:130-133 | for a non-negative price, the 35% tier ≤ the 30% ≤ the 25% ≤ the 20% tier |
| Prices.TiersStrictlyOrdered | pages/api/catalogo-json.ts:130-133 | from 0.20 upward, the four tier prices are strictly ordered |
| Prices.TierBelowPrice | pages/api/catalogo-json.ts:130-133 | the smallest discount still does not raise a price given in cents |
| Prices.PriceExample | pages/api/catalogo-json.ts:120-133 | a price of 119000 gives 100000 without tax and tiers 77350, 83300, 89250 and 95200 |
| Order.LessIrreflexive | pages/api/catalogo-json.ts:148 | the comparison behind `localeCompare` never ranks a string before itself |
| Order.LessTransitive | pages/api/catalogo-json.ts:148 | the comparison is transitive |
| Order.LessTotal | pages/api/catalogo-json.ts:148 | any two different strings are ordered one way or the other |
| Order.SortBy | pages/api/catalogo-json.ts:148 | `sort` returns a permutation of its input that is ordered by the key |
| Order.StableSortUnique | pages/api/catalogo-json.ts:148 | any two key-ordered sequences that hold the same elements per key, in the same order, are equal, so which stable sorting algorithm is used does not matter |
| Order.PermutationKeepsDistinct | pages/api/catalogo-json.ts:148 | reordering keeps keys distinct |
| Order.SortByStrict | pages/api/catalogo-json.ts:148 | sorting elements whose keys are distinct makes the keys strictly ascending |
| Order.SortByMembers | pages/api/catalogo-json.ts:148 | sorting neither adds nor drops an element |
| Order.AscendingUnique | pages/api/auth/callback.ts:9-10 | two strictly ascending key lists with the same members are equal |
| Uniq.KeysInOrder | pages/api/catalogo-json.ts:146-148 | the keys of a `Map` filled from a sequence are distinct and are exactly the keys that occur |
| Uniq.LastWithKey | pages/api/catalogo-json.ts:147 | the value a `Map` keeps for a key was the last one set for that key |
| Uniq.DedupLastSpec | pages/api/catalogo-json.ts:146-148 | `Array.from(uniq.values())` has distinct keys, loses no key, and keeps the last element for each key |
| Uniq.DedupByKey | pages/api/catalogo-json.ts:146-148 | the `Map` loop computes exactly that deduplication |
| JsMap.OrderedMap.Set | pages/api/catalogo-json.ts:103-111 | `Map.set` binds the key, leaves the other keys alone, and appends a new key at the end of the key order |
| JsMap.OrderedMap.SetTwice | pages/api/catalogo-json.ts:147 | a second `set` of the same key overrides the first |
| JsMap.OrderedMap.Values | pages/api/catalogo-json.ts:145 | `Array.from(m.values())` lists the values in key order |
| JsMap.SetAllLastWins | pages/api/catalogo-json.ts:39-41 | after setting entries in turn, the value for a key is the one from its last entry |
| JsMap.SetAllKeys | pages/api/catalogo-json.ts:39-41 | the keys are the distinct entry keys in order of first appearance |
| JsMap.SetAllOrigin | pages/api/catalogo-json.ts:39-41 | every value in the table comes from an entry with that key |
| Paging.LastPage | pages/api/catalogo-json.ts:138 | the loop's last page is the first page that reports no next page |
| CatalogJson.ClampLimit | pages/api/catalogo-json.ts:61 | the limit as evidently intended: a number from 1 to 2000, the given value clamped into that range, 300 when missing or non-numeric |
| CatalogJson.ClampLimitAgrees | pages/api/catalogo-json.ts:61 | the code as written agrees with the intended clamp except on non-numeric input, where it yields `NaN` |
| CatalogJson.NaNLimitReadsAll | pages/api/catalogo-json.ts:61 | with a non-numeric `limit` the loop never stops early and reads every page of the listing |
| CatalogJson.CanonicalKeyCanonical | pages/api/catalogo-json.ts:40 | a normalised, upper-cased key is left unchanged by normalising it again |
| CatalogJson.CanonicalAliasesMembers | pages/api/catalogo-json.ts:40 | the alias list keeps exactly the non-empty normalised aliases, each from an input alias |
| CatalogJson.CanonicalAliasesCanonical | pages/api/catalogo-json.ts:40 | every kept alias is non-empty and already normalised |
| CatalogJson.ThrowsSpec | pages/api/catalogo-json.ts:39-45 | the loop throws, so the table falls back to `{}`, exactly when some value is truthy and not an array |
| CatalogJson.CategoryMapCanonical | pages/api/catalogo-json.ts:34-46 | every key and every alias of the parsed table is normalised, and no alias is empty |
| CatalogJson.CategoryKeysInOrder | pages/api/catalogo-json.ts:39-41 | the table's keys are the normalised object keys in order of first appearance |
| CatalogJson.LastEntryWins | pages/api/catalogo-json.ts:39-41 | when two object keys normalise to the same key, the later entry's aliases win |
| CatalogJson.ParseCategoryMap | pages/api/catalogo-json.ts:34-46 | the loop builds exactly the specified table |
| CatalogJson.TitleSet | pages/api/catalogo-json.ts:49 | the set of normalised titles never holds `""` |
| CatalogJson.FirstHitFrom | pages/api/catalogo-json.ts:50-54 | the scan stops at the first key with a hit, and no key before it hits |
| CatalogJson.CategoryOfSpec | pages/api/catalogo-json.ts:48-56 | the category is the first key, in key order, whose aliases hit a collection title, and `""` when no key hits; no earlier key hits |
| CatalogJson.HitCanonical | pages/api/catalogo-json.ts:52 | for normalised aliases, a hit means one alias is among the normalised titles |
| CatalogJson.PickCategoryFromCollections | pages/api/catalogo-json.ts:48-56 | the loop returns exactly the specified category |
| CatalogJson.MakeItem | pages/api/catalogo-json.ts:117-134 | an item carries the trimmed SKU and the price with tax, with a missing price read as 0 and a missing inventory as 0 |
| CatalogJson.MakeItemPrices | pages/api/catalogo-json.ts:120-133 | an item's price without tax and its 35, 30, 25 and 20 percent tiers are computed from the variant's price, and for a non-negative price the tiers rise as the discount falls |
| CatalogJson.VariantItemsSpec | pages/api/catalogo-json.ts:116-135 | the items pushed are exactly the variants with a non-empty trimmed SKU, each turned into an item |
| CatalogJson.AddProductsAppend | pages/api/catalogo-json.ts:92-136 | processing two batches of products one after the other equals processing them together |
| CatalogJson.ProductsFor | pages/api/catalogo-json.ts:97-101 | every product gathered for a key is filed under that key by its category and title |
| CatalogJson.FirstImageAppend | pages/api/catalogo-json.ts:107-114 | a group's image is the first non-empty normalised image among its products |
| CatalogJson.AddProductEffect | pages/api/catalogo-json.ts:97-135 | a product touches only the group of its own key: it creates the group if absent, then updates it |
| CatalogJson.AddProductsGroups | pages/api/catalogo-json.ts:85-136 | a group exists iff some product has its key, and its content is determined by exactly those products, in order |
| CatalogJson.GroupsKeyed | pages/api/catalogo-json.ts:101-106 | every group is stored under the key made of its category and tread and has a non-empty category |
| CatalogJson.CrawlSpec | pages/api/catalogo-json.ts:88-143 | the crawl stops after the last page or at the first page boundary where the item count reaches the limit, never earlier, and its result is the products of the pages read; a `NaN` limit is never reached |
| CatalogJson.FinalItemsSpec | pages/api/catalogo-json.ts:146-148 | a group's items end up with strictly ascending SKUs, no SKU lost, and for each SKU the last item pushed with it |
| CatalogJson.FinalGroup | pages/api/catalogo-json.ts:145-149 | finalising a group changes only its items |
| CatalogJson.FinalizeSpec | pages/api/catalogo-json.ts:145-152 | the output has one group per key, in strictly ascending order of the category-and-tread key, each finalised from one built group |
| CatalogJson.FinalizeOrdered | pages/api/catalogo-json.ts:145-152 | the output groups are strictly ordered, all have a category, and each group's SKUs are strictly ascending |
| CatalogJson.CatalogResponseSpec | pages/api/catalogo-json.ts:58-155 | with the limit clamped as written: no token gives the 400 error; otherwise `count` is the number of groups, the groups are strictly ordered with non-empty categories, and each group's SKUs are strictly ascending |
| CatalogJson.PushVariantItems | pages/api/catalogo-json.ts:116-135 | the variant loop appends exactly the specified items |
| CatalogJson.AddPage | pages/api/catalogo-json.ts:92-136 | the product loop computes the specified builder |
| CatalogJson.FinalizeGroups | pages/api/catalogo-json.ts:145-152 | the finalisation code computes the specified groups |
| CatalogJson.CrawlPages | pages/api/catalogo-json.ts:85-143 | the paging loop, stopping when `currentCount >= limit` holds, builds the specified groups and requests page *j* with the previous page's `endCursor` |
| CatalogJson.Handler | pages/api/catalogo-json.ts:58-155 | the handler, with the limit clamped as written, gives the specified response, makes no request without a token, and with a non-numeric `limit` requests every page of the listing |
| CatalogGrouped.IsParentSlash | pages/api/catalogo-grouped.ts:22-24 | a collection is a parent exactly when its title contains `/` |
| CatalogGrouped.SplitPartition | pages/api/catalogo-grouped.ts:61-62 | parents and treads partition the collection titles |
| CatalogGrouped.MakeItem | pages/api/catalogo-grouped.ts:91-98 | an item carries the trimmed SKU, the trimmed variant title as size, the price, and the price without tax |
| CatalogGrouped.VariantItemsSpec | pages/api/catalogo-grouped.ts:90-99 | the items pushed are exactly the variants with a non-empty trimmed SKU |
| CatalogGrouped.AddProductsAppend | pages/api/catalogo-grouped.ts:56-102 | two batches processed in turn equal the batches processed together |
| CatalogGrouped.ReceiveTwice | pages/api/catalogo-grouped.ts:79-99 | passing over a block `a` times and then `b` times is passing over it `a + b` times |
| CatalogGrouped.AddTreadsBlock | pages/api/catalogo-grouped.ts:78-100 | the tread loop passes over the block under a tread once per occurrence of that tread: the first pass creates it with the product image, each fills an empty image and appends the product's items |
| CatalogGrouped.AddParentsBlock | pages/api/catalogo-grouped.ts:68-101 | the parent loop passes over the block under (parent, tread) once per occurrence of the parent times once per occurrence of the tread |
| CatalogGrouped.TimesLists | pages/api/catalogo-grouped.ts:61-68 | a product passes over a (parent, tread) block at least once exactly when it lists both |
| CatalogGrouped.AddProductBlock | pages/api/catalogo-grouped.ts:56-101 | one product passes over the block under each pair exactly as often as it lists the pair, and a product that skips (line 64) passes over none |
| CatalogGrouped.AddProductHas | pages/api/catalogo-grouped.ts:64-74 | a product opens exactly the categories it lists as parents, provided it has a tread |
| CatalogGrouped.AddProductSkips | pages/api/catalogo-grouped.ts:64 | a product without a parent or without a tread changes nothing |
| CatalogGrouped.AddProductSpec | pages/api/catalogo-grouped.ts:56-101 | a product only grows blocks; the block under each pair is passed over as often as the product lists the pair; blocks of pairs it does not list and categories it does not name are unchanged |
| CatalogGrouped.BlockImageNone | pages/api/catalogo-grouped.ts:80-88 | when no product listing a pair has an image, the pair's block has none |
| CatalogGrouped.BlockImageFirst | pages/api/catalogo-grouped.ts:80-88 | a block's image is the image of the first product listing the pair whose image is not empty |
| CatalogGrouped.UnlistedEmpty | pages/api/catalogo-grouped.ts:78-100 | a pair no product lists gathers no image and no items |
| CatalogGrouped.AddProductsBlock | pages/api/catalogo-grouped.ts:56-102 | after the product loop a (parent, tread) block exists exactly when some product lists the pair; its image is the first non-empty image of those products, and its items are each listing product's items, once per time it lists the pair, in product order |
| CatalogGrouped.AddProductsCategory | pages/api/catalogo-grouped.ts:56-102 | after the product loop a category exists exactly when some product lists it as a parent and has a tread |
| CatalogGrouped.ItemKeyCollides | pages/api/catalogo-grouped.ts:111 | two different items can share the SKU-and-size key: the separator may itself occur in a SKU or a size |
| CatalogGrouped.FinalItemsSpec | pages/api/catalogo-grouped.ts:110-112 | a block's items are sorted by SKU, have distinct SKU-and-size keys, lose no key, and keep the last item for each key |
| CatalogGrouped.FinalBlock | pages/api/catalogo-grouped.ts:109-113 | finalising a block changes only its items |
| CatalogGrouped.FinalCategorySpec | pages/api/catalogo-grouped.ts:108-121 | a category's blocks end up one per tread, strictly ascending by tread, each finalised from one built block |
| CatalogGrouped.FinalizeSpec | pages/api/catalogo-grouped.ts:108-124 | the output has one entry per parent, strictly ascending by name, each finalised from one built category |
| CatalogGrouped.CatalogResponseSpec | pages/api/catalogo-grouped.ts:30-127 | no token gives the 400 error; otherwise categories and blocks are strictly ordered, and every block is sorted by SKU with distinct SKU-and-size keys |
| CatalogGrouped.CatalogBlocksSpec | pages/api/catalogo-grouped.ts:30-127 | every block of the response belongs to a pair some product read lists, carries that pair's first non-empty image and that pair's items deduplicated and sorted; every listed pair has its block in the response |
| CatalogGrouped.CatalogCategoriesSpec | pages/api/catalogo-grouped.ts:30-127 | the categories of the response are exactly the parents listed by a product read that has a tread |
| CatalogGrouped.PushVariantItems | pages/api/catalogo-grouped.ts:90-99 | the variant loop appends exactly the specified items |
| CatalogGrouped.AddTreadsLoop | pages/api/catalogo-grouped.ts:78-100 | the tread loop computes the specified blocks |
| CatalogGrouped.AddParentsLoop | pages/api/catalogo-grouped.ts:68-101 | the parent loop computes the specified categories |
| CatalogGrouped.AddProductStep | pages/api/catalogo-grouped.ts:57-101 | one product's iteration computes the specified update |
| CatalogGrouped.AddPage | pages/api/catalogo-grouped.ts:56-102 | the product loop computes the specified update |
| CatalogGrouped.CollectPages | pages/api/catalogo-grouped.ts:49-106 | the paging loop collects every page and requests page *j* with the previous page's `endCursor` |
| CatalogGrouped.FinalizeCategory | pages/api/catalogo-grouped.ts:109-121 | the block code computes the specified category |
| CatalogGrouped.FinalizeGroups | pages/api/catalogo-grouped.ts:108-124 | the finalisation code computes the specified output |
| CatalogGrouped.Handler | pages/api/catalogo-grouped.ts:30-127 | the handler gives the specified response and reads every page exactly when a token is set |
| CatalogSheet.LowerAll | pages/api/catalogo.ts:13 | each title is lower-cased in place |
| CatalogSheet.ParentFromSpec | pages/api/catalogo.ts:12-20 | the parent is the first table entry with a child contained in a lowered title, or `""` when no entry has one |
| CatalogSheet.TouringHit | pages/api/catalogo.ts:8-16 | the TOURING entry hits iff some lowered title contains `mrf`, `snake`, `angus` or `esport` |
| CatalogSheet.TouringRule | pages/api/catalogo.ts:8-20 | with the shipped table the parent is `""` or `TOURING`, and `TOURING` exactly when some lowered title contains one of its children |
| CatalogSheet.ParentFromCollections | pages/api/catalogo.ts:12-20 | the loop returns exactly the specified parent |
| CatalogSheet.Categoria | pages/api/catalogo.ts:100-102 | the row category is the parent when there is one, else the product type |
| CatalogSheet.Nombre | pages/api/catalogo.ts:104 | the name is the trimmed `nombre` metafield, or the title when that is empty |
| CatalogSheet.PriceWithoutTaxOf | pages/api/catalogo.ts:113-114 | a zero or `NaN` price gives 0 without tax; otherwise a whole number of cents within half a cent of the price divided by 1.19 |
| CatalogSheet.MakeRow | pages/api/catalogo.ts:109-125 | a row carries the category with its product-type fallback, the name with its title fallback, the trimmed SKU and size, the raw image URL, the trimmed applications and both prices |
| CatalogSheet.ExtOf | pages/api/catalogo.ts:143-145 | the image extension is always `jpeg` or `png` |
| CatalogSheet.ExtOfIgnoresCase | pages/api/catalogo.ts:143-145 | the extension chosen does not depend on the case of the URL |
| CatalogSheet.ExtOfJpegSuffix | pages/api/catalogo.ts:143-145 | a URL ending in `.jpg` or `.jpeg`, upper or lower case, gets `jpeg` |
| CatalogSheet.ExtOfNoDot | pages/api/catalogo.ts:143-145 | a URL without a `.` cannot contain `.jpg` or `.jpeg` and gets `png` |
| CatalogSheet.VariantRowsSpec | pages/api/catalogo.ts:108-125 | the rows of a product are exactly its variants with a non-empty trimmed SKU |
| CatalogSheet.AllRowsSpec | pages/api/catalogo.ts:99-162 | the sheet holds exactly one row per variant with a SKU, of every product |
| CatalogSheet.AddProductsRows | pages/api/catalogo.ts:97-162 | the emission loop appends exactly the specified rows |
| CatalogSheet.AddProductsImages | pages/api/catalogo.ts:139-160 | every image sits in column 1 beside the row it was fetched for; anchors are strictly increasing; the rows with images are exactly those whose URL is embedded |
| CatalogSheet.NoEmbedNoImages | pages/api/catalogo.ts:140 | without `embedImages=1` no image is added |
| CatalogSheet.ImagesAtMostRows | pages/api/catalogo.ts:139-160 | there are never more images than rows |
| CatalogSheet.EmbedFlag | pages/api/catalogo.ts:45 | images are embedded exactly when the query value is `"1"`; a missing or empty value reads as `"0"` |
| CatalogSheet.CatalogResponseSpec | pages/api/catalogo.ts:38-168 | no token gives the 400 error; otherwise the sheet rows are the rows of every product of every page, and the images are placed as above and absent unless `embedImages=1` |
| CatalogSheet.CollectProducts | pages/api/catalogo.ts:64-73 | the paging loop gathers the products of every page and requests page *j* with the previous page's `endCursor` |
| CatalogSheet.AddVariantRows | pages/api/catalogo.ts:108-161 | the variant loop emits the specified rows and images and keeps `rowIndex` at two plus the number of rows |
| CatalogSheet.Handler | pages/api/catalogo.ts:38-168 | the handler gives the specified response and reads every page exactly when a token is set |
| Search.SelectSpec | pages/index.tsx:87-93 | `filter` keeps, in order, exactly the elements that pass |
| Search.SelectMembers | pages/index.tsx:87-93 | an element is kept iff it occurs and passes |
| Search.SelectAll | pages/index.tsx:87-93 | nothing is dropped iff every element passes |
| Search.MapFilterSpec | pages/index.tsx:82-99 | `.map(...).filter(Boolean)` keeps, in order, exactly the results of the elements for which the callback returns a group |
| Search.FilterGroupSpec | pages/index.tsx:83-98 | a group is kept iff its header or one of its items matches; a header hit keeps it whole; otherwise exactly the matching items are kept, in order |
| Search.FilterGroup | pages/index.tsx:95-96 | a kept group keeps its category, tread and image |
| Search.FilterGroupsSpec | pages/index.tsx:82-99 | the filtered list holds, in order, exactly the groups the callback keeps |
| Search.FilteredTerm | pages/index.tsx:79-80 | a blank search shows every group; otherwise groups are filtered by the trimmed, lower-cased term |
| Search.SeededSpec | pages/index.tsx:103-104 | the buckets start as one empty bucket per `CATEGORY_ORDER` entry, in that order |
| Search.PushAllSpec | pages/index.tsx:105-109 | after the loop, the buckets are the seeds plus every key that occurs; each holds, in order, exactly the groups with its key; the seeds stay first |
| Search.BucketsSpec | pages/index.tsx:102-111 | `byCategory` buckets the filtered groups by upper-cased category, behind the five seeded categories |
| Search.ByCategory | pages/index.tsx:102-111 | the memo's loop computes exactly those buckets |
| Search.SectionsFromSpec | pages/index.tsx:187-189 | sections appear, in order, for the listed categories with a non-empty bucket, each showing that bucket |
| Search.ShownCount | pages/index.tsx:187-189 | over distinct categories, the sections show exactly the elements whose key is one of them |
| Search.HomeSpec | pages/index.tsx:161-189 | sections follow `CATEGORY_ORDER` and list exactly the filtered groups of their category; the counter is hidden while loading; it is at least the number of groups shown, and equal exactly when every filtered category is in `CATEGORY_ORDER` |
| OAuthCallback.RestKeysMembers | pages/api/auth/callback.ts:7 | `rest` has every query key except `hmac` and `signature` |
| OAuthCallback.CanonicalKeysSpec | pages/api/auth/callback.ts:7-12 | the signed message lists every key except `hmac` and `signature` once, in strictly ascending order, as `k=v` pairs joined with `&` |
| OAuthCallback.MessageOrderIndependent | pages/api/auth/callback.ts:9-12 | two queries with the same parameters sign the same message, whatever the order of their keys |
| OAuthCallback.MessageIgnoresExcluded | pages/api/auth/callback.ts:7 | changing `hmac` or `signature` leaves the signed message unchanged |
| OAuthCallback.ArrayValueCollides | pages/api/auth/callback.ts:11 | an array value renders like the single string of its comma-joined elements, so `x=a&x=b` and `x=a,b` sign the same message |
| OAuthCallback.HandlerSpec | pages/api/auth/callback.ts:18-45 | the code is exchanged iff the state cookie matches, the HMAC verifies and a code is present; a bad state is rejected whatever the secret; a bad HMAC is rejected before the code is looked at |

## Left out

- Network I/O. The Admin GraphQL request, its error check and the token exchange POST are not modelled. The listing is given as a sequence of pages. An upstream error, which aborts the request, is not modelled.
- `CatalogJson.CrawlPages`, `CatalogGrouped.CollectPages`, `CatalogSheet.CollectProducts`: these require that the listing ends, that is, that some page reports no next page. The code loops for as long as the store reports one.
- Query-string and cookie parsing. `req.query` is a map of strings and string arrays. The state cookie is an optional string.
- `JSON.parse` of `CATEGORY_MAP_JSON`. Its outcome is a parameter: unparsable, or the entries of an object whose values are arrays of strings, falsy, or other values. Aliases that are not strings are not modelled.
- JavaScript numbers. Prices are exact reals, and `Number(...)` parsing is a parameter: a number, missing, or `NaN` in the spreadsheet. In the grouped endpoint a price is a plain real: a non-numeric price string there gives `NaN` at pages/api/catalogo-grouped.ts:94-95 and a `precioSin` of 0, and that case is not modelled. Floating-point rounding of `x * 100` before `Math.round` is not modelled. `Number.isFinite` is modelled as a value being present.
- Prices.Round2: stated on exact reals; the binary floating-point result can differ by one cent at some half-cent boundaries.
- Order.SortBy: `localeCompare` is modelled as code-point order. The locale collation that the JavaScript engine applies is not modelled. `Array.prototype.sort` is stable, and `Order.StableSortUnique` shows that any stable sort gives the same result. The default `.sort()` of the callback's keys compares UTF-16 code units; code-point order agrees with it except between characters above U+FFFF and characters from U+E000 to U+FFFF, which is not modelled.
- Text.Upper: maps ASCII letters and the Latin-1 letters whose case partner is also in Latin-1 only. Other letters (`ÿ`, `µ`), and case mappings that change length (`ß` to `SS`), are not modelled.
- Text.Lower: maps ASCII letters and the Latin-1 letters whose case partner is also in Latin-1 only.
- Integer-like keys of a JavaScript object are listed before other keys. This is not modelled: the category table and the `byCategory` record keep plain insertion order.
- CatalogSheet.CatalogResponseSpec: `fetchOk` is one fixed answer per URL. The code fetches the image again for every row, and two fetches of one URL could succeed and fail differently; that is not modelled.
- The spreadsheet's styling, column widths, row heights, cell borders and image size are not modelled, and neither is `writeBuffer`. The image bytes are not modelled either: only the fetch's success and the anchor are.
- The HMAC digest (SHA-256) is a function parameter, and so is the comparison with the `hmac` parameter. The token exchange's response, and the page shown after it, are not modelled.
- React state, effects, the `load` fetch, the error banner and the item table markup are not modelled. The page is modelled as its filtered groups, sections and counter.
- `pages/api/auth/start.ts`, `pages/api/trigger-catalogo.ts` and `pdf/CatalogoPdf.tsx` are not part of this model.
- Aliasing between a group in the `Map` and the same group in the result array does not arise once values are written back, so it is not modelled.

## Findings

| source | as written | input that shows it | evidently intended | confidence | as-written member | corrected member |
|---|---|---|---|---|---|---|
| pages/api/catalogo-json.ts:61 | the clamp through `Math.max` and `Math.min` lets `NaN` through both bounds, and `currentCount >= limit` is then always false | `?limit=abc`: every page of the store is read and no 2000-item cap applies | a limit that is always a number from 1 to 2000 | medium, not executed | CatalogJson.ClampLimitAsWritten (`CatalogJson.NaNLimitReadsAll` shows the whole listing is read) | CatalogJson.ClampLimit |
