/** Price arithmetic of the catalog handlers over exact reals:
    `round2`, the tax-exclusive price and the discount tiers. */
module Prices {

  /** Colombian VAT, `IVA`. */
  const IVA: real := 0.19

  /** `Math.round(n * 100) / 100`. `Math.round` rounds halves towards
      positive infinity, that is, it is `floor(x + 0.5)`. The result is a
      whole number of cents within half a cent of `n`. */
  function Round2(n: real): (r: real)
    ensures n - 0.005 < r <= n + 0.005
    ensures r == (r * 100.0).Floor as real / 100.0
  {
    var cents := (n * 100.0 + 0.5).Floor;
    assert cents as real / 100.0 * 100.0 == cents as real;
    cents as real / 100.0
  }

  /** Rounding never reverses the order of two amounts. */
  lemma Round2Monotone(x: real, y: real)
    requires x <= y
    ensures Round2(x) <= Round2(y)
  {
    assert (x * 100.0 + 0.5).Floor <= (y * 100.0 + 0.5).Floor;
  }

  /** Amounts a cent or more apart stay strictly ordered after rounding. */
  lemma Round2Separates(x: real, y: real)
    requires x + 0.01 <= y
    ensures Round2(x) < Round2(y)
  {
    var cx, cy := (x * 100.0 + 0.5).Floor, (y * 100.0 + 0.5).Floor;
    assert x * 100.0 + 0.5 + 1.0 <= y * 100.0 + 0.5;
    assert cx + 1 <= cy;
  }

  /** A whole number of cents is left as it is. */
  lemma Round2Cents(c: int)
    ensures Round2(c as real / 100.0) == c as real / 100.0
  {
    assert (c as real / 100.0) * 100.0 + 0.5 == c as real + 0.5;
    assert (c as real + 0.5).Floor == c;
  }

  /** `precioIva ? round2(precioIva / (1 + IVA)) : 0`: a whole number of
      cents within half a cent of the price without VAT. */
  function PriceWithoutTax(precioIva: real): (r: real)
    ensures precioIva == 0.0 ==> r == 0.0
    ensures precioIva != 0.0 ==> precioIva / (1.0 + IVA) - 0.005 < r <= precioIva / (1.0 + IVA) + 0.005
    ensures r == (r * 100.0).Floor as real / 100.0
  {
    if precioIva != 0.0 then Round2(precioIva / (1.0 + IVA)) else 0.0
  }

  /** `applyDiscount(priceIva, pct) = round2(priceIva * (1 - pct))`: a whole
      number of cents within half a cent of the discounted price. */
  function ApplyDiscount(priceIva: real, pct: real): (r: real)
    ensures priceIva * (1.0 - pct) - 0.005 < r <= priceIva * (1.0 - pct) + 0.005
    ensures r == (r * 100.0).Floor as real / 100.0
  {
    Round2(priceIva * (1.0 - pct))
  }

  /** The four tiers are ordered: the larger the discount, the lower the
      price, and none exceeds a tax-inclusive price given in cents. */
  lemma TiersOrdered(p: real)
    requires p >= 0.0
    ensures ApplyDiscount(p, 0.35) <= ApplyDiscount(p, 0.30) <= ApplyDiscount(p, 0.25) <= ApplyDiscount(p, 0.20)
  {
    Round2Monotone(p * 0.65, p * 0.70);
    Round2Monotone(p * 0.70, p * 0.75);
    Round2Monotone(p * 0.75, p * 0.80);
  }

  /** From twenty cents up the tiers are strictly ordered. */
  lemma TiersStrictlyOrdered(p: real)
    requires p >= 0.2
    ensures ApplyDiscount(p, 0.35) < ApplyDiscount(p, 0.30) < ApplyDiscount(p, 0.25) < ApplyDiscount(p, 0.20)
  {
    Round2Separates(p * 0.65, p * 0.70);
    Round2Separates(p * 0.70, p * 0.75);
    Round2Separates(p * 0.75, p * 0.80);
  }

  /** On a price in whole cents the smallest discount does not raise it. */
  lemma TierBelowPrice(c: nat)
    ensures ApplyDiscount(c as real / 100.0, 0.20) <= c as real / 100.0
  {
    var p := c as real / 100.0;
    Round2Monotone(p * 0.80, p);
    Round2Cents(c);
  }

  /** The tax-exclusive price of a price in whole cents never exceeds it. */
  lemma PriceWithoutTaxBelowPrice(c: nat)
    ensures PriceWithoutTax(c as real / 100.0) <= c as real / 100.0
  {
    var p := c as real / 100.0;
    if c != 0 {
      Round2Monotone(p / (1.0 + IVA), p);
      Round2Cents(c);
    }
  }

  /** A price of 119000 with VAT is 100000 without it, and its tiers are
      77350, 83300, 89250 and 95200. */
  lemma PriceExample()
    ensures PriceWithoutTax(119000.0) == 100000.0
    ensures ApplyDiscount(119000.0, 0.35) == 77350.0
    ensures ApplyDiscount(119000.0, 0.30) == 83300.0
    ensures ApplyDiscount(119000.0, 0.25) == 89250.0
    ensures ApplyDiscount(119000.0, 0.20) == 95200.0
  {
    Round2Cents(10000000);
    Round2Cents(7735000);
    Round2Cents(8330000);
    Round2Cents(8925000);
    Round2Cents(9520000);
  }
}
