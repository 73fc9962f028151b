/** A product page of the web shop as both product-detail scrapers see it, and the fields
    they read from it with `'N/A'` standing in for whatever is missing. */
module AmazonProduct {
  import opened Wrappers
  import opened Text
  import opened Pagination

  /** One `tr` of the `poExpander` overview table: the text of its `a-span3` (key) and
      `a-span9` (value) cells, `None` for a cell that is missing. */
  datatype OverviewRow = OverviewRow(key: Option<string>, value: Option<string>)

  /** What the lookups on a product page find. `priceSpan` is the outer `apexPriceToPay`
      span (`None` when missing) holding the text of its inner `a-offscreen` span (`None`
      when missing); `overview` is the rows of the `poExpander` table when it exists. */
  datatype ProductPage = ProductPage(
    title: Option<string>,
    priceSpan: Option<Option<string>>,
    rating: Option<string>,
    reviewCount: Option<string>,
    overview: Option<seq<OverviewRow>>)

  /** The network, as the parsed product page each URL would produce. */
  type ProductNet = string -> Response<ProductPage>

  /** The price field: the inner span's stripped text, or `'N/A'` when either span is
      missing. */
  function PriceText(priceSpan: Option<Option<string>>): string {
    match priceSpan
    case None => NA
    case Some(price) => StrippedOrNA(price)
  }

  /** The price is the placeholder whenever the outer or the inner span is missing, and the
      inner span's stripped text when both are there. */
  lemma PriceTextShape(priceSpan: Option<Option<string>>)
    ensures priceSpan.None? ==> PriceText(priceSpan) == NA
    ensures priceSpan.Some? && priceSpan.value.None? ==> PriceText(priceSpan) == NA
    ensures priceSpan.Some? && priceSpan.value.Some? ==>
              PriceText(priceSpan) == Strip(priceSpan.value.value) && NoEdgeSpace(PriceText(priceSpan))
  {
    if priceSpan.Some? && priceSpan.value.Some? {
      StripEdges(priceSpan.value.value);
    }
  }
}
