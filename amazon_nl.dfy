/** The single-product scraper: the title, price, rating and review count of one product
    page, each `'N/A'` when its element is missing. */
module AmazonNl {
  import opened Wrappers
  import opened Text
  import opened OrderedDict
  import opened Pagination
  import opened AmazonProduct

  /** The record a successful fetch yields. */
  function DetailsRecord(page: ProductPage): Dict {
    [ ("title", StrippedOrNA(page.title)),
      ("price", PriceText(page.priceSpan)),
      ("rating", StrippedOrNA(page.rating)),
      ("review_count", StrippedOrNA(page.reviewCount)) ]
  }

  /** The record has exactly the keys title, price, rating and review_count, in that order;
      each is its element's stripped text or `'N/A'` when the element is missing, and the
      price is `'N/A'` when either of its two spans is missing. */
  lemma DetailsRecordFields(page: ProductPage)
    ensures Keys(DetailsRecord(page)) == ["title", "price", "rating", "review_count"]
    ensures UniqueKeys(DetailsRecord(page))
    ensures Get(DetailsRecord(page), "title") == Some(StrippedOrNA(page.title))
    ensures Get(DetailsRecord(page), "price") == Some(PriceText(page.priceSpan))
    ensures Get(DetailsRecord(page), "rating") == Some(StrippedOrNA(page.rating))
    ensures Get(DetailsRecord(page), "review_count") == Some(StrippedOrNA(page.reviewCount))
    ensures (page.priceSpan.None? || page.priceSpan.value.None?) ==> Get(DetailsRecord(page), "price") == Some(NA)
  {
    var r := DetailsRecord(page);
    assert Keys(r) == ["title", "price", "rating", "review_count"];
    GetEntry(r, 0); GetEntry(r, 1); GetEntry(r, 2); GetEntry(r, 3);
    PriceTextShape(page.priceSpan);
  }

  /** `get_amazon_product_details(url)`: `None` when the fetch does not answer 200, and
      otherwise the record filled in one key at a time. */
  method GetAmazonProductDetails(net: ProductNet, url: string) returns (details: Option<Dict>)
    ensures net(url).status != StatusOk ==> details == None
    ensures net(url).status == StatusOk ==> details == Some(DetailsRecord(net(url).page))
  {
    var response := net(url);
    if response.status != StatusOk {
      return None;
    }
    var soup := response.page;
    var productDetails: Dict := [];
    var title := StrippedOrNA(soup.title);
    productDetails := Put(productDetails, "title", title);
    assert productDetails == [("title", title)];
    var price;
    if soup.priceSpan.Some? {
      var priceElement := soup.priceSpan.value;
      price := StrippedOrNA(priceElement);
    } else {
      price := NA;
    }
    PutFresh(productDetails, "price", price);
    productDetails := Put(productDetails, "price", price);
    assert productDetails == [("title", title), ("price", price)];
    var rating := StrippedOrNA(soup.rating);
    PutFresh(productDetails, "rating", rating);
    productDetails := Put(productDetails, "rating", rating);
    assert productDetails == [("title", title), ("price", price), ("rating", rating)];
    var reviewCount := StrippedOrNA(soup.reviewCount);
    PutFresh(productDetails, "review_count", reviewCount);
    productDetails := Put(productDetails, "review_count", reviewCount);
    assert productDetails == [("title", title), ("price", price), ("rating", rating), ("review_count", reviewCount)];
    return Some(productDetails);
  }
}
