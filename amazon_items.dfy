/** The search-result scraper, the product-detail scraper that reads the overview table
    too, and the step between them where the operator picks a product by its number. */
module AmazonItems {
  import opened Wrappers
  import opened Text
  import opened Seqs
  import opened OrderedDict
  import opened Pagination
  import opened AmazonProduct

  const Origin: string := "https://www.amazon.nl"

  /** What the lookups in one `s-search-result` container find: the text of each sub-node,
      the texts of the spans of the shipping row, and the `href` of the product link;
      `None` for a sub-node that is missing. */
  datatype SearchResult = SearchResult(
    title: Option<string>,
    rating: Option<string>,
    reviews: Option<string>,
    priceWhole: Option<string>,
    priceFraction: Option<string>,
    delivery: Option<string>,
    shipping: Option<seq<string>>,
    link: Option<string>)

  /** A parsed search page: its result containers in document order. */
  datatype SearchPage = SearchPage(products: seq<SearchResult>)

  type SearchNet = string -> Response<SearchPage>

  /** `node.get_text(strip=True)` for a sub-node that was found. */
  function StrippedText(node: Option<string>): Option<string> {
    match node
    case None => None
    case Some(text) => Some(Strip(text))
  }

  /** The price, present only when both the whole and the fraction part were found. */
  function PriceValue(whole: Option<string>, fraction: Option<string>): Option<string> {
    if whole.Some? && fraction.Some? then Some(Strip(whole.value) + "," + Strip(fraction.value)) else None
  }

  /** `' '.join([info.get_text(strip=True) for info in shipping_info])`. */
  function ShippingText(spans: seq<string>): string {
    JoinSpaces(MapSeq(spans, Strip))
  }

  /** The shipping line, present when the shipping row was found. */
  function ShippingValue(shipping: Option<seq<string>>): Option<string> {
    match shipping
    case None => None
    case Some(spans) => Some(ShippingText(spans))
  }

  /** The product link: the shop's origin followed by the anchor's `href`, unstripped. */
  function LinkValue(link: Option<string>): Option<string> {
    match link
    case None => None
    case Some(href) => Some(Origin + href)
  }

  /** The keys a search record can have, in the order the scraper assigns them. */
  const SearchKeys: seq<string> := ["Title", "Rating", "Number of Reviews", "Price", "Delivery Date", "Shipping Info", "URL"]

  /** The value assigned to each of `SearchKeys`, `None` for a key the scraper skips. */
  function SearchValues(p: SearchResult): (vs: seq<Option<string>>)
    ensures |vs| == |SearchKeys|
  {
    [ StrippedText(p.title), StrippedText(p.rating), StrippedText(p.reviews),
      PriceValue(p.priceWhole, p.priceFraction), StrippedText(p.delivery),
      ShippingValue(p.shipping), LinkValue(p.link) ]
  }

  /** The record one container yields: each key assigned in turn when its value was found. */
  function SearchRecord(p: SearchResult): Dict {
    var title := AssignIf([], "Title", StrippedText(p.title));
    var rating := AssignIf(title, "Rating", StrippedText(p.rating));
    var reviews := AssignIf(rating, "Number of Reviews", StrippedText(p.reviews));
    var price := AssignIf(reviews, "Price", PriceValue(p.priceWhole, p.priceFraction));
    var delivery := AssignIf(price, "Delivery Date", StrippedText(p.delivery));
    var shipping := AssignIf(delivery, "Shipping Info", ShippingValue(p.shipping));
    AssignIf(shipping, "URL", LinkValue(p.link))
  }

  /** The record is `SearchKeys` assigned in order from `SearchValues`. */
  lemma SearchRecordAssignsAll(p: SearchResult)
    ensures SearchRecord(p) == AssignAll([], SearchKeys, SearchValues(p))
  {
  }

  lemma SearchKeysDistinct()
    ensures Distinct(SearchKeys)
  {
    var ks := SearchKeys;
    assert forall i, j :: 0 <= i < j < |ks| ==> ks[i][0] != ks[j][0];
  }

  /** Each key of a search record is there exactly when its sub-node was found (the price
      when both of its parts were) and holds that sub-node's stripped text; no key occurs
      twice and no other key is ever present: search results carry no placeholder. */
  lemma SearchRecordFields(p: SearchResult)
    ensures UniqueKeys(SearchRecord(p))
    ensures Get(SearchRecord(p), "Title") == StrippedText(p.title)
    ensures Get(SearchRecord(p), "Rating") == StrippedText(p.rating)
    ensures Get(SearchRecord(p), "Number of Reviews") == StrippedText(p.reviews)
    ensures Get(SearchRecord(p), "Price") ==
              if p.priceWhole.Some? && p.priceFraction.Some?
              then Some(Strip(p.priceWhole.value) + "," + Strip(p.priceFraction.value)) else None
    ensures Get(SearchRecord(p), "Delivery Date") == StrippedText(p.delivery)
    ensures Get(SearchRecord(p), "Shipping Info") == if p.shipping.Some? then Some(ShippingText(p.shipping.value)) else None
    ensures Get(SearchRecord(p), "URL") == if p.link.Some? then Some(Origin + p.link.value) else None
    ensures forall k :: k !in SearchKeys ==> Get(SearchRecord(p), k) == None
  {
    SearchKeysDistinct();
    SearchRecordAssignsAll(p);
    var vs := SearchValues(p);
    AssignAllGet([], SearchKeys, vs);
    var r := SearchRecord(p);
    assert Get(r, SearchKeys[0]) == vs[0];
    assert Get(r, SearchKeys[1]) == vs[1];
    assert Get(r, SearchKeys[2]) == vs[2];
    assert Get(r, SearchKeys[3]) == vs[3];
    assert Get(r, SearchKeys[4]) == vs[4];
    assert Get(r, SearchKeys[5]) == vs[5];
    assert Get(r, SearchKeys[6]) == vs[6];
  }

  /** A container yields an empty record, which the scraper drops, exactly when none of its
      sub-nodes was found (counting the price as found only when both parts were). */
  lemma SearchRecordEmpty(p: SearchResult)
    ensures SearchRecord(p) == [] <==>
              && p.title.None? && p.rating.None? && p.reviews.None?
              && !(p.priceWhole.Some? && p.priceFraction.Some?)
              && p.delivery.None? && p.shipping.None? && p.link.None?
  {
  }

  /** The shipping entry, split again on single spaces, gives back the stripped span texts
      when none of them holds a space: joining loses no span and invents none. */
  lemma ShippingTextSplits(spans: seq<string>)
    requires |spans| > 0
    requires forall i :: 0 <= i < |spans| ==> ' ' !in Strip(spans[i])
    ensures SplitSpaces(ShippingText(spans)) == MapSeq(spans, Strip)
  {
    SplitJoin(MapSeq(spans, Strip));
  }

  /** The non-empty record of a container as a list of at most one record. */
  function NonEmpty(d: Dict): seq<Dict> {
    if d == [] then [] else [d]
  }

  /** The records kept from a run of containers: one per container whose record is not
      empty, in container order. */
  function Kept(ps: seq<SearchResult>): seq<Dict> {
    if ps == [] then [] else Kept(ps[..|ps| - 1]) + NonEmpty(SearchRecord(ps[|ps| - 1]))
  }

  /** No kept record is empty. */
  lemma {:induction false} KeptNonEmpty(ps: seq<SearchResult>)
    ensures forall d :: d in Kept(ps) ==> d != []
  {
    if ps != [] {
      KeptNonEmpty(ps[..|ps| - 1]);
    }
  }

  /** Keeping works piecewise: the records of two runs of containers are those of the first
      followed by those of the second, so the kept records stay in container order. */
  lemma {:induction false} KeptAppend(ps: seq<SearchResult>, qs: seq<SearchResult>)
    ensures Kept(ps + qs) == Kept(ps) + Kept(qs)
    decreases |qs|
  {
    if qs == [] {
      assert ps + qs == ps;
    } else {
      var init := qs[..|qs| - 1];
      assert (ps + qs)[..|ps + qs| - 1] == ps + init;
      assert (ps + qs)[|ps + qs| - 1] == qs[|qs| - 1];
      KeptAppend(ps, init);
    }
  }

  /** When every container yields something, no record is dropped: one record per container. */
  lemma {:induction false} KeptAllFound(ps: seq<SearchResult>)
    requires forall i :: 0 <= i < |ps| ==> SearchRecord(ps[i]) != []
    ensures Kept(ps) == MapSeq(ps, SearchRecord)
  {
    if ps != [] {
      var init := ps[..|ps| - 1];
      KeptAllFound(init);
      assert ps == init + [ps[|ps| - 1]];
      MapSeqSnoc(init, ps[|ps| - 1], SearchRecord);
    }
  }

  /** The body of the container loop: `product_details` filled by one conditional
      assignment per sub-node. */
  method CollectDetails(product: SearchResult) returns (productDetails: Dict)
    ensures productDetails == SearchRecord(product)
  {
    productDetails := [];
    if product.title.Some? {
      productDetails := Put(productDetails, "Title", Strip(product.title.value));
    }
    assert productDetails == AssignIf([], "Title", StrippedText(product.title));
    ghost var title := productDetails;
    if product.rating.Some? {
      productDetails := Put(productDetails, "Rating", Strip(product.rating.value));
    }
    assert productDetails == AssignIf(title, "Rating", StrippedText(product.rating));
    ghost var rating := productDetails;
    if product.reviews.Some? {
      productDetails := Put(productDetails, "Number of Reviews", Strip(product.reviews.value));
    }
    assert productDetails == AssignIf(rating, "Number of Reviews", StrippedText(product.reviews));
    ghost var reviews := productDetails;
    if product.priceWhole.Some? && product.priceFraction.Some? {
      productDetails := Put(productDetails, "Price", Strip(product.priceWhole.value) + "," + Strip(product.priceFraction.value));
    }
    assert productDetails == AssignIf(reviews, "Price", PriceValue(product.priceWhole, product.priceFraction));
    ghost var price := productDetails;
    if product.delivery.Some? {
      productDetails := Put(productDetails, "Delivery Date", Strip(product.delivery.value));
    }
    assert productDetails == AssignIf(price, "Delivery Date", StrippedText(product.delivery));
    ghost var delivery := productDetails;
    if product.shipping.Some? {
      var shippingInfo := product.shipping.value;
      productDetails := Put(productDetails, "Shipping Info", ShippingText(shippingInfo));
    }
    assert productDetails == AssignIf(delivery, "Shipping Info", ShippingValue(product.shipping));
    ghost var shipping := productDetails;
    if product.link.Some? {
      productDetails := Put(productDetails, "URL", Origin + product.link.value);
    }
    assert productDetails == AssignIf(shipping, "URL", LinkValue(product.link));
  }

  /** `scrape_amazon_search_results(url)`: no records when the fetch does not answer 200 or
      the page holds no result container; otherwise the non-empty record of every
      container, in document order. */
  method ScrapeAmazonSearchResults(net: SearchNet, url: string) returns (allProducts: seq<Dict>)
    ensures net(url).status != StatusOk ==> allProducts == []
    ensures net(url).status == StatusOk ==> allProducts == Kept(net(url).page.products)
  {
    var response := net(url);
    if response.status != StatusOk {
      return [];
    }
    var products := response.page.products;
    if products == [] {
      return [];
    }
    allProducts := [];
    for index := 0 to |products|
      invariant allProducts == Kept(products[..index])
    {
      var productDetails := CollectDetails(products[index]);
      if productDetails != [] {
        allProducts := allProducts + [productDetails];
      }
      assert products[..index + 1][..index] == products[..index];
    }
    assert products[..|products|] == products;
  }

  /** The record of a product page before the overview table: the four fixed fields, each
      `'N/A'` when its element is missing. */
  function BaseDetails(page: ProductPage): Dict {
    [ ("Title", StrippedOrNA(page.title)),
      ("Price", PriceText(page.priceSpan)),
      ("Rating", StrippedOrNA(page.rating)),
      ("Review Count", StrippedOrNA(page.reviewCount)) ]
  }

  /** An overview row both of whose cells were found. */
  predicate Complete(row: OverviewRow) {
    row.key.Some? && row.value.Some?
  }

  /** `product_details[key] = value` for each overview row in turn, where key and value are
      the stripped cell texts; `None` as soon as a row lacks a cell, since reading the
      missing cell's text raises the `AttributeError` that makes the scraper give up. */
  function ApplyOverview(d: Dict, rows: seq<OverviewRow>): Option<Dict>
    decreases |rows|
  {
    if rows == [] then Some(d)
    else if !Complete(rows[0]) then None
    else ApplyOverview(Put(d, Strip(rows[0].key.value), Strip(rows[0].value.value)), rows[1..])
  }

  /** The whole product-detail record: the fixed fields, then the overview table when the
      page has one. */
  function ProductDetails(page: ProductPage): Option<Dict> {
    match page.overview
    case None => Some(BaseDetails(page))
    case Some(rows) => ApplyOverview(BaseDetails(page), rows)
  }

  /** The value the last complete row with key `k` gives, independently of any dictionary:
      the reference for what the overview loop leaves behind. */
  function LastValue(rows: seq<OverviewRow>, k: string): Option<string> {
    if rows == [] then None
    else
      match LastValue(rows[1..], k)
      case Some(v) => Some(v)
      case None =>
        if Complete(rows[0]) && Strip(rows[0].key.value) == k then Some(Strip(rows[0].value.value)) else None
  }

  /** The overview loop gives up exactly when some row lacks a cell. */
  lemma {:induction false} ApplyOverviewFails(d: Dict, rows: seq<OverviewRow>)
    ensures ApplyOverview(d, rows).None? <==> exists i :: 0 <= i < |rows| && !Complete(rows[i])
    decreases |rows|
  {
    if rows != [] && Complete(rows[0]) {
      ApplyOverviewFails(Put(d, Strip(rows[0].key.value), Strip(rows[0].value.value)), rows[1..]);
      if exists i :: 0 <= i < |rows| && !Complete(rows[i]) {
        var i :| 0 <= i < |rows| && !Complete(rows[i]);
        assert i > 0 && !Complete(rows[1..][i - 1]);
      }
      if exists i :: 0 <= i < |rows| - 1 && !Complete(rows[1..][i]) {
        var i :| 0 <= i < |rows| - 1 && !Complete(rows[1..][i]);
        assert !Complete(rows[i + 1]);
      }
    }
  }

  /** When every row is complete, a key holds the value of the last row naming it, so a
      later duplicate overwrites an earlier one; a key no row names keeps the value it had. */
  lemma {:induction false} ApplyOverviewGet(d: Dict, rows: seq<OverviewRow>, k: string)
    requires forall i :: 0 <= i < |rows| ==> Complete(rows[i])
    ensures ApplyOverview(d, rows).Some?
    ensures Get(ApplyOverview(d, rows).value, k) == if LastValue(rows, k).Some? then LastValue(rows, k) else Get(d, k)
    decreases |rows|
  {
    if rows != [] {
      var next := Put(d, Strip(rows[0].key.value), Strip(rows[0].value.value));
      assert Complete(rows[0]);
      assert forall i :: 0 <= i < |rows| - 1 ==> rows[1..][i] == rows[i + 1];
      ApplyOverviewGet(next, rows[1..], k);
      PutSpec(d, Strip(rows[0].key.value), Strip(rows[0].value.value));
    }
  }

  /** The overview loop only adds keys after the ones already there, and never repeats one:
      `Title`, `Price`, `Rating` and `Review Count` stay the first four keys. */
  lemma {:induction false} ApplyOverviewExtends(d: Dict, rows: seq<OverviewRow>)
    requires UniqueKeys(d)
    requires ApplyOverview(d, rows).Some?
    ensures Keys(d) <= Keys(ApplyOverview(d, rows).value)
    ensures UniqueKeys(ApplyOverview(d, rows).value)
    decreases |rows|
  {
    if rows != [] {
      var next := Put(d, Strip(rows[0].key.value), Strip(rows[0].value.value));
      PutSpec(d, Strip(rows[0].key.value), Strip(rows[0].value.value));
      PutKeepsUnique(d, Strip(rows[0].key.value), Strip(rows[0].value.value));
      ApplyOverviewExtends(next, rows[1..]);
    }
  }

  /** The fixed fields come first, in this order, each `'N/A'` when its element is missing. */
  lemma BaseDetailsFields(page: ProductPage)
    ensures Keys(BaseDetails(page)) == ["Title", "Price", "Rating", "Review Count"]
    ensures UniqueKeys(BaseDetails(page))
    ensures Get(BaseDetails(page), "Title") == Some(StrippedOrNA(page.title))
    ensures Get(BaseDetails(page), "Price") == Some(PriceText(page.priceSpan))
    ensures Get(BaseDetails(page), "Rating") == Some(StrippedOrNA(page.rating))
    ensures Get(BaseDetails(page), "Review Count") == Some(StrippedOrNA(page.reviewCount))
  {
    var r := BaseDetails(page);
    assert Keys(r) == ["Title", "Price", "Rating", "Review Count"];
    GetEntry(r, 0); GetEntry(r, 1); GetEntry(r, 2); GetEntry(r, 3);
  }

  /** `get_amazon_product_details(url)`: `None` when the fetch does not answer 200 or when an
      overview row lacks a cell; otherwise the fixed fields followed by what the overview
      table assigns. */
  method GetAmazonProductDetails(net: ProductNet, url: string) returns (details: Option<Dict>)
    ensures net(url).status != StatusOk ==> details == None
    ensures net(url).status == StatusOk ==> details == ProductDetails(net(url).page)
  {
    var response := net(url);
    if response.status != StatusOk {
      return None;
    }
    var soup := response.page;
    var productDetails: Dict := [];
    var title := StrippedOrNA(soup.title);
    productDetails := Put(productDetails, "Title", title);
    assert productDetails == [("Title", title)];
    var price;
    if soup.priceSpan.Some? {
      var priceElement := soup.priceSpan.value;
      price := StrippedOrNA(priceElement);
    } else {
      price := NA;
    }
    PutFresh(productDetails, "Price", price);
    productDetails := Put(productDetails, "Price", price);
    assert productDetails == [("Title", title), ("Price", price)];
    var rating := StrippedOrNA(soup.rating);
    PutFresh(productDetails, "Rating", rating);
    productDetails := Put(productDetails, "Rating", rating);
    assert productDetails == [("Title", title), ("Price", price), ("Rating", rating)];
    var reviewCount := StrippedOrNA(soup.reviewCount);
    PutFresh(productDetails, "Review Count", reviewCount);
    productDetails := Put(productDetails, "Review Count", reviewCount);
    assert productDetails == BaseDetails(soup);
    if soup.overview.Some? {
      var rows := soup.overview.value;
      ghost var base := productDetails;
      for i := 0 to |rows|
        invariant ApplyOverview(productDetails, rows[i..]) == ApplyOverview(base, rows)
      {
        var row := rows[i];
        assert rows[i..][0] == row && rows[i..][1..] == rows[i + 1..];
        if row.key.None? {
          return None;
        }
        var key := Strip(row.key.value);
        if row.value.None? {
          return None;
        }
        var value := Strip(row.value.value);
        productDetails := Put(productDetails, key, value);
      }
      assert rows[|rows|..] == [];
    }
    return Some(productDetails);
  }

  /** What the operator's product number selects. `MissingUrl` is the `KeyError` of a
      selected record without a `URL` key, which the script does not catch. */
  datatype Selection = Chosen(url: string) | InvalidNumber | MissingUrl

  /** `int(product_number.strip()) - 1` as an index into the search results, with
      `ValueError` and an index out of range both reported as an invalid number. */
  function SelectProduct(results: seq<Dict>, answer: string): Selection {
    match ParseInt(Strip(answer))
    case None => InvalidNumber
    case Some(n) =>
      var productIndex := n - 1;
      if 0 <= productIndex < |results| then
        match Get(results[productIndex], "URL")
        case Some(u) => Chosen(u)
        case None => MissingUrl
      else InvalidNumber
  }

  /** An answer is accepted exactly when it reads as an integer from 1 to the number of
      results; the script's own `strip()` before `int` makes a second strip a no-op. */
  lemma SelectAccepts(results: seq<Dict>, answer: string)
    ensures SelectProduct(results, answer) != InvalidNumber <==>
              ParseInt(answer).Some? && 1 <= ParseInt(answer).value <= |results|
  {
    StripIdempotent(answer);
  }

  /** Typing the decimal number `n` of a result selects that result's URL, counting from 1;
      any other number is invalid. */
  lemma SelectNumbered(results: seq<Dict>, n: int)
    ensures 1 <= n <= |results| && Get(results[n - 1], "URL").Some? ==>
              SelectProduct(results, IntToString(n)) == Chosen(Get(results[n - 1], "URL").value)
    ensures !(1 <= n <= |results|) ==> SelectProduct(results, IntToString(n)) == InvalidNumber
  {
    IntToStringUnpadded(n);
    ParseIntOfString(n);
  }

  /** What the script ends with after the operator picks a product. */
  datatype Outcome = ShowDetails(details: Dict) | DetailsFailed | ReportInvalidNumber | UrlKeyError

  /** The product-number step of the `__main__` block: read the number, fetch the selected
      product's page and show its details or say that they could not be retrieved. */
  method ChooseProduct(results: seq<Dict>, answer: string, net: ProductNet) returns (outcome: Outcome)
    ensures SelectProduct(results, answer) == InvalidNumber ==> outcome == ReportInvalidNumber
    ensures SelectProduct(results, answer) == MissingUrl ==> outcome == UrlKeyError
    ensures SelectProduct(results, answer).Chosen? ==>
              var url := SelectProduct(results, answer).url;
              outcome == if net(url).status == StatusOk && ProductDetails(net(url).page).Some?
                         then ShowDetails(ProductDetails(net(url).page).value) else DetailsFailed
  {
    var parsed := ParseInt(Strip(answer));
    if parsed.None? {
      return ReportInvalidNumber;
    }
    var productIndex := parsed.value - 1;
    if 0 <= productIndex < |results| {
      var productUrl := Get(results[productIndex], "URL");
      if productUrl.None? {
        return UrlKeyError;
      }
      var details := GetAmazonProductDetails(net, productUrl.value);
      if details.Some? {
        outcome := ShowDetails(details.value);
      } else {
        outcome := DetailsFailed;
      }
    } else {
      outcome := ReportInvalidNumber;
    }
  }
}
