/** The web-shop scraper: every `product-item--row` container becomes a record with the
    fields title, price and url. A present price is rewritten to `€<digits>.-`, a present
    link is made absolute, and the crawl follows the `pagination__next` link. */
module Bol {
  import opened Wrappers
  import opened Text
  import opened Seqs
  import opened OrderedDict
  import opened Pagination
  import Export

  const StartUrl: string := "https://www.bol.com/nl/nl/s/?searchtext=laptops"
  const Origin: string := "https://www.bol.com"

  /** The `product-title` anchor of a container: its text and its `href` attribute. */
  datatype TitleAnchor = TitleAnchor(text: string, href: string)

  /** What the two `listing.find(...)` calls locate in one container. */
  datatype Product = Product(title: Option<TitleAnchor>, price: Option<string>)

  /** `f"€{price.replace(',', '').replace('-', '')}.-"`. */
  function PriceLabel(price: string): string {
    "€" + Without(Without(price, ','), '-') + ".-"
  }

  /** The price field: `'N/A'` when the `promo-price` span is missing. Otherwise its
      stripped text, rewritten by `PriceLabel` unless that text is itself `'N/A'`, since
      the source decides by comparing the value with the placeholder. */
  function PriceField(node: Option<string>): string {
    var price := StrippedOrNA(node);
    if price != NA then PriceLabel(price) else price
  }

  /** The url field: the product-title anchor's `href` after the shop's origin, or `'N/A'`
      when there is no anchor or its `href` is literally `'N/A'`. */
  function UrlField(title: Option<TitleAnchor>): string {
    var urlElement := if title.Some? then title.value.href else NA;
    if urlElement != NA then Origin + urlElement else NA
  }

  /** `{'title': title, 'price': price, 'url': url}` for one container. */
  function ProductRecord(product: Product): Dict {
    [ ("title", if product.title.Some? then Strip(product.title.value.text) else NA),
      ("price", PriceField(product.price)),
      ("url", UrlField(product.title)) ]
  }

  /** Every container yields exactly the keys title, price and url, in that order; without
      a title anchor both title and url are `'N/A'`. */
  lemma ProductRecordFields(product: Product)
    ensures Keys(ProductRecord(product)) == ["title", "price", "url"]
    ensures UniqueKeys(ProductRecord(product))
    ensures Get(ProductRecord(product), "title") == Some(if product.title.Some? then Strip(product.title.value.text) else NA)
    ensures Get(ProductRecord(product), "price") == Some(PriceField(product.price))
    ensures Get(ProductRecord(product), "url") == Some(UrlField(product.title))
    ensures product.title.None? ==> Get(ProductRecord(product), "title") == Some(NA) && Get(ProductRecord(product), "url") == Some(NA)
  {
    var r := ProductRecord(product);
    assert Keys(r) == ["title", "price", "url"];
    GetEntry(r, 0); GetEntry(r, 1); GetEntry(r, 2);
  }

  /** A missing price stays `'N/A'`. A present one whose stripped text is not `'N/A'` becomes
      the euro sign, that text with every comma and dash removed (and every other character
      kept, in order), and `.-`. */
  lemma PriceFieldShape(node: Option<string>)
    ensures node.None? ==> PriceField(node) == NA
    ensures node.Some? && Strip(node.value) == NA ==> PriceField(node) == NA
    ensures node.Some? && Strip(node.value) != NA ==>
              var middle := PriceField(node)[1..|PriceField(node)| - 2];
              && PriceField(node) == "€" + middle + ".-"
              && ',' !in middle && '-' !in middle
              && (forall x :: x != ',' && x != '-' ==> multiset(middle)[x] == multiset(Strip(node.value))[x])
  {
    if node.Some? && Strip(node.value) != NA {
      var t := Strip(node.value);
      var middle := Without(Without(t, ','), '-');
      var shown := PriceLabel(t);
      WithoutSpec(t, ',');
      WithoutSpec(Without(t, ','), '-');
      assert shown == "€" + middle + ".-";
      assert shown[1..|shown| - 2] == middle;
      assert forall x :: x != ',' && x != '-' ==> multiset(middle)[x] == multiset(Without(t, ','))[x];
      assert forall x :: x != ',' ==> multiset(Without(t, ','))[x] == multiset(t)[x];
      assert ',' !in Without(t, ',');
      assert multiset(middle)[','] == 0;
      assert ',' !in multiset(middle);
    }
  }

  /** A price without commas or dashes is only wrapped: `PriceLabel` on `€1299.-`'s digits
      gives them back inside the wrapper. */
  lemma PriceLabelPlainDigits(digits: string)
    requires ',' !in digits && '-' !in digits
    ensures PriceLabel(digits) == "€" + digits + ".-"
  {
    WithoutAbsent(digits, ',');
    WithoutAbsent(digits, '-');
  }

  /** A present `href` is prefixed with the shop's origin; a missing anchor and an `href` equal
      to `'N/A'` both give `'N/A'`. */
  lemma UrlFieldShape(title: Option<TitleAnchor>)
    ensures title.None? ==> UrlField(title) == NA
    ensures title.Some? && title.value.href == NA ==> UrlField(title) == NA
    ensures title.Some? && title.value.href != NA ==> UrlField(title) == Origin + title.value.href
  {
  }

  /** `scrape_bol()`: a failed first fetch gives `[]`; otherwise the rows of every page of
      the crawl along `pagination__next`, in page order and in document order within a page,
      with no container dropped. The ghost `hops` is the number of links the crawl follows. */
  method ScrapeBol(net: Net<Product>, ghost hops: nat) returns (listingsData: seq<Dict>)
    requires net(StartUrl).status == StatusOk ==> EndsAfter(net, net(StartUrl).page, hops)
    ensures net(StartUrl).status != StatusOk ==> listingsData == []
    ensures net(StartUrl).status == StatusOk ==>
              listingsData == Harvest(net, net(StartUrl).page, hops, ProductRecord)
  {
    var response := net(StartUrl);
    if response.status != StatusOk {
      return [];
    }
    ghost var first := response.page;
    var soup := response.page;
    listingsData := [];
    ghost var left := hops;
    while true
      invariant EndsAfter(net, soup, left)
      invariant listingsData + Harvest(net, soup, left, ProductRecord) == Harvest(net, first, hops, ProductRecord)
      decreases left
    {
      CrawlStep(net, soup, left, ProductRecord, listingsData, Harvest(net, first, hops, ProductRecord));
      var listings := soup.listings;
      ghost var before := listingsData;
      for i := 0 to |listings|
        invariant listingsData == before + MapSeq(listings[..i], ProductRecord)
      {
        listingsData := listingsData + [ProductRecord(listings[i])];
        MapSeqPrefix(listings, i, ProductRecord);
      }
      assert listings[..|listings|] == listings;
      if soup.next.Some? {
        var nextUrl := soup.next.value;
        response := net(nextUrl);
        if response.status == StatusOk {
          soup := response.page;
          left := left - 1;
        } else {
          break;
        }
      } else {
        break;
      }
    }
  }

  /** The spreadsheet and text-file column headers, `df.columns`. */
  const Columns: seq<string> := ["Title", "Price", "URL"]

  /** The exported columns are Title, Price and URL, in the order of the record keys. */
  lemma ColumnsNameKeys(product: Product)
    ensures |Columns| == |Keys(ProductRecord(product))|
    ensures forall k :: 0 <= k < |Columns| ==> Lower(Columns[k]) == Keys(ProductRecord(product))[k]
  {
    assert Keys(ProductRecord(product)) == ["title", "price", "url"];
    assert Lower("Title") == "title" by { LowerAt("Title"); }
    assert Lower("Price") == "price" by { LowerAt("Price"); }
    assert Lower("URL") == "url" by { LowerAt("URL"); }
  }


  /** The explicit cell writes of `download_excel(data, ...)`: the header row only, in the
      header style, one cell per column. */
  method DownloadExcel(data: seq<Dict>) returns (cells: seq<Export.CellWrite>)
    ensures |cells| == |Columns|
    ensures forall c :: 0 <= c < |Columns| ==> cells[c] == Export.CellWrite(0, c, Columns[c], Export.HeaderFormat)
  {
    cells := Export.WriteHeader(Columns);
  }

  const Site: Export.Site := Export.Site("Bol_Data", "bol_com_listings", false)
}
