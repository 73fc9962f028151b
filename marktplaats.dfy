/** The classifieds scraper: every `hz-Listing` container becomes a record with the fields
    title, price, seller and location, `'N/A'` standing in for a missing one; the crawl
    follows the `pagination-button-next` link from page to page. */
module Marktplaats {
  import opened Wrappers
  import opened Text
  import opened Seqs
  import opened OrderedDict
  import opened Pagination
  import Export

  const StartUrl: string := "https://www.marktplaats.nl/q/laptops/"

  /** What the four `listing.find(...)` calls locate in one container: the text of each
      sub-node, or `None` when it is absent. */
  datatype Listing = Listing(title: Option<string>, price: Option<string>, seller: Option<string>, location: Option<string>)

  /** `{'title': title, 'price': price, 'seller': seller, 'location': location}` for one
      container. */
  function ListingRecord(listing: Listing): Dict {
    [ ("title", StrippedOrNA(listing.title)),
      ("price", StrippedOrNA(listing.price)),
      ("seller", StrippedOrNA(listing.seller)),
      ("location", StrippedOrNA(listing.location)) ]
  }

  /** Every container yields the four keys, always present and in this order, each holding
      its sub-node's stripped text or `'N/A'` when the sub-node is missing; a missing field
      affects no other field. */
  lemma ListingRecordFields(listing: Listing)
    ensures Keys(ListingRecord(listing)) == ["title", "price", "seller", "location"]
    ensures UniqueKeys(ListingRecord(listing))
    ensures Get(ListingRecord(listing), "title") == Some(StrippedOrNA(listing.title))
    ensures Get(ListingRecord(listing), "price") == Some(StrippedOrNA(listing.price))
    ensures Get(ListingRecord(listing), "seller") == Some(StrippedOrNA(listing.seller))
    ensures Get(ListingRecord(listing), "location") == Some(StrippedOrNA(listing.location))
  {
    var r := ListingRecord(listing);
    assert Keys(r) == ["title", "price", "seller", "location"];
    GetEntry(r, 0); GetEntry(r, 1); GetEntry(r, 2); GetEntry(r, 3);
  }

  /** `scrape_marktplaats()`. A first fetch that fails gives no rows and no crawl. Otherwise
      the rows are those of every page of the crawl, in page order and in document order
      within a page; the crawl stops at a page without a next link or at a next link whose
      fetch fails, keeping what it has. The ghost `hops` is the number of next links the
      crawl follows: the source has no page limit, so only finite chains are modelled. */
  method ScrapeMarktplaats(net: Net<Listing>, ghost hops: nat) returns (listingsData: seq<Dict>)
    requires net(StartUrl).status == StatusOk ==> EndsAfter(net, net(StartUrl).page, hops)
    ensures net(StartUrl).status != StatusOk ==> listingsData == []
    ensures net(StartUrl).status == StatusOk ==>
              listingsData == Harvest(net, net(StartUrl).page, hops, ListingRecord)
  {
    var response := net(StartUrl);
    if response.status != StatusOk {
      return [];
    }
    ghost var first := response.page;
    var soup := response.page;
    listingsData := [];
    ghost var left := hops;
    while true
      invariant EndsAfter(net, soup, left)
      invariant listingsData + Harvest(net, soup, left, ListingRecord) == Harvest(net, first, hops, ListingRecord)
      decreases left
    {
      CrawlStep(net, soup, left, ListingRecord, listingsData, Harvest(net, first, hops, ListingRecord));
      var listings := soup.listings;
      ghost var before := listingsData;
      for i := 0 to |listings|
        invariant listingsData == before + MapSeq(listings[..i], ListingRecord)
      {
        listingsData := listingsData + [ListingRecord(listings[i])];
        MapSeqPrefix(listings, i, ListingRecord);
      }
      assert listings[..|listings|] == listings;
      if soup.next.Some? {
        var nextUrl := soup.next.value;
        response := net(nextUrl);
        if response.status == StatusOk {
          soup := response.page;
          left := left - 1;
        } else {
          break;
        }
      } else {
        break;
      }
    }
  }

  /** A crawl that processes pages `pages` yields one record per container on them, each with
      exactly the four keys. */
  lemma {:induction false} HarvestShape(pages: seq<ListingPage<Listing>>, i: nat)
    requires i < |Rows(pages, ListingRecord)|
    ensures Keys(Rows(pages, ListingRecord)[i]) == ["title", "price", "seller", "location"]
  {
    if pages != [] {
      var here := MapSeq(pages[0].listings, ListingRecord);
      if i >= |here| {
        HarvestShape(pages[1..], i - |here|);
      } else {
        ListingRecordFields(pages[0].listings[i]);
      }
    }
  }

  /** The spreadsheet and text-file column headers, `df.columns`. */
  const Columns: seq<string> := ["Title", "Price", "Seller", "Location"]

  /** The headers name the record keys in the same order: the table has one column per key. */
  lemma ColumnsNameKeys(listing: Listing)
    ensures |Columns| == |Keys(ListingRecord(listing))|
    ensures forall k :: 0 <= k < |Columns| ==> Lower(Columns[k]) == Keys(ListingRecord(listing))[k]
  {
    assert Keys(ListingRecord(listing)) == ["title", "price", "seller", "location"];
    assert Lower("Title") == "title" by { LowerAt("Title"); }
    assert Lower("Price") == "price" by { LowerAt("Price"); }
    assert Lower("Seller") == "seller" by { LowerAt("Seller"); }
    assert Lower("Location") == "location" by { LowerAt("Location"); }
  }


  /** The explicit cell writes of `download_excel(data, ...)`: the header row only, in the
      header style, one cell per column. */
  method DownloadExcel(data: seq<Dict>) returns (cells: seq<Export.CellWrite>)
    ensures |cells| == |Columns|
    ensures forall c :: 0 <= c < |Columns| ==> cells[c] == Export.CellWrite(0, c, Columns[c], Export.HeaderFormat)
  {
    cells := Export.WriteHeader(Columns);
  }

  const Site: Export.Site := Export.Site("Marktplaats_Data", "marktplaats_listings", false)
}
