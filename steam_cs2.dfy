/** The game-market scraper: the search page for a page number, one record per
    `market_listing_row_link` anchor with the fields name, price, link and image, and the
    spreadsheet it writes with a header row and alternating row backgrounds. */
module SteamCS2 {
  import opened Wrappers
  import opened Text
  import opened OrderedDict
  import opened Pagination
  import Export

  const BaseUrl: string := "https://steamcommunity.com/market/search?appid=730"

  /** The search URL for a page: the base URL for page 1, and for any other page `p` the base
      URL with the fragment `#p{p}_popular_desc`. */
  function PageUrl(page: int): string {
    if page == 1 then BaseUrl else BaseUrl + "#p" + IntToString(page) + "_popular_desc"
  }

  /** Different pages have different URLs, and only page 1 has the bare base URL. */
  lemma PageUrlInjective(p: int, q: int)
    requires PageUrl(p) == PageUrl(q)
    ensures p == q
  {
    if p != 1 && q != 1 {
      var sp := PageUrl(p);
      var sq := PageUrl(q);
      var lo := |BaseUrl| + 2;
      var tail := |"_popular_desc"|;
      assert sp[lo..|sp| - tail] == IntToString(p);
      assert sq[lo..|sq| - tail] == IntToString(q);
      IntToStringInjective(p, q);
    }
  }

  /** What the lookups on one listing anchor find: the text of the item-name span, the text
      of the price span, the anchor's `href`, and the `img` element with its `src`
      attribute; `None` for whatever is missing. */
  datatype ItemAnchor = ItemAnchor(
    name: Option<string>,
    price: Option<string>,
    href: Option<string>,
    image: Option<Option<string>>)

  /** A parsed market page: the anchors of its `searchResultsRows` block, when it has one. */
  datatype SearchPage = SearchPage(resultsRows: Option<seq<ItemAnchor>>)

  type MarketNet = string -> Response<SearchPage>

  /** The exception the scraper dies with: the attribute lookup on a missing element, or the
      missing attribute. */
  datatype ScrapeError = NoResultsRows | MissingName | MissingPrice | MissingHref | MissingImage | MissingImageSource

  /** The record of one anchor, or the error its first missing piece raises, looked up in
      the order the source reads them: name, price, link, image. */
  function ItemRecord(item: ItemAnchor): Result<Dict, ScrapeError> {
    if item.name.None? then Err(MissingName)
    else if item.price.None? then Err(MissingPrice)
    else if item.href.None? then Err(MissingHref)
    else if item.image.None? then Err(MissingImage)
    else if item.image.value.None? then Err(MissingImageSource)
    else Ok([ ("name", item.name.value),
              ("price", Strip(item.price.value)),
              ("link", item.href.value),
              ("image", item.image.value.value) ])
  }

  /** An anchor yields a record exactly when all its pieces are there; the record has the
      keys name, price, link and image in that order, with the price stripped and the name,
      link and image source taken as they are. */
  lemma ItemRecordFields(item: ItemAnchor)
    ensures ItemRecord(item).Ok? <==>
              item.name.Some? && item.price.Some? && item.href.Some? && item.image.Some? && item.image.value.Some?
    ensures ItemRecord(item).Ok? ==>
              var r := ItemRecord(item).value;
              && Keys(r) == ["name", "price", "link", "image"]
              && UniqueKeys(r)
              && Get(r, "name") == item.name
              && Get(r, "price") == Some(Strip(item.price.value))
              && Get(r, "link") == item.href
              && Get(r, "image") == item.image.value
  {
    if ItemRecord(item).Ok? {
      var r := ItemRecord(item).value;
      assert Keys(r) == ["name", "price", "link", "image"];
      GetEntry(r, 0); GetEntry(r, 1); GetEntry(r, 2); GetEntry(r, 3);
    }
  }

  /** The records of a run of anchors in document order, or the error of the first anchor
      that has one. */
  function Gather(items: seq<ItemAnchor>): Result<seq<Dict>, ScrapeError> {
    if items == [] then Ok([])
    else
      match ItemRecord(items[0])
      case Err(e) => Err(e)
      case Ok(r) =>
        match Gather(items[1..])
        case Err(e) => Err(e)
        case Ok(rs) => Ok([r] + rs)
  }

  /** When every anchor yields a record, the result is one record per anchor, in order. */
  lemma {:induction false} GatherOk(items: seq<ItemAnchor>, rs: seq<Dict>)
    requires |rs| == |items|
    requires forall j :: 0 <= j < |items| ==> ItemRecord(items[j]) == Ok(rs[j])
    ensures Gather(items) == Ok(rs)
  {
    if items != [] {
      assert ItemRecord(items[0]) == Ok(rs[0]);
      assert forall j :: 0 <= j < |items| - 1 ==> items[1..][j] == items[j + 1] && rs[1..][j] == rs[j + 1];
      GatherOk(items[1..], rs[1..]);
      assert rs == [rs[0]] + rs[1..];
    }
  }

  /** The first anchor with a missing piece decides the error; the anchors after it are never
      looked at. */
  lemma {:induction false} GatherErr(items: seq<ItemAnchor>, i: nat)
    requires i < |items|
    requires forall j :: 0 <= j < i ==> ItemRecord(items[j]).Ok?
    requires ItemRecord(items[i]).Err?
    ensures Gather(items) == Err(ItemRecord(items[i]).error)
  {
    if i > 0 {
      assert ItemRecord(items[0]).Ok?;
      assert forall j :: 0 <= j < i - 1 ==> items[1..][j] == items[j + 1];
      assert items[1..][i - 1] == items[i];
      GatherErr(items[1..], i - 1);
    }
  }

  /** A run of anchors yields records exactly when each anchor does. */
  lemma {:induction false} GatherSucceeds(items: seq<ItemAnchor>)
    ensures Gather(items).Ok? <==> forall j :: 0 <= j < |items| ==> ItemRecord(items[j]).Ok?
    ensures Gather(items).Ok? ==> |Gather(items).value| == |items|
  {
    if items != [] {
      GatherSucceeds(items[1..]);
      assert forall j :: 0 <= j < |items| - 1 ==> items[1..][j] == items[j + 1];
      if ItemRecord(items[0]).Ok? && !Gather(items[1..]).Ok? {
        var j :| 0 <= j < |items| - 1 && !ItemRecord(items[1..][j]).Ok?;
        assert !ItemRecord(items[j + 1]).Ok?;
      }
    }
  }

  /** `scrape_steam_market(page)`. The status code is not looked at. A page without a
      `searchResultsRows` block raises; otherwise the records of its anchors in document
      order, or the error of the first anchor with a missing piece. */
  method ScrapeSteamMarket(net: MarketNet, page: int) returns (topItems: Result<seq<Dict>, ScrapeError>)
    ensures net(PageUrl(page)).page.resultsRows.None? ==> topItems == Err(NoResultsRows)
    ensures net(PageUrl(page)).page.resultsRows.Some? ==>
              topItems == Gather(net(PageUrl(page)).page.resultsRows.value)
  {
    var url;
    if page == 1 {
      url := BaseUrl;
    } else {
      url := BaseUrl + "#p" + IntToString(page) + "_popular_desc";
    }
    var response := net(url);
    var soup := response.page;
    var results := soup.resultsRows;
    if results.None? {
      return Err(NoResultsRows);
    }
    var items := results.value;
    var collected: seq<Dict> := [];
    for i := 0 to |items|
      invariant |collected| == i
      invariant forall j :: 0 <= j < i ==> ItemRecord(items[j]) == Ok(collected[j])
    {
      var item := items[i];
      if item.name.None? {
        GatherErr(items, i);
        return Err(MissingName);
      }
      var name := item.name.value;
      if item.price.None? {
        GatherErr(items, i);
        return Err(MissingPrice);
      }
      var price := Strip(item.price.value);
      if item.href.None? {
        GatherErr(items, i);
        return Err(MissingHref);
      }
      var link := item.href.value;
      if item.image.None? {
        GatherErr(items, i);
        return Err(MissingImage);
      }
      if item.image.value.None? {
        GatherErr(items, i);
        return Err(MissingImageSource);
      }
      var image := item.image.value.value;
      collected := collected + [[("name", name), ("price", price), ("link", link), ("image", image)]];
    }
    GatherOk(items, collected);
    return Ok(collected);
  }

  /** The spreadsheet and text-file column headers, `df.columns`: a positional renaming of
      the record keys. */
  const Columns: seq<string> := ["Name", "Price", "Link", "Image URL"]

  /** There is one column per record key. */
  lemma ColumnsMatchKeys(item: ItemAnchor)
    requires ItemRecord(item).Ok?
    ensures |Columns| == |Keys(ItemRecord(item).value)|
  {
    ItemRecordFields(item);
  }

  /** The explicit cell writes of `download_excel(data, ...)`: the header row in the header
      style, then every data row from row 1 on, each in the background `row_num % 2`
      selects. */
  method DownloadExcel(data: seq<Dict>) returns (cells: seq<Export.CellWrite>)
    ensures |cells| >= |Columns|
    ensures forall c :: 0 <= c < |Columns| ==> cells[c] == Export.CellWrite(0, c, Columns[c], Export.HeaderFormat)
    ensures cells[|Columns|..] == Export.BandedCells(Export.Tabulate(data), 1)
  {
    var header := Export.WriteHeader(Columns);
    var body := Export.WriteRows(Export.Tabulate(data));
    cells := header + body;
    assert cells[|Columns|..] == body;
  }

  const Site: Export.Site := Export.Site("Steam_Market_Data", "steam_market_top_items", true)
}
