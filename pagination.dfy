/** What the network gives a scraper, and the crawl that the classifieds and the shop
    scrapers run over it: fetch a page, take its listings, follow its "next" link, and stop
    when the link is absent or a fetch answers with a status other than 200. */
module Pagination {
  import opened Wrappers
  import opened Seqs

  /** What `requests.get(url)` returns, with the body already parsed into `page`. */
  datatype Response<P> = Response(status: int, page: P)

  /** A parsed search-result page: its listing containers in document order and the
      `href` of its "next page" anchor, if it has one. */
  datatype ListingPage<C> = ListingPage(listings: seq<C>, next: Option<string>)

  /** The network, as the response each URL would produce. */
  type Net<C> = string -> Response<ListingPage<C>>

  const StatusOk: int := 200

  /** The page the crawl moves to after `page`: the one its next link leads to, when that
      link exists and fetching it succeeds. */
  function Follow<C>(net: Net<C>, page: ListingPage<C>): Option<ListingPage<C>> {
    match page.next
    case None => None
    case Some(url) => if net(url).status == StatusOk then Some(net(url).page) else None
  }

  /** Starting on `page`, the crawl follows exactly `hops` next links and then stops. */
  predicate EndsAfter<C>(net: Net<C>, page: ListingPage<C>, hops: nat)
    decreases hops
  {
    match Follow(net, page)
    case None => hops == 0
    case Some(succ) => hops > 0 && EndsAfter(net, succ, hops - 1)
  }

  /** The pages a crawl from `page` processes, in order: one more than the links it follows. */
  function Chain<C>(net: Net<C>, page: ListingPage<C>, hops: nat): (pages: seq<ListingPage<C>>)
    requires EndsAfter(net, page, hops)
    ensures |pages| == hops + 1 && pages[0] == page
    decreases hops
  {
    if hops == 0 then [page] else [page] + Chain(net, Follow(net, page).value, hops - 1)
  }

  /** The rows of a run of pages: each page's containers built into rows in document order,
      page after page. */
  function Rows<C, R>(pages: seq<ListingPage<C>>, build: C -> R): seq<R> {
    if pages == [] then [] else MapSeq(pages[0].listings, build) + Rows(pages[1..], build)
  }

  /** The result of a crawl that starts on `page` and follows `hops` links. */
  function Harvest<C, R>(net: Net<C>, page: ListingPage<C>, hops: nat, build: C -> R): seq<R>
    requires EndsAfter(net, page, hops)
  {
    Rows(Chain(net, page, hops), build)
  }

  /** The number of listing containers on a run of pages. */
  function ListingCount<C>(pages: seq<ListingPage<C>>): nat {
    if pages == [] then 0 else |pages[0].listings| + ListingCount(pages[1..])
  }

  /** A crawl has one length: however it is described, it follows the same number of links,
      so it processes the same number of pages. */
  lemma {:induction false} EndsAfterUnique<C>(net: Net<C>, page: ListingPage<C>, n: nat, m: nat)
    requires EndsAfter(net, page, n) && EndsAfter(net, page, m)
    ensures n == m
    decreases n
  {
    match Follow(net, page)
    case None =>
    case Some(succ) => EndsAfterUnique(net, succ, n - 1, m - 1);
  }

  /** The chain is exactly the walk along next links: each page's link leads, with status
      200, to the page after it, and the last page has no link or its link's fetch fails. */
  lemma {:induction false} ChainLinks<C>(net: Net<C>, page: ListingPage<C>, hops: nat)
    requires EndsAfter(net, page, hops)
    ensures forall k :: 0 <= k < hops ==> Follow(net, Chain(net, page, hops)[k]) == Some(Chain(net, page, hops)[k + 1])
    ensures Follow(net, Chain(net, page, hops)[hops]) == None
    decreases hops
  {
    if hops > 0 {
      var succ := Follow(net, page).value;
      ChainLinks(net, succ, hops - 1);
      var pages := Chain(net, page, hops);
      assert pages[1..] == Chain(net, succ, hops - 1);
      forall k | 0 <= k < hops
        ensures Follow(net, pages[k]) == Some(pages[k + 1])
      {
        if k > 0 {
          assert pages[k] == Chain(net, succ, hops - 1)[k - 1];
        }
      }
    }
  }

  /** The rows of two runs of pages are the rows of the first followed by those of the
      second: rows are kept in page order and nothing collected earlier is lost. */
  lemma {:induction false} RowsAppend<C, R>(ps: seq<ListingPage<C>>, qs: seq<ListingPage<C>>, build: C -> R)
    ensures Rows(ps + qs, build) == Rows(ps, build) + Rows(qs, build)
  {
    if ps == [] {
      assert ps + qs == qs;
    } else {
      assert (ps + qs)[0] == ps[0];
      assert (ps + qs)[1..] == ps[1..] + qs;
      RowsAppend(ps[1..], qs, build);
    }
  }

  /** Every container yields exactly one row. */
  lemma {:induction false} RowsCount<C, R>(pages: seq<ListingPage<C>>, build: C -> R)
    ensures |Rows(pages, build)| == ListingCount(pages)
  {
    if pages != [] {
      RowsCount(pages[1..], build);
    }
  }

  /** What a crawl that has collected `collected` keeps when it processes `page`: if it
      stops there, its rows are complete; if it moves on, what it has plus the rest of the
      crawl is still the whole harvest. */
  lemma CrawlStep<C, R>(net: Net<C>, page: ListingPage<C>, hops: nat, build: C -> R, collected: seq<R>, total: seq<R>)
    requires EndsAfter(net, page, hops)
    requires collected + Harvest(net, page, hops, build) == total
    ensures Follow(net, page).None? ==> hops == 0 && collected + MapSeq(page.listings, build) == total
    ensures Follow(net, page).Some? ==>
              && hops > 0 && EndsAfter(net, Follow(net, page).value, hops - 1)
              && (collected + MapSeq(page.listings, build)) + Harvest(net, Follow(net, page).value, hops - 1, build) == total
  {
    HarvestStep(net, page, hops, build);
  }

  /** One step of a crawl: the rows of the current page, then those of the rest. */
  lemma HarvestStep<C, R>(net: Net<C>, page: ListingPage<C>, hops: nat, build: C -> R)
    requires EndsAfter(net, page, hops)
    ensures hops == 0 ==> Harvest(net, page, hops, build) == MapSeq(page.listings, build)
    ensures hops > 0 ==> Harvest(net, page, hops, build)
                         == MapSeq(page.listings, build) + Harvest(net, Follow(net, page).value, hops - 1, build)
  {
    var pages := Chain(net, page, hops);
    assert pages == [page] + pages[1..];
    if hops > 0 {
      assert pages[1..] == Chain(net, Follow(net, page).value, hops - 1);
    } else {
      assert pages[1..] == [];
      assert Rows(pages, build) == MapSeq(page.listings, build) + [];
    }
  }
}
