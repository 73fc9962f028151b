# Marketplace scrapers, modelled in Dafny

This project models the five command-line scrapers of the repository:

- **marktplaats.py**: the classifieds crawler.
- **bol.py**: the web-shop crawler.
- **amazon.items.py**: the search-result and product-detail scraper, with a product picker.
- **amazon.nl.py**: the single-product scraper.
- **Steam_CS2.py**: the game-market scraper.

What the scripts do:

- **marktplaats.py and bol.py** fetch a search page and find its listing containers. Each container becomes a record: a Python `dict` from field name to text. The scripts then follow the page's "next page" link until it is missing or its fetch fails.
- **Steam_CS2.py** fetches one market page and turns each listing anchor into a record in the same way. It has no next-link crawl.
- **The save step.** Each of these three scripts then asks on the command line whether to save the batch as a spreadsheet, a CSV file or both. It names the files after a timestamp.
- **amazon.items.py** turns each search-result container into a record. A record holds only the fields that were found, and empty records are dropped. The script prints the records and asks for a product number. It then fetches that product's page and prints its details: four fixed fields followed by the rows of its overview table. It saves nothing.
- **amazon.nl.py** fetches one product page and prints a four-field record. It saves nothing.

The model represents these parts:

- **Parsed pages.** A page is a datatype of what each lookup found: a text, or `None` for a missing element.
- **The network.** The network is a function from URL to (status, parsed page).
- **Dictionaries.** A dictionary is an insertion-ordered association list (`OrderedDict.Dict`). Assigning a key that is already present replaces its value in place, and a new key is appended. Key order is what becomes column order.
- **Scraping loops.** These are methods with `while`/`for` loops that append to the result or assign into the dictionary, as the source does. Each one is proved equal to a specification function. The properties the source promises are lemmas about those functions.
- **The command-line step.** The save step after scraping is a method returning the list of effects it performs: create the directory, ask, write which file, report which message.

Modules:

- `Text`: Python's `strip()` with the full `str.isspace` set, `lower()`, `replace(c, '')`, `' '.join`/`split(' ')`, `int()` and `str(int)`, and the `'N/A'` placeholder.
- `OrderedDict`: the dictionary model: `Get`/`Put`, conditional assignment, uniqueness.
- `Pagination`: the next-link crawl shared by marktplaats.py and bol.py.
- `Export`: the export choice, file names, effects of saving, and spreadsheet cells (header row and alternating row backgrounds).
- `Marktplaats`, `Bol`, `AmazonProduct`, `AmazonNl`, `AmazonItems`, `SteamCS2`: one per script.

The scripts treat a missing element differently, and the model follows each one:

- marktplaats.py, bol.py and amazon.nl.py write `'N/A'` for a missing element, so every record has every key.
- amazon.items.py's search-result scraper leaves the key out and drops records that end up empty. Its product-detail scraper writes `'N/A'` for the four fixed fields, and gives up on the whole page when an overview row lacks a cell.
- Steam_CS2.py raises on the first missing element and never looks at the status code.

The pagination lemmas are stated for finite next-link chains. The crawl is parameterised by a ghost count `hops` with the precondition `EndsAfter(net, first, hops)`. The code itself has no page limit, and it loops forever on a cycle of next links.

## Model

| member | source | states |
|---|---|---|
| Text.StripEdges | marktplaats.py:27-30 | `get_text(strip=True)` returns text no longer than the input, with no whitespace (Python's `isspace` set) at either end |
| Text.StripPadded | marktplaats.py:27-30 | stripping text that is padded with whitespace on both sides returns exactly the unpadded text |
| Text.StripIdempotent | marktplaats.py:27-30 | stripping twice is stripping once |
| Text.StrippedOrNAShape | marktplaats.py:27-30 | `el.get_text(strip=True) if el else 'N/A'` gives `'N/A'` for a missing element; a present element's text comes out no longer than before and without whitespace at either end |
| Text.LowerChar | Steam_CS2.py:112 | `lower()` on a character maps an ASCII capital to its small letter (code + 32), keeps every other character, and never returns a capital |
| Text.LowerChangesCapitals | Steam_CS2.py:112 | `lower()` keeps the length, changes a character exactly when it is an ASCII capital, and leaves no ASCII capital in the result |
| Text.LowerIdempotent | Steam_CS2.py:112 | lower-casing twice is lower-casing once |
| Text.WithoutSpec | bol.py:29 | `replace(c, '')` removes every `c` and keeps every other character with its multiplicity |
| Text.WithoutAbsent | bol.py:29 | removing a character that does not occur changes nothing |
| Text.WithoutAppend | bol.py:29 | removal works piecewise over a concatenation, so the remaining characters keep their order |
| Text.FirstSpace | amazon.items.py:60 | the index of the first space, with no space before it |
| Text.SplitSpaces | amazon.items.py:60 | `split(' ')` always yields at least one piece |
| Text.SplitSpacesCons | amazon.items.py:60 | a space-free piece, a space and a rest split into that piece followed by the pieces of the rest |
| Text.SplitJoin | amazon.items.py:60 | `' '.join` of space-free pieces, split again on `' '`, gives the pieces back |
| Text.NatToString | amazon.items.py:138 | the decimal spelling of a natural number is non-empty and all digits |
| Text.NatValueOfString | amazon.items.py:138 | reading the decimal spelling of `n` gives `n` |
| Text.IntToStringUnpadded | amazon.items.py:138 | the spelling of an integer has no surrounding whitespace |
| Text.ParseSignedOfString | amazon.items.py:138 | an optional sign followed by digits reads back as the integer spelled |
| Text.ParseIntOfString | amazon.items.py:138 | `int(str(i)) == i` for every integer |
| Text.IntToStringInjective | Steam_CS2.py:12 | different integers are spelled differently |
| Text.Strip | marktplaats.py:27-30 | `str.strip()` / `get_text(strip=True)`; pinned down by `StripEdges`, `StripPadded` and `StripIdempotent` |
| Text.Lower | Steam_CS2.py:112 | `str.lower()` on ASCII letters; its properties are `LowerChangesCapitals` and `LowerIdempotent` |
| Text.Without | bol.py:29 | `s.replace(c, '')`; its properties are `WithoutSpec`, `WithoutAbsent` and `WithoutAppend` |
| Text.JoinSpaces | amazon.items.py:60 | `' '.join(parts)`; its inverse on space-free pieces is `SplitSpaces`, by `SplitJoin` |
| Text.IntToString | Steam_CS2.py:12 | `str(i)` as an f-string writes it; `IntToStringInjective`, `IntToStringUnpadded` and `ParseIntOfString` state its properties |
| Text.ParseInt | amazon.items.py:138 | `int(s)` for base-10 text, `None` for `ValueError`; `ParseIntOfString` makes it the inverse of `IntToString` |
| OrderedDict.Keys | marktplaats.py:32-37 | `list(d.keys())`: one key per entry, in insertion order |
| OrderedDict.Values | Steam_CS2.py:64-66 | `list(d.values())`, in key order: one table row |
| OrderedDict.GetFound | amazon.items.py:140 | a lookup succeeds exactly when the key is one of the keys |
| OrderedDict.PutSpec | amazon.items.py:117 | after `d[k] = v`, `k` maps to `v` and every other key keeps its value; the key order is unchanged when `k` was present, and gains `k` at the end otherwise |
| OrderedDict.PutKeepsUnique | amazon.items.py:117 | assignment never repeats a key |
| OrderedDict.PutFresh | amazon.nl.py:23-39 | assigning a key that is not yet present appends one entry |
| OrderedDict.GetEntry | marktplaats.py:32-37 | with unique keys, looking up an entry's key finds that entry's value |
| OrderedDict.AssignIfSpec | amazon.items.py:32-65 | `if node: d[key] = value` sets `key` only when the value is there, changes no other lookup, and never repeats a key |
| OrderedDict.AssignAllGet | amazon.items.py:28-65 | assigning distinct, not-yet-present keys in order: each key holds its value exactly when the value is there, other keys are unchanged, and no key repeats |
| OrderedDict.Get | amazon.items.py:140 | `d[k]` / `d.get(k)`, `None` for a missing key; `GetFound` and `GetEntry` state when it succeeds and what it finds |
| OrderedDict.Put | amazon.items.py:117 | `d[k] = v` on an insertion-ordered dict; `PutSpec`, `PutKeepsUnique` and `PutFresh` state its effect |
| OrderedDict.AssignIf | amazon.items.py:32-33 | `if node: d[key] = value`; `AssignIfSpec` states its effect |
| Pagination.Chain | marktplaats.py:18-49 | a crawl that follows `hops` links processes `hops + 1` pages, starting with the first |
| Pagination.EndsAfterUnique | marktplaats.py:39-49 | the number of links a crawl follows is determined by the network and the first page |
| Pagination.ChainLinks | marktplaats.py:39-49 | each processed page's next link leads, with status 200, to the next processed page; the last page has no link, or its link's fetch fails |
| Pagination.RowsAppend | marktplaats.py:18-37 | the rows of two runs of pages are the rows of the first run followed by those of the second |
| Pagination.RowsCount | marktplaats.py:21-37 | exactly one row per container |
| Pagination.CrawlStep | marktplaats.py:39-49 | one loop iteration: either the crawl stops here with its rows complete, or it moves to the linked page and the rows collected so far plus the rest of the crawl are still the whole harvest |
| Pagination.HarvestStep | marktplaats.py:18-49 | the harvest is this page's rows followed by the harvest from the linked page, or this page's rows alone when the crawl stops |
| Pagination.Follow | marktplaats.py:39-49 | the page the crawl moves to: the next link's page when the link exists and its fetch answers 200, nothing otherwise |
| Pagination.EndsAfter | marktplaats.py:18-49 | the crawl from a page follows exactly `hops` links and stops; `EndsAfterUnique` shows the count is determined |
| Pagination.Harvest | marktplaats.py:18-50 | the rows a crawl returns: those of every page of its chain, in order; `HarvestStep`, `CrawlStep`, `RowsCount` and `ChainLinks` state its properties |
| Marktplaats.ListingRecordFields | marktplaats.py:21-37 | every container gives exactly the keys title, price, seller and location, in this order; each holds its element's stripped text, or `'N/A'` when the element is missing, independently of the other fields |
| Marktplaats.ListingRecord | marktplaats.py:22-37 | the record of one container; `ListingRecordFields` states its keys and values |
| Marktplaats.ScrapeMarktplaats | marktplaats.py:10-53 | a failed first fetch gives `[]`; otherwise the records of every page of the crawl, in page order and then document order; a missing next link and a failed fetch both end the loop and keep the rows |
| Marktplaats.HarvestShape | marktplaats.py:21-37 | every record of the crawl has exactly the four keys |
| Marktplaats.ColumnsNameKeys | marktplaats.py:57 | the column headers are the record keys, capitalised, in key order |
| Marktplaats.DownloadExcel | marktplaats.py:79-80 | the header row is written in the header style, one cell per column, in row 0 |
| Bol.ProductRecordFields | bol.py:21-36 | every container gives exactly the keys title, price and url; without a title anchor both title and url are `'N/A'` |
| Bol.ProductRecord | bol.py:22-36 | the record of one container; `ProductRecordFields` states its keys and values |
| Bol.PriceLabel | bol.py:29 | the `€ … .-` rewrite of a price text; `PriceFieldShape` and `PriceLabelPlainDigits` state what it keeps and removes |
| Bol.PriceField | bol.py:23-29 | the price field, rewritten only when it is not `'N/A'`; `PriceFieldShape` states its cases |
| Bol.UrlField | bol.py:24-30 | the url field; `UrlFieldShape` states its cases |
| Bol.PriceFieldShape | bol.py:23-29 | a missing price stays `'N/A'`, and so does a price whose stripped text is `'N/A'`; any other price becomes `€`, its stripped text without commas or dashes (all other characters kept with their multiplicity), then `.-` |
| Bol.PriceLabelPlainDigits | bol.py:29 | a price without commas or dashes is only wrapped in `€` … `.-` |
| Bol.UrlFieldShape | bol.py:24-30 | a present `href` is prefixed with `https://www.bol.com`; a missing anchor, or an `href` equal to `'N/A'`, gives `'N/A'` |
| Bol.ScrapeBol | bol.py:10-52 | a failed first fetch gives `[]`; otherwise the records of every page of the crawl along `pagination__next`, in order, with none dropped |
| Bol.ColumnsNameKeys | bol.py:56 | the column headers Title, Price and URL name the record keys in key order |
| Bol.DownloadExcel | bol.py:77-78 | the header row is written in the header style, one cell per column |
| AmazonProduct.PriceTextShape | amazon.nl.py:26-31 | the price is `'N/A'` when either the outer or the inner span is missing, and the inner span's stripped text otherwise |
| AmazonProduct.PriceText | amazon.nl.py:26-31 | the price field from the outer and inner spans; `PriceTextShape` states its cases |
| AmazonNl.DetailsRecordFields | amazon.nl.py:18-39 | the record has exactly the keys title, price, rating and review_count; each is its element's stripped text or `'N/A'` |
| AmazonNl.DetailsRecord | amazon.nl.py:18-39 | the record a successful fetch yields; `DetailsRecordFields` states its keys and values |
| AmazonNl.GetAmazonProductDetails | amazon.nl.py:5-45 | a fetch that does not answer 200 gives `None`; otherwise the four-key record, built by successive assignments |
| AmazonItems.SearchRecordFields | amazon.items.py:28-65 | a key is present exactly when its element was found, and holds its stripped text; `Price` is `whole + ',' + fraction` only when both parts were found; `URL` is `https://www.amazon.nl` + href; no other key ever appears, and none repeats |
| AmazonItems.SearchRecord | amazon.items.py:28-65 | the record of one search-result container; `SearchRecordFields` and `SearchRecordEmpty` state its keys and values |
| AmazonItems.Kept | amazon.items.py:27-69 | the non-empty records of a run of containers; `KeptNonEmpty`, `KeptAppend` and `KeptAllFound` state its properties |
| AmazonItems.ApplyOverview | amazon.items.py:111-121 | the overview loop on values; `ApplyOverviewFails`, `ApplyOverviewGet` and `ApplyOverviewExtends` state its properties |
| AmazonItems.LastValue | amazon.items.py:113-117 | the independent reference for the overview loop: the value of the last complete row with a key, compared with the loop by `ApplyOverviewGet` |
| AmazonItems.ProductDetails | amazon.items.py:87-123 | the whole product-detail record: the fixed fields, then the overview table when there is one |
| AmazonItems.SelectProduct | amazon.items.py:137-154 | the product-number step on values; `SelectAccepts` and `SelectNumbered` state which answers select which URL |
| AmazonItems.SearchRecordEmpty | amazon.items.py:28-68 | a record is empty, and so dropped, exactly when none of its elements was found (the price counts only with both parts) |
| AmazonItems.ShippingTextSplits | amazon.items.py:57-60 | the shipping text splits back into the stripped span texts when none of them contains a space |
| AmazonItems.KeptNonEmpty | amazon.items.py:68-69 | no kept record is empty |
| AmazonItems.KeptAppend | amazon.items.py:27-71 | keeping works piecewise, so kept records stay in container order |
| AmazonItems.KeptAllFound | amazon.items.py:27-71 | when every container yields something, there is exactly one record per container |
| AmazonItems.CollectDetails | amazon.items.py:28-65 | the conditional assignments of the container loop build exactly the search record |
| AmazonItems.ScrapeAmazonSearchResults | amazon.items.py:5-71 | a non-200 fetch or a page without result containers gives `[]`; otherwise the non-empty record of every container, in document order |
| AmazonItems.BaseDetailsFields | amazon.items.py:91-108 | the fixed fields are Title, Price, Rating and Review Count, in this order, each `'N/A'` when missing |
| AmazonItems.ApplyOverviewFails | amazon.items.py:111-121 | the overview loop gives up with `None` exactly when some row lacks a cell |
| AmazonItems.ApplyOverviewGet | amazon.items.py:113-117 | with all rows complete, a key holds the value of the last row that names it, so a later duplicate overwrites an earlier one; other keys keep their value |
| AmazonItems.ApplyOverviewExtends | amazon.items.py:113-117 | the overview only adds keys after those already present, and never repeats one |
| AmazonItems.GetAmazonProductDetails | amazon.items.py:74-123 | a non-200 fetch gives `None`; otherwise the fixed fields followed by what the overview loop assigns, or `None` when an overview row lacks a cell |
| AmazonItems.SelectAccepts | amazon.items.py:137-154 | a product number is accepted exactly when it reads as an integer from 1 to the number of results |
| AmazonItems.SelectNumbered | amazon.items.py:138-140 | typing the number `n` selects the URL of result `n`, counting from 1; any other number is invalid |
| AmazonItems.ChooseProduct | amazon.items.py:134-154 | an invalid number is reported; a chosen product's page is fetched, and its details are shown or reported as not retrieved |
| SteamCS2.PageUrlInjective | Steam_CS2.py:9-12 | distinct page numbers get distinct URLs; only page 1 gets the bare base URL |
| SteamCS2.PageUrl | Steam_CS2.py:9-12 | the search URL of a page number; `PageUrlInjective` shows distinct pages get distinct URLs |
| SteamCS2.ItemRecord | Steam_CS2.py:20-29 | the record of one anchor, or the error of its first missing piece; `ItemRecordFields` states both |
| SteamCS2.Gather | Steam_CS2.py:19-30 | the records of all anchors, or the first error; `GatherOk`, `GatherErr` and `GatherSucceeds` state its properties |
| SteamCS2.ItemRecordFields | Steam_CS2.py:20-29 | an anchor yields a record exactly when all its pieces are there; the keys are name, price, link and image; only the price is stripped |
| SteamCS2.GatherOk | Steam_CS2.py:19-30 | when every anchor yields a record, the result is one record per anchor, in order |
| SteamCS2.GatherErr | Steam_CS2.py:19-23 | the first anchor with a missing piece decides the error |
| SteamCS2.GatherSucceeds | Steam_CS2.py:19-30 | the scrape succeeds exactly when every anchor has all its pieces, and then yields one record per anchor |
| SteamCS2.ScrapeSteamMarket | Steam_CS2.py:8-30 | the page's URL is fetched and its status ignored; a page without `searchResultsRows` raises; otherwise the records in document order, or the first anchor's error |
| SteamCS2.ColumnsMatchKeys | Steam_CS2.py:34 | the four column headers rename the four record keys one to one |
| SteamCS2.DownloadExcel | Steam_CS2.py:56-67 | header cells in row 0 in the header style, then every data row from row 1 on, each cell holding its value in the background `row_num % 2` |
| Export.ParseChoiceNames | marktplaats.py:107-117 | after `strip().lower()`, only the exact words excel, csv and both select a choice |
| Export.ParseChoicePadded | Steam_CS2.py:112 | any capitalisation of a choice word, with any surrounding whitespace, selects that choice |
| Export.ParseChoice | marktplaats.py:107-117 | how `input(...).strip().lower()` selects an export; `ParseChoiceNames` and `ParseChoicePadded` state which answers select which choice |
| Export.OutputPathsDiffer | Steam_CS2.py:76-83 | the two files of a batch share the directory and the `{stem}_{timestamp}` name, and differ only in extension |
| Export.OutputPathsPerTimestamp | marktplaats.py:83-90 | batches saved under different timestamps get different file names, so a later run never overwrites an earlier one; every name ends in `.` and its own extension |
| Export.WritesChosenFiles | marktplaats.py:109-117 | `excel` writes only the spreadsheet and `csv` only the CSV file; `both` writes both; anything else writes neither and reports the invalid choice |
| Export.Writes | marktplaats.py:109-117 | the files each choice writes; `WritesChosenFiles` states which choice writes which file |
| Export.OutputPath | marktplaats.py:83-90 | `os.path.join(directory, f'{stem}_{timestamp}.{ext}')`; `OutputPathsDiffer` and `OutputPathsPerTimestamp` state how names differ |
| Export.SaveListings | Steam_CS2.py:100-127 | an empty batch only reports that there is nothing to save (no directory, no prompt); otherwise create the directory if it is missing, ask, and write what the answer selects, with `both` in the script's order (spreadsheet first on the shop sites, CSV first on the market) |
| Export.RowFormat | Steam_CS2.py:65 | one of the two row formats |
| Export.AdjacentRowsDiffer | Steam_CS2.py:64-65 | adjacent data rows never share a background, and the pattern repeats every two rows |
| Export.WriteHeader | Steam_CS2.py:56-57 | one header cell per column, in row 0, in the header style |
| Export.RowCells | Steam_CS2.py:66-67 | one cell per value of a row, in column order, in that row's background |
| Export.BandedCellsShape | Steam_CS2.py:64-67 | every data cell lies in rows 1 and up, holds the value at its row and column, and has its row's background; no data cell is in the header row |
| Export.BandedCellsComplete | Steam_CS2.py:64-67 | every value of the table is written: the value at row `r`, column `c` appears in sheet row `first + r`, column `c`, with that row's background |
| Export.BandedCells | Steam_CS2.py:64-67 | the data cells the writer emits for a table; `BandedCellsShape` and `BandedCellsComplete` state that exactly the table's values are written, each in its row's background |
| Export.WriteRows | Steam_CS2.py:64-67 | the nested loops write exactly the banded cells of the table |
| Export.TabulateGet | Steam_CS2.py:33 | row `i`, column `c` of the table is the value record `i` gives its `c`-th key: each record's values in key order |

## Left out

- HTTP: the request headers, `requests` exceptions and timeouts. A response is a status and an already parsed page.
- HTML parsing: `find`/`find_all` and tree building. A page is the datatype of what the lookups found.
- `get_text(strip=True)` and `get_text().strip()` are both modelled as `Strip` of the element's text. They differ on elements with several text fragments, which the model does not represent.
- Fragment URL: `SteamCS2.PageUrl` includes the `#p…` fragment in the URL given to the network. A real HTTP client does not send the fragment.
- `href` lookups: the `['href']` lookups of marktplaats.py:41, bol.py:24, bol.py:40 and amazon.items.py:65 assume the anchor carries the attribute, so their `KeyError` is not modelled. The market scraper's missing `href`/`src` is modelled, as an error.
- `time.sleep(2)` between pages, `datetime.now()` (the timestamp is a parameter), `input()` (the answer is a parameter) and `print` (the messages are effect tags).
- File system: `os.makedirs`, `open` and writing bytes. Saving is a list of effects, and whether the directory exists is a parameter.
- Rendering: xlsxwriter column widths, colours, `df.to_excel`'s own cell writes, and the conditional format on the price column (Steam_CS2.py:69-73). Of the spreadsheet writers, only the explicit `worksheet.write` calls are modelled.
- CSV: CSV quoting, encoding and re-reading a CSV file. The CSV export is only the effect of writing the named file.
- `save_file` (Steam_CS2.py:87-96) is never called by the script.
- The DataFrame: DataFrame building from records with differing keys is not modelled. `Export.Tabulate` takes each record's values in its own key order.
- Text.LowerChar: models `lower()` on ASCII letters only. The only non-ASCII characters that lower-case into ASCII letters are the Kelvin sign and U+0130. Neither letter occurs in excel, csv or both, so the export choice reads the same answers.
- Text.ParseInt: does not accept the underscores or non-ASCII decimal digits that Python's `int()` allows. It also skips the whole `str.isspace` set around the number, where `int()` skips only space and `\t\n\v\f\r` (so U+001C–U+001F padding is accepted here and rejected by `int()`). The script strips the answer before `int()`, so the product-number step reads the same answers either way.
- Pagination.EndsAfter: only finite next-link chains are modelled. On a cycle of next links, the source crawls forever.
- Export.OutputPath: joins the directory and the file name with `/`, where `os.path.join` uses the platform's separator.
- app.py (the web interface) is not part of this model.
