# zara-tracker, modelled in Dafny

zara-tracker scrapes the Zara catalogue and keeps a price history in a
SQLite database. Each scraped product has colours, and each colour has
sizes. Its item pipeline stores each product once, stores each colour once
per product, and appends a price trace to a colour when the colour is new
or its price changed. After a crawl, the prices spider looks at the
products with a colour that got two or more price traces that day. It posts a
report to Telegram for every product where some colour's newest price fell
by at least 25 % from the one before. The report shows the product name,
then, for each colour, every recorded price newest first with the rounded
change in percent, then a link to the product page. The two spiders also
turn the catalogue's JSON payload into items: colours, sizes, photo URLs,
product page URLs and category names.

The project has these modules:

- `Items` models the tables: products, colours and price traces. A row is
  identified by its index in its table. `created_at` becomes a store-wide
  insertion tick paired with a calendar date.
- `Ingestion` holds the functions that say what one item does to the
  database.
- `Pipelines.ZaraTrackerPipeline` is the item pipeline. It is a class whose
  methods update the tables in place, each proved against those functions.
- `Discounts` models `share_discount_reports`.
- `Announcements` models `announce_product_price_change`.
- `Catalog` models the pure helpers and the loops of the prices spider.
- `Stock` models the mapping functions of the stock spider.
- `Payload` is the size mapping both spiders share.
- `Strings`, `Sequences` and `Wrappers` hold the Python string operations
  and the list comprehensions the code relies on.

## Behaviour worth knowing

- **What appends a trace.** For a colour that already exists, only a
  change of `price` appends a trace (`pipelines.py:50`). A change of
  `old_price` or `original_price` alone appends nothing. A price seen again
  unchanged is not stored, so the series 2000, 2000, 1400 leaves two
  traces.
- **Which products are examined.** A product is examined only if one of
  its colours got two or more traces that day (`prices.py:30-35`). A colour
  first stored that day already has one trace from its creation, so one
  price change on the same day qualifies it. A colour stored on an earlier
  day needs two price changes on the day.
- **A colour id listed twice.** An item that lists the same colour id twice
  at two prices appends a trace for each listing whose price differs from
  the colour's latest (`pipelines.py:38-54`). Processing such an item again
  appends both traces again, so ingestion is idempotent only for items
  whose colour ids are distinct.
- **Order of a colour's lines.** The lines of a colour are listed newest
  first (`prices.py:80`). The percentage on a line is relative to the
  trace recorded before that one.
- **Missing `sizes`.** The prices spider gives a colour without the `sizes`
  key no sizes (`prices.py:169`). The stock spider raises `KeyError` for it
  (`stock.py:51`). `Stock.MissingSizesDiffer` states the difference.
- **Zero previous price.** A previous price of zero is a division by zero
  when the report is rendered (`prices.py:75`). It is modelled as an error.
- **Product without colours.** A report for a product without colours uses
  the unbound loop variable `color` (`prices.py:87`). It is also modelled
  as an error.

## Model

| member | source | states |
|---|---|---|
| Items.History | zara_tracker/items.py:35-40 | a colour's `price_traces` are traces of that colour only, at most all the traces |
| Items.HistoryComplete | zara_tracker/items.py:35-40 | a colour's `price_traces` are exactly the stored traces that reference it, every one of them, in table order |
| Items.HistoryInTraces | zara_tracker/items.py:35-40 | every trace in a colour's history is a stored trace |
| Items.HistoryAppend | zara_tracker/items.py:35-40 | creating a trace extends exactly the history of its own colour by it |
| Items.HistoryOrderedByCreation | zara_tracker/items.py:40 | traces stored in creation order give every colour a history in creation order |
| Items.Latest | zara_tracker/pipelines.py:48 | the newest trace found for a colour belongs to that colour |
| Items.LatestIsNewest | zara_tracker/pipelines.py:48 | with traces stored in creation order, a latest trace exists exactly when some trace references the colour; it is a stored trace, created no earlier than any trace of the colour |
| Items.NoHistoryMeansNoTrace | zara_tracker/pipelines.py:48 | the query finds no trace exactly when no stored trace references the colour |
| Ingestion.FindProduct | zara_tracker/pipelines.py:21-22 | the lookup returns the first product row with the id, and returns none exactly when no row has it |
| Ingestion.FindColor | zara_tracker/pipelines.py:39-41 | the lookup returns the first colour row with the (id, product) key, and returns none exactly when no row has it |
| Ingestion.ResolveProduct | zara_tracker/pipelines.py:21-30 | get_or_create finds a row with the item's id; it creates one, from the item's fields, exactly when none existed; otherwise nothing changes |
| Ingestion.ResolveColor | zara_tracker/pipelines.py:39-46 | get_or_create per (id, product) creates exactly when the key is new; an existing colour's name and image are never updated |
| Ingestion.IngestColorsStep | zara_tracker/pipelines.py:38 | the loop over colours handles one more colour by one more step |
| Ingestion.ResolveProductWf | zara_tracker/pipelines.py:21-30 | product creation keeps the tables well formed: ids unique, references valid, traces in creation order |
| Ingestion.ResolveColorWf | zara_tracker/pipelines.py:39-46 | colour creation keeps the tables well formed |
| Ingestion.AppendTraceWf | zara_tracker/pipelines.py:51-56 | a trace created for an existing colour with the next timestamp keeps the tables well formed |
| Ingestion.IngestColorWf | zara_tracker/pipelines.py:38-56 | one colour iteration keeps the tables well formed, only adds rows and leaves products alone |
| Ingestion.KeepOrAppendWf | zara_tracker/pipelines.py:50-56 | either outcome of the append condition keeps the tables well formed and only adds rows |
| Ingestion.IngestColorsWf | zara_tracker/pipelines.py:37-56 | store_colors keeps the tables well formed, only adds rows and adds no product |
| Ingestion.IngestWf | zara_tracker/pipelines.py:20-35 | process_item keeps the tables well formed |
| Ingestion.IngestProductIdentity | zara_tracker/pipelines.py:21-30 | a product is created at most once; a known id leaves the product table unchanged, so first-seen fields win |
| Ingestion.NewColorGetsOneTrace | zara_tracker/pipelines.py:39-56 | a new colour gets its row and exactly one trace, carrying the item's three prices |
| Ingestion.ExistingColorAppendCondition | zara_tracker/pipelines.py:48-56 | for an existing colour a trace is appended exactly when its latest trace exists and has another price; old and original prices alone change nothing |
| Ingestion.TracelessColorStaysTraceless | zara_tracker/pipelines.py:50 | an existing colour with no trace never gets one, because the condition needs a latest trace |
| Ingestion.IngestColorSettles | zara_tracker/pipelines.py:38-56 | after one colour iteration the colour's row exists and its latest trace, if any, has the item's price |
| Ingestion.IngestColorKeepsSettled | zara_tracker/pipelines.py:38-56 | an iteration for one colour id keeps every colour of another id settled at its price |
| Ingestion.IngestColorsSettles | zara_tracker/pipelines.py:37-56 | after store_colors every colour of the list is settled at its last occurrence's price |
| Ingestion.IngestLastColorSettles | zara_tracker/pipelines.py:37-56 | the last iteration settles its own colour and keeps earlier colours settled if their id does not come again |
| Ingestion.IngestLatestPrice | zara_tracker/pipelines.py:20-56 | after process_item each colour of the item has a row whose latest trace, if any, has the item's price; for a repeated id the last occurrence wins |
| Ingestion.IngestColorSettledNoop | zara_tracker/pipelines.py:50 | a colour already stored at its price is left untouched |
| Ingestion.IngestColorsSettledNoop | zara_tracker/pipelines.py:37-56 | store_colors changes nothing when every colour is already stored at its price |
| Ingestion.IngestIdempotent | zara_tracker/pipelines.py:20-56 | processing the same item twice, on any dates, changes nothing the second time, provided its colour ids are distinct |
| Ingestion.RepeatedColorIdAppendsAgain | zara_tracker/pipelines.py:36-54 | a new product's item listing one colour id twice at two prices gets two traces on the first pass and two more on the second, so the distinct-ids condition is needed |
| Ingestion.HistoryPrefix | zara_tracker/items.py:35-40 | adding traces only extends each colour's history |
| Ingestion.IngestAppendOnly | zara_tracker/pipelines.py:20-56 | ingestion only creates rows; every table and every colour's history before is a prefix of the one after |
| Pipelines.ZaraTrackerPipeline.constructor | zara_tracker/pipelines.py:16-18 | connecting leaves the tables holding the stored, well-formed database |
| Pipelines.ZaraTrackerPipeline.FindProductRow | zara_tracker/pipelines.py:21-22 | the scan for a product row finds the row the lookup specifies |
| Pipelines.ZaraTrackerPipeline.FindColorRow | zara_tracker/pipelines.py:39-41 | the scan for a colour row finds the row the lookup specifies |
| Pipelines.ZaraTrackerPipeline.LatestTrace | zara_tracker/pipelines.py:48 | the backward scan returns the colour's newest trace |
| Pipelines.ZaraTrackerPipeline.GetOrCreateProduct | zara_tracker/pipelines.py:21-30 | the tables and the returned (row, created) become exactly ResolveProduct's, and stay well formed |
| Pipelines.ZaraTrackerPipeline.GetOrCreateColor | zara_tracker/pipelines.py:39-46 | the tables and the returned (row, created) become exactly ResolveColor's, and stay well formed |
| Pipelines.ZaraTrackerPipeline.CreateTrace | zara_tracker/pipelines.py:51-56 | exactly one trace is appended, with the next timestamp, and nothing else changes |
| Pipelines.ZaraTrackerPipeline.StoreColor | zara_tracker/pipelines.py:39-56 | one loop iteration changes the tables exactly as IngestColor says |
| Pipelines.ZaraTrackerPipeline.StoreColors | zara_tracker/pipelines.py:37-56 | store_colors changes the tables exactly as IngestColors says |
| Pipelines.ZaraTrackerPipeline.ProcessItem | zara_tracker/pipelines.py:20-35 | process_item changes the tables exactly as Ingest says (so the Ingestion lemmas hold of it) |
| Discounts.CountOn | zara_tracker/spiders/prices.py:24-35 | a colour's traces on a day number at most its whole history |
| Discounts.ChangedUpTo | zara_tracker/spiders/prices.py:30-37 | the scan of the first n products yields only rows below n |
| Discounts.ChangedUpToMeaning | zara_tracker/spiders/prices.py:30-37 | the scan keeps exactly the products with a colour traced more than once on the day, in increasing row order |
| Discounts.ChangedProductsExactly | zara_tracker/spiders/prices.py:23-39 | the products examined are exactly those changed today, each once, in row order, and each has a colour with two traces |
| Discounts.CountOnPositive | zara_tracker/spiders/prices.py:24-28 | a colour has a trace counted on the day exactly when one of its traces is dated that day |
| Discounts.CountOnTwice | zara_tracker/spiders/prices.py:34-35 | `count > 1` for a colour holds exactly when two of its traces carry that date |
| Discounts.TwiceFromCount | zara_tracker/spiders/prices.py:34-35 | from a count above one there are two traces on the day |
| Discounts.CountFromTwice | zara_tracker/spiders/prices.py:34-35 | from two traces on the day the count is above one |
| Discounts.SignificantFallIsPercentage | zara_tracker/spiders/prices.py:53-60 | the integer test holds exactly when `(previous - current) / previous * 100 >= 25` holds on exact reals |
| Discounts.PercentageAtLeast | zara_tracker/spiders/prices.py:58-60 | a drop of at least 25 percent is a drop of at least a quarter |
| Discounts.SignificantDropIsPercentage | zara_tracker/spiders/prices.py:45-60 | the drop test on a colour's history holds exactly when it has two traces or more, the newest is cheaper, and `(previous - current) / previous * 100 >= 25` on exact reals |
| Discounts.FlaggedMeans | zara_tracker/spiders/prices.py:42-61 | a product is flagged exactly when one of its colours has two traces or more, the newest cheaper than the one before by `(previous - current) / previous * 100 >= 25` on exact reals; a product without colours is never flagged |
| Discounts.HasSignificantPriceDrop | zara_tracker/spiders/prices.py:40-61 | the colour loop sets the flag exactly when the product is flagged; one trace or a rise never flags |
| Discounts.NewestFirstDrop | zara_tracker/spiders/prices.py:43-50 | reading the history newest first, the first two traces are the current and previous prices |
| Discounts.Run | zara_tracker/spiders/prices.py:39-64 | a run sends at most one notification per attempt |
| Discounts.Announced | zara_tracker/spiders/prices.py:63-64 | there is at most one successful announcement per attempt |
| Discounts.RunMeaning | zara_tracker/spiders/prices.py:39-64 | without a failure every report is sent; otherwise exactly those before the first failure are, and the run stops with its error |
| Discounts.RunFailureLater | zara_tracker/spiders/prices.py:39-64 | a failure after the first attempt stops the run with that failure |
| Discounts.RunCons | zara_tracker/spiders/prices.py:39-64 | a run with one more attempt in front runs that attempt first |
| Discounts.RunSentFrom | zara_tracker/spiders/prices.py:63-64 | whatever a run sends comes from a successful announcement |
| Discounts.RunFailedOn | zara_tracker/spiders/prices.py:63-64 | a run that stops does so on a failed announcement |
| Discounts.Attempts | zara_tracker/spiders/prices.py:39-64 | each product examined makes one attempt |
| Discounts.AttemptsAt | zara_tracker/spiders/prices.py:39-64 | the k-th attempt is the one for the k-th product |
| Discounts.AttemptsStep | zara_tracker/spiders/prices.py:39-64 | the attempts from position i are the one for product i, then the rest |
| Discounts.NoTokenNoAttempts | zara_tracker/spiders/prices.py:63 | without a Telegram token nothing is sent and nothing fails |
| Discounts.FlaggedReportHasColor | zara_tracker/spiders/prices.py:63-64 | a flagged product's report never fails for want of a colour |
| Discounts.AttemptFailure | zara_tracker/spiders/prices.py:63-64 | an attempt fails only for a flagged product with a token, and then with a zero price before the newest |
| Discounts.RunOfAttemptsMeaning | zara_tracker/spiders/prices.py:22-64 | without a token nothing is sent; every report sent is that of a flagged product examined; a stop is a zero-price error |
| Discounts.ShareProduct | zara_tracker/spiders/prices.py:40-64 | the body for one product announces it exactly when it is flagged and a token is set |
| Discounts.ShareAll | zara_tracker/spiders/prices.py:39-64 | the loop sends and stops exactly as the run of the attempts says |
| Discounts.ShareDiscountReports | zara_tracker/spiders/prices.py:22-64 | the report sends and stops exactly as the run over today's changed products says |
| Announcements.ColorsOf | zara_tracker/items.py:30 | `product.colors` are exactly the product's colour rows, in increasing row order |
| Announcements.RoundHalfEven | zara_tracker/spiders/prices.py:76 | `round` gives an integer within half of the quotient, with ties going to an even integer |
| Announcements.RoundHalfEvenUnique | zara_tracker/spiders/prices.py:76 | the rounding is the only integer with those two properties |
| Announcements.SignedText | zara_tracker/spiders/prices.py:76 | the `:+` format starts with '-' exactly for negatives and '+' otherwise |
| Announcements.SignedTextRoundTrip | zara_tracker/spiders/prices.py:76 | the signed text reads back as the integer |
| Announcements.PriceText | zara_tracker/spiders/prices.py:77 | a price is shown with two decimals |
| Announcements.PriceTextRoundTrip | zara_tracker/spiders/prices.py:77 | the two-decimal text reads back as the exact price in minor units |
| Announcements.DateTextRoundTrip | zara_tracker/spiders/prices.py:77 | `%Y-%m-%d` is ten characters for a four-digit year and reads back as the date |
| Announcements.Annotation | zara_tracker/spiders/prices.py:75-76 | the note fails, as a division by zero, exactly when the previous price is zero |
| Announcements.AnnotationMeaning | zara_tracker/spiders/prices.py:75-76 | the note is empty exactly for the first trace or an unchanged price; otherwise it is the nearest integer percentage, '+' for every rise, '-' only for a fall |
| Announcements.RoundedRiseIsPositive | zara_tracker/spiders/prices.py:75-76 | a price rise never rounds to a negative percentage |
| Announcements.LinesUpTo | zara_tracker/spiders/prices.py:74-78 | the loop has produced one line per trace so far |
| Announcements.Entries | zara_tracker/spiders/prices.py:74-78 | rendering a colour fails only with the zero-price error, and otherwise gives one line per trace |
| Announcements.LinesUpToStep | zara_tracker/spiders/prices.py:74-78 | one more trace, priced against the previous one, appends its line |
| Announcements.EntriesFail | zara_tracker/spiders/prices.py:75 | a zero price before the newest makes the rendering fail |
| Announcements.EntriesSucceed | zara_tracker/spiders/prices.py:74-78 | without such a zero every line is rendered |
| Announcements.LinesAt | zara_tracker/spiders/prices.py:74-78 | line k shows trace k and its change from trace k-1 |
| Announcements.Reverse | zara_tracker/spiders/prices.py:80 | `reverse` puts element k at position n-1-k |
| Announcements.LinesNewestFirst | zara_tracker/spiders/prices.py:74-81 | after reversing, the first line shows the latest price against the one before, and the last line is the oldest trace with no percentage |
| Announcements.FirstLineHasNoNote | zara_tracker/spiders/prices.py:76-77 | the oldest trace's line is just date and price |
| Announcements.ColorText | zara_tracker/spiders/prices.py:70-83 | a colour's block starts with its italic name |
| Announcements.AnnouncementFailure | zara_tracker/spiders/prices.py:66-87 | the report fails with a zero price exactly when one colour has a zero before its newest; it fails with no colour exactly when the product has none |
| Announcements.AnnouncementContent | zara_tracker/spiders/prices.py:66-87 | a report goes to the product's market with at least one photo; its caption starts with the bold name and the first colour and ends with the page link |
| Announcements.CaptionStartsWithFirstColor | zara_tracker/spiders/prices.py:67-70 | the caption starts with the header and then the first colour's name |
| Announcements.CaptionStep | zara_tracker/spiders/prices.py:69-83 | one more colour appends its block to the caption |
| Announcements.RenderLine | zara_tracker/spiders/prices.py:75-78 | one inner iteration gives the specified line, or the zero-price error |
| Announcements.ColorLines | zara_tracker/spiders/prices.py:72-78 | the inner loop yields exactly the colour's rendered lines, or the error |
| Announcements.AnnounceProductPriceChange | zara_tracker/spiders/prices.py:66-87 | the method builds exactly the specified report: caption, market and the last colour's photos |
| Catalog.WalkAllStep | zara_tracker/spiders/prices.py:186-188 | one more subcategory extends the walk by its own walk when the walk descends into it |
| Catalog.ProcessCategory | zara_tracker/spiders/prices.py:185-194 | the accumulator gains, in order, the entries of the categories walked, subtrees before their parent |
| Catalog.WalkContents | zara_tracker/spiders/prices.py:185-192 | the walk visits exactly the categories reachable through products/marketing layouts, with the start last |
| Catalog.WalkAllContents | zara_tracker/spiders/prices.py:186-188 | the subcategory walk visits exactly what is reachable from a descended subcategory |
| Catalog.ForestSplit | zara_tracker/spiders/prices.py:186-188 | being reachable from the subcategories splits into the earlier ones or the last |
| Catalog.ProcessedEntries | zara_tracker/spiders/prices.py:185-194 | an entry is collected exactly for each reachable category, with the start's entry last |
| Catalog.WalkLeaf | zara_tracker/spiders/prices.py:185-192 | a category is collected alone exactly when no subcategory has a products or marketing layout |
| Catalog.WalkAllEmpty | zara_tracker/spiders/prices.py:186-188 | no subcategory is walked exactly when none is descended into |
| Catalog.FormatCategoryNameMeaning | zara_tracker/spiders/prices.py:196-208 | a formatted name has no upper-case letter; a "zara" name is stripped of outer whitespace; any other name has each no-break space turned into a space, then " \| " becomes a space, else each space becomes an underscore position by position, else each hyphen does, else the name is returned unchanged |
| Catalog.StrippedLacks | zara_tracker/spiders/prices.py:199 | strip adds no character |
| Catalog.UnbreakSpacesMeaning | zara_tracker/spiders/prices.py:200-201 | each no-break space becomes a space and every other character stays in place, so no no-break space remains |
| Catalog.ReformatMeaning | zara_tracker/spiders/prices.py:202-208 | the first of " \| ", " " and "-" found decides the rewrite: " \| " becomes a space; else each space becomes an underscore and every other character stays in place; else each hyphen does; a name with none of them is returned unchanged |
| Catalog.MakeUrlMeaning | zara_tracker/spiders/prices.py:210-217 | no URL exactly when the keyword is missing or empty; KeyError exactly when an id is missing, naming `seoProductId` first; otherwise the URL is the site prefix, the keyword, "-p" and the SEO product id, ".html?v1=" and the discern product id, "&v2=", and the decimal category id, in that order |
| Strings.IntText | zara_tracker/spiders/prices.py:216 | an integer renders as decimal digits, after a minus sign when it is negative |
| Strings.ReplaceCharAt | zara_tracker/spiders/prices.py:204-207 | replacing one character by another changes exactly the positions holding it and keeps the length |
| Catalog.PhotoUrl | zara_tracker/spiders/prices.py:222-225 | a photo URL is never empty |
| Catalog.PhotoUrls | zara_tracker/spiders/prices.py:220-226 | one URL per photo |
| Catalog.PhotoUrlsFailureSticks | zara_tracker/spiders/prices.py:221-224 | once a photo raises, the whole call raises that error |
| Catalog.PhotoUrlsMeaning | zara_tracker/spiders/prices.py:219-227 | the URLs are made exactly when every photo has its three fields, and URL k is photo k's |
| Catalog.PhotoUrlHasNoSeparator | zara_tracker/spiders/prices.py:225 | a URL from comma-free fields contains no ", " |
| Catalog.PhotoUrlsSplitBack | zara_tracker/spiders/prices.py:227 | splitting the joined image on ", " (as the report does) gives the URLs back; with no photo it gives one empty string |
| Catalog.MakePhotoUrls | zara_tracker/spiders/prices.py:219-227 | the loop and join produce exactly the specified joined URLs, or the KeyError |
| Catalog.MapColorMeaning | zara_tracker/spiders/prices.py:161-170 | a listed colour maps exactly when its id, photos and sizes map; the record copies the fields, has as image the ", "-joined photo URLs (non-empty) and as sizes the mapped payload sizes, one per payload size, and a missing `sizes` gives none |
| Catalog.JoinNonEmpty | zara_tracker/spiders/prices.py:227 | joining a list whose first URL is non-empty gives a non-empty string |
| Catalog.ListedColors | zara_tracker/spiders/prices.py:149-155 | the filter keeps only colours with a name, price, photos and product id |
| Catalog.ListedColorsComplete | zara_tracker/spiders/prices.py:149-157 | the filter keeps every colour with a name, price, photos and product id, and no other, in payload order |
| Catalog.MappedColorsMeaning | zara_tracker/spiders/prices.py:146-159 | map_colors succeeds exactly when every kept colour maps, and then record k is kept colour k's |
| Catalog.AllMapAppend | zara_tracker/spiders/prices.py:149-157 | all kept colours map exactly when the earlier ones and the new one do |
| Catalog.MapsToAppend | zara_tracker/spiders/prices.py:157 | appending the new colour's record keeps records and colours aligned |
| Catalog.MappedColorsFailureSticks | zara_tracker/spiders/prices.py:157 | once a colour raises, map_colors raises that error |
| Catalog.MapColors | zara_tracker/spiders/prices.py:146-159 | the loop produces exactly the specified records, or the first KeyError |
| Payload.MapSizeRoundTrip | zara_tracker/spiders/prices.py:175-183 | map_size reads back a size's payload; it maps to a size exactly from that size's payload; it fails exactly when a mandatory key is missing, id first |
| Sequences.MapAllMeaning | zara_tracker/spiders/prices.py:172-173 | map_sizes succeeds exactly when every size maps, record k is size k's, and a failure is the first failing element's error |
| Sequences.MapAllInverse | zara_tracker/spiders/stock.py:41-42 | a comprehension by a decoder over encoded values gives the values back |
| Stock.SizesRoundTrip | zara_tracker/spiders/stock.py:54-55 | map_sizes reads back a list of sizes from their payloads |
| Stock.MapColorMeaning | zara_tracker/spiders/stock.py:44-52 | map_color reads back a colour's payload; it succeeds exactly when id, name, price and sizes are present and the sizes map; it copies the fields; a missing id raises for "id", and a missing `sizes` with the other keys present raises for "sizes" |
| Stock.MissingSizesDiffer | zara_tracker/spiders/stock.py:51 | a colour without `sizes` raises in the stock spider but gets no sizes in the prices spider |
| Stock.MapColorsRoundTrip | zara_tracker/spiders/stock.py:41-42 | map_colors reads back colours from their payloads; it succeeds exactly when every colour maps, and then record k is colour k's |

## Left out

- HTTP and Scrapy plumbing is not part of this model: `parse`, the request side of `parse_products` (`prices.py:89-144`), `from_crawler`, and the stock spider's requests (`stock.py:15-39`). The payloads these read are parameters of the mapping functions.
- Sending the Telegram message (`telegram.py`) is not modelled. The report is a `Notification` value: the market, the photo list and the caption. The HTTP post, its retry after a 429, and the market-to-thread lookup are left out.
- Settings are left out. `TG_TOKEN` is a boolean parameter. `COUNTRY_CODE` and `LANGUAGE_CODE` are a `Site` parameter. The 25 % threshold is the constant `MinimalPriceDropPercentage`.
- `store_sizes` (`pipelines.py:63-98`) is not modelled: its only call is commented out. The sizes and size-trace tables are left out with it.
- `get_percentage` (`prices.py:229-233`) is not modelled: nothing calls it.
- Peewee, SQLite and logging are not modelled. The tables are sequences and row ids are their indices. The queries return rows in row order. The clock is an insertion tick plus a `today` date parameter.
- Prices are non-negative integers in minor units. A negative price is not modelled.
- Percentages, the 25 % test and `round(price / 100, 2)` are computed on floats. The model uses exact rationals instead: the integer test `SignificantFall` is proved equal to the test on exact reals, and a percentage is rounded half to even from the exact quotient. Floating-point rounding is left out.
- `str.lower` is modelled for ASCII, Latin-1 and Latin Extended-A letters. Other characters are kept as they are.
- A category's `layout` is a string, and `in` on it is substring search.
- A category's `id`, `name` and `layout` keys and its `subcategories` list are always present, so the `KeyError` these could raise is not modelled.
- `Catalog.ProcessCategory`: the `categories` accumulator is modelled by value. The caller's list is not aliased and mutated.
- `Catalog.FormatCategoryNameMeaning`: the "zara" branch states only the stripping and the lower case. Removing "zara" can join its neighbours into a new "zara", and the contract does not say the result lacks one.
- `Announcements.AnnouncementContent`: the caption is stated by its start and its end. The middle is stated by `Caption` and the lines lemmas.
- Ingestion is modelled only for complete items: every key `process_item` reads with `.get` is present. The pipelines in `ITEM_PIPELINES` (`settings.py:106-109`) also run for the stock spider, whose items lack `market`, `url`, `category`, `description` and the colours' `image`. When such an item creates a row, `.get` yields `None` for a `NOT NULL` column, and the `IntegrityError` that follows is not modelled.
- The pipeline's lookups are proved against the first matching row. Uniqueness of product ids and colour keys is the `Wf` invariant, which ingestion is proved to keep.
