# Order book aggregation and reconciliation, in Dafny

This project models the core of an order book comparison tool. The tool
reads two feeds of market data for the same instrument, a CSV export and a
log. Each feed builds its own order book. The books are then compared
level by level, and an HTML report summarises them.

The model covers three parts of that core:

- **The book aggregator** (`OBStream` in `OrderBook/OrderFeeds.cpp`).
  - A fresh `OrderBook` holds no levels and no spreads, and its per-depth
    feed totals are zero.
  - Each feed record brings bid and ask `(price, quantity)` tokens. The
    token at position `i` is recorded at depth `i`, up to the configured
    number of book levels; a new level is appended when depth `i` does not
    exist yet.
  - Every record is counted as a feed. Only a record with at least one bid
    and one ask level also bumps the per-depth totals and is logged in the
    best-spread index. The index is keyed by spread (top ask minus top bid)
    and then by top bid price.
- **The level reconciliation** (`plotBookLevelsDiff` and `plotLevels` in
  `OrderBook/OrderPlot.cpp`).
  - At each depth both books have, two lists are computed. The first lists
    the quantities at prices only the CSV book has at that depth, then the
    quantities the CSV book has at prices both books share. The second list
    is the same with the books exchanged.
  - At a depth only one book has, both books' levels are listed in full.
- **The best-spread summary** (`plotBookCol` in `OrderBook/OrderPlot.cpp`):
  which spreads are listed, which entry is shown for each, and its midpoint.

The model has five modules:

- `Ordered` (`ordered.dfy`): the ascending iteration order of `std::set<int>`
  and of `std::map<int, _>` keys, which every loop here relies on, and
  `begin()` as the least element.
- `OrderBookTypes` (`order_book.dfy`): the data model of
  `OrderBook/OrderBook.hpp`.
- `BookAggregation` (`aggregation.dfy`): what feeding a history of records
  computes, as functions of that history, with the properties proved about
  them.
- `OrderFeeds` (`order_feeds.dfy`): the imperative aggregator.
  - `OrderBook` and `OBStream` are classes whose methods update fields in
    place, as the source does.
  - `OrderBook.Valid()` ties every field to the functions of the ghost
    record history in `BookAggregation`. Every method keeps it.
- `OrderPlot` (`order_plot.dfy`): flattening, the per-depth difference, the
  best-spread selection, and the two findings below.

Three behaviours of the code are easy to misread. The model follows the
code in each:

- The per-depth totals and the spread index change only when both sides of
  a record reached a level (`OrderBook/OrderFeeds.cpp:131-137`). Take a
  record with bids but no asks. It is counted as a feed, and its bid tokens
  still reach the bid levels, because `addLevels` runs before the early
  return (`OrderBook/OrderFeeds.cpp:125`). Only the totals and the spread
  index stay unchanged.
- When one book has a depth the other lacks, the code prints both books'
  levels in full, once for each such depth (`OrderBook/OrderPlot.cpp:187-191`).
  The comment at `OrderBook/OrderPlot.cpp:188` says one of the two will not
  plot, but both calls list their whole book.
- `nBookFeeds` is not set in the `OBStream` constructor. `make_shared`
  value-initialises the struct, so it starts at zero, and the model starts
  it at zero.

## Model

| member | source | states |
|---|---|---|
| Ordered.Ascending | OrderBook/OrderPlot.cpp:209 | A set's elements listed once each, strictly ascending: the iteration order of a `std::set<int>` |
| Ordered.Least | OrderBook/OrderPlot.cpp:310 | `begin()` of a non-empty ordered set is a member no greater than any other member |
| BookAggregation.Depth | OrderBook/OrderFeeds.cpp:65-72 | The scan stops at the configured depth or at the end of the tokens, whichever comes first; it never exceeds either |
| BookAggregation.InsertQty | OrderBook/OrderFeeds.cpp:81-84 | `mpq[p].insert(q)` adds price `p` to the level's keys and exactly the pair `(p, q)` to its contents |
| BookAggregation.InsertQtyPresent | OrderBook/OrderFeeds.cpp:84 | Inserting a quantity already recorded at its price leaves the level unchanged (set semantics) |
| BookAggregation.InsertAt | OrderBook/OrderFeeds.cpp:80-98 | One scan step adds exactly `(p, q)` at depth `i` and keeps everything else; it appends a level only when `i` is one past the end |
| BookAggregation.Accumulate | OrderBook/OrderFeeds.cpp:68-106 | After scanning, a side has as many levels as it had or as tokens were scanned, whichever is more |
| BookAggregation.AccumulateExact | OrderBook/OrderFeeds.cpp:68-106 | Scanning keeps every recorded pair and adds exactly the scanned tokens, token `d` at depth `d` |
| BookAggregation.AccumulatePresent | OrderBook/OrderFeeds.cpp:80-98 | Scanning tokens that are all already recorded at their depths changes nothing |
| BookAggregation.AccumulateIdempotent | OrderBook/OrderFeeds.cpp:125-126 | Feeding the same side tokens twice leaves the levels as feeding them once |
| BookAggregation.SideLevelsBounded | OrderBook/OrderFeeds.cpp:71-72 | A side never holds more levels than the configured book depth |
| BookAggregation.SideLevelsExact | OrderBook/OrderFeeds.cpp:125-126 | A side's levels hold exactly the tokens some record placed at a position below the cap, each at the depth of its position |
| BookAggregation.SideLevels | OrderBook/OrderFeeds.cpp:125-126 | The levels of one side after feeding a history; its properties are the ensures of `SideLevelsBounded` and `SideLevelsExact` |
| BookAggregation.Counted | OrderBook/OrderFeeds.cpp:131-133 | Whether a record changes the totals and the spread index: both sides reached at least one level (used by `Feed` and `TotalsCountRecords`) |
| BookAggregation.BumpPrefix | OrderBook/OrderFeeds.cpp:136-137 | One more feed at each depth below the number of levels reached, stopping at the end of the totals: the totals keep their length |
| BookAggregation.Totals | OrderBook/OrderFeeds.cpp:42-43 | The per-depth totals always have one entry per configured level |
| BookAggregation.TotalsCountRecords | OrderBook/OrderFeeds.cpp:131-137 | The total at depth `d` is the number of records with both sides non-empty whose side reached depth `d` |
| BookAggregation.TotalsShape | OrderBook/OrderFeeds.cpp:136-137 | Totals are between 0 and the number of records, and never increase with depth |
| BookAggregation.Snapshot | OrderBook/OrderFeeds.cpp:123-126 | A record's snapshot is the prefix of each side's tokens that reached the book, one token per level reached |
| BookAggregation.LogSpread | OrderBook/OrderFeeds.cpp:140-144 | Logging files the snapshot under its spread and top bid, adds exactly that key pair, and leaves every other entry unchanged |
| BookAggregation.SpreadOf | OrderBook/OrderFeeds.cpp:140-144 | A snapshot's spread, its first ask price minus its first bid price (the key `LogSpread` stores under) |
| BookAggregation.LastWriteWins | OrderBook/OrderFeeds.cpp:144 | A second snapshot with the same spread and top bid replaces the first |
| BookAggregation.SpreadIndexOf | OrderBook/OrderFeeds.cpp:131-144 | The best-spread index after feeding a history; its properties are the ensures of `SpreadIndexOfConsistent` and `SpreadIndexOfLastWrite` |
| BookAggregation.SpreadIndexOfConsistent | OrderBook/OrderFeeds.cpp:131-144 | After any history, every spread has a top bid, and every stored snapshot is non-empty on both sides, within the cap, and has the spread and top bid it is filed under |
| BookAggregation.SpreadIndexOfLastWrite | OrderBook/OrderFeeds.cpp:144 | A counted record's snapshot is what the index holds under its keys, unless a later counted record has the same keys |
| BookAggregation.Replay | OrderBook/OrderFeeds.cpp:121-145 | The book after feeding a history to a fresh book: both totals have one entry per configured depth (one record at a time by `FeedOne`) |
| BookAggregation.Feed | OrderBook/OrderFeeds.cpp:121-145 | One record's effect: the totals keep their length; a record that is not counted leaves the totals and the spread index as they were; a counted one adds its spread and stores its snapshot under its spread and top bid |
| BookAggregation.FeedOne | OrderBook/OrderFeeds.cpp:121-145 | Replaying a history one record longer equals feeding that one record to the replayed book |
| OrderFeeds.OrderBook.constructor | OrderBook/OrderFeeds.cpp:35-43 | A fresh book: the source name and depth as given, no feeds, no levels, no spreads, and zero totals of the configured size |
| OrderFeeds.OrderBook.Commit | OrderBook/OrderFeeds.cpp:125-144 | Storing the next state and counting the feed extends the history by the record and keeps the book consistent with it |
| OrderFeeds.OBStream.constructor | OrderBook/OrderFeeds.cpp:29-54 | The stream owns a fresh, empty, consistent book for the named source and depth |
| OrderFeeds.OBStream.AddLevels | OrderBook/OrderFeeds.cpp:59-119 | Returns the number of levels scanned; the levels become `Accumulate` of the old levels and exactly those tokens; the scanned tokens are appended to `vps` |
| OrderFeeds.OBStream.ProcessLevel | OrderBook/OrderFeeds.cpp:121-145 | One record always counts as a feed; the book state becomes `Feed` of the old state and that record; the book stays consistent with its extended history |
| OrderFeeds.OBStream.LogBestSpread | OrderBook/OrderFeeds.cpp:140-144 | Files the snapshot under spread `top ask - top bid` and top bid, with the same result as `LogSpread` |
| OrderFeeds.OBStream.IncrementTotals | OrderBook/OrderFeeds.cpp:136-137 | Adds one at each depth below the number of levels reached, stopping at the end of the totals |
| OrderFeeds.OBStream.ProcessFeeds | OrderBook/OrderFeeds.cpp:177-197 | Feeding a file's records in order extends the history by all of them, counts each as one feed, and keeps the book consistent |
| OrderPlot.FlattenKeys | OrderBook/OrderPlot.cpp:209-214 | The pairs of a level at the given prices, price by price; its properties are the ensures of `FlattenKeysSpec` |
| OrderPlot.FlattenAt | OrderBook/OrderPlot.cpp:133-142 | The pairs of a level at the prices of a key set, iterated ascending; its properties are the ensures of `FlattenAtSpec` |
| OrderPlot.Flatten | OrderBook/OrderPlot.cpp:199-214 | One level as `plotLevels` lists it; its properties are the ensures of `FlattenSpec` and `FlattenCount` |
| OrderPlot.PlotLevels | OrderBook/OrderPlot.cpp:195-220 | One side as `plotLevels` lists it: one listing per level, in depth order (further properties in `PlotLevelsSpec`) |
| OrderPlot.PairsOfLevel | OrderBook/OrderPlot.cpp:209-213 | The pairs listed for one price are exactly that price's quantities, ascending |
| OrderPlot.FlattenKeysSpec | OrderBook/OrderPlot.cpp:209-214 | Flattening at ascending prices lists exactly the recorded pairs at those prices, ascending by price then quantity |
| OrderPlot.FlattenAtSpec | OrderBook/OrderPlot.cpp:133-142 | Flattening at a set of prices lists exactly the recorded pairs at those prices, in order |
| OrderPlot.FlattenSpec | OrderBook/OrderPlot.cpp:199-214 | A flattened level lists every recorded `(price, quantity)` pair and nothing else, strictly ascending |
| OrderPlot.AscendingDistinct | OrderBook/OrderPlot.cpp:209-213 | A strictly ascending listing has no duplicates |
| OrderPlot.FlattenCount | OrderBook/OrderPlot.cpp:232 | The count printed for a level is the number of distinct `(price, quantity)` pairs it records |
| OrderPlot.PlotLevelsSpec | OrderBook/OrderPlot.cpp:195-220 | Listing a side gives one entry per depth; depth `i` holds exactly the pairs of level `i`, ascending |
| OrderPlot.TagMembers | OrderBook/OrderPlot.cpp:138 | Tagging a list keeps exactly its pairs, all with the given tag |
| OrderPlot.TaggedMembers | OrderBook/OrderPlot.cpp:133-176 | The joined lists hold exactly the first list's pairs as price-only and the second's as shared-price |
| OrderPlot.TaggedOrder | OrderBook/OrderPlot.cpp:133-176 | Price-only entries come before shared-price ones, and each group stays ascending |
| OrderPlot.SharedQtyDiff | OrderBook/OrderPlot.cpp:157-167 | At each price both levels have, the quantities of the first level missing from the second: its prices are exactly the shared prices |
| OrderPlot.Tagged | OrderBook/OrderPlot.cpp:141-175 | The price-only entries appended first, then the shared-price entries; its properties are the ensures of `TaggedMembers` and `TaggedOrder` |
| OrderPlot.OneSide | OrderBook/OrderPlot.cpp:123-176 | One side's list for one depth; its properties are the ensures of `OneSideMembers` and `OneSideOrder` |
| OrderPlot.DiffLevel | OrderBook/OrderPlot.cpp:116-176 | The CSV side's list and the log side's list for one depth; its properties are the ensures of `DiffReconciles` |
| OrderPlot.OneSideMembers | OrderBook/OrderPlot.cpp:123-176 | One side of the difference lists a price-only entry exactly for each pair at a price the other level lacks, and a shared-price entry exactly for each quantity the other level lacks at a shared price |
| OrderPlot.OneSideOrder | OrderBook/OrderPlot.cpp:133-176 | One side of the difference lists price-only entries first, and each group ascending by price then quantity |
| OrderPlot.DiffBooks | OrderBook/OrderPlot.cpp:108-191 | The report has one entry per depth of the deeper book, and a depth is compared exactly when both books have it |
| OrderPlot.DiffBooksAccounts | OrderBook/OrderPlot.cpp:116-191 | At a compared depth the two lists reconcile the levels. At any other depth the report lists every level of both books in full |
| OrderPlot.DiffReconciles | OrderBook/OrderPlot.cpp:123-176 | A pair is in the CSV level exactly when it is in the log level and not listed on the log side, or it is listed on the CSV side. No pair common to both is listed |
| OrderPlot.IdenticalLevelsNoDiff | OrderBook/OrderPlot.cpp:123-176 | Identical levels produce two empty lists |
| OrderPlot.DiffBooksSymmetric | OrderBook/OrderPlot.cpp:105-191 | Exchanging the two books exchanges the two sides of every depth's report |
| OrderPlot.SentinelRoundTrip | OrderBook/OrderPlot.cpp:239-242 | The negated-price encoding round-trips when price-only prices are positive and shared prices are not negative |
| OrderPlot.SentinelLosesPriceZero | OrderBook/OrderPlot.cpp:239-242 | A price-only entry at price 0 encodes to the same pair as a shared-price entry and decodes as one |
| OrderPlot.EncodeSentinel | OrderBook/OrderPlot.cpp:138-171 | The source's encoding of a difference entry (a price-only entry's price negated at :138 and :150, a shared-price entry stored as is at :170-171): the quantity is kept, the price kept or negated, and for a positive price the sign tells the two kinds apart |
| OrderPlot.DecodeSentinel | OrderBook/OrderPlot.cpp:239-242 | The source's reading of a stored pair: a negative price means a price-only entry; the decoded price is never negative, and encoding the decoded entry gives back the stored pair |
| OrderPlot.RenderAsWritten | OrderBook/OrderPlot.cpp:239-242 | The source's printing of a stored pair: a negative price is printed negated and bold; otherwise the quantity is bold. The printed price is never negative |
| OrderPlot.RenderEntry | OrderBook/OrderPlot.cpp:239-242 | The corrected printing, driven by the tag: the entry's price and quantity, with the price bold exactly for a price-only entry |
| OrderPlot.RenderAsWrittenAgrees | OrderBook/OrderPlot.cpp:239-242 | With positive price-only prices and non-negative shared prices, the source prints every encoded entry exactly as the tag-driven printing does |
| OrderPlot.RenderAsWrittenPriceZero | OrderBook/OrderPlot.cpp:239-242 | At price 0 the source prints a price-only entry exactly like the shared-price entry with the same quantity, and not as the tag-driven printing does |
| OrderPlot.RenderEntryInjective | OrderBook/OrderPlot.cpp:239-242 | Two different entries never print the same cell, whatever the price |
| OrderPlot.WrapInt32 | OrderBook/OrderPlot.cpp:310 | 32-bit arithmetic: the result is in the `int` range and congruent to the exact value modulo 2^32 |
| OrderPlot.MidpointNumeratorAsWritten | OrderBook/OrderPlot.cpp:310 | The source's numerator, top bid plus spread plus top bid in 32-bit `int`: always in the `int` range and congruent to the exact sum modulo 2^32 |
| OrderPlot.MidpointNumerator | OrderBook/OrderPlot.cpp:310 | The numerator is top bid plus top ask; for a non-negative spread it lies between twice the bid and twice the ask |
| OrderPlot.MidpointOverflows | OrderBook/OrderPlot.cpp:310 | At top bid 1500000000 and spread 100 the 32-bit numerator is negative, while the exact one is 3000000100 |
| OrderPlot.MidpointAsWrittenInRange | OrderBook/OrderPlot.cpp:310 | While no partial sum leaves the `int` range, the 32-bit numerator equals the exact one |
| OrderPlot.RowFor | OrderBook/OrderPlot.cpp:305-330 | A spread's row shows the smallest top bid logged under it, that entry's snapshot, and the sum of that bid and the implied ask |
| OrderPlot.SelectBestSpreads | OrderBook/OrderPlot.cpp:289-310 | Rows for the spreads in ascending order: exactly `nParam` of them when `0 <= nParam` and there are that many, otherwise all of them |
| OrderPlot.SelectedSpreadsSmallest | OrderBook/OrderPlot.cpp:292-298 | The listed spreads strictly increase, and any spread below a listed one is listed before it: the best spreads are the smallest |
| OrderPlot.BestSpreadMidpoint | OrderBook/OrderPlot.cpp:310 | On an index built by feeding records, a row's midpoint numerator is its snapshot's first bid price plus its first ask price |

## Left out

- Parsing is not modelled. This covers splitting a line into fields
  (`OrderBook/OrderFeeds.cpp:183-190`, `235-240`) and scanning
  `Price: p Quantity: q` or `p,q` tokens with `regex` and `lexical_cast`.
  Records arrive as `(price, quantity)` pairs already scanned.
- A malformed token, or a missing field (`fields.at` throwing), ends
  `processFeeds` through the exception path. That path, and
  `TracedException` and its reporting, are not modelled.
- File I/O (`ifstream`, `getline`) and skipping the CSV header are not
  modelled. `ProcessFeeds` takes the sequence of records directly.
- The threads that run the two feeds, and the XML configuration, are not
  modelled.
- All HTML output is not modelled: the `stringstream` markup, `plotLevelCol`'s
  layout, `injectHtml`, and the ask and bid tables of `plotBookCol`. Only what
  those print is modelled: the lists, the counts, the chosen rows and the
  midpoint numerator.
- The midpoint is left as its integer numerator. Converting it to `double`
  and dividing by 2.0 is floating point.
- The `boost::shared_ptr` ownership of the book is not modelled. A `const`
  field holds the book instead.
- `OrderFeeds.OBStream.AddLevels`: the `vLevels` and `vps` in-out reference
  parameters are modelled as values passed in and returned. `ProcessLevel`
  stores the returned levels back into the book.
- `OrderFeeds.OrderBook.Commit` is a modelling device: it stores all of a
  record's field updates at once. The source performs those writes one at a
  time inside `processLevel`.
- `OrderFeeds.OBStream.constructor`: a negative `nMaxBookLevels` makes
  `resize` throw. The depth is a natural number here, so that case does not
  arise.
- `OrderFeeds.OBStream.ProcessLevel`: `nBookFeeds`, the totals and prices are
  unbounded integers. 32-bit overflow of these counters and prices is not
  modelled.
- `OrderPlot.RowFor`: the best-spread rows carry the corrected, exact
  midpoint numerator (`MidpointNumerator`). Once bid plus ask exceeds the
  `int` range this differs from what the source prints. The source's 32-bit
  sum is modelled only in `MidpointNumeratorAsWritten` (see Findings).
- `MAX_BOOK_LEVELS` (`OrderBook/OrderBook.hpp:18`) is not modelled. Nothing in
  the modelled code reads it, and the book depth is a constructor parameter.
- `OrderFeeds.OBStream.AddLevels`: its contract gives the new levels as a
  function of the old ones. That function's exact contents are proved
  separately in `BookAggregation.AccumulateExact`.

## Findings

| source | as written | input that shows it | evidently intended | confidence | as-written member | corrected member |
|---|---|---|---|---|---|---|
| OrderBook/OrderPlot.cpp:138-242 | A price-only difference is marked by negating its price. Printing treats a negative price as the mark | A price-only difference at price 0: `-1 * 0 == 0`, so it prints as a shared-price difference and the price is not bolded | Every price-only difference prints with its price in bold | not executed; the feed formats accept price 0 | OrderPlot.RenderAsWrittenPriceZero | OrderPlot.RenderEntryInjective |
| OrderBook/OrderPlot.cpp:310 | `bid + spread + bid` is summed in `int` before the conversion to `double` | Top bid 1500000000 and top ask 1500000100: the 32-bit sum is negative, so the printed midpoint is negative. Signed overflow is also undefined behaviour in C++ | The midpoint `(bid + ask) / 2` of any pair of `int` prices | not executed; needs prices above 2^30 | OrderPlot.MidpointOverflows | OrderPlot.MidpointNumerator |
