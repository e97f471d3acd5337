/**
 * The book aggregator: an `OBStream` owns one `OrderBook` and feeds it one
 * record at a time (OrderBook/OrderFeeds.cpp). The record's bid and ask
 * tokens arrive already scanned as `(price, quantity)` pairs.
 */
module OrderFeeds {
  import opened OrderBookTypes
  import opened BookAggregation

  /**
   * The aggregate of one source feed (struct OrderBook). The ghost field
   * `history` is the list of records fed so far; `Valid` ties every other
   * field to the functions of that history in module BookAggregation.
   */
  class OrderBook {
    var sourceFeed: string
    var bookFeeds: int
    const bookLevels: nat
    var bidTotal: seq<int>
    var askTotal: seq<int>
    var bestSpread: SpreadIndex
    var bidLevels: Levels
    var askLevels: Levels

    ghost var history: seq<Record>

    /** The fields that feeding a record changes. */
    function State(): BookState
      reads this
    {
      BookState(bidLevels, askLevels, bidTotal, askTotal, bestSpread)
    }

    ghost predicate Valid()
      reads this
    {
      && bookFeeds == |history|
      && State() == Replay(history, bookLevels)
    }

    /** A fresh book: no levels, no spreads, no feeds, zero totals of the configured size. */
    constructor (szFile: string, maxBookLevels: nat)
      ensures Valid() && history == []
      ensures sourceFeed == szFile && bookLevels == maxBookLevels && bookFeeds == 0
      ensures bidLevels == [] && askLevels == [] && bestSpread == map[]
      ensures |bidTotal| == maxBookLevels && |askTotal| == maxBookLevels
      ensures forall d :: 0 <= d < maxBookLevels ==> bidTotal[d] == 0 && askTotal[d] == 0
    {
      sourceFeed := szFile;
      bookFeeds := 0;
      bookLevels := maxBookLevels;
      bidTotal := seq(maxBookLevels, _ => 0);
      askTotal := seq(maxBookLevels, _ => 0);
      bestSpread := map[];
      bidLevels := [];
      askLevels := [];
      history := [];
    }

    /** Stores the state after feeding `r` and counts the feed. */
    method Commit(next: BookState, ghost r: Record)
      requires Valid() && next == Feed(State(), r, bookLevels)
      modifies this
      ensures Valid() && State() == next
      ensures history == old(history) + [r]
      ensures bookFeeds == old(bookFeeds) + 1 && sourceFeed == old(sourceFeed)
    {
      FeedOne(history, r, bookLevels);
      ghost var h' := history + [r];
      assert Replay(h', bookLevels) == next;
      bidLevels, askLevels, bidTotal, askTotal, bestSpread :=
        next.bidLevels, next.askLevels, next.bidTotal, next.askTotal, next.bestSpread;
      bookFeeds := bookFeeds + 1;
      history := h';
    }
  }

  /** A source feed reader that builds its order book record by record. */
  class OBStream {
    const book: OrderBook

    ghost predicate Valid()
      reads book
    {
      book.Valid()
    }

    constructor (szFile: string, maxBookLevels: nat)
      ensures fresh(book) && Valid()
      ensures book.history == [] && book.sourceFeed == szFile && book.bookFeeds == 0
      ensures book.bookLevels == maxBookLevels
      ensures book.bidLevels == [] && book.askLevels == [] && book.bestSpread == map[]
      ensures |book.bidTotal| == maxBookLevels && |book.askTotal| == maxBookLevels
      ensures forall d :: 0 <= d < maxBookLevels ==> book.bidTotal[d] == 0 && book.askTotal[d] == 0
    {
      book := new OrderBook(szFile, maxBookLevels);
    }

    /**
     * Scans one side of a record: the token at position `i` is inserted at
     * depth `i`, a new level being appended when `i` is past the end, until
     * the tokens run out or the configured depth is reached. Each processed
     * token is also appended to `vps`. Returns the new levels, the extended
     * token list and the number of levels processed.
     */
    method AddLevels(levels: Levels, tokens: seq<PairInt>, vps: seq<PairInt>)
      returns (levels': Levels, vps': seq<PairInt>, n: nat)
      ensures n == Depth(tokens, book.bookLevels)
      ensures levels' == Accumulate(levels, tokens[..n])
      ensures |levels'| == Max(|levels|, n)
      ensures vps' == vps + tokens[..n]
    {
      var iLevel := 0;
      levels', vps' := levels, vps;
      while iLevel < |tokens|
        invariant iLevel <= |tokens| && iLevel <= book.bookLevels
        invariant levels' == Accumulate(levels, tokens[..iLevel])
        invariant vps' == vps + tokens[..iLevel]
      {
        if iLevel == book.bookLevels {
          break;
        }
        var (price, qty) := tokens[iLevel];
        assert tokens[..iLevel + 1][..iLevel] == tokens[..iLevel];
        if iLevel < |levels'| {
          var mpq := levels'[iLevel];
          var qtyset := if price in mpq then mpq[price] else {};
          levels' := levels'[iLevel := mpq[price := qtyset + {qty}]];
        } else {
          levels' := levels' + [map[price := {qty}]];
        }
        vps' := vps' + [(price, qty)];
        iLevel := iLevel + 1;
      }
      n := iLevel;
    }

    /**
     * Feeds one record. The feed count always goes up by one; the per-depth
     * totals and the spread index change only when both sides reached at
     * least one level, in which case the record's scanned tokens are logged
     * under its spread and top bid price.
     */
    method ProcessLevel(bidTokens: seq<PairInt>, askTokens: seq<PairInt>)
      requires Valid()
      modifies book
      ensures Valid()
      ensures book.history == old(book.history) + [Record(bidTokens, askTokens)]
      ensures book.State() == Feed(old(book.State()), Record(bidTokens, askTokens), book.bookLevels)
      ensures book.bookFeeds == old(book.bookFeeds) + 1
      ensures book.sourceFeed == old(book.sourceFeed)
    {
      ghost var h, cap := book.history, book.bookLevels;
      ghost var r := Record(bidTokens, askTokens);

      var bidLevels, vBidQty, nBidLevels := AddLevels(book.bidLevels, bidTokens, []);
      var askLevels, vAskQty, nAskLevels := AddLevels(book.askLevels, askTokens, []);
      assert vBidQty == bidTokens[..nBidLevels] && vAskQty == askTokens[..nAskLevels];
      var bal := BidAskLevels(vBidQty, vAskQty);
      assert bal == Snapshot(r, cap);

      // Both sides must have reached a level for the totals and the spread
      // index to change; otherwise `processLevel` returns early.
      var bidTotal, askTotal, bestSpread := book.bidTotal, book.askTotal, book.bestSpread;
      if nBidLevels != 0 && nAskLevels != 0 {
        bidTotal := IncrementTotals(bidTotal, nBidLevels);
        askTotal := IncrementTotals(askTotal, nAskLevels);
        bestSpread := LogBestSpread(bestSpread, bal);
      }
      book.Commit(BookState(bidLevels, askLevels, bidTotal, askTotal, bestSpread), r);
    }

    /**
     * Files a record's snapshot under its spread (top ask price minus top
     * bid price) and its top bid price, replacing any earlier snapshot there.
     */
    static method LogBestSpread(idx: SpreadIndex, bal: BidAskLevels) returns (idx': SpreadIndex)
      requires |bal.bids| > 0 && |bal.asks| > 0
      ensures idx' == LogSpread(idx, bal)
    {
      var pbs := bal.bids[0];
      var pas := bal.asks[0];
      var spread := pas.0 - pbs.0;
      var inner := if spread in idx then idx[spread] else map[];
      idx' := idx[spread := inner[pbs.0 := bal]];
    }

    /**
     * The two counting loops of `processLevel`: one more feed at each depth
     * below `nLevels`, walking no further than the end of the totals.
     */
    static method IncrementTotals(total: seq<int>, nLevels: nat) returns (r: seq<int>)
      ensures r == BumpPrefix(total, nLevels)
    {
      r := total;
      var d := 0;
      while d < |r| && d < nLevels
        invariant 0 <= d <= |r| == |total| && d <= nLevels
        invariant forall k :: 0 <= k < |r| ==> r[k] == if k < d then total[k] + 1 else total[k]
      {
        r := r[d := r[d] + 1];
        d := d + 1;
      }
      assert forall k :: 0 <= k < |r| ==> r[k] == BumpPrefix(total, nLevels)[k];
    }

    /** Feeds the records of one file in order, one `ProcessLevel` per record. */
    method ProcessFeeds(records: seq<Record>)
      requires Valid()
      modifies book
      ensures Valid()
      ensures book.history == old(book.history) + records
      ensures book.bookFeeds == old(book.bookFeeds) + |records|
      ensures book.sourceFeed == old(book.sourceFeed)
    {
      for i := 0 to |records|
        invariant Valid()
        invariant book.history == old(book.history) + records[..i]
        invariant book.sourceFeed == old(book.sourceFeed)
      {
        assert records[..i + 1] == records[..i] + [records[i]];
        ProcessLevel(records[i].bids, records[i].asks);
      }
      assert records[..|records|] == records;
    }
  }
}
