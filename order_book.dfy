/**
 * The data model of one source feed's order book: price/quantity tokens,
 * per-depth price levels, the best-spread index and the record snapshot it
 * stores (OrderBook/OrderBook.hpp).
 */
module OrderBookTypes {

  /** A `(price, quantity)` token, as scanned from one feed record. */
  type PairInt = (int, int)

  /**
   * The tokens of one record that reached the book, bid side and ask side,
   * in scan order; unlike the level sets these lists keep duplicates.
   */
  datatype BidAskLevels = BidAskLevels(bids: seq<PairInt>, asks: seq<PairInt>)

  /** The quantities seen at one price: a set, so duplicates collapse. */
  type QtySet = set<int>

  /** One depth level: each price has exactly one quantity set. */
  type PriceLevel = map<int, QtySet>

  /** The levels of one side, indexed by depth (0 is the top of the book). */
  type Levels = seq<PriceLevel>

  /** Top bid price to the snapshot of the record that last had it. */
  type BidSnapshots = map<int, BidAskLevels>

  /** Spread (top ask minus top bid) to the snapshots logged under it. */
  type SpreadIndex = map<int, BidSnapshots>
}
