/**
 * What feeding records into an order book computes, stated as functions of
 * the record history: the per-depth price levels of each side, the per-depth
 * feed totals and the best-spread index (OrderBook/OrderFeeds.cpp,
 * OBStream::addLevels and OBStream::processLevel). The imperative model in
 * module OrderFeeds is proved to keep its fields equal to these functions.
 */
module BookAggregation {
  import opened OrderBookTypes

  datatype Side = Bid | Ask

  /** One feed record's tokens, in scan order, before the depth cap applies. */
  datatype Record = Record(bids: seq<PairInt>, asks: seq<PairInt>)

  function Tokens(r: Record, side: Side): seq<PairInt> {
    match side
    case Bid => r.bids
    case Ask => r.asks
  }

  function Max(a: int, b: int): int {
    if a < b then b else a
  }

  /**
   * The number of levels a token list reaches when the book keeps `cap`
   * levels: the scan stops at the cap or at the end of the tokens.
   */
  function Depth(tokens: seq<PairInt>, cap: nat): (n: nat)
    ensures n <= |tokens| && n <= cap
    ensures n == |tokens| || n == cap
  {
    if |tokens| < cap then |tokens| else cap
  }

  // ---------------------------------------------------------------------
  // Price levels
  // ---------------------------------------------------------------------

  /** Quantity `q` is recorded at price `p` in `level`. */
  predicate Has(level: PriceLevel, p: int, q: int) {
    p in level && q in level[p]
  }

  /** Quantity `q` is recorded at price `p` at depth `d` of `levels`. */
  predicate Holds(levels: Levels, d: int, p: int, q: int) {
    0 <= d < |levels| && Has(levels[d], p, q)
  }

  /** `mpq[p].insert(q)`: the set at `p` is created empty if absent. */
  function InsertQty(level: PriceLevel, p: int, q: int): (r: PriceLevel)
    ensures r.Keys == level.Keys + {p}
    ensures forall k, x :: Has(r, k, x) <==> Has(level, k, x) || (k == p && x == q)
  {
    level[p := (if p in level then level[p] else {}) + {q}]
  }

  /** Inserting a quantity already recorded at its price changes nothing. */
  lemma InsertQtyPresent(level: PriceLevel, p: int, q: int)
    requires Has(level, p, q)
    ensures InsertQty(level, p, q) == level
  {
    assert level[p] + {q} == level[p];
  }

  /**
   * One scan step at depth `i`: insert into the existing level, or append a
   * new level `{p: {q}}` when `i` is one past the end.
   */
  function InsertAt(levels: Levels, i: nat, p: int, q: int): (r: Levels)
    requires i <= |levels|
    ensures |r| == Max(|levels|, i + 1)
    ensures forall d, k, x :: Holds(r, d, k, x) <==> Holds(levels, d, k, x) || (d == i && k == p && x == q)
  {
    if i < |levels| then
      levels[i := InsertQty(levels[i], p, q)]
    else
      assert forall k, x :: Has(map[p := {q}], k, x) <==> k == p && x == q;
      levels + [map[p := {q}]]
  }

  /** The levels after scanning `tokens`, the token at position `i` going to depth `i`. */
  function Accumulate(levels: Levels, tokens: seq<PairInt>): (r: Levels)
    ensures |r| == Max(|levels|, |tokens|)
    decreases |tokens|
  {
    if tokens == [] then levels
    else
      var n := |tokens| - 1;
      InsertAt(Accumulate(levels, tokens[..n]), n, tokens[n].0, tokens[n].1)
  }

  /**
   * Scanning adds exactly the scanned tokens, each at its own depth, and
   * keeps everything that was there.
   */
  lemma {:induction false} AccumulateExact(levels: Levels, tokens: seq<PairInt>)
    ensures forall d, p, q :: Holds(Accumulate(levels, tokens), d, p, q) <==>
              Holds(levels, d, p, q) || (0 <= d < |tokens| && tokens[d] == (p, q))
    decreases |tokens|
  {
    if tokens != [] {
      var n := |tokens| - 1;
      AccumulateExact(levels, tokens[..n]);
      forall d | 0 <= d < n
        ensures tokens[..n][d] == tokens[d]
      {
      }
    }
  }

  /** Scanning tokens that are all already recorded at their depths changes nothing. */
  lemma {:induction false} AccumulatePresent(levels: Levels, tokens: seq<PairInt>)
    requires forall i :: 0 <= i < |tokens| ==> Holds(levels, i, tokens[i].0, tokens[i].1)
    ensures Accumulate(levels, tokens) == levels
    decreases |tokens|
  {
    if tokens != [] {
      var n := |tokens| - 1;
      assert forall i :: 0 <= i < n ==> tokens[..n][i] == tokens[i];
      AccumulatePresent(levels, tokens[..n]);
      assert Holds(levels, n, tokens[n].0, tokens[n].1);
      InsertQtyPresent(levels[n], tokens[n].0, tokens[n].1);
      assert levels[n := levels[n]] == levels;
    }
  }

  /** Feeding the same tokens twice leaves the levels as feeding them once. */
  lemma AccumulateIdempotent(levels: Levels, tokens: seq<PairInt>)
    ensures Accumulate(Accumulate(levels, tokens), tokens) == Accumulate(levels, tokens)
  {
    AccumulateExact(levels, tokens);
    AccumulatePresent(Accumulate(levels, tokens), tokens);
  }

  // ---------------------------------------------------------------------
  // A whole record history
  // ---------------------------------------------------------------------

  /** The levels of one side after feeding the records of `h` in order. */
  function SideLevels(h: seq<Record>, cap: nat, side: Side): Levels
    decreases |h|
  {
    if h == [] then []
    else
      var n := |h| - 1;
      var t := Tokens(h[n], side);
      Accumulate(SideLevels(h[..n], cap, side), t[..Depth(t, cap)])
  }

  /** A side never holds more levels than the book is configured to keep. */
  lemma {:induction false} SideLevelsBounded(h: seq<Record>, cap: nat, side: Side)
    ensures |SideLevels(h, cap, side)| <= cap
    decreases |h|
  {
    if h != [] {
      SideLevelsBounded(h[..|h| - 1], cap, side);
    }
  }

  /** Record `j` of `h` put `(p, q)` at depth `d` of the given side. */
  predicate Ingested(h: seq<Record>, cap: nat, side: Side, j: int, d: int, p: int, q: int) {
    0 <= j < |h| && 0 <= d < Depth(Tokens(h[j], side), cap) && Tokens(h[j], side)[d] == (p, q)
  }

  /**
   * A side's levels hold exactly the tokens some record put there: a token
   * at position `d` below the cap sits at depth `d`, and no token at a
   * position at or past the cap is ever recorded.
   */
  lemma {:induction false} SideLevelsExact(h: seq<Record>, cap: nat, side: Side)
    ensures forall d, p, q :: Holds(SideLevels(h, cap, side), d, p, q) <==>
              exists j :: Ingested(h, cap, side, j, d, p, q)
    decreases |h|
  {
    if h != [] {
      var n := |h| - 1;
      var t := Tokens(h[n], side);
      var prev := h[..n];
      SideLevelsExact(prev, cap, side);
      AccumulateExact(SideLevels(prev, cap, side), t[..Depth(t, cap)]);
      forall d, p, q
        ensures Holds(SideLevels(h, cap, side), d, p, q) <==> exists j :: Ingested(h, cap, side, j, d, p, q)
      {
        if Holds(SideLevels(h, cap, side), d, p, q) {
          if j :| Ingested(prev, cap, side, j, d, p, q) {
            assert prev[j] == h[j];
            assert Ingested(h, cap, side, j, d, p, q);
          } else {
            assert Ingested(h, cap, side, n, d, p, q);
          }
        }
        if j :| Ingested(h, cap, side, j, d, p, q) {
          if j < n {
            assert prev[j] == h[j];
            assert Ingested(prev, cap, side, j, d, p, q);
          }
        }
      }
    }
  }

  // ---------------------------------------------------------------------
  // Per-depth totals
  // ---------------------------------------------------------------------

  /** A record updates the totals and the spread index only if both sides reached a level. */
  predicate Counted(r: Record, cap: nat) {
    Depth(r.bids, cap) > 0 && Depth(r.asks, cap) > 0
  }

  /** One more feed at each depth below `n`. */
  function BumpPrefix(t: seq<int>, n: int): (r: seq<int>)
    ensures |r| == |t|
  {
    seq(|t|, k requires 0 <= k < |t| => if k < n then t[k] + 1 else t[k])
  }

  /** The per-depth totals of one side after feeding the records of `h` in order. */
  function Totals(h: seq<Record>, cap: nat, side: Side): (r: seq<int>)
    ensures |r| == cap
    decreases |h|
  {
    if h == [] then seq(cap, _ => 0)
    else
      var n := |h| - 1;
      var prev := Totals(h[..n], cap, side);
      if Counted(h[n], cap) then BumpPrefix(prev, Depth(Tokens(h[n], side), cap)) else prev
  }

  /** The records of `h` that were counted and reached depth `d` on the given side. */
  function RecordsReaching(h: seq<Record>, cap: nat, side: Side, d: int): set<int> {
    set j | 0 <= j < |h| && Counted(h[j], cap) && d < Depth(Tokens(h[j], side), cap)
  }

  lemma RecordsReachingSnoc(h: seq<Record>, cap: nat, side: Side, d: int)
    requires h != []
    ensures var n := |h| - 1;
            RecordsReaching(h, cap, side, d) ==
              RecordsReaching(h[..n], cap, side, d)
              + (if Counted(h[n], cap) && d < Depth(Tokens(h[n], side), cap) then {n} else {})
  {
    var n := |h| - 1;
    assert forall j :: 0 <= j < n ==> h[..n][j] == h[j];
  }

  /** The total at depth `d` is the number of counted records that reached depth `d`. */
  lemma {:induction false} TotalsCountRecords(h: seq<Record>, cap: nat, side: Side, d: int)
    requires 0 <= d < cap
    ensures Totals(h, cap, side)[d] == |RecordsReaching(h, cap, side, d)|
    decreases |h|
  {
    if h == [] {
      assert RecordsReaching(h, cap, side, d) == {};
    } else {
      var n := |h| - 1;
      TotalsCountRecords(h[..n], cap, side, d);
      RecordsReachingSnoc(h, cap, side, d);
      assert n !in RecordsReaching(h[..n], cap, side, d);
    }
  }

  /**
   * Totals are never negative, never exceed the number of records, and never
   * grow with depth: a record that reached depth `e` reached every depth below.
   */
  lemma {:induction false} TotalsShape(h: seq<Record>, cap: nat, side: Side)
    ensures forall d, e :: 0 <= d <= e < cap ==>
              0 <= Totals(h, cap, side)[e] <= Totals(h, cap, side)[d] <= |h|
    decreases |h|
  {
    if h != [] {
      TotalsShape(h[..|h| - 1], cap, side);
    }
  }

  // ---------------------------------------------------------------------
  // The best-spread index
  // ---------------------------------------------------------------------

  /** The record's tokens that reached the book, as `processLevel` collects them. */
  function Snapshot(r: Record, cap: nat): (snap: BidAskLevels)
    ensures |snap.bids| == Depth(r.bids, cap) && |snap.asks| == Depth(r.asks, cap)
    ensures snap.bids <= r.bids && snap.asks <= r.asks
  {
    BidAskLevels(r.bids[..Depth(r.bids, cap)], r.asks[..Depth(r.asks, cap)])
  }

  /** An entry is stored under spread `s` and top bid price `b`. */
  predicate Logged(idx: SpreadIndex, s: int, b: int) {
    s in idx && b in idx[s]
  }

  /** The spread of a snapshot: its first ask price minus its first bid price. */
  function SpreadOf(snap: BidAskLevels): int
    requires |snap.bids| > 0 && |snap.asks| > 0
  {
    snap.asks[0].0 - snap.bids[0].0
  }

  /** `mapBestSpread[askTop - bidTop][bidTop] = snap`. */
  function LogSpread(idx: SpreadIndex, snap: BidAskLevels): (r: SpreadIndex)
    requires |snap.bids| > 0 && |snap.asks| > 0
    ensures r.Keys == idx.Keys + {SpreadOf(snap)}
    ensures Logged(r, SpreadOf(snap), snap.bids[0].0)
    ensures r[SpreadOf(snap)][snap.bids[0].0] == snap
    ensures forall s, b :: Logged(r, s, b) <==> Logged(idx, s, b) || (s == SpreadOf(snap) && b == snap.bids[0].0)
    ensures forall s, b :: Logged(idx, s, b) && (s != SpreadOf(snap) || b != snap.bids[0].0) ==> Logged(r, s, b) && r[s][b] == idx[s][b]
  {
    var s := SpreadOf(snap);
    var inner := if s in idx then idx[s] else map[];
    idx[s := inner[snap.bids[0].0 := snap]]
  }

  /** Two records with the same spread and top bid: the later one's snapshot is kept. */
  lemma LastWriteWins(idx: SpreadIndex, first: BidAskLevels, second: BidAskLevels)
    requires |first.bids| > 0 && |first.asks| > 0
    requires |second.bids| > 0 && |second.asks| > 0
    requires SpreadOf(first) == SpreadOf(second) && first.bids[0].0 == second.bids[0].0
    ensures LogSpread(LogSpread(idx, first), second) == LogSpread(idx, second)
  {
    var s := SpreadOf(first);
    assert LogSpread(LogSpread(idx, first), second)[s] == LogSpread(idx, second)[s];
  }

  /** The best-spread index after feeding the records of `h` in order. */
  function SpreadIndexOf(h: seq<Record>, cap: nat): SpreadIndex
    decreases |h|
  {
    if h == [] then map[]
    else
      var n := |h| - 1;
      var prev := SpreadIndexOf(h[..n], cap);
      if Counted(h[n], cap) then LogSpread(prev, Snapshot(h[n], cap)) else prev
  }

  /** A snapshot stored under spread `s` and top bid `b` really has that spread and top bid. */
  predicate SnapshotFits(snap: BidAskLevels, s: int, b: int, cap: nat) {
    && 0 < |snap.bids| <= cap
    && 0 < |snap.asks| <= cap
    && snap.bids[0].0 == b
    && snap.asks[0].0 - b == s
  }

  /** Every spread in the index has at least one snapshot: what `plotBookCol` relies on. */
  ghost predicate Populated(idx: SpreadIndex) {
    forall s :: s in idx ==> idx[s].Keys != {}
  }

  /** Every spread has at least one top bid, and every snapshot fits its keys. */
  ghost predicate SpreadIndexConsistent(idx: SpreadIndex, cap: nat) {
    && Populated(idx)
    && (forall s, b :: Logged(idx, s, b) ==> SnapshotFits(idx[s][b], s, b, cap))
  }

  lemma {:induction false} SpreadIndexOfConsistent(h: seq<Record>, cap: nat)
    ensures SpreadIndexConsistent(SpreadIndexOf(h, cap), cap)
    decreases |h|
  {
    if h != [] {
      var n := |h| - 1;
      SpreadIndexOfConsistent(h[..n], cap);
      if Counted(h[n], cap) {
        var prev := SpreadIndexOf(h[..n], cap);
        var snap := Snapshot(h[n], cap);
        var r := LogSpread(prev, snap);
        forall s | s in r
          ensures r[s].Keys != {}
        {
          if s == SpreadOf(snap) {
            assert snap.bids[0].0 in r[s];
          } else {
            assert r[s] == prev[s];
          }
        }
      }
    }
  }

  /**
   * The entry under a record's spread and top bid is that record's snapshot,
   * as long as no later counted record has the same spread and top bid.
   */
  lemma {:induction false} SpreadIndexOfLastWrite(h: seq<Record>, cap: nat, j: int)
    requires 0 <= j < |h| && Counted(h[j], cap)
    requires forall k :: j < k < |h| && Counted(h[k], cap) ==>
               SpreadOf(Snapshot(h[k], cap)) != SpreadOf(Snapshot(h[j], cap))
               || h[k].bids[0].0 != h[j].bids[0].0
    ensures var snap := Snapshot(h[j], cap);
            Logged(SpreadIndexOf(h, cap), SpreadOf(snap), snap.bids[0].0)
            && SpreadIndexOf(h, cap)[SpreadOf(snap)][snap.bids[0].0] == snap
    decreases |h|
  {
    var n := |h| - 1;
    if j < n {
      var prev := h[..n];
      assert prev[j] == h[j];
      assert forall k :: j < k < |prev| ==> prev[k] == h[k];
      SpreadIndexOfLastWrite(prev, cap, j);
    }
  }

  // ---------------------------------------------------------------------
  // One record at a time
  // ---------------------------------------------------------------------

  /** The parts of an order book that feeding a record changes. */
  datatype BookState = BookState(
    bidLevels: Levels,
    askLevels: Levels,
    bidTotal: seq<int>,
    askTotal: seq<int>,
    bestSpread: SpreadIndex)

  /** The book after feeding the records of `h` in order to a fresh book. */
  function Replay(h: seq<Record>, cap: nat): (b: BookState)
    ensures |b.bidTotal| == cap && |b.askTotal| == cap
  {
    BookState(SideLevels(h, cap, Bid), SideLevels(h, cap, Ask),
              Totals(h, cap, Bid), Totals(h, cap, Ask), SpreadIndexOf(h, cap))
  }

  /**
   * The effect of one record: both sides scan their tokens up to the cap;
   * the totals and the spread index change only for a counted record.
   */
  function Feed(s: BookState, r: Record, cap: nat): (t: BookState)
    ensures |t.bidTotal| == |s.bidTotal| && |t.askTotal| == |s.askTotal|
    ensures !Counted(r, cap) ==>
              t.bidTotal == s.bidTotal && t.askTotal == s.askTotal && t.bestSpread == s.bestSpread
    ensures Counted(r, cap) ==>
              t.bestSpread.Keys == s.bestSpread.Keys + {SpreadOf(Snapshot(r, cap))}
              && Logged(t.bestSpread, SpreadOf(Snapshot(r, cap)), r.bids[0].0)
              && t.bestSpread[SpreadOf(Snapshot(r, cap))][r.bids[0].0] == Snapshot(r, cap)
  {
    var bidLevels := Accumulate(s.bidLevels, r.bids[..Depth(r.bids, cap)]);
    var askLevels := Accumulate(s.askLevels, r.asks[..Depth(r.asks, cap)]);
    if Counted(r, cap) then
      BookState(bidLevels, askLevels,
                BumpPrefix(s.bidTotal, Depth(r.bids, cap)),
                BumpPrefix(s.askTotal, Depth(r.asks, cap)),
                LogSpread(s.bestSpread, Snapshot(r, cap)))
    else
      BookState(bidLevels, askLevels, s.bidTotal, s.askTotal, s.bestSpread)
  }

  /** Replaying a history one record longer is feeding that record to the replayed book. */
  lemma FeedOne(h: seq<Record>, r: Record, cap: nat)
    ensures Replay(h + [r], cap) == Feed(Replay(h, cap), r, cap)
  {
    assert (h + [r])[..|h|] == h;
  }
}
