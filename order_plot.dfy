/**
 * The computations behind the order book report (OrderBook/OrderPlot.cpp):
 * flattening a level into `(price, quantity)` pairs, the per-depth
 * difference between two books' levels, and the choice of the best spreads
 * with their midpoints. The HTML those results are written into is not part
 * of this model.
 */
module OrderPlot {
  import opened Ordered
  import opened OrderBookTypes
  import opened BookAggregation

  // ---------------------------------------------------------------------
  // Flattening a level
  // ---------------------------------------------------------------------

  /** Price first, then quantity: the order in which a level is listed. */
  predicate PairLess(a: PairInt, b: PairInt) {
    a.0 < b.0 || (a.0 == b.0 && a.1 < b.1)
  }

  /** Strictly ascending by price, then quantity (so also free of duplicates). */
  predicate LexAscending(s: seq<PairInt>) {
    forall i, j :: 0 <= i < j < |s| ==> PairLess(s[i], s[j])
  }

  /** The pairs `(k, q)` for the quantities `qs` in order. */
  function Pairs(k: int, qs: seq<int>): (r: seq<PairInt>)
    ensures |r| == |qs|
    ensures forall j :: 0 <= j < |qs| ==> r[j] == (k, qs[j])
  {
    seq(|qs|, j requires 0 <= j < |qs| => (k, qs[j]))
  }

  lemma LexAscendingAppend(a: seq<PairInt>, b: seq<PairInt>)
    requires LexAscending(a) && LexAscending(b)
    requires forall x, y :: x in a && y in b ==> PairLess(x, y)
    ensures LexAscending(a + b)
  {
    var s := a + b;
    forall i, j | 0 <= i < j < |s|
      ensures PairLess(s[i], s[j])
    {
      if j < |a| {
        assert s[i] == a[i] && s[j] == a[j];
      } else if i >= |a| {
        assert s[i] == b[i - |a|] && s[j] == b[j - |a|];
      } else {
        assert s[i] == a[i] && s[j] == b[j - |a|];
        assert a[i] in a && b[j - |a|] in b;
      }
    }
  }

  /**
   * The entries of `m` at the prices `ks`, price by price, each price's
   * quantities in ascending order.
   */
  function FlattenKeys(m: PriceLevel, ks: seq<int>): seq<PairInt>
    requires forall i :: 0 <= i < |ks| ==> ks[i] in m
    decreases |ks|
  {
    if ks == [] then [] else Pairs(ks[0], Ascending(m[ks[0]])) + FlattenKeys(m, ks[1..])
  }

  /** The pairs listed for one price are exactly that price's quantities, ascending. */
  lemma PairsOfLevel(m: PriceLevel, k: int)
    requires k in m
    ensures forall e :: e in Pairs(k, Ascending(m[k])) <==> e.0 == k && e.1 in m[k]
    ensures LexAscending(Pairs(k, Ascending(m[k])))
  {
    var qs := Ascending(m[k]);
    var block := Pairs(k, qs);
    forall e: PairInt | e in block ensures e.0 == k && e.1 in m[k] {
      var j :| 0 <= j < |block| && block[j] == e;
      assert qs[j] in qs;
    }
    forall e: PairInt | e.0 == k && e.1 in m[k] ensures e in block {
      assert e.1 in qs;
      var j :| 0 <= j < |qs| && qs[j] == e.1;
      assert block[j] == e;
    }
  }

  /**
   * Flattening at ascending prices lists exactly the recorded pairs at those
   * prices, ascending by price and then by quantity.
   */
  lemma {:induction false} FlattenKeysSpec(m: PriceLevel, ks: seq<int>)
    requires forall i :: 0 <= i < |ks| ==> ks[i] in m
    requires StrictlyIncreasing(ks)
    ensures forall e :: e in FlattenKeys(m, ks) <==> e.0 in ks && Has(m, e.0, e.1)
    ensures LexAscending(FlattenKeys(m, ks))
    decreases |ks|
  {
    if ks != [] {
      var k := ks[0];
      var block := Pairs(k, Ascending(m[k]));
      var tail := ks[1..];
      assert StrictlyIncreasing(tail) by {
        forall i, j | 0 <= i < j < |tail| ensures tail[i] < tail[j] {
          assert tail[i] == ks[i + 1] && tail[j] == ks[j + 1];
        }
      }
      FlattenKeysSpec(m, tail);
      var rest := FlattenKeys(m, tail);
      assert FlattenKeys(m, ks) == block + rest;
      PairsOfLevel(m, k);
      forall x, y | x in block && y in rest ensures PairLess(x, y) {
        var j :| 0 <= j < |tail| && tail[j] == y.0;
        assert ks[0] < ks[j + 1];
      }
      LexAscendingAppend(block, rest);
      forall e: PairInt ensures e in block + rest <==> e.0 in ks && Has(m, e.0, e.1) {
        assert e.0 in ks <==> e.0 == k || e.0 in tail;
      }
    }
  }

  /** The entries of `m` at the prices in `s`, ascending. */
  function FlattenAt(m: PriceLevel, s: set<int>): seq<PairInt>
    requires s <= m.Keys
  {
    var ks := Ascending(s);
    assert forall i :: 0 <= i < |ks| ==> ks[i] in m by {
      forall i | 0 <= i < |ks| ensures ks[i] in m {
        assert ks[i] in ks;
      }
    }
    FlattenKeys(m, ks)
  }

  /** Flattening at a set of prices lists exactly the recorded pairs at those prices, in order. */
  lemma FlattenAtSpec(m: PriceLevel, s: set<int>)
    requires s <= m.Keys
    ensures forall e :: e in FlattenAt(m, s) <==> e.0 in s && Has(m, e.0, e.1)
    ensures LexAscending(FlattenAt(m, s))
  {
    var ks := Ascending(s);
    assert forall i :: 0 <= i < |ks| ==> ks[i] in m by {
      forall i | 0 <= i < |ks| ensures ks[i] in m {
        assert ks[i] in ks;
      }
    }
    FlattenKeysSpec(m, ks);
  }

  /**
   * One level as `plotLevels` lists it: its prices ascending, each with its
   * quantities ascending.
   */
  function Flatten(m: PriceLevel): seq<PairInt> {
    FlattenAt(m, m.Keys)
  }

  /** A flattened level lists every recorded `(price, quantity)` and nothing else, in order. */
  lemma FlattenSpec(m: PriceLevel)
    ensures forall e :: e in Flatten(m) <==> Has(m, e.0, e.1)
    ensures LexAscending(Flatten(m))
  {
    FlattenAtSpec(m, m.Keys);
  }

  /** The `(price, quantity)` pairs recorded in a level, as a set. */
  function PairSet(m: PriceLevel): set<PairInt> {
    set p, q | p in m && q in m[p] :: (p, q)
  }

  /** A strictly ascending list has as many elements as distinct values. */
  lemma {:induction false} AscendingDistinct(s: seq<PairInt>)
    requires LexAscending(s)
    ensures |set e | e in s| == |s|
    decreases |s|
  {
    if s != [] {
      var tail := s[1..];
      assert LexAscending(tail) by {
        forall i, j | 0 <= i < j < |tail| ensures PairLess(tail[i], tail[j]) {
          assert tail[i] == s[i + 1] && tail[j] == s[j + 1];
        }
      }
      AscendingDistinct(tail);
      assert s[0] !in tail by {
        forall j | 0 <= j < |tail| ensures tail[j] != s[0] {
          assert PairLess(s[0], s[j + 1]);
        }
      }
      assert (set e | e in s) == {s[0]} + (set e | e in tail) by {
        assert forall e :: e in s <==> e == s[0] || e in tail;
      }
    }
  }

  /** A level lists exactly one pair per recorded quantity at each price. */
  lemma FlattenCount(m: PriceLevel)
    ensures |Flatten(m)| == |PairSet(m)|
  {
    var r := Flatten(m);
    FlattenSpec(m);
    AscendingDistinct(r);
    assert (set e | e in r) == PairSet(m) by {
      forall e: PairInt | e in PairSet(m) ensures e in r {
        assert Has(m, e.0, e.1);
      }
    }
  }

  /** `plotLevels`: every level of a side, flattened, in depth order. */
  function PlotLevels(levels: Levels): (r: seq<seq<PairInt>>)
    ensures |r| == |levels|
  {
    seq(|levels|, i requires 0 <= i < |levels| => Flatten(levels[i]))
  }

  /** Depth `i` of the listing holds exactly the pairs of level `i`, ascending. */
  lemma PlotLevelsSpec(levels: Levels)
    ensures |PlotLevels(levels)| == |levels|
    ensures forall i :: 0 <= i < |levels| ==>
              LexAscending(PlotLevels(levels)[i])
              && forall e :: e in PlotLevels(levels)[i] <==> Has(levels[i], e.0, e.1)
  {
    forall i | 0 <= i < |levels|
      ensures LexAscending(PlotLevels(levels)[i])
      ensures forall e :: e in PlotLevels(levels)[i] <==> Has(levels[i], e.0, e.1)
    {
      FlattenSpec(levels[i]);
    }
  }

  // ---------------------------------------------------------------------
  // The per-depth difference between two books
  // ---------------------------------------------------------------------

  /**
   * One reported difference. The source tells the two kinds apart by
   * negating the price of a price-only entry; here they are tagged.
   */
  datatype DiffEntry =
    | PriceOnly(price: int, qty: int)     // the price is missing from the other book's level
    | SharedPrice(price: int, qty: int)   // both levels have the price, only this side has the quantity

  /** The entries of `s`, each given the same tag. */
  function Tag(s: seq<PairInt>, priceOnly: bool): (r: seq<DiffEntry>)
    ensures |r| == |s|
    ensures forall i :: 0 <= i < |s| ==>
              r[i] == if priceOnly then PriceOnly(s[i].0, s[i].1) else SharedPrice(s[i].0, s[i].1)
  {
    seq(|s|, i requires 0 <= i < |s| =>
      if priceOnly then PriceOnly(s[i].0, s[i].1) else SharedPrice(s[i].0, s[i].1))
  }

  /** At each price both levels have: the quantities of `m1` missing from `m2`. */
  function SharedQtyDiff(m1: PriceLevel, m2: PriceLevel): (r: PriceLevel)
    ensures r.Keys == m1.Keys * m2.Keys
  {
    map k | k in m1 && k in m2 :: m1[k] - m2[k]
  }

  /** What one side of the difference must report, and nothing else. */
  predicate Reported(m1: PriceLevel, m2: PriceLevel, e: DiffEntry) {
    match e
    case PriceOnly(p, q) => p in m1 && p !in m2 && q in m1[p]
    case SharedPrice(p, q) => p in m1 && p in m2 && q in m1[p] && q !in m2[p]
  }

  /** The entries of `s` carrying tag `priceOnly`, and nothing else. */
  lemma TagMembers(s: seq<PairInt>, priceOnly: bool)
    ensures forall e :: e in Tag(s, priceOnly) <==> e.PriceOnly? == priceOnly && (e.price, e.qty) in s
  {
    var r := Tag(s, priceOnly);
    forall e: DiffEntry ensures e in r <==> e.PriceOnly? == priceOnly && (e.price, e.qty) in s {
      if e in r {
        var i :| 0 <= i < |r| && r[i] == e;
        assert s[i] in s;
      }
      if e.PriceOnly? == priceOnly && (e.price, e.qty) in s {
        var i :| 0 <= i < |s| && s[i] == (e.price, e.qty);
        assert r[i] == e;
      }
    }
  }

  /** Price-only entries from `a`, then shared-price entries from `b`. */
  function Tagged(a: seq<PairInt>, b: seq<PairInt>): seq<DiffEntry> {
    Tag(a, true) + Tag(b, false)
  }

  /** The tagged lists hold exactly the entries of `a` as price-only and those of `b` as shared-price. */
  lemma TaggedMembers(a: seq<PairInt>, b: seq<PairInt>)
    ensures forall e :: e in Tagged(a, b) <==>
              if e.PriceOnly? then (e.price, e.qty) in a else (e.price, e.qty) in b
  {
    TagMembers(a, true);
    TagMembers(b, false);
  }

  /** Tagging two ascending lists keeps the price-only group first and each group ascending. */
  lemma TaggedOrder(a: seq<PairInt>, b: seq<PairInt>)
    requires LexAscending(a) && LexAscending(b)
    ensures var r := Tagged(a, b);
            forall i, j :: 0 <= i < j < |r| && r[j].PriceOnly? ==> r[i].PriceOnly?
    ensures var r := Tagged(a, b);
            forall i, j :: 0 <= i < j < |r| && r[i].PriceOnly? == r[j].PriceOnly? ==>
              PairLess((r[i].price, r[i].qty), (r[j].price, r[j].qty))
  {
    var ta, tb := Tag(a, true), Tag(b, false);
    var r := ta + tb;
    forall i, j | 0 <= i < j < |r| && r[j].PriceOnly?
      ensures r[i].PriceOnly?
    {
      assert j < |ta|;
    }
    forall i, j | 0 <= i < j < |r| && r[i].PriceOnly? == r[j].PriceOnly?
      ensures PairLess((r[i].price, r[i].qty), (r[j].price, r[j].qty))
    {
      if j < |ta| {
        assert (r[i].price, r[i].qty) == a[i] && (r[j].price, r[j].qty) == a[j];
      } else {
        assert i >= |ta|;
        assert (r[i].price, r[i].qty) == b[i - |ta|] && (r[j].price, r[j].qty) == b[j - |ta|];
      }
    }
  }

  /**
   * The differences of level `m1` against level `m2`: first every quantity
   * at a price `m2` lacks, then, at each shared price, the quantities `m2`
   * lacks; each group ascending by price and then quantity.
   */
  function OneSide(m1: PriceLevel, m2: PriceLevel): seq<DiffEntry> {
    Tagged(FlattenAt(m1, m1.Keys - m2.Keys), FlattenAt(SharedQtyDiff(m1, m2), m1.Keys * m2.Keys))
  }

  /** One side of the difference lists exactly the entries it must report. */
  lemma OneSideMembers(m1: PriceLevel, m2: PriceLevel)
    ensures forall e :: e in OneSide(m1, m2) <==> Reported(m1, m2, e)
  {
    var shared := SharedQtyDiff(m1, m2);
    var a := FlattenAt(m1, m1.Keys - m2.Keys);
    var b := FlattenAt(shared, m1.Keys * m2.Keys);
    FlattenAtSpec(m1, m1.Keys - m2.Keys);
    FlattenAtSpec(shared, m1.Keys * m2.Keys);
    TaggedMembers(a, b);
    forall e: DiffEntry
      ensures e in OneSide(m1, m2) <==> Reported(m1, m2, e)
    {
      var x := (e.price, e.qty);
      if e.PriceOnly? {
        assert x in a <==> e.price in m1.Keys - m2.Keys && Has(m1, e.price, e.qty);
      } else {
        assert x in b <==> e.price in m1.Keys * m2.Keys && Has(shared, e.price, e.qty);
      }
    }
  }

  /**
   * One side of the difference lists its price-only entries first, and each
   * group ascending by price and then quantity.
   */
  lemma OneSideOrder(m1: PriceLevel, m2: PriceLevel)
    ensures var r := OneSide(m1, m2);
            forall i, j :: 0 <= i < j < |r| && r[j].PriceOnly? ==> r[i].PriceOnly?
    ensures var r := OneSide(m1, m2);
            forall i, j :: 0 <= i < j < |r| && r[i].PriceOnly? == r[j].PriceOnly? ==>
              PairLess((r[i].price, r[i].qty), (r[j].price, r[j].qty))
  {
    FlattenAtSpec(m1, m1.Keys - m2.Keys);
    FlattenAtSpec(SharedQtyDiff(m1, m2), m1.Keys * m2.Keys);
    TaggedOrder(FlattenAt(m1, m1.Keys - m2.Keys), FlattenAt(SharedQtyDiff(m1, m2), m1.Keys * m2.Keys));
  }


  /** The two lists reported for one depth: the CSV book's side and the log book's side. */
  datatype LevelDiff = LevelDiff(csv: seq<DiffEntry>, log: seq<DiffEntry>)

  function DiffLevel(m1: PriceLevel, m2: PriceLevel): LevelDiff {
    LevelDiff(OneSide(m1, m2), OneSide(m2, m1))
  }

  /**
   * What `plotBookLevelsDiff` reports at one depth: the difference when
   * both books have the depth, and otherwise both books' whole flattened
   * sides.
   */
  datatype DepthReport =
    | Compared(diff: LevelDiff)
    | Unequal(csvLevels: seq<seq<PairInt>>, logLevels: seq<seq<PairInt>>)

  /** `plotBookLevelsDiff` over one side of the CSV book `a` and the log book `b`. */
  function DiffBooks(a: Levels, b: Levels): (r: seq<DepthReport>)
    ensures |r| == Max(|a|, |b|)
    ensures forall i :: 0 <= i < |r| ==> (r[i].Compared? <==> i < |a| && i < |b|)
  {
    seq(Max(|a|, |b|), i requires 0 <= i =>
      if i < |a| && i < |b| then Compared(DiffLevel(a[i], b[i]))
      else Unequal(PlotLevels(a), PlotLevels(b)))
  }

  /** Listed on a side of the difference, with either tag. */
  predicate Listed(s: seq<DiffEntry>, p: int, q: int) {
    PriceOnly(p, q) in s || SharedPrice(p, q) in s
  }

  /**
   * The two lists reconcile the levels: a pair is in `m1` exactly when it is
   * in `m2` and not listed on `m2`'s side, or listed on `m1`'s side. No pair
   * both levels hold is listed on either side.
   */
  lemma DiffReconciles(m1: PriceLevel, m2: PriceLevel)
    ensures var d := DiffLevel(m1, m2);
            forall p, q :: Has(m1, p, q) <==> (Has(m2, p, q) && !Listed(d.log, p, q)) || Listed(d.csv, p, q)
    ensures var d := DiffLevel(m1, m2);
            forall p, q :: Has(m1, p, q) && Has(m2, p, q) ==> !Listed(d.csv, p, q) && !Listed(d.log, p, q)
  {
    var d := DiffLevel(m1, m2);
    OneSideMembers(m1, m2);
    OneSideMembers(m2, m1);
    forall p, q
      ensures Has(m1, p, q) <==> (Has(m2, p, q) && !Listed(d.log, p, q)) || Listed(d.csv, p, q)
    {
      assert PriceOnly(p, q) in d.csv <==> Reported(m1, m2, PriceOnly(p, q));
      assert SharedPrice(p, q) in d.csv <==> Reported(m1, m2, SharedPrice(p, q));
      assert PriceOnly(p, q) in d.log <==> Reported(m2, m1, PriceOnly(p, q));
      assert SharedPrice(p, q) in d.log <==> Reported(m2, m1, SharedPrice(p, q));
    }
    forall p, q | Has(m1, p, q) && Has(m2, p, q)
      ensures !Listed(d.csv, p, q) && !Listed(d.log, p, q)
    {
      assert !Reported(m1, m2, PriceOnly(p, q)) && !Reported(m1, m2, SharedPrice(p, q));
      assert !Reported(m2, m1, PriceOnly(p, q)) && !Reported(m2, m1, SharedPrice(p, q));
    }
  }

  /**
   * Every depth of the report accounts for both books: where both have the
   * depth, its two lists reconcile the two levels; where one book lacks it,
   * the report lists every pair of every level of both books, in order.
   */
  lemma DiffBooksAccounts(a: Levels, b: Levels, i: nat)
    requires i < Max(|a|, |b|)
    ensures var r := DiffBooks(a, b)[i];
            i < |a| && i < |b| ==>
              forall p, q :: Has(a[i], p, q) <==>
                (Has(b[i], p, q) && !Listed(r.diff.log, p, q)) || Listed(r.diff.csv, p, q)
    ensures var r := DiffBooks(a, b)[i];
            !(i < |a| && i < |b|) ==>
              && |r.csvLevels| == |a| && |r.logLevels| == |b|
              && (forall k, e :: 0 <= k < |a| ==> (e in r.csvLevels[k] <==> Has(a[k], e.0, e.1)))
              && (forall k, e :: 0 <= k < |b| ==> (e in r.logLevels[k] <==> Has(b[k], e.0, e.1)))
  {
    if i < |a| && i < |b| {
      DiffReconciles(a[i], b[i]);
    } else {
      PlotLevelsSpec(a);
      PlotLevelsSpec(b);
    }
  }

  /** A list without entries is the empty list. */
  lemma NoEntryIsEmpty(s: seq<DiffEntry>)
    ensures (forall e :: e !in s) ==> s == []
  {
    if s != [] {
      assert s[0] in s;
    }
  }

  /** Two identical levels produce two empty lists. */
  lemma IdenticalLevelsNoDiff(m: PriceLevel)
    ensures DiffLevel(m, m) == LevelDiff([], [])
  {
    OneSideMembers(m, m);
    NoEntryIsEmpty(OneSide(m, m));
  }

  /** The report with the two books' roles exchanged. */
  function Swap(d: DepthReport): DepthReport {
    match d
    case Compared(diff) => Compared(LevelDiff(diff.log, diff.csv))
    case Unequal(x, y) => Unequal(y, x)
  }

  /** Exchanging the two books exchanges the two sides of every depth's report. */
  lemma DiffBooksSymmetric(a: Levels, b: Levels)
    ensures |DiffBooks(b, a)| == |DiffBooks(a, b)|
    ensures forall i :: 0 <= i < |DiffBooks(a, b)| ==> DiffBooks(b, a)[i] == Swap(DiffBooks(a, b)[i])
  {
  }

  // ---------------------------------------------------------------------
  // Telling the two kinds of entry apart when they are printed
  // ---------------------------------------------------------------------

  /** The source's encoding: a price-only entry is stored with its price negated. */
  function EncodeSentinel(e: DiffEntry): (x: PairInt)
    ensures x.1 == e.qty
    ensures x.0 == e.price || x.0 == -e.price
    ensures e.price > 0 ==> (x.0 < 0 <==> e.PriceOnly?)
  {
    match e
    case PriceOnly(p, q) => (-1 * p, q)
    case SharedPrice(p, q) => (p, q)
  }

  /** The source's decoding when printing: a negative price marks a price-only entry. */
  function DecodeSentinel(x: PairInt): (e: DiffEntry)
    ensures e.price >= 0 && e.qty == x.1
    ensures e.PriceOnly? <==> x.0 < 0
    ensures EncodeSentinel(e) == x
  {
    if x.0 < 0 then PriceOnly(-1 * x.0, x.1) else SharedPrice(x.0, x.1)
  }

  /** The encoding round-trips for every price-only entry with a positive price. */
  lemma SentinelRoundTrip(e: DiffEntry)
    requires e.PriceOnly? ==> e.price > 0
    requires e.SharedPrice? ==> e.price >= 0
    ensures DecodeSentinel(EncodeSentinel(e)) == e
  {
  }

  /** At price 0 the negation changes nothing: a price-only entry comes back as a shared-price one. */
  lemma SentinelLosesPriceZero(q: int)
    ensures EncodeSentinel(PriceOnly(0, q)) == EncodeSentinel(SharedPrice(0, q))
    ensures DecodeSentinel(EncodeSentinel(PriceOnly(0, q))) != PriceOnly(0, q)
  {
  }

  /** A printed cell: which of the two numbers is emphasised, and the two numbers. */
  datatype Cell = Cell(boldPrice: bool, price: int, qty: int)

  /**
   * The source's printing of an encoded pair: a negative price is printed
   * negated and emphasised; otherwise the quantity is emphasised.
   */
  function RenderAsWritten(x: PairInt): (c: Cell)
    ensures c.price >= 0
    ensures c.boldPrice <==> x.0 < 0
    ensures c.qty == x.1 && (c.price == x.0 || c.price == -x.0)
  {
    if x.0 < 0 then Cell(true, -1 * x.0, x.1) else Cell(false, x.0, x.1)
  }

  /** Printing driven by the tag: the price is emphasised exactly for a price-only entry. */
  function RenderEntry(e: DiffEntry): (c: Cell)
    ensures c.price == e.price && c.qty == e.qty
    ensures c.boldPrice <==> e.PriceOnly?
  {
    Cell(e.PriceOnly?, e.price, e.qty)
  }

  /**
   * For the prices the feeds produce, printing the encoded pair is printing
   * by the tag, as long as a price-only entry's price is positive.
   */
  lemma RenderAsWrittenAgrees(e: DiffEntry)
    requires e.PriceOnly? ==> e.price > 0
    requires e.SharedPrice? ==> e.price >= 0
    ensures RenderAsWritten(EncodeSentinel(e)) == RenderEntry(e)
  {
  }

  /**
   * At price 0 the source prints a price-only entry exactly as the
   * shared-price entry with the same quantity, with the quantity emphasised
   * instead of the price.
   */
  lemma RenderAsWrittenPriceZero(q: int)
    ensures RenderAsWritten(EncodeSentinel(PriceOnly(0, q))) == RenderAsWritten(EncodeSentinel(SharedPrice(0, q)))
    ensures RenderAsWritten(EncodeSentinel(PriceOnly(0, q))) != RenderEntry(PriceOnly(0, q))
  {
  }

  /** Tagged printing never confuses two entries, whatever the price. */
  lemma RenderEntryInjective(e1: DiffEntry, e2: DiffEntry)
    requires RenderEntry(e1) == RenderEntry(e2)
    ensures e1 == e2
  {
  }

  // ---------------------------------------------------------------------
  // Best spreads and their midpoints
  // ---------------------------------------------------------------------

  const INT32_MIN: int := -0x8000_0000
  const INT32_MAX: int := 0x7fff_ffff

  /** Two's-complement wrap-around of a 32-bit `int`. */
  function WrapInt32(x: int): (r: int)
    ensures INT32_MIN <= r <= INT32_MAX
    ensures (r - x) % 0x1_0000_0000 == 0
  {
    (x - INT32_MIN) % 0x1_0000_0000 + INT32_MIN
  }

  /**
   * The midpoint numerator as the source computes it: top bid plus spread
   * plus top bid, in 32-bit `int` arithmetic, left to right.
   */
  function MidpointNumeratorAsWritten(bid: int, spread: int): (r: int)
    ensures INT32_MIN <= r <= INT32_MAX
    ensures (r - (bid + spread + bid)) % 0x1_0000_0000 == 0
  {
    WrapInt32(WrapInt32(bid + spread) + bid)
  }

  /** The midpoint numerator in exact arithmetic: twice the midpoint between top bid and top ask. */
  function MidpointNumerator(bid: int, spread: int): (r: int)
    ensures r == bid + (bid + spread)
    ensures spread >= 0 ==> 2 * bid <= r <= 2 * (bid + spread)
  {
    bid + spread + bid
  }

  /** A top bid of 1500000000 under a spread of 100: the 32-bit sum wraps to a negative midpoint. */
  lemma MidpointOverflows()
    ensures MidpointNumeratorAsWritten(1_500_000_000, 100) < 0
    ensures MidpointNumerator(1_500_000_000, 100) == 3_000_000_100
  {
  }

  /** While no intermediate sum leaves the `int` range, the source's value is the exact one. */
  lemma MidpointAsWrittenInRange(bid: int, spread: int)
    requires INT32_MIN <= bid <= INT32_MAX
    requires INT32_MIN <= bid + spread <= INT32_MAX
    requires INT32_MIN <= bid + spread + bid <= INT32_MAX
    ensures MidpointNumeratorAsWritten(bid, spread) == MidpointNumerator(bid, spread)
  {
  }

  /** One entry of the best-spread table. */
  datatype SpreadRow = SpreadRow(spread: int, bidTop: int, midNumerator: int, snapshot: BidAskLevels)

  /**
   * The row printed for `spread`: the smallest top bid logged under it, that
   * entry's snapshot, and the numerator of its midpoint.
   */
  function RowFor(idx: SpreadIndex, spread: int): (row: SpreadRow)
    requires spread in idx && idx[spread].Keys != {}
    ensures row.spread == spread && row.bidTop in idx[spread]
    ensures forall b :: b in idx[spread] ==> row.bidTop <= b
    ensures row.snapshot == idx[spread][row.bidTop]
    ensures row.midNumerator == row.bidTop + (row.bidTop + spread)
  {
    var bidTop := Least(idx[spread].Keys);
    SpreadRow(spread, bidTop, MidpointNumerator(bidTop, spread), idx[spread][bidTop])
  }

  /**
   * The best-spread rows `plotBookCol` prints: the rows of the spreads in
   * ascending order, at most `nParam` of them, all of them when `nParam` is
   * negative. The counter is compared before it is incremented, so `nParam`
   * rows are printed and not one more.
   */
  method SelectBestSpreads(idx: SpreadIndex, nParam: int) returns (rows: seq<SpreadRow>)
    requires Populated(idx)
    ensures |rows| == if 0 <= nParam < |idx| then nParam else |idx|
    ensures forall j :: 0 <= j < |rows| ==>
              Ascending(idx.Keys)[j] in idx && rows[j] == RowFor(idx, Ascending(idx.Keys)[j])
  {
    var spreads := Ascending(idx.Keys);
    rows := [];
    var nPlotSpreads := 0;
    var i := 0;
    while i < |spreads|
      invariant 0 <= i <= |spreads| && nPlotSpreads == i && |rows| == i
      invariant 0 <= nParam ==> i <= nParam
      invariant forall j :: 0 <= j < i ==> spreads[j] in idx && rows[j] == RowFor(idx, spreads[j])
    {
      var stop := nPlotSpreads == nParam;
      nPlotSpreads := nPlotSpreads + 1;
      if stop {
        break;
      }
      var spread := spreads[i];
      assert spread in spreads;
      rows := rows + [RowFor(idx, spread)];
      i := i + 1;
    }
  }

  /** The listed spreads are the smallest ones: a spread below a listed one is listed before it. */
  lemma {:induction false} SelectedSpreadsSmallest(idx: SpreadIndex, rows: seq<SpreadRow>)
    requires |rows| <= |idx|
    requires forall j :: 0 <= j < |rows| ==> rows[j].spread == Ascending(idx.Keys)[j]
    ensures forall j, k :: 0 <= j < k < |rows| ==> rows[j].spread < rows[k].spread
    ensures forall s, j :: s in idx && 0 <= j < |rows| && s < rows[j].spread ==>
              exists k :: 0 <= k < j && rows[k].spread == s
  {
    var spreads := Ascending(idx.Keys);
    forall s, j | s in idx && 0 <= j < |rows| && s < rows[j].spread
      ensures exists k :: 0 <= k < j && rows[k].spread == s
    {
      assert s in spreads;
      var k :| 0 <= k < |spreads| && spreads[k] == s;
      assert k < j;
      assert rows[k].spread == s;
    }
  }

  /**
   * On an index built by feeding records, every selected row's midpoint
   * numerator is its snapshot's top bid price plus its top ask price.
   */
  lemma BestSpreadMidpoint(idx: SpreadIndex, cap: nat, spread: int)
    requires SpreadIndexConsistent(idx, cap)
    requires spread in idx && idx[spread].Keys != {}
    ensures var row := RowFor(idx, spread);
            |row.snapshot.bids| > 0 && |row.snapshot.asks| > 0
            && row.midNumerator == row.snapshot.bids[0].0 + row.snapshot.asks[0].0
  {
    var row := RowFor(idx, spread);
    assert Logged(idx, spread, row.bidTop);
  }
}
