/** The values the trade details modal derives from a position before
    rendering it: the root trade it edits, the open trade, the history of
    partial exits and increments, the closed trades with their average exit
    price and last exit date, and the two display predicates. */
module TradeDetails {
  import opened Trades
  import opened StableSort

  // ---------------------------------------------------------------------
  // Root trade: `tradesInPosition.sort(by entry date)[0]`

  /** The trade the modal edits: the first record with the earliest entry
      date, absent only for an empty position. */
  function RootTrade(trades: seq<Trade>): (r: Option<Trade>)
    ensures r.None? <==> |trades| == 0
    ensures r.Some? ==> r.value == trades[FirstMinIndex(trades, ByEntryDate)]
  {
    if |trades| == 0 then None
    else
      SortByHead(trades, ByEntryDate);
      Some(SortBy(trades, ByEntryDate)[0])
  }

  /** Sorts the position's own array by entry date, in place and stably,
      and returns its first element. */
  method SelectRootTrade(tradesInPosition: array<Trade>) returns (root: Option<Trade>)
    modifies tradesInPosition
    ensures tradesInPosition[..] == SortBy(old(tradesInPosition[..]), ByEntryDate)
    ensures multiset(tradesInPosition[..]) == multiset(old(tradesInPosition[..]))
    ensures SortedBy(tradesInPosition[..], ByEntryDate)
    ensures root == RootTrade(old(tradesInPosition[..]))
  {
    ghost var before := tradesInPosition[..];
    SortInPlace(tradesInPosition, ByEntryDate);
    SortByPermutes(before, ByEntryDate);
    SortByIsSorted(before, ByEntryDate);
    if tradesInPosition.Length > 0 {
      root := Some(tradesInPosition[0]);
    } else {
      root := None;
    }
  }

  // ---------------------------------------------------------------------
  // Open trade: `tradesInPosition.find(...)`

  /** The first record, in the array's current order, that has no exit
      date and no increment marker. */
  function OpenTrade(trades: seq<Trade>): (r: Option<Trade>)
    ensures r.Some? ==> r.value in trades && IsOpenCandidate(r.value)
    ensures r.None? <==> forall t :: t in trades ==> !IsOpenCandidate(t)
  {
    match FindIndex(trades, IsOpenCandidate)
    case Some(i) => Some(trades[i])
    case None => None
  }

  /** `find` agrees with the head of `filter`: the open trade is the first
      open candidate, and there is none exactly when no record qualifies. */
  lemma OpenTradeIsFirstCandidate(trades: seq<Trade>)
    ensures OpenTrade(trades)
         == if |Filter(trades, IsOpenCandidate)| == 0 then None
            else Some(Filter(trades, IsOpenCandidate)[0])
  {
    FindIsHeadOfFilter(trades, IsOpenCandidate);
  }

  // ---------------------------------------------------------------------
  // History events: partial exits and increments, by event date

  function HistoryEvents(trades: seq<Trade>): seq<Trade> {
    SortBy(Filter(trades, IsHistoryEvent), ByEventDate)
  }

  /** The history holds exactly the records that are not open candidates,
      each as often as in the position, in non-decreasing event-date order,
      and records with equal event dates keep their order in the position. */
  lemma HistoryEventsSpec(trades: seq<Trade>)
    ensures forall t :: t in HistoryEvents(trades) <==> t in trades && !IsOpenCandidate(t)
    ensures multiset(HistoryEvents(trades)) == multiset(Filter(trades, IsHistoryEvent))
    ensures SortedBy(HistoryEvents(trades), ByEventDate)
    ensures forall k :: WithKey(HistoryEvents(trades), ByEventDate, k)
                     == WithKey(Filter(trades, IsHistoryEvent), ByEventDate, k)
  {
    var events := Filter(trades, IsHistoryEvent);
    SortByPermutes(events, ByEventDate);
    SortByIsSorted(events, ByEventDate);
    forall k
      ensures WithKey(HistoryEvents(trades), ByEventDate, k) == WithKey(events, ByEventDate, k)
    {
      SortByIsStable(events, ByEventDate, k);
    }
    forall t
      ensures t in HistoryEvents(trades) <==> t in trades && !IsOpenCandidate(t)
    {
      assert t in HistoryEvents(trades) <==> t in multiset(HistoryEvents(trades));
      assert t in events <==> t in multiset(events);
    }
  }

  /** Every record of the position is either a history event or an open
      candidate, never both, and none is lost or repeated. */
  lemma HistoryAndOpenCandidatesPartition(trades: seq<Trade>)
    ensures forall t :: IsHistoryEvent(t) <==> !IsOpenCandidate(t)
    ensures multiset(HistoryEvents(trades)) + multiset(Filter(trades, IsOpenCandidate))
         == multiset(trades)
  {
    SortByPermutes(Filter(trades, IsHistoryEvent), ByEventDate);
    FilterSplits(trades, IsHistoryEvent, IsOpenCandidate);
  }

  // ---------------------------------------------------------------------
  // Closed trades and their figures

  function ClosedTrades(trades: seq<Trade>): (r: seq<Trade>)
    ensures forall t :: t in r <==> t in trades && t.exitPrice.Some? && t.exitPrice.value > 0.0
  {
    Filter(trades, IsClosed)
  }

  /** `t.exit_price!`; a closed trade always has one. */
  function ExitPrice(t: Trade): real {
    match t.exitPrice
    case Some(p) => p
    case None => 0.0
  }

  /** What each `reduce` over the closed trades adds up. */
  datatype Measure = ExitValue | Quantity

  /** `t.exit_price! * t.quantity` for the first `reduce`, `t.quantity` for
      the second. */
  function Amount(m: Measure, t: Trade): real {
    match m
    case ExitValue => ExitPrice(t) * t.quantity
    case Quantity => t.quantity
  }

  /** The `reduce` with accumulator starting at 0. */
  function Total(closed: seq<Trade>, m: Measure): real {
    if |closed| == 0 then 0.0
    else Total(closed[..|closed| - 1], m) + Amount(m, closed[|closed| - 1])
  }

  lemma {:induction false} TotalAppend(a: seq<Trade>, b: seq<Trade>, m: Measure)
    ensures Total(a + b, m) == Total(a, m) + Total(b, m)
    decreases |b|
  {
    if |b| == 0 {
      assert a + b == a;
    } else {
      var b' := b[..|b| - 1];
      assert (a + b)[..|a + b| - 1] == a + b';
      assert (a + b)[|a + b| - 1] == b[|b| - 1];
      TotalAppend(a, b', m);
    }
  }

  /** Taking out the record at `i` takes its amount out of the sum. */
  lemma TotalRemove(c: seq<Trade>, i: nat, m: Measure)
    requires i < |c|
    ensures Total(c, m) == Total(c[..i] + c[i + 1..], m) + Amount(m, c[i])
  {
    assert c == (c[..i] + [c[i]]) + c[i + 1..];
    TotalAppend(c[..i] + [c[i]], c[i + 1..], m);
    TotalAppend(c[..i], c[i + 1..], m);
    assert (c[..i] + [c[i]])[..i] == c[..i];
  }

  lemma RemoveAt(c: seq<Trade>, i: nat)
    requires i < |c|
    ensures multiset(c[..i] + c[i + 1..]) == multiset(c) - multiset{c[i]}
  {
    assert c == c[..i] + [c[i]] + c[i + 1..];
  }

  /** A sum over the closed trades does not depend on their order. */
  lemma {:induction false} TotalIgnoresOrder(c1: seq<Trade>, c2: seq<Trade>, m: Measure)
    requires multiset(c1) == multiset(c2)
    ensures Total(c1, m) == Total(c2, m)
    decreases |c1|
  {
    if |c1| == 0 {
      assert |multiset(c2)| == 0;
    } else {
      var n := |c1| - 1;
      RemoveAt(c1, n);
      assert c1[..n] + c1[n + 1..] == c1[..n];
      assert c1[n] in multiset(c2);
      var i :| 0 <= i < |c2| && c2[i] == c1[n];
      RemoveAt(c2, i);
      TotalIgnoresOrder(c1[..n], c2[..i] + c2[i + 1..], m);
      TotalRemove(c2, i, m);
    }
  }

  /** The quantity-weighted mean exit price of the closed trades; 0 when
      there is no closed trade or their total quantity is not positive. */
  function AverageExitPrice(trades: seq<Trade>): (r: real)
    ensures Total(ClosedTrades(trades), Quantity) > 0.0 ==>
              r * Total(ClosedTrades(trades), Quantity) == Total(ClosedTrades(trades), ExitValue)
    ensures Total(ClosedTrades(trades), Quantity) <= 0.0 ==> r == 0.0
  {
    var closed := ClosedTrades(trades);
    if |closed| > 0 && Total(closed, Quantity) > 0.0 then
      Total(closed, ExitValue) / Total(closed, Quantity)
    else 0.0
  }

  lemma ScaleKeepsOrder(x: real, y: real, q: real)
    requires x <= y && q >= 0.0
    ensures x * q <= y * q
  {
    assert y * q - x * q == (y - x) * q;
  }

  /** Adding one more lot at a price within the bounds keeps the running
      value within the bounds times the running quantity. */
  lemma WeightedStep(lo: real, hi: real, p: real, q: real, qs: real, vs: real)
    requires lo * qs <= vs <= hi * qs
    requires lo <= p <= hi && q >= 0.0
    ensures lo * (qs + q) <= vs + p * q <= hi * (qs + q)
  {
    ScaleKeepsOrder(lo, p, q);
    ScaleKeepsOrder(p, hi, q);
    assert lo * (qs + q) == lo * qs + lo * q;
    assert hi * (qs + q) == hi * qs + hi * q;
  }

  /** A mean `ev / q` with positive `q` lies between `lo` and `hi` when the
      total `ev` lies between `lo * q` and `hi * q`. */
  lemma MeanWithinBounds(avg: real, q: real, ev: real, lo: real, hi: real)
    requires q > 0.0 && avg * q == ev && lo * q <= ev <= hi * q
    ensures lo <= avg <= hi
  {
    assert (avg - lo) * q == ev - lo * q;
    assert (hi - avg) * q == hi * q - ev;
  }

  lemma {:induction false} WeightedSumBounds(closed: seq<Trade>, lo: real, hi: real)
    requires forall i :: 0 <= i < |closed| ==> closed[i].quantity > 0.0 && lo <= ExitPrice(closed[i]) <= hi
    ensures lo * Total(closed, Quantity) <= Total(closed, ExitValue)
    ensures Total(closed, ExitValue) <= hi * Total(closed, Quantity)
  {
    if |closed| > 0 {
      var t := closed[|closed| - 1];
      var rest := closed[..|closed| - 1];
      WeightedSumBounds(rest, lo, hi);
      WeightedStep(lo, hi, ExitPrice(t), t.quantity, Total(rest, Quantity), Total(rest, ExitValue));
    }
  }

  lemma {:induction false} TotalQuantityPositive(closed: seq<Trade>)
    requires |closed| > 0
    requires forall i :: 0 <= i < |closed| ==> closed[i].quantity > 0.0
    ensures Total(closed, Quantity) > 0.0
  {
    if |closed| > 1 {
      TotalQuantityPositive(closed[..|closed| - 1]);
    }
  }

  /** With positive quantities, the average exit price lies between any
      lower and upper bound of the closed trades' exit prices, so between
      the smallest and the largest of them. */
  lemma AverageExitPriceWithinRange(trades: seq<Trade>, lo: real, hi: real)
    requires |ClosedTrades(trades)| > 0
    requires forall t :: t in ClosedTrades(trades) ==> t.quantity > 0.0 && lo <= ExitPrice(t) <= hi
    ensures lo <= AverageExitPrice(trades) <= hi
  {
    var closed := ClosedTrades(trades);
    ClosedBoundsByIndex(closed, lo, hi);
    TotalQuantityPositive(closed);
    WeightedMeanWithinRange(closed, AverageExitPrice(trades), lo, hi);
  }

  lemma WeightedMeanWithinRange(closed: seq<Trade>, avg: real, lo: real, hi: real)
    requires forall i :: 0 <= i < |closed| ==> closed[i].quantity > 0.0 && lo <= ExitPrice(closed[i]) <= hi
    requires Total(closed, Quantity) > 0.0 && avg * Total(closed, Quantity) == Total(closed, ExitValue)
    ensures lo <= avg <= hi
  {
    WeightedSumBounds(closed, lo, hi);
    MeanWithinBounds(avg, Total(closed, Quantity), Total(closed, ExitValue), lo, hi);
  }

  lemma ClosedBoundsByIndex(closed: seq<Trade>, lo: real, hi: real)
    requires forall t :: t in closed ==> t.quantity > 0.0 && lo <= ExitPrice(t) <= hi
    ensures forall i :: 0 <= i < |closed| ==> closed[i].quantity > 0.0 && lo <= ExitPrice(closed[i]) <= hi
  {
    forall i | 0 <= i < |closed|
      ensures closed[i].quantity > 0.0 && lo <= ExitPrice(closed[i]) <= hi
    {
      assert closed[i] in closed;
    }
  }

  /** `new Date(t.exit_date!)` is a valid date for every closed trade. */
  predicate ClosedTradesHaveExitDates(trades: seq<Trade>) {
    forall t :: t in trades && IsClosed(t) ==> t.exitDate.Some?
  }

  function MaxExitDate(closed: seq<Trade>): (r: int)
    requires |closed| > 0
    requires forall t :: t in closed ==> t.exitDate.Some?
    ensures forall t :: t in closed ==> t.exitDate.value <= r
    ensures exists t :: t in closed && t.exitDate == Some(r)
  {
    var t := closed[|closed| - 1];
    if |closed| == 1 then t.exitDate.value
    else
      var rest := closed[..|closed| - 1];
      assert forall u :: u in rest ==> u in closed;
      var m := MaxExitDate(rest);
      if t.exitDate.value > m then t.exitDate.value else m
  }

  /** The latest exit date among the closed trades, absent when none is
      closed. */
  function LastExitDate(trades: seq<Trade>): (r: Option<int>)
    requires ClosedTradesHaveExitDates(trades)
    ensures r.None? <==> forall t :: t in trades ==> !IsClosed(t)
    ensures r.Some? ==> forall t :: t in trades && IsClosed(t) ==> t.exitDate.value <= r.value
    ensures r.Some? ==> exists t :: t in trades && IsClosed(t) && t.exitDate == r
  {
    var closed := ClosedTrades(trades);
    if |closed| == 0 then None
    else Some(MaxExitDate(closed))
  }

  /** The head of the closed trades sorted by descending exit date carries
      the latest exit date. */
  lemma LatestClosedTradeHasMaxExitDate(closed: seq<Trade>)
    requires |closed| > 0
    requires forall t :: t in closed ==> t.exitDate.Some?
    ensures |SortBy(closed, ByExitDateDescending)| == |closed|
    ensures SortBy(closed, ByExitDateDescending)[0].exitDate == Some(MaxExitDate(closed))
  {
    SortByHead(closed, ByExitDateDescending);
    var m := FirstMinIndex(closed, ByExitDateDescending);
    var latest := closed[m];
    assert latest in closed;
    forall j | 0 <= j < |closed|
      ensures closed[j].exitDate.value <= latest.exitDate.value
    {
      assert closed[j] in closed;
      assert KeyOf(ByExitDateDescending, latest) <= KeyOf(ByExitDateDescending, closed[j]);
    }
    var r := MaxExitDate(closed);
    var u :| u in closed && u.exitDate == Some(r);
  }

  /** One `reduce((acc, t) => acc + amount(t), 0)` over the closed trades. */
  method Reduce(closedTrades: seq<Trade>, m: Measure) returns (total: real)
    ensures total == Total(closedTrades, m)
  {
    total := 0.0;
    var i := 0;
    while i < |closedTrades|
      invariant 0 <= i <= |closedTrades|
      invariant total == Total(closedTrades[..i], m)
    {
      assert closedTrades[..i + 1][..i] == closedTrades[..i];
      total := total + Amount(m, closedTrades[i]);
      i := i + 1;
    }
    assert closedTrades[..|closedTrades|] == closedTrades;
  }

  /** `LastExitDate` is the date of the first closed trade once they are
      sorted by descending exit date. */
  lemma LastExitDateIsLatestClosed(trades: seq<Trade>)
    requires ClosedTradesHaveExitDates(trades) && |ClosedTrades(trades)| > 0
    ensures |SortBy(ClosedTrades(trades), ByExitDateDescending)| > 0
    ensures SortBy(ClosedTrades(trades), ByExitDateDescending)[0].exitDate == LastExitDate(trades)
  {
    LatestClosedTradeHasMaxExitDate(ClosedTrades(trades));
  }

  /** Lines 142-167: filter the closed trades, fold their exit value and
      quantity, divide when the quantity is positive, sort the closed trades
      by descending exit date and take the first one's date. Two departures
      from the code: the sort runs on a fresh copy of the closed trades
      rather than on the filtered array itself, and every closed trade must
      carry an exit date. */
  method ExitStats(trades: seq<Trade>) returns (averageExitPrice: real, lastExitDate: Option<int>)
    requires ClosedTradesHaveExitDates(trades)
    ensures averageExitPrice == AverageExitPrice(trades)
    ensures lastExitDate == LastExitDate(trades)
  {
    var closedTrades := ClosedTrades(trades);
    averageExitPrice := 0.0;
    lastExitDate := None;
    if |closedTrades| > 0 {
      var totalExitValue := Reduce(closedTrades, ExitValue);
      var totalExitedQuantity := Reduce(closedTrades, Quantity);
      if totalExitedQuantity > 0.0 {
        averageExitPrice := totalExitValue / totalExitedQuantity;
      }

      var sorted := new Trade[|closedTrades|](k requires 0 <= k < |closedTrades| => closedTrades[k]);
      assert sorted[..] == closedTrades;
      SortInPlace(sorted, ByExitDateDescending);
      LastExitDateIsLatestClosed(trades);
      var latestTrade := sorted[0];
      lastExitDate := latestTrade.exitDate;
    }
  }

  /** The closed trades of two rearrangements of a position are
      rearrangements of each other, with the same figures. */
  lemma AverageExitPriceIgnoresOrder(s1: seq<Trade>, s2: seq<Trade>)
    requires multiset(s1) == multiset(s2)
    ensures multiset(ClosedTrades(s1)) == multiset(ClosedTrades(s2))
    ensures AverageExitPrice(s1) == AverageExitPrice(s2)
  {
    var c1, c2 := ClosedTrades(s1), ClosedTrades(s2);
    FilterIgnoresOrder(s1, s2, IsClosed);
    assert |c1| == |multiset(c1)| == |multiset(c2)| == |c2|;
    TotalIgnoresOrder(c1, c2, ExitValue);
    TotalIgnoresOrder(c1, c2, Quantity);
  }

  lemma SameRecords(s1: seq<Trade>, s2: seq<Trade>)
    requires multiset(s1) == multiset(s2)
    ensures forall t :: t in s1 <==> t in s2
  {
    forall t ensures t in s1 <==> t in s2 {
      assert t in s1 <==> t in multiset(s1);
      assert t in s2 <==> t in multiset(s2);
    }
  }

  lemma LastExitDateIgnoresOrder(s1: seq<Trade>, s2: seq<Trade>)
    requires multiset(s1) == multiset(s2)
    requires ClosedTradesHaveExitDates(s1)
    ensures ClosedTradesHaveExitDates(s2)
    ensures LastExitDate(s1) == LastExitDate(s2)
  {
    SameRecords(s1, s2);
    var d1, d2 := LastExitDate(s1), LastExitDate(s2);
    if d1.Some? && d2.Some? {
      var t1 :| t1 in s1 && IsClosed(t1) && t1.exitDate == d1;
      var t2 :| t2 in s2 && IsClosed(t2) && t2.exitDate == d2;
      assert d1.value <= d2.value;
      assert d2.value <= d1.value;
    }
  }

  lemma HistoryIgnoresOrder(s1: seq<Trade>, s2: seq<Trade>)
    requires multiset(s1) == multiset(s2)
    ensures multiset(HistoryEvents(s1)) == multiset(HistoryEvents(s2))
  {
    FilterIgnoresOrder(s1, s2, IsHistoryEvent);
    SortByPermutes(Filter(s1, IsHistoryEvent), ByEventDate);
    SortByPermutes(Filter(s2, IsHistoryEvent), ByEventDate);
  }

  /** Selecting the root trade sorts the position's own array by entry date
      in place; afterwards the average exit price, the last exit date and
      the history's records (each as often) are those the unsorted array
      gives. The history's tie order and the open trade may change
      (`RootSelectionReordersHistoryTies`, `RootSelectionChangesOpenTrade`). */
  lemma RootSelectionKeepsFigures(trades: seq<Trade>)
    requires ClosedTradesHaveExitDates(trades)
    ensures ClosedTradesHaveExitDates(SortBy(trades, ByEntryDate))
    ensures AverageExitPrice(SortBy(trades, ByEntryDate)) == AverageExitPrice(trades)
    ensures LastExitDate(SortBy(trades, ByEntryDate)) == LastExitDate(trades)
    ensures multiset(HistoryEvents(SortBy(trades, ByEntryDate))) == multiset(HistoryEvents(trades))
  {
    var sorted := SortBy(trades, ByEntryDate);
    SortByPermutes(trades, ByEntryDate);
    AverageExitPriceIgnoresOrder(trades, sorted);
    LastExitDateIgnoresOrder(trades, sorted);
    HistoryIgnoresOrder(trades, sorted);
  }

  // ---------------------------------------------------------------------
  // Display predicates

  /** Whether the edit form restricts the root trade's fields: the
      position is closed or holds more than one record. */
  predicate IsPartiallyEditable(p: PositionSummary) {
    p.status == Closed || |p.tradesInPosition| > 1
  }

  /** Whether the realized result is shown as a gain: break-even counts
      as a gain. */
  predicate IsProfit(p: PositionSummary) {
    p.totalRealizedProfit >= 0.0
  }

  // ---------------------------------------------------------------------
  // A worked position: an entry of 100 at 10.00 on 2024-01-01, a partial
  // exit of 40 at 12.00 on 2024-02-01 and an increment of 20 at 11.00 on
  // 2024-01-15, dates as millisecond timestamps.

  const Entry := Trade(1, 1704067200000, 10.0, 100.0, None, None, None, None)
  const PartialExit := Trade(2, 1704067200000, 10.0, 40.0, Some(1706745600000), Some(12.0), Some(80.0), None)
  const Increment := Trade(3, 1705276800000, 11.0, 20.0, None, None, None, Some("Increment to trade 1"))
  const Worked := [Entry, PartialExit, Increment]

  /** The entry is both the root trade and the open trade. */
  lemma WorkedRootAndOpenTrade()
    ensures RootTrade(Worked) == Some(Entry)
    ensures OpenTrade(Worked) == Some(Entry)
  {
    assert Worked[..2] == [Entry, PartialExit] && [Entry, PartialExit][..1] == [Entry];
    assert FirstMinIndex(Worked, ByEntryDate) == 0;
  }

  lemma WorkedFilters()
    ensures Filter(Worked, IsHistoryEvent) == [PartialExit, Increment]
    ensures ClosedTrades(Worked) == [PartialExit]
  {
    assert IncrementPrefix <= Increment.observations.value;
    assert Worked[..2] == [Entry, PartialExit] && [Entry, PartialExit][..1] == [Entry] && [Entry][..0] == [];
    assert Filter([Entry], IsHistoryEvent) == [];
    assert Filter([Entry, PartialExit], IsHistoryEvent) == [PartialExit];
    assert Filter([Entry], IsClosed) == [];
    assert Filter([Entry, PartialExit], IsClosed) == [PartialExit];
  }

  /** The history lists the increment before the later exit. */
  lemma WorkedHistory()
    ensures HistoryEvents(Worked) == [Increment, PartialExit]
  {
    WorkedFilters();
    assert [PartialExit, Increment][..1] == [PartialExit];
    assert SortBy([PartialExit], ByEventDate) == [PartialExit];
    assert Insert([PartialExit], Increment, ByEventDate) == [Increment, PartialExit];
  }

  /** The one exit fixes the average exit price and the last exit date. */
  lemma WorkedExitFigures()
    ensures AverageExitPrice(Worked) == 12.0
    ensures LastExitDate(Worked) == Some(1706745600000)
  {
    WorkedFilters();
    assert [PartialExit][..0] == [];
    assert Total([PartialExit], ExitValue) == 480.0;
    assert Total([PartialExit], Quantity) == 40.0;
  }
  // ---------------------------------------------------------------------
  // What root selection does change: the array order that `find` and the
  // history's tie-breaking read.

  lemma TiedFilters(i: Trade, e: Trade)
    requires IsIncrement(i) && IsPartialExit(e)
    ensures Filter([i, e], IsHistoryEvent) == [i, e]
    ensures Filter([e, i], IsHistoryEvent) == [e, i]
  {
    assert [i, e][..1] == [i] && [i][..0] == [];
    assert [e, i][..1] == [e] && [e][..0] == [];
  }

  /** An increment and an exit with the same event date are listed in
      array order; when the exit's lot was entered earlier, sorting the
      array by entry date (as root selection does) puts the exit first, so
      the history lists them the other way round. */
  lemma RootSelectionReordersHistoryTies(i: Trade, e: Trade)
    requires IsIncrement(i) && IsPartialExit(e)
    requires EventDate(i) == EventDate(e) && e.entryDate < i.entryDate
    ensures HistoryEvents([i, e]) == [i, e]
    ensures SortBy([i, e], ByEntryDate) == [e, i]
    ensures HistoryEvents([e, i]) == [e, i]
  {
    TiedFilters(i, e);
    assert [i, e][..1] == [i] && [i][..0] == [];
    assert [e, i][..1] == [e] && [e][..0] == [];
    assert SortBy([i], ByEventDate) == [i];
    assert SortBy([e], ByEventDate) == [e];
    assert SortBy([i], ByEntryDate) == [i];
    assert Insert([i], e, ByEntryDate) == Insert([], e, ByEntryDate) + [i];
  }

  /** With two open candidates, `find` returns the first in array order;
      once root selection has sorted the array by entry date it returns
      the earlier-entered one instead. */
  lemma RootSelectionChangesOpenTrade(a: Trade, b: Trade)
    requires IsOpenCandidate(a) && IsOpenCandidate(b) && b.entryDate < a.entryDate
    ensures OpenTrade([a, b]) == Some(a)
    ensures SortBy([a, b], ByEntryDate) == [b, a]
    ensures OpenTrade(SortBy([a, b], ByEntryDate)) == Some(b)
  {
    assert [a, b][..1] == [a] && [a][..0] == [];
    assert [b, a][..1] == [b] && [b][..0] == [];
    assert SortBy([a], ByEntryDate) == [a];
    assert Insert([a], b, ByEntryDate) == Insert([], b, ByEntryDate) + [a];
    assert SortBy([a, b], ByEntryDate) == [b, a];
    assert FindIndex([a, b], IsOpenCandidate) == Some(0);
    assert FindIndex([b, a], IsOpenCandidate) == Some(0);
  }
}
