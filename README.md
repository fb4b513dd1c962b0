# Trade details: position derivations

A Dafny model of the derivations the trade journal's details modal
(`frontend/src/components/TradeDetailsModal.tsx`) computes from a position
before rendering it. A position is the list of trade records
(`tradesInPosition`) sharing one holding: the original entry, partial
exits, size increments (records whose observations start with
`"Increment to trade"`) and the final exit. From that list the modal derives:

- the **root trade** it edits: it sorts the position's own array by entry
  date, in place and stably, and takes the first element;
- the **open trade**: the first record with no exit date and no increment
  marker (`find`);
- the **history events**: partial exits and increments, stably sorted by
  event date (the exit date when there is one, else the entry date);
- the **closed trades**: records with an exit price that is set and
  strictly positive;
- the **average exit price**: the quantity-weighted mean exit price of the
  closed trades, 0 when there is none or their total quantity is not
  positive;
- the **last exit date**: the closed trades sorted by descending exit date,
  first element's date; absent when none is closed;
- **isPartiallyEditable** and **isProfit**: the predicates
  `IsPartiallyEditable` (status `Closed` or more than one record) and
  `IsProfit` (realized profit `>= 0`, so break-even shows as a gain) are
  exactly those two expressions and carry no further property.

Modules:

- `Trades` (`trades.dfy`): the `Trade` record, the input `PositionSummary`,
  the classification predicates, and `Filter`/`FindIndex`, the models of
  `Array.prototype.filter` and the index `Array.prototype.find` stops at.
- `StableSort` (`stable_sort.dfy`): `SortBy`, a stable insertion sort on
  sequences by an integer key, proved sorted, a permutation and stable
  (the records sharing a key keep their order); `StableSortIsUnique`
  proves that any sorted, stable rearrangement equals `SortBy`, so `SortBy`
  is what JavaScript's stable `Array.prototype.sort` produces with the
  comparator `(a, b) => key(a) - key(b)`. `SortInPlace` is the in-place
  sort on an array, proved equal to `SortBy`. A descending comparator
  `b - a` is modelled as an ascending sort on the negated key.
- `TradeDetails` (`trade_details.dfy`): the derivations above, and a
  worked position (entry, partial exit, increment) checked end to end.
  Both `reduce` folds are one `Total` over a `Measure` (exit value or
  quantity). Because root selection sorts the position's own array in
  place, every later derivation sees the records in entry-date order.
  `RootSelectionKeepsFigures` shows that the average exit price, the last
  exit date and the records of the history (each as often) do not depend
  on that order; the order of history events with equal event dates and
  the open trade do (`RootSelectionReordersHistoryTies`,
  `RootSelectionChangesOpenTrade`).

Dates are integer timestamps; prices, quantities and results exact reals.
`None` stands for `null`, `undefined` and, for the date strings, the
empty string: all three are falsy in the code's `!t.exit_date` and
`exit_date || entry_date` tests.

Three points where the code does less than a reader might expect:

- An empty record list is not rejected: the code yields no root trade
  (`initialTrade || null`) and `RootTrade` is `None`.
- The open trade is not required to be unique, nor is the earliest-dated
  one preferred: `find` takes the first qualifying record in the array's
  current order, and so does `OpenTrade`.
- The realized profit is not cross-checked against the sum of the
  records' results: the modal reads `totalRealizedProfit` as an input.

## Model

| member | source | states |
|---|---|---|
| `Trades.Filter` | frontend/src/components/TradeDetailsModal.tsx:142-144 | the filtered list is no longer than the input and holds exactly the input records that satisfy the predicate |
| `Trades.FindIndex` | frontend/src/components/TradeDetailsModal.tsx:123-125 | the index returned satisfies the predicate and no earlier index does; absent only when no record satisfies it |
| `Trades.FindIsHeadOfFilter` | frontend/src/components/TradeDetailsModal.tsx:123-125 | `find` returns the head of `filter` with the same predicate, and is absent exactly when the filter is empty |
| `Trades.FilterSplits` | frontend/src/components/TradeDetailsModal.tsx:123-135 | filtering by a predicate and by its negation splits the list: the two results together hold every record exactly as often as the input |
| `Trades.FilterIgnoresOrder` | frontend/src/components/TradeDetailsModal.tsx:142-144 | filtering two rearrangements of a list yields rearrangements of each other |
| `StableSort.FirstMinIndex` | frontend/src/components/TradeDetailsModal.tsx:52-55 | the index of a record with the smallest key, every earlier record having a strictly larger key |
| `StableSort.SortByPermutes` | frontend/src/components/TradeDetailsModal.tsx:136-140 | sorting keeps the length and the multiset of records |
| `StableSort.SortByIsSorted` | frontend/src/components/TradeDetailsModal.tsx:136-140 | the sorted list is non-decreasing by the key |
| `StableSort.SortByIsStable` | frontend/src/components/TradeDetailsModal.tsx:136-140 | for every key value, the records with that key appear in the same relative order as in the input |
| `StableSort.SortByHead` | frontend/src/components/TradeDetailsModal.tsx:52-55 | the first element of the sorted list is the first record of the input with the smallest key |
| `StableSort.StableSortIsUnique` | frontend/src/components/TradeDetailsModal.tsx:136-140 | any rearrangement that is sorted by the key and keeps the order within each key equals `SortBy`, so the model agrees with any stable sort |
| `StableSort.SortInPlace` | frontend/src/components/TradeDetailsModal.tsx:70-73 | after the in-place sort the array holds `SortBy` of its former contents |
| `TradeDetails.RootTrade` | frontend/src/components/TradeDetailsModal.tsx:52-56 | the root trade is absent exactly for an empty position, otherwise it is the first record with the earliest entry date |
| `TradeDetails.SelectRootTrade` | frontend/src/components/TradeDetailsModal.tsx:70-74 | the position's array is left a permutation of its former contents, sorted by entry date (stably), and the result is the root trade of the former contents |
| `TradeDetails.OpenTrade` | frontend/src/components/TradeDetailsModal.tsx:123-125 | the open trade is a record of the position with no exit date and no increment marker; it is absent exactly when no record qualifies |
| `TradeDetails.OpenTradeIsFirstCandidate` | frontend/src/components/TradeDetailsModal.tsx:123-125 | the open trade is the first qualifying record in array order |
| `TradeDetails.HistoryEventsSpec` | frontend/src/components/TradeDetailsModal.tsx:128-140 | the history holds exactly the records that are not open candidates, is a permutation of the filtered records, is non-decreasing by event date, and keeps the array order of records with equal event dates |
| `TradeDetails.HistoryAndOpenCandidatesPartition` | frontend/src/components/TradeDetailsModal.tsx:123-135 | every record is a history event or an open candidate and never both; the history and the open candidates together are the whole position |
| `TradeDetails.ClosedTrades` | frontend/src/components/TradeDetailsModal.tsx:142-144 | the closed trades are exactly the records whose exit price is set and strictly positive; others are left out, not rejected |
| `TradeDetails.AverageExitPrice` | frontend/src/components/TradeDetailsModal.tsx:145-160 | with a positive total closed quantity, the result times that quantity is the total exit value (a quantity-weighted mean); otherwise the result is 0 |
| `TradeDetails.Reduce` | frontend/src/components/TradeDetailsModal.tsx:149-156 | the accumulating loop of a `reduce` starting at 0 ends with `Total` of the closed trades for that measure (exit value or quantity) |
| `TradeDetails.TotalIgnoresOrder` | frontend/src/components/TradeDetailsModal.tsx:149-156 | each `reduce` sum (exit value, quantity) is the same for any rearrangement of the closed trades |
| `TradeDetails.AverageExitPriceIgnoresOrder` | frontend/src/components/TradeDetailsModal.tsx:142-160 | two rearrangements of a position have rearranged closed trades and the same average exit price |
| `TradeDetails.LastExitDateIgnoresOrder` | frontend/src/components/TradeDetailsModal.tsx:162-166 | two rearrangements of a position have the same last exit date |
| `TradeDetails.HistoryIgnoresOrder` | frontend/src/components/TradeDetailsModal.tsx:128-140 | two rearrangements of a position have histories holding the same records, each as often |
| `TradeDetails.RootSelectionKeepsFigures` | frontend/src/components/TradeDetailsModal.tsx:51-54 | sorting the position's array by entry date to pick the root trade leaves the average exit price, the last exit date and the set of history records unchanged |
| `TradeDetails.RootSelectionReordersHistoryTies` | frontend/src/components/TradeDetailsModal.tsx:128-140 | for any increment and exit with the same event date whose lot was entered before the increment, the history lists them in array order, and sorting the array by entry date (as root selection does) puts the exit first |
| `TradeDetails.RootSelectionChangesOpenTrade` | frontend/src/components/TradeDetailsModal.tsx:123-125 | for two open candidates of which the second was entered strictly earlier, `find` returns the first in array order, and after root selection's entry-date sort it returns the earlier-entered one |
| `TradeDetails.AverageExitPriceWithinRange` | frontend/src/components/TradeDetailsModal.tsx:148-160 | when there are closed trades and all have positive quantity, the average lies between any lower and upper bound of their exit prices |
| `TradeDetails.MaxExitDate` | frontend/src/components/TradeDetailsModal.tsx:162-165 | the result is an exit date of one of the trades and no trade exits later |
| `TradeDetails.LastExitDate` | frontend/src/components/TradeDetailsModal.tsx:146-166 | absent exactly when no record is closed; otherwise the exit date of a closed record that no closed record exceeds |
| `TradeDetails.LatestClosedTradeHasMaxExitDate` | frontend/src/components/TradeDetailsModal.tsx:162-166 | the head of the closed trades sorted by descending exit date carries the maximal exit date |
| `TradeDetails.ExitStats` | frontend/src/components/TradeDetailsModal.tsx:142-167 | the imperative computation (two folds, a guarded division, an in-place descending sort of a fresh copy) yields `AverageExitPrice` and `LastExitDate` |
| `TradeDetails.WorkedRootAndOpenTrade` | frontend/src/components/TradeDetailsModal.tsx:52-55 | in the worked position the entry is both the root trade and the open trade |
| `TradeDetails.WorkedHistory` | frontend/src/components/TradeDetailsModal.tsx:128-140 | in the worked position the history is the increment followed by the later partial exit |
| `TradeDetails.WorkedExitFigures` | frontend/src/components/TradeDetailsModal.tsx:145-166 | in the worked position the average exit price is 12.00 and the last exit date is the partial exit's date |

## Left out

- JSX rendering and display formatting (`toFixed(2)`, `toLocaleDateString`, styles, icons): presentation only.
- React state and effects (`useState`, `useEffect`, the 200 ms `setTimeout` reset): framework lifecycle; `SelectRootTrade` models what the effect and `handleEdit` compute, not when they run.
- `handleUpdateTrade` and `handleConfirmDelete` (lines 87-118): they call the update and delete collaborators, which are not part of this model, and log a failure; the first rethrows it, the second swallows it and clears `isDeleting`. `handleDeleteClick` and `handleCancelEdit` (lines 102-104 and 78-85) only change modal state: the first opens the confirmation dialog, the second closes the modal or leaves edit mode. None of them derives anything from the position.
- Date-string parsing (`new Date(...).getTime()`): dates are integer timestamps; an invalid date string, which yields NaN and makes the comparators inconsistent, is not representable.
- ExitStats: requires every closed record to carry an exit date, and `LastExitDate` carries the same requirement. For `undefined` or an empty string the code's descending comparator on `exit_date!` compares NaN and the resulting order is engine-defined. For `null`, `new Date(null)` is the epoch, so such a record sorts after every record dated after the epoch, ties with one dated exactly at it and sorts before any dated earlier; `lastExitDate` can then be `null` although another closed record has a date. The model's `None` does not tell `null` from the other two, so all three are excluded.
- Floating-point arithmetic: prices, values and the average are exact reals, so rounding of the code's doubles is not modelled.
- `ExitPrice` reads a missing exit price as 0 (JavaScript's `null * q`); it is only applied to closed trades, which always have one.
- `status`, `initialQuantity`, `openQuantity` and `totalRealizedProfit` are computed in `frontend/src/lib/tradeUtils`, which is not part of this model; `status` and `totalRealizedProfit` are inputs of `PositionSummary`, the other two are only displayed.
- `frontend/src/index.tsx`: DOM mounting, nothing to model.
- The order of history events with equal event dates, and which record `openTrade` is when several qualify, depend on whether root selection has already sorted the shared array: the model computes each derivation from the array as given and proves only the order-independent figures equal (`RootSelectionKeepsFigures`), and shows the two order-dependent ones changing (`RootSelectionReordersHistoryTies`, `RootSelectionChangesOpenTrade`).
- The record that `lastExitDate` is read from is, among records with the latest exit date, the first in array order (`SortByHead`); only its date is observable, so no member returns it.
- The in-place sort of `closedTrades` reorders a fresh array the render only reads the length of, so `ExitStats` sorts a local copy and does not return it.
