/** Trade records as the details modal receives them, the classification
    predicates it applies to each record, and the two list combinators
    (`filter` and `find`) its derivations are built from. */
module Trades {

  /** A nullable value: `None` stands for JavaScript's `null`, `undefined`
      and, for the date strings, the falsy empty string. */
  datatype Option<+T> = None | Some(value: T)

  datatype Status = Open | Closed

  /** One persisted trade record. Dates are timestamps (milliseconds since
      the epoch); prices, quantities and results are exact reals. */
  datatype Trade = Trade(
    id: int,
    entryDate: int,
    entryPrice: real,
    quantity: real,
    exitDate: Option<int>,
    exitPrice: Option<real>,
    result: Option<real>,
    observations: Option<string>)

  /** The part of the aggregated position the modal reads. `status` and
      `totalRealizedProfit` are computed elsewhere and are inputs here. */
  datatype PositionSummary = PositionSummary(
    status: Status,
    totalRealizedProfit: real,
    tradesInPosition: seq<Trade>)

  /** The marker text that flags a record as a size increment. */
  const IncrementPrefix: string := "Increment to trade"

  /** `t.observations?.startsWith("Increment to trade")` is truthy. */
  predicate HasIncrementMarker(t: Trade) {
    t.observations.Some? && IncrementPrefix <= t.observations.value
  }

  /** A partial or closing exit: the record carries an exit date. */
  predicate IsPartialExit(t: Trade) {
    t.exitDate.Some?
  }

  /** A size increment: no exit date and the increment marker. */
  predicate IsIncrement(t: Trade) {
    t.exitDate.None? && HasIncrementMarker(t)
  }

  /** Shown in the history list: a partial exit or an increment. */
  predicate IsHistoryEvent(t: Trade) {
    IsPartialExit(t) || IsIncrement(t)
  }

  /** May be picked as the position's open trade: no exit date and no
      increment marker. */
  predicate IsOpenCandidate(t: Trade) {
    t.exitDate.None? && !HasIncrementMarker(t)
  }

  /** Counts toward the realized figures: an exit price that is set and
      strictly positive. */
  predicate IsClosed(t: Trade) {
    t.exitPrice.Some? && t.exitPrice.value > 0.0
  }

  /** The records of `s` that satisfy `p`, in their order in `s`
      (JavaScript's `Array.prototype.filter`). */
  function Filter(s: seq<Trade>, p: Trade -> bool): (r: seq<Trade>)
    ensures |r| <= |s|
    ensures forall t :: t in r <==> t in s && p(t)
  {
    if |s| == 0 then []
    else Filter(s[..|s| - 1], p) + (if p(s[|s| - 1]) then [s[|s| - 1]] else [])
  }

  /** The index of the first record of `s` that satisfies `p`, if any
      (the index `Array.prototype.find` stops at). */
  function FindIndex(s: seq<Trade>, p: Trade -> bool): (r: Option<nat>)
    ensures r.Some? ==> r.value < |s| && p(s[r.value])
    ensures r.Some? ==> forall j :: 0 <= j < r.value ==> !p(s[j])
    ensures r.None? ==> forall j :: 0 <= j < |s| ==> !p(s[j])
  {
    if |s| == 0 then None
    else
      match FindIndex(s[..|s| - 1], p)
      case Some(i) => Some(i)
      case None => if p(s[|s| - 1]) then Some(|s| - 1) else None
  }

  lemma {:induction false} FilterAppend(a: seq<Trade>, b: seq<Trade>, p: Trade -> bool)
    ensures Filter(a + b, p) == Filter(a, p) + Filter(b, p)
    decreases |b|
  {
    if |b| == 0 {
      assert a + b == a;
    } else {
      var b' := b[..|b| - 1];
      assert (a + b)[..|a + b| - 1] == a + b';
      assert (a + b)[|a + b| - 1] == b[|b| - 1];
      FilterAppend(a, b', p);
    }
  }

  /** The first record `find` returns is the head of the filtered list:
      `find(p)` and `filter(p)[0]` agree, and both are absent together. */
  lemma {:induction false} FindIsHeadOfFilter(s: seq<Trade>, p: Trade -> bool)
    ensures FindIndex(s, p).None? <==> |Filter(s, p)| == 0
    ensures FindIndex(s, p).Some? ==> Filter(s, p)[0] == s[FindIndex(s, p).value]
  {
    if |s| > 0 {
      var s' := s[..|s| - 1];
      FindIsHeadOfFilter(s', p);
      if FindIndex(s', p).Some? {
        assert s'[FindIndex(s', p).value] == s[FindIndex(s', p).value];
      }
    }
  }

  /** How often `t` occurs in `Filter(s, p)`: as often as in `s` when it
      satisfies `p`, never otherwise. */
  lemma {:induction false} FilterCount(s: seq<Trade>, p: Trade -> bool, t: Trade)
    ensures multiset(Filter(s, p))[t] == if p(t) then multiset(s)[t] else 0
  {
    if |s| > 0 {
      var s' := s[..|s| - 1];
      FilterCount(s', p, t);
      assert s == s' + [s[|s| - 1]];
    }
  }

  /** Every record is counted exactly once by the two complementary
      filters: `Filter(s, p)` and `Filter(s, q)` split `s` whenever `q` is
      the negation of `p`. */
  lemma FilterSplits(s: seq<Trade>, p: Trade -> bool, q: Trade -> bool)
    requires forall t :: q(t) == !p(t)
    ensures multiset(Filter(s, p)) + multiset(Filter(s, q)) == multiset(s)
  {
    forall t
      ensures (multiset(Filter(s, p)) + multiset(Filter(s, q)))[t] == multiset(s)[t]
    {
      FilterCount(s, p, t);
      FilterCount(s, q, t);
    }
  }

  /** Filtering a rearrangement of a list yields a rearrangement of the
      filtered list. */
  lemma FilterIgnoresOrder(s1: seq<Trade>, s2: seq<Trade>, p: Trade -> bool)
    requires multiset(s1) == multiset(s2)
    ensures multiset(Filter(s1, p)) == multiset(Filter(s2, p))
  {
    forall t
      ensures multiset(Filter(s1, p))[t] == multiset(Filter(s2, p))[t]
    {
      FilterCount(s1, p, t);
      FilterCount(s2, p, t);
    }
  }
}
