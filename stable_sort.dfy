/** Stable sorting of trade lists by an integer key, as JavaScript's
    `Array.prototype.sort` does with a comparator `(a, b) => KeyOf(key, a) - KeyOf(key, b)`.
    `SortBy` is the specification (an insertion sort on sequences);
    `SortInPlace` is the in-place sort on an array, proved equal to it.
    Since a stable sort's output is unique (`StableSortIsUnique`), `SortBy`
    is exactly what any stable sort produces. A descending sort is an
    ascending sort on the negated key. */
module StableSort {
  import opened Trades

  /** The three comparators the modal sorts with, each as the integer key
      it compares: `a.entry_date - b.entry_date`,
      `(a.exit_date || a.entry_date) - (b.exit_date || b.entry_date)` and
      `b.exit_date! - a.exit_date!`. */
  datatype SortKey = ByEntryDate | ByEventDate | ByExitDateDescending

  /** `exit_date || entry_date`: the date a history event happened. */
  function EventDate(t: Trade): int {
    match t.exitDate
    case Some(d) => d
    case None => t.entryDate
  }

  function KeyOf(key: SortKey, t: Trade): int {
    match key
    case ByEntryDate => t.entryDate
    case ByEventDate => EventDate(t)
    case ByExitDateDescending =>
      match t.exitDate
      case Some(d) => -d
      case None => 0
  }

  ghost predicate SortedBy(s: seq<Trade>, key: SortKey) {
    forall i, j :: 0 <= i < j < |s| ==> KeyOf(key, s[i]) <= KeyOf(key, s[j])
  }

  /** The records of `s` whose key is `k`, in their order in `s`. */
  function WithKey(s: seq<Trade>, key: SortKey, k: int): seq<Trade> {
    if |s| == 0 then []
    else WithKey(s[..|s| - 1], key, k) + (if KeyOf(key, s[|s| - 1]) == k then [s[|s| - 1]] else [])
  }

  lemma {:induction false} WithKeyAppend(a: seq<Trade>, b: seq<Trade>, key: SortKey, k: int)
    ensures WithKey(a + b, key, k) == WithKey(a, key, k) + WithKey(b, key, k)
    decreases |b|
  {
    if |b| == 0 {
      assert a + b == a;
    } else {
      var b' := b[..|b| - 1];
      assert (a + b)[..|a + b| - 1] == a + b';
      assert (a + b)[|a + b| - 1] == b[|b| - 1];
      WithKeyAppend(a, b', key, k);
    }
  }

  lemma WithKeySnoc(s: seq<Trade>, x: Trade, key: SortKey, k: int)
    ensures WithKey(s + [x], key, k) == WithKey(s, key, k) + (if KeyOf(key, x) == k then [x] else [])
  {
    assert (s + [x])[..|s|] == s;
  }

  /** A record of `s` is found among the records with its own key. */
  lemma {:induction false} WithKeyHas(s: seq<Trade>, key: SortKey, i: nat)
    requires i < |s|
    ensures s[i] in WithKey(s, key, KeyOf(key, s[i]))
  {
    if i < |s| - 1 {
      WithKeyHas(s[..|s| - 1], key, i);
    }
  }

  /** The records with key `k` are records of `s` with key `k`. */
  lemma {:induction false} WithKeyMembers(s: seq<Trade>, key: SortKey, k: int, t: Trade)
    requires t in WithKey(s, key, k)
    ensures t in s && KeyOf(key, t) == k
  {
    var s' := s[..|s| - 1];
    if t in WithKey(s', key, k) {
      WithKeyMembers(s', key, k, t);
    }
  }

  /** Inserts `x` after every record of `s` whose key is not greater than
      its own: scanning from the right, it passes only strictly greater keys. */
  function Insert(s: seq<Trade>, x: Trade, key: SortKey): seq<Trade> {
    if |s| == 0 then [x]
    else if KeyOf(key, s[|s| - 1]) > KeyOf(key, x) then Insert(s[..|s| - 1], x, key) + [s[|s| - 1]]
    else s + [x]
  }

  function SortBy(s: seq<Trade>, key: SortKey): seq<Trade> {
    if |s| == 0 then [] else Insert(SortBy(s[..|s| - 1], key), s[|s| - 1], key)
  }

  /** The index of the first record of `s` with the smallest key: a linear
      scan, independent of the sort. */
  function FirstMinIndex(s: seq<Trade>, key: SortKey): (i: nat)
    requires |s| > 0
    ensures i < |s|
    ensures forall j :: 0 <= j < |s| ==> KeyOf(key, s[i]) <= KeyOf(key, s[j])
    ensures forall j :: 0 <= j < i ==> KeyOf(key, s[j]) > KeyOf(key, s[i])
  {
    if |s| == 1 then 0
    else
      var m := FirstMinIndex(s[..|s| - 1], key);
      if KeyOf(key, s[|s| - 1]) < KeyOf(key, s[m]) then |s| - 1 else m
  }

  // ---------------------------------------------------------------------
  // Insert

  lemma {:induction false} InsertPermutes(s: seq<Trade>, x: Trade, key: SortKey)
    ensures multiset(Insert(s, x, key)) == multiset(s) + multiset{x}
  {
    if |s| > 0 && KeyOf(key, s[|s| - 1]) > KeyOf(key, x) {
      var s' := s[..|s| - 1];
      InsertPermutes(s', x, key);
      assert s == s' + [s[|s| - 1]];
    }
  }

  lemma {:induction false} InsertKeepsSorted(s: seq<Trade>, x: Trade, key: SortKey)
    requires SortedBy(s, key)
    ensures SortedBy(Insert(s, x, key), key)
  {
    if |s| > 0 {
      var last := s[|s| - 1];
      if KeyOf(key, last) > KeyOf(key, x) {
        var s' := s[..|s| - 1];
        InsertKeepsSorted(s', x, key);
        InsertPermutes(s', x, key);
        var r' := Insert(s', x, key);
        forall i | 0 <= i < |r'|
          ensures KeyOf(key, r'[i]) <= KeyOf(key, last)
        {
          assert r'[i] in multiset(r');
          if r'[i] != x {
            assert r'[i] in s';
          }
        }
      }
    }
  }

  lemma {:induction false} InsertWithKey(s: seq<Trade>, x: Trade, key: SortKey, k: int)
    ensures WithKey(Insert(s, x, key), key, k)
         == WithKey(s, key, k) + (if KeyOf(key, x) == k then [x] else [])
  {
    if |s| == 0 {
      assert Insert(s, x, key) == [] + [x];
      WithKeyAppend([], [x], key, k);
    } else {
      var last := s[|s| - 1];
      var s' := s[..|s| - 1];
      if KeyOf(key, last) > KeyOf(key, x) {
        InsertWithKey(s', x, key, k);
        WithKeyAppend(Insert(s', x, key), [last], key, k);
      } else {
        WithKeyAppend(s, [x], key, k);
      }
    }
  }

  /** The head of an insertion into a sorted list. */
  lemma {:induction false} InsertHead(s: seq<Trade>, x: Trade, key: SortKey)
    requires |s| > 0 && SortedBy(s, key)
    ensures Insert(s, x, key)[0] == if KeyOf(key, x) < KeyOf(key, s[0]) then x else s[0]
  {
    if KeyOf(key, s[|s| - 1]) > KeyOf(key, x) && |s| > 1 {
      InsertHead(s[..|s| - 1], x, key);
    }
  }

  // ---------------------------------------------------------------------
  // SortBy

  lemma {:induction false} SortByPermutes(s: seq<Trade>, key: SortKey)
    ensures multiset(SortBy(s, key)) == multiset(s)
    ensures |SortBy(s, key)| == |s|
  {
    if |s| > 0 {
      var s' := s[..|s| - 1];
      SortByPermutes(s', key);
      InsertPermutes(SortBy(s', key), s[|s| - 1], key);
      assert s == s' + [s[|s| - 1]];
    }
  }

  lemma {:induction false} SortByIsSorted(s: seq<Trade>, key: SortKey)
    ensures SortedBy(SortBy(s, key), key)
  {
    if |s| > 0 {
      SortByIsSorted(s[..|s| - 1], key);
      InsertKeepsSorted(SortBy(s[..|s| - 1], key), s[|s| - 1], key);
    }
  }

  /** Stability: the records sharing any one key keep their relative order. */
  lemma {:induction false} SortByIsStable(s: seq<Trade>, key: SortKey, k: int)
    ensures WithKey(SortBy(s, key), key, k) == WithKey(s, key, k)
  {
    if |s| > 0 {
      var s' := s[..|s| - 1];
      SortByIsStable(s', key, k);
      InsertWithKey(SortBy(s', key), s[|s| - 1], key, k);
    }
  }

  /** The head of the sorted list is the first record with the smallest key. */
  lemma {:induction false} SortByHead(s: seq<Trade>, key: SortKey)
    requires |s| > 0
    ensures |SortBy(s, key)| == |s|
    ensures SortBy(s, key)[0] == s[FirstMinIndex(s, key)]
  {
    SortByPermutes(s, key);
    if |s| > 1 {
      var s' := s[..|s| - 1];
      SortByHead(s', key);
      SortByIsSorted(s', key);
      InsertHead(SortBy(s', key), s[|s| - 1], key);
    }
  }

  // ---------------------------------------------------------------------
  // Uniqueness of a stable sort

  lemma AppendCancel(a: seq<Trade>, b: seq<Trade>, c: seq<Trade>)
    requires a + c == b + c
    ensures a == b
  {
    assert a == (a + c)[..|a|];
    assert b == (b + c)[..|b|];
  }

  lemma AppendLastInjective(a: seq<Trade>, b: seq<Trade>, x: Trade, y: Trade)
    requires a + [x] == b + [y]
    ensures a == b && x == y
  {
    assert |a| == |b|;
    assert a == (a + [x])[..|a|];
    assert b == (b + [y])[..|b|];
    assert x == (a + [x])[|a|];
    assert y == (b + [y])[|b|];
  }

  lemma SortedBelowLast(r: seq<Trade>, key: SortKey, t: Trade)
    requires SortedBy(r, key) && t in r
    ensures KeyOf(key, t) <= KeyOf(key, r[|r| - 1])
  {
    var i :| 0 <= i < |r| && r[i] == t;
    if i < |r| - 1 {
      assert KeyOf(key, r[i]) <= KeyOf(key, r[|r| - 1]);
    }
  }

  /** Two sorted lists with the same records per key end on the same key. */
  lemma SameLastKey(r1: seq<Trade>, r2: seq<Trade>, key: SortKey)
    requires SortedBy(r1, key) && SortedBy(r2, key) && |r1| > 0 && |r2| > 0
    requires forall k :: WithKey(r1, key, k) == WithKey(r2, key, k)
    ensures KeyOf(key, r1[|r1| - 1]) == KeyOf(key, r2[|r2| - 1])
  {
    var last1, last2 := r1[|r1| - 1], r2[|r2| - 1];
    WithKeyHas(r1, key, |r1| - 1);
    assert last1 in WithKey(r2, key, KeyOf(key, last1));
    WithKeyMembers(r2, key, KeyOf(key, last1), last1);
    SortedBelowLast(r2, key, last1);
    WithKeyHas(r2, key, |r2| - 1);
    assert last2 in WithKey(r1, key, KeyOf(key, last2));
    WithKeyMembers(r1, key, KeyOf(key, last2), last2);
    SortedBelowLast(r1, key, last2);
  }

  /** Lists with the same records per key that end on the same key end on
      the same record, and agree per key without it. */
  lemma SameClassesDropLast(r1: seq<Trade>, last1: Trade, r2: seq<Trade>, last2: Trade, key: SortKey)
    requires KeyOf(key, last1) == KeyOf(key, last2)
    requires forall k :: WithKey(r1 + [last1], key, k) == WithKey(r2 + [last2], key, k)
    ensures last1 == last2
    ensures forall k :: WithKey(r1, key, k) == WithKey(r2, key, k)
  {
    var kk := KeyOf(key, last1);
    WithKeySnoc(r1, last1, key, kk);
    WithKeySnoc(r2, last2, key, kk);
    AppendLastInjective(WithKey(r1, key, kk), WithKey(r2, key, kk), last1, last2);
    forall k
      ensures WithKey(r1, key, k) == WithKey(r2, key, k)
    {
      WithKeySnoc(r1, last1, key, k);
      WithKeySnoc(r2, last2, key, k);
      assert WithKey(r1 + [last1], key, k) == WithKey(r2 + [last2], key, k);
      AppendCancel(WithKey(r1, key, k), WithKey(r2, key, k), if KeyOf(key, last1) == k then [last1] else []);
    }
  }

  lemma DropLast(r: seq<Trade>, key: SortKey)
    requires SortedBy(r, key) && |r| > 0
    ensures r == r[..|r| - 1] + [r[|r| - 1]]
    ensures SortedBy(r[..|r| - 1], key)
  {
  }

  /** Two lists sorted by `key` that agree on the order of the records of
      every key are equal. */
  lemma {:induction false} SortedWithSameKeyClassesAreEqual(r1: seq<Trade>, r2: seq<Trade>, key: SortKey)
    requires SortedBy(r1, key) && SortedBy(r2, key)
    requires forall k :: WithKey(r1, key, k) == WithKey(r2, key, k)
    ensures r1 == r2
    decreases |r1| + |r2|
  {
    if |r1| == 0 && |r2| > 0 {
      WithKeyHas(r2, key, |r2| - 1);
    } else if |r2| == 0 && |r1| > 0 {
      WithKeyHas(r1, key, |r1| - 1);
    } else if |r1| > 0 {
      var r1', r2' := r1[..|r1| - 1], r2[..|r2| - 1];
      SameLastKey(r1, r2, key);
      DropLast(r1, key);
      DropLast(r2, key);
      SameClassesDropLast(r1', r1[|r1| - 1], r2', r2[|r2| - 1], key);
      SortedWithSameKeyClassesAreEqual(r1', r2', key);
    }
  }

  /** Any list that is sorted by `key` and keeps the order of the records
      of every key (any stable sort's output) is `SortBy`. */
  lemma StableSortIsUnique(s: seq<Trade>, r: seq<Trade>, key: SortKey)
    requires SortedBy(r, key)
    requires forall k :: WithKey(r, key, k) == WithKey(s, key, k)
    ensures r == SortBy(s, key)
  {
    SortByIsSorted(s, key);
    forall k
      ensures WithKey(r, key, k) == WithKey(SortBy(s, key), key, k)
    {
      SortByIsStable(s, key, k);
    }
    SortedWithSameKeyClassesAreEqual(r, SortBy(s, key), key);
  }

  // ---------------------------------------------------------------------
  // In place

  /** Where the right-to-left scan stops: `x` goes after the prefix of
      records up to `j`, whose last key is not greater than `x`'s, and
      before the rest, whose keys all are. */
  lemma {:induction false} InsertAfterScan(done: seq<Trade>, x: Trade, key: SortKey, j: nat)
    requires j <= |done|
    requires j == 0 || KeyOf(key, done[j - 1]) <= KeyOf(key, x)
    requires forall k :: j <= k < |done| ==> KeyOf(key, done[k]) > KeyOf(key, x)
    ensures Insert(done, x, key) == done[..j] + [x] + done[j..]
    decreases |done|
  {
    if |done| == j {
      assert done[..j] == done && done[j..] == [];
    } else {
      var d' := done[..|done| - 1];
      InsertAfterScan(d', x, key, j);
      assert d'[..j] == done[..j];
      assert d'[j..] + [done[|done| - 1]] == done[j..];
    }
  }

  /** Moves `a[i]` left into the sorted prefix `a[..i]`, past the records
      whose key is strictly greater. */
  method InsertInPlace(a: array<Trade>, i: nat, key: SortKey)
    requires i < a.Length
    modifies a
    ensures a[..i + 1] == Insert(old(a[..i]), old(a[i]), key)
    ensures a[i + 1..] == old(a[i + 1..])
  {
    var x := a[i];
    ghost var done := a[..i];
    var j := i;
    while j > 0 && KeyOf(key, a[j - 1]) > KeyOf(key, x)
      invariant 0 <= j <= i
      invariant forall k :: 0 <= k < j ==> a[k] == done[k]
      invariant forall k :: j < k <= i ==> a[k] == done[k - 1]
      invariant forall k :: i < k < a.Length ==> a[k] == old(a[k])
      invariant forall k :: j <= k < i ==> KeyOf(key, done[k]) > KeyOf(key, x)
    {
      a[j] := a[j - 1];
      j := j - 1;
    }
    a[j] := x;
    InsertAfterScan(done, x, key, j);
    assert a[..i + 1] == done[..j] + [x] + done[j..];
    assert a[i + 1..] == old(a[i + 1..]);
  }

  /** Insertion sort of `a` in place, ascending by `key`, stable. */
  method SortInPlace(a: array<Trade>, key: SortKey)
    modifies a
    ensures a[..] == SortBy(old(a[..]), key)
  {
    ghost var orig := a[..];
    var i := 0;
    while i < a.Length
      invariant 0 <= i <= a.Length
      invariant a[..i] == SortBy(orig[..i], key)
      invariant a[i..] == orig[i..]
    {
      assert orig[..i + 1] == orig[..i] + [orig[i]];
      InsertInPlace(a, i, key);
      i := i + 1;
    }
    assert a[..] == a[..a.Length];
    assert orig == orig[..a.Length];
  }
}
