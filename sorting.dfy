/**
 * `list.sort(key=...)` on `(expense_type, amount)` tuples: a stable sort,
 * ascending by expense type or, with `reverse=True`, descending by amount.
 * Python's sort is stable in both directions, so the stable insertion sort
 * below yields the same list as the one Python computes.
 */
module StableSort {
  import opened Text
  import opened ExpenseLedger

  /** Which field the tuples are sorted on, and in which direction. */
  datatype SortKey = ByType | ByAmount

  /** `x` must come strictly before `y` in the sorted list. */
  predicate Before(key: SortKey, x: Item, y: Item)
  {
    match key
    case ByType => StrLess(x.0, y.0)
    case ByAmount => x.1 > y.1
  }

  /** `x` and `y` have equal sort keys. */
  predicate SameKey(key: SortKey, x: Item, y: Item)
  {
    match key
    case ByType => x.0 == y.0
    case ByAmount => x.1 == y.1
  }

  lemma {:induction false} BeforeIrreflexive(key: SortKey, x: Item)
    ensures !Before(key, x, x)
  {
    if key == ByType {
      StrLessIrreflexive(x.0);
    }
  }

  lemma {:induction false} BeforeTransitive(key: SortKey, x: Item, y: Item, z: Item)
    requires Before(key, x, y) && Before(key, y, z)
    ensures Before(key, x, z)
  {
    if key == ByType {
      StrLessTransitive(x.0, y.0, z.0);
    }
  }

  /** Two items that are not strictly ordered have the same key. */
  lemma {:induction false} NotBeforeIsSameOrAfter(key: SortKey, x: Item, y: Item)
    requires !Before(key, x, y)
    ensures Before(key, y, x) || SameKey(key, x, y)
  {
    if key == ByType && x.0 != y.0 {
      StrLessTotal(x.0, y.0);
    }
  }

  /** No later element belongs strictly before an earlier one. */
  predicate Sorted(key: SortKey, s: seq<Item>)
  {
    forall i, j :: 0 <= i < j < |s| ==> !Before(key, s[j], s[i])
  }

  /** The elements of `s` whose key equals that of `pivot`, in their order in `s`. */
  function Run(key: SortKey, s: seq<Item>, pivot: Item): seq<Item>
  {
    if s == [] then []
    else (if SameKey(key, s[0], pivot) then [s[0]] else []) + Run(key, s[1..], pivot)
  }

  lemma {:induction false} RunAppend(key: SortKey, a: seq<Item>, b: seq<Item>, pivot: Item)
    ensures Run(key, a + b, pivot) == Run(key, a, pivot) + Run(key, b, pivot)
  {
    if a == [] {
      assert a + b == b;
    } else {
      assert (a + b)[0] == a[0] && (a + b)[1..] == a[1..] + b;
      RunAppend(key, a[1..], b, pivot);
    }
  }

  lemma {:induction false} RunEmpty(key: SortKey, s: seq<Item>, pivot: Item)
    requires forall m :: 0 <= m < |s| ==> !SameKey(key, s[m], pivot)
    ensures Run(key, s, pivot) == []
  {
    if s != [] {
      RunEmpty(key, s[1..], pivot);
    }
  }

  /** Place `x` after every element that does not belong strictly after it. */
  function Insert(key: SortKey, x: Item, s: seq<Item>): seq<Item>
  {
    if s == [] then [x]
    else if Before(key, x, s[0]) then [x] + s
    else [s[0]] + Insert(key, x, s[1..])
  }

  /** Insertion adds `x` and loses nothing. */
  lemma {:induction false} InsertPermutes(key: SortKey, x: Item, s: seq<Item>)
    ensures multiset(Insert(key, x, s)) == multiset(s) + multiset{x}
  {
    if s != [] && !Before(key, x, s[0]) {
      InsertPermutes(key, x, s[1..]);
      assert s == [s[0]] + s[1..];
    }
  }

  /** Stable insertion sort: each element is inserted after the ones that preceded it. */
  function SortBy(key: SortKey, s: seq<Item>): seq<Item>
  {
    if s == [] then []
    else Insert(key, s[|s| - 1], SortBy(key, s[..|s| - 1]))
  }

  /** The sort is a permutation of its input. */
  lemma {:induction false} SortByPermutes(key: SortKey, s: seq<Item>)
    ensures multiset(SortBy(key, s)) == multiset(s)
  {
    if s != [] {
      SortByPermutes(key, s[..|s| - 1]);
      InsertPermutes(key, s[|s| - 1], SortBy(key, s[..|s| - 1]));
      assert s == s[..|s| - 1] + [s[|s| - 1]];
    }
  }

  lemma {:induction false} InsertSorted(key: SortKey, x: Item, s: seq<Item>)
    requires Sorted(key, s)
    ensures Sorted(key, Insert(key, x, s))
  {
    if s == [] {
    } else if Before(key, x, s[0]) {
      InsertSortedFront(key, x, s);
    } else {
      SortedTail(key, s);
      InsertSorted(key, x, s[1..]);
      InsertSortedLater(key, x, s);
    }
  }

  lemma InsertSortedFront(key: SortKey, x: Item, s: seq<Item>)
    requires Sorted(key, s) && s != [] && Before(key, x, s[0])
    ensures Sorted(key, Insert(key, x, s))
  {
    var r := [x] + s;
    assert Insert(key, x, s) == r;
    forall i, j | 0 <= i < j < |r| ensures !Before(key, r[j], r[i]) {
      if i == 0 {
        if Before(key, r[j], x) {
          BeforeTransitive(key, r[j], x, s[0]);
          if j == 1 { BeforeIrreflexive(key, s[0]); }
        }
      } else {
        assert r[i] == s[i - 1] && r[j] == s[j - 1];
      }
    }
  }

  lemma InsertSortedLater(key: SortKey, x: Item, s: seq<Item>)
    requires Sorted(key, s) && s != [] && !Before(key, x, s[0])
    requires Sorted(key, Insert(key, x, s[1..]))
    ensures Sorted(key, Insert(key, x, s))
  {
    var rest := Insert(key, x, s[1..]);
    InsertPermutes(key, x, s[1..]);
    HeadStaysFirst(key, x, s, rest);
    SortedCons(key, s[0], rest);
    assert Insert(key, x, s) == [s[0]] + rest;
  }

  /** Nothing from the tail of a sorted list, nor `x` itself, belongs before its head. */
  lemma HeadStaysFirst(key: SortKey, x: Item, s: seq<Item>, rest: seq<Item>)
    requires Sorted(key, s) && s != [] && !Before(key, x, s[0])
    requires multiset(rest) == multiset(s[1..]) + multiset{x}
    ensures forall j :: 0 <= j < |rest| ==> !Before(key, rest[j], s[0])
  {
    forall j | 0 <= j < |rest| ensures !Before(key, rest[j], s[0]) {
      assert rest[j] in multiset(rest);
      assert rest[j] in multiset(s[1..]) || rest[j] == x;
      if rest[j] != x {
        var m :| 0 <= m < |s[1..]| && s[1..][m] == rest[j];
        assert s[m + 1] == rest[j];
      }
    }
  }

  lemma SortedCons(key: SortKey, y: Item, t: seq<Item>)
    requires Sorted(key, t)
    requires forall j :: 0 <= j < |t| ==> !Before(key, t[j], y)
    ensures Sorted(key, [y] + t)
  {
    var r := [y] + t;
    forall i, j | 0 <= i < j < |r| ensures !Before(key, r[j], r[i]) {
      if i == 0 {
        assert r[j] == t[j - 1];
      } else {
        assert r[i] == t[i - 1] && r[j] == t[j - 1];
      }
    }
  }

  /** The sort orders its result. */
  lemma {:induction false} SortBySorted(key: SortKey, s: seq<Item>)
    ensures Sorted(key, SortBy(key, s))
  {
    if s != [] {
      SortBySorted(key, s[..|s| - 1]);
      InsertSorted(key, s[|s| - 1], SortBy(key, s[..|s| - 1]));
    }
  }

  lemma {:induction false} RunCons(key: SortKey, y: Item, t: seq<Item>, pivot: Item)
    ensures Run(key, [y] + t, pivot) == (if SameKey(key, y, pivot) then [y] else []) + Run(key, t, pivot)
  {
    assert ([y] + t)[0] == y && ([y] + t)[1..] == t;
  }

  lemma SameKeyBefore(key: SortKey, a: Item, b: Item, c: Item)
    requires SameKey(key, a, b) && Before(key, b, c)
    ensures Before(key, a, c)
  {
  }

  /** In a sorted list, nothing after the head shares a key with an item that belongs before the head. */
  lemma {:induction false} NoneTiedBeforeHead(key: SortKey, x: Item, s: seq<Item>, pivot: Item)
    requires Sorted(key, s) && s != []
    requires Before(key, x, s[0]) && SameKey(key, x, pivot)
    ensures Run(key, s, pivot) == []
  {
    forall m | 0 <= m < |s| ensures !SameKey(key, s[m], pivot) {
      if SameKey(key, s[m], pivot) {
        assert SameKey(key, s[m], x);
        SameKeyBefore(key, s[m], x, s[0]);
        if m == 0 { BeforeIrreflexive(key, s[0]); }
      }
    }
    RunEmpty(key, s, pivot);
  }

  lemma SortedTail(key: SortKey, s: seq<Item>)
    requires Sorted(key, s) && s != []
    ensures Sorted(key, s[1..])
  {
    forall i, j | 0 <= i < j < |s[1..]| ensures !Before(key, s[1..][j], s[1..][i]) {
      assert s[1..][i] == s[i + 1] && s[1..][j] == s[j + 1];
    }
  }

  /** Inserting into a sorted list appends the new element to the end of its own run. */
  lemma {:induction false} InsertRun(key: SortKey, x: Item, s: seq<Item>, pivot: Item)
    requires Sorted(key, s)
    ensures Run(key, Insert(key, x, s), pivot)
            == Run(key, s, pivot) + (if SameKey(key, x, pivot) then [x] else [])
  {
    if s == [] {
      RunCons(key, x, [], pivot);
      assert Run(key, [], pivot) == [];
    } else if Before(key, x, s[0]) {
      InsertRunFront(key, x, s, pivot);
    } else {
      SortedTail(key, s);
      InsertRun(key, x, s[1..], pivot);
      InsertRunLater(key, x, s, pivot, if SameKey(key, x, pivot) then [x] else []);
    }
  }

  lemma InsertRunFront(key: SortKey, x: Item, s: seq<Item>, pivot: Item)
    requires Sorted(key, s) && s != [] && Before(key, x, s[0])
    ensures Run(key, Insert(key, x, s), pivot)
            == Run(key, s, pivot) + (if SameKey(key, x, pivot) then [x] else [])
  {
    assert Insert(key, x, s) == [x] + s;
    RunCons(key, x, s, pivot);
    if SameKey(key, x, pivot) {
      NoneTiedBeforeHead(key, x, s, pivot);
    }
  }

  lemma InsertRunLater(key: SortKey, x: Item, s: seq<Item>, pivot: Item, tag: seq<Item>)
    requires s != [] && !Before(key, x, s[0])
    requires Run(key, Insert(key, x, s[1..]), pivot) == Run(key, s[1..], pivot) + tag
    ensures Run(key, Insert(key, x, s), pivot) == Run(key, s, pivot) + tag
  {
    var rest := Insert(key, x, s[1..]);
    var head := if SameKey(key, s[0], pivot) then [s[0]] else [];
    RunCons(key, s[0], rest, pivot);
    assert s == [s[0]] + s[1..];
    RunCons(key, s[0], s[1..], pivot);
    calc {
      Run(key, Insert(key, x, s), pivot);
      Run(key, [s[0]] + rest, pivot);
      head + Run(key, rest, pivot);
      head + (Run(key, s[1..], pivot) + tag);
      (head + Run(key, s[1..], pivot)) + tag;
      Run(key, s, pivot) + tag;
    }
  }

  /** Stability: the elements sharing any one key keep their relative order. */
  lemma {:induction false} SortByStable(key: SortKey, s: seq<Item>, pivot: Item)
    ensures Run(key, SortBy(key, s), pivot) == Run(key, s, pivot)
  {
    if s != [] {
      var init, last := s[..|s| - 1], s[|s| - 1];
      var sorted := SortBy(key, init);
      var tag := if SameKey(key, last, pivot) then [last] else [];
      SortByStable(key, init, pivot);
      SortBySorted(key, init);
      InsertRun(key, last, sorted, pivot);
      RunAppend(key, init, [last], pivot);
      RunCons(key, last, [], pivot);
      calc {
        Run(key, SortBy(key, s), pivot);
        Run(key, Insert(key, last, sorted), pivot);
        Run(key, sorted, pivot) + tag;
        Run(key, init, pivot) + tag;
        { assert Run(key, [last], pivot) == tag + Run(key, [], pivot) == tag; }
        Run(key, init, pivot) + Run(key, [last], pivot);
        Run(key, init + [last], pivot);
        { assert s == init + [last]; }
        Run(key, s, pivot);
      }
    }
  }

  lemma {:induction false} RunNonEmpty(key: SortKey, s: seq<Item>, j: nat, pivot: Item)
    requires j < |s| && SameKey(key, s[j], pivot)
    ensures |Run(key, s, pivot)| >= 1
  {
    if j > 0 {
      RunNonEmpty(key, s[1..], j - 1, pivot);
    }
  }

  lemma {:induction false} RunAtLeastTwo(key: SortKey, s: seq<Item>, i: nat, j: nat, pivot: Item)
    requires i < j < |s| && SameKey(key, s[i], pivot) && SameKey(key, s[j], pivot)
    ensures |Run(key, s, pivot)| >= 2
  {
    if i == 0 {
      RunNonEmpty(key, s[1..], j - 1, pivot);
    } else {
      RunAtLeastTwo(key, s[1..], i - 1, j - 1, pivot);
    }
  }

  lemma {:induction false} RunAtMostOne(s: seq<Item>, pivot: Item)
    requires DistinctKeys(s)
    ensures |Run(ByType, s, pivot)| <= 1
  {
    if s != [] {
      if SameKey(ByType, s[0], pivot) {
        forall m | 0 <= m < |s[1..]| ensures !SameKey(ByType, s[1..][m], pivot) {
          assert s[1..][m] == s[m + 1];
        }
        RunEmpty(ByType, s[1..], pivot);
      } else {
        assert DistinctKeys(s[1..]) by {
          forall i, j | 0 <= i < j < |s[1..]| ensures s[1..][i].0 != s[1..][j].0 {
            assert s[1..][i] == s[i + 1] && s[1..][j] == s[j + 1];
          }
        }
        RunAtMostOne(s[1..], pivot);
      }
    }
  }

  /** Expense types strictly ascending. */
  predicate AscendingTypes(s: seq<Item>)
  {
    forall i, j :: 0 <= i < j < |s| ==> StrLess(s[i].0, s[j].0)
  }

  /** Sorting distinct expense types puts them in strictly ascending order. */
  lemma {:induction false} SortByTypeStrict(s: seq<Item>)
    requires DistinctKeys(s)
    ensures AscendingTypes(SortBy(ByType, s))
  {
    var r := SortBy(ByType, s);
    SortBySorted(ByType, s);
    forall i, j | 0 <= i < j < |r| ensures StrLess(r[i].0, r[j].0) {
      if r[i].0 == r[j].0 {
        RunAtLeastTwo(ByType, r, i, j, r[i]);
        SortByStable(ByType, s, r[i]);
        RunAtMostOne(s, r[i]);
      }
      assert !StrLess(r[j].0, r[i].0);
      StrLessTotal(r[i].0, r[j].0);
    }
  }

  /** Ascending types whenever the type order was chosen. */
  lemma SortByTypeWhenChosen(key: SortKey, s: seq<Item>)
    requires DistinctKeys(s)
    ensures key == ByType ==> AscendingTypes(SortBy(key, s))
  {
    if key == ByType {
      SortByTypeStrict(s);
    }
  }
}
