/**
 * `ExpensesManager`: query, add, deduct, update, sort and export over the
 * caller's ledger. Like the Python class it holds no state of its own: every
 * operation takes the ledger as a parameter.
 */
module ExpensesManager {
  import opened Wrappers
  import opened Text
  import opened ExpenseLedger
  import opened StableSort

  /**
   * How a deduction or an update ended: the type was missing (a notice is
   * printed, nothing is raised), the deduction exceeded the total (the
   * `RuntimeError`), or the ledger was changed.
   */
  datatype Outcome = Absent | Overdraft | Done

  /** `get_expense`: the record filed under `expenseType`, or `None` when there is none. */
  function GetExpense(l: Ledger, expenseType: string): (r: Option<Expense>)
    reads l
    requires l.Valid()
    ensures r.Some? <==> expenseType in l.records
    ensures r.Some? ==> r.value == l.records[expenseType] && r.value.expenseType == expenseType
  {
    if expenseType in l.records then Some(l.records[expenseType]) else None
  }

  /** `add_expense`: increment the total, or create the record when the type is new. */
  method AddExpense(l: Ledger, expenseType: string, value: real)
    requires l.Valid()
    modifies l
    ensures l.Valid()
    ensures l.Snapshot() == Accumulate(old(l.Snapshot()), expenseType, value)
    ensures l.records == old(l.records)[expenseType :=
              Expense(expenseType, if expenseType in old(l.records)
                                   then old(l.records)[expenseType].amount + value else value)]
  {
    var expense := GetExpense(l, expenseType);
    if expense.Some? {
      l.Store(expenseType, expense.value.(amount := expense.value.amount + value));
    } else {
      l.Store(expenseType, Expense(expenseType, value));
    }
  }

  /** The effect of `deduct_expense` on the dictionary's value. */
  function Deduct(d: Dict, expenseType: string, value: real): (r: (Outcome, Dict))
    ensures r.0 == Absent <==> expenseType !in d.records
    ensures r.0 == Overdraft <==> expenseType in d.records && value > d.records[expenseType].amount
    ensures r.0 != Done ==> r.1 == d
    ensures r.0 == Done ==>
              var e := d.records[expenseType];
              && r.1 == Dict(d.order, d.records[expenseType := e.(amount := e.amount - value)])
              && r.1.records[expenseType].amount >= 0.0
    ensures Wellformed(d) ==> Wellformed(r.1)
    ensures NonNegative(d) ==> NonNegative(r.1)
  {
    if expenseType !in d.records then (Absent, d)
    else
      var e := d.records[expenseType];
      if value > e.amount then (Overdraft, d)
      else (Done, Put(d, expenseType, e.(amount := e.amount - value)))
  }

  /**
   * `deduct_expense`: a missing type is reported and left alone; a value
   * above the total fails before anything changes; otherwise the total drops
   * by `value`.
   */
  method DeductExpense(l: Ledger, expenseType: string, value: real) returns (outcome: Outcome)
    requires l.Valid()
    modifies l
    ensures l.Valid()
    ensures (outcome, l.Snapshot()) == Deduct(old(l.Snapshot()), expenseType, value)
  {
    var expense := GetExpense(l, expenseType);
    if expense.None? {
      return Absent;
    }
    if value > expense.value.amount {
      return Overdraft;
    }
    l.Store(expenseType, expense.value.(amount := expense.value.amount - value));
    return Done;
  }

  /** The effect of `update_expense` on the dictionary's value. */
  function Overwrite(d: Dict, expenseType: string, value: real): (r: (Outcome, Dict))
    ensures r.0 != Overdraft
    ensures r.0 == Absent <==> expenseType !in d.records
    ensures r.0 == Absent ==> r.1 == d
    ensures r.0 == Done ==> r.1 == Dict(d.order, d.records[expenseType := Expense(expenseType, value)])
    ensures Wellformed(d) ==> Wellformed(r.1)
    ensures NonNegative(d) && value >= 0.0 ==> NonNegative(r.1)
  {
    if expenseType !in d.records then (Absent, d)
    else (Done, Put(d, expenseType, Expense(expenseType, value)))
  }

  /** `update_expense`: replace the record of an existing type by a fresh one holding `value`. */
  method UpdateExpense(l: Ledger, expenseType: string, value: real) returns (outcome: Outcome)
    requires l.Valid()
    modifies l
    ensures l.Valid()
    ensures (outcome, l.Snapshot()) == Overwrite(old(l.Snapshot()), expenseType, value)
  {
    var expense := GetExpense(l, expenseType);
    if expense.None? {
      return Absent;
    }
    l.Store(expenseType, Expense(expenseType, value));
    return Done;
  }

  lemma {:induction false} SortByStableAll(key: SortKey, s: seq<Item>)
    ensures Sorted(key, SortBy(key, s))
    ensures forall p :: Run(key, SortBy(key, s), p) == Run(key, s, p)
  {
    SortBySorted(key, s);
    forall p ensures Run(key, SortBy(key, s), p) == Run(key, s, p) {
      SortByStable(key, s, p);
    }
  }

  /**
   * `sort_expenses`: `None` for a sort argument other than "expense_type" or
   * "amount" in any letter case; otherwise the ledger's tuples reordered,
   * ascending by type or descending by amount, ties kept in ledger order.
   */
  function SortExpenses(l: Ledger, sorting: string): (r: Option<seq<Item>>)
    reads l
    requires l.Valid()
    ensures r.None? <==> Lower(sorting) != "expense_type" && Lower(sorting) != "amount"
    ensures r.Some? ==> multiset(r.value) == multiset(Items(l.Snapshot()))
    ensures r.Some? && Lower(sorting) == "expense_type" ==>
              forall i, j :: 0 <= i < j < |r.value| ==> StrLess(r.value[i].0, r.value[j].0)
    ensures r.Some? && Lower(sorting) == "amount" ==>
              && (forall i, j :: 0 <= i < j < |r.value| ==> r.value[i].1 >= r.value[j].1)
              && (forall p :: Run(ByAmount, r.value, p) == Run(ByAmount, Items(l.Snapshot()), p))
  {
    var items := Items(l.Snapshot());
    var sortKey := Lower(sorting);
    if sortKey != "expense_type" && sortKey != "amount" then None
    else
      var key := if sortKey == "expense_type" then ByType else ByAmount;
      SortByStableAll(key, items);
      SortByPermutes(key, items);
      SortByTypeWhenChosen(key, items);
      Some(SortBy(key, items))
  }

  /** The choice of sort key ignores case: `sorting` and its lowered form sort alike. */
  lemma SortIgnoresCase(l: Ledger, sorting: string)
    requires l.Valid()
    ensures SortExpenses(l, sorting) == SortExpenses(l, Lower(sorting))
  {
    LowerIdempotent(sorting);
  }

  /** Mixed case as in `"AmOuNt"` still selects the amount order. */
  lemma MixedCaseAmount(l: Ledger)
    requires l.Valid()
    ensures SortExpenses(l, "AmOuNt").Some?
    ensures SortExpenses(l, "AmOuNt") == SortExpenses(l, "amount")
  {
    LowerMatches("AmOuNt", "amount");
    LowerMatches("amount", "amount");
  }

  /** The lines `export_expenses` writes: the ledger's entries whose key was asked for, in ledger order. */
  function Selected(items: seq<Item>, wanted: seq<string>): seq<Item>
  {
    if items == [] then []
    else
      var last := items[|items| - 1];
      Selected(items[..|items| - 1], wanted) + (if last.0 in wanted then [last] else [])
  }

  /**
   * `export_expenses`: walk the ledger and keep the requested types. The
   * result is the whole new content of the output file.
   */
  method ExportExpenses(l: Ledger, expenseTypes: seq<string>) returns (lines: seq<Item>)
    requires l.Valid()
    ensures lines == Selected(Items(l.Snapshot()), expenseTypes)
    ensures forall x :: x in lines <==> x in Items(l.Snapshot()) && x.0 in expenseTypes
  {
    ghost var items := Items(l.Snapshot());
    lines := [];
    for i := 0 to |l.order|
      invariant lines == Selected(items[..i], expenseTypes)
    {
      var key := l.order[i];
      if key in expenseTypes {
        lines := lines + [(key, l.records[key].amount)];
      }
      assert items[..i + 1][..i] == items[..i];
    }
    assert items[..|l.order|] == items;
    SelectedMembers(items, expenseTypes);
  }

  /** An exported line is exactly a ledger entry whose type was requested. */
  lemma {:induction false} SelectedMembers(items: seq<Item>, wanted: seq<string>)
    ensures forall x :: x in Selected(items, wanted) <==> x in items && x.0 in wanted
  {
    if items != [] {
      var init := items[..|items| - 1];
      SelectedMembers(init, wanted);
      assert items == init + [items[|items| - 1]];
    }
  }

  /**
   * The ledger and request of the export docstring: the code writes `rent`,
   * `coffee`, `clothes` in ledger order, not in the order of the request.
   */
  lemma ExportInLedgerOrder(items: seq<Item>, wanted: seq<string>)
    requires items == [("food", 5000.0), ("rent", 1000.0), ("coffee", 5.0), ("clothes", 58.92)]
    requires wanted == ["coffee", "clothes", "rent"]
    ensures Selected(items, wanted) == [("rent", 1000.0), ("coffee", 5.0), ("clothes", 58.92)]
    ensures Selected(items, wanted) != [("coffee", 5.0), ("clothes", 58.92), ("rent", 1000.0)]
  {
    var p1, p2, p3 := items[..1], items[..2], items[..3];
    assert p1[..0] == [] && p2[..1] == p1 && p3[..2] == p2 && items[..3] == p3;
    assert Selected(p1, wanted) == [];
    assert Selected(p2, wanted) == [("rent", 1000.0)];
    assert Selected(p3, wanted) == [("rent", 1000.0), ("coffee", 5.0)];
  }

  /** Export follows ledger order: it distributes over concatenation. */
  lemma {:induction false} SelectedAppend(a: seq<Item>, b: seq<Item>, wanted: seq<string>)
    ensures Selected(a + b, wanted) == Selected(a, wanted) + Selected(b, wanted)
  {
    if b == [] {
      assert a + b == a;
    } else {
      var init := b[..|b| - 1];
      SelectedAppend(a, init, wanted);
      assert (a + b)[..|a + b| - 1] == a + init;
      assert (a + b)[|a + b| - 1] == b[|b| - 1];
    }
  }

  /**
   * Only which types are requested matters: duplicates and the order of the
   * request change nothing.
   */
  lemma {:induction false} SelectedByRequestSet(items: seq<Item>, wanted: seq<string>, wanted': seq<string>)
    requires forall k :: k in wanted <==> k in wanted'
    ensures Selected(items, wanted) == Selected(items, wanted')
  {
    if items != [] {
      SelectedByRequestSet(items[..|items| - 1], wanted, wanted');
    }
  }

  /** One line per ledger entry at most: distinct keys stay distinct. */
  lemma {:induction false} SelectedDistinct(items: seq<Item>, wanted: seq<string>)
    requires DistinctKeys(items)
    ensures DistinctKeys(Selected(items, wanted))
  {
    if items != [] {
      var init, last := items[..|items| - 1], items[|items| - 1];
      assert DistinctKeys(init) by {
        forall i, j | 0 <= i < j < |init| ensures init[i].0 != init[j].0 {
          assert init[i] == items[i] && init[j] == items[j];
        }
      }
      SelectedDistinct(init, wanted);
      SelectedMembers(init, wanted);
      var r := Selected(items, wanted);
      var r0 := Selected(init, wanted);
      assert r == r0 + (if last.0 in wanted then [last] else []);
      forall i, j | 0 <= i < j < |r| ensures r[i].0 != r[j].0 {
        if j == |r0| {
          assert r[j] == last && r[i] == r0[i];
          assert r[i] in r0;
          var m :| 0 <= m < |init| && init[m] == r[i];
          assert items[m] == r[i];
          assert items[m].0 != items[|items| - 1].0;
        } else {
          assert r[i] == r0[i] && r[j] == r0[j];
        }
      }
    }
  }
}
