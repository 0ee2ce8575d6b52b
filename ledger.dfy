/**
 * The expenses dictionary shared by the loader and the manager: a Python
 * `dict` from a case-sensitive expense type to an `Expense` record, iterated
 * in insertion order.
 */
module ExpenseLedger {

  /** One category's running total (the `Expense` class: its two fields). */
  datatype Expense = Expense(expenseType: string, amount: real)

  /** The `(expense_type, amount)` tuple that sorting and exporting produce. */
  type Item = (string, real)

  /**
   * The value of the dictionary: its keys in insertion order and the record
   * stored under each key.
   */
  datatype Dict = Dict(order: seq<string>, records: map<string, Expense>)

  /** The dictionary invariant: one record per key, and every record is filed under its own expense type. */
  predicate Wellformed(d: Dict)
  {
    && (forall i, j :: 0 <= i < j < |d.order| ==> d.order[i] != d.order[j])
    && (forall k :: k in d.records ==> k in d.order)
    && (forall i :: 0 <= i < |d.order| ==> d.order[i] in d.records)
    && (forall k :: k in d.records ==> d.records[k].expenseType == k)
  }

  /** Every total is non-negative (the intended state between operations). */
  predicate NonNegative(d: Dict)
  {
    forall k :: k in d.records ==> d.records[k].amount >= 0.0
  }

  /** `d[k] = e`: an existing key keeps its place, a new key goes last. */
  function Put(d: Dict, k: string, e: Expense): (r: Dict)
    ensures r.records == d.records[k := e]
    ensures r.order == if k in d.records then d.order else d.order + [k]
    ensures Wellformed(d) && e.expenseType == k ==> Wellformed(r)
  {
    if k in d.records then Dict(d.order, d.records[k := e])
    else Dict(d.order + [k], d.records[k := e])
  }

  /**
   * Add `value` to the total of `expenseType`, creating the record when the
   * type is new; this is both `add_expense` and the loader's merge step.
   */
  function Accumulate(d: Dict, expenseType: string, value: real): (r: Dict)
    ensures r.records.Keys == d.records.Keys + {expenseType}
    ensures expenseType in d.records ==>
              r.records[expenseType] == d.records[expenseType].(amount := d.records[expenseType].amount + value)
    ensures expenseType !in d.records ==> r.records[expenseType] == Expense(expenseType, value)
    ensures forall k :: k in d.records && k != expenseType ==> r.records[k] == d.records[k]
    ensures r.order == if expenseType in d.records then d.order else d.order + [expenseType]
    ensures Wellformed(d) ==> Wellformed(r)
    ensures NonNegative(d) && value >= 0.0 ==> NonNegative(r)
  {
    if expenseType in d.records then
      var e := d.records[expenseType];
      Put(d, expenseType, e.(amount := e.amount + value))
    else
      Put(d, expenseType, Expense(expenseType, value))
  }

  /** No two items share an expense type. */
  predicate DistinctKeys(s: seq<Item>)
  {
    forall i, j :: 0 <= i < j < |s| ==> s[i].0 != s[j].0
  }

  /** `expenses.items()` as `(expense_type, amount)` tuples, in insertion order. */
  function Items(d: Dict): (r: seq<Item>)
    requires Wellformed(d)
    ensures |r| == |d.order|
    ensures forall i :: 0 <= i < |r| ==>
              r[i].0 == d.order[i] && r[i].1 == d.records[d.order[i]].amount
    ensures DistinctKeys(r)
  {
    seq(|d.order|, i requires 0 <= i < |d.order| =>
      (d.records[d.order[i]].expenseType, d.records[d.order[i]].amount))
  }

  /** The caller-owned dictionary, which every operation updates in place. */
  class Ledger {
    var order: seq<string>
    var records: map<string, Expense>

    /** `expenses = {}` */
    constructor ()
      ensures order == [] && records == map[]
      ensures Valid()
    {
      order := [];
      records := map[];
    }

    function Snapshot(): Dict
      reads this
    {
      Dict(order, records)
    }

    ghost predicate Valid()
      reads this
    {
      Wellformed(Snapshot())
    }

    /** `self[k] = e` */
    method Store(k: string, e: Expense)
      modifies this
      ensures Snapshot() == Put(old(Snapshot()), k, e)
    {
      if k !in records {
        order := order + [k];
      }
      records := records[k := e];
    }
  }
}
