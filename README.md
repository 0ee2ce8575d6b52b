# Expense ledger: a verified model

This project models the core of a small expense-tracking program. The
program keeps a dictionary from a case-sensitive expense type (such as
`"coffee"`) to an `Expense` record holding that type and its running total.
Two stateless classes work on a dictionary that the caller owns:

- `ExpensesLoader.import_expenses` folds the `type: amount` lines of a text
  file into the dictionary. Blank lines, lines without exactly one colon, and
  lines whose amount does not parse are skipped, and repeated types add up.
- `ExpensesManager` looks a type up, adds to a total, deducts from a total
  (refusing to overdraw), overwrites a total, sorts the entries, and exports
  the entries of chosen types.

The Dafny modules follow the program's structure:

| module | file | models |
|---|---|---|
| `ExpenseLedger` | `ledger.dfy` | the `Expense` record; the dictionary as a value (`Dict`) and as the caller-owned mutable object (`Ledger`); `d[k] = e`; the add-or-create merge that both classes perform |
| `Text` | `text.dfy` | `str.strip()`, `str.split(':')`, `str.lower()` and Python's `<` on `str` |
| `StableSort` | `sorting.dfy` | `list.sort(key=…)` and `list.sort(key=…, reverse=True)` on `(type, amount)` tuples |
| `ExpensesManager` | `manager.dfy` | the six manager operations |
| `ExpensesLoader` | `loader.dfy` | `float()` on the decimal notation, the per-line parse, and the import loop |
| `Wrappers` | `wrappers.dfy` | `Option` |

The methods that change the ledger (`AddExpense`, `DeductExpense`,
`UpdateExpense`, `ImportExpenses` and its loop body) are proved against value
functions (`Accumulate`, `Deduct`, `Overwrite`, `ImportAll`): each method's
postcondition says the new ledger equals the function applied to the old
one. The lemmas about those functions then carry the program's promises.

I/O is turned into parameters and results. `ImportExpenses` takes the file's
lines as a sequence of strings. `ExportExpenses` returns `(type, amount)`
pairs, one per line the file would get, and these pairs are the file's whole
new content (the source opens the file in `"w"` mode). Printed messages are
not modelled. A raised `RuntimeError` and a "does not exist" notice become
the `Outcome` values `Overdraft` and `Absent`.

Points where the code's behaviour is easy to misread; the model follows the code:

- A data line is split with `split(":")` and kept only when this yields
  exactly two parts, so a line with two colons is skipped as a whole
  (`ParseLineNeedsOneColon`). It is not split at its first colon.
- The code does not check that the type is non-empty, although callers are
  told they may assume one-word types (ExpensesLoader.py:21). The line
  `":5"` adds 5 to the type `""`.
- Sorting uses one key and Python's stable sort. Ties therefore keep the
  dictionary's insertion order: equal amounts are not ordered further by
  type.
- The one real difference between a docstring and the code: the export
  docstring (ExpensesManager.py:148-151) lists `coffee`,
  `clothes`, `rent` for the request `['coffee', 'clothes', 'rent']`. The code
  walks the dictionary, so it writes `rent`, `coffee`, `clothes`: ledger
  order, not request order (`ExportInLedgerOrder`, `SelectedAppend`,
  `SelectedByRequestSet`). The
  test at expenses_test.py:141-148 agrees with both orders.

## Model

| member | source | states |
|---|---|---|
| `ExpenseLedger.Put` | ExpensesManager.py:47 | `d[k] = e` stores `e` under `k`, keeps an existing key's position in the iteration order, appends a new key last, and keeps the dictionary invariant when `e` is filed under its own type |
| `ExpenseLedger.Accumulate` | ExpensesManager.py:43-47 | adding `value` to a type: the keys gain exactly that type; an existing record's amount grows by `value` and a new record holds `value`; every other record is unchanged; the order is kept or the new type is appended; the invariant is kept, and non-negative totals stay non-negative for `value >= 0` |
| `ExpenseLedger.Items` | ExpensesManager.py:123 | `expenses.items()` as tuples: one per key, in insertion order, each with the record's amount, with no expense type repeated |
| `ExpenseLedger.Ledger.constructor` | expenses_test.py:20 | `expenses = {}`: an empty dictionary that satisfies the invariant |
| `ExpenseLedger.Ledger.Store` | ExpensesManager.py:102 | the in-place `expenses[k] = e`: the new value of the ledger is `Put` of the old one |
| `Text.TrimStart` | ExpensesLoader.py:46 | the result is a suffix of the input, everything dropped is whitespace, and the result does not start with whitespace |
| `Text.TrimEnd` | ExpensesLoader.py:46 | the result is a prefix of the input, everything dropped is whitespace, and the result does not end with whitespace |
| `Text.Strip` | ExpensesLoader.py:46 | the stripped string neither starts nor ends with whitespace |
| `Text.StripSlice` | ExpensesLoader.py:46 | `strip()` keeps one contiguous slice and drops only whitespace on either side of it |
| `Text.StripIdempotent` | ExpensesLoader.py:46 | stripping twice is stripping once |
| `Text.StripKeepsCount` | ExpensesLoader.py:46-50 | stripping keeps every non-whitespace character, so the line keeps its number of colons |
| `Text.CountIn` | ExpensesLoader.py:49-50 | a character occurs in a string exactly when its count there is positive |
| `Text.Split` | ExpensesLoader.py:49 | `split(':')` yields one more piece than there are colons, and no piece holds a colon |
| `Text.JoinSplit` | ExpensesLoader.py:49-52 | joining the pieces of `split(sep)` with `sep` gives back the string |
| `Text.SplitJoin` | ExpensesLoader.py:49-52 | pieces without a separator are recovered exactly by splitting their join |
| `Text.Lower` | ExpensesManager.py:126 | `sorting.lower()` keeps the length and lowers each ASCII capital, keeping every other character (its partners are `LowerMatches` and `LowerIdempotent`) |
| `Text.LowerMatches` | ExpensesManager.py:126 | against a target of lower-case letters and `_`, such as `"expense_type"` or `"amount"`, the lowered string matches exactly when it has the target's length and each character is the target's or that letter's capital |
| `Text.LowerIdempotent` | ExpensesManager.py:126 | lowering an already lowered string changes nothing |
| `Text.IsSpace` | ExpensesLoader.py:46 | the characters `strip()` removes; no contract of its own, its meaning is carried by `TrimStart`, `TrimEnd`, `StripSlice` and `StripKeepsCount` |
| `Text.StrLess` | ExpensesManager.py:131 | Python's `<` on `str`; no contract of its own, it is proved a strict total order by `StrLessIrreflexive`, `StrLessTransitive`, `StrLessTotal` and `StrLessAsymmetric` |
| `Text.StrLessIrreflexive` | ExpensesManager.py:131 | no string sorts before itself |
| `Text.StrLessTransitive` | ExpensesManager.py:131 | the string order is transitive |
| `Text.StrLessTotal` | ExpensesManager.py:131 | of two distinct strings, one sorts before the other |
| `Text.StrLessAsymmetric` | ExpensesManager.py:131 | two strings never sort before each other |
| `StableSort.BeforeIrreflexive` | ExpensesManager.py:131-133 | no tuple sorts strictly before itself, by either key |
| `StableSort.BeforeTransitive` | ExpensesManager.py:131-133 | the strict order of each key is transitive |
| `StableSort.NotBeforeIsSameOrAfter` | ExpensesManager.py:131-133 | two tuples not strictly ordered one way are ordered the other way or tie |
| `StableSort.RunAppend` | ExpensesManager.py:131-133 | the tuples tied with a given one, taken from a concatenation, are those of each part in turn |
| `StableSort.Insert` | ExpensesManager.py:131-133 | one step of the stable sort, placing a tuple after every tuple it ties with; no contract of its own, its properties are `InsertPermutes`, `InsertSorted` and `InsertRun` |
| `StableSort.SortBy` | ExpensesManager.py:131-133 | `list.sort` with the type key ascending or the amount key with `reverse=True`; no contract of its own, its properties are `SortByPermutes`, `SortBySorted`, `SortByStable` and `SortByTypeStrict` |
| `StableSort.InsertPermutes` | ExpensesManager.py:131-133 | insertion adds exactly the new tuple and loses nothing |
| `StableSort.SortByPermutes` | ExpensesManager.py:131-133 | the sort is a permutation of its input |
| `StableSort.InsertSorted` | ExpensesManager.py:131-133 | inserting into a sorted list keeps it sorted |
| `StableSort.SortBySorted` | ExpensesManager.py:131-133 | the result is sorted: no later tuple belongs strictly before an earlier one |
| `StableSort.InsertRun` | ExpensesManager.py:131-133 | an inserted tuple goes after every tuple it ties with |
| `StableSort.SortByStable` | ExpensesManager.py:131-133 | stability: for any key value, the tuples with that key keep their relative input order |
| `StableSort.RunAtMostOne` | ExpensesManager.py:123 | with distinct expense types, no type is shared by two tuples |
| `StableSort.SortByTypeStrict` | ExpensesManager.py:130-131 | sorting tuples with distinct types by type yields strictly ascending types |
| `ExpensesManager.GetExpense` | ExpensesManager.py:22-28 | returns a record exactly when the type is present, and then the record filed under it, which carries that type |
| `ExpensesManager.AddExpense` | ExpensesManager.py:43-47 | the in-place add: the ledger becomes `Accumulate` of the old one, the record of the type holds old amount plus `value` (or `value` when new), and the invariant holds |
| `ExpensesManager.Deduct` | ExpensesManager.py:69-81 | `Absent` exactly when the type is missing; `Overdraft` exactly when present and `value` exceeds its amount; in both cases nothing changes; otherwise only that record's amount drops by `value`, the order is unchanged and the new amount is non-negative; invariant and non-negativity are kept |
| `ExpensesManager.DeductExpense` | ExpensesManager.py:69-82 | the in-place deduction: its outcome and the new ledger are those of `Deduct` on the old ledger |
| `ExpensesManager.Overwrite` | ExpensesManager.py:98-102 | never `Overdraft`; `Absent` exactly when the type is missing, and then nothing changes; otherwise the record is replaced by a fresh `Expense(type, value)` in the same position; invariant kept, and non-negativity for `value >= 0` |
| `ExpensesManager.UpdateExpense` | ExpensesManager.py:98-103 | the in-place update: outcome and new ledger are those of `Overwrite` on the old ledger |
| `ExpensesManager.SortByStableAll` | ExpensesManager.py:131-133 | the sort is sorted and stable for every key value |
| `ExpensesManager.SortExpenses` | ExpensesManager.py:123-135 | `None` exactly when the lowered argument is neither `"expense_type"` nor `"amount"`; otherwise a permutation of the ledger's tuples; by type, the types strictly ascend; by amount, the amounts never increase and the tuples of each amount keep ledger order |
| `ExpensesManager.SortIgnoresCase` | ExpensesManager.py:126-133 | the result depends on the argument only through its lowered form |
| `ExpensesManager.MixedCaseAmount` | ExpensesManager.py:126-133 | the argument `"AmOuNt"` is accepted and sorts exactly as `"amount"` does |
| `ExpensesManager.Selected` | ExpensesManager.py:172-173 | the entries the export writes; no contract of its own, its properties are `SelectedMembers`, `SelectedAppend`, `SelectedByRequestSet` and `SelectedDistinct` |
| `ExpensesManager.ExportExpenses` | ExpensesManager.py:171-174 | the exported lines are the ledger's tuples whose type was requested, in ledger order; a tuple is exported exactly when it is in the ledger and its type was requested |
| `ExpensesManager.SelectedMembers` | ExpensesManager.py:172-173 | a tuple is exported exactly when it is a ledger entry of a requested type, so requested types that are missing (`'loans'`) are skipped |
| `ExpensesManager.ExportInLedgerOrder` | ExpensesManager.py:146-149 | for the docstring's ledger `food`, `rent`, `coffee`, `clothes` and the request `['coffee', 'clothes', 'rent']`, the code writes `rent`, `coffee`, `clothes`, not the docstring's `coffee`, `clothes`, `rent` |
| `ExpensesManager.SelectedAppend` | ExpensesManager.py:172 | export follows ledger order: it distributes over concatenation of the ledger's entries |
| `ExpensesManager.SelectedByRequestSet` | ExpensesManager.py:160-161 | duplicates and the order of requested types make no difference, so no request is written twice |
| `ExpensesManager.SelectedDistinct` | ExpensesManager.py:172-174 | each ledger entry is exported at most once |
| `ExpensesLoader.IndexOfAny` | ExpensesLoader.py:55 | where `float()` finds the decimal point or the exponent mark: `None` exactly when no mark occurs, otherwise the first position holding one |
| `ExpensesLoader.ParseAmount` | ExpensesLoader.py:55 | `float()` on a stripped string, an optional sign before the magnitude; no contract of its own, its properties are `ParseUnsigned`, `ParseNegated`, `ParseWholeNumber`, `ParseDecimalDigits` and `ParseDecimalNumber` |
| `ExpensesLoader.ParseMagnitude` | ExpensesLoader.py:55 | the unsigned number: a mantissa scaled by an optional exponent; its properties are `MagnitudeWithoutExponent`, `MagnitudeWithExponent`, `ParseWithExponent` and the `ParseAmount` lemmas |
| `ExpensesLoader.ParseMantissa` | ExpensesLoader.py:55 | digits with an optional point; its property is `MantissaWithPoint` |
| `ExpensesLoader.ParseExponent` | ExpensesLoader.py:55 | the optionally signed digits after `e` or `E`; its property is `ExponentDigits` |
| `ExpensesLoader.MantissaWhole` | ExpensesLoader.py:55 | a run of digits without a point is a mantissa with no fraction digits |
| `ExpensesLoader.MagnitudeWithExponent` | ExpensesLoader.py:55 | a run of digits, then `e` or `E`, then an exponent that reads as `x`, is that number times ten to the power `x` |
| `ExpensesLoader.ExponentDigits` | ExpensesLoader.py:55 | the digits of `n`, bare or after `-` or `+`, read as the exponent `n`, `-n` or `n` |
| `ExpensesLoader.ParseWithExponent` | ExpensesLoader.py:55 | `float(str(m) + mark + e)`, for the mark `e` or `E` and any exponent `e` that reads as `x`, is `m` times ten to the power `x` |
| `ExpensesLoader.ParseScientific` | ExpensesLoader.py:55 | `float(str(m) + "e" + str(n))` is `m * 10^n` and `float(str(m) + "e-" + str(n))` is `m / 10^n` |
| `ExpensesLoader.ParseNegated` | ExpensesLoader.py:55 | `float("-" + s)` is the negation of the unsigned number `s`, and fails when that fails |
| `ExpensesLoader.ParseWholeNumber` | ExpensesLoader.py:55 | `float(str(n)) == n` and `float("-" + str(n)) == -n` for every natural `n` |
| `ExpensesLoader.ParseDecimalDigits` | ExpensesLoader.py:55 | `float("ws.fs")` reads all the digits as one number and moves the point left by the number of fraction digits |
| `ExpensesLoader.ScaledDigits` | ExpensesLoader.py:55 | moving that point gives the whole part plus the fraction digits over the matching power of ten |
| `ExpensesLoader.ParseDecimalNumber` | ExpensesLoader.py:55 | `float(str(w) + "." + str(f))` is `w + f / 10^len(str(f))` |
| `ExpensesLoader.ParseLine` | ExpensesLoader.py:46-57 | one line of the file, skipped or parsed; no contract of its own, its properties are `ParseLineNeedsOneColon`, `ParseLineAccepts` and `ParseLineSound` |
| `ExpensesLoader.ParseLineNeedsOneColon` | ExpensesLoader.py:46-51 | a line whose colon count is not one is skipped |
| `ExpensesLoader.ParseLineNoColon` | ExpensesLoader.py:49-51 | a line without a colon is skipped |
| `ExpensesLoader.ParseLineAccepts` | ExpensesLoader.py:46-57 | a line that strips to `left:right` with no other colon yields the stripped `left` and `float` of the stripped `right`, and is skipped when that parse fails |
| `ExpensesLoader.ParseLineSound` | ExpensesLoader.py:46-57 | every accepted line has that shape, with type and amount taken from its two sides |
| `ExpensesLoader.Merge` | ExpensesLoader.py:58-61 | one parsed line folded into the dictionary, through `Accumulate`, whose contract states the result |
| `ExpensesLoader.MergeAll` | ExpensesLoader.py:45-61 | the parsed lines folded in file order; its properties are `MergeAllWellformed`, `MergeAllTotals`, `MergeAllOrder` and `MergeAllConcat` |
| `ExpensesLoader.ImportAll` | ExpensesLoader.py:45-61 | the dictionary after the whole import; its properties are `ImportAllWellformed`, `ImportAllTotals` and `TwoImportsAccumulate` |
| `ExpensesLoader.MergeAllWellformed` | ExpensesLoader.py:58-61 | merging parsed lines keeps the dictionary invariant |
| `ExpensesLoader.MergeAllTotals` | ExpensesLoader.py:58-61 | after merging, a type is present exactly when it was before or some accepted line names it, and its total is its prior total plus the sum of its accepted amounts |
| `ExpensesLoader.MergeAllOrder` | ExpensesLoader.py:58-61 | merging never moves existing types: the old order is a prefix of the new one |
| `ExpensesLoader.FirstSeen` | ExpensesLoader.py:58-61 | the order in which an import creates types: each new accepted type once, at its first accepted line; its property is `MergeAllOrderExact` |
| `ExpensesLoader.MergeAllOrderExact` | ExpensesLoader.py:58-61 | the order after merging is exactly the old order followed by the new types, in the order of their first accepted line |
| `ExpensesLoader.MergeAllConcat` | ExpensesLoader.py:28-29 | merging two batches in turn equals merging their concatenation |
| `ExpensesLoader.TotalConcat` | ExpensesLoader.py:15-16 | a type's sum over two batches is the sum of its two sums |
| `ExpensesLoader.ImportAllWellformed` | ExpensesLoader.py:45-61 | importing into a well-formed dictionary leaves it well-formed |
| `ExpensesLoader.ImportAllTotals` | ExpensesLoader.py:15-16 | importing adds to each type's total the sum of its accepted amounts, creates exactly the types named by accepted lines, and keeps the old types in place |
| `ExpensesLoader.TwoImportsAccumulate` | expenses_test.py:27-33 | importing one file and then another equals importing their lines together, so the second import adds to the first one's totals |
| `ExpensesLoader.MergeEntry` | ExpensesLoader.py:58-61 | the in-place merge step: the ledger becomes `Accumulate` of the old one |
| `ExpensesLoader.ImportLine` | ExpensesLoader.py:46-61 | one pass of the loop: a skipped line changes nothing, an accepted one is merged |
| `ExpensesLoader.ImportExpenses` | ExpensesLoader.py:43-61 | the whole import: the new ledger is `ImportAll` of the old one and the file's lines, and the invariant holds |

## Left out

- File I/O: opening, reading and writing files is replaced by a sequence of lines in and a sequence of `(type, amount)` pairs out.
- Printed messages (the notices, the printed `Expense` objects, "Invalid sort type") are not modelled; `Expense.py` and its `__str__` are not part of this model.
- The `:.2f` formatting of exported amounts is not modelled; the pairs carry the exact amount.
- Floating point: amounts are exact reals, not IEEE doubles, so rounding in `+=`, `-=` and in `float()` is not modelled (the tests compare with `assertAlmostEqual`).
- `ExpensesLoader.ParseAmount`: accepts an optional sign, digits with an optional point, and an optional exponent; `float()`'s other spellings (`inf`, `nan`, digit-group underscores, non-ASCII digits) are rejected here.
- `Text.Lower`: lowers ASCII capitals only; since no other character lowers to a letter of `"expense_type"` or `"amount"` as a single character, the choice of sort key is the same as Python's.
- `ExpensesManager.AddExpense`: takes every `Expense` object to be truthy, which `if expense:` at ExpensesManager.py:44 relies on; `Expense.py` is not part of this model, so a `__bool__` or `__len__` there that could make a record falsy is not modelled.
- Object identity: records are values, so the sharing of one `Expense` object between the dictionary and a caller that kept a reference to it is not modelled.
- Concurrency is not modelled: the source has none.
