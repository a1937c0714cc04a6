# splity balance and settlement engine, in Dafny

splity is a small expense-splitting web application. Its engine, in
`logic.py`, does two things:

- `calculate_balances` turns a roster of people and a list of expenses into
  each person's net balance. A positive balance means the person should
  receive money.
- `calculate_settlements` turns a dictionary of balances into a short list
  of suggested payments, each `{from, to, amount}`.

This project models both functions on integer cents and proves what they
promise.

- `money.dfy` (module `Money`): names, cents and the dust tolerance of one
  cent (`Dust`). `Dust` stands for the literal `1`s the engine compares
  against.
- `split.dfy` (module `Split`): how one expense is divided. Every
  participant pays the floor of the even share. The left-over cents go one
  each to the first participants in list order.
- `totals.dfy` (module `Totals`): the total of the values of a map, used to
  state that balances add up to zero.
- `balances.dfy` (module `Balances`): `calculate_balances` as a method with
  the source's two nested loops. It is proved equal to a fold,
  `Balances(people, expenses)`. Each person's balance is then shown equal
  to a closed form, `Net`, and the total of all balances is computed.
- `entries.dfy` (module `Entries`): the dictionary's items in iteration
  order, the creditor and debtor lists filtered from them, and the stable
  sort that orders those lists.
- `settlements.dfy` (module `Settlements`): the two-pointer loop of
  `calculate_settlements` as a method. It writes the remainders back into
  its lists and appends to the settlement list, as the source does. The
  loop is proved equal to a recursive greedy matching, `Greedy`. The
  matching is proved to:
  - terminate;
  - pay only from debtors to creditors;
  - over-pay nobody;
  - settle one side to within the dust;
  - use a bounded number of payments;
  - go largest first.

Two places where the code and the project's own description of its
behaviour part ways; the model follows the code:

- **Order of the worked example.** For `{A: 30, B: -10, C: -20}` the
  description lists `B → A` first. The code sorts debtors from the most
  negative up, so `C → A 20` comes first, then `B → A 10`. This is proved
  as `Settlements.LargestDebtorPaysFirst`.
- **"Everyone ends within one cent."** This does not hold in general. For
  `{A: 1, B: 1, C: 1, D: -3}`, nobody is a creditor (1 is not above the
  tolerance), so no payment is suggested and D stays at -3. What holds, and
  is proved, is weaker (the example itself is
  `Settlements.DustCreditorsGetNothing`):
  - every creditor, or every debtor, ends within the tolerance
    (`Settlements.PlanSettlesOneSide`);
  - nobody pays or receives more than their balance
    (`Settlements.PlanBounded`).

## Model

| member | source | states |
|---|---|---|
| `Split.Remainder` | logic.py:26-27 | the left-over cents `amount - (amount // n) * n` lie in `0 .. n-1` |
| `Split.Share` | logic.py:30 | the definition of the share at position `i`: `per`, plus one cent when `i < remainder` (its properties are `Split.SplitIsFair` and `Split.SplitIsExact`) |
| `Split.SharesUpToIs` | logic.py:29-30 | the first `k` shares add up to `k` even shares plus one cent for each of them among the first `remainder` positions |
| `Split.SplitIsExact` | logic.py:25-31 | the shares of all `n` participants add up to exactly the amount |
| `Split.SplitIsFair` | logic.py:29-30 | every share is the even share or one cent more; exactly the first `remainder` positions get the extra cent; shares never grow along the list and differ by at most one cent |
| `Split.SplitHundredAmongThree` | logic.py:25-31 | 100 cents among three participants gives 34, 33, 33 |
| `Balances.KnownParticipants` | logic.py:16 | the kept participants are exactly the listed ones who are known, and never more than were listed |
| `Balances.KnownParticipantsAppend` | logic.py:16 | the filter of a concatenation is the concatenation of the filters: the kept participants keep the listed order and every repetition |
| `Balances.AllKnownKept` | logic.py:16 | when every listed participant is known, the list is kept exactly as it is, so the `remainder` extra cents go to the first listed participants |
| `Balances.Credited` | logic.py:21-23 | crediting keeps the set of people (the effect on the total, and that an unknown payer is credited nothing, is `Balances.CreditedTotal`) |
| `Balances.Debited` | logic.py:29-31 | debiting the shares keeps the set of people |
| `Balances.ApplyExpense` | logic.py:15-31 | processing one expense keeps the set of people |
| `Balances.Apply` | logic.py:15-31 | the outer loop as a fold over the expenses in order; it keeps the set of people |
| `Balances.Balances` | logic.py:13-33 | the result has an entry for exactly the people of the roster and for nobody else |
| `Balances.CalculateBalances` | logic.py:11-33 | the method with its nested loops computes the fold `Balances(people, expenses)`: everyone starts at zero, and every expense is skipped or applied in order |
| `Balances.DebitShares` | logic.py:25-31 | the inner loop debits every participant, in list order, their share `per + (1 if i < remainder else 0)` |
| `Balances.DebitedAt` | logic.py:29-31 | after the inner loop a person's balance has dropped by the shares at the positions where they are listed |
| `Balances.ApplyExpenseAt` | logic.py:15-31 | one expense moves a person's balance by the amount if they paid it, minus their shares |
| `Balances.BalanceIsNet` | logic.py:13-31 | a person's balance is the amount they paid for processed expenses minus their shares, summed over all expenses |
| `Balances.UninvolvedStaysZero` | logic.py:13-31 | a person who neither paid for nor took part in any processed expense ends at zero; having paid for skipped expenses does not matter |
| `Balances.DroppedExpenseHasNoEffect` | logic.py:16-18 | an expense none of whose participants is known leaves every balance unchanged, the payer's included, wherever it stands in the list |
| `Balances.CreditedTotal` | logic.py:22-23 | crediting a known payer raises the total of all balances by the amount; crediting an unknown payer changes nothing |
| `Balances.DebitedTotal` | logic.py:29-31 | debiting the first `k` shares lowers the total by exactly those shares |
| `Balances.ApplyExpenseTotal` | logic.py:15-31 | a processed expense keeps the total of all balances when its payer is known, and lowers it by the amount when the payer is unknown |
| `Balances.BalancesTotal` | logic.py:13-31 | the balances total minus the amounts of the processed expenses whose payer is unknown |
| `Balances.ZeroSum` | logic.py:13-31 | when every payer is known the balances add up to exactly zero |
| `Balances.SharedEvenlyEffects` | logic.py:22-31 | 3000 cents paid by A and shared by A, B and C moves A by +2000 and B and C by -1000 each |
| `Balances.PayerCreditedOnce` | logic.py:11-33 | for that expense the balances are A +2000, B -1000, C -1000: the payer is credited the whole amount and also pays a share |
| `Entries.Items` | logic.py:36 | the dictionary's items in iteration order: as many as keys, the item at position `k` being the `k`-th key with its balance, and any entry is an item exactly when it names a key with its balance |
| `Entries.ItemsDistinct` | logic.py:36 | no name occurs twice among the items |
| `Entries.Creditors` | logic.py:37 | exactly the items above the tolerance; their names are among the items' names, and distinct when those are |
| `Entries.Debtors` | logic.py:38 | exactly the items below minus the tolerance; their names are among the items' names, and distinct when those are |
| `Entries.Insert` | logic.py:40-41 | the definition of inserting an entry before the first entry whose key is not larger (its properties are the `Entries.Sort*` rows) |
| `Entries.Sort` | logic.py:40-41 | the definition of the stable sort by amount, descending for creditors and ascending for debtors (its properties are `SortOrders`, `SortPermutes`, `SortIsStable`, `SortKeepsNames` and `SortKeepsEntries`) |
| `Entries.SortOrders` | logic.py:40-41 | the sort orders by amount, descending or ascending |
| `Entries.SortPermutes` | logic.py:40-41 | the sort is a permutation of its input |
| `Entries.SortIsStable` | logic.py:40-41 | entries with equal amounts keep their input order |
| `Entries.SortKeepsNames` | logic.py:40-41 | the sort keeps the set of names, and keeps them distinct |
| `Entries.SortKeepsEntries` | logic.py:40-41 | the sort keeps every entry and the length of its list |
| `Settlements.Amount` | logic.py:49 | the definition of `amt = min(ca, -da)` |
| `Settlements.AfterCredit` | logic.py:57-61 | the definition of the creditors left to serve: the head is passed over at most one cent from zero, or else stays with its remainder |
| `Settlements.AfterDebit` | logic.py:58-64 | the definition of the debtors left to serve, the same way |
| `Settlements.Greedy` | logic.py:45-64 | the definition of the matching: no payment once either list is empty, otherwise one pass (`Pay`); its properties are the `Settlements.Greedy*` rows |
| `Settlements.StepProgresses` | logic.py:57-64 | every pass moves past the creditor or the debtor or both, and never lengthens either list |
| `Settlements.StepReady` | logic.py:45-64 | while the current creditor is above the tolerance and the current debtor below minus the tolerance, the amount settled is above the tolerance, so the guard always records; this state is kept by the step |
| `Settlements.Pay` | logic.py:46-64 | the definition of one pass of the matching: the head debtor pays the head creditor `Amount`, recorded only above the tolerance, and the matching goes on with `AfterCredit` and `AfterDebit` of the lists |
| `Settlements.CreditorStep` | logic.py:57-61 | one pass pays the current creditor `amt` and nobody else; a creditor passed over has at most the tolerance left and receives nothing more |
| `Settlements.DebtorStep` | logic.py:57-64 | one pass takes `amt` from the current debtor and nobody else; a debtor passed over has at most the tolerance left and pays nothing more |
| `Settlements.GreedyParties` | logic.py:50-55 | every payment goes from a listed debtor to a listed creditor and is above the tolerance |
| `Settlements.GreedyCount` | logic.py:45-64 | with `m` creditors and `n` debtors there are no payments if either list is empty, and otherwise between min(m, n) and m + n - 1 |
| `Settlements.GreedyBounded` | logic.py:49-64 | a creditor receives at least nothing and at most its amount and pays nothing; a debtor pays at least nothing and at most its debt and receives nothing |
| `Settlements.GreedySettlesOneSide` | logic.py:45-64 | when the loop stops, every creditor or every debtor is within the tolerance of zero |
| `Settlements.CreditKeepsOrder` | logic.py:60-61 | writing a remainder back or moving past the head keeps the creditors in descending order of starting balance |
| `Settlements.DebitKeepsOrder` | logic.py:63-64 | the same for the debtors in ascending order |
| `Settlements.HeadIsSmallest` | logic.py:41 | the current debtor has the most negative starting balance of those left |
| `Settlements.HeadIsLargest` | logic.py:40 | the current creditor has the largest starting balance of those left |
| `Settlements.GreedyOrder` | logic.py:40-64 | payments come in order of payee from the largest starting balance down, and of payer from the most negative up |
| `Settlements.CreditWriteBack` | logic.py:57-61 | `creditors[i] = (cp, ca)`, or `i += 1`, leaves exactly the creditors still to serve |
| `Settlements.DebitWriteBack` | logic.py:58-64 | `debtors[j] = (dp, da)`, or `j += 1`, leaves exactly the debtors still to serve |
| `Settlements.Advance` | logic.py:46-64 | one pass of the loop keeps "recorded so far, then the greedy plan for the suffixes still to serve" equal to the whole plan |
| `Settlements.Loop` | logic.py:45-66 | the definition of the loop run to the end from a state `(creditors, i, debtors, j, settlements)`, one pass per call; it is the invariant of `Settle` and is tied to `Greedy` by `LoopIsGreedy` |
| `Settlements.LoopIsGreedy` | logic.py:45-66 | the loop run from any state returns what is recorded already followed by the greedy plan for the suffixes still to serve |
| `Settlements.Settle` | logic.py:43-66 | the two-pointer loop, with its write-backs and appends, returns exactly `Greedy` of the sorted creditors and debtors |
| `Settlements.CalculateSettlements` | logic.py:35-66 | the whole function returns `Plan(balances, order)`: items in iteration order, filtered, sorted, then matched |
| `Settlements.Plan` | logic.py:35-66 | the definition of the planner on a dictionary: items in iteration order, the two filters, the two sorts, then `Greedy`; its properties are the `Settlements.Plan*` rows |
| `Settlements.SortedCreditors` | logic.py:37-40 | the sorted creditor list holds exactly the people above the tolerance with their balances, once each, largest balance first |
| `Settlements.SortedDebtors` | logic.py:38-41 | the sorted debtor list holds exactly the people below minus the tolerance with their balances, once each, most negative first |
| `Settlements.SidesDisjoint` | logic.py:37-38 | nobody is both a creditor and a debtor |
| `Settlements.PlanReady` | logic.py:37-41 | the sorted lists meet `Ready`: right signs, no name twice, no name on both sides |
| `Settlements.PlanParties` | logic.py:37-55 | every `to` started above the tolerance, every `from` started below minus it, `from` and `to` differ, and the amount is above the tolerance |
| `Settlements.PlanBounded` | logic.py:35-66 | no creditor receives more than its balance, no debtor pays more than its debt, and people within the tolerance or not in the dictionary take no part |
| `Settlements.PlanSettlesOneSide` | logic.py:45-66 | after the payments every creditor, or every debtor, is within the tolerance of zero |
| `Settlements.PlanCount` | logic.py:45-66 | no payments without creditors or without debtors; otherwise between min(m, n) and m + n - 1 payments |
| `Settlements.PlanOrder` | logic.py:40-66 | payments are listed from the largest creditor down and the most indebted debtor up |
| `Settlements.ExampleItems` | logic.py:36 | the items of `{A: 3000, B: -1000, C: -2000}` iterated as A, B, C |
| `Settlements.ExampleSides` | logic.py:37-41 | their sorted creditors are `[A]` and their sorted debtors `[C, B]` |
| `Settlements.ExampleGreedy` | logic.py:45-64 | creditor A owed 3000 against debtors C owing 2000 and B owing 1000 gives `C → A 2000`, then `B → A 1000` |
| `Settlements.LargestDebtorPaysFirst` | logic.py:35-66 | `{A: 3000, B: -1000, C: -2000}` settles as `C → A 2000`, then `B → A 1000` |
| `Settlements.NoCreditorNoPlan` | logic.py:37-45 | when nobody's balance exceeds one cent there is no creditor, the loop does not run, and no payment is suggested |
| `Settlements.DustCreditorsGetNothing` | logic.py:37-45 | `{A: 1, B: 1, C: 1, D: -3}` gets no payment, and D still owes 3 cents |

## Left out

- Floating point and decimal conversions are left out. This covers
  `_to_cents`, `_from_cents`, the `round(..., 2)` on results and the
  `Decimal(str(x))` re-parse. Amounts come in whole cents, and results are
  in cents.
- The returned balances are in cents, not as the `round(_from_cents(c), 2)`
  floats the source returns. The same goes for settlement amounts.
- An expense is reduced to its amount, payer and participant list. An
  expense with no `participants` key is an expense with an empty list. Its
  description and date play no part in either function.
- Python's dictionary iteration order is the explicit `order` argument of
  `CalculateSettlements`. It lists every key exactly once
  (`IterationOrder`).
- `Entries.Sort`: Python's `list.sort` is library code. It is modelled as
  a stable insertion sort on values, which leaves equal balances in
  iteration order as `list.sort` does. The sorting algorithm itself and its
  in-place update of the list are not modelled.
- `Balances.DebitShares`: the inner loop over the participants is its own
  method, called from `CalculateBalances`, rather than written inline.
- `Settlements.Settle`: the loop of `calculate_settlements` is its own
  method, called by `CalculateSettlements` after the sorts. Its lists are
  the method's local sequences, updated by index, and not aliased Python
  lists.
- The web application (`app.py`), the database models (`models.py`) and
  the configuration are not part of this model.
