/** The balance calculator: each known person's net balance in cents,
    positive when the person should receive money. */
module Balances {
  import opened Money
  import Split
  import Totals

  /** An expense record with its amount already in cents. The description
      and the date play no part in the balances. */
  datatype Expense = Expense(amount: Cents, paidBy: Name, participants: seq<Name>)

  /** The people a roster names, which are the keys of the balance map. */
  function People(people: seq<Name>): set<Name>
  {
    set p | p in people
  }

  /** Every person of the roster at zero cents. */
  function Initial(people: seq<Name>): map<Name, Cents>
  {
    map p | p in people :: 0
  }

  /** The participants of an expense who are known, in list order; a name
      listed twice stays listed twice. */
  function KnownParticipants(known: set<Name>, ps: seq<Name>): (r: seq<Name>)
    ensures |r| <= |ps|
    ensures forall p :: p in r <==> p in ps && p in known
  {
    if ps == [] then []
    else (if ps[0] in known then [ps[0]] else []) + KnownParticipants(known, ps[1..])
  }

  /** The filter distributes over concatenation: it keeps the listed order
      and every repetition, which decides who gets the extra cents. */
  lemma {:induction false} KnownParticipantsAppend(known: set<Name>, xs: seq<Name>, ys: seq<Name>)
    ensures KnownParticipants(known, xs + ys) == KnownParticipants(known, xs) + KnownParticipants(known, ys)
  {
    if xs == [] {
      assert xs + ys == ys;
    } else {
      assert (xs + ys)[0] == xs[0] && (xs + ys)[1..] == xs[1..] + ys;
      KnownParticipantsAppend(known, xs[1..], ys);
      var h := if xs[0] in known then [xs[0]] else [];
      assert h + (KnownParticipants(known, xs[1..]) + KnownParticipants(known, ys))
          == (h + KnownParticipants(known, xs[1..])) + KnownParticipants(known, ys);
    }
  }

  /** When every listed participant is known, the list is kept as it is. */
  lemma {:induction false} AllKnownKept(known: set<Name>, ps: seq<Name>)
    requires forall p :: p in ps ==> p in known
    ensures KnownParticipants(known, ps) == ps
  {
    if ps != [] {
      AllKnownKept(known, ps[1..]);
      assert ps == [ps[0]] + ps[1..];
    }
  }

  /** The balances after the first `k` participants of `ps` have been
      debited their shares of `amount`. */
  function Debited(b: map<Name, Cents>, ps: seq<Name>, amount: Cents, k: nat): (r: map<Name, Cents>)
    requires 0 < |ps| && k <= |ps|
    requires forall p :: p in ps ==> p in b
    ensures r.Keys == b.Keys
  {
    if k == 0 then b
    else
      var before := Debited(b, ps, amount, k - 1);
      before[ps[k - 1] := before[ps[k - 1]] - Split.Share(amount, |ps|, k - 1)]
  }

  /** The balances with a known payer credited the amount; an unknown payer
      is credited nothing. */
  function Credited(b: map<Name, Cents>, payer: Name, amount: Cents): (r: map<Name, Cents>)
    ensures r.Keys == b.Keys
  {
    if payer in b then b[payer := b[payer] + amount] else b
  }

  /** One pass of the calculator's loop: an expense none of whose
      participants is known is skipped; otherwise a known payer is credited
      the whole amount and every known participant is debited a share. */
  function ApplyExpense(b: map<Name, Cents>, e: Expense): (r: map<Name, Cents>)
    ensures r.Keys == b.Keys
  {
    var ps := KnownParticipants(b.Keys, e.participants);
    if ps == [] then b else Debited(Credited(b, e.paidBy, e.amount), ps, e.amount, |ps|)
  }

  /** The expenses applied in order. */
  function Apply(b: map<Name, Cents>, es: seq<Expense>): (r: map<Name, Cents>)
    ensures r.Keys == b.Keys
  {
    if es == [] then b
    else ApplyExpense(Apply(b, es[..|es| - 1]), es[|es| - 1])
  }

  /** The balances of a roster after a list of expenses. */
  function Balances(people: seq<Name>, es: seq<Expense>): (r: map<Name, Cents>)
    ensures r.Keys == People(people)
  {
    Apply(Initial(people), es)
  }

  method CalculateBalances(people: seq<Name>, expenses: seq<Expense>) returns (balances: map<Name, Cents>)
    ensures balances == Balances(people, expenses)
  {
    balances := map p | p in people :: 0;
    for x := 0 to |expenses|
      invariant balances == Apply(Initial(people), expenses[..x])
    {
      assert expenses[..x + 1][..x] == expenses[..x];
      ghost var before := balances;
      var e := expenses[x];
      var participants := KnownParticipants(balances.Keys, e.participants);
      if participants == [] {
        continue;
      }
      var amountCents := e.amount;
      var payer := e.paidBy;
      if payer in balances {
        balances := balances[payer := balances[payer] + amountCents];
      }
      assert balances == Credited(before, payer, amountCents);
      balances := DebitShares(balances, participants, amountCents);
    }
    assert expenses[..|expenses|] == expenses;
  }

  /** The inner loop of the calculator: every participant, in list order,
      debited their share. */
  method DebitShares(b: map<Name, Cents>, participants: seq<Name>, amountCents: Cents)
    returns (balances: map<Name, Cents>)
    requires participants != []
    requires forall p :: p in participants ==> p in b
    ensures balances == Debited(b, participants, amountCents, |participants|)
  {
    balances := b;
    var n := |participants|;
    var per := amountCents / n;
    var remainder := amountCents - per * n;
    assert remainder == Split.Remainder(amountCents, n);
    for i := 0 to n
      invariant balances == Debited(b, participants, amountCents, i)
    {
      var share := per + (if i < remainder then 1 else 0);
      assert share == Split.Share(amountCents, n, i);
      var person := participants[i];
      balances := balances[person := balances[person] - share];
    }
  }

  // ---------------------------------------------------------------------
  // Each person's balance in closed form

  /** What the first `k` positions of the participant list ask of `q`: the
      shares at the positions where `q` stands. */
  function Owed(ps: seq<Name>, amount: Cents, q: Name, k: nat): Cents
    requires 0 < |ps| && k <= |ps|
  {
    if k == 0 then 0
    else Owed(ps, amount, q, k - 1) + (if ps[k - 1] == q then Split.Share(amount, |ps|, k - 1) else 0)
  }

  /** How one expense moves the balance of a known person `q`. */
  function Effect(known: set<Name>, e: Expense, q: Name): Cents
  {
    var ps := KnownParticipants(known, e.participants);
    if ps == [] then 0
    else (if e.paidBy == q then e.amount else 0) - Owed(ps, e.amount, q, |ps|)
  }

  /** The sum of the effects of a list of expenses on `q`. */
  function Net(known: set<Name>, es: seq<Expense>, q: Name): Cents
  {
    if es == [] then 0 else Net(known, es[..|es| - 1], q) + Effect(known, es[|es| - 1], q)
  }

  lemma {:induction false} DebitedAt(b: map<Name, Cents>, ps: seq<Name>, amount: Cents, k: nat, q: Name)
    requires 0 < |ps| && k <= |ps|
    requires forall p :: p in ps ==> p in b
    requires q in b
    ensures Debited(b, ps, amount, k)[q] == b[q] - Owed(ps, amount, q, k)
  {
    if k > 0 {
      DebitedAt(b, ps, amount, k - 1, q);
    }
  }

  lemma ApplyExpenseAt(b: map<Name, Cents>, e: Expense, q: Name)
    requires q in b
    ensures ApplyExpense(b, e)[q] == b[q] + Effect(b.Keys, e, q)
  {
    var ps := KnownParticipants(b.Keys, e.participants);
    if ps != [] {
      DebitedAt(Credited(b, e.paidBy, e.amount), ps, e.amount, |ps|, q);
    }
  }

  lemma {:induction false} ApplyAt(b: map<Name, Cents>, es: seq<Expense>, q: Name)
    requires q in b
    ensures Apply(b, es)[q] == b[q] + Net(b.Keys, es, q)
  {
    if es != [] {
      ApplyAt(b, es[..|es| - 1], q);
      ApplyExpenseAt(Apply(b, es[..|es| - 1]), es[|es| - 1], q);
    }
  }

  /** A person's balance is what they paid for processed expenses minus
      their shares, over all expenses. */
  lemma BalanceIsNet(people: seq<Name>, es: seq<Expense>, q: Name)
    requires q in people
    ensures Balances(people, es)[q] == Net(People(people), es, q)
  {
    ApplyAt(Initial(people), es, q);
  }

  lemma {:induction false} NetAppend(known: set<Name>, xs: seq<Expense>, ys: seq<Expense>, q: Name)
    ensures Net(known, xs + ys, q) == Net(known, xs, q) + Net(known, ys, q)
  {
    if ys == [] {
      assert xs + ys == xs;
    } else {
      assert (xs + ys)[..|xs + ys| - 1] == xs + ys[..|ys| - 1];
      NetAppend(known, xs, ys[..|ys| - 1], q);
    }
  }

  lemma {:induction false} OwedAbsent(ps: seq<Name>, amount: Cents, q: Name, k: nat)
    requires 0 < |ps| && k <= |ps|
    requires q !in ps
    ensures Owed(ps, amount, q, k) == 0
  {
    if k > 0 {
      OwedAbsent(ps, amount, q, k - 1);
    }
  }

  lemma {:induction false} NetUninvolved(known: set<Name>, es: seq<Expense>, q: Name)
    requires forall e :: e in es && KnownParticipants(known, e.participants) != [] ==>
      e.paidBy != q && q !in e.participants
    ensures Net(known, es, q) == 0
  {
    if es != [] {
      var e := es[|es| - 1];
      NetUninvolved(known, es[..|es| - 1], q);
      var ps := KnownParticipants(known, e.participants);
      if ps != [] {
        OwedAbsent(ps, e.amount, q, |ps|);
      }
    }
  }

  /** A person who neither paid for nor took part in any processed expense
      ends at zero; paying for a skipped expense does not count. */
  lemma UninvolvedStaysZero(people: seq<Name>, es: seq<Expense>, q: Name)
    requires q in people
    requires forall e :: e in es && KnownParticipants(People(people), e.participants) != [] ==>
      e.paidBy != q && q !in e.participants
    ensures Balances(people, es)[q] == 0
  {
    BalanceIsNet(people, es, q);
    NetUninvolved(People(people), es, q);
  }

  lemma {:induction false} NoneKnown(known: set<Name>, ps: seq<Name>)
    requires forall p :: p in ps ==> p !in known
    ensures KnownParticipants(known, ps) == []
  {
    if ps != [] {
      NoneKnown(known, ps[1..]);
    }
  }

  lemma NetSkipsDropped(known: set<Name>, before: seq<Expense>, e: Expense, after: seq<Expense>, q: Name)
    requires KnownParticipants(known, e.participants) == []
    ensures Net(known, before + [e] + after, q) == Net(known, before + after, q)
  {
    NetAppend(known, before + [e], after, q);
    NetAppend(known, before, [e], q);
    NetAppend(known, before, after, q);
    assert [e][..0] == [];
  }

  /** An expense none of whose participants is known leaves every balance
      as it is, the payer's included, wherever it stands in the list. */
  lemma DroppedExpenseHasNoEffect(people: seq<Name>, before: seq<Expense>, e: Expense, after: seq<Expense>)
    requires forall p :: p in e.participants ==> p !in people
    ensures Balances(people, before + [e] + after) == Balances(people, before + after)
  {
    var known := People(people);
    NoneKnown(known, e.participants);
    var with := Balances(people, before + [e] + after);
    var without := Balances(people, before + after);
    forall q | q in with.Keys
      ensures with[q] == without[q]
    {
      BalanceIsNet(people, before + [e] + after, q);
      BalanceIsNet(people, before + after, q);
      NetSkipsDropped(known, before, e, after, q);
    }
  }

  // ---------------------------------------------------------------------
  // The total of all balances

  /** The cents that an expense debits without crediting anyone: all of
      them when it is processed and its payer is unknown, none otherwise. */
  function Uncredited(known: set<Name>, e: Expense): Cents
  {
    if KnownParticipants(known, e.participants) != [] && e.paidBy !in known then e.amount else 0
  }

  function TotalUncredited(known: set<Name>, es: seq<Expense>): Cents
  {
    if es == [] then 0 else TotalUncredited(known, es[..|es| - 1]) + Uncredited(known, es[|es| - 1])
  }

  lemma {:induction false} DebitedTotal(b: map<Name, Cents>, ps: seq<Name>, amount: Cents, k: nat)
    requires 0 < |ps| && k <= |ps|
    requires forall p :: p in ps ==> p in b
    ensures Totals.Sum(Debited(b, ps, amount, k)) == Totals.Sum(b) - Split.SharesUpTo(amount, |ps|, k)
  {
    if k > 0 {
      DebitedTotal(b, ps, amount, k - 1);
      var before := Debited(b, ps, amount, k - 1);
      Totals.SumUpdate(before, ps[k - 1], before[ps[k - 1]] - Split.Share(amount, |ps|, k - 1));
    }
  }

  /** Crediting a known payer raises the total by the amount. */
  lemma CreditedTotal(b: map<Name, Cents>, payer: Name, amount: Cents)
    ensures payer in b ==> Totals.Sum(Credited(b, payer, amount)) == Totals.Sum(b) + amount
    ensures payer !in b ==> Credited(b, payer, amount) == b
  {
    if payer in b {
      Totals.SumUpdate(b, payer, b[payer] + amount);
    }
  }

  /** A processed expense with a known payer keeps the total of all
      balances; with an unknown payer it lowers the total by its amount. */
  lemma ApplyExpenseTotal(b: map<Name, Cents>, e: Expense)
    ensures Totals.Sum(ApplyExpense(b, e)) == Totals.Sum(b) - Uncredited(b.Keys, e)
  {
    var ps := KnownParticipants(b.Keys, e.participants);
    if ps != [] {
      var c := Credited(b, e.paidBy, e.amount);
      CreditedTotal(b, e.paidBy, e.amount);
      assert forall p :: p in ps ==> p in c;
      DebitedTotal(c, ps, e.amount, |ps|);
      Split.SplitIsExact(e.amount, |ps|);
      assert ApplyExpense(b, e) == Debited(c, ps, e.amount, |ps|);
    }
  }

  lemma {:induction false} ApplyTotal(b: map<Name, Cents>, es: seq<Expense>)
    ensures Totals.Sum(Apply(b, es)) == Totals.Sum(b) - TotalUncredited(b.Keys, es)
  {
    if es != [] {
      ApplyTotal(b, es[..|es| - 1]);
      ApplyExpenseTotal(Apply(b, es[..|es| - 1]), es[|es| - 1]);
    }
  }

  /** The balances total minus the amounts of processed expenses whose
      payer is unknown. */
  lemma BalancesTotal(people: seq<Name>, es: seq<Expense>)
    ensures Totals.Sum(Balances(people, es)) == -TotalUncredited(People(people), es)
  {
    ApplyTotal(Initial(people), es);
    Totals.SumOfZeros(Initial(people));
  }

  lemma {:induction false} NoneUncredited(known: set<Name>, es: seq<Expense>)
    requires forall e :: e in es ==> e.paidBy in known
    ensures TotalUncredited(known, es) == 0
  {
    if es != [] {
      NoneUncredited(known, es[..|es| - 1]);
    }
  }

  /** When every payer is known the balances add up to exactly zero. */
  lemma ZeroSum(people: seq<Name>, es: seq<Expense>)
    requires forall e :: e in es ==> e.paidBy in people
    ensures Totals.Sum(Balances(people, es)) == 0
  {
    BalancesTotal(people, es);
    NoneUncredited(People(people), es);
  }

  lemma SharedEvenlyEffects(a: Name, b: Name, c: Name)
    requires a != b && b != c && a != c
    ensures var e := Expense(3000, a, [a, b, c]);
      && Effect(People([a, b, c]), e, a) == 2000
      && Effect(People([a, b, c]), e, b) == -1000
      && Effect(People([a, b, c]), e, c) == -1000
  {
    var known := People([a, b, c]);
    var ps := KnownParticipants(known, [a, b, c]);
    assert ps == [a, b, c] by {
      assert a in known && b in known && c in known;
      assert [a, b, c][1..] == [b, c] && [b, c][1..] == [c] && [c][1..] == [];
      assert KnownParticipants(known, [c]) == [c];
      assert KnownParticipants(known, [b, c]) == [b] + [c];
      assert KnownParticipants(known, [a, b, c]) == [a] + [b, c];
    }
    assert Split.Remainder(3000, 3) == 0;
    assert forall k :: 0 <= k < 3 ==> Split.Share(3000, 3, k) == 1000;
    forall q | q in {a, b, c}
      ensures Owed(ps, 3000, q, 3) == 1000
    {
      assert Owed(ps, 3000, q, 1) == (if a == q then 1000 else 0);
      assert Owed(ps, 3000, q, 2) == (if a == q || b == q then 1000 else 0);
    }
  }

  /** 3000 cents paid by A and shared by A, B and C: A is credited the whole
      amount and pays a third of it like the others. */
  lemma PayerCreditedOnce(a: Name, b: Name, c: Name)
    requires a != b && b != c && a != c
    ensures Balances([a, b, c], [Expense(3000, a, [a, b, c])])
         == map[a := 2000, b := -1000, c := -1000]
  {
    var e := Expense(3000, a, [a, b, c]);
    var r := Balances([a, b, c], [e]);
    SharedEvenlyEffects(a, b, c);
    assert [e][..0] == [];
    BalanceIsNet([a, b, c], [e], a);
    BalanceIsNet([a, b, c], [e], b);
    BalanceIsNet([a, b, c], [e], c);
    assert r.Keys == {a, b, c};
  }
}
