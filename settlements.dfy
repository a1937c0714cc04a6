/** The settlement planner: a greedy two-pointer match of the largest
    creditor with the largest debtor. */
module Settlements {
  import opened Money
  import opened Entries

  /** A suggested payment of `amount` cents from a debtor to a creditor. */
  datatype Settlement = Settlement(from: Name, to: Name, amount: Cents)

  /** The amount the current creditor and debtor settle: as much as both can. */
  function Amount(c: Entry, d: Entry): Cents
  {
    Min(c.cents, -d.cents)
  }

  /** The creditors still to serve once the head has received `amt`: the
      head is passed over once it is within the dust band and otherwise
      stays, holding what it is still owed. */
  function AfterCredit(cs: seq<Entry>, amt: Cents): seq<Entry>
    requires cs != []
  {
    var left := cs[0].cents - amt;
    if left <= Dust then cs[1..] else [Entry(cs[0].name, left)] + cs[1..]
  }

  /** The debtors still to serve once the head has paid `amt`. */
  function AfterDebit(ds: seq<Entry>, amt: Cents): seq<Entry>
    requires ds != []
  {
    var left := ds[0].cents + amt;
    if left >= -Dust then ds[1..] else [Entry(ds[0].name, left)] + ds[1..]
  }

  /** Every step passes over the creditor or the debtor or both, because
      one of them is left with exactly nothing. */
  lemma StepProgresses(cs: seq<Entry>, ds: seq<Entry>)
    requires cs != [] && ds != []
    ensures var amt := Amount(cs[0], ds[0]);
      && |AfterCredit(cs, amt)| <= |cs| && |AfterDebit(ds, amt)| <= |ds|
      && (|AfterCredit(cs, amt)| < |cs| || |AfterDebit(ds, amt)| < |ds|)
  {
  }

  /** The settlements the matching records for sorted creditors `cs` and
      sorted debtors `ds`, each list's head being its current party. */
  function Greedy(cs: seq<Entry>, ds: seq<Entry>): seq<Settlement>
    decreases |cs| + |ds|, 1
  {
    if cs == [] || ds == [] then [] else Pay(cs, ds)
  }

  /** One step of the matching: the head debtor pays the head creditor the
      smaller of their open amounts, recorded only above the dust; then the
      matching goes on with what is left. */
  function Pay(cs: seq<Entry>, ds: seq<Entry>): seq<Settlement>
    requires cs != [] && ds != []
    decreases |cs| + |ds|, 0
  {
    var amt := Amount(cs[0], ds[0]);
    StepProgresses(cs, ds);
    (if amt > Dust then [Settlement(ds[0].name, cs[0].name, amt)] else [])
      + Greedy(AfterCredit(cs, amt), AfterDebit(ds, amt))
  }

  /** What `p` receives over a list of settlements. */
  function Received(ss: seq<Settlement>, p: Name): Cents
  {
    if ss == [] then 0 else (if ss[0].to == p then ss[0].amount else 0) + Received(ss[1..], p)
  }

  /** What `p` pays over a list of settlements. */
  function Paid(ss: seq<Settlement>, p: Name): Cents
  {
    if ss == [] then 0 else (if ss[0].from == p then ss[0].amount else 0) + Paid(ss[1..], p)
  }

  lemma {:induction false} NeitherReceivedNorPaid(ss: seq<Settlement>, p: Name)
    ensures (forall s :: s in ss ==> s.to != p) ==> Received(ss, p) == 0
    ensures (forall s :: s in ss ==> s.from != p) ==> Paid(ss, p) == 0
    ensures (forall s :: s in ss ==> s.amount >= 0) ==> Received(ss, p) >= 0 && Paid(ss, p) >= 0
  {
    if ss != [] {
      NeitherReceivedNorPaid(ss[1..], p);
    }
  }

  /** The matching's working state: creditors hold more than the dust
      tolerance, debtors owe more than it, and nobody appears twice. */
  predicate Ready(cs: seq<Entry>, ds: seq<Entry>)
  {
    && (forall e :: e in cs ==> e.cents > Dust)
    && (forall e :: e in ds ==> e.cents < -Dust)
    && Distinct(cs) && Distinct(ds) && Names(cs) !! Names(ds)
  }

  /** A step keeps the working state and only ever drops names. */
  lemma StepReady(cs: seq<Entry>, ds: seq<Entry>)
    requires Ready(cs, ds) && cs != [] && ds != []
    ensures var amt := Amount(cs[0], ds[0]);
      && amt > Dust
      && Ready(AfterCredit(cs, amt), AfterDebit(ds, amt))
      && Names(AfterCredit(cs, amt)) <= Names(cs)
      && Names(AfterDebit(ds, amt)) <= Names(ds)
  {
    var amt := Amount(cs[0], ds[0]);
    var cs', ds' := AfterCredit(cs, amt), AfterDebit(ds, amt);
    assert cs' != cs[1..] ==> cs'[1..] == cs[1..] && Names(cs') == Names(cs);
    assert ds' != ds[1..] ==> ds'[1..] == ds[1..] && Names(ds') == Names(ds);
  }

  /** Every recorded payment goes from a debtor to a creditor and is larger
      than the dust tolerance. */
  lemma {:induction false} GreedyParties(cs: seq<Entry>, ds: seq<Entry>)
    requires Ready(cs, ds)
    ensures forall s :: s in Greedy(cs, ds) ==>
      s.to in Names(cs) && s.from in Names(ds) && s.amount > Dust
    decreases |cs| + |ds|
  {
    if cs != [] && ds != [] {
      var amt := Amount(cs[0], ds[0]);
      StepReady(cs, ds);
      StepProgresses(cs, ds);
      GreedyParties(AfterCredit(cs, amt), AfterDebit(ds, amt));
    }
  }

  /** Every step records a payment, so there are at least as many payments
      as the shorter list is long and fewer than the two lists together. */
  lemma {:induction false} GreedyCount(cs: seq<Entry>, ds: seq<Entry>)
    requires Ready(cs, ds)
    ensures cs == [] || ds == [] ==> Greedy(cs, ds) == []
    ensures cs != [] && ds != [] ==> Min(|cs|, |ds|) <= |Greedy(cs, ds)| <= |cs| + |ds| - 1
    decreases |cs| + |ds|
  {
    if cs != [] && ds != [] {
      var amt := Amount(cs[0], ds[0]);
      StepReady(cs, ds);
      StepProgresses(cs, ds);
      GreedyCount(AfterCredit(cs, amt), AfterDebit(ds, amt));
    }
  }

  /** How one step looks from a creditor's side: the head creditor receives
      the step's amount and is either done or goes on with the rest of its
      balance; every other creditor goes on unchanged. */
  lemma CreditorStep(cs: seq<Entry>, ds: seq<Entry>, e: Entry)
    requires Ready(cs, ds) && cs != [] && ds != [] && e in cs
    ensures var amt := Amount(cs[0], ds[0]);
      var cs' := AfterCredit(cs, amt);
      var rest := Greedy(cs', AfterDebit(ds, amt));
      && Received(Greedy(cs, ds), e.name) == (if e == cs[0] then amt else 0) + Received(rest, e.name)
      && (e != cs[0] ==> e in cs')
      && (e == cs[0] && cs' == cs[1..] ==> Received(rest, e.name) == 0 && e.cents - amt <= Dust)
      && (e == cs[0] && cs' != cs[1..] ==> Entry(e.name, e.cents - amt) in cs')
  {
    var amt := Amount(cs[0], ds[0]);
    var cs', ds' := AfterCredit(cs, amt), AfterDebit(ds, amt);
    var g, rest := Greedy(cs, ds), Greedy(cs', ds');
    StepReady(cs, ds);
    StepProgresses(cs, ds);
    GreedyStep(cs, ds, amt);
    assert g[0] == Settlement(ds[0].name, cs[0].name, amt) && g[1..] == rest;
    if e == cs[0] {
      if cs' == cs[1..] {
        GreedyParties(cs', ds');
        NeitherReceivedNorPaid(rest, e.name);
      } else {
        assert cs'[0] in cs';
      }
    } else {
      assert e in cs[1..];
      NameOfMember(cs[1..], e);
      assert e in cs';
    }
  }

  /** The same from a debtor's side. */
  lemma DebtorStep(cs: seq<Entry>, ds: seq<Entry>, e: Entry)
    requires Ready(cs, ds) && cs != [] && ds != [] && e in ds
    ensures var amt := Amount(cs[0], ds[0]);
      var ds' := AfterDebit(ds, amt);
      var rest := Greedy(AfterCredit(cs, amt), ds');
      && Paid(Greedy(cs, ds), e.name) == (if e == ds[0] then amt else 0) + Paid(rest, e.name)
      && (e != ds[0] ==> e in ds')
      && (e == ds[0] && ds' == ds[1..] ==> Paid(rest, e.name) == 0 && e.cents + amt >= -Dust)
      && (e == ds[0] && ds' != ds[1..] ==> Entry(e.name, e.cents + amt) in ds')
  {
    var amt := Amount(cs[0], ds[0]);
    var cs', ds' := AfterCredit(cs, amt), AfterDebit(ds, amt);
    var g, rest := Greedy(cs, ds), Greedy(cs', ds');
    StepReady(cs, ds);
    StepProgresses(cs, ds);
    GreedyStep(cs, ds, amt);
    assert g[0] == Settlement(ds[0].name, cs[0].name, amt) && g[1..] == rest;
    if e == ds[0] {
      if ds' == ds[1..] {
        GreedyParties(cs', ds');
        NeitherReceivedNorPaid(rest, e.name);
      } else {
        assert ds'[0] in ds';
      }
    } else {
      assert e in ds[1..];
      NameOfMember(ds[1..], e);
      assert e in ds';
    }
  }

  /** No creditor receives more than it was owed and no debtor pays more
      than it owed; nobody both pays and receives. */
  lemma {:induction false} GreedyBounded(cs: seq<Entry>, ds: seq<Entry>)
    requires Ready(cs, ds)
    ensures forall e :: e in cs ==>
      0 <= Received(Greedy(cs, ds), e.name) <= e.cents && Paid(Greedy(cs, ds), e.name) == 0
    ensures forall e :: e in ds ==>
      0 <= Paid(Greedy(cs, ds), e.name) <= -e.cents && Received(Greedy(cs, ds), e.name) == 0
    decreases |cs| + |ds|
  {
    var g := Greedy(cs, ds);
    GreedyParties(cs, ds);
    forall e | e in cs
      ensures Paid(g, e.name) == 0
    {
      NameOfMember(cs, e);
      NeitherReceivedNorPaid(g, e.name);
    }
    forall e | e in ds
      ensures Received(g, e.name) == 0
    {
      NameOfMember(ds, e);
      NeitherReceivedNorPaid(g, e.name);
    }
    forall p ensures Received(g, p) >= 0 && Paid(g, p) >= 0 {
      NeitherReceivedNorPaid(g, p);
    }
    if cs != [] && ds != [] {
      var amt := Amount(cs[0], ds[0]);
      StepReady(cs, ds);
      StepProgresses(cs, ds);
      GreedyBounded(AfterCredit(cs, amt), AfterDebit(ds, amt));
      forall e | e in cs
        ensures Received(g, e.name) <= e.cents
      {
        CreditorStep(cs, ds, e);
      }
      forall e | e in ds
        ensures Paid(g, e.name) <= -e.cents
      {
        DebtorStep(cs, ds, e);
      }
    }
  }

  /** When the matching stops, every creditor or every debtor is within the
      dust tolerance of zero once the recorded payments are made. */
  lemma {:induction false} GreedySettlesOneSide(cs: seq<Entry>, ds: seq<Entry>)
    requires Ready(cs, ds)
    ensures || (forall e :: e in cs ==> e.cents - Received(Greedy(cs, ds), e.name) <= Dust)
            || (forall e :: e in ds ==> e.cents + Paid(Greedy(cs, ds), e.name) >= -Dust)
    decreases |cs| + |ds|
  {
    if cs != [] && ds != [] {
      var g := Greedy(cs, ds);
      var amt := Amount(cs[0], ds[0]);
      var cs', ds' := AfterCredit(cs, amt), AfterDebit(ds, amt);
      var rest := Greedy(cs', ds');
      StepReady(cs, ds);
      StepProgresses(cs, ds);
      GreedySettlesOneSide(cs', ds');
      if forall e :: e in cs' ==> e.cents - Received(rest, e.name) <= Dust {
        forall e | e in cs
          ensures e.cents - Received(g, e.name) <= Dust
        {
          CreditorStep(cs, ds, e);
        }
      } else {
        forall e | e in ds
          ensures e.cents + Paid(g, e.name) >= -Dust
        {
          DebtorStep(cs, ds, e);
        }
      }
    }
  }

  /** Along `s` the starting balances of the named people never grow. */
  predicate Descending(s: seq<Entry>, start: map<Name, Cents>)
  {
    && (forall k :: 0 <= k < |s| ==> s[k].name in start)
    && (forall a, b :: 0 <= a < b < |s| ==> start[s[a].name] >= start[s[b].name])
  }

  /** Along `s` the starting balances of the named people never shrink. */
  predicate Ascending(s: seq<Entry>, start: map<Name, Cents>)
  {
    && (forall k :: 0 <= k < |s| ==> s[k].name in start)
    && (forall a, b :: 0 <= a < b < |s| ==> start[s[a].name] <= start[s[b].name])
  }

  lemma CreditKeepsOrder(cs: seq<Entry>, amt: Cents, start: map<Name, Cents>)
    requires cs != [] && Descending(cs, start)
    ensures Descending(AfterCredit(cs, amt), start)
  {
    var r := AfterCredit(cs, amt);
    if r != cs[1..] {
      assert forall k :: 0 <= k < |r| ==> r[k].name == cs[k].name;
    }
  }

  lemma DebitKeepsOrder(ds: seq<Entry>, amt: Cents, start: map<Name, Cents>)
    requires ds != [] && Ascending(ds, start)
    ensures Ascending(AfterDebit(ds, amt), start)
  {
    var r := AfterDebit(ds, amt);
    if r != ds[1..] {
      assert forall k :: 0 <= k < |r| ==> r[k].name == ds[k].name;
    }
  }

  /** The head of a descending list has the largest starting balance. */
  lemma HeadIsLargest(cs: seq<Entry>, start: map<Name, Cents>, p: Name)
    requires cs != [] && Descending(cs, start) && p in Names(cs)
    ensures cs[0].name in start && p in start && start[p] <= start[cs[0].name]
  {
    NamesHas(cs, p);
    var k :| 0 <= k < |cs| && cs[k].name == p;
    if k > 0 {
      assert start[cs[0].name] >= start[cs[k].name];
    }
  }

  /** The head of an ascending list has the smallest starting balance. */
  lemma HeadIsSmallest(ds: seq<Entry>, start: map<Name, Cents>, p: Name)
    requires ds != [] && Ascending(ds, start) && p in Names(ds)
    ensures ds[0].name in start && p in start && start[p] >= start[ds[0].name]
  {
    NamesHas(ds, p);
    var k :| 0 <= k < |ds| && ds[k].name == p;
    if k > 0 {
      assert start[ds[0].name] <= start[ds[k].name];
    }
  }

  /** Along `ss` the payees' starting balances never grow and the payers'
      never shrink. */
  predicate PaysInOrder(ss: seq<Settlement>, start: map<Name, Cents>)
  {
    && (forall s :: s in ss ==> s.to in start && s.from in start)
    && (forall a, b :: 0 <= a < b < |ss| ==>
          start[ss[a].to] >= start[ss[b].to] && start[ss[a].from] <= start[ss[b].from])
  }

  lemma PaysInOrderCons(h: Settlement, rest: seq<Settlement>, start: map<Name, Cents>)
    requires h.to in start && h.from in start && PaysInOrder(rest, start)
    requires forall s :: s in rest ==> start[s.to] <= start[h.to] && start[s.from] >= start[h.from]
    ensures PaysInOrder([h] + rest, start)
  {
    var g := [h] + rest;
    forall a, b | 0 <= a < b < |g|
      ensures start[g[a].to] >= start[g[b].to] && start[g[a].from] <= start[g[b].from]
    {
      assert g[b] == rest[b - 1] && g[b] in rest;
      if a > 0 {
        assert g[a] == rest[a - 1];
      }
    }
  }

  /** Payments come largest creditor first and most indebted debtor first. */
  lemma {:induction false} GreedyOrder(cs: seq<Entry>, ds: seq<Entry>, start: map<Name, Cents>)
    requires Ready(cs, ds)
    requires Descending(cs, start) && Ascending(ds, start)
    ensures PaysInOrder(Greedy(cs, ds), start)
    decreases |cs| + |ds|
  {
    if cs != [] && ds != [] {
      var amt := Amount(cs[0], ds[0]);
      var cs', ds' := AfterCredit(cs, amt), AfterDebit(ds, amt);
      var rest := Greedy(cs', ds');
      StepReady(cs, ds);
      StepProgresses(cs, ds);
      CreditKeepsOrder(cs, amt, start);
      DebitKeepsOrder(ds, amt, start);
      GreedyOrder(cs', ds', start);
      GreedyParties(cs', ds');
      var h := Settlement(ds[0].name, cs[0].name, amt);
      assert Greedy(cs, ds) == [h] + rest;
      forall s | s in rest
        ensures start[s.to] <= start[h.to] && start[s.from] >= start[h.from]
      {
        HeadIsLargest(cs, start, s.to);
        HeadIsSmallest(ds, start, s.from);
      }
      PaysInOrderCons(h, rest, start);
    }
  }

  // ---------------------------------------------------------------------
  // The planner on a balance dictionary

  /** `order` lists the keys of `balances` once each, as iterating over a
      dictionary does. */
  predicate IterationOrder(balances: map<Name, Cents>, order: seq<Name>)
  {
    && (forall p :: p in order ==> p in balances)
    && (forall p :: p in balances ==> p in order)
    && NoDuplicates(order)
  }

  /** The settlements planned for a dictionary of balances iterated in `order`:
      its creditors sorted largest first and its debtors most negative first,
      in both cases keeping the iteration order among equal balances, then
      matched greedily. */
  function Plan(balances: map<Name, Cents>, order: seq<Name>): seq<Settlement>
    requires forall p :: p in order ==> p in balances
  {
    var entries := Items(balances, order);
    Greedy(Sort(Creditors(entries), true), Sort(Debtors(entries), false))
  }

  /** One step of the greedy plan, unfolded. */
  lemma GreedyStep(cs: seq<Entry>, ds: seq<Entry>, amt: Cents)
    requires cs != [] && ds != [] && amt == Amount(cs[0], ds[0])
    ensures amt > Dust ==>
      Greedy(cs, ds) == [Settlement(ds[0].name, cs[0].name, amt)]
        + Greedy(AfterCredit(cs, amt), AfterDebit(ds, amt))
    ensures amt <= Dust ==> Greedy(cs, ds) == Greedy(AfterCredit(cs, amt), AfterDebit(ds, amt))
  {
    assert Greedy(cs, ds) == Pay(cs, ds);
  }

  /** One step of the loop keeps "recorded so far, then the plan for what
      is still open" equal to the whole plan. */
  lemma StepKeepsPlan(done: seq<Settlement>, open: seq<Entry>, due: seq<Entry>, amt: Cents,
                      done': seq<Settlement>, plan: seq<Settlement>)
    requires open != [] && due != [] && amt == Amount(open[0], due[0])
    requires done + Greedy(open, due) == plan
    requires amt > Dust ==> done' == done + [Settlement(due[0].name, open[0].name, amt)]
    requires amt <= Dust ==> done' == done
    ensures done' + Greedy(AfterCredit(open, amt), AfterDebit(due, amt)) == plan
  {
    GreedyStep(open, due, amt);
    if amt > Dust {
      Concatenation(done, [Settlement(due[0].name, open[0].name, amt)],
                    Greedy(AfterCredit(open, amt), AfterDebit(due, amt)));
    }
  }

  /** Writing the creditor's remainder back at `i`, or moving past it,
      leaves exactly `AfterCredit` of the unserved suffix. */
  lemma CreditWriteBack(cs: seq<Entry>, i: nat, amt: Cents, cs': seq<Entry>, i': nat)
    requires i < |cs|
    requires cs[i].cents - amt <= Dust ==> cs' == cs && i' == i + 1
    requires cs[i].cents - amt > Dust ==>
      cs' == cs[i := Entry(cs[i].name, cs[i].cents - amt)] && i' == i
    ensures i' <= |cs'| && cs'[i'..] == AfterCredit(cs[i..], amt)
  {
    var left := cs[i].cents - amt;
    assert cs[i..][0] == cs[i] && cs[i..][1..] == cs[i + 1..];
    if left > Dust {
      assert cs'[i..] == [Entry(cs[i].name, left)] + cs[i + 1..] by {
        assert cs'[i + 1..] == cs[i + 1..];
      }
    }
  }

  /** The same for the debtor at `j`. */
  lemma DebitWriteBack(ds: seq<Entry>, j: nat, amt: Cents, ds': seq<Entry>, j': nat)
    requires j < |ds|
    requires ds[j].cents + amt >= -Dust ==> ds' == ds && j' == j + 1
    requires ds[j].cents + amt < -Dust ==>
      ds' == ds[j := Entry(ds[j].name, ds[j].cents + amt)] && j' == j
    ensures j' <= |ds'| && ds'[j'..] == AfterDebit(ds[j..], amt)
  {
    var left := ds[j].cents + amt;
    assert ds[j..][0] == ds[j] && ds[j..][1..] == ds[j + 1..];
    if left < -Dust {
      assert ds'[j..] == [Entry(ds[j].name, left)] + ds[j + 1..] by {
        assert ds'[j + 1..] == ds[j + 1..];
      }
    }
  }

  /** One pass of the loop of `calculate_settlements` from the state
      (`done`, `cs`, `i`, `ds`, `j`): the payment it records and the
      write-back or advance on each side keep "recorded so far, then the
      plan for the unserved suffixes" equal to the whole plan. */
  lemma Advance(cs: seq<Entry>, i: nat, ds: seq<Entry>, j: nat, done: seq<Settlement>,
                plan: seq<Settlement>)
    returns (cs': seq<Entry>, i': nat, ds': seq<Entry>, j': nat, done': seq<Settlement>)
    requires i < |cs| && j < |ds| && done + Greedy(cs[i..], ds[j..]) == plan
    ensures var amt := Min(cs[i].cents, -ds[j].cents);
      && (cs[i].cents - amt <= Dust ==> cs' == cs && i' == i + 1)
      && (cs[i].cents - amt > Dust ==> cs' == cs[i := Entry(cs[i].name, cs[i].cents - amt)] && i' == i)
      && (ds[j].cents + amt >= -Dust ==> ds' == ds && j' == j + 1)
      && (ds[j].cents + amt < -Dust ==> ds' == ds[j := Entry(ds[j].name, ds[j].cents + amt)] && j' == j)
      && (amt > Dust ==> done' == done + [Settlement(ds[j].name, cs[i].name, amt)])
      && (amt <= Dust ==> done' == done)
    ensures i' <= |cs'| && j' <= |ds'| && done' + Greedy(cs'[i'..], ds'[j'..]) == plan
  {
    var amt := Min(cs[i].cents, -ds[j].cents);
    var left, owed := cs[i].cents - amt, ds[j].cents + amt;
    cs', i' := if left <= Dust then cs else cs[i := Entry(cs[i].name, left)], if left <= Dust then i + 1 else i;
    ds', j' := if owed >= -Dust then ds else ds[j := Entry(ds[j].name, owed)], if owed >= -Dust then j + 1 else j;
    done' := if amt > Dust then done + [Settlement(ds[j].name, cs[i].name, amt)] else done;
    var open, due := cs[i..], ds[j..];
    assert open[0] == cs[i] && due[0] == ds[j];
    StepKeepsPlan(done, open, due, amt, done', plan);
    CreditWriteBack(cs, i, amt, cs', i');
    DebitWriteBack(ds, j, amt, ds', j');
  }

  /** Concatenation of settlement lists is associative. */
  lemma Concatenation(a: seq<Settlement>, b: seq<Settlement>, c: seq<Settlement>)
    ensures a + b + c == a + (b + c)
  {
  }

  /** The loop of `calculate_settlements` run to the end from the state
      (`cs`, `i`, `ds`, `j`, `done`), one pass per call: the list of
      settlements it returns. */
  function Loop(cs: seq<Entry>, i: nat, ds: seq<Entry>, j: nat, done: seq<Settlement>): seq<Settlement>
    requires i <= |cs| && j <= |ds|
    decreases |cs| - i + |ds| - j
  {
    if i == |cs| || j == |ds| then done
    else
      var amt := Min(cs[i].cents, -ds[j].cents);
      var left, owed := cs[i].cents - amt, ds[j].cents + amt;
      var done' := if amt > Dust then done + [Settlement(ds[j].name, cs[i].name, amt)] else done;
      if left <= Dust && owed >= -Dust then Loop(cs, i + 1, ds, j + 1, done')
      else if left <= Dust then Loop(cs, i + 1, ds[j := Entry(ds[j].name, owed)], j, done')
      // a creditor left with more than the dust has taken all the debtor owed
      else Loop(cs[i := Entry(cs[i].name, left)], i, ds, j + 1, done')
  }

  /** Running the loop from any state records, after what is recorded
      already, exactly the greedy plan for the unserved suffixes. */
  lemma {:induction false} LoopIsGreedy(cs: seq<Entry>, i: nat, ds: seq<Entry>, j: nat, done: seq<Settlement>)
    requires i <= |cs| && j <= |ds|
    ensures Loop(cs, i, ds, j, done) == done + Greedy(cs[i..], ds[j..])
    decreases |cs| - i + |ds| - j
  {
    if i < |cs| && j < |ds| {
      var plan := done + Greedy(cs[i..], ds[j..]);
      var cs', i', ds', j', done' := Advance(cs, i, ds, j, done, plan);
      LoopIsGreedy(cs', i', ds', j', done');
    }
  }

  /** The two-pointer loop of `calculate_settlements` over the sorted
      creditors and debtors: each step records the smaller of the two open
      amounts when it exceeds the dust, and writes the remainders back
      into the lists. */
  method Settle(sortedCreditors: seq<Entry>, sortedDebtors: seq<Entry>)
    returns (settlements: seq<Settlement>)
    ensures settlements == Greedy(sortedCreditors, sortedDebtors)
  {
    var creditors, debtors := sortedCreditors, sortedDebtors;
    settlements := [];
    var i, j := 0, 0;
    LoopIsGreedy(creditors, i, debtors, j, settlements);
    ghost var plan := Greedy(sortedCreditors, sortedDebtors);
    assert Loop(creditors, i, debtors, j, settlements) == plan;
    while i < |creditors| && j < |debtors|
      invariant 0 <= i <= |creditors| && 0 <= j <= |debtors|
      invariant Loop(creditors, i, debtors, j, settlements) == plan
      decreases |creditors| - i + |debtors| - j
    {
      var cp, ca := creditors[i].name, creditors[i].cents;
      var dp, da := debtors[j].name, debtors[j].cents;
      var amt := Min(ca, -da);
      if amt > Dust {
        settlements := settlements + [Settlement(dp, cp, amt)];
      }
      ca := ca - amt;
      da := da + amt;
      if ca <= Dust {
        i := i + 1;
      } else {
        creditors := creditors[i := Entry(cp, ca)];
      }
      if da >= -Dust {
        j := j + 1;
      } else {
        debtors := debtors[j := Entry(dp, da)];
      }
    }
  }

  /** Settles the balances of a dictionary the way `calculate_settlements`
      does: lists the creditors and the debtors in the dictionary's order,
      sorts them by amount and pairs them off with `Settle`. */
  method CalculateSettlements(balances: map<Name, Cents>, order: seq<Name>)
    returns (settlements: seq<Settlement>)
    requires IterationOrder(balances, order)
    ensures settlements == Plan(balances, order)
  {
    var cents := Items(balances, order);
    var creditors := Creditors(cents);
    var debtors := Debtors(cents);
    creditors := Sort(creditors, true);
    debtors := Sort(debtors, false);
    settlements := Settle(creditors, debtors);
  }

  /** A list ordered by amount whose entries carry their starting balances
      is ordered by those balances. */
  lemma OrderedByStart(s: seq<Entry>, descending: bool, start: map<Name, Cents>)
    requires Ordered(s, descending)
    requires forall e :: e in s ==> e.name in start && e.cents == start[e.name]
    ensures descending ==> Descending(s, start)
    ensures !descending ==> Ascending(s, start)
  {
    assert forall k :: 0 <= k < |s| ==> s[k] in s;
  }

  /** The sorted creditor list holds exactly the dictionary's creditors,
      from the largest balance down, each once. */
  lemma SortedCreditors(balances: map<Name, Cents>, order: seq<Name>)
    requires IterationOrder(balances, order)
    ensures var cs := Sort(Creditors(Items(balances, order)), true);
      && (forall e :: e in cs <==> e.name in balances && e.cents == balances[e.name] && e.cents > Dust)
      && |cs| == |Creditors(Items(balances, order))|
      && Distinct(cs) && Descending(cs, balances)
  {
    var cr := Creditors(Items(balances, order));
    ItemsDistinct(balances, order);
    SortOrders(cr, true);
    SortKeepsNames(cr, true);
    SortKeepsEntries(cr, true);
    OrderedByStart(Sort(cr, true), true, balances);
  }

  /** The sorted debtor list holds exactly the dictionary's debtors, from the
      most negative balance up, each once. */
  lemma SortedDebtors(balances: map<Name, Cents>, order: seq<Name>)
    requires IterationOrder(balances, order)
    ensures var ds := Sort(Debtors(Items(balances, order)), false);
      && (forall e :: e in ds <==> e.name in balances && e.cents == balances[e.name] && e.cents < -Dust)
      && |ds| == |Debtors(Items(balances, order))|
      && Distinct(ds) && Ascending(ds, balances)
  {
    var dr := Debtors(Items(balances, order));
    ItemsDistinct(balances, order);
    SortOrders(dr, false);
    SortKeepsNames(dr, false);
    SortKeepsEntries(dr, false);
    OrderedByStart(Sort(dr, false), false, balances);
  }

  /** Nobody is both owed and owing more than the tolerance. */
  lemma SidesDisjoint(cs: seq<Entry>, ds: seq<Entry>, balances: map<Name, Cents>)
    requires forall e :: e in cs ==> e.name in balances && e.cents == balances[e.name] && e.cents > Dust
    requires forall e :: e in ds ==> e.name in balances && e.cents == balances[e.name] && e.cents < -Dust
    ensures Names(cs) !! Names(ds)
  {
    assert forall y :: 0 <= y < |ds| ==> ds[y] in ds;
    forall p | p in Names(cs)
      ensures p !in Names(ds)
    {
      NamesHas(cs, p);
      NamesHas(ds, p);
      var x :| 0 <= x < |cs| && cs[x].name == p;
      assert cs[x] in cs;
    }
  }

  /** The sorted creditor and debtor lists are ready for the matching. */
  lemma PlanReady(balances: map<Name, Cents>, order: seq<Name>)
    requires IterationOrder(balances, order)
    ensures Ready(Sort(Creditors(Items(balances, order)), true), Sort(Debtors(Items(balances, order)), false))
  {
    var entries := Items(balances, order);
    var cs, ds := Sort(Creditors(entries), true), Sort(Debtors(entries), false);
    SortedCreditors(balances, order);
    SortedDebtors(balances, order);
    SidesDisjoint(cs, ds, balances);
  }

  /** Every payment goes from a person who owes more than the tolerance to a
      different person who is owed more than it, and is above the tolerance. */
  lemma PlanParties(balances: map<Name, Cents>, order: seq<Name>)
    requires IterationOrder(balances, order)
    ensures forall s :: s in Plan(balances, order) ==>
      && s.to in balances && s.from in balances
      && balances[s.to] > Dust && balances[s.from] < -Dust
      && s.from != s.to && s.amount > Dust
  {
    var entries := Items(balances, order);
    var cs, ds := Sort(Creditors(entries), true), Sort(Debtors(entries), false);
    PlanReady(balances, order);
    SortedCreditors(balances, order);
    SortedDebtors(balances, order);
    GreedyParties(cs, ds);
    forall s | s in Plan(balances, order)
      ensures s.to in balances && s.from in balances && balances[s.to] > Dust && balances[s.from] < -Dust
    {
      NamesHas(cs, s.to);
      NamesHas(ds, s.from);
      var x :| 0 <= x < |cs| && cs[x].name == s.to;
      var y :| 0 <= y < |ds| && ds[y].name == s.from;
      assert cs[x] in cs && ds[y] in ds;
    }
  }

  /** No creditor receives more than it is owed, no debtor pays more than it
      owes, and people within the tolerance, or not in the dictionary, take
      no part. */
  lemma PlanBounded(balances: map<Name, Cents>, order: seq<Name>)
    requires IterationOrder(balances, order)
    ensures var ss := Plan(balances, order);
      forall p :: p in balances && balances[p] > Dust ==>
        0 <= Received(ss, p) <= balances[p] && Paid(ss, p) == 0
    ensures var ss := Plan(balances, order);
      forall p :: p in balances && balances[p] < -Dust ==>
        0 <= Paid(ss, p) <= -balances[p] && Received(ss, p) == 0
    ensures var ss := Plan(balances, order);
      forall p :: (p !in balances || -Dust <= balances[p] <= Dust) ==>
        Received(ss, p) == 0 && Paid(ss, p) == 0
  {
    var entries := Items(balances, order);
    var cs, ds := Sort(Creditors(entries), true), Sort(Debtors(entries), false);
    var ss := Plan(balances, order);
    PlanReady(balances, order);
    SortedCreditors(balances, order);
    SortedDebtors(balances, order);
    PlanParties(balances, order);
    GreedyBounded(cs, ds);
    forall p | p in balances && balances[p] > Dust
      ensures 0 <= Received(ss, p) <= balances[p] && Paid(ss, p) == 0
    {
      assert Entry(p, balances[p]) in cs;
    }
    forall p | p in balances && balances[p] < -Dust
      ensures 0 <= Paid(ss, p) <= -balances[p] && Received(ss, p) == 0
    {
      assert Entry(p, balances[p]) in ds;
    }
    forall p | p !in balances || -Dust <= balances[p] <= Dust
      ensures Received(ss, p) == 0 && Paid(ss, p) == 0
    {
      NeitherReceivedNorPaid(ss, p);
    }
  }

  /** What `p` is still owed (negative: still owes) once the payments are made. */
  function Residual(balances: map<Name, Cents>, ss: seq<Settlement>, p: Name): Cents
    requires p in balances
  {
    balances[p] - Received(ss, p) + Paid(ss, p)
  }

  /** Once the payments are made, every creditor or every debtor is within
      the tolerance of zero. */
  lemma PlanSettlesOneSide(balances: map<Name, Cents>, order: seq<Name>)
    requires IterationOrder(balances, order)
    ensures var ss := Plan(balances, order);
      || (forall p :: p in balances && balances[p] > Dust ==> Residual(balances, ss, p) <= Dust)
      || (forall p :: p in balances && balances[p] < -Dust ==> Residual(balances, ss, p) >= -Dust)
  {
    var entries := Items(balances, order);
    var cs, ds := Sort(Creditors(entries), true), Sort(Debtors(entries), false);
    var ss := Plan(balances, order);
    PlanReady(balances, order);
    SortedCreditors(balances, order);
    SortedDebtors(balances, order);
    PlanBounded(balances, order);
    GreedySettlesOneSide(cs, ds);
    if forall e :: e in cs ==> e.cents - Received(ss, e.name) <= Dust {
      forall p | p in balances && balances[p] > Dust
        ensures Residual(balances, ss, p) <= Dust
      {
        assert Entry(p, balances[p]) in cs;
      }
    } else {
      forall p | p in balances && balances[p] < -Dust
        ensures Residual(balances, ss, p) >= -Dust
      {
        assert Entry(p, balances[p]) in ds;
      }
    }
  }

  /** With `m` creditors and `n` debtors there are no payments when either is
      absent, and otherwise at least min(m, n) and at most m + n - 1. */
  lemma PlanCount(balances: map<Name, Cents>, order: seq<Name>)
    requires IterationOrder(balances, order)
    ensures var ss := Plan(balances, order);
      var m, n := |Creditors(Items(balances, order))|, |Debtors(Items(balances, order))|;
      && (m == 0 || n == 0 ==> ss == [])
      && (m > 0 && n > 0 ==> Min(m, n) <= |ss| <= m + n - 1)
  {
    var entries := Items(balances, order);
    PlanReady(balances, order);
    SortedCreditors(balances, order);
    SortedDebtors(balances, order);
    GreedyCount(Sort(Creditors(entries), true), Sort(Debtors(entries), false));
  }

  /** Payments are listed by payee from the largest starting balance down and
      by payer from the most negative starting balance up. */
  lemma PlanOrder(balances: map<Name, Cents>, order: seq<Name>)
    requires IterationOrder(balances, order)
    ensures PaysInOrder(Plan(balances, order), balances)
  {
    var entries := Items(balances, order);
    PlanReady(balances, order);
    SortedCreditors(balances, order);
    SortedDebtors(balances, order);
    GreedyOrder(Sort(Creditors(entries), true), Sort(Debtors(entries), false), balances);
  }

  lemma ExampleItems(a: Name, b: Name, c: Name)
    requires a != b && b != c && a != c
    ensures Items(map[a := 3000, b := -1000, c := -2000], [a, b, c])
         == [Entry(a, 3000), Entry(b, -1000), Entry(c, -2000)]
  {
    var balances := map[a := 3000, b := -1000, c := -2000];
    var r := Items(balances, [a, b, c]);
    assert r[0] == Entry(a, 3000) && r[1] == Entry(b, -1000) && r[2] == Entry(c, -2000);
  }

  lemma ExampleSides(a: Name, b: Name, c: Name)
    ensures var entries := [Entry(a, 3000), Entry(b, -1000), Entry(c, -2000)];
      && Sort(Creditors(entries), true) == [Entry(a, 3000)]
      && Sort(Debtors(entries), false) == [Entry(c, -2000), Entry(b, -1000)]
  {
    var ea, eb, ec := Entry(a, 3000), Entry(b, -1000), Entry(c, -2000);
    var entries := [ea, eb, ec];
    assert entries[1..] == [eb, ec] && [eb, ec][1..] == [ec] && [ec][1..] == [];
    assert Creditors([ec]) == [];
    assert Creditors([eb, ec]) == [];
    assert Creditors(entries) == [ea];
    assert Sort([ea], true) == Insert(ea, [], true);
    assert Debtors([ec]) == [ec];
    assert Debtors([eb, ec]) == [eb] + [ec];
    assert Debtors(entries) == [eb, ec];
    assert Sort([ec], false) == [ec];
    assert Insert(eb, [ec], false) == [ec] + Insert(eb, [], false);
  }

  /** The matching of creditor A owed 3000 against debtors C owing 2000 and
      B owing 1000: C pays 2000, which leaves A owed 1000, and B pays that. */
  lemma ExampleGreedy(a: Name, b: Name, c: Name)
    ensures Greedy([Entry(a, 3000)], [Entry(c, -2000), Entry(b, -1000)])
         == [Settlement(c, a, 2000), Settlement(b, a, 1000)]
  {
    var cs, ds := [Entry(a, 3000)], [Entry(c, -2000), Entry(b, -1000)];
    GreedyStep(cs, ds, 2000);
    assert AfterCredit(cs, 2000) == [Entry(a, 1000)];
    assert AfterDebit(ds, 2000) == [Entry(b, -1000)];
    var cs', ds' := [Entry(a, 1000)], [Entry(b, -1000)];
    GreedyStep(cs', ds', 1000);
    assert AfterCredit(cs', 1000) == [] && AfterDebit(ds', 1000) == [];
    assert Greedy(cs', ds') == [Settlement(b, a, 1000)];
  }

  /** A is owed 3000, B owes 1000 and C owes 2000: C, the larger debtor,
      pays first. */
  lemma LargestDebtorPaysFirst(a: Name, b: Name, c: Name)
    requires a != b && b != c && a != c
    ensures Plan(map[a := 3000, b := -1000, c := -2000], [a, b, c])
         == [Settlement(c, a, 2000), Settlement(b, a, 1000)]
  {
    ExampleItems(a, b, c);
    ExampleSides(a, b, c);
    ExampleGreedy(a, b, c);
  }

  /** When nobody is owed more than the tolerance there is no payment. */
  lemma NoCreditorNoPlan(balances: map<Name, Cents>, order: seq<Name>)
    requires forall p :: p in order ==> p in balances
    requires forall p :: p in balances ==> balances[p] <= Dust
    ensures Plan(balances, order) == []
  {
    var cr := Creditors(Items(balances, order));
    assert cr == [];
    assert Sort(cr, true) == [];
  }

  /** A, B and C are owed one cent each and D owes three cents: nobody is
      owed more than the tolerance, so no payment is suggested and D still
      owes three cents afterwards. */
  lemma DustCreditorsGetNothing(a: Name, b: Name, c: Name, d: Name)
    ensures var balances := map[a := 1, b := 1, c := 1, d := -3];
      && Plan(balances, [a, b, c, d]) == []
      && (d !in {a, b, c} ==> Residual(balances, Plan(balances, [a, b, c, d]), d) == -3)
  {
    var balances := map[a := 1, b := 1, c := 1, d := -3];
    NoCreditorNoPlan(balances, [a, b, c, d]);
  }
}
