/** Division of one expense, in cents, among the participants who share it:
    every participant pays the floor of the even share, and the cents left
    over go one each to the first participants in list order. */
module Split {
  import opened Money

  /** The cents left over by the floor division of `amount` by `n`,
      computed as the amount minus `n` even shares. */
  function Remainder(amount: Cents, n: nat): (r: int)
    requires n > 0
    ensures 0 <= r < n
  {
    amount - (amount / n) * n
  }

  /** The share of the participant at position `k` among `n`. */
  function Share(amount: Cents, n: nat, k: nat): Cents
    requires n > 0
  {
    amount / n + (if k < Remainder(amount, n) then 1 else 0)
  }

  /** The shares of positions 0 .. k-1 added up. */
  function SharesUpTo(amount: Cents, n: nat, k: nat): Cents
    requires n > 0
  {
    if k == 0 then 0 else SharesUpTo(amount, n, k - 1) + Share(amount, n, k - 1)
  }

  /** The first `k` shares are `k` even shares plus one cent for each of
      them that lies among the first `Remainder` positions. */
  lemma {:induction false} SharesUpToIs(amount: Cents, n: nat, k: nat)
    requires n > 0
    ensures SharesUpTo(amount, n, k) == k * (amount / n) + Min(k, Remainder(amount, n))
  {
    if k > 0 {
      SharesUpToIs(amount, n, k - 1);
      assert k * (amount / n) == (k - 1) * (amount / n) + amount / n;
    }
  }

  /** The shares of all `n` participants add up to exactly the amount. */
  lemma SplitIsExact(amount: Cents, n: nat)
    requires n > 0
    ensures SharesUpTo(amount, n, n) == amount
  {
    SharesUpToIs(amount, n, n);
  }

  /** Every share is the even share or one cent more; exactly the first
      `Remainder` positions get the extra cent, so shares never grow along
      the list and two shares differ by at most one cent. */
  lemma SplitIsFair(amount: Cents, n: nat)
    requires n > 0
    ensures forall k :: 0 <= k < n ==>
      Share(amount, n, k) == amount / n || Share(amount, n, k) == amount / n + 1
    ensures forall k :: 0 <= k < n ==>
      (Share(amount, n, k) == amount / n + 1 <==> k < Remainder(amount, n))
    ensures forall i, j :: 0 <= i <= j < n ==>
      0 <= Share(amount, n, i) - Share(amount, n, j) <= 1
  {
  }

  /** 100 cents among three participants: 34, 33, 33. */
  lemma SplitHundredAmongThree()
    ensures Share(100, 3, 0) == 34 && Share(100, 3, 1) == 33 && Share(100, 3, 2) == 33
    ensures SharesUpTo(100, 3, 3) == 100
  {
  }
}
