/** Names, money and the settling tolerance shared by the balance calculator
    and the settlement planner. */
module Money {

  /** A person, identified by display name. */
  type Name = string

  /** An amount of money in integer minor units (cents). */
  type Cents = int

  /** Balances within this many cents of zero count as already settled. */
  const Dust: Cents := 1

  function Min(a: int, b: int): int
  {
    if a < b then a else b
  }
}
