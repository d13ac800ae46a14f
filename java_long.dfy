/** Java `long` arithmetic for the charge and use branches of the service.
    The rest of the model computes balances on unbounded integers; this
    module shows where the 64-bit addition and subtraction the service
    performs depart from that. */
module JavaLong {
  import opened PointTypes
  import opened PointLedger

  const LONG_MIN: int := -0x8000_0000_0000_0000
  const LONG_MAX: int := 0x7FFF_FFFF_FFFF_FFFF
  const LONG_MODULUS: int := 0x1_0000_0000_0000_0000

  predicate IsLong(x: int)
  {
    LONG_MIN <= x <= LONG_MAX
  }

  /** Two's-complement wrap-around of an exact result into the `long`
      range. */
  function Wrap(x: int): (r: int)
    ensures IsLong(r)
    ensures IsLong(x) ==> r == x
    ensures LONG_MAX < x <= LONG_MAX + LONG_MODULUS ==> r == x - LONG_MODULUS
    ensures LONG_MIN - LONG_MODULUS <= x < LONG_MIN ==> r == x + LONG_MODULUS
  {
    (x - LONG_MIN) % LONG_MODULUS + LONG_MIN
  }

  /** The charge branch as the service computes it: the sum of two `long`
      values, wrapped. Where the exact sum fits, it agrees with the model's
      `NewPoint`; past `LONG_MAX` a non-negative balance and amount give a
      negative result, which the charge branch stores without a check. */
  function ChargeAsWritten(current: int, amount: int): (r: int)
    requires IsLong(current) && IsLong(amount)
    ensures IsLong(r)
    ensures IsLong(current + amount) && amount >= 0 ==> NewPoint(current, amount, Charge) == Ok(r)
    ensures current >= 0 && amount >= 0 && current + amount > LONG_MAX ==> r < 0
  {
    Wrap(current + amount)
  }

  /** The input that shows it: a balance of `LONG_MAX` charged with 1 point
      is stored as `LONG_MIN`. */
  lemma ChargeOverflowGoesNegative()
    ensures ChargeAsWritten(LONG_MAX, 1) == LONG_MIN
    ensures NewPoint(LONG_MAX, 1, Charge) == Ok(LONG_MAX + 1)
  {
  }

  /** The use branch as the service computes it: the difference of two
      `long` values, wrapped, and then checked for a negative result. From
      a non-negative balance the difference cannot wrap, and the check
      agrees with the model's `NewPoint`. From a negative balance (one that
      a wrapped charge can leave) a difference below `LONG_MIN` wraps to a
      positive value, which passes the check and is stored. */
  function UseAsWritten(current: int, amount: int): (r: int)
    requires IsLong(current) && IsLong(amount)
    ensures IsLong(r)
    ensures current >= 0 && amount >= 0 ==> r == current - amount
    ensures current >= 0 && amount >= 0 ==>
      (r >= 0 <==> NewPoint(current, amount, Use).Ok?) && (r >= 0 ==> NewPoint(current, amount, Use) == Ok(r))
    ensures current - amount < LONG_MIN ==> r > 0
  {
    Wrap(current - amount)
  }

  /** The input that shows it: after the overflowing charge above, a
      balance of `LONG_MIN` used by 1 point passes the check as `LONG_MAX`,
      where the model's `NewPoint` refuses it. */
  lemma UseAfterOverflowWraps()
    ensures ChargeAsWritten(LONG_MAX, 1) == LONG_MIN
    ensures UseAsWritten(LONG_MIN, 1) == LONG_MAX
    ensures NewPoint(LONG_MIN, 1, Use) == Err(InsufficientPoint)
  {
  }
}
