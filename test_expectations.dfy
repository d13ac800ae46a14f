/** What the service's tests expect where it differs from what the service
    does. The model follows the service; this module states the tests'
    rules and where the two part. */
module TestExpectations {
  import opened PointTypes
  import opened PointStores
  import opened PointLedger

  /** The tests' rule for a use: only whole thousands are deducted, the
      requested amount rounded down to a multiple of 1000. */
  function UsableAmount(amount: nat): (r: nat)
    ensures r % 1000 == 0
    ensures r <= amount < r + 1000
  {
    amount / 1000 * 1000
  }

  /** The tests' own examples of the rounding rule. */
  lemma RoundingExamples()
    ensures 21234 - UsableAmount(1234) == 20234
    ensures 2000 - UsableAmount(1050) == 1000
  {
  }

  /** The service deducts the full amount: a use of 1050 points against a
      balance of 2000 leaves 950, where the tests expect 1000. */
  lemma UseDeductsFullAmount(s: Ledger, id: int, balanceMillis: int, historyMillis: int)
    requires WellFormed(s)
    requires SelectById(s.points, id).point == 2000
    ensures var r := Transact(s, id, 1050, Use, balanceMillis, historyMillis);
      r.result.Ok? && SelectById(r.next.points, id).point == 950
      && SelectById(r.next.points, id).point != 2000 - UsableAmount(1050)
  {
  }

  /** The service records every entry as a use: a successful charge appends
      an entry of type `Use`, where the tests expect the requested type. */
  lemma ChargeRecordedAsUse(s: Ledger, id: int, amount: nat, balanceMillis: int, historyMillis: int)
    requires WellFormed(s)
    ensures var r := Transact(s, id, amount, Charge, balanceMillis, historyMillis);
      r.result.Ok? && r.next.history[|r.next.history| - 1].kind == Use
      && r.next.history[|r.next.history| - 1].amount == amount
  {
  }
}
