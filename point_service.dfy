/** The point service: one object that owns the balance table, the history
    table and the history table's sequence counter, and the three operations
    callers use. */
module Service {
  import opened PointTypes
  import opened PointStores
  import opened PointLedger

  class PointService {
    var points: map<int, UserPoint>
    var history: seq<PointHistory>
    var cursor: int

    /** The tables as one value, for stating what an operation does. */
    function State(): (s: Ledger)
      reads this
    {
      Ledger(points, history, cursor)
    }

    /** The tables are well formed and no stored balance is negative. */
    ghost predicate Valid()
      reads this
    {
      WellFormed(State()) && NonNegative(points)
    }

    /** A service over empty tables; the history table numbers its first
        entry 1. */
    constructor ()
      ensures Valid()
      ensures points == map[] && history == [] && cursor == 1
    {
      points := map[];
      history := [];
      cursor := 1;
    }

    /** The balance of `id`: the stored record, or a zero balance for an
        unknown user. Nothing is written, so an unknown user stays unknown. */
    function GetUserPoint(id: int): (r: UserPoint)
      reads this
      requires Valid()
      ensures r.id == id
      ensures id in points ==> r == points[id]
      ensures id !in points ==> r.point == 0
      ensures r.point >= 0
    {
      SelectById(points, id)
    }

    /** The history of `id`: exactly the entries recorded for that user, in
        the order they were recorded. */
    function GetUserPointHistoryList(id: int): (r: seq<PointHistory>)
      reads this
      requires Valid()
      ensures forall e :: e in r <==> e in history && e.userId == id
      ensures IdsIncreasing(r)
    {
      var userPoint := GetUserPoint(id);
      SelectAllKeepsOrder(history, userPoint.id);
      SelectAllByUserId(history, userPoint.id)
    }

    /** Charges or uses `amount` points of user `id`. The balance table
        stamps its write with `balanceMillis`; the history entry carries the
        separate clock reading `historyMillis`. On an
        error nothing is written; on success the balance of `id` is written
        once, one history entry is appended, and the stored record is
        returned. `Valid()` carries the rule that no balance is negative. */
    method UseUserPoint(id: int, amount: int, kind: TransactionType, balanceMillis: int, historyMillis: int) returns (r: Result<UserPoint>)
      requires Valid()
      modifies this
      ensures Valid()
      ensures Step(r, State()) == Transact(old(State()), id, amount, kind, balanceMillis, historyMillis)
      ensures r.Err? ==> points == old(points) && history == old(history) && cursor == old(cursor)
    {
      var userPoint := SelectById(points, id);
      if amount < 0 {
        return Err(NegativeAmount);
      }
      var resultPoint := 0;
      if kind == Charge {
        resultPoint := userPoint.point + amount;
      } else if kind == Use {
        resultPoint := userPoint.point - amount;
        if resultPoint < 0 {
          return Err(InsufficientPoint);
        }
      } else {
        return Err(UnsupportedType);
      }
      points := InsertOrUpdate(points, userPoint.id, resultPoint, balanceMillis);
      history := history + [Recorded(State(), userPoint.id, amount, historyMillis)];
      cursor := cursor + 1;
      r := Ok(SelectById(points, userPoint.id));
    }
  }

  /** A caller's view, following the charge and use scenarios of the
      service's tests: what the contracts above let a client conclude. */
  method ChargeThenUse(id: int, t0: int, t1: int, t2: int)
  {
    var service := new PointService();
    var unknown := service.GetUserPoint(id);
    assert unknown.point == 0;
    var r := service.UseUserPoint(id, 100, Charge, t0, t1);
    assert r == Ok(UserPoint(id, 100, t0));
    assert service.history == [PointHistory(1, id, 100, Use, t1)];
    r := service.UseUserPoint(id, 50, Charge, t1, t2);
    assert r.Ok? && r.value.point == 150;
    r := service.UseUserPoint(id, 200, Use, t2, t2);
    assert r == Err(InsufficientPoint);
    r := service.UseUserPoint(id, -1, Charge, t2, t2);
    assert r == Err(NegativeAmount);
    assert service.GetUserPoint(id).point == 150;
    assert |service.history| == 2;
  }
}
