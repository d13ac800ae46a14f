/** The point ledger as a value: the balance table, the history table and
    the history table's next sequence number, and what one call of the
    charge/use operation does to them. The class in module Service is
    proved to follow `Transact`. */
module PointLedger {
  import opened PointTypes
  import opened PointStores

  datatype Ledger = Ledger(points: map<int, UserPoint>, history: seq<PointHistory>, cursor: int)

  /** What the two tables guarantee of each other at all times: records are
      filed under their own id, and every assigned sequence number is below
      the next one and above all earlier ones. */
  predicate WellFormed(s: Ledger)
  {
    KeysMatch(s.points)
    && IdsIncreasing(s.history)
    && (forall i :: 0 <= i < |s.history| ==> s.history[i].id < s.cursor)
  }

  /** The service's standing constraint: no stored balance is negative. */
  predicate NonNegative(points: map<int, UserPoint>)
  {
    forall k :: k in points ==> points[k].point >= 0
  }

  /** The validation and arithmetic of one charge/use request against the
      current balance: the amount is checked for sign first, then the type
      decides whether it is added or subtracted; a subtraction that would go
      below zero is refused. */
  function NewPoint(current: int, amount: int, kind: TransactionType): (r: Result<int>)
    ensures r.Ok? <==> amount >= 0 && (kind == Charge || (kind == Use && amount <= current))
    ensures amount < 0 ==> r == Err(NegativeAmount)
    ensures amount >= 0 && kind == Other ==> r == Err(UnsupportedType)
    ensures amount >= 0 && kind == Use && amount > current ==> r == Err(InsufficientPoint)
    ensures r.Ok? && kind == Charge ==> r.value - amount == current
    ensures r.Ok? && kind == Use ==> r.value + amount == current
    ensures r.Ok? && current >= 0 ==> r.value >= 0
  {
    if amount < 0 then Err(NegativeAmount)
    else
      match kind
      case Charge => Ok(current + amount)
      case Use => if current - amount < 0 then Err(InsufficientPoint) else Ok(current - amount)
      case Other => Err(UnsupportedType)
  }

  /** The outcome of one call and the ledger after it. */
  datatype Step = Step(result: Result<UserPoint>, next: Ledger)

  /** The history entry a successful call appends: the requested amount,
      always recorded with type `Use`, whatever type was requested. */
  function Recorded(s: Ledger, id: int, amount: int, historyMillis: int): (e: PointHistory)
  {
    PointHistory(s.cursor, id, amount, Use, historyMillis)
  }

  /** One charge/use call: read the balance, validate, write the new balance,
      append one history entry, and return the re-read record. Every error
      is raised before the first write. */
  function Transact(s: Ledger, id: int, amount: int, kind: TransactionType, balanceMillis: int, historyMillis: int): (r: Step)
    requires WellFormed(s)
    ensures WellFormed(r.next)
    ensures r.result.Ok? <==> amount >= 0 && (kind == Charge || (kind == Use && amount <= SelectById(s.points, id).point))
    ensures r.result.Err? ==> r.next == s
    ensures r.result.Err? ==> r.result.error == (if amount < 0 then NegativeAmount else if kind == Other then UnsupportedType else InsufficientPoint)
    ensures r.result.Ok? ==>
      var before := SelectById(s.points, id).point;
      && SelectById(r.next.points, id) == UserPoint(id, if kind == Charge then before + amount else before - amount, balanceMillis)
      && r.result.value == SelectById(r.next.points, id)
      && r.next.points.Keys == s.points.Keys + {id}
      && r.next.history == s.history + [Recorded(s, id, amount, historyMillis)]
      && r.next.cursor == s.cursor + 1
    ensures forall u :: u != id ==> SelectById(r.next.points, u) == SelectById(s.points, u)
    ensures NonNegative(s.points) ==> NonNegative(r.next.points)
  {
    var userPoint := SelectById(s.points, id);
    match NewPoint(userPoint.point, amount, kind)
    case Err(e) => Step(Err(e), s)
    case Ok(resultPoint) =>
      var points := InsertOrUpdate(s.points, userPoint.id, resultPoint, balanceMillis);
      var history := s.history + [Recorded(s, userPoint.id, amount, historyMillis)];
      var next := Ledger(points, history, s.cursor + 1);
      assert NonNegative(s.points) ==> NonNegative(points) by {
        if NonNegative(s.points) {
          forall k | k in points ensures points[k].point >= 0 {
            assert points[k] == SelectById(points, k);
            if k != id { assert SelectById(s.points, k) == s.points[k]; }
          }
        }
      }
      Step(Ok(SelectById(next.points, userPoint.id)), next)
  }

  /** A zero amount passes validation: the balance stays, but a history
      entry is still appended. */
  lemma ZeroAmountIsRecorded(s: Ledger, id: int, kind: TransactionType, balanceMillis: int, historyMillis: int)
    requires WellFormed(s) && NonNegative(s.points)
    requires kind != Other
    ensures var r := Transact(s, id, 0, kind, balanceMillis, historyMillis);
      && r.result.Ok?
      && r.result.value.point == SelectById(s.points, id).point
      && |r.next.history| == |s.history| + 1
  {
  }

  /** After a successful call, the history query of the caller's id gains
      exactly the new entry at its end, and every other user's history
      query is unchanged; after a failed call no query changes. */
  lemma HistoryAfterTransact(s: Ledger, id: int, amount: int, kind: TransactionType, balanceMillis: int, historyMillis: int, u: int)
    requires WellFormed(s)
    ensures var r := Transact(s, id, amount, kind, balanceMillis, historyMillis);
      SelectAllByUserId(r.next.history, u)
        == SelectAllByUserId(s.history, u)
           + (if r.result.Ok? && u == id then [Recorded(s, id, amount, historyMillis)] else [])
  {
    var r := Transact(s, id, amount, kind, balanceMillis, historyMillis);
    if r.result.Ok? {
      SelectAllAppend(s.history, Recorded(s, id, amount, historyMillis), u);
    }
  }

  /** A request to the service, with the two clock readings taken during
      it: the balance table's stamp and the history entry's time. */
  datatype Request = Request(id: int, amount: int, kind: TransactionType, balanceMillis: int, historyMillis: int)

  /** The ledger after the requests have been served one at a time, in
      order. That is the order a global lock would impose; the service
      itself takes no lock, so this does not describe concurrent calls. */
  function Replay(s: Ledger, reqs: seq<Request>): (r: Ledger)
    requires WellFormed(s)
    ensures WellFormed(r)
    decreases |reqs|
  {
    if reqs == [] then s
    else Replay(Transact(s, reqs[0].id, reqs[0].amount, reqs[0].kind, reqs[0].balanceMillis, reqs[0].historyMillis).next, reqs[1..])
  }

  /** No sequence of calls, successful or not, makes a balance negative, and
      none shortens or rewrites the history. */
  lemma {:induction false} ReplayKeepsBalancesNonNegative(s: Ledger, reqs: seq<Request>)
    requires WellFormed(s) && NonNegative(s.points)
    ensures NonNegative(Replay(s, reqs).points)
    ensures s.history <= Replay(s, reqs).history
    decreases |reqs|
  {
    if reqs != [] {
      var next := Transact(s, reqs[0].id, reqs[0].amount, reqs[0].kind, reqs[0].balanceMillis, reqs[0].historyMillis).next;
      ReplayKeepsBalancesNonNegative(next, reqs[1..]);
    }
  }

  /** `n` requests to use `amount` points, all by user `id`. */
  function Uses(id: int, amount: int, n: nat, balanceMillis: int, historyMillis: int): seq<Request>
  {
    if n == 0 then [] else [Request(id, amount, Use, balanceMillis, historyMillis)] + Uses(id, amount, n - 1, balanceMillis, historyMillis)
  }

  /** Served one at a time, `n` uses of `amount` points against a balance of
      exactly `n * amount` all succeed (each appends one history entry) and
      leave the balance at zero. */
  lemma {:induction false} RepeatedUseDrains(s: Ledger, id: int, amount: nat, n: nat, balanceMillis: int, historyMillis: int)
    requires WellFormed(s)
    requires SelectById(s.points, id).point == n * amount
    ensures SelectById(Replay(s, Uses(id, amount, n, balanceMillis, historyMillis)).points, id).point == 0
    ensures |Replay(s, Uses(id, amount, n, balanceMillis, historyMillis)).history| == |s.history| + n
    decreases n
  {
    var reqs := Uses(id, amount, n, balanceMillis, historyMillis);
    if n > 0 {
      assert n * amount == (n - 1) * amount + amount;
      var r := Transact(s, id, amount, Use, balanceMillis, historyMillis);
      assert r.result.Ok?;
      assert SelectById(r.next.points, id).point == (n - 1) * amount;
      assert reqs[1..] == Uses(id, amount, n - 1, balanceMillis, historyMillis);
      RepeatedUseDrains(r.next, id, amount, n - 1, balanceMillis, historyMillis);
    }
  }
}
