# Point ledger

A model of the point service of a small per-user point ledger. The service
keeps two stores: a balance table that maps a user id to that user's point
record, and an append-only history table of `(id, userId, amount, type,
time)` entries numbered by the table's own counter. It offers three
operations:

- `getUserPoint(id)`: read one user's balance;
- `getUserPointHistoryList(id)`: read one user's history, in insertion order;
- `useUserPoint(id, amount, type)`: charge or use points. It reads the
  balance. It rejects a negative amount. It adds the amount for CHARGE. It
  subtracts the amount for USE and rejects a negative result. It rejects any
  other type. Then it writes the new balance, appends one history entry and
  returns the re-read record.

The files:

- `point_types.dfy`: the records (`UserPoint`, `PointHistory`), the
  transaction type and the error outcomes.
- `point_stores.dfy`: the two tables as a map and a sequence, with the
  lookup, the balance write and the per-user history query, and lemmas on
  the query (append, order).
- `point_ledger.dfy`: the whole state as a value (`Ledger`). `Transact` is
  one charge/use call as a function. The lemmas cover one call and
  sequences of calls (`Replay`).
- `point_service.dfy`: the service as a class with `points`, `history` and
  `cursor` fields. `UseUserPoint` is an imperative method proved to follow
  `Transact`. The two queries read the fields and write nothing.
- `java_long.dfy`: the charge and use branches in 64-bit `long`
  arithmetic (see Findings).
- `test_expectations.dfy`: the rules the service's tests expect where they
  differ from the service's code.

The model follows the code, not the tests or the comments. The tests and
the comments differ from the code in five places:

- **Rounding on USE.** The tests expect a use to deduct only whole thousands
  (`amount / 1000 * 1000`): balance 2000, use 1050, expected 1000. The code
  deducts the full amount. `UseDeductsFullAmount` shows the code's result
  (950). `UsableAmount` states the tests' rule.
- **History type.** The tests expect the history entry to carry the
  requested type. The code always records `USE`. `ChargeRecordedAsUse`
  states the code's behaviour.
- **Unknown users.** The tests expect reading an unknown user to create a
  zero record. The code never writes on the read path. The model reads an
  unknown id as a zero balance and writes nothing: `GetUserPoint` is a
  function of the state.
- **Exception type.** The negative-amount tests (PointServiceTest.java:73
  and :89) expect an `IllegalArgumentException`. The code throws a plain
  `RuntimeException` (PointService.java:67). The model turns every
  exception into an `Err` result, so it does not tell exception classes
  apart; the error names only say which guard fired.
- **Zero amount.** The service's comments (PointService.java:20 and :62)
  and the test comments (PointServiceTest.java:61 and :79) say an amount
  must be greater than 0. The code rejects only `amount < 0`, so 0 is
  accepted. `ZeroAmountIsRecorded` states the code's behaviour: the balance
  stays and one history entry is still appended.

`ChargeThenUse` in `point_service.dfy` is a client of the class. It walks
through a charge, a second charge, an overdraft and a negative amount, and
shows what the contracts let a caller conclude. It has no contract of its
own.

## Model

| member | source | states |
|---|---|---|
| `PointStores.SelectById` | 01/hhplus-tdd-java/src/main/java/io/hhplus/tdd/point/PointService.java:66 | stands in for the balance lookup `userPointRepository.selectById` (also at lines 33, 47 and 85): the stored record for a known id, a zero balance for an unknown id, nothing written; on a table where every record is filed under its own id, the result's id is the queried id |
| `PointStores.InsertOrUpdate` | 01/hhplus-tdd-java/src/main/java/io/hhplus/tdd/point/PointService.java:82 | after the balance write, a lookup of `id` returns the written balance and time, every other id reads as before, and records stay filed under their own id |
| `PointStores.SelectAllByUserId` | 01/hhplus-tdd-java/src/main/java/io/hhplus/tdd/point/PointService.java:48 | the history query returns an entry exactly when it is in the history and belongs to the user (both directions) |
| `PointStores.SelectAllAppend` | 01/hhplus-tdd-java/src/main/java/io/hhplus/tdd/point/PointService.java:83 | appending an entry extends that entry's user's query by exactly that entry at its end and leaves every other user's query unchanged |
| `PointStores.SelectAllKeepsOrder` | 01/hhplus-tdd-java/src/main/java/io/hhplus/tdd/point/PointService.java:41-53 | on a history ordered by sequence number, one user's query is ordered by sequence number too (insertion order is kept) |
| `PointLedger.NewPoint` | 01/hhplus-tdd-java/src/main/java/io/hhplus/tdd/point/PointService.java:66-80 | the request succeeds iff the amount is non-negative and the type is CHARGE, or USE with amount at most the balance. A negative amount is rejected first, whatever the type. An unknown type and an overdraft each get their own error. CHARGE adds the amount, USE subtracts it. A non-negative balance stays non-negative |
| `PointLedger.Transact` | 01/hhplus-tdd-java/src/main/java/io/hhplus/tdd/point/PointService.java:58-86 | success iff the validation passes. On any error the whole ledger is unchanged, with the error named by the first guard that fails. On success the balance of `id` becomes old + amount (CHARGE) or old - amount (USE) stamped with the balance table's clock reading. Exactly one history entry is appended, with the next sequence number, `userId = id`, the requested amount, type USE and the separate history clock reading. The counter advances by one. The returned record is the stored one. Every other user's balance is untouched. Non-negativity of all balances and the tables' well-formedness are preserved |
| `PointLedger.ZeroAmountIsRecorded` | 01/hhplus-tdd-java/src/main/java/io/hhplus/tdd/point/PointService.java:67 | an amount of 0 with CHARGE or USE succeeds, leaves the balance as it was and still appends one history entry |
| `PointLedger.HistoryAfterTransact` | 01/hhplus-tdd-java/src/main/java/io/hhplus/tdd/point/PointService.java:82-83 | after a call, a user's history query is the old query plus the new entry if the call succeeded for that user, and the old query otherwise |
| `PointLedger.ReplayKeepsBalancesNonNegative` | 01/hhplus-tdd-java/src/main/java/io/hhplus/tdd/point/PointService.java:21 | any sequence of calls, whether each succeeds or fails, keeps every balance non-negative and only extends the history |
| `PointLedger.RepeatedUseDrains` | 01/hhplus-tdd-java/src/test/java/io/hhplus/tdd/point/PointServiceTest.java:200-234 | `n` uses of `a` points served one at a time against a balance of `n * a` all succeed (the history grows by `n`) and leave the balance at zero |
| `Service.PointService.constructor` | 01/hhplus-tdd-java/src/main/java/io/hhplus/tdd/point/PointService.java:13-16 | a new service starts over empty tables that satisfy the invariant |
| `Service.PointService.GetUserPoint` | 01/hhplus-tdd-java/src/main/java/io/hhplus/tdd/point/PointService.java:27-36 | returns the stored record for `id`, or a zero balance for an unknown id, always with `id` as its id and a non-negative balance, and writes nothing |
| `Service.PointService.GetUserPointHistoryList` | 01/hhplus-tdd-java/src/main/java/io/hhplus/tdd/point/PointService.java:41-53 | returns exactly the stored entries of `id` (both directions), ordered by sequence number, and writes nothing |
| `Service.PointService.UseUserPoint` | 01/hhplus-tdd-java/src/main/java/io/hhplus/tdd/point/PointService.java:58-86 | the imperative read-validate-write does what `Transact` states; on error no field changes; the invariant, which includes that no balance is negative, is kept |
| `JavaLong.Wrap` | 01/hhplus-tdd-java/src/main/java/io/hhplus/tdd/point/PointService.java:72 | the result is a `long`. It equals the input when that fits. It is the input shifted by 2^64 when the input lies one range above or below |
| `JavaLong.ChargeAsWritten` | 01/hhplus-tdd-java/src/main/java/io/hhplus/tdd/point/PointService.java:72 | the 64-bit charge agrees with `NewPoint` whenever the exact sum fits in a `long`. A non-negative balance and amount whose sum passes `LONG_MAX` give a negative balance |
| `JavaLong.ChargeOverflowGoesNegative` | 01/hhplus-tdd-java/src/main/java/io/hhplus/tdd/point/PointService.java:72 | balance `LONG_MAX` charged with 1 is stored as `LONG_MIN` in 64 bits, where the model's `NewPoint` gives `LONG_MAX + 1` |
| `JavaLong.UseAsWritten` | 01/hhplus-tdd-java/src/main/java/io/hhplus/tdd/point/PointService.java:75-76 | the 64-bit use agrees with `NewPoint` from a non-negative balance: same difference, and the `< 0` check refuses exactly when `NewPoint` does. A difference below `LONG_MIN` wraps to a positive value, which passes the check |
| `JavaLong.UseAfterOverflowWraps` | 01/hhplus-tdd-java/src/main/java/io/hhplus/tdd/point/PointService.java:75-76 | after the overflowing charge leaves `LONG_MIN`, a use of 1 gives `LONG_MAX` in 64 bits and passes the check, where `NewPoint` refuses it |
| `TestExpectations.UsableAmount` | 01/hhplus-tdd-java/src/test/java/io/hhplus/tdd/point/PointServiceTest.java:103 | the tests' deduction is a multiple of 1000, at most the amount, and less than 1000 below it (the amount rounded down to whole thousands) |
| `TestExpectations.RoundingExamples` | 01/hhplus-tdd-java/src/test/java/io/hhplus/tdd/point/PointServiceTest.java:96-108 | the tests' examples: 21234 - rounded(1234) = 20234 and 2000 - rounded(1050) = 1000 |
| `TestExpectations.UseDeductsFullAmount` | 01/hhplus-tdd-java/src/main/java/io/hhplus/tdd/point/PointService.java:75 | the code turns balance 2000 with USE 1050 into 950, not the 1000 the tests expect at PointServiceTest.java:185-195 |
| `TestExpectations.ChargeRecordedAsUse` | 01/hhplus-tdd-java/src/main/java/io/hhplus/tdd/point/PointService.java:83 | a successful CHARGE appends an entry of type USE with the requested amount; the tests expect the requested type (PointServiceTest.java:177) |

## Left out

- Repository wrappers: `UserPointRepositoryImpl` and `PointHistoryRepositoryImpl` only delegate to `UserPointTable` and `PointHistoryTable`. Those tables are not part of this model. The map and the sequence stand in for them.
- Store lookup: an unknown id reads as a zero balance with time 0, and the lookup writes nothing. A `null` lookup result, which the service would dereference, is not modelled.
- History numbering: the history table's counter starts at 1 and gives each inserted entry the next number. This is an assumption about the unseen table.
- Time: the two clock readings become parameters of the call. `balanceMillis` is the balance table's own stamp on the write at line 82, and `historyMillis` is `System.currentTimeMillis()` at line 83. Nothing relates the two.
- Transaction type: `TransactionType` is not part of this model. `Other` stands for any value outside CHARGE and USE. In Java a `null` type throws from `type.equals` before any write, which is the same outcome as `Other` with a different exception.
- Exceptions: every `RuntimeException` of the service becomes an `Err` result. The error names (`NegativeAmount`, `InsufficientPoint`, `UnsupportedType`) tell apart which guard fired.
- Console output: the `System.out.println` calls, and the printing loop in the history query, have no effect in the model.
- Spring wiring: the annotations and the constructor injection are not modelled. The constructor starts from empty tables.
- Concurrency: the service has no lock, and the model is sequential. `Replay` serves requests one at a time, which is the order a global lock would impose.
- NewPoint: balances and amounts are unbounded integers, not 64-bit `long` values. `JavaLong` states where the two differ for the CHARGE addition and the USE subtraction, one operation at a time; the class itself never wraps.

## Findings

| source | as written | input that shows it | evidently intended | confidence | as-written member | corrected member |
|---|---|---|---|---|---|---|
| 01/hhplus-tdd-java/src/main/java/io/hhplus/tdd/point/PointService.java:72 | CHARGE computes `userPoint.point() + amount` in `long` and stores it without a check | balance `LONG_MAX` (9223372036854775807), CHARGE 1: stored balance `LONG_MIN`; a following USE 1 then wraps to `LONG_MAX` and passes the check at line 76 | a user's points are never negative (the constraint stated at line 21): the exact sum is stored, or the charge is refused | medium, not executed | `JavaLong.ChargeAsWritten` (exhibited by `JavaLong.ChargeOverflowGoesNegative`; the follow-on use by `JavaLong.UseAsWritten` and `JavaLong.UseAfterOverflowWraps`) | `PointLedger.NewPoint` (exact sum; non-negativity kept, lifted to every call by `PointLedger.Transact` and to every sequence of calls by `PointLedger.ReplayKeepsBalancesNonNegative`) |
