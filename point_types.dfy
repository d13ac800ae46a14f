/** The records the point service reads and writes: a user's balance, one
    entry of the transaction history, and the outcome of a service call. */
module PointTypes {

  /** The kind of a point transaction. `Charge` and `Use` are the two values
      the service branches on; `Other` stands for any further value the
      service does not recognise (a value outside both branches). */
  datatype TransactionType = Charge | Use | Other

  /** A user's balance record as the balance table stores it. */
  datatype UserPoint = UserPoint(id: int, point: int, updateMillis: int)

  /** One entry of the append-only history table; `id` is the sequence
      number the table assigned when the entry was inserted. */
  datatype PointHistory = PointHistory(id: int, userId: int, amount: int, kind: TransactionType, updateMillis: int)

  /** Which validation in the service rejected a call. The service throws a
      plain runtime exception for each of them; the model names the guard. */
  datatype Error = NegativeAmount | InsufficientPoint | UnsupportedType

  datatype Result<T> = Ok(value: T) | Err(error: Error)
}
