/**
  The round trip to the store, as the DAO sees it. Connecting, running the
  statement and closing are outside the model; what they can do to a call is
  a parameter of every operation.
 */
module Gateway {

  /** How one DAO call's round trip to the store goes. */
  datatype Fault =
    | Healthy       // a connection is obtained and the statement runs
    | Unreachable   // `DBConnection.getConnection()` fails and returns null
    | Rejected      // the statement raises `SQLException` before reading a row or writing anything

  /** The outcome of a call as the Java code behaves: a returned value, or a `NullPointerException` escaping to the caller. */
  datatype Call<T> = Returns(value: T) | ThrowsNullPointer
}
