/** Outcomes shared by the models: a value that may be absent, and a result that
    may instead be one of the exceptions the connector throws; and sequences regrouped. */
module Wrappers {

  /** STANDARD_VECTOR_SIZE: the rows of a data chunk. */
  const VECTOR_SIZE: nat := 2048

  datatype Option<+T> = None | Some(value: T)

  /** The exceptions of the modelled code, one constructor per throw site kind. */
  datatype Error =
    | OutOfBuffer        // a read beyond the end of the buffer
    | OutOfRange         // a value outside the range of the wire type or of a table
    | Overflow           // an intermediate does not fit its storage type
    | BadHeader          // the COPY header is missing or wrong
    | BadFormat          // malformed text or an unsupported code
    | Mismatch           // array dimensions or column counts disagree
    | RowTooLarge        // a row does not fit the read buffer
    | NulByte            // a NUL byte without a configured replacement
    | Unmodelled         // a 32-bit element count wrapped around

  datatype Result<+T> = Ok(value: T) | Err(error: Error) {
    predicate IsFailure() {
      Err?
    }

    function PropagateFailure<U>(): Result<U>
      requires Err?
    {
      Err(error)
    }

    function Extract(): T
      requires Ok?
    {
      value
    }
  }

  /** What a void function of the source ends in: nothing, or an exception. */
  datatype Outcome = Pass | Fail(error: Error) {
    predicate IsFailure() {
      Fail?
    }

    function PropagateFailure(): Outcome
      requires Fail?
    {
      this
    }
  }

  lemma Regrouped<T>(a: seq<T>, b: seq<T>, c: seq<T>)
    ensures a + b + c == a + (b + c)
  {
  }

  lemma HeadAndTail<T>(a: seq<T>)
    requires a != []
    ensures [a[0]] + a[1..] == a
  {
  }

  lemma EmptyAdded<T>(a: seq<T>)
    ensures a + [] == a && [] + a == a
  {
  }
}
