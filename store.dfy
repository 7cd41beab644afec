/**
  What a call to the backing store can come back with. Nothing about the
  store itself is modelled: every call's reply is supplied by the caller of
  an operation, and operations report the calls they issued.
*/
module Store {

  /** A nullable value. */
  datatype Option<+T> = None | Some(value: T)

  /** An error reported by the store: its code and human-readable message. */
  datatype StoreError = StoreError(code: string, message: string)

  /** PostgREST's error code for "the result contains no rows". */
  const NoRowsCode: string := "PGRST116"

  /** The reply of a call that returns data: a row (or list of rows), nothing, or an error. */
  datatype Reply<+T> = Row(value: T) | NoRow | Fail(error: StoreError)

  /** The reply of a call whose data the caller ignores: only its error counts. */
  datatype Outcome = Ok | Err(error: StoreError)

  /** `error.message || fallback`: the message shown for a failure. */
  function MessageOr(error: StoreError, fallback: string): (m: string)
    ensures m == (if error.message == "" then fallback else error.message)
    ensures fallback != "" ==> m != ""
  {
    if error.message != "" then error.message else fallback
  }
}
