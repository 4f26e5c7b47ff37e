/**
 * The request body of the payload endpoint and the checks made on it
 * before anything else: an object stands for a one-record list, any other
 * non-list is refused, and so is a list of more than 1000 records.
 */
module Payload {
  import opened Wrappers
  import opened Values
  import opened Replies

  /** A parsed JSON body: an object (a row), a list, or any other JSON value. */
  datatype Body = Dict(row: Row) | List(items: seq<Body>) | Scalar(v: Value)

  const MaxRecords: nat := 1000

  /** The records a body stands for, or the 400 reply that refuses it. */
  function PayloadRecords(body: Body): Result<seq<Body>, Reply>
  {
    match body
    case Dict(_) => Ok([body])
    case List(items) => if |items| > MaxRecords then Err(RecordLimit) else Ok(items)
    case Scalar(_) => Err(InvalidFormat)
  }

  /**
   * A body is accepted exactly when it is an object or a list of at most
   * 1000 records; an object becomes a list holding it alone, a list is
   * taken as it is.
   */
  lemma PayloadRecordsMeaning(body: Body)
    ensures PayloadRecords(body).Ok? <==> body.Dict? || (body.List? && |body.items| <= MaxRecords)
    ensures PayloadRecords(body).Ok? ==> |PayloadRecords(body).value| <= MaxRecords
    ensures body.Dict? ==> PayloadRecords(body) == Ok([body])
    ensures body.List? && |body.items| <= MaxRecords ==> PayloadRecords(body) == Ok(body.items)
    ensures body.Scalar? ==> PayloadRecords(body) == Err(InvalidFormat)
    ensures body.List? && |body.items| > MaxRecords ==> PayloadRecords(body) == Err(RecordLimit)
    ensures PayloadRecords(body).Err? ==> PayloadRecords(body).error.Status() == 400
  {
  }

  /** Sending one object is the same as sending a list holding only that object. */
  lemma DictIsSingletonList(row: Row)
    ensures PayloadRecords(Dict(row)) == PayloadRecords(List([Dict(row)]))
  {
  }
}
