/** What the three managers share: the state of a collection's JSON file, the
    errors they throw, and the value a call returns or throws. */
module Store {
  import opened Values

  datatype Option<T> = None | Some(value: T)

  /** The errors the managers throw, one per distinct `throw` in the source. */
  datatype Error =
    | MissingRequiredFields
    | DuplicateCode(code: Value)
    | ProductNotFound(productId: int)
    | CartNotFound(cartId: string)
    | DuplicateEmail(email: Value)
    | UserNotFound(userId: string)
    | ReadFailed
    | WriteFailed
    | HashFailed

  /** A call either returns a value or throws an error. */
  datatype Result<T> = Ok(value: T) | Err(error: Error)

  /** A collection's JSON file as `readFile` followed by `JSON.parse` finds it:
      absent (`ENOENT`), unreadable or unparsable, or an array of documents. */
  datatype Snapshot<T> = Missing | Unreadable | Present(docs: seq<T>)

  /** The snapshot a successful `writeFile` leaves, or the old one when the write fails. */
  function AfterWrite<T>(before: Snapshot<T>, docs: seq<T>, writeOk: bool): (s: Snapshot<T>)
    ensures writeOk ==> s == Present(docs)
    ensures !writeOk ==> s == before
  {
    if writeOk then Present(docs) else before
  }

  /** Removing position `k > 0` from a sequence, seen from its tail: the head
      followed by the tail with position `k - 1` removed. */
  lemma SplitAfterHead<T>(xs: seq<T>, k: int)
    requires 0 < k < |xs|
    ensures xs[..k] + xs[k + 1..] == [xs[0]] + (xs[1..][..k - 1] + xs[1..][k..])
  {
    assert xs[1..][..k - 1] == xs[1..k];
    assert xs[1..][k..] == xs[k + 1..];
    assert xs[..k] == [xs[0]] + xs[1..k];
  }
}
