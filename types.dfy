/** Shared vocabulary of the duplicate-detection backend: identifiers, rows and
    the failures an endpoint can report. */
module Types {

  /** Session and group identifiers are uuid4 strings in the backend; here they
      are naturals drawn from a supply of fresh, distinct values. */
  type SessionId = nat
  type GroupId = nat

  /** One uploaded row: column name to the cell's string rendering. */
  type Row = map<string, string>

  /** Why an endpoint failed. Every one of them reaches the client as the same
      server error; the reason is the text of the error's detail message. */
  datatype Error =
    | ModelNotLoaded
    | SessionNotFound
    | ColumnNotFound(column: string)
    | EmptyFile

  datatype Result<+T> = Ok(value: T) | Err(error: Error)

  datatype Option<+T> = None | Some(value: T)

  /** The set of elements of a sequence. */
  function Elements<T>(s: seq<T>): set<T>
  {
    set x | x in s
  }

  /** No element occurs twice. */
  predicate Distinct<T(==)>(s: seq<T>)
  {
    forall a, b :: 0 <= a < b < |s| ==> s[a] != s[b]
  }

  /** Each element is smaller than the next. */
  predicate StrictlyIncreasing(s: seq<nat>)
  {
    forall a, b :: 0 <= a < b < |s| ==> s[a] < s[b]
  }
}
