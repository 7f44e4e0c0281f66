/** Failure-carrying wrappers shared by every module of the model. */
module Base {

  /** A Go pointer or map lookup that may be nil / absent. */
  datatype Option<+T> = None | Some(value: T)

  /** A Go `(value, error)` pair: exactly one of the two is meaningful. */
  datatype Result<+T> = Ok(value: T) | Err(error: string)

  /** A computation that may end in a Go `panic`, which aborts the request. */
  datatype Outcome<+T> = Done(value: T) | Panicked(message: string)

  /** The message of Go's panic on dereferencing a nil pointer. */
  const NilDereference: string := "runtime error: invalid memory address or nil pointer dereference"

  /** One octet. */
  type byte = x: int | 0 <= x < 256

  /** Go's `time.Time`, as nanoseconds since the Unix epoch. */
  type Instant = int

  /** A sequence back to front: how `ORDER BY id DESC` lists rows stored by increasing id. */
  function Reverse<T>(s: seq<T>): (r: seq<T>)
    ensures |r| == |s| && forall i :: 0 <= i < |s| ==> r[i] == s[|s| - 1 - i]
  {
    seq(|s|, i requires 0 <= i < |s| => s[|s| - 1 - i])
  }
}
