/** Small value types shared by every component of the model. */
module Prelude {
  datatype Option<+T> = None | Some(value: T)

  datatype Result<+T, +E> = Ok(value: T) | Err(error: E) {
    predicate IsFailure() {
      Err?
    }

    function PropagateFailure<U>(): Result<U, E>
      requires Err?
    {
      Err(error)
    }

    function Extract(): T
      requires Ok?
    {
      value
    }
  }

  /** The error numbers the handlers return, by name. */
  datatype Errno =
    | NOENT | NOTDIR | EXIST | NOTEMPTY | INVAL | NOTSUP | NOSYS | RANGE | IO | AGAIN | PROTO | NODEV

  /** What becomes of a reply: the kernel gets it; or the write fails because the request or the
      connection is gone (ENOENT, ENODEV), which the session takes for success; or it fails otherwise
      and the handler gets the error. */
  datatype Delivery = Arrived | Dropped | Refused

  function Min(a: int, b: int): int {
    if a <= b then a else b
  }

  function Max(a: int, b: int): int {
    if a <= b then b else a
  }

  /** Rust's `saturating_sub` on an unsigned integer. */
  function SaturatingSub(a: nat, b: nat): nat {
    if a <= b then 0 else a - b
  }

  // Sequence facts stated once, so that proofs can cite them instead of rediscovering them.

  lemma Assoc<T>(a: seq<T>, b: seq<T>, c: seq<T>)
    ensures (a + b) + c == a + (b + c)
  {
  }

  lemma TailOfConcat<T>(a: seq<T>, b: seq<T>)
    requires a != []
    ensures (a + b)[0] == a[0] && (a + b)[1..] == a[1..] + b
  {
  }

  lemma SplitAt<T>(s: seq<T>, k: nat)
    requires k <= |s|
    ensures s == s[..k] + s[k..]
  {
  }
}
