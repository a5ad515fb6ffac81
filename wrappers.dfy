/** Outcome types, and one fact about maps, shared by the modules of the model. */
module Wrappers {

  datatype Option<+T> = None | Some(value: T)

  /** The `Result` of a fallible Rust function. */
  datatype Result<+T, +E> = Ok(value: T) | Err(error: E)

  /** What a Rust call that may `panic!` (or `unwrap` a failure) does: it either
      returns its value or aborts the whole run with a message. */
  datatype Fatal<+T> = Done(value: T) | Panic(message: string)

  /** Two maps with the same keys and the same value at every key are equal. */
  lemma MapsAgree<K, V>(a: map<K, V>, b: map<K, V>)
    requires forall k :: k in a ==> k in b && a[k] == b[k]
    requires forall k :: k in b ==> k in a
    ensures a == b
  {
  }
}
