/** Shared conventions of the two contract models: optional values, the
    `{ success, value }` / `{ success, error }` reply shape, the error values
    the dispatchers report, and map framing. */
module Common {

  /** A trial id as the callers pass it (a number in the source). */
  type TrialId = int

  /** A caller identity (the `sender` of a call, a principal in the ledger). */
  type Identity = string

  /** A value that may be absent: a storage read of a missing key. */
  datatype Option<+T> = None | Some(value: T)

  /** The error field of a failed reply: a numeric status (404, 403) or the
      text the default branch of a dispatcher reports. */
  datatype ErrorValue = Code(status: int) | Message(text: string)

  /** The referenced trial does not exist. */
  const NotFound: ErrorValue := Code(404)

  /** Capacity exhausted, or consent by a caller who is not enrolled. */
  const Forbidden: ErrorValue := Code(403)

  /** The method name matched no case of the dispatcher. */
  const UnknownMethod: ErrorValue := Message("Unknown method")

  /** `{ success: true, value }` or `{ success: false, error }`. */
  datatype Reply<+V> = Ok(value: V) | Err(error: ErrorValue)

  /** The reply of one call together with the store after it. */
  datatype Transition<+V, +S> = Transition(reply: Reply<V>, next: S)

  /** Reads key `k` of `m`, absent when the key was never written. */
  function Lookup<K, V>(m: map<K, V>, k: K): (r: Option<V>)
    ensures r.Some? <==> k in m
    ensures r.Some? ==> r.value == m[k]
  {
    if k in m then Some(m[k]) else None
  }

  /** `a` and `b` hold the same entries at every key other than `k`. */
  ghost predicate SameExcept<K(!new), V>(a: map<K, V>, b: map<K, V>, k: K)
  {
    forall x :: x != k ==> (x in a <==> x in b) && (x in a ==> a[x] == b[x])
  }
}
