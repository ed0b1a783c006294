/** Failure-carrying result types used throughout the model. */
module Wrappers {

  /** `Option<T>` of the Rust code. */
  datatype Option<+T> = None | Some(value: T)

  /** `Result<T, E>` of the Rust code. */
  datatype Result<+T, +E> = Success(value: T) | Failure(error: E) {
    predicate IsFailure() {
      Failure?
    }

    function PropagateFailure<U>(): Result<U, E>
      requires Failure?
    {
      Failure(error)
    }

    function Extract(): T
      requires Success?
    {
      value
    }
  }

  /** Index of the first element satisfying `p`, as `Iterator::find` / `position` do. */
  function FirstIndex<T>(s: seq<T>, p: T -> bool): (r: Option<nat>)
    ensures r.Some? ==> r.value < |s| && p(s[r.value])
    ensures r.Some? ==> forall j :: 0 <= j < r.value ==> !p(s[j])
    ensures r.None? <==> forall j :: 0 <= j < |s| ==> !p(s[j])
  {
    if |s| == 0 then None
    else if p(s[0]) then Some(0)
    else match FirstIndex(s[1..], p)
      case None => None
      case Some(i) => Some(i + 1)
  }

  /** The element `FirstIndex` points at, as `Iterator::find` returns it. */
  function Find<T>(s: seq<T>, p: T -> bool): (r: Option<T>)
    ensures r.Some? <==> exists j :: 0 <= j < |s| && p(s[j])
    ensures r.Some? ==> p(r.value)
    ensures r.Some? ==> exists j :: 0 <= j < |s| && s[j] == r.value && forall k :: 0 <= k < j ==> !p(s[k])
  {
    match FirstIndex(s, p)
    case None => None
    case Some(i) => Some(s[i])
  }

  /** Map lookup as `HashMap::get`. */
  function Get<K, V>(m: map<K, V>, k: K): Option<V>
  {
    if k in m then Some(m[k]) else None
  }
}
