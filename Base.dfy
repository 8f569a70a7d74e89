/** Small shared vocabulary: optional values, the outcome of a fetch, and
    first-match search over a sequence. */
module Base {

  datatype Option<T> = None | Some(value: T)

  /** The outcome of an HTTP request (plus the JSON or text decoding that
      follows it): the data, or one of the exceptions the request raises. */
  datatype Fetch<T> = Fetched(value: T) | FetchFailed

  /** No element occurs twice. */
  predicate Distinct<T(==)>(xs: seq<T>) {
    forall i, j :: 0 <= i < j < |xs| ==> xs[i] != xs[j]
  }

  /** The index of the first element of `xs` satisfying `p`, if any: the
      result of a `for ... if p(x): ...; break` scan. */
  function FirstWhere<T>(xs: seq<T>, p: T -> bool): (r: Option<nat>)
    ensures r.Some? ==> r.value < |xs| && p(xs[r.value])
    ensures r.Some? ==> forall j :: 0 <= j < r.value ==> !p(xs[j])
    ensures r.None? ==> forall j :: 0 <= j < |xs| ==> !p(xs[j])
    decreases |xs|
  {
    if xs == [] then None
    else if p(xs[0]) then Some(0)
    else match FirstWhere(xs[1..], p)
      case None => None
      case Some(i) => Some(i + 1)
  }

  /** The `for x in xs: if p(x): ...; break` scan itself. */
  method FindFirst<T>(xs: seq<T>, p: T -> bool) returns (r: Option<nat>)
    ensures r == FirstWhere(xs, p)
  {
    for i := 0 to |xs|
      invariant forall j :: 0 <= j < i ==> !p(xs[j])
    {
      if p(xs[i]) {
        return Some(i);
      }
    }
    return None;
  }
}
