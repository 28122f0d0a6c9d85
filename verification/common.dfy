/** Small shared wrappers: an optional value, an outcome that is a value or an
    error, and the three ways a field of a JSON request body can arrive. */
module Common {

  datatype Option<T> = None | Some(value: T) {
    function GetOr(default: T): T {
      match this
      case Some(v) => v
      case None => default
    }
  }

  /** A request field: key missing, present with `null`, or present with a value.
      `data.get(k, d)` yields `d` only for a missing key; `null` comes through as `None`. */
  datatype Json<T> = Absent | Null | Given(value: T)

  /** The outcome of a request handler: the new state, or the error it answers with. */
  datatype Result<T, E> = Ok(value: T) | Err(error: E)

  /** No item occurs twice. */
  predicate NoDup<T(==)>(xs: seq<T>) {
    forall i, j :: 0 <= i < j < |xs| ==> xs[i] != xs[j]
  }

  lemma NoDupTail<T>(xs: seq<T>)
    requires NoDup(xs) && xs != []
    ensures NoDup(xs[1..]) && xs[0] !in xs[1..]
  {
    forall m | 0 <= m < |xs| - 1 ensures xs[1..][m] != xs[0] {
      assert xs[1..][m] == xs[m + 1];
    }
  }
}
