/** Vocabulary shared by the other modules. */
module Comun {

  /** An optional value: an argument whose Python default is `None`. */
  datatype Option<T> = None | Some(value: T)
  {
    /** The value if there is one, otherwise `default`. */
    function GetOr(default: T): T
    {
      match this
      case Some(v) => v
      case None => default
    }
  }

  /** No element occurs twice in `s`. */
  ghost predicate SinRepetidos<T>(s: seq<T>)
  {
    forall i, j :: 0 <= i < j < |s| ==> s[i] != s[j]
  }

  /** `a` is what is left of `b` after deleting some of its elements, the rest kept in order. */
  ghost predicate Subsecuencia<T>(a: seq<T>, b: seq<T>)
    decreases |b|
  {
    if a == [] then true
    else if b == [] then false
    else if a[0] == b[0] then Subsecuencia(a[1..], b[1..])
    else Subsecuencia(a, b[1..])
  }
}
