/** What several models share: results that may be missing, C calls that return a value or an error
    object, sequences without repetition, and a product under a name of its own, which keeps
    nonlinear terms apart in the proofs. */
module Common {
  datatype Option<T> = None | Some(value: T)

  datatype Outcome<T> = Done(value: T) | Error(message: string)

  ghost predicate Distinct<T>(s: seq<T>) {
    forall i, j :: 0 <= i < j < |s| ==> s[i] != s[j]
  }

  function Times(a: real, b: real): real {
    a * b
  }
}
