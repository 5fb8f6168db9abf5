/** Types and notions shared by the parts of the model. */
module Prelude {

  datatype Option<+T> = None | Some(value: T)

  /** Counts, windows, rates and capacities: the source refuses anything below one. */
  type pos = n: int | n > 0 witness 1

  function Ceil(x: real): int {
    -((-x).Floor)
  }

  function Repeat<A>(x: A, n: nat): seq<A> {
    seq(n, i => x)
  }

  ghost predicate Distinct<A>(s: seq<A>) {
    forall i, j :: 0 <= i < j < |s| ==> s[i] != s[j]
  }
}
