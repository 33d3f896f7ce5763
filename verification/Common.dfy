/** What several modules use. */
module Common {

  datatype Option<+T> = None | Some(value: T)

  predicate Distinct<X(==)>(xs: seq<X>) {
    forall i, j :: 0 <= i < j < |xs| ==> xs[i] != xs[j]
  }

  lemma Scale(factor: nat, i: int, j: int)
    requires i <= j
    ensures factor * i <= factor * j
  {
  }
}
