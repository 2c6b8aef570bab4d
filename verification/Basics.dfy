/** Small types and arithmetic on integers shared by the models. */
module Basics {

  datatype Option<+T> = None | Some(value: T)

  datatype Result<+T, +E> = Ok(value: T) | Err(error: E)

  /** No element occurs twice. */
  ghost predicate Distinct<T>(s: seq<T>) {
    forall i, j :: 0 <= i < j < |s| ==> s[i] != s[j]
  }

  function Distance(i: int, j: int): nat { if i < j then j - i else i - j }

  function NatMin(a: nat, b: nat): nat { if a < b then a else b }

  function NatMax(a: nat, b: nat): nat { if a < b then b else a }
}
