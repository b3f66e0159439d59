/** Small things that several modules need. */
module Common {

  datatype Option<T> = None | Some(value: T)

  const TWO_TO_THE_64 := 0x1_0000_0000_0000_0000

  ghost predicate Distinct<T>(list: seq<T>) {
    forall i, j :: 0 <= i < j < |list| ==> list[i] != list[j]
  }

  function Min(a: int, b: int): int { if a < b then a else b }

  function Max(a: int, b: int): int { if a < b then b else a }
}
