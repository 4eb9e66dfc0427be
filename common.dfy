/** Small definitions shared by the sections: `Math.min` on integers, and
    the absence of repeated entries in a list. */
module Common {

  function Min(a: int, b: int): int {
    if a < b then a else b
  }

  predicate NoDup<T(==)>(l: seq<T>) {
    forall i, j :: 0 <= i < j < |l| ==> l[i] != l[j]
  }
}
