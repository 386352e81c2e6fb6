/** What several modules share. */
module Prelude {
  datatype Option<+T> = None | Some(value: T)

  predicate NoRepeats<T(==)>(xs: seq<T>) { forall i, j | 0 <= i < j < |xs| :: xs[i] != xs[j] }

  const MinInt64: int := -0x8000_0000_0000_0000
  const MaxInt64: int := 0x7fff_ffff_ffff_ffff

  type Int64 = n: int | MinInt64 <= n <= MaxInt64
}
