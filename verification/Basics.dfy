/** What several modules need. */
module Basics {
  type byte = x: int | 0 <= x < 256

  datatype Option<T> = None | Some(value: T)

  lemma Regroup<T>(x: seq<T>, y: seq<T>, z: seq<T>)
    ensures x + (y + z) == (x + y) + z
  {
  }
}
