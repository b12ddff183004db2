/** What several components share. */
module Basics {

  const NBUF := 30 // MAXOPBLOCKS * 3

  type Word = w: int | 0 <= w < 0x1_0000_0000

  datatype Option<T> = None | Some(value: T)

  /** How a call ends: a value, the error return -1, or a panic. */
  datatype Outcome<T> = Done(value: T) | Error | Panic

  ghost predicate Distinct(s: seq<nat>) {
    forall i, j :: 0 <= i < j < |s| ==> s[i] != s[j]
  }

  function Min(a: nat, b: nat): nat {
    if a < b then a else b
  }
}
