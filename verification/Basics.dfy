/** Numbers of the widths that the source uses, and what several modules need about sequences. */
module Basics {

  type byte = b: int | 0 <= b < 256

  type u16 = n: nat | n < 0x1_0000 witness 0

  function Min(a: nat, b: nat): nat {
    if a < b then a else b
  }

  function Max(a: nat, b: nat): nat {
    if a < b then b else a
  }

  /** Subtraction that stops at zero. */
  function Sub(a: nat, b: nat): nat {
    if a < b then 0 else a - b
  }

  lemma Regroup<T>(a: seq<T>, b: seq<T>, c: seq<T>)
    ensures a + (b + c) == a + b + c
  {
  }
}
