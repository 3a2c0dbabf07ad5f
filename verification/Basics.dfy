/** Bytes, words, bits and lists of numbers, shared by the device models. */
module Basics {

  type Byte = x: nat | x < 256

  const TWO_32: nat := 0x1_0000_0000
  const TWO_63: nat := 0x8000_0000_0000_0000
  const TWO_64: nat := 0x1_0000_0000_0000_0000

  /** A bit of a register; the mask is a power of two. */
  predicate Bit(x: nat, mask: nat)
    requires mask > 0
  {
    x / mask % 2 == 1
  }

  predicate NoDuplicates(s: seq<nat>) {
    forall i, j :: 0 <= i < j < |s| ==> s[i] != s[j]
  }

  function Flatten(lists: seq<seq<nat>>): seq<nat> {
    if lists == [] then [] else Flatten(lists[..|lists| - 1]) + lists[|lists| - 1]
  }
}
