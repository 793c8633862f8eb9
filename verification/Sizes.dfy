/** Sizes shared by several components. */
module Sizes {

  const BLOCK_SIZE: nat := 16384
  const U32_SIZE: nat := 0x1_0000_0000

  function Min(a: nat, b: nat): nat {
    if a < b then a else b
  }
}
