/** Bytes, machine widths and the minimum, as every component below uses them. */
module Numbers {
  type byte = x: int | 0 <= x < 256

  const TWO_TO_32: nat := 0x1_0000_0000
  const TWO_TO_64: nat := 0x1_0000_0000_0000_0000

  function Min(a: nat, b: nat): nat {
    if a < b then a else b
  }
}
