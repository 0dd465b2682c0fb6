/** Page and partition sizes, and rounding up to them. */
module Sizes {
  const PAGE_SIZE := 0x1000
  const PARTITION_SIZE := 0x20_0000

  function RoundUp(a: nat, b: nat): nat
    requires a > 0 && b > 0
  {
    ((a - 1) / b + 1) * b
  }

  /** The least multiple of the partition size that is not below a. */
  function PartitionUp(a: nat): (r: nat)
    requires a > 0
    ensures r % PARTITION_SIZE == 0 && a <= r < a + PARTITION_SIZE
  {
    RoundUp(a, PARTITION_SIZE)
  }

  /** The least multiple of the page size that is not below a. */
  function PageUp(a: nat): (r: nat)
    requires a > 0
    ensures r % PAGE_SIZE == 0 && a <= r < a + PAGE_SIZE
  {
    RoundUp(a, PAGE_SIZE)
  }
}
