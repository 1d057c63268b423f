/** Types shared by the models of the kernel's components. */
module Prelude {
  datatype Option<+T> = None | Some(value: T)

  /** Machine addresses and sizes: `usize` and `u64` on x86-64. */
  const WORD_LIMIT: nat := 0x1_0000_0000_0000_0000

  type u64 = x: int | 0 <= x < WORD_LIMIT

  type u32 = x: int | 0 <= x < 0x1_0000_0000

  /** Always true: mentioning it opens the definitions that are stated for every `key`; they stay closed where they are
      only handed on. */
  predicate Opened(key: int) { true }

  function Max(a: int, b: int): int
  {
    if a >= b then a else b
  }

  function Min(a: int, b: int): int
  {
    if a <= b then a else b
  }
}

/** The firmware's memory map, as far as the kernel reads it. */
module Uefi {
  import opened Prelude

  datatype MemoryType = ConventionalMemory | LoaderCode | LoaderData | OtherMemory

  datatype Descriptor = Descriptor(memoryType: MemoryType, physicalStart: u64, numberOfPages: u64)
}
