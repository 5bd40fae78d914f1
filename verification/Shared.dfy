module Options {
  datatype Option<+T> = None | Some(value: T)
}

/** What names a slab chain of the physical memory manager (Slab in kernel/src/pmm.c). */
module ChainKeys {
  datatype Key = Key(cpu: int, cls: int)
}

/** Ring buffers. */
module Rings {
  // k cells after cell i of n.
  function At(i: int, k: int, n: int): int { if i + k < n then i + k else i + k - n }
}
