module Bytes {
  type Byte = x: int | 0 <= x < 256

  /** Buffers grow by doubling, later in steps of 32 kB. */
  function Grown(size: nat): nat { if size < 32 * 1024 then size * 2 else size + 32 * 1024 }
}
