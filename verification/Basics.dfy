/** Machine integers, byte strings and the result types shared by every module. */
module Basics {

  const TWO32: int := 0x1_0000_0000
  const U32_MAX: int := 0xFFFF_FFFF
  const TWO64: int := 0x1_0000_0000_0000_0000

  type Byte = b: int | 0 <= b < 256
  type U32 = n: int | 0 <= n < 0x1_0000_0000
  type U64 = n: int | 0 <= n < 0x1_0000_0000_0000_0000
  type Bytes = seq<Byte>

  datatype Option<+T> = None | Some(value: T)

  datatype Result<+T, +E> = Ok(value: T) | Err(error: E)

  /** The `as u32` cast: keeps the low 32 bits. */
  function CastU32(n: nat): U32 {
    n % 0x1_0000_0000
  }

  /** `u32` addition as a release build performs it: modulo 2^32. */
  function AddU32(a: U32, b: U32): U32 {
    (a + b) % 0x1_0000_0000
  }

  /** `fetch_add` on an `AtomicU64`: modulo 2^64. */
  function AddU64(a: U64, n: nat): U64 {
    (a + n) % 0x1_0000_0000_0000_0000
  }

  function MapGet<K, V>(m: map<K, V>, k: K): Option<V> {
    if k in m then Some(m[k]) else None
  }
}
