/** The fixed-width arithmetic and byte strings shared by every component. */
module Machine {
  const U32: nat := 0x1_0000_0000
  const U64: nat := 0x1_0000_0000_0000_0000

  type byte = b: int | 0 <= b < 256
  type bytes = seq<byte>

  /** The bytes of a C string, without the NUL byte that ends it. */
  type Key = k: bytes | 0 !in k

  type u32 = n: int | 0 <= n < U32
  type u64 = n: int | 0 <= n < U64

  datatype Option<+T> = None | Some(value: T)

  /** uint64_t addition and subtraction: both wrap. */
  function Add64(a: u64, b: u64): u64 { if a + b < U64 then a + b else a + b - U64 }
  function Sub64(a: u64, b: u64): u64 { if b <= a then a - b else a - b + U64 }

  function Min(a: int, b: int): int { if a <= b then a else b }
  function Max(a: int, b: int): int { if a <= b then b else a }
}
