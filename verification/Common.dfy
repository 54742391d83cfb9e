/** Types, constants and conversions that several models share. */
module Common {

  datatype Option<+T> = None | Some(value: T)

  type byte = n: nat | n < 256

  newtype int32 = x: int | -0x8000_0000 <= x < 0x8000_0000

  predicate Int32(x: int) { -0x8000_0000 <= x < 0x8000_0000 }

  function Max(a: int, b: int): int { if a < b then b else a }

  /** tolower. */
  function LowerChar(c: char): char { if 'A' <= c <= 'Z' then 'a' + (c - 'A') else c }

  const U32: nat := 0x1_0000_0000
  const U64: nat := 0x1_0000_0000_0000_0000

  /** Conversion to uint32_t. */
  function Word(x: int): nat { x % U32 }

  /** KVFS_TYPE_DIR, in memory and on disk. */
  const TYPE_DIR: byte := 1

  function Zeros(n: nat): (z: seq<byte>)
    ensures |z| == n && forall i :: 0 <= i < n ==> z[i] == 0
  {
    seq(n, _ => 0)
  }
}
