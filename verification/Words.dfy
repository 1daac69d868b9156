/** Machine words: the Rust model keeps time in `u32` and multiplies backoff intervals in `u64`. */
module Words {

  const WORD: nat := 0x1_0000_0000
  const U32_MAX: nat := 0xFFFF_FFFF
  const U64_MAX: nat := 0xFFFF_FFFF_FFFF_FFFF

  type u32 = x: int | 0 <= x < 0x1_0000_0000

  function Min(a: int, b: int): int {
    if a <= b then a else b
  }

  function Max(a: int, b: int): int {
    if a >= b then a else b
  }

  /** Rust's `u64::saturating_mul`. */
  function SaturatingMul64(a: nat, b: nat): nat {
    Min(a * b, U64_MAX)
  }

  /** The arithmetic a timeline runs on: exact, or `u32` as a release build of the Rust model has it. */
  datatype Clock = Unbounded | Word32 {

    /** The plain `+`, which wraps around in 32 bits. */
    function Plus(a: nat, b: nat): nat {
      if Word32? then (a + b) % WORD else a + b
    }

    /** `saturating_add`. */
    function SaturatingPlus(a: nat, b: nat): nat {
      if Word32? then Min(a + b, U32_MAX) else a + b
    }
  }
}
