/** Fixed-width unsigned integers used by both data structures, and powers of two. */
module Words {

  newtype u8 = x: int | 0 <= x < 0x100
  newtype u32 = x: int | 0 <= x < 0x1_0000_0000
  newtype u64 = x: int | 0 <= x < 0x1_0000_0000_0000_0000

  /** 2^64: every `uint64_t` operation is taken modulo this. */
  const U64_MODULUS: int := 0x1_0000_0000_0000_0000

  /** `a + b` on `uint64_t`. */
  function AddU64(a: u64, b: u64): (r: u64) {
    ((a as int + b as int) % U64_MODULUS) as u64
  }

  /** `a * b` on `uint64_t`. */
  function MulU64(a: u64, b: u64): (r: u64) {
    ((a as int * b as int) % U64_MODULUS) as u64
  }

  /** The 8 bytes of a `uint64_t` as it lies in memory (little-endian). */
  function U64Bytes(x: u64): (r: seq<u8>) {
    seq(8, i requires 0 <= i < 8 => ((x as int / Pow2(8 * i)) % 0x100) as u8)
  }

  function Pow2(k: nat): (r: nat)
    ensures r >= 1
  {
    if k == 0 then 1 else 2 * Pow2(k - 1)
  }

  lemma {:induction false} Pow2AtLeastFour(k: nat)
    requires k >= 2
    ensures Pow2(k) >= 4
  {
    if k > 2 {
      Pow2AtLeastFour(k - 1);
    }
  }
}
