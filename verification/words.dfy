/** Machine words and address arithmetic shared by every scan.

    The C code works on `uint64_t` addresses and `uint16_t` signature
    entries. Both are modelled as bounded integers; wherever the C
    arithmetic can wrap, the wrap is written out. */
module Words {

  const TWO64: int := 0x1_0000_0000_0000_0000

  /** A `uint64_t` value, used for virtual addresses. */
  type u64 = x: int | 0 <= x < TWO64

  /** A `uint16_t` value, used for signature entries. */
  type u16 = x: int | 0 <= x < 0x1_0000

  /** A byte. */
  type u8 = x: int | 0 <= x < 0x100

  /** Capacity of the signature array `uint16_t sig[16]`, in entries. */
  const MAX_ENTRIES: nat := 16

  /** One 4 KB page. */
  const PAGE: nat := 0x1000

  /** The executability oracle: whether the page holding an address is
      classified as executable. It stands for one majority-voted probe
      under the calibrated threshold, taken as deterministic. */
  type ExecOracle = u64 -> bool

  /** Unsigned 64-bit addition as C performs it: modulo 2^64. */
  function Add64(a: u64, b: u64): (r: u64)
    ensures a + b < TWO64 ==> r == a + b
    ensures a + b >= TWO64 ==> r == a + b - TWO64
  {
    (a + b) % TWO64
  }

  /** Unsigned 64-bit subtraction as C performs it: modulo 2^64. */
  function Sub64(a: u64, b: u64): (r: u64)
    ensures a >= b ==> r == a - b
    ensures a < b ==> r == a - b + TWO64
  {
    (a - b) % TWO64
  }

  /** The address of the `k`-th page counted from `base`, with the
      64-bit wrap of `base + k * 0x1000`. */
  function PageAddr(base: u64, k: nat): (r: u64)
    ensures base + k * PAGE < TWO64 ==> r == base + k * PAGE
  {
    (base + k * PAGE) % TWO64
  }

  /** `k` copies of `b`. */
  function Repeat(b: bool, k: nat): (r: seq<bool>)
    ensures |r| == k
    ensures forall i :: 0 <= i < k ==> r[i] == b
  {
    seq(k, _ => b)
  }
}
