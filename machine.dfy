/**
 * Fixed-width unsigned arithmetic of the C++ sources, written out on
 * mathematical integers: every result is reduced modulo 2^width, which is
 * what uint32_t / uint64_t arithmetic does.
 */
module Machine {

  const Two32: nat := 0x1_0000_0000
  const Two64: nat := 0x1_0000_0000_0000_0000

  type u32 = x: nat | x < Two32
  type u64 = x: nat | x < Two64

  /** Reduction of a mathematical integer to uint64_t. */
  function Wrap64(x: int): (r: u64)
    ensures 0 <= x < Two64 ==> r == x
  {
    x % Two64
  }

  /** Reduction of a mathematical integer to uint32_t. */
  function Wrap32(x: int): (r: u32)
    ensures 0 <= x < Two32 ==> r == x
  {
    x % Two32
  }

  /** Adding to a wrapped value wraps the sum. */
  lemma Wrap32Add(x: int, d: int)
    ensures Wrap32(Wrap32(x) + d) == Wrap32(x + d)
  {
    assert x == (x / Two32) * Two32 + x % Two32;
    assert Wrap32(x) + d == (x + d) - (x / Two32) * Two32;
    ModShift(x + d, -(x / Two32));
  }

  /** Adding a multiple of 2^32 leaves the residue. */
  lemma ModShift(y: int, k: int)
    ensures (y + k * Two32) % Two32 == y % Two32
  {
  }

  /** Euclidean division by a positive divisor brackets the dividend. */
  lemma DivBounds(a: nat, d: nat)
    requires d > 0
    ensures (a / d) * d <= a < (a / d) * d + d
  {
  }

  /** Multiplication by a natural number is monotone. */
  lemma MulMono(a: nat, b: nat, c: nat)
    requires b <= c
    ensures a * b <= a * c
  {
  }
}
