/** Shared vocabulary of the emulator model: an optional value and the unsigned
    integer widths of the C++ source written as bounded integers. */
module Base {

  /** A value that may be absent; stands for `std::optional` and for a fetch fault. */
  datatype Option<+T> = None | Some(value: T)

  const U32_MODULUS: int := 0x1_0000_0000
  const U64_MODULUS: int := 0x1_0000_0000_0000_0000

  /** `uint8_t` as an integer. */
  type u8 = x: int | 0 <= x < 0x100

  /** `unsigned` / `uint32_t` as an integer. */
  type u32 = x: int | 0 <= x < U32_MODULUS

  /** `size_t` (64-bit host) as an integer. */
  type u64 = x: int | 0 <= x < U64_MODULUS

  // ----- modular arithmetic used by the wrap-around proofs -----------------

  lemma MulAtLeast(d: int, n: int)
    requires d >= 1 && n > 0
    ensures d * n >= n
  {
    assert d * n == (d - 1) * n + n;
    assert (d - 1) * n >= 0;
  }

  lemma MulMonotone(a: int, c: int, b: int)
    requires 0 <= a <= c && 0 <= b
    ensures a * b <= c * b
  {
    assert c * b - a * b == (c - a) * b;
  }

  /** The product of two `uint32_t` values fits in 64 bits. */
  lemma ProductOfU32Fits(a: u32, b: u32)
    ensures 0 <= a * b < U64_MODULUS
  {
    var m := U32_MODULUS - 1;
    MulMonotone(a, m, b);
    MulMonotone(b, m, m);
    assert m * m < U64_MODULUS;
  }

  /** Quotient and remainder are determined by any decomposition `a * n + b`. */
  lemma DivModUnique(y: int, n: int, a: int, b: int)
    requires n > 0 && 0 <= b < n && y == a * n + b
    ensures y % n == b && y / n == a
  {
    var q := y / n;
    var r := y % n;
    assert y == q * n + r;
    assert (a - q) * n == r - b by {
      assert a * n - q * n == (a - q) * n;
    }
    if a - q > 0 {
      MulAtLeast(a - q, n);
    } else if a - q < 0 {
      MulAtLeast(q - a, n);
    }
  }

  /** `((p + 1) mod n + k) mod n == (p + 1 + k) mod n`. */
  lemma ModAddShift(p: int, k: nat, n: int)
    requires n > 0 && p >= 0
    ensures ((p + 1) % n + k) % n == (p + k + 1) % n
  {
    var q := (p + 1) / n;
    var x := (p + 1) % n + k;
    assert p + k + 1 == q * n + x;
    assert p + k + 1 == (q + x / n) * n + x % n;
    DivModUnique(p + k + 1, n, q + x / n, x % n);
  }
}
