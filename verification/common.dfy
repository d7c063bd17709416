/** Types and constants shared by the models of all kernel files. */
module Common {
  const TWO47 := 0x8000_0000_0000
  const TWO48 := 0x1_0000_0000_0000
  const TWO52 := 0x10_0000_0000_0000
  const TWO64 := 0x1_0000_0000_0000_0000

  /** `uint8_t`, `uint64_t`. */
  type Byte = b: int | 0 <= b < 0x100
  type Word = w: int | 0 <= w < 0x1_0000_0000_0000_0000

  datatype Option<+T> = None | Some(value: T)

  /** What a `uint64_t` keeps of an unbounded result. */
  function Wrap64(x: int): (w: Word) {
    x % TWO64
  }

  function Min(a: int, b: int): int {
    if a <= b then a else b
  }

  /** `c & (1 << k)` is not zero. */
  predicate TestBit(c: nat, k: nat)
    decreases k
  {
    if k == 0 then c % 2 == 1 else TestBit(c / 2, k - 1)
  }

  lemma MulAtLeast(a: int, d: int)
    requires a >= 1 && d >= 0
    ensures a * d >= d
  {
    assert a * d == (a - 1) * d + d;
    assert (a - 1) * d >= 0;
  }

  /** Quotient and remainder are unique. */
  lemma SplitUnique(d: int, q: int, r: int, k: int, m: int)
    requires 0 <= r < d && 0 <= m < d && q * d + r == k * d + m
    ensures q == k && r == m
  {
    assert (q - k) * d == q * d - k * d;
    assert (k - q) * d == k * d - q * d;
    if q > k {
      MulAtLeast(q - k, d);
    } else if q < k {
      MulAtLeast(k - q, d);
    }
  }

  lemma DivModUnique(q: int, d: int, r: int)
    requires 0 <= r < d
    ensures (q * d + r) / d == q && (q * d + r) % d == r
  {
    var x := q * d + r;
    assert x == (x / d) * d + x % d;
    SplitUnique(d, q, r, x / d, x % d);
  }

  /** A multiple of the divisor moves the quotient and leaves the remainder. */
  lemma AddMultiple(k: int, d: int, x: int)
    requires d > 0
    ensures (k * d + x) / d == k + x / d
    ensures (k * d + x) % d == x % d
  {
    DivModUnique(k + x / d, d, x % d);
    assert (k + x / d) * d + x % d == k * d + x;
  }
}
