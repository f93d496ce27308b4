/**
 * Power-of-two arithmetic the buddy allocators rely on: `1 << k`,
 * `previous_power_of_two`, `next_power_of_two`, `trailing_zeros`, the
 * lowest set bit `x & (!x + 1)` and toggling bit `k` with `x ^ (1 << k)`,
 * all on unbounded naturals. Divisibility by `2^k` is stated bit by bit
 * (`AlignedTo`), which keeps every proof linear.
 */
module Powers {
  /** `1 << k`. */
  function Pow2(k: nat): (p: nat)
    ensures p >= 1
  {
    if k == 0 then 1 else 2 * Pow2(k - 1)
  }

  /** `x` is a multiple of `2^k`: its low `k` bits are clear. */
  predicate AlignedTo(x: nat, k: nat) {
    k == 0 || (x % 2 == 0 && AlignedTo(x / 2, k - 1))
  }

  /** `n` is a power of two. */
  predicate IsPow2(n: nat) {
    if n <= 1 then n == 1 else n % 2 == 0 && IsPow2(n / 2)
  }

  /** The exponent of a power of two. */
  function Log2(n: nat): (k: nat)
    requires IsPow2(n)
  {
    if n == 1 then 0 else 1 + Log2(n / 2)
  }

  lemma {:induction false} Pow2IsPow2(k: nat)
    ensures IsPow2(Pow2(k)) && Log2(Pow2(k)) == k
  {
    if k > 0 {
      Pow2IsPow2(k - 1);
    }
  }

  lemma {:induction false} Log2Pow2(n: nat)
    requires IsPow2(n)
    ensures Pow2(Log2(n)) == n
  {
    if n > 1 {
      Log2Pow2(n / 2);
    }
  }

  lemma {:induction false} Pow2Monotone(i: nat, j: nat)
    requires i <= j
    ensures Pow2(i) <= Pow2(j)
    decreases j
  {
    if i < j {
      Pow2Monotone(i, j - 1);
    }
  }

  /** A number aligned to `2^k` is a multiple of `2^k`. */
  lemma {:induction false} AlignedMultiple(x: nat, k: nat) returns (q: nat)
    requires AlignedTo(x, k)
    ensures x == q * Pow2(k)
  {
    if k == 0 {
      q := x;
    } else {
      var h := AlignedMultiple(x / 2, k - 1);
      q := h;
      calc {
        x;
        2 * (x / 2);
        2 * (h * Pow2(k - 1));
        h * (2 * Pow2(k - 1));
      }
    }
  }

  /** The two page sizes the frame allocators hand out: 4 KiB and 2 MiB. */
  lemma PageSizePowers()
    ensures Pow2(12) == 0x1000 && Pow2(21) == 0x20_0000
  {
    assert Pow2(3) == 8;
    assert Pow2(6) == 64;
    assert Pow2(9) == 512;
    assert Pow2(12) == 0x1000;
    assert Pow2(15) == 0x8000;
    assert Pow2(18) == 0x4_0000;
  }

  /** The exponent grows with the power. */
  lemma {:induction false} Log2Monotone(a: nat, b: nat)
    requires IsPow2(a) && IsPow2(b) && a <= b
    ensures Log2(a) <= Log2(b)
  {
    if a > 1 {
      Log2Monotone(a / 2, b / 2);
    }
  }

  /** A multiple of `2^j` is a multiple of every smaller power of two. */
  lemma {:induction false} AlignedWeaken(x: nat, i: nat, j: nat)
    requires i <= j && AlignedTo(x, j)
    ensures AlignedTo(x, i)
    decreases i
  {
    if i > 0 {
      AlignedWeaken(x / 2, i - 1, j - 1);
    }
  }

  lemma {:induction false} AlignedAdd(x: nat, y: nat, k: nat)
    requires AlignedTo(x, k) && AlignedTo(y, k)
    ensures AlignedTo(x + y, k)
    decreases k
  {
    if k > 0 {
      AlignedAdd(x / 2, y / 2, k - 1);
      assert (x + y) / 2 == x / 2 + y / 2;
    }
  }

  lemma {:induction false} AlignedSub(x: nat, y: nat, k: nat)
    requires AlignedTo(x, k) && AlignedTo(y, k) && y <= x
    ensures AlignedTo(x - y, k)
    decreases k
  {
    if k > 0 {
      AlignedSub(x / 2, y / 2, k - 1);
      assert (x - y) / 2 == x / 2 - y / 2;
    }
  }

  /** `2^j` is a multiple of `2^k` for `k <= j`. */
  lemma {:induction false} Pow2Aligned(j: nat, k: nat)
    requires k <= j
    ensures AlignedTo(Pow2(j), k)
    decreases k
  {
    if k > 0 {
      var h := Pow2(j - 1);
      assert Pow2(j) == 2 * h;
      assert Pow2(j) % 2 == 0 && Pow2(j) / 2 == h;
      Pow2Aligned(j - 1, k - 1);
    }
  }

  /** A positive multiple of `2^k` is at least `2^k`. */
  lemma {:induction false} AlignedAtLeast(x: nat, k: nat)
    requires x > 0 && AlignedTo(x, k)
    ensures Pow2(k) <= x
    decreases k
  {
    if k > 0 {
      AlignedAtLeast(x / 2, k - 1);
    }
  }

  /** Of two powers of two, the larger is a multiple of the smaller. */
  lemma SmallerPow2Divides(a: nat, b: nat)
    requires IsPow2(a) && IsPow2(b) && a <= b
    ensures AlignedTo(b, Log2(a))
  {
    Log2Pow2(a);
    Log2Pow2(b);
    if Log2(a) > Log2(b) {
      Pow2Monotone(Log2(b) + 1, Log2(a));
    }
    Pow2Aligned(Log2(b), Log2(a));
  }

  /** `trailing_zeros` of a 64-bit value: 64 for zero. */
  function TrailingZeros(n: nat): (k: nat)
    ensures n > 0 ==> AlignedTo(n, k)
  {
    if n == 0 then 64
    else if n % 2 == 1 then 0
    else TrailingZeros(n / 2) + 1
  }

  /** The trailing zeros of a power of two are its exponent. */
  lemma {:induction false} TrailingZerosPow2(k: nat)
    ensures TrailingZeros(Pow2(k)) == k
  {
    if k > 0 {
      TrailingZerosPow2(k - 1);
    }
  }

  /** `x & (!x + 1)` for `x > 0`: the lowest set bit, the largest power of two dividing `x`. */
  function LowBit(x: nat): (b: nat)
    requires x > 0
    ensures IsPow2(b) && b <= x && AlignedTo(x, Log2(b))
  {
    Pow2IsPow2(TrailingZeros(x));
    AlignedAtLeast(x, TrailingZeros(x));
    Pow2(TrailingZeros(x))
  }

  /** `previous_power_of_two(n)`, `1 << (63 - leading_zeros(n))`: the largest power of two at most `n`. */
  function PrevPow2(n: nat): (p: nat)
    requires n > 0
    ensures IsPow2(p) && p <= n < 2 * p
  {
    if n == 1 then 1 else 2 * PrevPow2(n / 2)
  }

  /** `next_power_of_two(n)`: the smallest power of two at least `n`, and 1 for 0. */
  function NextPow2(n: nat): (p: nat)
    ensures IsPow2(p) && n <= p
    ensures n > 1 ==> p < 2 * n
    ensures n <= 1 ==> p == 1
  {
    if n <= 1 then 1 else 2 * NextPow2((n + 1) / 2)
  }

  /** A power of two that is at least `n` is at least `next_power_of_two(n)`. */
  lemma {:induction false} NextPow2Least(n: nat, p: nat)
    requires IsPow2(p) && n <= p
    ensures NextPow2(n) <= p
  {
    if n > 1 {
      assert p > 1;
      NextPow2Least((n + 1) / 2, p / 2);
    }
  }

  /** Bit `k` of `x`. */
  function Bit(x: nat, k: nat): (b: nat)
    ensures b < 2
  {
    if k == 0 then x % 2 else Bit(x / 2, k - 1)
  }

  /** `x ^ (1 << k)`: toggle bit `k`. */
  function FlipBit(x: nat, k: nat): (y: nat) {
    if Bit(x, k) == 1 then BitSetAtLeast(x, k); x - Pow2(k) else x + Pow2(k)
  }

  lemma {:induction false} BitSetAtLeast(x: nat, k: nat)
    requires Bit(x, k) == 1
    ensures Pow2(k) <= x
  {
    if k > 0 {
      BitSetAtLeast(x / 2, k - 1);
    }
  }

  /** On an even number, toggling bit `k > 0` is toggling bit `k - 1` of the half. */
  lemma FlipBitHalf(x: nat, k: nat)
    requires k > 0 && x % 2 == 0
    ensures FlipBit(x, k) == 2 * FlipBit(x / 2, k - 1)
  {
    if Bit(x, k) == 1 {
      BitSetAtLeast(x / 2, k - 1);
    }
  }

  /**
   * For a block of size `2^k` aligned to `2^k`, the toggled start is the
   * other half of the enclosing `2^(k+1)` block: it is aligned too,
   * toggling twice gives the start back, and the lower of the two starts is
   * aligned to `2^(k+1)`.
   */
  lemma {:induction false} FlipBitBuddy(x: nat, k: nat)
    requires AlignedTo(x, k)
    ensures AlignedTo(FlipBit(x, k), k)
    ensures FlipBit(FlipBit(x, k), k) == x
    ensures AlignedTo(if x < FlipBit(x, k) then x else FlipBit(x, k), k + 1)
    decreases k
  {
    if k > 0 {
      FlipBitHalf(x, k);
      FlipBitBuddy(x / 2, k - 1);
      var y := FlipBit(x / 2, k - 1);
      assert (2 * y) / 2 == y;
      FlipBitHalf(2 * y, k);
    } else {
      if x % 2 == 1 {
        BitSetAtLeast(x, 0);
      }
    }
  }
}
