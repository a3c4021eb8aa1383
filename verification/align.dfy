/** Word-level arithmetic used by the early allocator: the 64-bit machine word,
    powers of two, the bitwise AND of two words, and the mask-based rounding
    helpers `align_down` and `align_up`. */
module Align {

  /** Bits in a `usize` on the 64-bit targets the kernel is built for. */
  const WORD_BITS: nat := 64
  /** 2^64, one more than the largest `usize` (see `WordIsPow2`). */
  const WORD: nat := 0x1_0000_0000_0000_0000
  /** `isize::MAX` = 2^63 - 1, the bound a `Layout` keeps its rounded-up size below. */
  const ISIZE_MAX: nat := 0x7FFF_FFFF_FFFF_FFFF

  /** A machine word: the values a `usize` can hold. */
  type Usize = x: int | 0 <= x < WORD

  function Pow2(k: nat): (r: nat)
    ensures r >= 1
  {
    if k == 0 then 1 else 2 * Pow2(k - 1)
  }

  /** Exponents add: `2^(a+b) == 2^a * 2^b`. */
  lemma {:induction false} Pow2Add(a: nat, b: nat)
    ensures Pow2(a + b) == Pow2(a) * Pow2(b)
  {
    if a > 0 {
      Pow2Add(a - 1, b);
      assert Pow2(a + b) == 2 * Pow2(a - 1 + b);
    }
  }

  lemma Pow2Of16()
    ensures Pow2(16) == 0x1_0000
  {
    assert Pow2(8) == 0x100;
    Pow2Add(8, 8);
  }

  lemma Pow2Of32()
    ensures Pow2(32) == 0x1_0000_0000
  {
    Pow2Of16();
    Pow2Add(16, 16);
  }

  /** The word constants are the powers of two they stand for. */
  lemma WordIsPow2()
    ensures Pow2(WORD_BITS) == WORD
    ensures Pow2(WORD_BITS - 1) == ISIZE_MAX + 1
  {
    Pow2Of32();
    Pow2Add(32, 32);
    assert Pow2(64) == 2 * Pow2(63);
  }

  /** Powers of two are ordered like their exponents. */
  lemma {:induction false} Pow2Order(j: nat, k: nat)
    ensures j < k <==> Pow2(j) < Pow2(k)
    ensures j <= k <==> Pow2(j) <= Pow2(k)
  {
    if j > 0 && k > 0 {
      Pow2Order(j - 1, k - 1);
    } else if j > 0 {
      assert Pow2(j) >= 2 by { assert Pow2(j - 1) >= 1; }
    } else if k > 0 {
      assert Pow2(k) >= 2 by { assert Pow2(k - 1) >= 1; }
    }
  }

  /** Rust's `is_power_of_two`: exactly one bit set (so 0 is not a power of two). */
  predicate IsPowerOfTwo(x: int)
    ensures IsPowerOfTwo(x) ==> x >= 1 && (x == 1 || x % 2 == 0)
    decreases x
  {
    x == 1 || (x >= 2 && x % 2 == 0 && IsPowerOfTwo(x / 2))
  }

  /** The exponent of a power of two. */
  function Log2(x: int): (k: nat)
    requires IsPowerOfTwo(x)
    ensures Pow2(k) == x
    decreases x
  {
    if x == 1 then 0 else 1 + Log2(x / 2)
  }

  /** Every `Pow2(k)` passes the `is_power_of_two` test; with `Log2` this makes
      the test exactly the set of powers of two. */
  lemma {:induction false} Pow2IsPowerOfTwo(k: nat)
    ensures IsPowerOfTwo(Pow2(k))
  {
    if k > 0 {
      Pow2IsPowerOfTwo(k - 1);
      assert Pow2(k) / 2 == Pow2(k - 1);
    }
  }

  /** A power of two divides every larger power of two. */
  lemma PowerOfTwoDivides(a: int, b: int)
    requires IsPowerOfTwo(a) && IsPowerOfTwo(b) && a <= b
    ensures b % a == 0
  {
    var i, j := Log2(a), Log2(b);
    Pow2Order(i, j);
    Pow2Add(i, j - i);
    ModUnique(b, a, Pow2(j - i), 0);
  }

  /** A product of powers of two is a power of two. */
  lemma PowerOfTwoProduct(a: int, b: int)
    requires IsPowerOfTwo(a) && IsPowerOfTwo(b)
    ensures IsPowerOfTwo(a * b)
  {
    var i, j := Log2(a), Log2(b);
    Pow2Add(i, j);
    Pow2IsPowerOfTwo(i + j);
  }

  /** Bitwise AND of the low `n` bits of `x` and `y`. The recursion is on `n`;
      `x` is named in the decreases clause as well, so that a call whose width
      alone is a constant is not unfolded to all its levels by the verifier. */
  function BitAnd(x: int, y: int, n: nat): (r: nat)
    decreases n, x
  {
    if n == 0 then 0
    else (if x % 2 == 1 && y % 2 == 1 then 1 else 0) + 2 * BitAnd(x / 2, y / 2, n - 1)
  }

  /** ANDing never sets a bit, so it never exceeds either operand. */
  lemma {:induction false} BitAndLe(x: int, y: int, n: nat)
    requires 0 <= x && 0 <= y
    ensures BitAnd(x, y, n) <= x && BitAnd(x, y, n) <= y
  {
    if n > 0 {
      BitAndLe(x / 2, y / 2, n - 1);
    }
  }

  /** `x & y` on two words. */
  function And(x: Usize, y: Usize): (r: Usize)
    ensures r <= x && r <= y
  {
    BitAndLe(x, y, WORD_BITS);
    BitAnd(x, y, WORD_BITS)
  }

  /** `!x` on a word: every one of its 64 bits flipped. The two words share
      no set bit, and together they make up the all-ones word. */
  function Not(x: Usize): (r: Usize)
    ensures x + r == WORD - 1
    ensures BitAnd(x, r, WORD_BITS) == 0
  {
    WordIsPow2();
    ComplementDisjoint(x, WORD_BITS, WORD);
    WORD - 1 - x
  }

  /** An `n`-bit value and its complement `2^n - 1 - x` have no set bit in
      common: each bit of the complement is the flipped bit of `x`. */
  lemma {:induction false} ComplementDisjoint(x: int, n: nat, m: int)
    requires m == Pow2(n) && 0 <= x < m
    ensures BitAnd(x, m - 1 - x, n) == 0
  {
    if n > 0 {
      var half: int := Pow2(n - 1);
      var y := m - 1 - x;
      assert x / 2 < half;
      ComplementDisjoint(x / 2, n - 1, half);
      assert y == 2 * (half - 1 - x / 2) + (1 - x % 2);
      ModUnique(y, 2, half - 1 - x / 2, 1 - x % 2);
    }
  }

  /** Splitting off the lowest bit: `p % 2q` is the low bit plus twice `(p / 2) % q`. */
  lemma ModHalves(p: nat, q: nat)
    requires q >= 1
    ensures p % (2 * q) == p % 2 + 2 * ((p / 2) % q)
  {
    var t, s := (p / 2) / q, (p / 2) % q;
    assert p == 2 * q * t + (2 * s + p % 2);
    ModUnique(p, 2 * q, t, 2 * s + p % 2);
  }

  /** Quotient and remainder are unique: `x = d*t + s` with `0 <= s < d`
      fixes `x / d == t` and `x % d == s`. */
  lemma ModUnique(x: int, d: int, t: int, s: int)
    requires d >= 1 && x == d * t + s && 0 <= s < d
    ensures x % d == s && x / d == t
  {
    var t0, s0 := x / d, x % d;
    assert x == d * t0 + s0;
    var m := t - t0;
    assert d * m == s0 - s by {
      assert d * t == d * t0 + d * m;
    }
  }

  /** `x / d` is the floor of the quotient. */
  lemma FloorDiv(x: int, d: int)
    requires d >= 1
    ensures (x / d) * d <= x < (x / d + 1) * d
    ensures x >= 0 ==> 0 <= x / d <= x
  {
    var q, s := x / d, x % d;
    assert x == q * d + s && 0 <= s < d;
    assert (q + 1) * d == q * d + d;
    if x >= 0 {
      if q < 0 {
        MulLe(q, -1, d);
      }
      MulLe(1, d, q);
    }
  }

  /** Multiplying by a non-negative factor keeps the order. */
  lemma {:induction false} MulLe(a: int, b: int, d: int)
    requires d >= 0 && a <= b
    ensures a * d <= b * d
    decreases b - a
  {
    if a < b {
      MulLe(a, b - 1, d);
      assert b * d == (b - 1) * d + d;
    }
  }

  /** A multiple of `d` divides exactly. */
  lemma ExactDiv(x: int, d: int)
    requires d >= 1 && x % d == 0
    ensures (x / d) * d == x
  {
    assert x == d * (x / d) + x % d;
  }

  /** Taking `c` whole units of `d` off a multiple of `d` leaves a multiple of `d`. */
  lemma SubMultiple(x: int, c: int, d: int)
    requires d >= 1 && x % d == 0
    ensures (x - c * d) % d == 0
  {
    ExactDiv(x, d);
    assert x - c * d == d * (x / d - c);
    ModUnique(x - c * d, d, x / d - c, 0);
  }

  /** A multiple of a multiple of `a` is a multiple of `a`. */
  lemma DividesTrans(x: int, b: int, a: int)
    requires a >= 1 && b >= 1 && x % b == 0 && b % a == 0
    ensures x % a == 0
  {
    var p, q := x / b, b / a;
    ExactDiv(x, b);
    ExactDiv(b, a);
    assert x == a * (q * p) by {
      assert x == (q * a) * p;
    }
    ModUnique(x, a, q * p, 0);
  }

  /** A multiple of `d` at most `x` is at most `x` rounded down to a multiple of `d`. */
  lemma MultipleBelow(a: int, x: int, d: int)
    requires d >= 1 && a % d == 0 && 0 <= a <= x
    ensures a <= x - x % d
  {
    ExactDiv(a, d);
    FloorDiv(x, d);
    if a / d > x / d {
      MulLe(x / d + 1, a / d, d);
    } else {
      MulLe(a / d, x / d, d);
    }
    assert x == d * (x / d) + x % d;
  }

  /** Adding whole units of `d` adds to the quotient: `(m*d + g) / d == m + g / d`. */
  lemma DivAddMultiple(m: int, g: int, d: int)
    requires d >= 1
    ensures (m * d + g) / d == m + g / d
  {
    assert g == d * (g / d) + g % d;
    assert m * d + g == d * (m + g / d) + g % d;
    ModUnique(m * d + g, d, m + g / d, g % d);
  }

  /** ANDing with the all-ones mask of `n` bits keeps an `n`-bit value. */
  lemma {:induction false} MaskKeepsAll(p: int, n: nat)
    requires 0 <= p < Pow2(n)
    ensures BitAnd(p, Pow2(n) - 1, n) == p
  {
    if n > 0 {
      var half: int := Pow2(n - 1);
      var mask: int := Pow2(n) - 1;
      assert p / 2 < half;
      MaskKeepsAll(p / 2, n - 1);
      assert mask == 2 * (half - 1) + 1;
      ModUnique(mask, 2, half - 1, 1);
      assert BitAnd(p, mask, n) == p % 2 + 2 * (p / 2);
    }
  }

  /** ANDing with a mask whose bits k..n-1 are set and 0..k-1 clear keeps `p`
      with its low `k` bits cleared, that is `p` rounded down to a multiple of 2^k. */
  lemma {:induction false} MaskClearsLowBits(p: int, n: nat, k: nat)
    requires k <= n && 0 <= p < Pow2(n)
    ensures BitAnd(p, Pow2(n) - Pow2(k), n) == p - p % Pow2(k)
  {
    if k == 0 {
      assert Pow2(k) == 1;
      MaskKeepsAll(p, n);
      ModUnique(p, 1, p, 0);
    } else {
      var half: int := Pow2(n - 1);
      var q: int := Pow2(k - 1);
      assert p / 2 < half;
      MaskClearsLowBits(p / 2, n - 1, k - 1);
      var top: int := Pow2(n);
      var low: int := Pow2(k);
      assert top == 2 * half && low == 2 * q;
      ClearLowBit(p, n, half, q, top, low);
    }
  }

  /** The step of `MaskClearsLowBits` for k > 0: the mask's low bit is clear,
      so the result is twice the result on the upper bits. */
  lemma ClearLowBit(p: int, n: nat, half: int, q: int, top: int, low: int)
    requires n > 0 && 0 <= p && 1 <= q && top == 2 * half && low == 2 * q
    requires BitAnd(p / 2, half - q, n - 1) == p / 2 - (p / 2) % q
    ensures BitAnd(p, top - low, n) == p - p % low
  {
    var mask := top - low;
    ModUnique(mask, 2, half - q, 0);
    assert BitAnd(p, mask, n) == 2 * (p / 2 - (p / 2) % q);
    ModHalves(p, q);
  }

  /** For a power of two `align` below `m` = 2^n, ANDing with the n-bit
      complement of `align - 1`, which is `m - align`, rounds `p` down to a
      multiple of `align`. */
  lemma MaskRoundsDownWidth(p: int, align: int, n: nat, m: int)
    requires m == Pow2(n)
    requires IsPowerOfTwo(align) && align <= m && 0 <= p < m
    ensures BitAnd(p, m - align, n) == p - p % align
  {
    var k := Log2(align);
    Pow2Order(k, n);
    MaskClearsLowBits(p, n, k);
  }

  /** For a power of two `align`, the mask `!(align - 1)` rounds a word down
      to a multiple of `align`. */
  lemma MaskRoundsDown(p: Usize, align: Usize)
    requires IsPowerOfTwo(align)
    ensures var r := And(p, Not(align - 1));
      r == p - p % align && r % align == 0 && r <= p && p - r < align
  {
    WordIsPow2();
    MaskRoundsDownWidth(p, align, WORD_BITS, WORD);
    var r := And(p, Not(align - 1));
    RoundDownFacts(p, align, r);
  }

  /** `p - p % a` is a multiple of `a` at most `a - 1` below `p`. */
  lemma RoundDownFacts(p: int, a: int, r: int)
    requires a >= 1 && r == p - p % a
    ensures r % a == 0 && r <= p && p - r < a
  {
    ModUnique(r, a, p / a, 0);
  }

  /** `align_down(pos, align)`: `pos & !(align - 1)`. `align >= 1` keeps
      `align - 1` from underflowing. */
  function AlignDown(pos: Usize, align: Usize): (r: Usize)
    requires align >= 1
    ensures IsPowerOfTwo(align) ==> r == pos - pos % align
    ensures IsPowerOfTwo(align) ==> r % align == 0 && r <= pos && pos - r < align
  {
    if IsPowerOfTwo(align) then
      MaskRoundsDown(pos, align);
      And(pos, Not(align - 1))
    else
      And(pos, Not(align - 1))
  }

  /** `align_up(pos, align)`: `(pos + align - 1) & !(align - 1)`, under the
      condition that `pos + align - 1` does not overflow the word. */
  function AlignUp(pos: Usize, align: Usize): (r: Usize)
    requires align >= 1 && pos + align - 1 < WORD
    ensures IsPowerOfTwo(align) ==> r % align == 0 && pos <= r < pos + align
    ensures IsPowerOfTwo(align) && pos % align == 0 ==> r == pos
  {
    var bumped: Usize := pos + align - 1;
    if IsPowerOfTwo(align) then
      RoundsUp(pos, align, bumped);
      And(bumped, Not(align - 1))
    else
      And(bumped, Not(align - 1))
  }

  lemma RoundsUp(pos: Usize, align: Usize, bumped: Usize)
    requires IsPowerOfTwo(align) && bumped == pos + align - 1
    ensures var r := And(bumped, Not(align - 1));
      r % align == 0 && pos <= r < pos + align && (pos % align == 0 ==> r == pos)
  {
    MaskRoundsDown(bumped, align);
    RoundUpFacts(pos, align, bumped);
  }

  lemma RoundUpFacts(pos: int, align: int, bumped: int)
    requires align >= 1 && bumped == pos + align - 1
    ensures var r := bumped - bumped % align;
      pos <= r < pos + align && (pos % align == 0 ==> r == pos)
  {
    if pos % align == 0 {
      ModUnique(bumped, align, pos / align, align - 1);
    }
  }
}
