/** Fixed-width unsigned arithmetic, stated on mathematical integers.

    A C `uint32_t` is a `word`, a `uint8_t` is a `byte`. Arithmetic that wraps in C goes
    through `Wrap`; a mask or a shift by a constant is written as the division and
    remainder it performs. */
module Words {
  type byte = x: int | 0 <= x < 0x100
  type word = x: int | 0 <= x < 0x1_0000_0000

  /** Conversion of any integer to `uint32_t`. */
  function Wrap(x: int): word {
    x % 0x1_0000_0000
  }

  /** `uint32_t` addition and subtraction. */
  function Plus(a: int, b: int): word {
    Wrap(a + b)
  }

  function Minus(a: int, b: int): word {
    Wrap(a - b)
  }

  lemma PlusPlus(a: int, b: int, c: int)
    ensures Plus(Plus(a, b), c) == Plus(a, b + c)
  {
  }

  lemma PlusFits(a: int, b: int)
    requires 0 <= a + b < 0x1_0000_0000
    ensures Plus(a, b) == a + b
  {
  }

  lemma MinusFits(a: int, b: int)
    requires 0 <= a - b < 0x1_0000_0000
    ensures Minus(a, b) == a - b
  {
  }

  /** Conversion of a `uint32_t` to `int32_t`. */
  function ToInt32(x: word): int {
    if x < 0x8000_0000 then x else x - 0x1_0000_0000
  }

  /** Byte `k` of a word: `(w >> 8 * k) & 0xFF`. */
  function ByteOf(w: word, k: nat): byte
    requires k < 4
  {
    if k == 0 then w % 0x100
    else if k == 1 then (w / 0x100) % 0x100
    else if k == 2 then (w / 0x1_0000) % 0x100
    else w / 0x100_0000
  }

  function Pow2(n: nat): (p: nat)
    ensures p >= 1
  {
    if n == 0 then 1 else 2 * Pow2(n - 1)
  }

  lemma {:induction false} Pow2Add(m: nat, n: nat)
    ensures Pow2(m + n) == Pow2(m) * Pow2(n)
  {
    if m == 0 {
    } else {
      Pow2Add(m - 1, n);
      Distribute(Pow2(m - 1), Pow2(m - 1), Pow2(n));
    }
  }

  lemma Pow2Top()
    ensures Pow2(8) == 0x100 && Pow2(16) == 0x1_0000
    ensures Pow2(31) == 0x8000_0000 && Pow2(32) == 0x1_0000_0000
  {
    assert Pow2(8) == 0x100;
    Pow2Add(8, 8);
    assert Pow2(15) == 2 * Pow2(14) == 4 * Pow2(13);
    Pow2Add(8, 5);
    Pow2Add(15, 16);
  }

  /** The weights of the bits that registers are made of. */
  lemma Pow2Values()
    ensures Pow2(0) == 1 && Pow2(1) == 2 && Pow2(2) == 4 && Pow2(3) == 8 && Pow2(4) == 16 && Pow2(5) == 32
    ensures Pow2(6) == 64 && Pow2(7) == 128 && Pow2(8) == 0x100 && Pow2(10) == 0x400 && Pow2(16) == 0x1_0000
    ensures Pow2(25) == 0x200_0000 && Pow2(27) == 0x800_0000
    ensures Pow2(28) == 0x1000_0000 && Pow2(29) == 0x2000_0000 && Pow2(30) == 0x4000_0000 && Pow2(31) == 0x8000_0000
  {
    Pow2Top();
    assert Pow2(1) == 2 * Pow2(0) && Pow2(2) == 2 * Pow2(1) && Pow2(3) == 2 * Pow2(2) && Pow2(4) == 2 * Pow2(3);
    assert Pow2(5) == 2 * Pow2(4) && Pow2(6) == 2 * Pow2(5) && Pow2(7) == 2 * Pow2(6) && Pow2(10) == 2 * Pow2(9);
    assert Pow2(31) == 2 * Pow2(30) && Pow2(30) == 2 * Pow2(29) && Pow2(29) == 2 * Pow2(28);
    assert Pow2(28) == 2 * Pow2(27) && Pow2(27) == 2 * Pow2(26) && Pow2(26) == 2 * Pow2(25);
  }

  lemma Pow2Complement(k: nat)
    requires k <= 31
    ensures Pow2(k) * Pow2(31 - k) == 0x8000_0000
  {
    var j := 31 - k;
    Pow2Add(k, j);
    Pow2Top();
    assert k + j == 31;
  }

  lemma Distribute(a: int, b: int, c: int)
    ensures (a + b) * c == a * c + b * c
  {
  }

  /** Scaling an inequality. */
  lemma MulMono(a: int, b: int, c: int)
    requires a <= b && 0 <= c
    ensures a * c <= b * c
  {
    Distribute(a, b - a, c);
  }

  lemma DivMod(x: int, d: int)
    requires 0 < d
    ensures x == (x / d) * d + x % d && 0 <= x % d < d
  {
  }

  lemma QuotientLe(d: int, q: int, r: int, q': int, r': int)
    requires 0 <= r < d && 0 <= r' < d && q * d + r == q' * d + r'
    ensures q' <= q
  {
    if q < q' {
      MulMono(q + 1, q', d);
      Distribute(q, 1, d);
    }
  }

  /** A quotient and remainder are determined by the equation they solve. */
  lemma DivModUnique(x: int, d: int, q: int, r: int)
    requires 0 < d && 0 <= r < d && x == q * d + r
    ensures x / d == q && x % d == r
  {
    DivMod(x, d);
    var q', r' := x / d, x % d;
    QuotientLe(d, q, r, q', r');
    QuotientLe(d, q', r', q, r);
  }

  /** Multiples of the divisor add to the quotient and leave the remainder. */
  lemma AddMultiple(d: int, q: int, r: int)
    requires 0 < d
    ensures (q * d + r) / d == q + r / d && (q * d + r) % d == r % d
  {
    DivMod(r, d);
    Distribute(q, r / d, d);
    DivModUnique(q * d + r, d, q + r / d, r % d);
  }

  /** Cutting a word at `d` and reading the lower part modulo a divisor of `d`. */
  lemma RemainderOfLow(x: int, d: int, k: int, e: int)
    requires 0 < e && 0 < k && d == k * e
    ensures d > 0 && x % d % e == x % e && x / e == x / d * k + x % d / e
  {
    MulMono(1, k, e);
    DivMod(x, d);
    assert x / d * d == (x / d * k) * e;
    AddMultiple(e, x / d * k, x % d);
  }

  lemma DivDiv(x: nat, a: nat, b: nat)
    requires a > 0 && b > 0
    ensures a * b > 0 && x / (a * b) == (x / a) / b
  {
    var q, r := x / a, x % a;
    var h, s := q / b, q % b;
    DivMod(x, a);
    DivMod(q, b);
    Distribute(h * b, s, a);
    assert (h * b) * a == h * (a * b);
    MulMono(s + 1, b, a);
    Distribute(s, 1, a);
    MulMono(0, s, a);
    assert b * a == a * b;
    DivModUnique(x, a * b, h, s * a + r);
  }

  function Quotient(x: nat, d: nat): nat
    requires d > 0
  {
    x / d
  }

  function Remainder(x: nat, d: nat): nat
    requires d > 0
  {
    x % d
  }

  lemma SmallRemainder(x: nat, d: nat)
    requires x < d
    ensures Quotient(x, d) == 0 && Remainder(x, d) == x
  {
    DivModUnique(x, d, 0, x);
  }

  /** A remainder that counts up by one. */
  lemma NextRemainder(x: nat, d: nat)
    requires d > 0
    ensures Remainder(x, d) < d
    ensures Remainder(x + 1, d) == if Remainder(x, d) == d - 1 then 0 else Remainder(x, d) + 1
    ensures Quotient(x + 1, d) == Quotient(x, d) + if Remainder(x, d) == d - 1 then 1 else 0
  {
    DivMod(x, d);
    if x % d == d - 1 {
      Distribute(x / d, 1, d);
      DivModUnique(x + 1, d, x / d + 1, 0);
    } else {
      DivModUnique(x + 1, d, x / d, x % d + 1);
    }
  }
}
