/** `addWithCarry` (`src/cortex_emu_internal.h`) and the instructions that use it, as exact
    arithmetic on numbers of any word count. */
module Arithmetic {
  import opened Words
  import opened Cpu
  import opened MemoryLaws
  import opened Memory

  /** Bit 31: `w & 0x80000000`. */
  predicate Negative(w: word) {
    w >= 0x8000_0000
  }

  /** `~w`. */
  function Not(w: word): word {
    0xFFFF_FFFF - w
  }

  function Bit(b: bool): nat {
    if b then 1 else 0
  }

  /** xPSR with its top four bits replaced. */
  function WithFlags(x: word, n: bool, z: bool, c: bool, v: bool): word {
    x % 0x1000_0000 + Bit(n) * 0x8000_0000 + Bit(z) * 0x4000_0000 + Bit(c) * 0x2000_0000 + Bit(v) * 0x1000_0000
  }

  /** `addWithCarry`: the result and the new xPSR. The overflow test of the code,
      `(a ^ result) & (b ^ result) & 0x80000000`, compares the three sign bits. */
  function AddWithCarry(x: word, a: word, b: word, carryIn: bool): (r: (word, word)) {
    var sum := a + b + Bit(carryIn);
    var result := Wrap(sum);
    var overflow := Negative(a) != Negative(result) && Negative(b) != Negative(result);
    (result, WithFlags(x, Negative(result), result == 0, sum > 0xFFFF_FFFF, overflow))
  }

  lemma FlagsReadBack(x: word, n: bool, z: bool, c: bool, v: bool)
    ensures var y := WithFlags(x, n, z, c, v);
      FlagN(y) == n && FlagZ(y) == z && FlagC(y) == c && FlagV(y) == v
    ensures WithFlags(x, n, z, c, v) % 0x1000_0000 == x % 0x1000_0000
  {
    var low := x % 0x1000_0000;
    var top := 8 * Bit(n) + 4 * Bit(z) + 2 * Bit(c) + Bit(v);
    TopBits(low, top);
    FourBits(Bit(n), Bit(z), Bit(c), Bit(v));
    hide Bit;
  }

  lemma FourBits(n: nat, z: nat, c: nat, v: nat)
    requires n < 2 && z < 2 && c < 2 && v < 2
    ensures var top := 8 * n + 4 * z + 2 * c + v;
      top / 8 == n && top / 4 % 2 == z && top / 2 % 2 == c && top % 2 == v
  {
  }

  lemma TopBits(low: nat, top: nat)
    requires low < 0x1000_0000 && top < 16
    ensures var y := low + top * 0x1000_0000;
      && y < 0x1_0000_0000 && y % 0x1000_0000 == low
      && y / 0x8000_0000 % 2 == top / 8 && y / 0x4000_0000 % 2 == top / 4 % 2
      && y / 0x2000_0000 % 2 == top / 2 % 2 && y / 0x1000_0000 % 2 == top % 2
  {
    var y := low + top * 0x1000_0000;
    assert y / 0x1000_0000 == top;
    assert y / 0x2000_0000 == top / 2;
    assert y / 0x4000_0000 == top / 4;
    assert y / 0x8000_0000 == top / 8;
  }

  /** `setNZ`. */
  function SetNZ(x: word, result: word): word {
    x % 0x4000_0000 + Bit(Negative(result)) * 0x8000_0000 + Bit(result == 0) * 0x4000_0000
  }

  /** `setNZC`. */
  function SetNZC(x: word, result: word, carry: bool): word {
    x % 0x2000_0000 + Bit(Negative(result)) * 0x8000_0000 + Bit(result == 0) * 0x4000_0000 + Bit(carry) * 0x2000_0000
  }

  /** `xpsr |= 1 << 27`: the sticky saturation flag. */
  function SetQ(x: word): word {
    if x / 0x800_0000 % 2 == 1 then x else x + 0x800_0000
  }

  /** MSR APSR: bits 31:27 from the register. */
  function WriteApsr(x: word, val: word): word {
    x % 0x800_0000 + val / 0x800_0000 * 0x800_0000
  }

  lemma SetNZKeepsRest(x: word, result: word)
    ensures var y := SetNZ(x, result);
      && (FlagN(y) <==> Signed(result) < 0) && (FlagZ(y) <==> result == 0) && FlagC(y) == FlagC(x)
          && FlagV(y) == FlagV(x)
      && y % 0x800_0000 == x % 0x800_0000
  {
    var low, top := x % 0x4000_0000, 2 * Bit(Negative(result)) + Bit(result == 0);
    var y := low + top * 0x4000_0000;
    assert y / 0x4000_0000 == top && y / 0x8000_0000 == top / 2;
    SameLow(x, y, 0x4000_0000);
  }

  lemma SetNZCKeepsRest(x: word, result: word, carry: bool)
    ensures var y := SetNZC(x, result, carry);
      && (FlagN(y) <==> Signed(result) < 0) && (FlagZ(y) <==> result == 0) && FlagC(y) == carry && FlagV(y) == FlagV(x)
      && y % 0x800_0000 == x % 0x800_0000
  {
    var low, top := x % 0x2000_0000, 4 * Bit(Negative(result)) + 2 * Bit(result == 0) + Bit(carry);
    var y := low + top * 0x2000_0000;
    assert y / 0x2000_0000 == top && y / 0x4000_0000 == top / 2 && y / 0x8000_0000 == top / 4;
    SameLow(x, y, 0x2000_0000);
  }

  /** Words that agree below bit 29 (or 30) agree on V, and below bit 27; below bit 30 also
      on C. */
  lemma SameLow(x: word, y: word, p: nat)
    requires p == 0x2000_0000 || p == 0x4000_0000
    requires x % p == y % p
    ensures x % 0x800_0000 == y % 0x800_0000 && FlagV(x) == FlagV(y)
    ensures p == 0x4000_0000 ==> FlagC(x) == FlagC(y)
  {
    if p == 0x4000_0000 {
      SameBelow(x, y, p, 4, 0x800_0000);
      SameBelow(x, y, p, 2, 0x1000_0000);
      SameBelow(x, y, p, 1, 0x2000_0000);
    } else {
      SameBelow(x, y, p, 2, 0x800_0000);
      SameBelow(x, y, p, 1, 0x1000_0000);
    }
  }

  /** Words that agree below bit `log(p)` agree on everything further down. */
  lemma SameBelow(x: word, y: word, p: nat, k: nat, e: nat)
    requires 0 < e && 0 < k && 0 < p == 2 * k * e && x % p == y % p
    ensures x % e == y % e && x / e % 2 == y / e % 2
  {
    RemainderOfLow(x, p, 2 * k, e);
    RemainderOfLow(y, p, 2 * k, e);
    assert x / p * (2 * k) == (x / p * k) * 2 && y / p * (2 * k) == (y / p * k) * 2;
    AddMultiple(2, x / p * k, x % p / e);
    AddMultiple(2, y / p * k, y % p / e);
  }

  lemma SetQKeepsRest(x: word)
    ensures var y := SetQ(x);
      y % 0x800_0000 == x % 0x800_0000 && y / 0x800_0000 % 2 == 1 && y / 0x1000_0000 == x / 0x1000_0000
  {
    var top, low := x / 0x800_0000, x % 0x800_0000;
    var y := SetQ(x);
    assert y / 0x800_0000 == if top % 2 == 1 then top else top + 1;
    assert x / 0x1000_0000 == top / 2;
  }

  lemma WriteApsrKeepsRest(x: word, val: word)
    ensures WriteApsr(x, val) % 0x800_0000 == x % 0x800_0000 && WriteApsr(x, val) / 0x800_0000 == val / 0x800_0000
  {
  }

  // ---------------------------------------------------------------- signed values

  /** The two's complement value of a word. */
  function Signed(w: word): int {
    if Negative(w) then w - 0x1_0000_0000 else w
  }

  /** One word: the exact sum with C as carry, N the sign, Z zero, and V exactly the signed
      sums that do not fit. */
  lemma AddWithCarryIsExact(x: word, a: word, b: word, carryIn: bool)
    ensures var (r, y) := AddWithCarry(x, a, b, carryIn);
      && a + b + Bit(carryIn) == r + Bit(FlagC(y)) * 0x1_0000_0000
      && (FlagN(y) <==> Signed(r) < 0) && (FlagZ(y) <==> r == 0)
      && (FlagV(y) <==> Signed(r) != Signed(a) + Signed(b) + Bit(carryIn))
      && (FlagN(y) != FlagV(y) <==> Signed(a) + Signed(b) + Bit(carryIn) < 0)
      && y % 0x1000_0000 == x % 0x1000_0000
  {
    hide FlagN, FlagZ, FlagC, FlagV, WithFlags;
    var sum := a + b + Bit(carryIn);
    var r := Wrap(sum);
    FlagsReadBack(x, Negative(r), r == 0, sum > 0xFFFF_FFFF, Negative(a) != Negative(r) && Negative(b) != Negative(r));
    WrapSum(sum);
  }

  lemma WrapSum(sum: nat)
    requires sum < 0x2_0000_0000
    ensures Wrap(sum) == if sum > 0xFFFF_FFFF then sum - 0x1_0000_0000 else sum
  {
  }

  // ---------------------------------------------------------------- compare

  /** After CMP (or SUBS) of two words every condition code decides the relation it names. */
  lemma CompareDecides(x: word, a: word, b: word)
    ensures var (r, y) := AddWithCarry(x, a, Not(b), true);
      && r == Minus(a, b)
      && (Condition(y, 0) <==> a == b) && (Condition(y, 1) <==> a != b)
      && (Condition(y, 2) <==> a >= b) && (Condition(y, 3) <==> a < b)
      && (Condition(y, 4) <==> Signed(r) < 0) && (Condition(y, 5) <==> Signed(r) >= 0)
      && (Condition(y, 6) <==> !FitsSigned(Signed(a) - Signed(b)))
      && (Condition(y, 7) <==> FitsSigned(Signed(a) - Signed(b)))
      && (Condition(y, 8) <==> a > b) && (Condition(y, 9) <==> a <= b)
      && (Condition(y, 10) <==> Signed(a) >= Signed(b)) && (Condition(y, 11) <==> Signed(a) < Signed(b))
      && (Condition(y, 12) <==> Signed(a) > Signed(b)) && (Condition(y, 13) <==> Signed(a) <= Signed(b))
  {
    hide FlagN, FlagZ, FlagC, FlagV, AddWithCarry, Minus;
    AddWithCarryIsExact(x, a, Not(b), true);
    assert Signed(Not(b)) == -Signed(b) - 1;
    var (r, y) := AddWithCarry(x, a, Not(b), true);
    DifferenceOfWords(a, b, r, Bit(FlagC(y)));
    OverflowMeans(a, Not(b), 1, r);
  }

  /** What a signed word can hold. */
  predicate FitsSigned(v: int) {
    -0x8000_0000 <= v < 0x8000_0000
  }

  /** A sum of words is their signed sum if and only if that fits. */
  lemma OverflowMeans(a: word, b: word, carry: nat, r: word)
    requires carry < 2 && (r == a + b + carry || r + 0x1_0000_0000 == a + b + carry)
    ensures Signed(r) != Signed(a) + Signed(b) + carry <==> !FitsSigned(Signed(a) + Signed(b) + carry)
  {
  }

  /** After ADDS, ADCS, SUBS or SBCS: EQ and NE speak of a zero result, CS and CC of the
      unsigned sum, MI and PL of the sign of the result, VS and VC of the exact signed sum. */
  lemma SumDecides(x: word, a: word, b: word, carryIn: bool)
    ensures var (r, y) := AddWithCarry(x, a, b, carryIn);
      var signed := Signed(a) + Signed(b) + Bit(carryIn);
      && (Condition(y, 0) <==> r == 0) && (Condition(y, 1) <==> r != 0)
      && (Condition(y, 2) <==> a + b + Bit(carryIn) >= 0x1_0000_0000)
      && (Condition(y, 3) <==> a + b + Bit(carryIn) < 0x1_0000_0000)
      && (Condition(y, 4) <==> Signed(r) < 0) && (Condition(y, 5) <==> Signed(r) >= 0)
      && (Condition(y, 6) <==> !FitsSigned(signed)) && (Condition(y, 7) <==> FitsSigned(signed))
  {
    hide FlagN, FlagZ, FlagC, FlagV, AddWithCarry, Signed;
    AddWithCarryIsExact(x, a, b, carryIn);
    var (r, y) := AddWithCarry(x, a, b, carryIn);
    OverflowMeans(a, b, Bit(carryIn), r);
  }

  /** After the flag helpers of the logical and move instructions EQ, NE, MI and PL speak of
      the result, and V stays. */
  lemma ResultDecides(x: word, result: word, carry: bool)
    ensures var y, z := SetNZ(x, result), SetNZC(x, result, carry);
      && (Condition(y, 0) <==> result == 0) && (Condition(z, 0) <==> result == 0)
      && (Condition(y, 4) <==> Signed(result) < 0) && (Condition(z, 4) <==> Signed(result) < 0)
      && Condition(y, 2) == Condition(x, 2) && Condition(z, 2) == carry
      && Condition(y, 6) == Condition(x, 6) && Condition(z, 6) == Condition(x, 6)
  {
    hide FlagN, FlagZ, FlagC, FlagV, SetNZ, SetNZC, Signed;
    SetNZKeepsRest(x, result);
    SetNZCKeepsRest(x, result, carry);
  }

  /** Each odd condition is the even one before it negated; 14 and 15 always hold. */
  lemma ConditionsComplement(x: word, k: nat)
    ensures k < 7 ==> Condition(x, 2 * k + 1) == !Condition(x, 2 * k)
    ensures k >= 14 ==> Condition(x, k)
  {
    hide FlagN, FlagZ, FlagC, FlagV;
  }

  /** Where the flags are: N, Z, C and V are bits 31 to 28. */
  lemma FlagBits(x: word)
    ensures (FlagN(x) <==> BitOf(x, 31) == 1) && (FlagZ(x) <==> BitOf(x, 30) == 1)
    ensures (FlagC(x) <==> BitOf(x, 29) == 1) && (FlagV(x) <==> BitOf(x, 28) == 1)
  {
    hide Pow2, BitOf;
    Pow2Values();
    BitNumber(x, 31, 0x8000_0000);
    BitNumber(x, 30, 0x4000_0000);
    BitNumber(x, 29, 0x2000_0000);
    BitNumber(x, 28, 0x1000_0000);
  }

  lemma DifferenceOfWords(a: word, b: word, r: word, c: nat)
    requires c < 2 && a + Not(b) + 1 == r + c * 0x1_0000_0000
    ensures r == Minus(a, b) && (c == 1 <==> a >= b) && (r == 0 <==> a == b)
  {
  }

  // ---------------------------------------------------------------- numbers of many words

  function Base(n: nat): (p: nat)
    ensures p >= 1
  {
    if n == 0 then 1 else 0x1_0000_0000 * Base(n - 1)
  }

  /** The number whose words, least significant first, are `ws`. */
  function Value(ws: seq<word>): nat {
    if |ws| == 0 then 0 else Value(ws[..|ws| - 1]) + ws[|ws| - 1] * Base(|ws| - 1)
  }

  /** The same words as a two's complement number. */
  function SignedValue(ws: seq<word>): int
    requires |ws| > 0
  {
    Value(ws[..|ws| - 1]) + Signed(ws[|ws| - 1]) * Base(|ws| - 1)
  }

  lemma {:induction false} ValueFits(ws: seq<word>)
    ensures Value(ws) < Base(|ws|)
    ensures |ws| > 0 ==> SignedValue(ws) == if Negative(ws[|ws| - 1]) then Value(ws) - Base(|ws|) else Value(ws)
  {
    if |ws| > 0 {
      var n := |ws| - 1;
      var p: nat, w: int := Base(n), ws[n];
      ValueFits(ws[..n]);
      MulMono(w + 1, 0x1_0000_0000, p);
      Distribute(w, 1, p);
      Distribute(w, -0x1_0000_0000, p);
    }
  }

  /** ADDS on the first words, then ADCS on each further pair. */
  function AddChain(x: word, a: seq<word>, b: seq<word>): (r: (seq<word>, word))
    requires |a| == |b|
    ensures |r.0| == |a|
  {
    if |a| == 0 then ([], x)
    else
      var n := |a| - 1;
      var (ws, y) := AddChain(x, a[..n], b[..n]);
      var (w, z) := AddWithCarry(y, a[n], b[n], n > 0 && FlagC(y));
      (ws + [w], z)
  }

  /** SUBS on the first words, then SBCS on each further pair. */
  function SubChain(x: word, a: seq<word>, b: seq<word>): (r: (seq<word>, word))
    requires |a| == |b|
    ensures |r.0| == |a|
  {
    if |a| == 0 then ([], x)
    else
      var n := |a| - 1;
      var (ws, y) := SubChain(x, a[..n], b[..n]);
      var (w, z) := AddWithCarry(y, a[n], Not(b[n]), n == 0 || FlagC(y));
      (ws + [w], z)
  }

  lemma ValueOfAppend(ws: seq<word>, w: word)
    ensures Value(ws + [w]) == Value(ws) + w * Base(|ws|)
    ensures SignedValue(ws + [w]) == Value(ws) + Signed(w) * Base(|ws|)
  {
    assert (ws + [w])[..|ws|] == ws;
  }

  lemma AddStep(ra: nat, a: int, b: int, c: nat, r: int, c': nat, p: nat, q: nat, va: nat, vb: nat)
    requires ra + c * p == va + vb && a + b + c == r + c' * 0x1_0000_0000 && q == 0x1_0000_0000 * p
    ensures ra + r * p + c' * q == va + a * p + (vb + b * p)
  {
    assert (a + b + c) * p == (r + c' * 0x1_0000_0000) * p;
    Distribute(a + b, c, p);
    Distribute(a, b, p);
    Distribute(r, c' * 0x1_0000_0000, p);
    assert (c' * 0x1_0000_0000) * p == c' * (0x1_0000_0000 * p);
  }

  lemma SignedAddStep(ra: nat, sa: int, sb: int, c: nat, sr: int, p: nat, va: nat, vb: nat)
    requires p > 0 && ra + c * p == va + vb
    ensures sr == sa + sb + c <==> ra + sr * p == va + sa * p + (vb + sb * p)
  {
    Distribute(sa + sb, c, p);
    Distribute(sa, sb, p);
    var d := sr - (sa + sb + c);
    Distribute(sa + sb + c, d, p);
    if d > 0 {
      MulMono(1, d, p);
    } else if d < 0 {
      MulMono(d, -1, p);
    }
  }

  lemma {:induction false} AddChainForm(x: word, a: seq<word>, b: seq<word>)
    requires |a| == |b| && |a| > 0
    ensures var (r, y) := AddChain(x, a, b);
      Value(r) + Bit(FlagC(y)) * Base(|a|) == Value(a) + Value(b)
    decreases |a|
  {
    hide AddWithCarry, FlagN, FlagZ, FlagC, FlagV, Value, SignedValue, Signed, Negative, Base, Bit;
    var n := |a| - 1;
    var (ws, y) := AddChain(x, a[..n], b[..n]);
    var carry := n > 0 && FlagC(y);
    AddChainBelow(x, a, b);
    AddWithCarryIsExact(y, a[n], b[n], carry);
    var (w, z) := AddWithCarry(y, a[n], b[n], carry);
    SplitLast(a);
    SplitLast(b);
    ValueOfAppend(a[..n], a[n]);
    ValueOfAppend(b[..n], b[n]);
    ValueOfAppend(ws, w);
    BaseNext(n);
    BitOfBool(carry);
    AddStep(Value(ws), a[n], b[n], Bit(carry), w, Bit(FlagC(z)), Base(n), Base(n + 1), Value(a[..n]), Value(b[..n]));
    assert AddChain(x, a, b) == (ws + [w], z);
  }

  /** The words below the top one, with the carry that goes into it. */
  lemma {:induction false} AddChainBelow(x: word, a: seq<word>, b: seq<word>)
    requires |a| == |b| && |a| > 0
    ensures var n := |a| - 1;
      var (ws, y) := AddChain(x, a[..n], b[..n]);
      Value(ws) + Bit(n > 0 && FlagC(y)) * Base(n) == Value(a[..n]) + Value(b[..n])
    decreases |a|, 0
  {
    hide FlagC, Base;
    var n := |a| - 1;
    if n > 0 {
      AddChainForm(x, a[..n], b[..n]);
    }
  }

  /** An ADDS/ADCS chain of any length is the exact sum, with the final C as carry; the
      final V says exactly whether the signed sum fits. */
  lemma AddChainIsSum(x: word, a: seq<word>, b: seq<word>)
    requires |a| == |b| && |a| > 0
    ensures var (r, y) := AddChain(x, a, b);
      && Value(r) + Bit(FlagC(y)) * Base(|a|) == Value(a) + Value(b)
      && (FlagV(y) <==> SignedValue(r) != SignedValue(a) + SignedValue(b))
      && (FlagN(y) <==> SignedValue(r) < 0)
  {
    hide AddWithCarry, FlagN, FlagZ, FlagC, FlagV, Value, SignedValue, Signed, Negative, Base, Bit;
    AddChainForm(x, a, b);
    var n := |a| - 1;
    var (ws, y) := AddChain(x, a[..n], b[..n]);
    var carry := n > 0 && FlagC(y);
    AddChainBelow(x, a, b);
    AddWithCarryIsExact(y, a[n], b[n], carry);
    var w := AddWithCarry(y, a[n], b[n], carry).0;
    SplitLast(a);
    SplitLast(b);
    ValueOfAppend(a[..n], a[n]);
    ValueOfAppend(b[..n], b[n]);
    ValueOfAppend(ws, w);
    SignedAddStep(Value(ws), Signed(a[n]), Signed(b[n]), Bit(carry), Signed(w), Base(n), Value(a[..n]), Value(b[..n]));
    SignOfTop(ws, w);
  }

  lemma EmptyValue(ws: seq<word>)
    requires |ws| == 0
    ensures Value(ws) == 0
  {
  }

  lemma SplitLast(a: seq<word>)
    requires |a| > 0
    ensures a == a[..|a| - 1] + [a[|a| - 1]]
  {
  }

  lemma SignOfTop(ws: seq<word>, w: word)
    ensures Signed(w) < 0 <==> SignedValue(ws + [w]) < 0
  {
    hide Value, SignedValue, Signed;
    ValueFits(ws);
    ValueOfAppend(ws, w);
    SignOf(Value(ws), Signed(w), Base(|ws|));
  }

  /** A number of less than one unit plus `s` units is negative exactly if `s` is. */
  lemma SignOf(low: nat, s: int, p: nat)
    requires low < p
    ensures s < 0 <==> low + s * p < 0
  {
    if s < 0 {
      MulMono(s, -1, p);
    } else {
      MulMono(0, s, p);
    }
  }

  lemma SubStep(r: nat, a: int, b: int, c: nat, w: int, c': nat, p: nat, va: nat, vb: nat)
    requires va - vb == r - (1 - c) * p && a + (0xFFFF_FFFF - b) + c == w + c' * 0x1_0000_0000
    ensures va + a * p - (vb + b * p) == r + w * p - (1 - c') * (0x1_0000_0000 * p)
  {
    assert a - b - (1 - c) == w - (1 - c') * 0x1_0000_0000;
    assert (a - b - (1 - c)) * p == (w - (1 - c') * 0x1_0000_0000) * p;
    Distribute(a - b, -(1 - c), p);
    Distribute(a, -b, p);
    Distribute(w, -((1 - c') * 0x1_0000_0000), p);
    assert ((1 - c') * 0x1_0000_0000) * p == (1 - c') * (0x1_0000_0000 * p);
  }

  /** A SUBS/SBCS chain of any length is the exact difference modulo the word range. C means
      A >= B unsigned and N != V means A < B signed, so CS, CC, GE and LT decide. */
  lemma {:induction false} SubChainIsDifference(x: word, a: seq<word>, b: seq<word>)
    requires |a| == |b| && |a| > 0
    ensures var (r, y) := SubChain(x, a, b);
      && Value(r) == Value(a) - Value(b) + (1 - Bit(FlagC(y))) * Base(|a|)
      && (FlagC(y) <==> Value(a) >= Value(b))
      && (FlagN(y) != FlagV(y) <==> SignedValue(a) < SignedValue(b))
      && (Condition(y, 2) <==> Value(a) >= Value(b)) && (Condition(y, 3) <==> Value(a) < Value(b))
      && (Condition(y, 10) <==> SignedValue(a) >= SignedValue(b))
          && (Condition(y, 11) <==> SignedValue(a) < SignedValue(b))
  {
    hide SubChain, FlagN, FlagZ, FlagC, FlagV, Value, SignedValue, Base, Bit;
    SubChainForm(x, a, b);
  }

  lemma {:induction false} SubChainForm(x: word, a: seq<word>, b: seq<word>)
    requires |a| == |b| && |a| > 0
    ensures var (r, y) := SubChain(x, a, b);
      && Value(r) == Value(a) - Value(b) + (1 - Bit(FlagC(y))) * Base(|a|)
      && (FlagC(y) <==> Value(a) >= Value(b))
      && (FlagN(y) != FlagV(y) <==> SignedValue(a) < SignedValue(b))
    decreases |a|
  {
    hide AddWithCarry, FlagN, FlagZ, FlagC, FlagV, Value, SignedValue, Signed, Negative, Not, Base, Bit;
    var n := |a| - 1;
    var a', b' := a[..n], b[..n];
    var (ws, y) := SubChain(x, a', b');
    var carry := n == 0 || FlagC(y);
    assert Value(a') - Value(b') == Value(ws) - (1 - Bit(carry)) * Base(n) by {
      if n == 0 {
        EmptyValue(ws);
        EmptyValue(a');
        EmptyValue(b');
        BitOfBool(true);
      } else {
        SubChainForm(x, a', b');
      }
    }
    AddWithCarryIsExact(y, a[n], Not(b[n]), carry);
    SignedNot(b[n]);
    var (w, z) := AddWithCarry(y, a[n], Not(b[n]), carry);
    assert SubChain(x, a, b) == (ws + [w], z);
    SplitLast(a);
    SplitLast(b);
    ValueOfAppend(a', a[n]);
    ValueOfAppend(b', b[n]);
    ValueOfAppend(ws, w);
    BaseNext(n);
    BitOfBool(carry);
    BitOfBool(FlagC(z));
    SubStep(Value(ws), a[n], b[n], Bit(carry), w, Bit(FlagC(z)), Base(n), Value(a'), Value(b'));
    ValueFits(ws + [w]);
    BorrowDecides(Value(ws + [w]), Value(a) - Value(b), Bit(FlagC(z)), Base(n + 1));
    ValueFits(ws);
    SignedDifference(Value(ws), Signed(a[n]), Signed(b[n]), Bit(carry), Base(n), Value(a'), Value(b'));
  }

  lemma BaseNext(n: nat)
    ensures Base(n + 1) == 0x1_0000_0000 * Base(n)
  {
  }

  lemma BitOfBool(b: bool)
    ensures Bit(b) < 2 && (Bit(b) == 1 <==> b)
  {
  }

  /** A difference taken modulo `q` borrows exactly if it is negative. */
  lemma BorrowDecides(r: nat, d: int, c: nat, q: nat)
    requires c < 2 && r < q && d == r - (1 - c) * q
    ensures c == 1 <==> d >= 0
  {
  }

  lemma SignedNot(b: word)
    ensures Signed(Not(b)) == -Signed(b) - 1 && Not(b) == 0xFFFF_FFFF - b
  {
  }

  lemma SignedDifference(r: nat, sa: int, sb: int, c: nat, p: nat, va: nat, vb: nat)
    requires r < p && va - vb == r - (1 - c) * p
    ensures sa - sb - (1 - c) < 0 <==> va + sa * p < vb + sb * p
  {
    Distribute(sa - sb, -(1 - c), p);
    Distribute(sa, -sb, p);
    SignOf(r, sa - sb - (1 - c), p);
  }

  /** Z is about the last word alone: after a chain it does not decide equality. */
  lemma ZeroFlagSeesTopWord(x: word, a: seq<word>, b: seq<word>)
    requires |a| == |b| && |a| > 0
    ensures var (r, y) := SubChain(x, a, b);
      && (FlagZ(y) <==> r[|r| - 1] == 0)
      && (Condition(y, 0) <==>
            || 0 <= Value(a) - Value(b) < Base(|a| - 1)
            || Value(a) - Value(b) < Base(|a| - 1) - Base(|a|))
  {
    hide AddWithCarry, FlagN, FlagZ, FlagC, FlagV, Value, Base, SignedValue, Signed, Negative, Not;
    SubChainIsDifference(x, a, b);
    var (r, y) := SubChain(x, a, b);
    var n := |a| - 1;
    var (ws, y') := SubChain(x, a[..n], b[..n]);
    AddWithCarryIsExact(y', a[n], Not(b[n]), n == 0 || FlagC(y'));
    SplitLast(r);
    ValueOfAppend(r[..n], r[n]);
    ValueFits(r[..n]);
    ValueFits(r);
    if r[n] > 0 {
      MulMono(1, r[n], Base(n));
    }
  }

  lemma EqualityNeedsMore(x: word)
    ensures var (r, y) := SubChain(x, [1, 0], [0, 0]);
      Condition(y, 0) && Value([1, 0]) != Value([0, 0])
  {
    hide FlagN, FlagZ, FlagC, FlagV;
    assert Base(0) == 1 && Base(1) == 0x1_0000_0000 && Base(2) == 0x1_0000_0000 * 0x1_0000_0000;
    ValueOfAppend([], 1);
    ValueOfAppend([1], 0);
    ValueOfAppend([], 0);
    ValueOfAppend([0], 0);
    assert [] + [1] == [1] && [1] + [0] == [1, 0] && [] + [0] == [0] && [0] + [0] == [0, 0];
    ZeroFlagSeesTopWord(x, [1, 0], [0, 0]);
  }
}
