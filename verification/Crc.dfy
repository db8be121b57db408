/** The CRC unit (`src/periph_misc.c`) as division of polynomials over GF(2).

    A polynomial is a natural number, bit `i` the coefficient of x^i: addition is `Xor`,
    multiplication by x is doubling, and degree below `n` means a number below 2^n. */
module Crc {
  import opened Words

  // ---------------------------------------------------------------- addition

  function Xor(a: nat, b: nat): nat
    decreases a + b
  {
    if a == 0 && b == 0 then 0 else (a % 2 + b % 2) % 2 + 2 * Xor(a / 2, b / 2)
  }

  lemma {:induction false} XorComm(a: nat, b: nat)
    ensures Xor(a, b) == Xor(b, a)
    decreases a + b
  {
    if a + b > 0 {
      XorComm(a / 2, b / 2);
    }
  }

  lemma {:induction false} XorZero(a: nat)
    ensures Xor(a, 0) == a && Xor(0, a) == a
    decreases a
  {
    if a > 0 {
      XorZero(a / 2);
    }
  }

  lemma {:induction false} XorSelf(a: nat)
    ensures Xor(a, a) == 0
    decreases a
  {
    if a > 0 {
      XorSelf(a / 2);
    }
  }

  lemma Halves(low: nat, rest: nat)
    requires low < 2
    ensures (low + 2 * rest) % 2 == low && (low + 2 * rest) / 2 == rest
  {
  }

  /** Low bit and the rest of a sum. */
  lemma XorParts(a: nat, b: nat)
    ensures Xor(a, b) % 2 == (a % 2 + b % 2) % 2 && Xor(a, b) / 2 == Xor(a / 2, b / 2)
  {
    if a == 0 && b == 0 {
      assert Xor(0, 0) == 0;
    } else {
      Halves((a % 2 + b % 2) % 2, Xor(a / 2, b / 2));
    }
  }

  lemma SameParts(x: nat, y: nat)
    requires x % 2 == y % 2 && x / 2 == y / 2
    ensures x == y
  {
  }

  lemma ParityAssoc(a: nat, b: nat, c: nat)
    requires a < 2 && b < 2 && c < 2
    ensures ((a + b) % 2 + c) % 2 == (a + (b + c) % 2) % 2
  {
  }

  lemma {:induction false} XorAssoc(a: nat, b: nat, c: nat)
    ensures Xor(Xor(a, b), c) == Xor(a, Xor(b, c))
    decreases a + b + c
  {
    hide Xor;
    if a + b + c > 0 {
      XorAssoc(a / 2, b / 2, c / 2);
      XorParts(a, b);
      XorParts(b, c);
      XorParts(Xor(a, b), c);
      XorParts(a, Xor(b, c));
      ParityAssoc(a % 2, b % 2, c % 2);
      SameParts(Xor(Xor(a, b), c), Xor(a, Xor(b, c)));
    } else {
      XorZero(0);
    }
  }

  /** Adding the same polynomial twice cancels. */
  lemma XorCancel(a: nat, b: nat)
    ensures Xor(Xor(a, b), b) == a
  {
    XorAssoc(a, b, b);
    XorSelf(b);
    XorZero(a);
  }

  lemma XorInjective(a: nat, b: nat, c: nat)
    ensures Xor(a, c) == Xor(b, c) <==> a == b
    ensures Xor(a, b) == 0 <==> a == b
  {
    XorCancel(a, c);
    XorCancel(b, c);
    XorCancel(a, b);
    XorZero(b);
    XorSelf(a);
  }

  /** Regrouping four summands. */
  lemma XorSwap(a: nat, b: nat, c: nat, d: nat)
    ensures Xor(Xor(a, b), Xor(c, d)) == Xor(Xor(a, c), Xor(b, d))
  {
    XorAssoc(a, b, Xor(c, d));
    XorAssoc(b, c, d);
    XorComm(b, c);
    XorAssoc(c, b, d);
    XorAssoc(a, c, Xor(b, d));
  }

  lemma XorDouble(a: nat, b: nat)
    ensures Xor(2 * a, 2 * b) == 2 * Xor(a, b)
  {
    hide Xor;
    XorParts(2 * a, 2 * b);
    AddHalves(0, a);
    AddHalves(0, b);
    AddHalves(0, Xor(a, b));
    SameParts(Xor(2 * a, 2 * b), 2 * Xor(a, b));
  }

  lemma {:induction false} XorShift(a: nat, b: nat, k: nat)
    ensures Xor(a * Pow2(k), b * Pow2(k)) == Xor(a, b) * Pow2(k)
    decreases k
  {
    hide Xor;
    if k > 0 {
      var p := Pow2(k - 1);
      XorShift(a, b, k - 1);
      XorDouble(a * p, b * p);
      ShiftOnce(a, p);
      ShiftOnce(b, p);
      ShiftOnce(Xor(a, b), p);
    }
  }

  lemma ShiftOnce(a: nat, p: nat)
    ensures a * (2 * p) == 2 * (a * p)
  {
  }

  lemma {:induction false} XorBelow(a: nat, b: nat, k: nat)
    requires a < Pow2(k) && b < Pow2(k)
    ensures Xor(a, b) < Pow2(k)
    decreases k
  {
    if k > 0 {
      XorBelow(a / 2, b / 2, k - 1);
      XorParts(a, b);
    }
  }

  /** A term of degree `k` stays when something of lower degree is added. */
  lemma {:induction false} XorTop(a: nat, b: nat, k: nat)
    requires a < Pow2(k) && b < Pow2(k)
    ensures Xor(a + Pow2(k), b) == Xor(a, b) + Pow2(k)
    ensures Xor(a + Pow2(k), b + Pow2(k)) == Xor(a, b)
    decreases k
  {
    hide Xor;
    if k == 0 {
      XorZero(0);
      XorSelf(1);
      XorZero(1);
      assert Pow2(0) == 1;
    } else {
      var p := Pow2(k - 1);
      assert Pow2(k) == 2 * p;
      XorTop(a / 2, b / 2, k - 1);
      AddHalves(a, p);
      AddHalves(b, p);
      XorParts(a + 2 * p, b);
      XorParts(a + 2 * p, b + 2 * p);
      XorParts(a, b);
      AddHalves(Xor(a, b), p);
      SameParts(Xor(a + 2 * p, b), Xor(a, b) + 2 * p);
      SameParts(Xor(a + 2 * p, b + 2 * p), Xor(a, b));
    }
  }

  lemma AddHalves(a: nat, p: nat)
    ensures (a + 2 * p) % 2 == a % 2 && (a + 2 * p) / 2 == a / 2 + p
  {
  }

  // ---------------------------------------------------------------- multiplication

  /** x^32 + x^26 + x^23 + ... + 1, the polynomial of section 3.2.9 of IEEE 802.3, without
      its leading term. */
  const POLY: nat := 0x04C1_1DB7

  const GENERATOR: nat := 0x1_04C1_1DB7

  function Times(q: nat, g: nat): nat {
    if q == 0 then 0 else Xor(if q % 2 == 1 then g else 0, 2 * Times(q / 2, g))
  }

  lemma {:induction false} TimesIsLinear(p: nat, q: nat, g: nat)
    ensures Times(Xor(p, q), g) == Xor(Times(p, g), Times(q, g))
    decreases p + q
  {
    hide Xor, Times;
    XorZero(0);
    if p + q == 0 {
      assert Times(0, g) == 0 by { NoTimes(g); }
    } else {
      TimesIsLinear(p / 2, q / 2, g);
      XorParts(p, q);
      var a, b := if p % 2 == 1 then g else 0, if q % 2 == 1 then g else 0;
      var c, d := Times(p / 2, g), Times(q / 2, g);
      TimesParts(p, g);
      TimesParts(q, g);
      TimesParts(Xor(p, q), g);
      XorSwap(a, 2 * c, b, 2 * d);
      XorDouble(c, d);
      XorSelf(g);
      XorZero(g);
    }
  }

  lemma NoTimes(g: nat)
    ensures Times(0, g) == 0
  {
  }

  lemma TimesParts(q: nat, g: nat)
    ensures Times(q, g) == Xor(if q % 2 == 1 then g else 0, 2 * Times(q / 2, g))
  {
    if q == 0 {
      XorZero(0);
      assert Times(0, g) == 0;
    }
  }

  /** A nonzero multiple of the generator has degree at least 32. */
  lemma {:induction false} MultiplesAreHigh(q: nat, k: nat)
    requires Pow2(k) <= q < Pow2(k + 1)
    ensures Pow2(k + 32) <= Times(q, GENERATOR) < Pow2(k + 33)
    decreases k
  {
    hide Xor, Times, Pow2;
    GeneratorDegree();
    TimesParts(q, GENERATOR);
    PowNext(k);
    if k == 0 {
      PowZero();
      NoTimes(GENERATOR);
      XorZero(GENERATOR);
      assert q == 1;
    } else {
      PowNext(k - 1);
      MultiplesAreHigh(q / 2, k - 1);
      PowMono(33, k + 32);
      PowNext(k + 31);
      PowNext(k + 32);
      TopStays(2 * Times(q / 2, GENERATOR), if q % 2 == 1 then GENERATOR else 0, k + 32);
    }
  }

  lemma TopStays(t: nat, low: nat, m: nat)
    requires Pow2(m) <= t < Pow2(m + 1) && low < Pow2(m)
    ensures Pow2(m) <= Xor(low, t) < Pow2(m + 1)
  {
    hide Xor, Pow2;
    PowNext(m);
    XorComm(low, t);
    XorTop(t - Pow2(m), low, m);
    XorBelow(t - Pow2(m), low, m);
  }

  lemma PowNext(n: nat)
    ensures Pow2(n + 1) == 2 * Pow2(n)
  {
  }

  lemma GeneratorDegree()
    ensures Pow2(32) == 0x1_0000_0000 && Pow2(33) == 0x2_0000_0000
    ensures GENERATOR == Pow2(32) + POLY && POLY < Pow2(32)
  {
    Pow2Top();
    assert Pow2(33) == 2 * Pow2(32);
  }

  lemma {:induction false} PowMono(a: nat, b: nat)
    requires a <= b
    ensures Pow2(a) <= Pow2(b)
    decreases b
  {
    if a < b {
      PowMono(a, b - 1);
    }
  }

  lemma {:induction false} HasDegree(q: nat) returns (k: nat)
    requires q > 0
    ensures Pow2(k) <= q < Pow2(k + 1)
  {
    if q == 1 {
      k := 0;
      assert Pow2(1) == 2;
    } else {
      k := HasDegree(q / 2);
      k := k + 1;
    }
  }

  // ---------------------------------------------------------------- remainders

  /** `r` is the remainder of `p` by the generator. */
  ghost predicate IsRemainder(p: nat, r: nat) {
    r < 0x1_0000_0000 && exists q :: p == Xor(Times(q, GENERATOR), r)
  }

  lemma RemainderIsUnique(p: nat, r: nat, s: nat)
    requires IsRemainder(p, r) && IsRemainder(p, s)
    ensures r == s
  {
    hide Times, Xor, Pow2;
    var a :| p == Xor(Times(a, GENERATOR), r);
    var b :| p == Xor(Times(b, GENERATOR), s);
    var d := Xor(a, b);
    TimesIsLinear(a, b, GENERATOR);
    XorSwap(Times(a, GENERATOR), r, Times(b, GENERATOR), s);
    XorSelf(p);
    XorInjective(Times(d, GENERATOR), Xor(r, s), 0);
    assert Times(d, GENERATOR) == Xor(r, s);
    GeneratorDegree();
    XorBelow(r, s, 32);
    if d > 0 {
      var k := HasDegree(d);
      MultiplesAreHigh(d, k);
      PowMono(32, k + 32);
    } else {
      assert Times(0, GENERATOR) == 0 by { NoTimes(GENERATOR); }
      XorInjective(r, s, 0);
    }
  }

  lemma RemaindersAdd(p: nat, r: nat, q: nat, s: nat)
    requires IsRemainder(p, r) && IsRemainder(q, s)
    ensures IsRemainder(Xor(p, q), Xor(r, s))
  {
    hide Times, Xor, Pow2;
    var a :| p == Xor(Times(a, GENERATOR), r);
    var b :| q == Xor(Times(b, GENERATOR), s);
    TimesIsLinear(a, b, GENERATOR);
    XorSwap(Times(a, GENERATOR), r, Times(b, GENERATOR), s);
    GeneratorDegree();
    XorBelow(r, s, 32);
    assert Xor(p, q) == Xor(Times(Xor(a, b), GENERATOR), Xor(r, s));
  }

  lemma SmallIsItsRemainder(r: word)
    ensures IsRemainder(r, r)
  {
    NoTimes(GENERATOR);
    XorZero(r);
    assert r == Xor(Times(0, GENERATOR), r);
  }

  // ---------------------------------------------------------------- the shift register

  lemma XorWords(a: word, b: word)
    ensures Xor(a, b) < 0x1_0000_0000
  {
    GeneratorDegree();
    XorBelow(a, b, 32);
  }

  function XorWord(a: word, b: word): word {
    XorWords(a, b);
    Xor(a, b)
  }

  /** `c << 1`. */
  function Doubled(c: word): word {
    Wrap(2 * c)
  }

  /** One iteration of the loop in `emu_crc_write`. */
  function Shift(c: word): word {
    if c >= 0x8000_0000 then XorWord(Doubled(c), POLY) else Doubled(c)
  }

  function Shifts(c: word, n: nat): word
    decreases n
  {
    if n == 0 then c else Shifts(Shift(c), n - 1)
  }

  /** Writing one word to the data register. */
  function Update(crc: word, w: word): word {
    Shifts(XorWord(crc, w), 32)
  }

  function CrcOf(init: word, ws: seq<word>): word {
    if |ws| == 0 then init else Update(CrcOf(init, ws[..|ws| - 1]), ws[|ws| - 1])
  }

  /** A shift multiplies by x and takes off the generator when degree 32 appears. */
  lemma ShiftReduces(c: word)
    ensures Shift(c) == Xor(2 * c, if c >= 0x8000_0000 then GENERATOR else 0)
  {
    hide Xor, Pow2;
    XorZero(2 * c);
    if c >= 0x8000_0000 {
      GeneratorDegree();
      var low := 2 * c - 0x1_0000_0000;
      assert Wrap(2 * c) == low;
      XorTop(low, POLY, 32);
    }
  }

  lemma ShiftKeepsRemainder(p: nat, r: word)
    requires IsRemainder(p, r)
    ensures IsRemainder(2 * p, Shift(r))
  {
    hide Times, Shift, Xor;
    var q: nat :| p == Xor(Times(q, GENERATOR), r);
    var g := if r >= 0x8000_0000 then GENERATOR else 0;
    var b := if r >= 0x8000_0000 then 1 else 0;
    var t := 2 * Times(q, GENERATOR);
    ShiftReduces(r);
    TimesParts(2 * q + b, GENERATOR);
    AddHalves(b, q);
    XorDouble(Times(q, GENERATOR), r);
    XorComm(g, t);
    XorSwap(t, g, 2 * r, g);
    XorSelf(g);
    XorZero(Xor(t, 2 * r));
    assert 2 * p == Xor(Times(2 * q + b, GENERATOR), Shift(r));
  }

  lemma {:induction false} ShiftsKeepRemainder(p: nat, r: word, n: nat)
    requires IsRemainder(p, r)
    ensures IsRemainder(p * Pow2(n), Shifts(r, n))
    decreases n
  {
    hide Shift, IsRemainder;
    if n > 0 {
      ShiftKeepsRemainder(p, r);
      ShiftsKeepRemainder(2 * p, Shift(r), n - 1);
      assert (2 * p) * Pow2(n - 1) == p * Pow2(n) by { ShiftOnce(p, Pow2(n - 1)); TwiceFirst(p, Pow2(n - 1)); }
    }
  }

  lemma TwiceFirst(a: nat, p: nat)
    ensures (2 * a) * p == 2 * (a * p)
  {
  }

  // ---------------------------------------------------------------- the message

  /** The message as one polynomial, its first word highest. */
  function Message(ws: seq<word>): nat {
    if |ws| == 0 then 0 else Message(ws[..|ws| - 1]) * Pow2(32) + ws[|ws| - 1]
  }

  /** What the unit divides: the initial value above the message, and 32 zero bits below. */
  function Dividend(init: word, ws: seq<word>): nat {
    Xor(init * Pow2(32 * |ws|), Message(ws) * Pow2(32))
  }

  /** The next word enters the dividend at its low end, which then moves up by 32 bits. */
  lemma DividendGrows(init: word, ws: seq<word>, w: word)
    ensures Dividend(init, ws + [w]) == Xor(Dividend(init, ws), w) * Pow2(32)
  {
    hide Pow2, Xor;
    var k := 32 * |ws|;
    var p, m := Pow2(32), Message(ws);
    assert (ws + [w])[..|ws|] == ws;
    assert Message(ws + [w]) == m * p + w;
    AddIsXor(m, w);
    XorAssoc(init * Pow2(k), m * p, w);
    XorShift(init * Pow2(k), Xor(m * p, w), 32);
    Pow2Add(k, 32);
    assert 32 * |ws + [w]| == k + 32;
    Regroup(init, Pow2(k), p);
  }

  lemma Regroup(a: nat, b: nat, c: nat)
    ensures (a * b) * c == a * (b * c)
  {
  }

  /** Below the low end of a shifted polynomial, adding is concatenating. */
  lemma AddIsXor(m: nat, w: word)
    ensures Xor(m * Pow2(32), w) == m * Pow2(32) + w
  {
    hide Xor;
    GeneratorDegree();
    Concatenate(m, w, 32);
  }

  lemma {:induction false} Concatenate(m: nat, w: nat, k: nat)
    requires w < Pow2(k)
    ensures Xor(m * Pow2(k), w) == m * Pow2(k) + w
    decreases k
  {
    hide Xor;
    if k == 0 {
      XorZero(m);
      assert Pow2(0) == 1;
    } else {
      var p := Pow2(k - 1);
      Concatenate(m, w / 2, k - 1);
      ShiftOnce(m, p);
      AddHalves(0, m * p);
      AddHalves(w, m * p);
      XorParts(2 * (m * p), w);
      SameParts(Xor(2 * (m * p), w), w + 2 * (m * p));
    }
  }

  /** After any sequence of word writes the data register is the remainder of the dividend:
      the initial value and the message, by x^32 + 0x04C11DB7. */
  lemma {:induction false} CrcIsRemainder(init: word, ws: seq<word>)
    ensures IsRemainder(Dividend(init, ws), CrcOf(init, ws))
    ensures forall r :: IsRemainder(Dividend(init, ws), r) <==> r == CrcOf(init, ws)
    decreases |ws|
  {
    hide IsRemainder, Shifts, Dividend;
    if |ws| == 0 {
      EmptyDividend(init, ws);
      SmallIsItsRemainder(init);
    } else {
      var ws', w := ws[..|ws| - 1], ws[|ws| - 1];
      CrcIsRemainder(init, ws');
      SmallIsItsRemainder(w);
      RemaindersAdd(Dividend(init, ws'), CrcOf(init, ws'), w, w);
      ShiftsKeepRemainder(Xor(Dividend(init, ws'), w), XorWord(CrcOf(init, ws'), w), 32);
      DividendGrows(init, ws', w);
      assert ws' + [w] == ws;
    }
    forall r | IsRemainder(Dividend(init, ws), r) ensures r == CrcOf(init, ws) {
      RemainderIsUnique(Dividend(init, ws), r, CrcOf(init, ws));
    }
  }

  lemma EmptyDividend(init: word, ws: seq<word>)
    requires |ws| == 0
    ensures Dividend(init, ws) == init
  {
    hide Xor, Pow2;
    XorZero(init);
    PowZero();
    assert 32 * |ws| == 0;
  }

  // ---------------------------------------------------------------- linearity and inverses

  lemma ShiftIsLinear(a: word, b: word)
    ensures Shift(XorWord(a, b)) == XorWord(Shift(a), Shift(b))
  {
    hide Shift;
    GeneratorDegree();
    var g, h := if a >= 0x8000_0000 then GENERATOR else 0, if b >= 0x8000_0000 then GENERATOR else 0;
    ShiftReduces(a);
    ShiftReduces(b);
    ShiftReduces(XorWord(a, b));
    XorSwap(2 * a, g, 2 * b, h);
    XorDouble(a, b);
    TopBitOfSum(a, b);
    XorSelf(GENERATOR);
    XorZero(GENERATOR);
    XorZero(0);
  }

  lemma TopBitOfSum(a: word, b: word)
    ensures Xor(a, b) >= 0x8000_0000 <==> (a >= 0x8000_0000) != (b >= 0x8000_0000)
  {
    hide Xor;
    Pow2Top();
    var p := 0x8000_0000;
    var x: nat := if a >= p then a - p else a;
    var y: nat := if b >= p then b - p else b;
    XorBelow(x, y, 31);
    XorTop(x, y, 31);
    XorTop(y, x, 31);
    XorComm(x, y + p);
    XorComm(x, y);
  }

  lemma {:induction false} ShiftsAreLinear(a: word, b: word, n: nat)
    ensures Shifts(XorWord(a, b), n) == XorWord(Shifts(a, n), Shifts(b, n))
    decreases n
  {
    hide Shift;
    if n > 0 {
      ShiftIsLinear(a, b);
      ShiftsAreLinear(Shift(a), Shift(b), n - 1);
    }
  }

  function XorAll(a: seq<word>, b: seq<word>): seq<word>
    requires |a| == |b|
  {
    seq(|a|, i requires 0 <= i < |a| => XorWord(a[i], b[i]))
  }

  /** The unit is linear in its initial value and message together. */
  lemma {:induction false} CrcIsLinear(init: word, init': word, ws: seq<word>, ws': seq<word>)
    requires |ws| == |ws'|
    ensures CrcOf(XorWord(init, init'), XorAll(ws, ws')) == XorWord(CrcOf(init, ws), CrcOf(init', ws'))
    decreases |ws|
  {
    hide Shifts, Xor;
    if |ws| > 0 {
      var n := |ws| - 1;
      CrcIsLinear(init, init', ws[..n], ws'[..n]);
      assert XorAll(ws, ws')[..n] == XorAll(ws[..n], ws'[..n]);
      XorSwap(CrcOf(init, ws[..n]), CrcOf(init', ws'[..n]), ws[n], ws'[n]);
      ShiftsAreLinear(XorWord(CrcOf(init, ws[..n]), ws[n]), XorWord(CrcOf(init', ws'[..n]), ws'[n]), 32);
    }
  }

  /** The shift register run backwards. */
  function Unshift(c: word): word {
    if c % 2 == 1 then XorWord(c, POLY) / 2 + 0x8000_0000 else c / 2
  }

  lemma ShiftInverts(c: word)
    ensures Unshift(Shift(c)) == c && Shift(Unshift(c)) == c
  {
    hide Xor;
    XorParts(Wrap(2 * c), POLY);
    XorCancel(Wrap(2 * c), POLY);
    XorParts(c, POLY);
    XorCancel(c, POLY);
    var u := XorWord(c, POLY) / 2;
    assert u < 0x8000_0000;
    if c % 2 == 1 {
      assert 2 * u == XorWord(c, POLY);
      assert Wrap(2 * (u + 0x8000_0000)) == 2 * u;
    }
  }

  function Unshifts(c: word, n: nat): word
    decreases n
  {
    if n == 0 then c else Unshift(Unshifts(c, n - 1))
  }

  lemma {:induction false} ShiftsInvert(c: word, n: nat)
    ensures Unshifts(Shifts(c, n), n) == c && Shifts(Unshifts(c, n), n) == c
    decreases n
  {
    hide Shift, Unshift;
    if n > 0 {
      ShiftsInvert(Shift(c), n - 1);
      ShiftInverts(c);
      ShiftsInvert(c, n - 1);
      ShiftInverts(Unshifts(c, n - 1));
    }
  }

  /** Each word update is a bijection of the register, with this inverse. */
  function Undo(crc: word, w: word): word {
    XorWord(Unshifts(crc, 32), w)
  }

  lemma UpdateIsBijective(crc: word, w: word)
    ensures Undo(Update(crc, w), w) == crc && Update(Undo(crc, w), w) == crc
  {
    hide Shifts, Unshifts, Xor;
    ShiftsInvert(XorWord(crc, w), 32);
    ShiftsInvert(crc, 32);
    XorCancel(crc, w);
    XorCancel(Unshifts(crc, 32), w);
  }

  // ---------------------------------------------------------------- error detection

  lemma ShiftsOfNonzero(c: word, n: nat)
    requires c != 0
    ensures Shifts(c, n) != 0
  {
    hide Shift, Unshift;
    ShiftsInvert(c, n);
    ShiftsInvert(0, n);
    ShiftsOfZero(n);
  }

  lemma {:induction false} ShiftsOfZero(n: nat)
    ensures Shifts(0, n) == 0
    decreases n
  {
    if n > 0 {
      assert Shift(0) == 0;
      ShiftsOfZero(n - 1);
    }
  }

  /** Messages of equal length whose difference fits in 32 consecutive bits, wherever those
      bits lie, never collide. */
  lemma BurstsAreDetected(init: word, ws: seq<word>, ws': seq<word>, burst: word, j: nat)
    requires |ws| == |ws'| && burst != 0 && Xor(Message(ws), Message(ws')) == burst * Pow2(j)
    ensures CrcOf(init, ws) != CrcOf(init, ws')
  {
    hide Xor, Pow2, IsRemainder, CrcOf, Shifts, Message;
    var r, r' := CrcOf(init, ws), CrcOf(init, ws');
    CrcIsRemainder(init, ws);
    CrcIsRemainder(init, ws');
    RemaindersAdd(Dividend(init, ws), r, Dividend(init, ws'), r');
    var top := init * Pow2(32 * |ws|);
    XorSwap(top, Message(ws) * Pow2(32), top, Message(ws') * Pow2(32));
    XorSelf(top);
    XorShift(Message(ws), Message(ws'), 32);
    XorZero((burst * Pow2(j)) * Pow2(32));
    Pow2Add(j, 32);
    Regroup(burst, Pow2(j), Pow2(32));
    SmallIsItsRemainder(burst);
    ShiftsKeepRemainder(burst, burst, j + 32);
    RemainderIsUnique(burst * Pow2(j + 32), Xor(r, r'), Shifts(burst, j + 32));
    ShiftsOfNonzero(burst, j + 32);
    XorSelf(r);
  }

  /** In particular, two messages of equal length that differ in exactly one word. */
  lemma OneWordIsDetected(init: word, ws: seq<word>, k: nat, w: word)
    requires k < |ws| && w != ws[k]
    ensures CrcOf(init, ws) != CrcOf(init, ws[k := w])
  {
    hide Xor, CrcOf, Message;
    OneWordDifference(ws, k, w);
    XorInjective(ws[k], w, 0);
    BurstsAreDetected(init, ws, ws[k := w], XorWord(ws[k], w), 32 * (|ws| - 1 - k));
  }

  lemma {:induction false} OneWordDifference(ws: seq<word>, k: nat, w: word)
    requires k < |ws|
    ensures Xor(Message(ws), Message(ws[k := w])) == Xor(ws[k], w) * Pow2(32 * (|ws| - 1 - k))
    decreases |ws|
  {
    hide Xor, Pow2;
    var n := |ws| - 1;
    var ws' := ws[k := w];
    var p := Pow2(32);
    AddIsXor(Message(ws[..n]), ws[n]);
    AddIsXor(Message(ws'[..n]), ws'[n]);
    XorSwap(Message(ws[..n]) * p, ws[n], Message(ws'[..n]) * p, ws'[n]);
    XorShift(Message(ws[..n]), Message(ws'[..n]), 32);
    if k == n {
      assert ws'[..n] == ws[..n];
      XorSelf(Message(ws[..n]));
      XorZero(Xor(ws[n], w));
      assert Pow2(0) == 1 by { PowZero(); }
    } else {
      OneWordDifference(ws[..n], k, w);
      assert ws'[..n] == ws[..n][k := w];
      XorSelf(ws[n]);
      var d := Xor(ws[k], w);
      XorZero((d * Pow2(32 * (n - 1 - k))) * p);
      Pow2Add(32 * (n - 1 - k), 32);
      Regroup(d, Pow2(32 * (n - 1 - k)), p);
      assert 32 * (n - 1 - k) + 32 == 32 * (n - k);
    }
  }

  lemma PowZero()
    ensures Pow2(0) == 1
  {
  }

  // ---------------------------------------------------------------- in place

  class CrcUnit {
    var dr: word
    var idr: word
    var cr: word
    var init: word

    /** `emu_crc_reset`. */
    constructor ()
      ensures dr == 0xFFFF_FFFF && idr == 0 && cr == 0 && init == 0xFFFF_FFFF
    {
      dr, idr, cr, init := 0xFFFF_FFFF, 0, 0, 0xFFFF_FFFF;
    }

    /** `emu_crc_write`, by register offset. */
    method Write(reg: word, val: word)
      modifies this
      ensures dr == (if reg == 0 then Update(old(dr), val) else if reg == 8 && val % 2 == 1 then old(init) else old(dr))
      ensures idr == if reg == 4 then val % 0x100 else old(idr)
      ensures cr == if reg == 8 then val / 2 * 2 else old(cr)
      ensures init == if reg == 0x10 then val else old(init)
    {
      hide XorWord, Xor;
      if reg == 0 {
        var crc := XorWord(dr, val);
        for bit := 0 to 32
          invariant Shifts(crc, 32 - bit) == Update(old(dr), val)
        {
          if crc >= 0x8000_0000 {
            crc := XorWord(Doubled(crc), POLY);
          } else {
            crc := Doubled(crc);
          }
        }
        dr := crc;
        return;
      }
      if reg == 4 {
        idr := val % 0x100;
        return;
      }
      if reg == 8 {
        if val % 2 == 1 {
          dr := init;
        }
        cr := val / 2 * 2;
        return;
      }
      if reg == 0x10 {
        init := val;
      }
    }
  }
}
