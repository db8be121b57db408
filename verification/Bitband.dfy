/** Bit-band aliases over SRAM (`emu_bitband_read`, `emu_bitband_write`): each bit of a word
    has one word-aligned alias, and alias accesses are accesses to a bit array. */
module Bitband {
  import opened Words
  import opened Memory
  import opened MemoryLaws

  // ---------------------------------------------------------------- bits of a word

  /** A word around bit `k`: the bits above, the bit, and the rest below. */
  lemma AroundBit(x: nat, k: nat) returns (h: nat, b: nat, r: nat)
    ensures b < 2 && r < Pow2(k) && x == (2 * h + b) * Pow2(k) + r
    ensures x / Pow2(k) == 2 * h + b && x / Pow2(k + 1) == h
  {
    var p := Pow2(k);
    DivMod(x, p);
    h, b, r := (x / p) / 2, (x / p) % 2, x % p;
    DivDiv(x, p, 2);
    assert Pow2(k + 1) == p * 2;
  }

  lemma QuotientOf(y: nat, p: nat, q: nat, r: nat)
    requires r < p && y == q * p + r
    ensures y / p == q
  {
    DivModUnique(y, p, q, r);
  }

  /** Writing bit `k` leaves that bit written and every other bit as it was. */
  lemma WithBitSetsOneBit(x: word, k: nat, v: nat, j: nat)
    requires k < 32 && v < 2 && j < 32
    ensures BitOf(WithBit(x, k, v), j) == if j == k then v else BitOf(x, j)
  {
    hide Pow2;
    var p := Pow2(k);
    var y := WithBit(x, k, v);
    var h, b, r := AroundBit(x, k);
    assert BitOf(x, k) == b;
    Distribute(2 * h, b, p);
    Distribute(2 * h, v, p);
    assert y == (2 * h + v) * p + r;
    QuotientOf(y, p, 2 * h + v, r);
    if j < k {
      LowerBit(x, y, k, j, (v - b) * p, v - b);
    } else if j > k {
      UpperBit(x, y, k, j, h, v, r);
    }
  }

  lemma LowerBit(x: nat, y: nat, k: nat, j: nat, d: int, c: int)
    requires j < k && y == x + d && d == c * Pow2(k)
    ensures (y / Pow2(j)) % 2 == (x / Pow2(j)) % 2
  {
    hide Pow2;
    Pow2Add(k - j - 1, j);
    PowNext(k);
    assert k - 1 == (k - j - 1) + j;
    ParityStays(x, y, Pow2(j), Pow2(k - j - 1), c);
  }

  lemma ParityStays(x: nat, y: nat, q: nat, m: nat, c: int)
    requires q > 0 && y == x + c * (2 * (m * q))
    ensures (y / q) % 2 == (x / q) % 2
  {
    DivMod(x, q);
    Regroup(x / q, c, m, q);
    EvenQuotient(y, x / q, c * m, q, x % q);
  }

  lemma EvenQuotient(y: nat, e: int, s: int, q: nat, r: nat)
    requires q > 0 && r < q && y == (e + 2 * s) * q + r
    ensures (y / q) % 2 == e % 2
  {
    DivModUnique(y, q, e + 2 * s, r);
  }

  lemma Regroup(e: int, c: int, m: int, q: int)
    ensures e * q + c * (2 * (m * q)) == (e + 2 * (c * m)) * q
  {
    Distribute(e, 2 * (c * m), q);
    assert c * (2 * (m * q)) == 2 * (c * (m * q));
    assert c * (m * q) == (c * m) * q;
    assert (2 * (c * m)) * q == 2 * ((c * m) * q);
  }

  lemma UpperBit(x: nat, y: nat, k: nat, j: nat, h: nat, v: nat, r: nat)
    requires k < j && v < 2 && r < Pow2(k) && y == (2 * h + v) * Pow2(k) + r && x / Pow2(k + 1) == h
    ensures y / Pow2(j) == x / Pow2(j)
  {
    var p, m := Pow2(k), Pow2(j - k - 1);
    QuotientOf(y, p, 2 * h + v, r);
    DivDiv(y, p, 2);
    assert Pow2(k + 1) == p * 2;
    Pow2Add(k + 1, j - k - 1);
    DivDiv(x, Pow2(k + 1), m);
    DivDiv(y, Pow2(k + 1), m);
  }

  /** The low `n` bits of `x`, summed at their weights. */
  function BitSum(x: word, n: nat): nat
    requires n <= 32
  {
    if n == 0 then 0 else BitSum(x, n - 1) + BitOf(x, n - 1) * Pow2(n - 1)
  }

  lemma {:induction false} BitSumIsRemainder(x: word, n: nat)
    requires n <= 32
    ensures BitSum(x, n) == x % Pow2(n)
  {
    hide Pow2;
    if n == 0 {
      assert Pow2(0) == 1 by { PowZero(); }
    } else {
      BitSumIsRemainder(x, n - 1);
      PowNext(n);
      var h, b, r := AroundBit(x, n - 1);
      RemainderGrows(x, Pow2(n - 1), h, b, r);
    }
  }

  lemma RemainderGrows(x: nat, p: nat, h: nat, b: nat, r: nat)
    requires b < 2 && r < p && x == (2 * h + b) * p + r
    ensures x % (2 * p) == x % p + b * p && (x / p) % 2 == b
  {
    DivModUnique(x, p, 2 * h + b, r);
    Distribute(2 * h, b, p);
    assert (2 * h) * p == h * (2 * p);
    MulMono(0, b, p);
    MulMono(b, 1, p);
    DivModUnique(x, 2 * p, h, b * p + r);
  }

  lemma PowZero()
    ensures Pow2(0) == 1
  {
  }

  lemma PowNext(n: nat)
    requires n > 0
    ensures Pow2(n) == 2 * Pow2(n - 1)
  {
  }

  // ---------------------------------------------------------------- aliases

  /** The two bands: 1 MB of SRAM and 1 MB of peripherals. */
  predicate InBand(a: word) {
    0x2000_0000 <= a < 0x2010_0000 || 0x4000_0000 <= a < 0x4010_0000
  }

  /** The word-aligned alias of bit `k` of the word at `a`. */
  function AliasOf(a: word, k: nat): word
    requires InBand(a) && a % 4 == 0 && k < 32
  {
    var base := if a < 0x4000_0000 then 0x2000_0000 else 0x4000_0000;
    base + 0x200_0000 + 32 * (a - base) + 4 * k
  }

  /** Aliases and bits correspond one to one, in both bands. */
  lemma AliasesAreBits(a: word, k: nat)
    requires InBand(a) && a % 4 == 0 && k < 32
    ensures IsBitband(AliasOf(a, k)) && AliasOf(a, k) % 4 == 0
    ensures BitbandWord(AliasOf(a, k)) == a && BitbandBit(AliasOf(a, k)) == k
  {
    hide BitbandWord, BitbandBit;
    var base := if a < 0x4000_0000 then 0x2000_0000 else 0x4000_0000;
    AliasAt(base, a - base, k);
  }

  lemma AliasAt(base: nat, d: nat, k: nat)
    requires (base == 0x2000_0000 || base == 0x4000_0000) && d < 0x10_0000 && d % 4 == 0 && k < 32
    ensures var alias: int := base + 0x200_0000 + 32 * d + 4 * k;
      && 0 <= alias < 0x1_0000_0000 && IsBitband(alias) && alias % 4 == 0
      && BitbandWord(alias) == base + d && BitbandBit(alias) == k
  {
    AliasOffset(d, k);
    var alias: int := base + 0x200_0000 + 32 * d + 4 * k;
    var off := 32 * d + 4 * k;
    AliasIn(base, off);
    DivMod(d, 4);
    DivModUnique(d + k / 8, 4, d / 4, k / 8);
    assert off / 32 - off / 32 % 4 == d;
    DivMod(k, 8);
  }

  /** An alias by its band and its offset in the alias region. */
  lemma AliasIn(base: nat, off: nat)
    requires (base == 0x2000_0000 || base == 0x4000_0000) && off < 0x200_0000 && off % 4 == 0
    ensures var alias: int := base + 0x200_0000 + off;
      && IsBitband(alias) && alias % 4 == 0
      && BitbandWord(alias) == base + (off / 32 - off / 32 % 4)
      && BitbandBit(alias) == ((off / 32) % 4) * 8 + (off / 4) % 8
  {
    hide BitbandWord, BitbandBit;
    if base == 0x2000_0000 {
      AliasInSram(off);
    } else {
      AliasInPeripherals(off);
    }
  }

  lemma AliasInSram(off: nat)
    requires off < 0x200_0000
    ensures var alias: int := 0x2200_0000 + off;
      && BitbandWord(alias) == 0x2000_0000 + (off / 32 - off / 32 % 4)
      && BitbandBit(alias) == ((off / 32) % 4) * 8 + (off / 4) % 8
  {
    var alias: word := 0x2200_0000 + off;
    assert alias - 0x2200_0000 == off;
  }

  lemma AliasInPeripherals(off: nat)
    requires off < 0x200_0000
    ensures var alias: int := 0x4200_0000 + off;
      && BitbandWord(alias) == 0x4000_0000 + (off / 32 - off / 32 % 4)
      && BitbandBit(alias) == ((off / 32) % 4) * 8 + (off / 4) % 8
  {
    var alias: word := 0x4200_0000 + off;
    assert alias - 0x4200_0000 == off;
  }

  lemma AliasOffset(d: nat, k: nat)
    requires d % 4 == 0 && k < 32
    ensures var off := 32 * d + 4 * k;
      && off / 32 == d + k / 8 && (d + k / 8) % 4 == k / 8 && off / 4 % 8 == k % 8 && off % 4 == 0
  {
    var off := 32 * d + 4 * k;
    assert off == 32 * (d + k / 8) + 4 * (k % 8);
    assert off / 4 == 8 * (d + k / 8) + k % 8;
  }

  lemma BitsAreAliases(alias: word)
    requires IsBitband(alias) && alias % 4 == 0
    ensures InBand(BitbandWord(alias)) && BitbandWord(alias) % 4 == 0
    ensures AliasOf(BitbandWord(alias), BitbandBit(alias)) == alias
  {
    var off := if alias < 0x4200_0000 then alias - 0x2200_0000 else alias - 0x4200_0000;
    var byteOff := off / 32;
    assert off == 32 * byteOff + 4 * (off / 4 % 8);
  }

  // ---------------------------------------------------------------- accesses

  /** A word of SRAM that bit-banding reaches. */
  ghost predicate Banded(cfg: Config, a: int) {
    SoundMap(cfg) && 0x2000_0000 <= a < 0x2010_0000 && a % 4 == 0 && InSram(cfg, a, 4)
  }

  /** Reading an alias gives its bit. */
  lemma AliasReadsBit(cfg: Config, mem: Mem, dev: Device, a: word, k: nat, n: Width)
    requires Banded(cfg, a) && k < 32
    ensures Read(cfg, mem, dev, AliasOf(a, k), n) == BitOf(Read(cfg, mem, dev, a, 4), k)
  {
    hide BitOf, PlainAddr;
    AliasesAreBits(a, k);
  }

  /** Writing an alias, at any width, writes bit 0 of the value to that bit and changes
      nothing else. */
  lemma AliasWritesBit(cfg: Config, mem: Mem, dev: Device, a: word, k: nat, n: Width, v: word)
    requires Banded(cfg, a) && k < 32
    ensures var mem' := Write(cfg, mem, dev, AliasOf(a, k), n, v);
      && Read(cfg, mem', dev, a, 4) == WithBit(Read(cfg, mem, dev, a, 4), k, v % 2)
      && SameOutside(mem, mem', Off(cfg, a), Off(cfg, a) + 4)
  {
    hide BitOf, PlainAddr, WithBit;
    AliasesAreBits(a, k);
    var w := WithBit(Read(cfg, mem, dev, a, 4), k, v % 2);
    WordWrite(cfg, mem, dev, a, w);
  }

  lemma WordWrite(cfg: Config, mem: Mem, dev: Device, a: word, w: word)
    requires SoundMap(cfg) && InSram(cfg, a, 4)
    ensures Read(cfg, Write(cfg, mem, dev, a, 4, w), dev, a, 4) == w
    ensures SameOutside(mem, Write(cfg, mem, dev, a, 4, w), Off(cfg, a), Off(cfg, a) + 4)
  {
    hide Read, Write, PlainAddr;
    SramReadOverWrite(cfg, mem, dev, a, 4, a, 4, w);
    assert Pow256(4) == 0x1_0000_0000;
    SramAccess(cfg, mem, dev, a, 4, w);
    StoreIsLocal(mem, Off(cfg, a), 4, w);
  }

  lemma StoreIsLocal(mem: Mem, o: nat, n: nat, v: nat)
    requires o + n <= MEM_SIZE
    ensures SameOutside(mem, Store(mem, o, n, v), o, o + n)
  {
  }

  /** Another word is not touched. */
  lemma OtherWordStays(cfg: Config, mem: Mem, mem': Mem, dev: Device, a: word, b: word)
    requires Banded(cfg, a) && Banded(cfg, b) && a != b && SameOutside(mem, mem', Off(cfg, a), Off(cfg, a) + 4)
    ensures Read(cfg, mem', dev, b, 4) == Read(cfg, mem, dev, b, 4)
  {
    hide Read, Write, Translate, PlainAddr, Load, Store, SameOutside;
    SramAccess(cfg, mem, dev, b, 4, 0);
    SramAccess(cfg, mem', dev, b, 4, 0);
    WordsDoNotMeet(a, b);
    LoadStays(mem, mem', Off(cfg, a), Off(cfg, b));
  }

  lemma WordsDoNotMeet(a: int, b: int)
    requires a % 4 == 0 && b % 4 == 0 && a != b
    ensures a + 4 <= b || b + 4 <= a
  {
  }

  lemma LoadStays(mem: Mem, mem': Mem, x: nat, o: nat)
    requires SameOutside(mem, mem', x, x + 4) && (x + 4 <= o || o + 4 <= x) && o + 4 <= MEM_SIZE
    ensures Load(mem', o, 4) == Load(mem, o, 4)
  {
    hide Value;
    assert mem'[o..o + 4] == mem[o..o + 4];
  }

  /** A word read is the sum of its 32 alias reads. */
  function AliasSum(cfg: Config, mem: Mem, dev: Device, a: word, n: nat): nat
    requires 0x2000_0000 <= a < 0x2010_0000 && a % 4 == 0 && n <= 32
  {
    if n == 0 then 0
    else
      MulMono(0, Read(cfg, mem, dev, AliasOf(a, n - 1), 4), Pow2(n - 1));
      AliasSum(cfg, mem, dev, a, n - 1) + Read(cfg, mem, dev, AliasOf(a, n - 1), 4) * Pow2(n - 1)
  }

  lemma {:induction false} WordIsItsAliases(cfg: Config, mem: Mem, dev: Device, a: word, n: nat)
    requires Banded(cfg, a) && n <= 32
    ensures AliasSum(cfg, mem, dev, a, n) == Read(cfg, mem, dev, a, 4) % Pow2(n)
    ensures n == 32 ==> AliasSum(cfg, mem, dev, a, n) == Read(cfg, mem, dev, a, 4)
  {
    hide Read, Banded, Pow2;
    AliasSumIsBitSum(cfg, mem, dev, a, n);
    BitSumIsRemainder(Read(cfg, mem, dev, a, 4), n);
    Pow2Top();
  }

  lemma {:induction false} AliasSumIsBitSum(cfg: Config, mem: Mem, dev: Device, a: word, n: nat)
    requires Banded(cfg, a) && n <= 32
    ensures AliasSum(cfg, mem, dev, a, n) == BitSum(Read(cfg, mem, dev, a, 4), n)
  {
    hide Read, Pow2;
    if n > 0 {
      AliasSumIsBitSum(cfg, mem, dev, a, n - 1);
      AliasReadsBit(cfg, mem, dev, a, n - 1, 4);
    }
  }

  // ---------------------------------------------------------------- a bit array

  /** Bits by word address and number. */
  type BitArray = map<(word, nat), nat>

  datatype BitWrite = BitWrite(a: word, k: nat, value: word, width: Width, dev: Device)

  ghost predicate ValidWrites(cfg: Config, ws: seq<BitWrite>) {
    forall i :: 0 <= i < |ws| ==> Banded(cfg, ws[i].a) && ws[i].k < 32
  }

  function OnMemory(cfg: Config, mem: Mem, ws: seq<BitWrite>): Mem
    requires forall i :: 0 <= i < |ws| ==> 0x2000_0000 <= ws[i].a < 0x2010_0000 && ws[i].a % 4 == 0 && ws[i].k < 32
    decreases |ws|
  {
    if |ws| == 0 then mem
    else OnMemory(cfg, Write(cfg, mem, ws[0].dev, AliasOf(ws[0].a, ws[0].k), ws[0].width, ws[0].value), ws[1..])
  }

  function OnBits(bits: BitArray, ws: seq<BitWrite>): BitArray
    decreases |ws|
  {
    if |ws| == 0 then bits else OnBits(bits[(ws[0].a, ws[0].k) := ws[0].value % 2], ws[1..])
  }

  /** The memory holds the bits of the array. */
  ghost predicate Represents(cfg: Config, mem: Mem, bits: BitArray) {
    forall x :: x in bits ==>
      && Banded(cfg, x.0) && x.1 < 32
      && (forall dev: Device :: BitOf(Read(cfg, mem, dev, x.0, 4), x.1) == bits[x])
  }

  lemma AliasWriteRepresents(cfg: Config, mem: Mem, bits: BitArray, w: BitWrite)
    requires Represents(cfg, mem, bits) && Banded(cfg, w.a) && w.k < 32
    ensures Represents(cfg, Write(cfg, mem, w.dev, AliasOf(w.a, w.k), w.width, w.value), bits[(w.a,
        w.k) := w.value % 2])
  {
    hide Read, Write, SoundMap, BitOf, WithBit;
    var mem' := Write(cfg, mem, w.dev, AliasOf(w.a, w.k), w.width, w.value);
    var bits' := bits[(w.a, w.k) := w.value % 2];
    forall x, dev: Device | x in bits'
      ensures Banded(cfg, x.0) && x.1 < 32 && BitOf(Read(cfg, mem', dev, x.0, 4), x.1) == bits'[x]
    {
      AliasWritesBit(cfg, mem, w.dev, w.a, w.k, w.width, w.value);
      if x.0 == w.a {
        SramReadsIgnoreDevice(cfg, mem', dev, w.dev, w.a);
        SramReadsIgnoreDevice(cfg, mem, dev, w.dev, w.a);
        WithBitSetsOneBit(Read(cfg, mem, w.dev, w.a, 4), w.k, w.value % 2, x.1);
      } else {
        OtherWordStays(cfg, mem, mem', dev, w.a, x.0);
      }
    }
  }

  lemma SramReadsIgnoreDevice(cfg: Config, mem: Mem, dev: Device, dev': Device, a: word)
    requires Banded(cfg, a)
    ensures Read(cfg, mem, dev, a, 4) == Read(cfg, mem, dev', a, 4)
  {
    hide Read;
    SramAccess(cfg, mem, dev, a, 4, 0);
    SramAccess(cfg, mem, dev', a, 4, 0);
  }

  /** Any sequence of alias writes does to memory what the same updates do to a bit array. */
  lemma {:induction false} AliasWritesAreBitUpdates(cfg: Config, mem: Mem, bits: BitArray, ws: seq<BitWrite>)
    requires Represents(cfg, mem, bits) && ValidWrites(cfg, ws)
    ensures Represents(cfg, OnMemory(cfg, mem, ws), OnBits(bits, ws))
    decreases |ws|
  {
    hide Represents, Read, Write, SoundMap;
    if |ws| > 0 {
      var w := ws[0];
      assert Banded(cfg, w.a);
      AliasWriteRepresents(cfg, mem, bits, w);
      AliasWritesAreBitUpdates(cfg, Write(cfg, mem, w.dev, AliasOf(w.a, w.k), w.width, w.value), bits[(w.a,
          w.k) := w.value % 2], ws[1..]);
    }
  }
}
