/** The flat byte memory and the address space in front of it
    (`src/cortex_emu.c`, `src/cortex_emu_internal.h`, `src/periph_dispatch.c`).

    Peripheral registers are not part of this module: the value a peripheral read returns
    is an argument `dev`, and a write taken by a peripheral leaves the byte memory alone. */
module Memory {
  import opened Words

  const MEM_SIZE: nat := 786432
  const SRAM_OFFSET: nat := 0x80000
  const PERIPH_OFFSET: nat := 0xA0000
  const SYSTEM_OFFSET: nat := 0xB0000
  const NOT_HANDLED: word := 0xDEAD_0000

  type Mem = m: seq<byte> | |m| == MEM_SIZE witness seq(MEM_SIZE, _ => 0)

  /** Bytes in one access. */
  type Width = n: nat | n in {1, 2, 4} witness 4

  /** Answers of the peripheral registers, by address. */
  type Device = word -> word

  datatype Config = Config(flashBase: word, flashSize: word, sramBase: word, sramSize: word)

  // ---------------------------------------------------------------- little-endian bytes

  function Value(bs: seq<byte>): (v: nat) {
    if |bs| == 0 then 0 else bs[0] + 0x100 * Value(bs[1..])
  }

  function Bytes(v: nat, n: nat): (bs: seq<byte>)
    ensures |bs| == n
  {
    if n == 0 then [] else [v % 0x100] + Bytes(v / 0x100, n - 1)
  }

  function Pow256(n: nat): (p: nat)
    ensures p >= 1
  {
    if n == 0 then 1 else 0x100 * Pow256(n - 1)
  }

  lemma ScaledUp(q: int, p: int, r: int)
    ensures (q * p + r) * 0x100 == q * (0x100 * p) + 0x100 * r
  {
  }

  lemma {:induction false} ValueOfBytes(v: nat, n: nat)
    ensures Value(Bytes(v, n)) == v % Pow256(n)
  {
    if n == 0 {
    } else {
      var p := Pow256(n - 1);
      ValueOfBytes(v / 0x100, n - 1);
      assert Bytes(v, n)[1..] == Bytes(v / 0x100, n - 1);
      var q, r := (v / 0x100) / p, (v / 0x100) % p;
      DivMod(v / 0x100, p);
      DivMod(v, 0x100);
      ScaledUp(q, p, r);
      DivModUnique(v, 0x100 * p, q, 0x100 * r + v % 0x100);
    }
  }

  lemma {:induction false} ValueBound(bs: seq<byte>)
    ensures Value(bs) < Pow256(|bs|)
  {
    if |bs| == 0 {
    } else {
      ValueBound(bs[1..]);
    }
  }

  lemma {:induction false} BytesOfValue(bs: seq<byte>)
    ensures Bytes(Value(bs), |bs|) == bs
  {
    if |bs| == 0 {
    } else {
      BytesOfValue(bs[1..]);
      assert Value(bs) / 0x100 == Value(bs[1..]);
    }
  }

  function Load(mem: Mem, off: nat, n: nat): nat
    requires off + n <= MEM_SIZE
  {
    Value(mem[off..off + n])
  }

  lemma LoadFits(mem: Mem, off: nat, n: Width)
    requires off + n <= MEM_SIZE
    ensures Load(mem, off, n) < 0x1_0000_0000
  {
    ValueBound(mem[off..off + n]);
    assert Pow256(1) == 0x100 && Pow256(2) == 0x1_0000 && Pow256(4) == 0x1_0000_0000;
  }

  /** `mem` with the bytes from `off` on replaced by `bs`. */
  function Splice(mem: Mem, off: nat, bs: seq<byte>): Mem
    requires off + |bs| <= MEM_SIZE
  {
    mem[..off] + bs + mem[off + |bs|..]
  }

  function Store(mem: Mem, off: nat, n: nat, v: nat): Mem
    requires off + n <= MEM_SIZE
  {
    Splice(mem, off, Bytes(v, n))
  }

  // ---------------------------------------------------------------- address translation

  predicate IsBitband(addr: word) {
    0x4200_0000 <= addr < 0x4400_0000 || 0x2200_0000 <= addr < 0x2400_0000
  }

  /** Address windows `[lo, hi)`. */
  type Windows = seq<(int, int)>

  predicate InWindows(x: int, ws: Windows)
    decreases |ws|, x
  {
    |ws| > 0 && (ws[0].0 <= x < ws[0].1 || InWindows(x, ws[1..]))
  }

  /** The windows of `emu_periph_write`, in its order: NVIC, SysTick, SCB, GPIO (two
      layouts), DMA, RCC, ADC, flash interface, UART1, UART2, SPI, I2C, IWDG, WWDG, EXTI,
      SYSCFG, PWR, CRC, TIM1, TIM3, TIM15, TIM2, TIM4, TIM14. */
  const PERIPH_WINDOWS: Windows := [
    (0xE000_E100, 0xE000_E500),
    (0xE000_E010, 0xE000_E020),
    (0xE000_ED00, 0xE000_ED40),
    (0x4800_0000, 0x4800_2000),
    (0x4001_0800, 0x4001_1400),
    (0x4002_0000, 0x4002_0400),
    (0x4002_1000, 0x4002_1400),
    (0x4001_2400, 0x4001_2800),
    (0x4002_2000, 0x4002_2400),
    (0x4001_3800, 0x4001_3C00),
    (0x4000_4400, 0x4000_4800),
    (0x4001_3000, 0x4001_3400),
    (0x4000_5400, 0x4000_5800),
    (0x4000_3000, 0x4000_3400),
    (0x4000_2C00, 0x4000_3000),
    (0x4001_0400, 0x4001_0800),
    (0x4001_0000, 0x4001_0400),
    (0x4000_7000, 0x4000_7400),
    (0x4002_3000, 0x4002_3400),
    (0x4001_2C00, 0x4001_3000),
    (0x4000_0400, 0x4000_0800),
    (0x4001_4000, 0x4001_4400),
    (0x4000_0000, 0x4000_0400),
    (0x4000_0800, 0x4000_0C00),
    (0x4000_2000, 0x4000_2400)]

  /** Addresses whose writes a peripheral takes. */
  predicate PeriphWrites(addr: word) {
    InWindows(addr, PERIPH_WINDOWS)
  }

  /** Addresses whose reads a peripheral answers: the same, and five identification words. */
  predicate PeriphReads(addr: word) {
    PeriphWrites(addr) || addr in {0x4001_3400, 0x1FFF_F7E0, 0xE004_2000, 0x4001_5800, 0x4001_5804}
  }

  /** One line of a translation table: `[lo, hi)` maps to `target` onwards. */
  datatype Line = Line(lo: int, hi: int, target: nat)

  function Lookup(x: int, lines: seq<Line>): int
    decreases |lines|, x
  {
    if |lines| == 0 then -1
    else if lines[0].lo <= x < lines[0].hi then lines[0].target + (x - lines[0].lo)
    else Lookup(x, lines[1..])
  }

  /** `translate_periph_addr`, on `addr & 0x0FFFFFFF`. */
  const PERIPH_LINES: seq<Line> := [
    Line(0, 0x400, PERIPH_OFFSET),
    Line(0x400, 0x800, PERIPH_OFFSET + 0x400),
    Line(0x800, 0xC00, PERIPH_OFFSET + 0x800),
    Line(0x2000, 0x2400, PERIPH_OFFSET + 0x5800),
    Line(0x2C00, 0x3000, PERIPH_OFFSET + 0x7400),
    Line(0x3000, 0x3400, PERIPH_OFFSET + 0x7000),
    Line(0x4400, 0x4800, PERIPH_OFFSET + 0x6400),
    Line(0x5400, 0x5800, PERIPH_OFFSET + 0x6C00),
    Line(0x7000, 0x7400, PERIPH_OFFSET + 0x8000),
    Line(0x1_0000, 0x1_0400, PERIPH_OFFSET + 0x7C00),
    Line(0x1_0400, 0x1_0800, PERIPH_OFFSET + 0x7800),
    Line(0x1_0800, 0x1_0C00, PERIPH_OFFSET + 0x3000),
    Line(0x1_0C00, 0x1_1000, PERIPH_OFFSET + 0x3400),
    Line(0x1_1000, 0x1_1400, PERIPH_OFFSET + 0x3800),
    Line(0x1_2400, 0x1_2800, PERIPH_OFFSET + 0x4400),
    Line(0x1_2C00, 0x1_3000, PERIPH_OFFSET + 0x4000),
    Line(0x1_3000, 0x1_3400, PERIPH_OFFSET + 0x6800),
    Line(0x1_3800, 0x1_3C00, PERIPH_OFFSET + 0x6000),
    Line(0x1_4000, 0x1_4400, PERIPH_OFFSET + 0x5C00),
    Line(0x2_0000, 0x2_0400, PERIPH_OFFSET + 0x5000),
    Line(0x2_1000, 0x2_1400, PERIPH_OFFSET + 0x1000),
    Line(0x2_2000, 0x2_2400, PERIPH_OFFSET + 0x2000),
    Line(0x2_3000, 0x2_3400, PERIPH_OFFSET + 0x8400)]

  /** The GPIO windows at 0x48000000, on the whole address. */
  const GPIO_LINES: seq<Line> := [
    Line(0x4800_0000, 0x4800_0400, PERIPH_OFFSET + 0x3000),
    Line(0x4800_0400, 0x4800_0800, PERIPH_OFFSET + 0x3400),
    Line(0x4800_1400, 0x4800_1800, PERIPH_OFFSET + 0x3800)
  ]

  function TranslatePeriph(addr: word): int {
    var off := Lookup(addr % 0x1000_0000, PERIPH_LINES);
    if off >= 0 then off else Lookup(addr, GPIO_LINES)
  }

  /** `emu_translate_addr`: the offset into the byte memory, or a negative number. The sums
      wrap at 32 bits and the result is cast to `int32_t`, as in the code. */
  function Translate(cfg: Config, addr: word): int {
    if addr < cfg.flashSize then ToInt32(addr)
    else if cfg.flashBase <= addr < Wrap(cfg.flashBase + cfg.flashSize) then ToInt32(addr - cfg.flashBase)
    else if cfg.sramBase <= addr < Wrap(cfg.sramBase + cfg.sramSize) then
      ToInt32(Wrap(SRAM_OFFSET + (addr - cfg.sramBase)))
    else if 0x4000_0000 <= addr < 0x6000_0000 then TranslatePeriph(addr)
    else if 0xE000_0000 <= addr < 0xE010_0000 then
      (if 0 <= addr - 0xE000_E000 < 0x1000 then SYSTEM_OFFSET + (addr - 0xE000_E000) else -1)
    else -1
  }

  // ---------------------------------------------------------------- reads and writes

  /** The word behind a bit-band alias and the bit number in it. */
  function BitbandWord(alias: word): (a: word)
    requires IsBitband(alias)
    ensures !IsBitband(a)
  {
    var base := if 0x4200_0000 <= alias < 0x4400_0000 then 0x4200_0000 else 0x2200_0000;
    var byteOff := (alias - base) / 32;
    base - 0x200_0000 + (byteOff - byteOff % 4)
  }

  function BitbandBit(alias: word): (k: nat)
    requires IsBitband(alias)
    ensures k < 32
  {
    var base := if 0x4200_0000 <= alias < 0x4400_0000 then 0x4200_0000 else 0x2200_0000;
    var off := alias - base;
    ((off / 32) % 4) * 8 + (off / 4) % 8
  }

  function BitOf(w: word, k: nat): (b: nat)
    requires k < 32
    ensures b < 2
  {
    (w / Pow2(k)) % 2
  }

  lemma ZeroBit(k: nat)
    requires k < 32
    ensures BitOf(0, k) == 0
  {
    hide Pow2;
    SmallRemainder(0, Pow2(k));
  }

  /** Whether a write to `addr`, directly or through an alias, is taken by a peripheral. */
  predicate ReachesPeripheral(addr: word) {
    PeriphWrites(if IsBitband(addr) then BitbandWord(addr) else addr)
  }

  /** `w | 1 << k` when `b` is 1, `w & ~(1 << k)` when it is 0. */
  function WithBit(w: word, k: nat, b: nat): word
    requires k < 32 && b < 2
  {
    WithBitBound(w, k);
    w - BitOf(w, k) * Pow2(k) + b * Pow2(k)
  }

  lemma WithBitBound(w: word, k: nat)
    requires k < 32
    ensures 0 <= w - BitOf(w, k) * Pow2(k)
    ensures w - BitOf(w, k) * Pow2(k) + Pow2(k) < 0x1_0000_0000
  {
    Pow2Complement(k);
    BitRoomAt(w, Pow2(k), Pow2(31 - k), 0x8000_0000);
  }

  /** A number below twice `t` has room for its bit of weight `p`. */
  lemma BitRoomAt(w: nat, p: nat, m: nat, t: nat)
    requires 0 < p && p * m == t && w < 2 * t
    ensures 0 <= w - ((w / p) % 2) * p && w - ((w / p) % 2) * p + p < 2 * t
  {
    DivMod(w, p);
    var h := w / p;
    assert h == 2 * (h / 2) + h % 2;
    BitRoom(w, p, m, t, h / 2, h % 2, w % p);
  }

  lemma BitRoom(w: nat, p: nat, m: nat, t: nat, g: nat, b: nat, r: nat)
    requires 0 < p && p * m == t && w < 2 * t
    requires w == (2 * g + b) * p + r && b < 2 && r < p
    ensures 0 <= w - b * p && w - b * p + p < 2 * t
  {
    Distribute(g, g, p);
    Distribute(g + g, b, p);
    MulMono(0, g, p);
    MulMono(0, b, p);
    if g >= m {
      MulMono(m, g, p);
    } else {
      MulMono(g + 1, m, p);
      Distribute(g, 1, p);
    }
  }

  /** `cortex_emu_read8/16/32` for `n` = 1, 2, 4. */
  function Read(cfg: Config, mem: Mem, dev: Device, addr: word, n: Width): (v: word)
    decreases IsBitband(addr)
  {
    if IsBitband(addr) then
      BitOf(Read(cfg, mem, dev, BitbandWord(addr), 4), BitbandBit(addr))
    else
      var sr := if PeriphReads(addr) then dev(addr) else NOT_HANDLED;
      if sr != NOT_HANDLED then (if n == 1 then sr % 0x100 else if n == 2 then sr % 0x1_0000 else sr)
      else
        var off := Translate(cfg, addr);
        if off < 0 || off >= MEM_SIZE - (n - 1) then 0
        else
          LoadFits(mem, off, n);
          Load(mem, off, n)
  }

  /** `cortex_emu_write8/16/32` for `n` = 1, 2, 4. */
  function Write(cfg: Config, mem: Mem, dev: Device, addr: word, n: Width, val: word): Mem
    decreases IsBitband(addr)
  {
    if IsBitband(addr) then
      var a := BitbandWord(addr);
      Write(cfg, mem, dev, a, 4, WithBit(Read(cfg, mem, dev, a, 4), BitbandBit(addr), val % 2))
    else if PeriphWrites(addr) then mem
    else
      var off := Translate(cfg, addr);
      if off < 0 || off >= MEM_SIZE - (n - 1) || off < SRAM_OFFSET then mem
      else Store(mem, off, n, val)
  }
}
