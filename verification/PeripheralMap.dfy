/** The peripheral address space: which addresses peripherals answer and take, by kilobyte, and
    the part of the byte memory behind them. */
module PeripheralMap {
  import opened Words
  import opened Memory

  /** The kilobytes that peripherals own, by number: TIM2, TIM3, TIM4, TIM14, WWDG, IWDG, UART2,
      I2C, PWR, SYSCFG, EXTI, three GPIO ports, ADC, TIM1, SPI, UART1, TIM15, DMA, RCC, FLASH,
      CRC. */
  const PAGES: set<int> := {
    0x10_0000, 0x10_0001, 0x10_0002, 0x10_0008, 0x10_000B, 0x10_000C, 0x10_0011,
    0x10_0015, 0x10_001C, 0x10_0040, 0x10_0041, 0x10_0042, 0x10_0043, 0x10_0044, 0x10_0049, 0x10_004B, 0x10_004C,
    0x10_004E, 0x10_0050, 0x10_0080, 0x10_0084, 0x10_0088, 0x10_008C}

  /** An address whose writes a peripheral takes lies in a kilobyte of the list, in the eight of
      the other GPIO layout, or in the NVIC, SysTick or SCB, and the other way round. */
  predicate Claimed(a: word) {
    || a / 0x400 in PAGES
    || 0x4800_0000 <= a < 0x4800_2000
    || 0xE000_E100 <= a < 0xE000_E500 || 0xE000_E010 <= a < 0xE000_E020 || 0xE000_ED00 <= a < 0xE000_ED40
  }

  lemma {:induction false} InSomeWindow(x: int, ws: Windows)
    ensures InWindows(x, ws) <==> exists k :: 0 <= k < |ws| && ws[k].0 <= x < ws[k].1
    decreases |ws|
  {
    if |ws| > 0 {
      InSomeWindow(x, ws[1..]);
      if k :| 0 <= k < |ws| && ws[k].0 <= x < ws[k].1 {
        assert k > 0 ==> ws[1..][k - 1] == ws[k];
      }
      if k :| 0 <= k < |ws[1..]| && ws[1..][k].0 <= x < ws[1..][k].1 {
        assert ws[k + 1] == ws[1..][k];
      }
    }
  }

  function WindowOf(a: word): (k: nat)
    ensures k < 25
  {
    var p := a / 0x400;
    if 0x4800_0000 <= a < 0x4800_2000 then 3
    else if 0xE000_E100 <= a < 0xE000_E500 then 0
    else if 0xE000_E010 <= a < 0xE000_E020 then 1
    else if 0xE000_ED00 <= a < 0xE000_ED40 then 2
    else if 0x10_0042 <= p <= 0x10_0044 then 4
    else if p == 0x10_0080 then 5
    else if p == 0x10_0084 then 6
    else if p == 0x10_0049 then 7
    else if p == 0x10_0088 then 8
    else if p == 0x10_004E then 9
    else if p == 0x10_0011 then 10
    else if p == 0x10_004C then 11
    else if p == 0x10_0015 then 12
    else if p == 0x10_000C then 13
    else if p == 0x10_000B then 14
    else if p == 0x10_0041 then 15
    else if p == 0x10_0040 then 16
    else if p == 0x10_001C then 17
    else if p == 0x10_008C then 18
    else if p == 0x10_004B then 19
    else if p == 0x10_0001 then 20
    else if p == 0x10_0050 then 21
    else if p == 0x10_0000 then 22
    else if p == 0x10_0002 then 23
    else 24
  }

  lemma WindowIsClaimed(a: word, k: nat)
    requires k < |PERIPH_WINDOWS| && PERIPH_WINDOWS[k].0 <= a < PERIPH_WINDOWS[k].1
    ensures Claimed(a)
  {
    DivMod(a, 0x400);
  }

  lemma ClaimedIsWindow(a: word)
    requires Claimed(a)
    ensures WindowOf(a) < |PERIPH_WINDOWS| && PERIPH_WINDOWS[WindowOf(a)].0 <= a < PERIPH_WINDOWS[WindowOf(a)].1
  {
    DivMod(a, 0x400);
  }

  lemma PeripheralsByPage(a: word)
    ensures PeriphWrites(a) <==> Claimed(a)
  {
    hide InWindows, Claimed, WindowOf;
    InSomeWindow(a, PERIPH_WINDOWS);
    if PeriphWrites(a) {
      var k :| 0 <= k < |PERIPH_WINDOWS| && PERIPH_WINDOWS[k].0 <= a < PERIPH_WINDOWS[k].1;
      WindowIsClaimed(a, k);
    }
    if Claimed(a) {
      ClaimedIsWindow(a);
    }
  }

  // ---------------------------------------------------------------- memory behind peripherals

  lemma {:induction false} LookupHits(x: int, lines: seq<Line>)
    ensures if Lookup(x, lines) == -1 then forall k :: 0 <= k < |lines| ==> !(lines[k].lo <= x < lines[k].hi)
            else exists k :: 0 <= k < |lines| && lines[k].lo <= x < lines[k].hi
                   && Lookup(x, lines) == lines[k].target + (x - lines[k].lo)
    decreases |lines|
  {
    if |lines| > 0 && !(lines[0].lo <= x < lines[0].hi) {
      LookupHits(x, lines[1..]);
      forall k | 0 < k < |lines| ensures lines[k] == lines[1..][k - 1] {
      }
      if Lookup(x, lines) != -1 {
        var k :| 0 <= k < |lines[1..]| && lines[1..][k].lo <= x < lines[1..][k].hi
          && Lookup(x, lines[1..]) == lines[1..][k].target + (x - lines[1..][k].lo);
        assert lines[k + 1] == lines[1..][k];
      }
    }
  }

  /** The line of the translation table that a kilobyte of peripherals has, and the one that a
      kilobyte of the memory behind them belongs to. */
  function LineOfPage(p: nat): (k: nat)
    ensures k < 23
  {
    if p <= 2 then p
    else if p == 8 then 3 else if p == 0xB then 4 else if p == 0xC then 5 else if p == 0x11 then 6
    else if p == 0x15 then 7 else if p == 0x1C then 8 else if p == 0x40 then 9 else if p == 0x41 then 10
    else if p == 0x42 then 11 else if p == 0x43 then 12 else if p == 0x44 then 13 else if p == 0x49 then 14
    else if p == 0x4B then 15 else if p == 0x4C then 16 else if p == 0x4E then 17 else if p == 0x50 then 18
    else if p == 0x80 then 19 else if p == 0x84 then 20 else if p == 0x88 then 21 else 22
  }

  function LineBehind(q: nat): nat {
    if q <= 2 then q
    else if q == 22 then 3 else if q == 29 then 4 else if q == 28 then 5 else if q == 25 then 6
    else if q == 27 then 7 else if q == 32 then 8 else if q == 31 then 9 else if q == 30 then 10
    else if q == 12 then 11 else if q == 13 then 12 else if q == 14 then 13 else if q == 17 then 14
    else if q == 16 then 15 else if q == 26 then 16 else if q == 24 then 17 else if q == 23 then 18
    else if q == 20 then 19 else if q == 4 then 20 else if q == 8 then 21 else 22
  }

  lemma LinesByPage(k: nat)
    requires k < |PERIPH_LINES|
    ensures var l := PERIPH_LINES[k];
      && l.lo >= 0 && l.lo % 0x400 == 0 && l.hi == l.lo + 0x400 && l.target >= PERIPH_OFFSET
      && (l.target - PERIPH_OFFSET) % 0x400 == 0
      && LineOfPage(l.lo / 0x400) == k && l.lo / 0x400 + 0x10_0000 in PAGES
      && LineBehind((l.target - PERIPH_OFFSET) / 0x400) == k
  {
  }

  lemma PageHasLine(p: nat)
    requires p + 0x10_0000 in PAGES
    ensures LineOfPage(p) < |PERIPH_LINES| && PERIPH_LINES[LineOfPage(p)].lo == p * 0x400
  {
  }

  lemma InPage(x: nat, lo: nat)
    requires lo % 0x400 == 0 && lo <= x < lo + 0x400
    ensures x / 0x400 == lo / 0x400
  {
    DivMod(lo, 0x400);
    DivModUnique(x, 0x400, lo / 0x400, x - lo);
  }

  /** The line of an address in the low peripheral space. */
  lemma LineFound(x: nat, k: nat)
    requires k < |PERIPH_LINES| && PERIPH_LINES[k].lo <= x < PERIPH_LINES[k].hi
    ensures k == LineOfPage(x / 0x400) && x / 0x400 + 0x10_0000 in PAGES
  {
    hide LineOfPage;
    LinesByPage(k);
    InPage(x, PERIPH_LINES[k].lo);
  }

  /** Peripheral space is backed by memory exactly in the listed kilobytes. */
  lemma BackedByPage(a: word)
    requires 0x4000_0000 <= a < 0x4800_0000
    ensures TranslatePeriph(a) == -1 <==> a / 0x400 !in PAGES
    ensures a / 0x400 in PAGES ==>
      var l := PERIPH_LINES[LineOfPage(a / 0x400 - 0x10_0000)];
      l.lo <= a - 0x4000_0000 < l.hi && TranslatePeriph(a) == l.target + (a - 0x4000_0000 - l.lo)
  {
    hide LineOfPage, Lookup;
    var x := a - 0x4000_0000;
    AddMultiple(0x400, 0x10_0000, x);
    DivMod(x, 0x400);
    LookupHits(x, PERIPH_LINES);
    NotGpio(a);
    if Lookup(x, PERIPH_LINES) != -1 {
      var k :| 0 <= k < |PERIPH_LINES| && PERIPH_LINES[k].lo <= x < PERIPH_LINES[k].hi
        && Lookup(x, PERIPH_LINES) == PERIPH_LINES[k].target + (x - PERIPH_LINES[k].lo);
      LineFound(x, k);
    }
    if a / 0x400 in PAGES {
      PageHasLine(x / 0x400);
      LinesByPage(LineOfPage(x / 0x400));
    }
  }

  lemma NotGpio(a: word)
    requires 0x4000_0000 <= a < 0x4800_0000
    ensures Lookup(a, GPIO_LINES) == -1 && a % 0x1000_0000 == a - 0x4000_0000
  {
    hide Lookup;
    LookupHits(a, GPIO_LINES);
    assert forall k :: 0 <= k < |GPIO_LINES| ==> GPIO_LINES[k].lo >= 0x4800_0000;
  }

  /** The backing byte tells the line. */
  lemma LineFromBacking(a: word)
    requires 0x4000_0000 <= a < 0x4800_0000 && TranslatePeriph(a) != -1
    ensures TranslatePeriph(a) >= PERIPH_OFFSET
    ensures LineBehind((TranslatePeriph(a) - PERIPH_OFFSET) / 0x400) == LineOfPage(a / 0x400 - 0x10_0000)
  {
    hide LineOfPage, LineBehind, TranslatePeriph;
    BackedByPage(a);
    var k := LineOfPage(a / 0x400 - 0x10_0000);
    LinesByPage(k);
    InPage(TranslatePeriph(a) - PERIPH_OFFSET, PERIPH_LINES[k].target - PERIPH_OFFSET);
  }

  /** No two peripheral addresses share a byte of the memory behind them. */
  lemma BackingIsOwn(a: word, b: word)
    requires 0x4000_0000 <= a < 0x4800_0000 && 0x4000_0000 <= b < 0x4800_0000
    requires TranslatePeriph(a) == TranslatePeriph(b) != -1
    ensures a == b
  {
    hide LineOfPage, LineBehind, TranslatePeriph;
    BackedByPage(a);
    BackedByPage(b);
    LineFromBacking(a);
    LineFromBacking(b);
  }

  /** On a map with flash and SRAM below it, peripheral and system space are translated as
      said here: 4 KB of system space from 0xE000E000 on lie at 0xB0000, the rest is nowhere. */
  lemma HighSpace(cfg: Config, a: word)
    requires cfg.flashSize <= 0x4000_0000 && cfg.flashBase + cfg.flashSize <= 0x4000_0000
    requires cfg.sramBase + cfg.sramSize <= 0x4000_0000 <= a
    ensures Translate(cfg, a)
         == if a < 0x6000_0000 then TranslatePeriph(a)
            else if 0xE000_E000 <= a < 0xE000_F000 then 0xB_0000 + (a - 0xE000_E000) else -1
  {
    hide TranslatePeriph;
  }

  /** The second GPIO layout shows the same bytes as the first. */
  lemma GpioLayoutsAgree(d: nat)
    requires d < 0x400
    ensures TranslatePeriph(0x4800_0000 + d) == TranslatePeriph(0x4001_0800 + d)
    ensures TranslatePeriph(0x4800_0400 + d) == TranslatePeriph(0x4001_0C00 + d)
    ensures TranslatePeriph(0x4800_1400 + d) == TranslatePeriph(0x4001_1000 + d)
  {
    hide TranslatePeriph;
    GpioBacked(0, d);
    GpioBacked(1, d);
    GpioBacked(2, d);
    PortBacked(0x4001_0800, d, 11);
    PortBacked(0x4001_0C00, d, 12);
    PortBacked(0x4001_1000, d, 13);
  }

  lemma GpioBacked(k: nat, d: nat)
    requires k < 3 && d < 0x400
    ensures GPIO_LINES[k].lo == 0x4800_0000 + (if k == 2 then 0x1400 else 0x400 * k)
    ensures TranslatePeriph(GPIO_LINES[k].lo + d) == PERIPH_OFFSET + 0x3000 + 0x400 * k + d
  {
    hide Lookup;
    var a: word := GPIO_LINES[k].lo + d;
    NoLowLine(a);
    LookupHits(a, GPIO_LINES);
  }

  lemma NoLowLine(a: word)
    requires 0x4800_0000 <= a < 0x4800_2000
    ensures Lookup(a % 0x1000_0000, PERIPH_LINES) == -1
  {
    hide Lookup;
    var x: int := a % 0x1000_0000;
    assert x >= 0x800_0000;
    LookupHits(x, PERIPH_LINES);
    assert forall j :: 0 <= j < |PERIPH_LINES| ==> PERIPH_LINES[j].hi < 0x800_0000;
  }

  lemma PortBacked(lo: nat, d: nat, k: nat)
    requires d < 0x400 && 11 <= k <= 13 && lo == 0x4001_0800 + 0x400 * (k - 11)
    ensures TranslatePeriph(lo + d) == PERIPH_OFFSET + 0x3000 + 0x400 * (k - 11) + d
  {
    hide TranslatePeriph;
    InPage(lo + d, lo);
    BackedByPage(lo + d);
  }

  /** The five identification words that peripherals answer besides their register windows. */
  lemma IdentificationWords(a: word)
    requires a in [0x4001_3400, 0x4001_5800, 0x4001_5804, 0x1FFF_F7E0, 0xE004_2000]
    ensures PeriphReads(a) && !IsBitband(a)
  {
    hide PeriphWrites;
  }

  /** A peripheral that answers is read at the width of the access; one that does not leaves
      the byte memory to answer. */
  lemma PeripheralRead(cfg: Config, mem: Mem, dev: Device, a: word, n: Width)
    requires !IsBitband(a) && PeriphReads(a) && dev(a) != 0xDEAD_0000
    ensures Read(cfg, mem, dev, a, n) == dev(a) % Pow256(n)
  {
    hide PeriphReads, Translate;
    assert Pow256(1) == 0x100 && Pow256(2) == 0x1_0000 && Pow256(4) == 0x1_0000_0000;
  }
}
