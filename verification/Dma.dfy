/** The DMA controller (`src/periph_dma.c`): block copies by interleaved channels. */
module Dma {
  import opened Words
  import opened Memory
  import opened MemoryLaws
  import opened BusModule
  import Bitband
  import Cpu

  const DMA_CHANNELS: nat := 5

  type Mask = Cpu.Mask

  datatype Channel = Channel(ccr: word, cndtr: word, cpar: word, cmar: word)

  type Channels = c: seq<Channel> | |c| == DMA_CHANNELS witness seq(DMA_CHANNELS, _ => Channel(0, 0, 0, 0))

  /** The controller, the pending register it sets, and the byte memory it moves. */
  datatype Controller = Controller(ch: Channels, isr: Mask, pending: Mask, mem: Mem)

  predicate Enabled(c: Channel) { c.ccr % 2 == 1 }
  predicate InterruptOnComplete(c: Channel) { c.ccr / 2 % 2 == 1 }
  predicate FromMemory(c: Channel) { c.ccr / 16 % 2 == 1 }
  predicate Pinc(c: Channel) { c.ccr / 64 % 2 == 1 }
  predicate Minc(c: Channel) { c.ccr / 128 % 2 == 1 }
  function Psize(c: Channel): nat { SizeOf(c.ccr / 256 % 4) }
  function Msize(c: Channel): nat { SizeOf(c.ccr / 1024 % 4) }

  /** `1 << code`. */
  function SizeOf(code: nat): nat {
    if code == 0 then 1 else if code == 1 then 2 else if code == 2 then 4 else 8
  }

  function Irq(i: nat): (n: nat)
    ensures n < 32
  {
    if i == 0 then 9 else if i <= 2 then 10 else 11
  }

  // ---------------------------------------------------------------- its own registers

  /** The register window of the controller. */
  const DMA_BASE: nat := 0x4002_0000

  predicate InDma(a: word) {
    DMA_BASE <= a < DMA_BASE + 0x400
  }

  /** `emu_dma_read`. */
  function ReadRegister(ch: Channels, isr: Mask, a: word): word
    requires InDma(a)
  {
    var reg := a - DMA_BASE;
    if reg == 0 then Cpu.WordOf(isr)
    else if 8 <= reg < 8 + DMA_CHANNELS * 0x14 then
      var c, off := ch[(reg - 8) / 0x14], (reg - 8) % 0x14;
      if off == 0 then c.ccr else if off == 4 then c.cndtr else if off == 8 then c.cpar
      else if off == 0xC then c.cmar else 0
    else 0
  }

  /** `emu_dma_write`. */
  function WriteRegister(d: Controller, a: word, val: word): Controller
    requires InDma(a)
  {
    var reg := a - DMA_BASE;
    if reg == 4 then d.(isr := d.isr - Cpu.BitsOf(val))
    else if 8 <= reg < 8 + DMA_CHANNELS * 0x14 then
      var k, off := (reg - 8) / 0x14, (reg - 8) % 0x14;
      var c := d.ch[k];
      if off == 0 then d.(ch := d.ch[k := c.(ccr := val)])
      else if off == 4 then d.(ch := d.ch[k := c.(cndtr := val)])
      else if off == 8 then d.(ch := d.ch[k := c.(cpar := val)])
      else if off == 0xC then d.(ch := d.ch[k := c.(cmar := val)])
      else d
    else d
  }

  /** Peripheral answers with the controller's own registers in place. */
  function Answers(ch: Channels, isr: Mask, dev: Device): Device {
    a => if InDma(a) then ReadRegister(ch, isr, a) else dev(a)
  }

  /** What a store does to the controller and to the pending register it shares. */
  function RegisterStore(d: Controller, a: word, val: word): Controller {
    if InDma(a) then WriteRegister(d, a, val)
    else if a == Cpu.ISPR then d.(pending := d.pending + Cpu.BitsOf(val))
    else if a == Cpu.ICPR then d.(pending := d.pending - Cpu.BitsOf(val))
    else d
  }

  /** The address a store goes to and the word it leaves there, an alias resolved. */
  function Resolved(cfg: Config, dev: Device, mem: Mem, a: word, val: word): (r: (word, word))
    ensures !IsBitband(a) ==> r == (a, val)
    ensures IsBitband(a) ==> r.0 == BitbandWord(a)
  {
    if IsBitband(a) then
      var w := BitbandWord(a);
      (w, WithBit(Read(cfg, mem, dev, w, 4), BitbandBit(a), val % 2))
    else (a, val)
  }

  // ---------------------------------------------------------------- one tick

  /** One transfer: always 32 bits, whatever the size fields say. */
  function Moved(cfg: Config, dev: Device, mem: Mem, c: Channel): Mem {
    Write(cfg, mem, dev, Target(c), 4, Read(cfg, mem, dev, Source(c), 4))
  }

  function Source(c: Channel): word { if FromMemory(c) then c.cmar else c.cpar }
  function Target(c: Channel): word { if FromMemory(c) then c.cpar else c.cmar }

  /** The controller once channel `c` has stored its word, which may be a register of it. */
  function Transferred(cfg: Config, dev: Device, d: Controller, c: Channel): Controller {
    var a := Answers(d.ch, d.isr, dev);
    var w := Resolved(cfg, a, d.mem, Target(c), Read(cfg, d.mem, a, Source(c), 4));
    RegisterStore(d, w.0, w.1).(mem := Moved(cfg, a, d.mem, c))
  }

  /** What the tick writes back to channel `now` after the transfer of `c`: CNDTR and CMAR
      from the values it began with, CPAR counted up where it stands. */
  function WrittenBack(c: Channel, now: Channel): Channel
    requires c.cndtr > 0
  {
    now.(cndtr := c.cndtr - 1,
         cmar := if Minc(c) then Plus(c.cmar, Msize(c)) else now.cmar,
         cpar := if Pinc(c) then Plus(now.cpar, Psize(c)) else now.cpar)
  }

  function Advanced(c: Channel): Channel
    requires c.cndtr > 0
  {
    WrittenBack(c, c)
  }

  /** The body of the channel loop. */
  function TickChannel(cfg: Config, dev: Device, d: Controller, i: nat): Controller
    requires i < DMA_CHANNELS
  {
    var c := d.ch[i];
    if !Enabled(c) || c.cndtr == 0 then d
    else
      var e := Transferred(cfg, dev, d, c);
      var last := c.cndtr == 1;
      Controller(e.ch[i := WrittenBack(c, e.ch[i])],
                 e.isr + (if last then {4 * i + 1} else {}),
                 e.pending + (if last && InterruptOnComplete(c) then {Irq(i)} else {}),
                 e.mem)
  }

  /** The word a store to `a` reaches, an alias resolved. */
  function Reached(a: word): word {
    if IsBitband(a) then BitbandWord(a) else a
  }

  /** The registers that a write changes: the flag clear, and four of each channel. */
  predicate IsRegister(w: word) {
    var reg := w - DMA_BASE;
    reg == 4 || (8 <= reg < 8 + DMA_CHANNELS * 0x14 && (reg - 8) % 0x14 in {0, 4, 8, 0xC})
  }

  /** Whether a store of channel `i` to `a` can disturb the transfers: it reaches a register,
      and not its own CNDTR, which the tick writes over. */
  predicate Disturbs(i: nat, a: word) {
    IsRegister(Reached(a)) && Reached(a) != DMA_BASE + 8 + 0x14 * i + 4
  }

  /** A store to AIRCR can reset the controller with everything else. */
  predicate MayReset(a: word) {
    Reached(a) == Cpu.AIRCR
  }

  /** Once written back, a transfer elsewhere leaves the flags and the other channels alone. */
  lemma QuietTransfer(cfg: Config, dev: Device, d: Controller, i: nat)
    requires i < DMA_CHANNELS && Active(d.ch[i]) && !Disturbs(i, Target(d.ch[i]))
    ensures var c := d.ch[i];
      var e := Transferred(cfg, dev, d, c);
      e.ch[i := WrittenBack(c, e.ch[i])] == d.ch[i := Advanced(c)] && e.isr == d.isr
  {
    hide Read, Write, WithBit, BitbandWord, Answers, Target, Source, Enabled, Msize, Psize, Minc, Pinc, Plus;
    var c, a := d.ch[i], Answers(d.ch, d.isr, dev);
    var w := Resolved(cfg, a, d.mem, Target(c), Read(cfg, d.mem, a, Source(c), 4));
    QuietStore(d, i, w.0, w.1);
  }

  lemma QuietStore(d: Controller, i: nat, w: word, val: word)
    requires i < DMA_CHANNELS && d.ch[i].cndtr > 0
    requires !IsRegister(w) || w == DMA_BASE + 8 + 0x14 * i + 4
    ensures var c := d.ch[i];
      var e := RegisterStore(d, w, val);
      e.ch[i := WrittenBack(c, e.ch[i])] == d.ch[i := Advanced(c)] && e.isr == d.isr
  {
    hide Minc, Pinc, Msize, Psize, Plus, Cpu.BitsOf;
    if w == DMA_BASE + 8 + 0x14 * i + 4 {
      DivModUnique(0x14 * i + 4, 0x14, i, 4);
    }
  }

  /** `emu_dma_tick`, from channel `i` on. */
  function TickFrom(cfg: Config, dev: Device, d: Controller, i: nat): Controller
    requires i <= DMA_CHANNELS
    decreases DMA_CHANNELS - i
  {
    if i == DMA_CHANNELS then d else TickFrom(cfg, dev, TickChannel(cfg, dev, d, i), i + 1)
  }

  /** `n` calls of `emu_dma_tick`, the peripherals answering as in `devs`. */
  function Ticks(cfg: Config, devs: nat -> Device, d: Controller, n: nat): Controller
    decreases n
  {
    if n == 0 then d else TickFrom(cfg, devs(n - 1), Ticks(cfg, devs, d, n - 1), 0)
  }

  // ---------------------------------------------------------------- block copies

  predicate Active(c: Channel) {
    Enabled(c) && c.cndtr > 0
  }

  /** Bytes covered by `k` transfers at stride `s`: each moves four bytes, so a stride of 1
      or 2 runs 3 or 2 bytes past the nominal block. */
  function Span(s: nat, k: nat): nat {
    if k == 0 then 0 else s * (k - 1) + 4
  }

  function Stride(c: Channel): nat { Msize(c) }

  predicate Disjoint(a: int, n: nat, b: int, m: nat) {
    a + n <= b || b + m <= a
  }

  /** Every active channel increments both addresses by the same size of 1, 2 or 4 bytes,
      its blocks lie in SRAM, and no target block meets any other block. */
  ghost predicate BlockCopies(cfg: Config, ch: Channels) {
    && SoundMap(cfg)
    && (forall i :: 0 <= i < DMA_CHANNELS && Active(ch[i]) ==>
          && Minc(ch[i]) && Pinc(ch[i]) && Msize(ch[i]) == Psize(ch[i]) <= 4
          && InSram(cfg, Source(ch[i]), Span(Stride(ch[i]), ch[i].cndtr))
          && InSram(cfg, Target(ch[i]), Span(Stride(ch[i]), ch[i].cndtr)))
    && (forall i, j :: 0 <= i < DMA_CHANNELS && 0 <= j < DMA_CHANNELS && Active(ch[i]) && Active(ch[j]) ==>
          && Disjoint(Target(ch[i]), Span(Stride(ch[i]), ch[i].cndtr), Source(ch[j]), Span(Stride(ch[j]), ch[j].cndtr))
          && (i != j ==> Disjoint(Target(ch[i]), Span(Stride(ch[i]), ch[i].cndtr), Target(ch[j]),
              Span(Stride(ch[j]), ch[j].cndtr))))
  }

  /** How far each channel has got. */
  type Progress = p: seq<nat> | |p| == DMA_CHANNELS witness seq(DMA_CHANNELS, _ => 0)

  /** Channel `c` after `k` of its transfers. */
  function After(c: Channel, k: nat): Channel
    requires k <= c.cndtr
  {
    if k == 0 then c
    else
      c.(cndtr := c.cndtr - k,
         cmar := if Minc(c) then Plus(c.cmar, Msize(c) * k) else c.cmar,
         cpar := if Pinc(c) then Plus(c.cpar, Psize(c) * k) else c.cpar)
  }

  predicate Done(c: Channel, k: nat) {
    Active(c) && k == c.cndtr
  }

  /** Flags: the transfer-complete bits of the finished channels. */
  function Flags(ch: Channels, p: Progress): Mask {
    set i | 0 <= i < DMA_CHANNELS && Done(ch[i], p[i]) :: 4 * i + 1
  }

  function Requests(ch: Channels, p: Progress): Mask {
    set i | 0 <= i < DMA_CHANNELS && Done(ch[i], p[i]) && InterruptOnComplete(ch[i]) :: Irq(i)
  }

  ghost predicate Written(cfg: Config, ch: Channels, p: Progress, i: nat, off: int)
    requires i < DMA_CHANNELS
  {
    Active(ch[i]) && Off(cfg, Target(ch[i])) <= off < Off(cfg, Target(ch[i])) + Span(Stride(ch[i]), p[i])
  }

  /** The state of the transfers that started as `d0`, with the given progress. */
  ghost predicate Underway(cfg: Config, d0: Controller, d: Controller, p: Progress) {
    && (forall i :: 0 <= i < DMA_CHANNELS ==>
          p[i] <= (if Active(d0.ch[i]) then d0.ch[i].cndtr else 0) && d.ch[i] == After(d0.ch[i], p[i]))
    && d.isr == d0.isr + Flags(d0.ch, p)
    && d.pending == d0.pending + Requests(d0.ch, p)
    && Copied(cfg, d0, d.mem, p)
  }

  /** Byte `off` is a copy of the original source byte if some channel has written it, and
      the original byte otherwise. */
  ghost predicate ByteCopied(cfg: Config, d0: Controller, mem: Mem, p: Progress, off: nat)
    requires off < MEM_SIZE
  {
    && (forall i :: 0 <= i < DMA_CHANNELS && Written(cfg, d0.ch, p, i, off) ==>
          var from := off - Off(cfg, Target(d0.ch[i])) + Off(cfg, Source(d0.ch[i]));
          0 <= from < MEM_SIZE && mem[off] == d0.mem[from])
    && ((forall i :: 0 <= i < DMA_CHANNELS ==> !Written(cfg, d0.ch, p, i, off)) ==> mem[off] == d0.mem[off])
  }

  ghost predicate Copied(cfg: Config, d0: Controller, mem: Mem, p: Progress) {
    forall off :: 0 <= off < MEM_SIZE ==> ByteCopied(cfg, d0, mem, p, off)
  }

  // ---------------------------------------------------------------- one transfer

  lemma SpanNext(s: nat, k: nat)
    requires s <= 4
    ensures Span(s, k + 1) == s * k + 4
    ensures Span(s, k) >= s * k && (k > 0 ==> Span(s, k) == s * k + 4 - s)
  {
    Distribute(k, -1, s);
  }

  lemma SpanGrows(s: nat, k: nat, n: nat)
    requires k <= n
    ensures Span(s, k) <= Span(s, n)
    ensures k < n ==> s * k + 4 <= Span(s, n)
  {
    MulMono(k, n, s);
    if k > 0 {
      MulMono(k - 1, n - 1, s);
    }
    if k < n {
      MulMono(k, n - 1, s);
    }
  }

  lemma AfterNext(c: Channel, k: nat)
    requires k < c.cndtr
    ensures var a := After(c, k);
      a.cndtr == c.cndtr - k && Advanced(a) == After(c, k + 1) && a.ccr == c.ccr
  {
    hide Plus, SizeOf;
    var m, p := Msize(c), Psize(c);
    Distribute(k, 1, m);
    Distribute(k, 1, p);
    if k == 0 {
    } else {
      PlusPlus(c.cmar, m * k, m);
      PlusPlus(c.cpar, p * k, p);
    }
  }

  /** One transfer of channel `c` after `k`: four bytes go from source to target. */
  lemma TransferMoves(cfg: Config, dev: Device, mem: Mem, c: Channel, k: nat)
    requires SoundMap(cfg) && k < c.cndtr && Minc(c) && Pinc(c) && Msize(c) == Psize(c) <= 4
    requires InSram(cfg, Source(c), Span(Stride(c), c.cndtr)) && InSram(cfg, Target(c), Span(Stride(c), c.cndtr))
    ensures var f, o := Off(cfg, Source(c)) + Stride(c) * k, Off(cfg, Target(c)) + Stride(c) * k;
      && 0 <= f && f + 4 <= MEM_SIZE && 0 <= o && o + 4 <= MEM_SIZE
      && Moved(cfg, dev, mem, After(c, k)) == Splice(mem, o, mem[f..f + 4])
  {
    hide Read, Write, Splice, Stride, SoundMap, Plus, Span, After, Minc, Pinc, Source, Target, Load, Store;
    var s := Stride(c);
    SpanGrows(s, k, c.cndtr);
    MulMono(0, k, s);
    MapFits(cfg);
    AfterAddresses(c, k);
    var d := s * k;
    PlusFits(Source(c), d);
    PlusFits(Target(c), d);
    WordMoves(cfg, dev, mem, Source(c) + d, Target(c) + d);
  }

  /** A word read in SRAM and written in SRAM moves four bytes. */
  lemma WordMoves(cfg: Config, dev: Device, mem: Mem, a: word, b: word)
    requires SoundMap(cfg) && InSram(cfg, a, 4) && InSram(cfg, b, 4)
    ensures 0 <= Off(cfg, a) && Off(cfg, a) + 4 <= MEM_SIZE && 0 <= Off(cfg, b) && Off(cfg, b) + 4 <= MEM_SIZE
    ensures Write(cfg, mem, dev, b, 4, Read(cfg, mem, dev, a, 4))
        == Splice(mem, Off(cfg, b), mem[Off(cfg, a)..Off(cfg, a) + 4])
  {
    hide Read, Write, Splice, SoundMap;
    MapFits(cfg);
    SramAccess(cfg, mem, dev, a, 4, 0);
    SramAccess(cfg, mem, dev, b, 4, Read(cfg, mem, dev, a, 4));
    BytesOfValue(mem[Off(cfg, a)..Off(cfg, a) + 4]);
  }

  lemma MapFits(cfg: Config)
    requires SoundMap(cfg)
    ensures cfg.sramBase + cfg.sramSize < 0x1_0000_0000 && SRAM_OFFSET + cfg.sramSize <= MEM_SIZE
  {
  }

  lemma AfterAddresses(c: Channel, k: nat)
    requires k <= c.cndtr && Minc(c) && Pinc(c) && Msize(c) == Psize(c)
    ensures var a := After(c, k);
      && Source(a) == Plus(Source(c), Stride(c) * k) && Target(a) == Plus(Target(c), Stride(c) * k)
      && FromMemory(a) == FromMemory(c)
  {
    hide SizeOf;
    if k == 0 {
      assert Stride(c) * k == 0;
      PlusFits(Source(c), 0);
      PlusFits(Target(c), 0);
    }
  }

  /** A word inside one block does not lie in what another, disjoint block has covered. */
  lemma WordApart(block: int, n: nat, d: int, other: int, m: nat, covered: int, off: int)
    requires Disjoint(other, m, block, n) && 0 <= d && d + 4 <= n && covered <= m
    requires block + d <= off < block + d + 4
    ensures !(other <= off < other + covered)
  {
  }

  /** No target block touches the bytes a transfer is about to read, and only its own has
      been where it is about to write. */
  lemma SourceIsUntouched(cfg: Config, ch: Channels, p: Progress, i: nat, j: nat, off: int)
    requires BlockCopies(cfg, ch) && i < DMA_CHANNELS && j < DMA_CHANNELS && Active(ch[i]) && p[i] < ch[i].cndtr
    requires Active(ch[j]) ==> p[j] <= ch[j].cndtr
    requires var f := Off(cfg, Source(ch[i])) + Stride(ch[i]) * p[i]; f <= off < f + 4
    ensures !Written(cfg, ch, p, j, off)
  {
    hide BlockCopies, Active, Stride, Span, Source, Target, Disjoint;
    if Active(ch[j]) {
      BlocksApart(cfg, ch, i, j);
      Covering(ch[i], p[i], ch[j], p[j]);
      WordApart(Source(ch[i]), Span(Stride(ch[i]), ch[i].cndtr), Stride(ch[i]) * p[i],
                Target(ch[j]), Span(Stride(ch[j]), ch[j].cndtr), Span(Stride(ch[j]), p[j]),
                off - SRAM_OFFSET + cfg.sramBase);
    }
  }

  lemma TargetIsOwn(cfg: Config, ch: Channels, p: Progress, i: nat, j: nat, off: int)
    requires BlockCopies(cfg, ch) && i < DMA_CHANNELS && j < DMA_CHANNELS && i != j && Active(ch[i])
        && p[i] < ch[i].cndtr
    requires Active(ch[j]) ==> p[j] <= ch[j].cndtr
    requires var o := Off(cfg, Target(ch[i])) + Stride(ch[i]) * p[i]; o <= off < o + 4
    ensures !Written(cfg, ch, p, j, off)
  {
    hide BlockCopies, Active, Stride, Span, Source, Target, Disjoint;
    if Active(ch[j]) {
      BlocksApart(cfg, ch, i, j);
      Covering(ch[i], p[i], ch[j], p[j]);
      WordApart(Target(ch[i]), Span(Stride(ch[i]), ch[i].cndtr), Stride(ch[i]) * p[i],
                Target(ch[j]), Span(Stride(ch[j]), ch[j].cndtr), Span(Stride(ch[j]), p[j]),
                off - SRAM_OFFSET + cfg.sramBase);
    }
  }

  /** The next word of one channel and the words behind another, within their blocks. */
  lemma Covering(c: Channel, k: nat, other: Channel, l: nat)
    requires k < c.cndtr && l <= other.cndtr
    ensures 0 <= Stride(c) * k && Stride(c) * k + 4 <= Span(Stride(c), c.cndtr)
    ensures Span(Stride(other), l) <= Span(Stride(other), other.cndtr)
  {
    hide Stride, Span;
    SpanGrows(Stride(c), k, c.cndtr);
    SpanGrows(Stride(other), l, other.cndtr);
    MulMono(0, k, Stride(c));
  }

  lemma BlocksApart(cfg: Config, ch: Channels, i: nat, j: nat)
    requires BlockCopies(cfg, ch) && i < DMA_CHANNELS && j < DMA_CHANNELS && Active(ch[i]) && Active(ch[j])
    ensures Disjoint(Target(ch[j]), Span(Stride(ch[j]), ch[j].cndtr), Source(ch[i]), Span(Stride(ch[i]), ch[i].cndtr))
    ensures i != j ==>
      Disjoint(Target(ch[j]), Span(Stride(ch[j]), ch[j].cndtr), Target(ch[i]), Span(Stride(ch[i]), ch[i].cndtr))
  {
    hide Active, Stride, Span, Source, Target, Disjoint, SoundMap;
  }

  /** The bytes written once channel `i` has made one more transfer. */
  lemma WrittenNext(cfg: Config, ch: Channels, p: Progress, i: nat, j: nat, off: int)
    requires i < DMA_CHANNELS && j < DMA_CHANNELS && Active(ch[i]) && Stride(ch[i]) <= 4
    ensures var o := Off(cfg, Target(ch[i])) + Stride(ch[i]) * p[i];
      Written(cfg, ch, p[i := p[i] + 1], j, off) <==> Written(cfg, ch, p, j, off) || (j == i && o <= off < o + 4)
  {
    hide SizeOf;
    SpanNext(Stride(ch[i]), p[i]);
    MulMono(0, p[i], Stride(ch[i]));
  }

  lemma CopiedNext(cfg: Config, d0: Controller, mem: Mem, p: Progress, i: nat)
    requires BlockCopies(cfg, d0.ch) && i < DMA_CHANNELS && Active(d0.ch[i]) && p[i] < d0.ch[i].cndtr
    requires forall j :: 0 <= j < DMA_CHANNELS && Active(d0.ch[j]) ==> p[j] <= d0.ch[j].cndtr
    requires Copied(cfg, d0, mem, p)
    requires var c := d0.ch[i];
      var f, o := Off(cfg, Source(c)) + Stride(c) * p[i], Off(cfg, Target(c)) + Stride(c) * p[i];
      0 <= f && f + 4 <= MEM_SIZE && 0 <= o && o + 4 <= MEM_SIZE
    ensures var c := d0.ch[i];
      var f, o := Off(cfg, Source(c)) + Stride(c) * p[i], Off(cfg, Target(c)) + Stride(c) * p[i];
      Copied(cfg, d0, Splice(mem, o, mem[f..f + 4]), p[i := p[i] + 1])
  {
    hide ByteCopied, BlockCopies, Active, Stride, SizeOf, Splice, Source, Target;
    var c, p' := d0.ch[i], p[i := p[i] + 1];
    var f, o := Off(cfg, Source(c)) + Stride(c) * p[i], Off(cfg, Target(c)) + Stride(c) * p[i];
    var mem' := Splice(mem, o, mem[f..f + 4]);
    forall off | 0 <= off < MEM_SIZE ensures ByteCopied(cfg, d0, mem', p', off) {
      SplicedByte(mem, o, f, off);
      ByteNext(cfg, d0, mem, mem', p, i, off);
    }
  }

  lemma ByteNext(cfg: Config, d0: Controller, mem: Mem, mem': Mem, p: Progress, i: nat, off: nat)
    requires BlockCopies(cfg, d0.ch) && i < DMA_CHANNELS && Active(d0.ch[i]) && p[i] < d0.ch[i].cndtr && off < MEM_SIZE
    requires forall j :: 0 <= j < DMA_CHANNELS && Active(d0.ch[j]) ==> p[j] <= d0.ch[j].cndtr
    requires Copied(cfg, d0, mem, p)
    requires var c := d0.ch[i];
      var f, o := Off(cfg, Source(c)) + Stride(c) * p[i], Off(cfg, Target(c)) + Stride(c) * p[i];
      && 0 <= f && f + 4 <= MEM_SIZE
      && mem'[off] == if o <= off < o + 4 then mem[off - o + f] else mem[off]
    ensures ByteCopied(cfg, d0, mem', p[i := p[i] + 1], off)
  {
    hide ByteCopied, BlockCopies, Active, Stride, SizeOf, Source, Target, Copied;
    var c := d0.ch[i];
    var d := Stride(c) * p[i];
    var f, o := Off(cfg, Source(c)) + d, Off(cfg, Target(c)) + d;
    if o <= off < o + 4 {
      TransferReadsOriginal(cfg, d0, mem, p, i, off - o + f);
      TransferredByte(cfg, d0, mem', p, i, off);
    } else {
      assert ByteCopied(cfg, d0, mem, p, off) by { CopiedAt(cfg, d0, mem, p, off); }
      OtherByte(cfg, d0, mem, mem', p, i, off);
    }
  }

  lemma CopiedAt(cfg: Config, d0: Controller, mem: Mem, p: Progress, off: nat)
    requires Copied(cfg, d0, mem, p) && off < MEM_SIZE
    ensures ByteCopied(cfg, d0, mem, p, off)
  {
    hide ByteCopied;
  }

  lemma TransferredByte(cfg: Config, d0: Controller, mem: Mem, p: Progress, i: nat, off: nat)
    requires BlockCopies(cfg, d0.ch) && i < DMA_CHANNELS && Active(d0.ch[i]) && p[i] < d0.ch[i].cndtr && off < MEM_SIZE
    requires forall j :: 0 <= j < DMA_CHANNELS && Active(d0.ch[j]) ==> p[j] <= d0.ch[j].cndtr
    requires var o := Off(cfg, Target(d0.ch[i])) + Stride(d0.ch[i]) * p[i]; o <= off < o + 4
    requires var from := off - Off(cfg, Target(d0.ch[i])) + Off(cfg, Source(d0.ch[i]));
      0 <= from < MEM_SIZE && mem[off] == d0.mem[from]
    ensures ByteCopied(cfg, d0, mem, p[i := p[i] + 1], off)
  {
    hide Written, BlockCopies, Active, Stride, SizeOf, Source, Target;
    StrideFits(cfg, d0.ch, i);
    WrittenNext(cfg, d0.ch, p, i, i, off);
    var p' := p[i := p[i] + 1];
    forall j | 0 <= j < DMA_CHANNELS && j != i ensures !Written(cfg, d0.ch, p', j, off) {
      WrittenNext(cfg, d0.ch, p, i, j, off);
      TargetIsOwn(cfg, d0.ch, p, i, j, off);
    }
  }

  lemma OtherByte(cfg: Config, d0: Controller, mem: Mem, mem': Mem, p: Progress, i: nat, off: nat)
    requires BlockCopies(cfg, d0.ch) && i < DMA_CHANNELS && Active(d0.ch[i]) && off < MEM_SIZE
    requires var o := Off(cfg, Target(d0.ch[i])) + Stride(d0.ch[i]) * p[i]; !(o <= off < o + 4)
    requires ByteCopied(cfg, d0, mem, p, off) && mem'[off] == mem[off]
    ensures ByteCopied(cfg, d0, mem', p[i := p[i] + 1], off)
  {
    hide Written, BlockCopies, Active, Stride, SizeOf, Source, Target;
    StrideFits(cfg, d0.ch, i);
    forall j | 0 <= j < DMA_CHANNELS
      ensures Written(cfg, d0.ch, p[i := p[i] + 1], j, off) == Written(cfg, d0.ch, p, j, off)
    {
      WrittenNext(cfg, d0.ch, p, i, j, off);
    }
  }

  lemma SplicedByte(mem: Mem, o: nat, f: nat, off: nat)
    requires o + 4 <= MEM_SIZE && f + 4 <= MEM_SIZE && off < MEM_SIZE
    ensures Splice(mem, o, mem[f..f + 4])[off] == if o <= off < o + 4 then mem[off - o + f] else mem[off]
  {
  }

  lemma StrideFits(cfg: Config, ch: Channels, i: nat)
    requires BlockCopies(cfg, ch) && i < DMA_CHANNELS && Active(ch[i])
    ensures Stride(ch[i]) <= 4
  {
    hide SoundMap, SizeOf;
  }

  lemma TransferReadsOriginal(cfg: Config, d0: Controller, mem: Mem, p: Progress, i: nat, from: int)
    requires BlockCopies(cfg, d0.ch) && i < DMA_CHANNELS && Active(d0.ch[i]) && p[i] < d0.ch[i].cndtr
    requires forall j :: 0 <= j < DMA_CHANNELS && Active(d0.ch[j]) ==> p[j] <= d0.ch[j].cndtr
    requires Copied(cfg, d0, mem, p) && 0 <= from < MEM_SIZE
    requires var f := Off(cfg, Source(d0.ch[i])) + Stride(d0.ch[i]) * p[i]; f <= from < f + 4
    ensures mem[from] == d0.mem[from]
  {
    hide Written, BlockCopies, Active, Stride, SizeOf;
    assert ByteCopied(cfg, d0, mem, p, from);
    forall j | 0 <= j < DMA_CHANNELS ensures !Written(cfg, d0.ch, p, j, from) {
      SourceIsUntouched(cfg, d0.ch, p, i, j, from);
    }
  }

  lemma FlagsNext(ch: Channels, p: Progress, i: nat)
    requires i < DMA_CHANNELS && Active(ch[i]) && p[i] < ch[i].cndtr
    ensures var p' := p[i := p[i] + 1];
      var last := p[i] + 1 == ch[i].cndtr;
      && Flags(ch, p') == Flags(ch, p) + (if last then {4 * i + 1} else {})
      && Requests(ch, p') == Requests(ch, p) + (if last && InterruptOnComplete(ch[i]) then {Irq(i)} else {})
  {
    hide Active, Irq;
    var p' := p[i := p[i] + 1];
    forall j | 0 <= j < DMA_CHANNELS && j != i ensures Done(ch[j], p'[j]) == Done(ch[j], p[j]) {
    }
    assert Done(ch[i], p'[i]) <==> p[i] + 1 == ch[i].cndtr;
    assert !Done(ch[i], p[i]);
  }

  /** The progress of channel `i` after its turn. */
  function Next(ch: Channels, p: Progress, i: nat): Progress
    requires i < DMA_CHANNELS
  {
    if Active(ch[i]) && p[i] < ch[i].cndtr then p[i := p[i] + 1] else p
  }

  lemma ChannelStep(cfg: Config, dev: Device, d0: Controller, d: Controller, p: Progress, i: nat)
    requires BlockCopies(cfg, d0.ch) && Underway(cfg, d0, d, p) && i < DMA_CHANNELS
    ensures Underway(cfg, d0, TickChannel(cfg, dev, d, i), Next(d0.ch, p, i))
  {
    hide Moved, Copied, WrittenBack, After, Flags, Requests, SoundMap, SizeOf, Splice, Irq, Span, Transferred;
    var c, k := d0.ch[i], p[i];
    if Active(c) && k < c.cndtr {
      AfterNext(c, k);
      FlagsNext(d0.ch, p, i);
      TransferInSram(cfg, dev, d, c, k);
      TransferMoves(cfg, Answers(d.ch, d.isr, dev), d.mem, c, k);
      CopiedNext(cfg, d0, d.mem, p, i);
    } else {
      FinishedStays(c, k);
    }
  }

  /** A transfer into SRAM is a store to memory and nothing else. */
  lemma TransferInSram(cfg: Config, dev: Device, d: Controller, c: Channel, k: nat)
    requires SoundMap(cfg) && k < c.cndtr && Minc(c) && Pinc(c) && Msize(c) == Psize(c) <= 4
    requires InSram(cfg, Target(c), Span(Stride(c), c.cndtr))
    ensures Transferred(cfg, dev, d, After(c, k))
         == d.(mem := Moved(cfg, Answers(d.ch, d.isr, dev), d.mem, After(c, k)))
  {
    hide Moved, Read, Answers, SizeOf, SoundMap, Plus, Span, PeriphReads, WithBit;
    var s := Stride(c);
    SpanGrows(s, k, c.cndtr);
    MulMono(0, k, s);
    MapFits(cfg);
    AfterAddresses(c, k);
    PlusFits(Target(c), s * k);
    SramIsNoRegister(cfg, Target(c) + s * k);
  }

  lemma SramIsNoRegister(cfg: Config, a: word)
    requires SoundMap(cfg) && InSram(cfg, a, 4)
    ensures !IsBitband(a) && !InDma(a) && a != Cpu.ISPR && a != Cpu.ICPR
  {
    hide PeriphReads;
    assert PlainAddr(cfg, a);
    WindowsOfInterest(a);
  }

  lemma WindowsOfInterest(a: word)
    ensures InDma(a) || a == Cpu.ISPR || a == Cpu.ICPR ==> PeriphReads(a)
  {
    if InDma(a) {
      assert PERIPH_WINDOWS[5] == (0x4002_0000, 0x4002_0400);
      InOneWindow(a, PERIPH_WINDOWS, 5);
    }
  }

  lemma {:induction false} InOneWindow(x: int, ws: Windows, k: nat)
    requires k < |ws| && ws[k].0 <= x < ws[k].1
    ensures InWindows(x, ws)
    decreases k
  {
    if k > 0 {
      InOneWindow(x, ws[1..], k - 1);
    }
  }

  lemma FinishedStays(c: Channel, k: nat)
    requires k == if Active(c) then c.cndtr else 0
    ensures !Enabled(After(c, k)) || After(c, k).cndtr == 0
  {
  }

  // ---------------------------------------------------------------- whole copies

  /** Progress after `n` ticks of a controller whose channels before `i` have had one more. */
  function ProgressAt(ch: Channels, n: nat, i: nat): Progress {
    seq(DMA_CHANNELS, j requires 0 <= j < DMA_CHANNELS =>
      var k := if j < i then n + 1 else n;
      if !Active(ch[j]) then 0 else if k < ch[j].cndtr then k else ch[j].cndtr)
  }

  lemma NextProgress(ch: Channels, n: nat, i: nat)
    requires i < DMA_CHANNELS
    ensures Next(ch, ProgressAt(ch, n, i), i) == ProgressAt(ch, n, i + 1)
  {
    hide Active;
  }

  lemma {:induction false} TickFromStep(cfg: Config, dev: Device, d0: Controller, d: Controller, n: nat, i: nat)
    requires BlockCopies(cfg, d0.ch) && i <= DMA_CHANNELS && Underway(cfg, d0, d, ProgressAt(d0.ch, n, i))
    ensures Underway(cfg, d0, TickFrom(cfg, dev, d, i), ProgressAt(d0.ch, n, DMA_CHANNELS))
    decreases DMA_CHANNELS - i
  {
    hide Underway, BlockCopies, TickChannel, ProgressAt, Next;
    if i < DMA_CHANNELS {
      ChannelStep(cfg, dev, d0, d, ProgressAt(d0.ch, n, i), i);
      NextProgress(d0.ch, n, i);
      TickFromStep(cfg, dev, d0, TickChannel(cfg, dev, d, i), n, i + 1);
    }
  }

  lemma {:induction false} TicksUnderway(cfg: Config, devs: nat -> Device, d0: Controller, n: nat)
    requires BlockCopies(cfg, d0.ch)
    ensures Underway(cfg, d0, Ticks(cfg, devs, d0, n), ProgressAt(d0.ch, n, 0))
    decreases n
  {
    hide Underway, BlockCopies, TickFrom, ProgressAt;
    if n == 0 {
      NothingYet(cfg, d0);
    } else {
      TicksUnderway(cfg, devs, d0, n - 1);
      TickFromStep(cfg, devs(n - 1), d0, Ticks(cfg, devs, d0, n - 1), n - 1, 0);
      RoundDone(d0.ch, n - 1);
    }
  }

  lemma RoundDone(ch: Channels, n: nat)
    ensures ProgressAt(ch, n, DMA_CHANNELS) == ProgressAt(ch, n + 1, 0)
  {
    hide Active;
  }

  lemma NothingYet(cfg: Config, d0: Controller)
    ensures Underway(cfg, d0, d0, ProgressAt(d0.ch, 0, 0))
  {
    hide SizeOf, Stride;
    var p := ProgressAt(d0.ch, 0, 0);
    assert Flags(d0.ch, p) == {};
    assert Requests(d0.ch, p) == {};
  }

  /** After `n` calls of `emu_dma_tick`, whatever the other channels do in between: every
      active channel has `n` transfers behind it, or all of them; CNDTR counts down to 0 and
      stays there; its transfer-complete flag and interrupt request appear exactly with the
      last transfer; the bytes covered so far equal the source block as it was at the start;
      and no other byte of memory has changed. */
  lemma BlockCopy(cfg: Config, devs: nat -> Device, d0: Controller, n: nat)
    requires BlockCopies(cfg, d0.ch)
    ensures var d := Ticks(cfg, devs, d0, n);
      var p := ProgressAt(d0.ch, n, 0);
      && (forall i :: 0 <= i < DMA_CHANNELS ==>
            && d.ch[i].cndtr == (if !Active(d0.ch[i]) then d0.ch[i].cndtr
                else if n < d0.ch[i].cndtr then d0.ch[i].cndtr - n else 0)
            && (4 * i + 1 in d.isr <==> 4 * i + 1 in d0.isr || (Active(d0.ch[i]) && n >= d0.ch[i].cndtr)))
      && d.pending == d0.pending + Requests(d0.ch, p)
      && Copied(cfg, d0, d.mem, p)
  {
    hide Copied, BlockCopies, Ticks, Requests, SizeOf, Stride, Flags;
    TicksUnderway(cfg, devs, d0, n);
    var p := ProgressAt(d0.ch, n, 0);
    FlagsMeanDone(d0.ch, p);
  }

  lemma FlagsMeanDone(ch: Channels, p: Progress)
    ensures forall i :: 0 <= i < DMA_CHANNELS ==> (4 * i + 1 in Flags(ch, p) <==> Done(ch[i], p[i]))
  {
    hide Done;
  }

  /** Once every CNDTR is 0 each whole block has arrived. */
  lemma FinishedCopy(cfg: Config, devs: nat -> Device, d0: Controller, n: nat, i: nat, x: nat)
    requires BlockCopies(cfg, d0.ch) && i < DMA_CHANNELS && Active(d0.ch[i])
    requires Ticks(cfg, devs, d0, n).ch[i].cndtr == 0 && x < Span(Stride(d0.ch[i]), d0.ch[i].cndtr)
    ensures var f, o := Off(cfg, Source(d0.ch[i])) + x, Off(cfg, Target(d0.ch[i])) + x;
      0 <= f < MEM_SIZE && 0 <= o < MEM_SIZE && Ticks(cfg, devs, d0, n).mem[o] == d0.mem[f]
  {
    hide Ticks, SizeOf, Requests, Span;
    BlockCopy(cfg, devs, d0, n);
    var o := Off(cfg, Target(d0.ch[i])) + x;
    BlockOffsets(cfg, d0.ch, i, x);
    var mem := Ticks(cfg, devs, d0, n).mem;
    assert ByteCopied(cfg, d0, mem, ProgressAt(d0.ch, n, 0), o);
    assert Written(cfg, d0.ch, ProgressAt(d0.ch, n, 0), i, o);
  }

  lemma BlockOffsets(cfg: Config, ch: Channels, i: nat, x: nat)
    requires BlockCopies(cfg, ch) && i < DMA_CHANNELS && Active(ch[i]) && x < Span(Stride(ch[i]), ch[i].cndtr)
    ensures 0 <= Off(cfg, Target(ch[i])) + x < MEM_SIZE
  {
    hide SizeOf, Span;
    MapFits(cfg);
  }

  // ---------------------------------------------------------------- any configuration

  /** Channel `c` after its turn. */
  function Turned(c: Channel): Channel {
    if Active(c) then Advanced(c) else c
  }

  /** The flags of the channels, from `i` on, that make their last transfer now. */
  function Completing(ch: Channels, i: nat): Mask {
    set j | i <= j < DMA_CHANNELS && Active(ch[j]) && ch[j].cndtr == 1 :: 4 * j + 1
  }

  /** No channel from `i` on disturbs the transfers on its next turn. */
  predicate QuietFrom(ch: Channels, i: nat) {
    forall j :: i <= j < DMA_CHANNELS && Active(ch[j]) ==> !Disturbs(j, Target(ch[j]))
  }

  lemma {:induction false} TickFromTurns(cfg: Config, dev: Device, d: Controller, i: nat)
    requires i <= DMA_CHANNELS && QuietFrom(d.ch, i)
    ensures var e := TickFrom(cfg, dev, d, i);
      && (forall j :: 0 <= j < DMA_CHANNELS ==> e.ch[j] == if j < i then d.ch[j] else Turned(d.ch[j]))
      && e.isr == d.isr + Completing(d.ch, i)
    decreases DMA_CHANNELS - i
  {
    hide Transferred, WrittenBack, Enabled, InterruptOnComplete, Irq, Completing, Disturbs, Target;
    if i == DMA_CHANNELS {
      NoneCompleting(d.ch);
    } else {
      var d' := TickChannel(cfg, dev, d, i);
      if Active(d.ch[i]) {
        QuietTransfer(cfg, dev, d, i);
      }
      TickFromTurns(cfg, dev, d', i + 1);
      CompletingNext(d.ch, d'.ch, i);
    }
  }

  lemma NoneCompleting(ch: Channels)
    ensures Completing(ch, DMA_CHANNELS) == {}
  {
  }

  lemma CompletingNext(ch: Channels, ch': Channels, i: nat)
    requires i < DMA_CHANNELS && forall j :: i < j < DMA_CHANNELS ==> ch'[j] == ch[j]
    ensures Completing(ch, i)
         == (if Active(ch[i]) && ch[i].cndtr == 1 then {4 * i + 1} else {}) + Completing(ch', i + 1)
  {
    hide Active;
  }

  lemma CompletingFlag(ch: Channels, j: nat)
    requires j < DMA_CHANNELS
    ensures 4 * j + 1 in Completing(ch, 0) <==> Active(ch[j]) && ch[j].cndtr == 1
  {
    hide Active;
  }

  /** No transfer among the next `n` of any channel can disturb the transfers or ask for a
      reset. */
  predicate LeavesControllerAlone(ch: Channels, n: nat) {
    forall i, k :: 0 <= i < DMA_CHANNELS && Active(ch[i]) && 0 <= k < n && k < ch[i].cndtr ==>
      !Disturbs(i, Target(After(ch[i], k))) && !MayReset(Target(After(ch[i], k)))
  }

  function Least(a: nat, b: nat): nat {
    if a < b then a else b
  }

  /** Channel `c` after `n` ticks. */
  function Counted(c: Channel, n: nat): Channel {
    if Active(c) then After(c, Least(n, c.cndtr)) else c
  }

  /** Whatever the channels are set to, as long as no transfer disturbs them: each channel
      counts down to 0 and stops, never wrapping, and its transfer-complete flag appears with
      its last transfer and not before. */
  lemma {:induction false} CountsDown(cfg: Config, devs: nat -> Device, d0: Controller, n: nat)
    requires LeavesControllerAlone(d0.ch, n)
    ensures var d := Ticks(cfg, devs, d0, n);
      forall j :: 0 <= j < DMA_CHANNELS ==>
        && d.ch[j] == Counted(d0.ch[j], n)
        && (4 * j + 1 in d.isr <==> 4 * j + 1 in d0.isr || (Active(d0.ch[j]) && d0.ch[j].cndtr <= n))
    decreases n
  {
    hide TickFrom, Completing, Counted, Disturbs, MayReset, After, Target, Active;
    if n == 0 {
      forall j | 0 <= j < DMA_CHANNELS
        ensures d0.ch[j] == Counted(d0.ch[j], 0) && !(Active(d0.ch[j]) && d0.ch[j].cndtr <= 0)
      {
        NotCounted(d0.ch[j]);
      }
    } else {
      CountsDown(cfg, devs, d0, n - 1);
      var d := Ticks(cfg, devs, d0, n - 1);
      assert QuietFrom(d.ch, 0) by { StillQuiet(d0.ch, d.ch, n); }
      TickFromTurns(cfg, devs(n - 1), d, 0);
      forall j | 0 <= j < DMA_CHANNELS
        ensures Turned(d.ch[j]) == Counted(d0.ch[j], n)
        ensures 4 * j + 1 in Completing(d.ch, 0) <==> Active(d0.ch[j]) && d0.ch[j].cndtr == n
      {
        CompletingFlag(d.ch, j);
        CountedNext(d0.ch[j], n - 1);
      }
    }
  }

  lemma NotCounted(c: Channel)
    ensures Counted(c, 0) == c && !(Active(c) && c.cndtr <= 0)
  {
  }

  lemma CountedNext(c: Channel, n: nat)
    ensures Turned(Counted(c, n)) == Counted(c, n + 1)
    ensures Active(Counted(c, n)) && Counted(c, n).cndtr == 1 <==> Active(c) && c.cndtr == n + 1
    ensures Active(Counted(c, n)) ==> Active(c) && n < c.cndtr && Counted(c, n) == After(c, n)
  {
    hide WrittenBack, Minc, Pinc, Msize, Psize, Plus;
    if Active(c) && n < c.cndtr {
      AfterNext(c, n);
    }
  }

  lemma StillQuiet(ch: Channels, now: Channels, n: nat)
    requires n > 0 && LeavesControllerAlone(ch, n)
    requires forall j :: 0 <= j < DMA_CHANNELS ==> now[j] == Counted(ch[j], n - 1)
    ensures QuietFrom(now, 0)
  {
    hide Counted, Disturbs, MayReset, After, Target, Active;
    forall j | 0 <= j < DMA_CHANNELS && Active(now[j]) ensures !Disturbs(j, Target(now[j])) {
      CountedNext(ch[j], n - 1);
    }
  }

  /** A flag that software cleared, by a write to the clear register, comes back exactly when
      a transfer block that was still running then completes. */
  lemma ClearedFlagMeansNewCompletion(cfg: Config, devs: nat -> Device, d0: Controller, val: word, n: nat, j: nat)
    requires j < DMA_CHANNELS && 4 * j + 1 in Cpu.BitsOf(val) && LeavesControllerAlone(d0.ch, n)
    ensures var d := RegisterStore(d0, DMA_BASE + 4, val);
      4 * j + 1 in Ticks(cfg, devs, d, n).isr <==> Active(d0.ch[j]) && d0.ch[j].cndtr <= n
  {
    hide Ticks, Cpu.BitsOf;
    CountsDown(cfg, devs, RegisterStore(d0, DMA_BASE + 4, val), n);
  }

  // ---------------------------------------------------------------- which targets disturb

  /** A turn of channel `i` aimed at `a` counts down and completes as it should, whatever the
      memory, the device answers, the flags and the channels hold. */
  ghost predicate TargetIsQuiet(i: nat, a: word)
    requires i < DMA_CHANNELS
  {
    forall cfg: Config, dev: Device, d: Controller :: Active(d.ch[i]) && Target(d.ch[i]) == a ==>
      TurnIsQuiet(cfg, dev, d, i)
  }

  ghost predicate TurnIsQuiet(cfg: Config, dev: Device, d: Controller, i: nat)
    requires i < DMA_CHANNELS && Active(d.ch[i])
  {
    var e := TickChannel(cfg, dev, d, i);
    && e.ch == d.ch[i := Advanced(d.ch[i])]
    && e.isr == d.isr + if d.ch[i].cndtr == 1 then {4 * i + 1} else {}
  }

  /** Resets apart, the targets that can disturb the transfers are exactly those named by
      `Disturbs`. */
  lemma QuietTargetsExactly(i: nat, a: word)
    requires i < DMA_CHANNELS && !MayReset(a)
    ensures TargetIsQuiet(i, a) <==> !Disturbs(i, a)
  {
    hide Transferred, WrittenBack, Disturbs, TickChannel, Active, Target;
    if Disturbs(i, a) {
      var cfg, dev, d := Disturbance(i, a);
      assert !TurnIsQuiet(cfg, dev, d, i);
    } else {
      forall cfg: Config, dev: Device, d: Controller | Active(d.ch[i]) && Target(d.ch[i]) == a
        ensures TurnIsQuiet(cfg, dev, d, i)
      {
        QuietTurn(cfg, dev, d, i);
      }
    }
  }

  lemma QuietTurn(cfg: Config, dev: Device, d: Controller, i: nat)
    requires i < DMA_CHANNELS && Active(d.ch[i]) && !Disturbs(i, Target(d.ch[i]))
    ensures TurnIsQuiet(cfg, dev, d, i)
  {
    hide Transferred, WrittenBack, Disturbs, Target;
    QuietTransfer(cfg, dev, d, i);
  }

  /** A word whose reads a device answers: the flash size of the identification area. */
  const SIZE_WORD: word := 0x1FFF_F7E0

  /** A bit that a store of 1 to `a` leaves set. */
  function BitAt(a: word): (k: nat)
    ensures k < 32
  {
    if IsBitband(a) then BitbandBit(a) else 0
  }

  /** Channel `i` two transfers from its end, moving what the device answers to `a`; one flag
      is up, and the other channels are clear. */
  function Aimed(i: nat, a: word): (d: Controller)
    requires i < DMA_CHANNELS
    ensures d.ch[i] == Channel(17, 2, a, SIZE_WORD)
    ensures forall k :: 0 <= k < DMA_CHANNELS && k != i ==> d.ch[k] == Channel(0, 0, 0, 0)
    ensures BitAt(a) in d.isr
  {
    Controller(seq(DMA_CHANNELS, k => if k == i then Channel(17, 2, a, SIZE_WORD) else Channel(0, 0, 0, 0)),
               {BitAt(a)}, {}, seq(MEM_SIZE, _ => 0))
  }

  lemma AnsweredElsewhere(ch: Channels, isr: Mask, dev: Device, a: word)
    requires !InDma(a)
    ensures Answers(ch, isr, dev)(a) == dev(a)
  {
  }

  lemma SizeWordRead(cfg: Config, mem: Mem, dev: Device)
    requires dev(SIZE_WORD) < 2
    ensures Read(cfg, mem, dev, SIZE_WORD, 4) == dev(SIZE_WORD)
  {
    hide PeriphWrites;
    assert PeriphReads(SIZE_WORD);
  }

  lemma DmaWindow(w: word)
    requires InDma(w)
    ensures PeriphWrites(w) && !IsBitband(w)
  {
    assert PERIPH_WINDOWS[1..][1..][1..][1..][1..][0] == (0x4002_0000, 0x4002_0400);
    assert InWindows(w, PERIPH_WINDOWS[1..][1..][1..][1..][1..]);
    assert InWindows(w, PERIPH_WINDOWS[1..][1..][1..]);
    assert InWindows(w, PERIPH_WINDOWS[1..]);
  }

  /** What a register of the aimed controller reads as. */
  lemma RegisterRead(cfg: Config, dev: Device, i: nat, a: word)
    requires i < DMA_CHANNELS && Disturbs(i, a)
    ensures var d, w := Aimed(i, a), Reached(a);
      InDma(w) && Read(cfg, d.mem, Answers(d.ch, d.isr, dev), w, 4) == ReadRegister(d.ch, d.isr, w)
  {
    hide PeriphWrites, Aimed, BitbandWord;
    var w := Reached(a);
    DmaWindow(w);
  }

  /** The word that the store leaves differs from what the register holds. */
  lemma OtherWord(cfg: Config, answers: Device, mem: Mem, a: word, r: word, v: word)
    requires IsBitband(a) ==> Read(cfg, mem, answers, BitbandWord(a), 4) == r && v == 1 - BitOf(r, BitbandBit(a))
    requires !IsBitband(a) ==> v == if r == 1 then 0 else 1
    ensures var val := Resolved(cfg, answers, mem, a, v).1;
      val != r && (r == 0 ==> BitOf(val, BitAt(a)) == 1)
  {
    hide WithBit, BitOf, Read, BitbandWord, BitbandBit;
    if IsBitband(a) {
      var k := BitbandBit(a);
      Bitband.WithBitSetsOneBit(r, k, v, k);
      ZeroBit(k);
    } else {
      LowBitOfOne();
    }
  }

  lemma LowBitOfOne()
    ensures BitOf(1, 0) == 1
  {
    assert Pow2(0) == 1;
  }

  lemma RegisterDisturbed(i: nat, a: word, w: word, val: word)
    requires i < DMA_CHANNELS && IsRegister(w) && w != DMA_BASE + 8 + 0x14 * i + 4
    requires var d := Aimed(i, a); val != ReadRegister(d.ch, d.isr, w)
    requires w == DMA_BASE + 4 ==> BitOf(val, BitAt(a)) == 1
    ensures var d := Aimed(i, a);
      var c, e := d.ch[i], RegisterStore(d, w, val);
      e.ch[i := WrittenBack(c, e.ch[i])] != d.ch[i := Advanced(c)] || e.isr != d.isr
  {
    hide Aimed, BitOf, BitAt, Plus, Cpu.WordOf;
    var d := Aimed(i, a);
    var c, e := d.ch[i], RegisterStore(d, w, val);
    if w == DMA_BASE + 4 {
      assert BitAt(a) in Cpu.BitsOf(val);
      assert BitAt(a) in d.isr && BitAt(a) !in e.isr;
    } else {
      hide Cpu.BitsOf;
      var x: nat := w - DMA_BASE - 8;
      var j, off := x / 0x14, x % 0x14;
      DivMod(x, 0x14);
      assert e.ch[i := WrittenBack(c, e.ch[i])][j] != d.ch[i := Advanced(c)][j];
    }
  }

  /** Whatever register the target reaches, some answer of the device changes it. */
  lemma Disturbance(i: nat, a: word) returns (cfg: Config, dev: Device, d: Controller)
    requires i < DMA_CHANNELS && Disturbs(i, a)
    ensures Active(d.ch[i]) && Target(d.ch[i]) == a && !TurnIsQuiet(cfg, dev, d, i)
  {
    hide Aimed, Read, Write, WithBit, BitOf, RegisterStore, WrittenBack, BitbandWord, BitbandBit, BitAt, ReadRegister,
      Answers;
    cfg, d := Config(0, 0, 0, 0), Aimed(i, a);
    var w := Reached(a);
    DmaWindow(w);
    var r := ReadRegister(d.ch, d.isr, w);
    var v: word := if IsBitband(a) then 1 - BitOf(r, BitbandBit(a)) else if r == 1 then 0 else 1;
    dev := _ => v;
    var answers := Answers(d.ch, d.isr, dev);
    AnsweredElsewhere(d.ch, d.isr, dev, SIZE_WORD);
    SizeWordRead(cfg, d.mem, answers);
    RegisterRead(cfg, dev, i, a);
    OtherWord(cfg, answers, d.mem, a, r, v);
    var val := Resolved(cfg, answers, d.mem, a, v).1;
    ClearReadsZero(d.ch, d.isr);
    RegisterDisturbed(i, a, w, val);
    assert Source(d.ch[i]) == SIZE_WORD && Target(d.ch[i]) == a;
    var e := Transferred(cfg, dev, d, d.ch[i]);
    assert e.ch == RegisterStore(d, w, val).ch && e.isr == RegisterStore(d, w, val).isr;
  }

  lemma ClearReadsZero(ch: Channels, isr: Mask)
    ensures ReadRegister(ch, isr, DMA_BASE + 4) == 0
  {
  }

  /** Why the condition is needed: a channel aimed at the flag-clear register clears, with
      every transfer, the flags that the moved word names. */
  lemma TransferClearsFlags(cfg: Config, dev: Device, d: Controller, i: nat)
    requires i < DMA_CHANNELS && Active(d.ch[i]) && FromMemory(d.ch[i]) && d.ch[i].cpar == DMA_BASE + 4
    requires d.ch[i].cndtr > 1
    ensures TickChannel(cfg, dev, d, i).isr
         == d.isr - Cpu.BitsOf(Read(cfg, d.mem, Answers(d.ch, d.isr, dev), d.ch[i].cmar, 4))
  {
    hide Read, Write, Answers, Cpu.BitsOf;
  }

  /** And one aimed at the CNDTR of another channel rewrites that counter. */
  lemma TransferRewritesCounter(cfg: Config, dev: Device, d: Controller, i: nat, k: nat)
    requires i < DMA_CHANNELS && k < DMA_CHANNELS && i != k
    requires Active(d.ch[i]) && FromMemory(d.ch[i]) && d.ch[i].cpar == DMA_BASE + 8 + 0x14 * k + 4
    ensures TickChannel(cfg, dev, d, i).ch[k].cndtr
         == Read(cfg, d.mem, Answers(d.ch, d.isr, dev), d.ch[i].cmar, 4)
  {
    hide Read, Write, Answers;
    DivModUnique(0x14 * k + 4, 0x14, k, 4);
  }

  // ---------------------------------------------------------------- in place

  class DmaController {
    const bus: Bus
    var ch: Channels
    var isr: Mask
    var pending: Mask

    ghost predicate Valid() {
      bus.Valid()
    }

    ghost function View(): Controller
      requires Valid()
      reads this, bus.mem
    {
      Controller(ch, isr, pending, bus.Contents())
    }

    constructor (b: Bus)
      requires b.Valid()
      ensures Valid() && bus == b && ch == seq(DMA_CHANNELS, _ => Channel(0, 0, 0, 0)) && isr == {} && pending == {}
    {
      bus := b;
      ch := seq(DMA_CHANNELS, _ => Channel(0, 0, 0, 0));
      isr, pending := {}, {};
    }

    /** `emu_dma_tick`. */
    method Tick(dev: Device)
      requires Valid()
      modifies this, bus.mem
      ensures View() == TickFrom(bus.cfg, dev, old(View()), 0)
    {
      hide TickChannel;
      for i := 0 to DMA_CHANNELS
        invariant TickFrom(bus.cfg, dev, View(), i) == TickFrom(bus.cfg, dev, old(View()), 0)
      {
        TurnOf(dev, i);
      }
    }

    /** The controller's side of a store. */
    method StoreRegister(a: word, val: word)
      requires Valid()
      modifies this
      ensures View() == RegisterStore(old(View()), a, val)
    {
      hide Cpu.BitsOf;
      if InDma(a) {
        var reg := a - DMA_BASE;
        if reg == 4 {
          isr := isr - Cpu.BitsOf(val);
        } else if 8 <= reg < 8 + DMA_CHANNELS * 0x14 {
          var k, off := (reg - 8) / 0x14, (reg - 8) % 0x14;
          if off == 0 {
            ch := ch[k := ch[k].(ccr := val)];
          } else if off == 4 {
            ch := ch[k := ch[k].(cndtr := val)];
          } else if off == 8 {
            ch := ch[k := ch[k].(cpar := val)];
          } else if off == 0xC {
            ch := ch[k := ch[k].(cmar := val)];
          }
        }
      } else if a == Cpu.ISPR {
        pending := pending + Cpu.BitsOf(val);
      } else if a == Cpu.ICPR {
        pending := pending - Cpu.BitsOf(val);
      }
    }

    /** The 32-bit transfer of channel `c`. */
    method Move(dev: Device, c: Channel)
      requires Valid()
      modifies this, bus.mem
      ensures View() == Transferred(bus.cfg, dev, old(View()), c)
    {
      hide Read, Write, WithBit, RegisterStore;
      ghost var d := View();
      var a := Answers(ch, isr, dev);
      var w := bus.ReadAt(a, Source(c), 4);
      var addr, val := Target(c), w;
      if IsBitband(addr) {
        var word := bus.ReadAt(a, BitbandWord(addr), 4);
        addr, val := BitbandWord(addr), WithBit(word, BitbandBit(addr), w % 2);
      }
      assert (addr, val) == Resolved(bus.cfg, a, d.mem, Target(c), w);
      bus.WriteAt(a, Target(c), 4, w);
      ghost var m := bus.Contents();
      assert View() == d.(mem := m);
      StoreRegister(addr, val);
      StoreKeepsMemory(d, addr, val, m);
    }

    /** One turn of the channel loop. */
    method TurnOf(dev: Device, i: nat)
      requires Valid() && i < DMA_CHANNELS
      modifies this, bus.mem
      ensures View() == TickChannel(bus.cfg, dev, old(View()), i)
    {
      hide Transferred, Msize, Psize, Plus, Irq, Enabled, Minc, Pinc, InterruptOnComplete;
      var c := ch[i];
      if !Enabled(c) || c.cndtr == 0 {
        return;
      }
      Move(dev, c);
      ghost var m := bus.Contents();
      var next := ch[i].(cndtr := c.cndtr - 1);
      if Minc(c) {
        next := next.(cmar := Plus(c.cmar, Msize(c)));
      }
      if Pinc(c) {
        next := next.(cpar := Plus(next.cpar, Psize(c)));
      }
      ch := ch[i := next];
      if c.cndtr == 1 {
        isr := isr + {4 * i + 1};
        if InterruptOnComplete(c) {
          pending := pending + {Irq(i)};
        }
      }
      assert bus.Contents() == m;
    }
  }

  lemma StoreKeepsMemory(d: Controller, a: word, val: word, m: Mem)
    ensures RegisterStore(d.(mem := m), a, val) == RegisterStore(d, a, val).(mem := m)
  {
  }
}
