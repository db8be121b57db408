/** What each transfer of a DMA channel does, from the bits of its control register: direction,
    the two increments and the two sizes independently of each other. */
module DmaStreams {
  import opened Words
  import opened Memory
  import opened MemoryLaws
  import Cpu
  import RegisterMap
  import opened Dma

  /** `1 << field`, the field of two bits from bit `k` on. */
  function SizeAt(ccr: word, k: nat): nat
    requires k < 31
  {
    Pow2(BitOf(ccr, k) + 2 * BitOf(ccr, k + 1))
  }

  /** The control register by bit number: EN 0, TCIE 1, DIR 4, PINC 6, MINC 7, PSIZE 9:8,
      MSIZE 11:10. */
  lemma ControlBits(c: Channel)
    ensures Enabled(c) <==> BitOf(c.ccr, 0) == 1
    ensures InterruptOnComplete(c) <==> BitOf(c.ccr, 1) == 1
    ensures FromMemory(c) <==> BitOf(c.ccr, 4) == 1
    ensures Pinc(c) <==> BitOf(c.ccr, 6) == 1
    ensures Minc(c) <==> BitOf(c.ccr, 7) == 1
    ensures Psize(c) == SizeAt(c.ccr, 8) && Msize(c) == SizeAt(c.ccr, 10)
  {
    hide Pow2, BitOf, SizeOf;
    Pow2Values();
    BitNumber(c.ccr, 0, 1);
    BitNumber(c.ccr, 1, 2);
    BitNumber(c.ccr, 4, 16);
    BitNumber(c.ccr, 6, 64);
    BitNumber(c.ccr, 7, 128);
    TwoBitsAt(c.ccr, 8, 0x100);
    TwoBitsAt(c.ccr, 10, 0x400);
    SizeIsPower(c.ccr / 0x100 % 4);
    SizeIsPower(c.ccr / 0x400 % 4);
  }

  lemma SizeIsPower(code: nat)
    requires code < 4
    ensures SizeOf(code) == Pow2(code)
  {
    hide Pow2;
    Pow2Values();
  }

  /** The registers by address: CCR, CNDTR, CPAR and CMAR of channel `k` from 0x40020008 +
      0x14 * k on take what is stored to them, and a store changes no other. */
  lemma ChannelRegisters(d: Controller, k: nat, r: nat, v: word)
    requires k < DMA_CHANNELS && r < 4
    ensures var e := RegisterStore(d, 0x4002_0008 + 0x14 * k + 4 * r, v);
      && e.ch[k] == (match r case 0 => d.ch[k].(ccr := v) case 1 => d.ch[k].(cndtr := v)
                             case 2 => d.ch[k].(cpar := v) case _ => d.ch[k].(cmar := v))
      && (forall j :: 0 <= j < DMA_CHANNELS && j != k ==> e.ch[j] == d.ch[j])
      && e.isr == d.isr && e.pending == d.pending && e.mem == d.mem
  {
    hide Cpu.WordOf, Cpu.BitsOf;
    DivModUnique(0x14 * k + 4 * r, 0x14, k, 4 * r);
  }

  /** And they read back. */
  lemma ChannelReads(ch: Channels, isr: Mask, dev: Device, k: nat, r: nat)
    requires k < DMA_CHANNELS && r < 4
    ensures Answered(ch, isr, dev, 0x4002_0008 + 0x14 * k + 4 * r)
         == match r case 0 => ch[k].ccr case 1 => ch[k].cndtr case 2 => ch[k].cpar case _ => ch[k].cmar
  {
    hide Cpu.WordOf;
    DivModUnique(0x14 * k + 4 * r, 0x14, k, 4 * r);
    var a: word := 0x4002_0008 + 0x14 * k + 4 * r;
    assert Answered(ch, isr, dev, a) == ReadRegister(ch, isr, a);
  }

  /** What a 32-bit read of a peripheral address gets from a channel's point of view. */
  function Answered(ch: Channels, isr: Mask, dev: Device, a: word): word {
    Answers(ch, isr, dev)(a)
  }

  /** The status register reads as the flags, bit by bit, the clear register as 0, and an
      address outside the window is answered by someone else. */
  lemma StatusReads(ch: Channels, isr: Mask, dev: Device, a: word, k: nat)
    requires k < 32
    ensures BitOf(Answered(ch, isr, dev, 0x4002_0000), k) == 1 <==> k in isr
    ensures Answered(ch, isr, dev, 0x4002_0004) == 0
    ensures !(0x4002_0000 <= a < 0x4002_0400) ==> Answered(ch, isr, dev, a) == dev(a)
  {
    hide Cpu.WordOf, BitOf;
    RegisterMap.MasksAreWords(isr, 0);
    assert Answered(ch, isr, dev, 0x4002_0000) == ReadRegister(ch, isr, 0x4002_0000);
    assert Answered(ch, isr, dev, 0x4002_0004) == ReadRegister(ch, isr, 0x4002_0004);
  }

  /** A transfer into the pending registers of the NVIC sets or clears what its word names. */
  lemma PendingRegisters(d: Controller, a: word, v: word, k: nat)
    requires k < 32 && !(0x4002_0000 <= a < 0x4002_0400)
    ensures var e := RegisterStore(d, a, v);
      && e == d.(pending := e.pending)
      && (k in e.pending <==> if a == 0xE000_E200 then k in d.pending || BitOf(v, k) == 1
                              else if a == 0xE000_E280 then k in d.pending && BitOf(v, k) == 0
                              else k in d.pending)
  {
    hide BitOf;
  }

  // ---------------------------------------------------------------- addresses

  /** The memory address of transfer `k`: CMAR, moved by MSIZE each time if MINC is set. */
  function MemoryAddr(c: Channel, k: nat): word {
    if BitOf(c.ccr, 7) == 1 then Plus(c.cmar, SizeAt(c.ccr, 10) * k) else c.cmar
  }

  /** The peripheral address: CPAR, moved by PSIZE each time if PINC is set. */
  function PeriphAddr(c: Channel, k: nat): word {
    if BitOf(c.ccr, 6) == 1 then Plus(c.cpar, SizeAt(c.ccr, 8) * k) else c.cpar
  }

  function SourceAddr(c: Channel, k: nat): word {
    if BitOf(c.ccr, 4) == 1 then MemoryAddr(c, k) else PeriphAddr(c, k)
  }

  function TargetAddr(c: Channel, k: nat): word {
    if BitOf(c.ccr, 4) == 1 then PeriphAddr(c, k) else MemoryAddr(c, k)
  }

  /** The channel with `k` transfers behind it. */
  function Behind(c: Channel, k: nat): Channel
    requires k <= c.cndtr
  {
    Channel(c.ccr, c.cndtr - k, PeriphAddr(c, k), MemoryAddr(c, k))
  }

  lemma AfterIsBehind(c: Channel, k: nat)
    requires k <= c.cndtr
    ensures After(c, k) == Behind(c, k)
    ensures Source(After(c, k)) == SourceAddr(c, k) && Target(After(c, k)) == TargetAddr(c, k)
  {
    hide Pow2, BitOf, Plus, SizeAt, Minc, Pinc, FromMemory, Msize, Psize;
    ControlBits(c);
    ControlBits(After(c, k));
    if k == 0 {
      PlusFits(c.cmar, 0);
      PlusFits(c.cpar, 0);
      assert SizeAt(c.ccr, 10) * k == 0 == SizeAt(c.ccr, 8) * k;
    }
  }

  // ---------------------------------------------------------------- one transfer

  /** The controller when the turn of channel `i` comes within a tick from `d`. */
  function AtTurn(cfg: Config, dev: Device, d: Controller, i: nat): Controller
    requires i <= DMA_CHANNELS
  {
    if i == 0 then d else TickChannel(cfg, dev, AtTurn(cfg, dev, d, i - 1), i - 1)
  }

  lemma {:induction false} TickGoesByTurns(cfg: Config, dev: Device, d: Controller, i: nat)
    requires i <= DMA_CHANNELS
    ensures TickFrom(cfg, dev, d, 0) == TickFrom(cfg, dev, AtTurn(cfg, dev, d, i), i)
  {
    hide TickChannel;
    if i > 0 {
      TickGoesByTurns(cfg, dev, d, i - 1);
    }
  }

  lemma {:induction false} TurnsBeforeLeave(cfg: Config, dev: Device, d: Controller, i: nat)
    requires i <= DMA_CHANNELS && QuietFrom(d.ch, 0)
    ensures forall j :: i <= j < DMA_CHANNELS ==> AtTurn(cfg, dev, d, i).ch[j] == d.ch[j]
  {
    hide Transferred, WrittenBack, Enabled, InterruptOnComplete, Irq, Disturbs, Target, Advanced;
    if i > 0 {
      var e := AtTurn(cfg, dev, d, i - 1);
      TurnsBeforeLeave(cfg, dev, d, i - 1);
      assert e.ch[i - 1] == d.ch[i - 1];
      if Active(e.ch[i - 1]) {
        QuietTransfer(cfg, dev, e, i - 1);
      }
    }
  }

  /** The interrupt of each channel. */
  const CHANNEL_IRQS: seq<nat> := [9, 10, 10, 11, 11]

  /** Transfer `k` of an enabled channel, whatever the others do, as long as none disturbs the
      controller: the word at the source goes to the target, both as the control bits say;
      CNDTR, CPAR and CMAR move on; and flag and interrupt come with the last transfer. */
  lemma TransferByBits(cfg: Config, devs: nat -> Device, d0: Controller, i: nat, k: nat)
    requires i < DMA_CHANNELS && LeavesControllerAlone(d0.ch, k + 1)
    requires BitOf(d0.ch[i].ccr, 0) == 1 && k < d0.ch[i].cndtr
    ensures var c := d0.ch[i];
      var d := AtTurn(cfg, devs(k), Ticks(cfg, devs, d0, k), i);
      var e := TickChannel(cfg, devs(k), d, i);
      var a := Answers(d.ch, d.isr, devs(k));
      var last := k + 1 == c.cndtr;
      && e.mem == Write(cfg, d.mem, a, TargetAddr(c, k), 4, Read(cfg, d.mem, a, SourceAddr(c, k), 4))
      && d.ch[i] == Behind(c, k) && e.ch[i] == Behind(c, k + 1)
      && e.isr == d.isr + (if last then {4 * i + 1} else {})
      && (Reached(TargetAddr(c, k)) != 0xE000_E200 && Reached(TargetAddr(c, k)) != 0xE000_E280 ==>
            e.pending == d.pending + if last && BitOf(c.ccr, 1) == 1 then {CHANNEL_IRQS[i]} else {})
  {
    hide Ticks, AtTurn, Read, Write, After, Behind, TargetAddr, SourceAddr, BitOf, Disturbs, MayReset, Counted, Active,
      LeavesControllerAlone, TickChannel;
    var c := d0.ch[i];
    var d1 := Ticks(cfg, devs, d0, k);
    ControlBits(c);
    LeavesSooner(d0.ch, k);
    CountsDown(cfg, devs, d0, k);
    StillQuiet(d0.ch, d1.ch, k + 1);
    TurnsBeforeLeave(cfg, devs(k), d1, i);
    EnabledCounts(c, k);
    AfterIsBehind(c, k);
    AfterIsBehind(c, k + 1);
    AfterNext(c, k);
    TurnOfChannel(cfg, devs(k), AtTurn(cfg, devs(k), d1, i), i);
    SameControl(c, k);
  }

  lemma SameControl(c: Channel, k: nat)
    requires k <= c.cndtr
    ensures After(c, k).ccr == c.ccr && After(c, k).cndtr == c.cndtr - k
  {
  }

  lemma LeavesSooner(ch: Channels, k: nat)
    requires LeavesControllerAlone(ch, k + 1)
    ensures LeavesControllerAlone(ch, k)
  {
    hide Disturbs, MayReset, After, Active;
  }

  lemma EnabledCounts(c: Channel, k: nat)
    requires Enabled(c) && k < c.cndtr
    ensures Active(c) && Counted(c, k) == After(c, k) && Active(After(c, k))
  {
    hide Msize, Psize, Minc, Pinc, Plus;
  }

  lemma TurnOfChannel(cfg: Config, dev: Device, d: Controller, i: nat)
    requires i < DMA_CHANNELS && Active(d.ch[i]) && !Disturbs(i, Target(d.ch[i]))
    ensures var c := d.ch[i];
      var e := TickChannel(cfg, dev, d, i);
      var a := Answers(d.ch, d.isr, dev);
      && e.mem == Write(cfg, d.mem, a, Target(c), 4, Read(cfg, d.mem, a, Source(c), 4))
      && e.ch[i] == Advanced(c) && e.isr == d.isr + (if c.cndtr == 1 then {4 * i + 1} else {})
      && (Reached(Target(c)) != 0xE000_E200 && Reached(Target(c)) != 0xE000_E280 ==>
            e.pending == d.pending + if c.cndtr == 1 && BitOf(c.ccr, 1) == 1 then {CHANNEL_IRQS[i]} else {})
  {
    hide Transferred, BitOf, Disturbs, Target, Source, Answers, Advanced, WrittenBack, InterruptOnComplete, Reached,
      Read, Write, Irq;
    QuietTransfer(cfg, dev, d, i);
    ControlBits(d.ch[i]);
    ChannelIrqs(i);
    TransferStores(cfg, dev, d, d.ch[i]);
  }

  /** The memory and the pending register after a transfer. */
  lemma TransferStores(cfg: Config, dev: Device, d: Controller, c: Channel)
    ensures var e := Transferred(cfg, dev, d, c);
      var a := Answers(d.ch, d.isr, dev);
      && e.mem == Write(cfg, d.mem, a, Target(c), 4, Read(cfg, d.mem, a, Source(c), 4))
      && (Reached(Target(c)) != 0xE000_E200 && Reached(Target(c)) != 0xE000_E280 ==> e.pending == d.pending)
  {
    hide Read, Write, WithBit, Target, Source, Answers, BitbandWord, BitbandBit, Cpu.BitsOf;
  }

  lemma ChannelIrqs(i: nat)
    requires i < DMA_CHANNELS
    ensures Irq(i) == CHANNEL_IRQS[i]
  {
  }

  /** After `n` ticks the channel has `n` transfers behind it, or all. */
  lemma StreamAfter(cfg: Config, devs: nat -> Device, d0: Controller, i: nat, n: nat)
    requires i < DMA_CHANNELS && LeavesControllerAlone(d0.ch, n) && BitOf(d0.ch[i].ccr, 0) == 1
    ensures var c := d0.ch[i];
      Ticks(cfg, devs, d0, n).ch[i] == Behind(c, if n < c.cndtr then n else c.cndtr)
  {
    hide Ticks, BitOf, Behind, After, LeavesControllerAlone;
    var c := d0.ch[i];
    ControlBits(c);
    CountsDown(cfg, devs, d0, n);
    AfterIsBehind(c, if n < c.cndtr then n else c.cndtr);
    if c.cndtr == 0 {
      NoTransfers(c);
    }
  }

  lemma NoTransfers(c: Channel)
    ensures After(c, 0) == c
  {
  }

  // ---------------------------------------------------------------- the usual streams

  /** Memory to a peripheral register, DIR and MINC set and PINC clear: transfer `k` reads
      CMAR + k * size and writes CPAR, and at the end CMAR has moved by CNDTR * size. */
  lemma MemoryToPeripheral(cfg: Config, devs: nat -> Device, d0: Controller, i: nat, k: nat)
    requires i < DMA_CHANNELS && LeavesControllerAlone(d0.ch, k + 1) && k < d0.ch[i].cndtr
    requires var ccr := d0.ch[i].ccr;
      BitOf(ccr, 0) == 1 && BitOf(ccr, 4) == 1 && BitOf(ccr, 7) == 1 && BitOf(ccr, 6) == 0
    ensures var c := d0.ch[i];
      var size := Pow2(BitOf(c.ccr, 10) + 2 * BitOf(c.ccr, 11));
      var d := AtTurn(cfg, devs(k), Ticks(cfg, devs, d0, k), i);
      var e := TickChannel(cfg, devs(k), d, i);
      var a := Answers(d.ch, d.isr, devs(k));
      && e.mem == Write(cfg, d.mem, a, c.cpar, 4, Read(cfg, d.mem, a, Plus(c.cmar, size * k), 4))
      && e.ch[i] == Channel(c.ccr, c.cndtr - k - 1, c.cpar, Plus(c.cmar, size * (k + 1)))
  {
    hide Ticks, AtTurn, TickChannel, Read, Write, BitOf, Pow2, Plus, LeavesControllerAlone;
    TransferByBits(cfg, devs, d0, i, k);
  }

  /** A peripheral register to memory, DIR and PINC clear and MINC set. */
  lemma PeripheralToMemory(cfg: Config, devs: nat -> Device, d0: Controller, i: nat, k: nat)
    requires i < DMA_CHANNELS && LeavesControllerAlone(d0.ch, k + 1) && k < d0.ch[i].cndtr
    requires var ccr := d0.ch[i].ccr;
      BitOf(ccr, 0) == 1 && BitOf(ccr, 4) == 0 && BitOf(ccr, 7) == 1 && BitOf(ccr, 6) == 0
    ensures var c := d0.ch[i];
      var size := Pow2(BitOf(c.ccr, 10) + 2 * BitOf(c.ccr, 11));
      var d := AtTurn(cfg, devs(k), Ticks(cfg, devs, d0, k), i);
      var e := TickChannel(cfg, devs(k), d, i);
      var a := Answers(d.ch, d.isr, devs(k));
      && e.mem == Write(cfg, d.mem, a, Plus(c.cmar, size * k), 4, Read(cfg, d.mem, a, c.cpar, 4))
      && e.ch[i] == Channel(c.ccr, c.cndtr - k - 1, c.cpar, Plus(c.cmar, size * (k + 1)))
  {
    hide Ticks, AtTurn, TickChannel, Read, Write, BitOf, Pow2, Plus, LeavesControllerAlone;
    TransferByBits(cfg, devs, d0, i, k);
  }
}
