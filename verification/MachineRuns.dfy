/** Whole-machine runs seen as runs of stores: every event of the core and the DMA channels,
    frames and block stores included, has its list of accesses, and a run changes memory by
    exactly these, so that what `PlainMemory` proves of accesses holds of the machine. */
module MachineRuns {
  import opened Words
  import opened Memory
  import opened MemoryLaws
  import opened PlainMemory
  import opened ShadowStack
  import opened Cpu
  import Blocks
  import Branches
  import Dma

  /** The core and the DMA channels, over the byte memory they share. */
  datatype Machine = Machine(core: State, ch: Dma.Channels, isr: Mask)

  /** Everything that writes the byte memory. */
  datatype Event =
    | Store(x: Access)
    | PendingCheck
    | HardFaulted(code: word)
    | ExceptionReturn
    | Push(list: Blocks.RegList, lr: bool)
    | Stmdb(rn: nat, writeBack: bool, list: Blocks.RegList)
    | Stmia(rn: nat, writeBack: bool, list: Blocks.RegList)
    | DmaTick(dev: Device)
    | Setup(core: State, ch: Dma.Channels)   // anything else: registers, masks, channels

  function Controller(m: Machine): Dma.Controller {
    Dma.Controller(m.ch, m.isr, m.core.pending, m.core.mem)
  }

  function After(m: Machine, e: Event): Machine {
    match e
    case Store(x) => m.(core := m.core.(mem := Write(m.core.cfg, m.core.mem, x.dev, x.addr, x.width, x.value)))
    case PendingCheck => m.(core := CheckPending(m.core))
    case HardFaulted(code) => m.(core := HardFault(m.core, code))
    case ExceptionReturn => m.(core := ExitException(m.core))
    case Push(list, lr) => m.(core := Blocks.Push(m.core, list, lr))
    case Stmdb(rn, writeBack, list) => if rn < 16 then m.(core := Blocks.Stmdb(m.core, rn, writeBack, list)) else m
    case Stmia(rn, writeBack, list) => if rn < 16 then m.(core := Blocks.Stmia(m.core, rn, writeBack, list, 16)) else m
    case DmaTick(dev) =>
      var d := Dma.TickFrom(m.core.cfg, dev, Controller(m), 0);
      Machine(m.core.(mem := d.mem, pending := d.pending), d.ch, d.isr)
    case Setup(core, ch) => Machine(core.(cfg := m.core.cfg, mem := m.core.mem), ch, m.isr)
  }

  function Run(m: Machine, events: seq<Event>): Machine
    decreases |events|
  {
    if |events| == 0 then m else Run(After(m, events[0]), events[1..])
  }

  // ---------------------------------------------------------------- the accesses of a run

  /** Words stored at ascending addresses. */
  function WordStores(dev: Device, addr: word, ws: seq<word>): (xs: seq<Access>)
    ensures |xs| == |ws|
  {
    seq(|ws|, k requires 0 <= k < |ws| => Access(dev, Plus(addr, 4 * k), 4, ws[k]))
  }

  /** The eight stores of an exception frame. */
  function FrameStores(s: State): (xs: seq<Access>)
    ensures |xs| == 8
    ensures forall k :: 0 <= k < 8 ==> xs[k] == Access(s.dev, FrameAddr(s.regs[SP], k), 4, FrameWords(s)[k])
  {
    WordStores(s.dev, Minus(s.regs[SP], 32), FrameWords(s))
  }

  /** Entry stacks one frame, its own or that of the stack overflow, unless it locks up. */
  function EntryStores(s: State, n: nat): seq<Access>
    requires n < 512
  {
    if FrameAccepted(s, n) || s.active != HARD_FAULT then FrameStores(s) else []
  }

  function FaultStores(s: State): seq<Access> {
    if s.active == HARD_FAULT then [] else FrameStores(s)
  }

  function CheckStores(s: State): seq<Access> {
    if Chosen(s) == -1 then [] else EntryStores(s, Chosen(s))
  }

  /** PUSH stores its block, and a frame below it when the stack guard trips. */
  function PushBlock(s: State, list: Blocks.RegList, lr: bool): seq<Access> {
    var sp := Minus(s.regs[SP], 4 * Blocks.BlockSize(list, lr));
    WordStores(s.dev, sp, Blocks.PushedWords(s.regs, list, lr))
      + if StackOverflow(s.cfg, sp) then FaultStores(s.(regs := s.regs[SP := sp])) else []
  }

  /** STMDB stores the listed registers below the base, a listed base with write-back lowered. */
  function StmdbStores(s: State, rn: nat, writeBack: bool, list: Blocks.RegList): seq<Access>
    requires rn < 16
  {
    var addr := Minus(s.regs[rn], 4 * Blocks.Rank(list, 16));
    WordStores(s.dev, addr, Blocks.Picked(if writeBack then s.regs[rn := addr] else s.regs, list, 0, 16))
  }

  function StmiaStores(s: State, rn: nat, list: Blocks.RegList): seq<Access>
    requires rn < 16
  {
    WordStores(s.dev, s.regs[rn], Blocks.Picked(s.regs, list, 0, 16))
  }

  /** The store of a channel: the word at its source, to its target. */
  function TransferStore(cfg: Config, dev: Device, d: Dma.Controller, i: nat): Access
    requires i < Dma.DMA_CHANNELS
  {
    var c, a := d.ch[i], Dma.Answers(d.ch, d.isr, dev);
    Access(a, Dma.Target(c), 4, Read(cfg, d.mem, a, Dma.Source(c), 4))
  }

  /** One store of each active channel, in channel order, each over what the ones before left. */
  function DmaStores(cfg: Config, dev: Device, d: Dma.Controller, i: nat): seq<Access>
    requires i <= Dma.DMA_CHANNELS
    decreases Dma.DMA_CHANNELS - i
  {
    if i == Dma.DMA_CHANNELS then []
    else
      (if Dma.Active(d.ch[i]) then [TransferStore(cfg, dev, d, i)] else [])
        + DmaStores(cfg, dev, Dma.TickChannel(cfg, dev, d, i), i + 1)
  }

  /** The accesses that one event makes. */
  function StoresIn(m: Machine, e: Event): seq<Access> {
    match e
    case Store(x) => [x]
    case PendingCheck => CheckStores(m.core)
    case HardFaulted(_) => FaultStores(m.core)
    case Push(list, lr) => PushBlock(m.core, list, lr)
    case Stmdb(rn, writeBack, list) => if rn < 16 then StmdbStores(m.core, rn, writeBack, list) else []
    case Stmia(rn, _, list) => if rn < 16 then StmiaStores(m.core, rn, list) else []
    case DmaTick(dev) => DmaStores(m.core.cfg, dev, Controller(m), 0)
    case ExceptionReturn => []
    case Setup(_, _) => []
  }

  /** The accesses that a run makes, in order. */
  function AccessesOf(m: Machine, events: seq<Event>): seq<Access>
    decreases |events|
  {
    if |events| == 0 then [] else StoresIn(m, events[0]) + AccessesOf(After(m, events[0]), events[1..])
  }

  // ---------------------------------------------------------------- memory by accesses

  lemma {:induction false} RunAppend(cfg: Config, mem: Mem, xs: seq<Access>, ys: seq<Access>)
    ensures RunAccesses(cfg, mem, xs + ys) == RunAccesses(cfg, RunAccesses(cfg, mem, xs), ys)
    decreases |xs|
  {
    hide Write;
    if |xs| == 0 {
      assert xs + ys == ys;
    } else {
      var x := xs[0];
      assert (xs + ys)[1..] == xs[1..] + ys;
      RunAppend(cfg, Write(cfg, mem, x.dev, x.addr, x.width, x.value), xs[1..], ys);
    }
  }

  lemma NoAccess(cfg: Config, mem: Mem)
    ensures RunAccesses(cfg, mem, []) == mem
  {
  }

  lemma {:induction false} WordStoresRun(cfg: Config, mem: Mem, dev: Device, addr: word, ws: seq<word>)
    ensures RunAccesses(cfg, mem, WordStores(dev, addr, ws)) == WriteWords(cfg, mem, dev, addr, ws)
    decreases |ws|
  {
    hide Write, Plus;
    var xs := WordStores(dev, addr, ws);
    if |ws| > 0 {
      PlusFits(addr, 0);
      var rest := WordStores(dev, Plus(addr, 4), ws[1..]);
      assert |xs[1..]| == |rest|;
      forall k | 0 <= k < |rest| ensures xs[1..][k] == rest[k] {
        PlusPlus(addr, 4, 4 * k);
      }
      assert xs[1..] == rest;
      WordStoresRun(cfg, Write(cfg, mem, dev, addr, 4, ws[0]), dev, Plus(addr, 4), ws[1..]);
    }
  }

  lemma TakeIsAccesses(s: State, n: nat)
    requires n < 512
    ensures RunAccesses(s.cfg, s.mem, FrameStores(s)) == TakeException(s, n).mem
  {
    hide WriteWords, WordStores, RunAccesses, Read, Minus, FrameWords, WithException, EntryRegs;
    WordStoresRun(s.cfg, s.mem, s.dev, Minus(s.regs[SP], 32), FrameWords(s));
  }

  /** The handler starts at the halfword that its vector names, the vector as flash held it
      before the frame was written, and LR names the mode to return to. */
  lemma EntryBranchesToVector(s: State, n: nat)
    requires n < 512 && 4 * n + 4 <= s.cfg.flashSize <= SRAM_OFFSET
    ensures var e := TakeException(s, n);
      && Branches.Names(Read(s.cfg, s.mem, s.dev, 4 * n, 4), e.regs[15])
      && e.regs[14] == (if s.active == 0 then 0xFFFF_FFF9 else 0xFFFF_FFF1)
      && e.active == n == e.xpsr % 512 && e.xpsr / 512 == s.xpsr / 512 && e.it == 0
  {
    hide WriteWords, Read, Minus, FrameWords, FrameStores, HalfwordAligned, RunAccesses, SameBelowSram, RegisterWrites,
      Branches.Names, WithException;
    TakeIsAccesses(s, n);
    BelowSramIsConstant(s.cfg, s.mem, FrameStores(s));
    VectorReadsAgree(s.cfg, s.mem, TakeException(s, n).mem, s.dev, 4 * n);
    Branches.AlignedNames(Read(s.cfg, s.mem, s.dev, 4 * n, 4));
    ExceptionFieldOnly(s.xpsr, n);
  }

  lemma ExceptionFieldOnly(x: word, n: nat)
    requires n < 512
    ensures WithException(x, n) / 512 == x / 512
  {
    DivModUnique(x / 512 * 512 + n, 512, x / 512, n);
  }

  lemma VectorReadsAgree(cfg: Config, mem: Mem, mem': Mem, dev: Device, a: word)
    requires SameBelowSram(mem, mem') && a + 4 <= cfg.flashSize <= SRAM_OFFSET
    ensures Read(cfg, mem', dev, a, 4) == Read(cfg, mem, dev, a, 4)
  {
    hide PeriphReads;
    assert mem'[a..a + 4] == mem[a..a + 4];
  }

  lemma SameFrameStores(s: State, t: State)
    requires s.cfg == t.cfg && s.regs == t.regs && s.xpsr == t.xpsr && s.it == t.it && s.dev == t.dev
    ensures FrameStores(s) == FrameStores(t)
  {
    hide WordStores, PackXpsr;
  }

  /** Exception entry writes its frame and nothing else, wherever the stack pointer points. */
  lemma EntryIsAccesses(s: State, n: nat)
    requires n < 512
    ensures EnterException(s, n).mem == RunAccesses(s.cfg, s.mem, EntryStores(s, n))
  {
    hide TakeException, RunAccesses, FrameStores, EnterException, FrameAccepted;
    EntryOutcomes(s, n);
    NoAccess(s.cfg, s.mem);
    TakeIsAccesses(Attempt(s), n);
    SameFrameStores(s, Attempt(s));
    var x := Attempt(Faulted(Attempt(s), FAULT_STACK_OVERFLOW));
    TakeIsAccesses(x, HARD_FAULT);
    SameFrameStores(s, x);
  }

  lemma FaultIsAccesses(s: State, code: word)
    ensures HardFault(s, code).mem == RunAccesses(s.cfg, s.mem, FaultStores(s))
  {
    hide RunAccesses, EnterException, FrameStores;
    NoAccess(s.cfg, s.mem);
    EntryIsAccesses(Faulted(s, code), HARD_FAULT);
    SameFrameStores(s, Faulted(s, code));
  }

  lemma CheckIsAccesses(s: State)
    ensures CheckPending(s).mem == RunAccesses(s.cfg, s.mem, CheckStores(s))
  {
    hide RunAccesses, EnterException, Chosen, FrameStores, StackOverflow;
    NoAccess(s.cfg, s.mem);
    if Chosen(s) != -1 {
      var t := Acknowledged(s, Chosen(s));
      EntryIsAccesses(t, Chosen(s));
      SameFrameStores(s, t);
    }
  }

  lemma PushIsAccesses(s: State, list: Blocks.RegList, lr: bool)
    ensures Blocks.Push(s, list, lr).mem == RunAccesses(s.cfg, s.mem, PushBlock(s, list, lr))
  {
    hide RunAccesses, HardFault, Blocks.StoreLoop, Write, Blocks.PushedWords, Blocks.BlockSize, StackOverflow, Minus,
      Plus, FrameStores, WordStores, WriteWords;
    var sp := Minus(s.regs[SP], 4 * Blocks.BlockSize(list, lr));
    var ws := Blocks.PushedWords(s.regs, list, lr);
    var t := Blocks.PushStores(s, list, lr);
    Blocks.PushMemory(s.cfg, s.mem, s.dev, s.regs, list, lr, sp);
    WordStoresRun(s.cfg, s.mem, s.dev, sp, ws);
    var frame := if StackOverflow(s.cfg, sp) then FaultStores(t) else [];
    SameFrameStores(t, s.(regs := t.regs));
    RunAppend(s.cfg, s.mem, WordStores(s.dev, sp, ws), frame);
    NoAccess(s.cfg, t.mem);
    FaultIsAccesses(t, FAULT_STACK_OVERFLOW);
  }

  lemma StmdbIsAccesses(s: State, rn: nat, writeBack: bool, list: Blocks.RegList)
    requires rn < 16
    ensures Blocks.Stmdb(s, rn, writeBack, list).mem == RunAccesses(s.cfg, s.mem, StmdbStores(s, rn, writeBack, list))
  {
    hide RunAccesses, WordStores, WriteWords, Blocks.StoreLoop, Blocks.Picked, Blocks.Rank, Plus, Minus;
    var addr := Minus(s.regs[rn], 4 * Blocks.Rank(list, 16));
    var regs := if writeBack then s.regs[rn := addr] else s.regs;
    Blocks.StoreLoopWrites(s.cfg, s.mem, s.dev, regs, list, addr, 0, 16);
    WordStoresRun(s.cfg, s.mem, s.dev, addr, Blocks.Picked(regs, list, 0, 16));
  }

  lemma StmiaIsAccesses(s: State, rn: nat, writeBack: bool, list: Blocks.RegList)
    requires rn < 16
    ensures Blocks.Stmia(s, rn, writeBack, list, 16).mem == RunAccesses(s.cfg, s.mem, StmiaStores(s, rn, list))
  {
    hide RunAccesses, WordStores, WriteWords, Blocks.StoreLoop, Blocks.Picked, Plus;
    Blocks.StoreLoopWrites(s.cfg, s.mem, s.dev, s.regs, list, s.regs[rn], 0, 16);
    WordStoresRun(s.cfg, s.mem, s.dev, s.regs[rn], Blocks.Picked(s.regs, list, 0, 16));
  }

  lemma {:induction false} DmaIsAccesses(cfg: Config, dev: Device, d: Dma.Controller, i: nat)
    requires i <= Dma.DMA_CHANNELS
    ensures Dma.TickFrom(cfg, dev, d, i).mem == RunAccesses(cfg, d.mem, DmaStores(cfg, dev, d, i))
    decreases Dma.DMA_CHANNELS - i
  {
    hide RunAccesses, Dma.TickChannel, TransferStore, Dma.Active;
    if i == Dma.DMA_CHANNELS {
      NoAccess(cfg, d.mem);
    } else {
      var d' := Dma.TickChannel(cfg, dev, d, i);
      var first := if Dma.Active(d.ch[i]) then [TransferStore(cfg, dev, d, i)] else [];
      ChannelIsAccess(cfg, dev, d, i);
      DmaIsAccesses(cfg, dev, d', i + 1);
      RunAppend(cfg, d.mem, first, DmaStores(cfg, dev, d', i + 1));
    }
  }

  lemma ChannelIsAccess(cfg: Config, dev: Device, d: Dma.Controller, i: nat)
    requires i < Dma.DMA_CHANNELS
    ensures Dma.TickChannel(cfg, dev, d, i).mem
         == RunAccesses(cfg, d.mem, if Dma.Active(d.ch[i]) then [TransferStore(cfg, dev, d, i)] else [])
  {
    hide RunAccesses, Read, Write, Dma.WrittenBack, Dma.RegisterStore, Dma.Resolved, Dma.Answers, Dma.Target,
      Dma.Source;
    NoAccess(cfg, d.mem);
    OneAccess(cfg, d.mem, TransferStore(cfg, dev, d, i));
  }

  lemma EventIsAccesses(m: Machine, e: Event)
    ensures After(m, e).core.mem == RunAccesses(m.core.cfg, m.core.mem, StoresIn(m, e))
  {
    hide RunAccesses, Write, CheckPending, HardFault, Blocks.Push, Blocks.Stmdb, Blocks.Stmia, Dma.TickFrom, FrameAt,
      Unstacked, WithoutIt, UnpackIt, CheckStores, FaultStores, PushBlock, StmdbStores, StmiaStores, DmaStores, Plus;
    NoAccess(m.core.cfg, m.core.mem);
    match e
    case Store(x) => OneAccess(m.core.cfg, m.core.mem, x);
    case PendingCheck => CheckIsAccesses(m.core);
    case HardFaulted(code) => FaultIsAccesses(m.core, code);
    case Push(list, lr) => PushIsAccesses(m.core, list, lr);
    case Stmdb(rn, writeBack, list) =>
      if rn < 16 {
        StmdbIsAccesses(m.core, rn, writeBack, list);
      }
    case Stmia(rn, writeBack, list) =>
      if rn < 16 {
        StmiaIsAccesses(m.core, rn, writeBack, list);
      }
    case DmaTick(dev) => DmaIsAccesses(m.core.cfg, dev, Controller(m), 0);
    case ExceptionReturn =>
    case Setup(_, _) =>
  }

  lemma EventKeepsMap(m: Machine, e: Event)
    ensures After(m, e).core.cfg == m.core.cfg
  {
    hide Write, TakeException, Blocks.PushStores, Blocks.StoreLoop, Dma.TickFrom, FrameAt, Unstacked, WithoutIt,
      UnpackIt, Plus, Chosen, StackOverflow;
    match e
    case PendingCheck =>
      if Chosen(m.core) != -1 {
        EntryKeepsMap(Acknowledged(m.core, Chosen(m.core)), Chosen(m.core));
      }
    case HardFaulted(code) => FaultKeepsMap(m.core, code);
    case Push(list, lr) =>
      PushStoresKeepMap(m.core, list, lr);
      FaultKeepsMap(Blocks.PushStores(m.core, list, lr), FAULT_STACK_OVERFLOW);
    case _ =>
  }

  lemma EntryKeepsMap(s: State, n: nat)
    requires n < 512
    ensures EnterException(s, n).cfg == s.cfg
  {
    hide WriteWords, Read, FrameWords, Minus, HalfwordAligned, WithException, RegisterWrites;
    EntryOutcomes(s, n);
  }

  lemma FaultKeepsMap(s: State, code: word)
    ensures HardFault(s, code).cfg == s.cfg
  {
    hide EnterException;
    EntryKeepsMap(Faulted(s, code), HARD_FAULT);
  }

  lemma PushStoresKeepMap(s: State, list: Blocks.RegList, lr: bool)
    ensures Blocks.PushStores(s, list, lr).cfg == s.cfg
  {
    hide Write, Blocks.StoreLoop, Minus, Plus;
  }

  /** Every run of the machine changes memory by exactly the accesses of its events. */
  lemma {:induction false} RunIsAccesses(m: Machine, events: seq<Event>)
    ensures Run(m, events).core.cfg == m.core.cfg
    ensures Run(m, events).core.mem == RunAccesses(m.core.cfg, m.core.mem, AccessesOf(m, events))
    decreases |events|
  {
    hide RunAccesses, After, StoresIn;
    if |events| == 0 {
      NoAccess(m.core.cfg, m.core.mem);
    } else {
      var m' := After(m, events[0]);
      EventIsAccesses(m, events[0]);
      EventKeepsMap(m, events[0]);
      RunIsAccesses(m', events[1..]);
      RunAppend(m.core.cfg, m.core.mem, StoresIn(m, events[0]), AccessesOf(m', events[1..]));
    }
  }

  // ---------------------------------------------------------------- what follows

  /** No run of the machine changes what a read of flash returns. */
  ghost predicate MachineKeepsFlash(cfg: Config) {
    forall m: Machine, events: seq<Event>, dev: Device, a: word, n: Width ::
      m.core.cfg == cfg && InFlash(cfg, a, n) && !IsBitband(a) ==>
        Read(cfg, Run(m, events).core.mem, dev, a, n) == Read(cfg, m.core.mem, dev, a, n)
  }

  /** Over runs of stores, exception entries and returns, block stores and DMA, from any state
      and on any map, flash is immutable if and only if no more than 512 KB are configured. */
  lemma FlashNeverChangesExactly(cfg: Config)
    ensures MachineKeepsFlash(cfg) <==> cfg.flashSize <= SRAM_OFFSET
  {
    hide Read, Write, RunAccesses, Run, InFlash, AccessesOf;
    FlashImmutableExactly(cfg);
    if cfg.flashSize <= SRAM_OFFSET {
      forall m: Machine, events: seq<Event>, dev: Device, a: word, n: Width |
        m.core.cfg == cfg && InFlash(cfg, a, n) && !IsBitband(a)
        ensures Read(cfg, Run(m, events).core.mem, dev, a, n) == Read(cfg, m.core.mem, dev, a, n)
      {
        RunIsAccesses(m, events);
      }
    } else {
      var mem: Mem, xs: seq<Access>, dev: Device, a: word, n: Width :|
        && InFlash(cfg, a, n) && !IsBitband(a)
        && Read(cfg, RunAccesses(cfg, mem, xs), dev, a, n) != Read(cfg, mem, dev, a, n);
      var m := Machine(StateOn(cfg, mem), seq(Dma.DMA_CHANNELS, _ => Dma.Channel(0, 0, 0, 0)), {});
      StoresRun(m, xs);
      assert Read(cfg, Run(m, StoresOf(xs)).core.mem, dev, a, n) != Read(cfg, m.core.mem, dev, a, n);
    }
  }

  /** Some state on the given map with the given memory. */
  function StateOn(cfg: Config, mem: Mem): (s: State)
    ensures s.cfg == cfg && s.mem == mem
  {
    State(cfg, 0, seq(16, _ => 0), 0, 0, 0, 0, false, false, false, {}, {}, seq(8, _ => 0), 0, 0,
          mem, _ => 0, Empty(), 0, 0, 0, 0)
  }

  function StoresOf(xs: seq<Access>): seq<Event> {
    if |xs| == 0 then [] else [Store(xs[0])] + StoresOf(xs[1..])
  }

  /** Accesses are runs of the machine too. */
  lemma {:induction false} StoresRun(m: Machine, xs: seq<Access>)
    ensures Run(m, StoresOf(xs)).core.mem == RunAccesses(m.core.cfg, m.core.mem, xs)
    decreases |xs|
  {
    hide Write;
    if |xs| > 0 {
      var x := xs[0];
      assert StoresOf(xs)[0] == Store(x) && StoresOf(xs)[1..] == StoresOf(xs[1..]);
      StoresRun(After(m, Store(x)), xs[1..]);
    }
  }

  /** On the map of a real part that owns its bytes, SRAM after any run of the machine is the
      plain array to which the accesses of the run were applied, in order; and what a read of
      SRAM then returns are the bytes of that array. */
  lemma MachineSramIsPlain(m: Machine, events: seq<Event>)
    requires UsualMap(m.core.cfg) && OwnsItsBytes(m.core.cfg)
    ensures var cfg := m.core.cfg;
      var ram := PlainRun(cfg, Ram(cfg, m.core.mem), AccessesOf(m, events));
      && Ram(cfg, Run(m, events).core.mem) == ram
      && forall dev: Device, a: word, n: Width :: InSram(cfg, a, n) ==>
           Read(cfg, Run(m, events).core.mem, dev, a, n) == Value(ram[a - cfg.sramBase..a - cfg.sramBase + n])
  {
    hide RunAccesses, Run, PlainRun, Read, AccessesOf, Value;
    var cfg, xs := m.core.cfg, AccessesOf(m, events);
    RunIsAccesses(m, events);
    RunIsPlain(cfg, m.core.mem, xs);
    forall dev: Device, a: word, n: Width | InSram(cfg, a, n)
      ensures var i := a - cfg.sramBase;
        Read(cfg, Run(m, events).core.mem, dev, a, n) == Value(PlainRun(cfg, Ram(cfg, m.core.mem), xs)[i..i + n])
    {
      SramReadAfterRun(cfg, m.core.mem, xs, dev, a, n);
    }
  }
}
