/** Whole-run state coherence: in every state reachable from reset the three records of what
    is running (`active_exception`, the IPSR field and `it_state`) agree, which is exactly
    what exception stacking needs to lose nothing. */
module Coherence {
  import opened Words
  import opened Memory
  import opened ShadowStack
  import opened Cpu
  import Arithmetic
  import Blocks
  import ItBlock
  import Nesting

  /** The parts of the state that no stacking depends on. */
  datatype Surroundings = Surroundings(
    regs: Regs, mem: Mem, dev: Device, primask: word, sleeping: bool, halted: bool,
    pending: Mask, enabled: Mask, ipr: Priorities, shpr2: word, shpr3: word)

  /** Everything that writes `xpsr`, `it_state` or `active_exception`, except a debugger. */
  datatype Event =
    | Reset(dev: Device)
    | PendingCheck
    | HardFaulted(code: word)
    | ExceptionReturn
    | Push(list: Blocks.RegList, lr: bool)
    | Pop(list: Blocks.RegList, pc: bool)
    | AddWithCarry(a: word, b: word, carryIn: bool)
    | SetNZ(result: word)
    | SetNZC(result: word, carry: bool)
    | Saturated
    | WriteApsr(val: word)
    | It(firstcond: ItBlock.Nibble, mask: ItBlock.Nibble)
    | ItAdvance
    | Other(now: Surroundings)

  /** `cortex_emu_reset`. */
  function ResetState(s: State, dev: Device): State {
    var sp := Read(s.cfg, s.mem, dev, s.cfg.flashBase, 4);
    var entry := Read(s.cfg, s.mem, dev, Plus(s.cfg.flashBase, 4), 4);
    var regs: Regs := seq(16, _ => 0);
    s.(regs := regs[SP := sp][PC := HalfwordAligned(entry)],
       xpsr := 0x0100_0000, it := 0, active := 0, primask := 0,
       sleeping := false, halted := false, lockup := false,
       pending := {}, enabled := {}, ipr := seq(8, _ => 0), shpr2 := 0, shpr3 := 0,
       dev := dev, shadow := Empty(), faultCode := 0)
  }

  function After(s: State, e: Event): State {
    match e
    case Reset(dev) => ResetState(s, dev)
    case PendingCheck => CheckPending(s)
    case HardFaulted(code) => HardFault(s, code)
    case ExceptionReturn => ExitException(s)
    case Push(list, lr) => Blocks.Push(s, list, lr)
    case Pop(list, pc) => Blocks.Pop(s, list, pc)
    case AddWithCarry(a, b, carryIn) => s.(xpsr := Arithmetic.AddWithCarry(s.xpsr, a, b, carryIn).1)
    case SetNZ(result) => s.(xpsr := Arithmetic.SetNZ(s.xpsr, result))
    case SetNZC(result, carry) => s.(xpsr := Arithmetic.SetNZC(s.xpsr, result, carry))
    case Saturated => s.(xpsr := Arithmetic.SetQ(s.xpsr))
    case WriteApsr(val) => s.(xpsr := Arithmetic.WriteApsr(s.xpsr, val))
    case It(firstcond, mask) => if mask == 0 then s else s.(it := ItBlock.BeginIt(firstcond, mask))
    case ItAdvance => s.(it := ItBlock.AdvanceIt(s.it))
    case Other(now) =>
      s.(regs := now.regs, mem := now.mem, dev := now.dev, primask := now.primask, sleeping := now.sleeping,
         halted := now.halted, pending := now.pending, enabled := now.enabled, ipr := now.ipr,
         shpr2 := now.shpr2, shpr3 := now.shpr3)
  }

  function Run(s: State, events: seq<Event>): State
    decreases |events|
  {
    if |events| == 0 then s else Run(After(s, events[0]), events[1..])
  }

  /** The events leave nothing out: any change of registers, memory, devices, masks, requests
      and priorities is one event, and so is each IT instruction, a mask of 0 being a hint. */
  lemma OtherReaches(s: State, t: State)
    requires t == s.(regs := t.regs, mem := t.mem, dev := t.dev, primask := t.primask, sleeping := t.sleeping,
                     halted := t.halted, pending := t.pending, enabled := t.enabled, ipr := t.ipr,
                     shpr2 := t.shpr2, shpr3 := t.shpr3)
    ensures After(s, Other(Surroundings(t.regs, t.mem, t.dev, t.primask, t.sleeping, t.halted,
                                        t.pending, t.enabled, t.ipr, t.shpr2, t.shpr3))) == t
    ensures forall fc: ItBlock.Nibble, m: ItBlock.Nibble ::
      After(s, It(fc, m)) == s.(it := if m == 0 then s.it else 16 * fc + m)
  {
  }

  // ---------------------------------------------------------------- what coherence is for

  /** The three fields, put into the stacked word and taken out again as return does it. */
  function RoundTrip(x: word, it: word): (r: (word, word, int)) {
    var stacked := PackXpsr(x, it);
    (WithoutIt(stacked), UnpackIt(stacked), WithoutIt(stacked) % 512)
  }

  /** Stacking and unstacking returns all three fields if and only if the state is coherent. */
  lemma LosslessIffCoherent(s: State)
    ensures RoundTrip(s.xpsr, s.it) == (s.xpsr, s.it, s.active) <==> Coherent(s)
  {
    hide PackXpsr, WithoutIt, UnpackIt;
    PackingIsLossless(s.xpsr, s.it);
  }

  /** Two coherent states with the same stacked word agree on all three. */
  lemma StackedWordDetermines(s: State, t: State)
    requires Coherent(s) && Coherent(t) && PackXpsr(s.xpsr, s.it) == PackXpsr(t.xpsr, t.it)
    ensures s.xpsr == t.xpsr && s.it == t.it && s.active == t.active
  {
    hide PackXpsr, WithoutIt, UnpackIt, Coherent;
    LosslessIffCoherent(s);
    LosslessIffCoherent(t);
  }

  // ---------------------------------------------------------------- flag writes

  lemma FieldsOf(x: word)
    ensures var low := x % 0x800_0000;
      x / 0x200_0000 % 4 == low / 0x200_0000 && x / 0x1_0000 % 512 == low / 0x1_0000 % 512
      && x / 0x400 % 64 == low / 0x400 % 64 && x % 0x400 == low % 0x400
  {
    var top, low := x / 0x800_0000, x % 0x800_0000;
    DivMod(x, 0x800_0000);
    RemainderOfLow(x, 0x800_0000, 4, 0x200_0000);
    RemainderOfLow(x, 0x800_0000, 0x800, 0x1_0000);
    RemainderOfLow(x, 0x800_0000, 0x2_0000, 0x400);
    QuotientFits(low, 4, 0x200_0000);
    AddMultiple(4, top, low / 0x200_0000);
    AddMultiple(512, 4 * top, low / 0x1_0000);
    AddMultiple(64, 0x800 * top, low / 0x400);
  }

  lemma QuotientFits(low: nat, k: nat, e: nat)
    requires 0 < e && low < k * e
    ensures low / e < k && low / e % k == low / e
  {
    DivMod(low, e);
    if low / e >= k {
      MulMono(k, low / e, e);
    }
    AddMultiple(k, 0, low / e);
    DivModUnique(low / e, k, 0, low / e);
  }

  /** Writing bits 31:27 alone keeps the IT bits clear and the exception number. */
  lemma TopBitsKeepCoherence(x: word, y: word)
    requires x % 0x800_0000 == y % 0x800_0000 && WithoutIt(x) == x
    ensures WithoutIt(y) == y && y % 512 == x % 512
  {
    hide WithoutIt;
    ItBitsClear(x);
    ItBitsClear(y);
    FieldsOf(x);
    FieldsOf(y);
    LowNine(x);
    LowNine(y);
  }

  lemma LowNine(x: word)
    ensures x % 512 == x % 0x800_0000 % 512
  {
    RemainderOfLow(x, 0x800_0000, 0x4_0000, 512);
  }

  /** Every flag-setting helper touches bits 31:27 only. */
  lemma FlagEventsTouchTopBits(s: State, e: Event)
    requires e.AddWithCarry? || e.SetNZ? || e.SetNZC? || e.Saturated? || e.WriteApsr?
    ensures After(s, e).xpsr % 0x800_0000 == s.xpsr % 0x800_0000
    ensures After(s, e) == s.(xpsr := After(s, e).xpsr)
  {
    hide Arithmetic.AddWithCarry, Arithmetic.SetNZ, Arithmetic.SetNZC, Arithmetic.SetQ, Arithmetic.WriteApsr;
    match e
    case AddWithCarry(a, b, carryIn) =>
      Arithmetic.AddWithCarryIsExact(s.xpsr, a, b, carryIn);
      LowOf(s.xpsr, After(s, e).xpsr);
    case SetNZ(result) =>
      Arithmetic.SetNZKeepsRest(s.xpsr, result);
    case SetNZC(result, carry) =>
      Arithmetic.SetNZCKeepsRest(s.xpsr, result, carry);
    case Saturated =>
      Arithmetic.SetQKeepsRest(s.xpsr);
    case WriteApsr(val) =>
      Arithmetic.WriteApsrKeepsRest(s.xpsr, val);
  }

  lemma LowOf(x: word, y: word)
    requires x % 0x1000_0000 == y % 0x1000_0000
    ensures x % 0x800_0000 == y % 0x800_0000
  {
    RemainderOfLow(x, 0x1000_0000, 2, 0x800_0000);
    RemainderOfLow(y, 0x1000_0000, 2, 0x800_0000);
  }

  // ---------------------------------------------------------------- exception events

  lemma EntryIsCoherent(s: State, n: nat)
    requires Coherent(s) && n < 512
    ensures Coherent(EnterException(s, n))
  {
    hide TakeException, Coherent, FrameAccepted, EnterException;
    EntryOutcomes(s, n);
    var x := Attempt(s);
    var y := Attempt(Faulted(x, FAULT_STACK_OVERFLOW));
    if FrameAccepted(s, n) {
      Nesting.TakeIsCoherent(s, x, n);
    } else if s.active == HARD_FAULT {
      SameRecords(s, EnterException(s, n));
    } else {
      Nesting.TakeIsCoherent(s, y, HARD_FAULT);
    }
  }

  lemma SameRecords(s: State, s': State)
    requires Coherent(s) && s'.xpsr == s.xpsr && s'.it == s.it && s'.active == s.active
    ensures Coherent(s')
  {
  }

  lemma FaultIsCoherent(s: State, code: word)
    requires Coherent(s)
    ensures Coherent(HardFault(s, code))
  {
    hide TakeException, Coherent, EnterException;
    SameRecords(s, Faulted(s, code));
    if s.active == HARD_FAULT {
      SameRecords(s, HardFault(s, code));
    } else {
      EntryIsCoherent(Faulted(s, code), HARD_FAULT);
    }
  }

  lemma CheckIsCoherent(s: State)
    requires Coherent(s)
    ensures Coherent(CheckPending(s))
  {
    hide Coherent, EnterException, Chosen;
    if Chosen(s) != -1 {
      var n: nat := Chosen(s);
      SameRecords(s, Acknowledged(s, n));
      EntryIsCoherent(Acknowledged(s, n), n);
    }
  }

  /** Return makes any state coherent, whatever word it finds on the stack. */
  lemma ReturnIsCoherent(s: State)
    ensures Coherent(ExitException(s))
  {
    hide FrameAt, WithoutIt, UnpackIt, Unstacked, Plus;
    Nesting.StackedXpsrIsCoherent(FrameAt(s)[7]);
  }

  lemma PushIsCoherent(s: State, list: Blocks.RegList, lr: bool)
    requires Coherent(s)
    ensures Coherent(Blocks.Push(s, list, lr))
  {
    hide Coherent, HardFault, Write, Blocks.StoreLoop, StackOverflow, Plus, Minus;
    var s' := Blocks.PushStores(s, list, lr);
    SameRecords(s, s');
    FaultIsCoherent(s', FAULT_STACK_OVERFLOW);
  }

  lemma PopIsCoherent(s: State, list: Blocks.RegList, pc: bool)
    requires Coherent(s)
    ensures Coherent(Blocks.Pop(s, list, pc))
  {
    hide Coherent, ExitException, Read, Blocks.LoadLoop, Plus, Blocks.IsExcReturn, HalfwordAligned;
    var (s', target) := Blocks.PopLoads(s, list, pc);
    SameRecords(s, s');
    ReturnIsCoherent(s');
    SameRecords(s', s'.(regs := s'.regs[PC := HalfwordAligned(target)]));
  }

  lemma ItIsByte(it: word, firstcond: ItBlock.Nibble, mask: ItBlock.Nibble)
    ensures ItBlock.BeginIt(firstcond, mask) < 0x100 && ItBlock.AdvanceIt(it) < 0x100
  {
    assert it / 32 % 8 <= 7;
    assert (2 * it) % 32 <= 31;
  }

  lemma ResetIsCoherent(s: State, dev: Device)
    ensures Coherent(ResetState(s, dev))
  {
    hide Read, Plus, HalfwordAligned, WithoutIt;
    ItBitsClear(0x0100_0000);
    assert 0x0100_0000 % 512 == 0;
  }

  // ---------------------------------------------------------------- whole runs

  lemma EventKeepsCoherence(s: State, e: Event)
    requires Coherent(s)
    ensures Coherent(After(s, e))
  {
    hide ResetState, CheckPending, HardFault, ExitException, Blocks.Push, Blocks.Pop, WithoutIt;
    hide ItBlock.BeginIt, ItBlock.AdvanceIt;
    match e
    case Reset(dev) => ResetIsCoherent(s, dev);
    case PendingCheck => CheckIsCoherent(s);
    case HardFaulted(code) => FaultIsCoherent(s, code);
    case ExceptionReturn => ReturnIsCoherent(s);
    case Push(list, lr) => PushIsCoherent(s, list, lr);
    case Pop(list, pc) => PopIsCoherent(s, list, pc);
    case It(firstcond, mask) => ItIsByte(s.it, firstcond, mask);
    case ItAdvance => ItIsByte(s.it, 0, 0);
    case Other(_) =>
    case _ =>
      FlagEventsTouchTopBits(s, e);
      TopBitsKeepCoherence(s.xpsr, After(s, e).xpsr);
  }

  lemma {:induction false} RunKeepsCoherence(s: State, events: seq<Event>)
    requires Coherent(s)
    ensures Coherent(Run(s, events))
    decreases |events|
  {
    hide Coherent, After;
    if |events| == 0 {
    } else {
      EventKeepsCoherence(s, events[0]);
      RunKeepsCoherence(After(s, events[0]), events[1..]);
    }
  }

  /** In every state reachable from reset, `active_exception` is xPSR bits 8:0, xPSR has no
      bit outside 0xF9FF03FF, `it_state` is a byte, and an exception taken there stacks a
      word from which return recovers all three. */
  lemma ReachableStatesAreCoherent(s: State, dev: Device, events: seq<Event>)
    ensures var s' := Run(ResetState(s, dev), events);
      && s'.active == s'.xpsr % 512 && WithoutIt(s'.xpsr) == s'.xpsr && s'.it < 0x100
      && RoundTrip(s'.xpsr, s'.it) == (s'.xpsr, s'.it, s'.active)
  {
    hide ResetState, Run, RoundTrip, WithoutIt;
    ResetIsCoherent(s, dev);
    RunKeepsCoherence(ResetState(s, dev), events);
    LosslessIffCoherent(Run(ResetState(s, dev), events));
  }

  /** `cortex_emu_set_reg` on register 16, which leaves `active_exception` alone. */
  function DebuggerWrite(s: State, val: word): State {
    s.(xpsr := val)
  }

  /** Why debugger writes are not among the events: one that changes the exception number or
      sets an IT bit, and only such a one, makes the next exception lose state. */
  lemma DebuggerWriteLosesState(s: State, val: word)
    requires Coherent(s)
    ensures var s' := DebuggerWrite(s, val);
      RoundTrip(s'.xpsr, s'.it) != (s'.xpsr, s'.it, s'.active)
      <==> val % 512 != s.xpsr % 512 || val / 0x200_0000 % 4 != 0 || val / 0x400 % 64 != 0
  {
    hide RoundTrip, WithoutIt;
    LosslessIffCoherent(DebuggerWrite(s, val));
    ItBitsClear(val);
  }
}
