/** Nesting safety: what every run of interrupt entries, faults, handler code and returns
    keeps. The emulator has no stack of active exceptions; the chain of suspended ones
    exists only in the IPSR fields of frames in byte memory. A configuration pairs the
    processor state with the frames that ought to be there, and the invariant says that
    they are, in priority order. */
module Nesting {
  import opened Words
  import opened Memory
  import opened MemoryLaws
  import opened Cpu
  import opened Transparency

  /** A suspended context: where its frame lies, the eight words stacked, and whether the
      frame landed in SRAM at all (the HardFault frame is written without a stack check). */
  datatype Frame = Frame(addr: int, words: seq<word>, whole: bool)

  datatype Configuration = Configuration(s: State, frames: seq<Frame>)

  /** A sound map in which the 32 bytes just below SRAM are no writable memory and no
      registers, so that a HardFault frame running off the stack is dropped. */
  ghost predicate WellPlaced(cfg: Config) {
    && SoundMap(cfg) && 32 <= cfg.sramBase < 0x1_0000_0000 - STACK_GUARD_SIZE
    && forall a: word :: cfg.sramBase - 32 <= a < cfg.sramBase ==>
         !IsBitband(a) && !PeriphWrites(a) && Translate(cfg, a) < SRAM_OFFSET
  }

  predicate IsException(n: int) {
    n == HARD_FAULT || n == SYSTICK || 16 <= n < 16 + MAX_IRQ
  }

  /** The exception suspended in a frame: the IPSR field of its last word. */
  function Suspended(f: Frame): int {
    if |f.words| == 8 then f.words[7] % 512 else 0
  }

  /** The nesting chain, thread level first: level 0 is the outermost suspended context and
      level `|frames|` the running one. */
  function Level(c: Configuration, i: nat): int
    requires i <= |c.frames|
  {
    if i < |c.frames| then Suspended(c.frames[i]) else c.s.active
  }

  /** What SP must not exceed: the innermost frame, or the end of SRAM. */
  function Ceiling(c: Configuration): int {
    if |c.frames| == 0 then c.s.cfg.sramBase + c.s.cfg.sramSize else c.frames[|c.frames| - 1].addr
  }

  predicate SamePriorities(s: State, s': State) {
    s'.core == s.core && s'.ipr == s.ipr && s'.shpr2 == s.shpr2 && s'.shpr3 == s.shpr3 && s'.cfg == s.cfg
  }

  // ---------------------------------------------------------------- steps

  /** Where SP may be: in SRAM and below the ceiling. A HardFault handler may run on a
      stack that has already left SRAM. */
  predicate StackDiscipline(c: Configuration) {
    c.s.regs[SP] <= Ceiling(c) && (c.s.active == HARD_FAULT || c.s.cfg.sramBase <= c.s.regs[SP])
  }

  /** Handler or thread code: any change of registers, flags, pending and enabled
      interrupts, masks and memory that leaves the frames, the priorities and the running
      exception alone. */
  ghost predicate CodeStep(c: Configuration, c': Configuration) {
    && !c.s.halted && !c.s.lockup
    && c'.frames == c.frames
    && SamePriorities(c.s, c'.s) && c'.s.active == c.s.active && Coherent(c'.s)
    && StackDiscipline(c')
    && forall i :: 0 <= i < |c.frames| && c.frames[i].whole ==>
         SameBytes(c.s.mem, c'.s.mem, Off(c.s.cfg, c.frames[i].addr), Off(c.s.cfg, c.frames[i].addr) + 32)
  }

  function Stacked(c: Configuration): seq<Frame> {
    var addr: int := Minus(c.s.regs[SP], 32);
    c.frames + [Frame(addr, FrameWords(c.s), InSram(c.s.cfg, addr, 32))]
  }

  /** The pending check enters an interrupt, or HardFault if the stack guard trips. */
  ghost predicate InterruptStep(c: Configuration, c': Configuration) {
    && !c.s.halted && !c.s.lockup
    && Chosen(c.s) != -1
    && c' == Configuration(CheckPending(c.s), Stacked(c))
  }

  ghost predicate FaultStep(c: Configuration, c': Configuration, code: word) {
    && !c.s.halted && !c.s.lockup
    && c' == Configuration(HardFault(c.s, code), if c.s.active == HARD_FAULT then c.frames else Stacked(c))
  }

  /** An EXC_RETURN branch with SP back at the innermost frame. */
  ghost predicate ReturnStep(c: Configuration, c': Configuration) {
    && !c.s.halted && !c.s.lockup
    && |c.frames| > 0
    && var f := c.frames[|c.frames| - 1];
    && f.whole && c.s.regs[SP] == f.addr
    && c' == Configuration(ExitException(c.s), c.frames[..|c.frames| - 1])
  }

  ghost predicate Step(c: Configuration, c': Configuration) {
    || ((c.s.halted || c.s.lockup) && c' == c)
    || CodeStep(c, c')
    || InterruptStep(c, c')
    || (exists code: word :: FaultStep(c, c', code))
    || ReturnStep(c, c')
  }

  // ---------------------------------------------------------------- the invariant

  /** The frames lie in memory as recorded, each below the one outside it; only a HardFault
      that ran off the stack may have lost its own frame. */
  ghost predicate FramesInMemory(c: Configuration) {
    forall i :: 0 <= i < |c.frames| ==>
      && |c.frames[i].words| == 8
      && (c.frames[i].whole ==> Holds(c.s.cfg, c.s.mem, c.frames[i].addr, c.frames[i].words))
      && (!c.frames[i].whole ==> i == |c.frames| - 1 && c.s.active == HARD_FAULT)
      && (i + 1 < |c.frames| ==> c.frames[i + 1].addr + 32 <= c.frames[i].addr)
  }

  /** Along the chain priority drops strictly, and a HardFault is only ever innermost. */
  ghost predicate InPriorityOrder(c: Configuration) {
    && Level(c, 0) == 0
    && (forall i :: 0 <= i < |c.frames| ==> Level(c, i) != HARD_FAULT)
    && (forall j :: 0 < j <= |c.frames| ==> IsException(Level(c, j)))
    && (forall i, j :: 0 <= i < j <= |c.frames| ==>
          Level(c, j) == HARD_FAULT || PriorityOf(c.s, Level(c, j)) < PriorityOf(c.s, Level(c, i)))
  }

  ghost predicate Safe(c: Configuration) {
    && WellPlaced(c.s.cfg) && Coherent(c.s) && StackDiscipline(c)
    && FramesInMemory(c) && InPriorityOrder(c)
  }

  // ---------------------------------------------------------------- preservation

  lemma PrioritiesAgree(s: State, s': State, n: int)
    requires SamePriorities(s, s')
    ensures PriorityOf(s', n) == PriorityOf(s, n)
  {
  }

  lemma CodeStepKeepsSafe(c: Configuration, c': Configuration)
    requires Safe(c) && CodeStep(c, c')
    ensures Safe(c')
  {
    hide Holds, PriorityOf, Coherent, WellPlaced, FramesInMemory, InPriorityOrder, StackDiscipline;
    CodeKeepsFrames(c, c');
    CodeKeepsOrder(c, c');
  }

  lemma CodeKeepsFrames(c: Configuration, c': Configuration)
    requires FramesInMemory(c) && CodeStep(c, c')
    ensures FramesInMemory(c')
  {
    hide Holds, Coherent, SameBytes, StackDiscipline;
    forall i | 0 <= i < |c.frames| && c.frames[i].whole
      ensures Holds(c'.s.cfg, c'.s.mem, c.frames[i].addr, c.frames[i].words)
    {
      HoldsIfSame(c.s.cfg, c.s.mem, c'.s.mem, c.frames[i].addr, c.frames[i].words);
    }
  }

  lemma CodeKeepsOrder(c: Configuration, c': Configuration)
    requires InPriorityOrder(c) && c'.frames == c.frames && c'.s.active == c.s.active && SamePriorities(c.s, c'.s)
    ensures InPriorityOrder(c')
  {
    hide PriorityOf, IsException, Suspended;
    forall i | 0 <= i <= |c.frames| ensures Level(c', i) == Level(c, i) {
    }
    forall m: int ensures PriorityOf(c'.s, m) == PriorityOf(c.s, m) {
      PrioritiesAgree(c.s, c'.s, m);
    }
  }

  /** Nothing is chosen inside HardFault, and what is chosen outranks what is running. */
  lemma ChosenOutranks(s: State)
    requires Chosen(s) != -1
    ensures s.active == 0 || PriorityOf(s, Chosen(s)) < PriorityOf(s, s.active)
    ensures s.active != HARD_FAULT
    ensures Chosen(s) == SYSTICK || 16 <= Chosen(s) < 16 + MAX_IRQ
  {
    SelectFindsMostUrgent(s, s.pending * s.enabled);
  }

  /** Entry of `n` from the context `x` of `c`: one more frame, one more level. */
  lemma TakenKeepsSafe(c: Configuration, x: State, n: int)
    requires Safe(c) && SameContext(x, c.s) && SamePriorities(c.s, x)
    requires IsException(n) && c.s.active != HARD_FAULT
    requires n == HARD_FAULT || (InSram(c.s.cfg, Minus(c.s.regs[SP], 32), 32)
        && (c.s.active == 0 || PriorityOf(c.s, n) < PriorityOf(c.s, c.s.active)))
    ensures Safe(Configuration(TakeException(x, n), Stacked(c)))
  {
    hide TakeException, Holds, PriorityOf, Coherent, FramesInMemory, InPriorityOrder, WellPlaced, Stacked,
      Ceiling, Minus, StackDiscipline;
    var c' := Configuration(TakeException(x, n), Stacked(c));
    TakeKeepsStatics(x, n);
    SpInSram(c);
    TakeKeepsPriorities(x, n);
    TakeIsCoherent(c.s, x, n);
    EntryKeepsDiscipline(c, c');
    FramesAfterEntry(c, x, n);
    LevelsAfterEntry(c, c');
    OrderAfterEntry(c, c');
  }

  lemma EntryKeepsDiscipline(c: Configuration, c': Configuration)
    requires c'.frames == Stacked(c) && c'.s.regs[SP] == Minus(c.s.regs[SP], 32) && SamePriorities(c.s, c'.s)
    requires c'.s.active == HARD_FAULT || InSram(c.s.cfg, Minus(c.s.regs[SP], 32), 32)
    ensures StackDiscipline(c')
  {
    hide Minus;
  }

  lemma FramesAfterEntry(c: Configuration, x: State, n: int)
    requires WellPlaced(c.s.cfg) && StackDiscipline(c) && FramesInMemory(c) && SameContext(x, c.s)
    requires IsException(n) && c.s.active != HARD_FAULT
    requires n == HARD_FAULT || InSram(c.s.cfg, Minus(c.s.regs[SP], 32), 32)
    ensures FramesInMemory(Configuration(TakeException(x, n), Stacked(c)))
  {
    hide TakeException, Holds, SoundMap, FrameWords, IsException;
    assert 0 < n < 512 by { ExceptionNumbers(n); }
    MinusFits(c.s.regs[SP], 32);
    OuterFramesSurvive(c, x, n);
    var e := TakeException(x, n);
    TakeKeepsStatics(x, n);
    var f := Stacked(c)[|c.frames|];
    if f.whole {
      StackedFrameIsHeld(c, x, n);
    }
  }

  lemma ExceptionNumbers(n: int)
    requires IsException(n)
    ensures 0 < n < 512
  {
  }

  lemma LevelsAfterEntry(c: Configuration, c': Configuration)
    requires c'.frames == Stacked(c) && Coherent(c.s)
    ensures forall i :: 0 <= i <= |c.frames| ==> Level(c', i) == Level(c, i)
    ensures |c'.frames| == |c.frames| + 1
    ensures Level(c', |c.frames| + 1) == c'.s.active
  {
    hide FrameWords, Coherent;
    FrameRecordsActive(c.s);
  }

  lemma OrderAfterEntry(c: Configuration, c': Configuration)
    requires InPriorityOrder(c) && c.s.active != HARD_FAULT && SamePriorities(c.s, c'.s)
    requires |c'.frames| == |c.frames| + 1 && Level(c', |c.frames| + 1) == c'.s.active
    requires forall i :: 0 <= i <= |c.frames| ==> Level(c', i) == Level(c, i)
    requires IsException(c'.s.active)
    requires c'.s.active == HARD_FAULT || c.s.active == 0 || PriorityOf(c.s, c'.s.active) < PriorityOf(c.s, c.s.active)
    ensures InPriorityOrder(c')
  {
    hide PriorityOf, IsException;
    var k := |c.frames|;
    assert Level(c, k) == c.s.active;
    forall m: int ensures PriorityOf(c'.s, m) == PriorityOf(c.s, m) {
      PrioritiesAgree(c.s, c'.s, m);
    }
    if c.s.active == 0 {
      ThreadIsLeastUrgent(c.s, c'.s.active);
    }
    forall i, j | 0 <= i < j <= k + 1
      ensures Level(c', j) == HARD_FAULT || PriorityOf(c'.s, Level(c', j)) < PriorityOf(c'.s, Level(c', i))
    {
      if j == k + 1 && i < k {
        assert PriorityOf(c.s, Level(c, k)) < PriorityOf(c.s, Level(c, i));
      }
    }
  }

  lemma ThreadIsLeastUrgent(s: State, n: int)
    requires IsException(n)
    ensures PriorityOf(s, n) < PriorityOf(s, 0) == 256
  {
  }

  lemma FrameRecordsActive(s: State)
    requires Coherent(s)
    ensures |FrameWords(s)| == 8 && FrameWords(s)[7] % 512 == s.active
  {
    hide PackXpsr, WithoutIt;
    PackingIsLossless(s.xpsr, s.it);
  }

  lemma TakeKeepsStatics(x: State, n: nat)
    requires n < 512
    ensures var e := TakeException(x, n);
      e.cfg == x.cfg && e.core == x.core && e.active == n && e.regs[SP] == Minus(x.regs[SP], 32)
  {
    hide WriteWords, Read, FrameWords, Minus, WithException, HalfwordAligned, RegisterWrites;
  }

  /** A frame below an SP in SRAM hits no register. */
  lemma TakeKeepsPriorities(x: State, n: nat)
    requires n < 512 && WellPlaced(x.cfg) && x.cfg.sramBase <= x.regs[SP] <= x.cfg.sramBase + x.cfg.sramSize
    ensures SamePriorities(x, TakeException(x, n)) && SameRequests(x, TakeException(x, n))
  {
    hide WriteWords, Read, FrameWords, Minus, Plus, WithException, HalfwordAligned, RegisterWrites, PeriphWrites;
    var sp := Minus(x.regs[SP], 32);
    MinusFits(x.regs[SP], 32);
    forall k | 0 <= k < 8 ensures !PeriphWrites(Plus(sp, 4 * k)) {
      PlusFits(sp, 4 * k);
      var a: word := sp + 4 * k;
      if a >= x.cfg.sramBase {
        assert PlainAddr(x.cfg, a);
      }
    }
    WritesMissRegisters(x.(mem := WriteWords(x.cfg, x.mem, x.dev, sp, FrameWords(x))), sp, FrameWords(x));
  }

  lemma SpInSram(c: Configuration)
    requires StackDiscipline(c) && FramesInMemory(c) && c.s.active != HARD_FAULT
    ensures c.s.cfg.sramBase <= c.s.regs[SP] <= c.s.cfg.sramBase + c.s.cfg.sramSize
  {
    hide FramesInMemory, Ceiling;
    CeilingInSram(c);
  }

  lemma TakeIsCoherent(s: State, x: State, n: nat)
    requires n < 512 && Coherent(s) && SameContext(x, s)
    ensures Coherent(TakeException(x, n))
  {
    hide WriteWords, Read, FrameWords, Minus, HalfwordAligned, WithoutIt, WithException;
    ExceptionFieldKeepsIt(x.xpsr, n);
  }

  lemma ExceptionFieldKeepsIt(x: word, n: nat)
    requires n < 512 && WithoutIt(x) == x
    ensures WithoutIt(WithException(x, n)) == WithException(x, n)
  {
    hide WithoutIt, WithException;
    ExceptionFieldIsLow(x, n);
    FieldsAbove(x);
    FieldsAbove(WithException(x, n));
    ItBitsClear(x);
    ItBitsClear(WithException(x, n));
  }

  /** Every field above bit 9 is a field of the upper 22 bits. */
  lemma FieldsAbove(x: word)
    ensures x / 0x200_0000 == x / 0x400 / 0x8000
  {
    DivMod(x, 0x400);
    DivMod(x / 0x400, 0x8000);
    DivModUnique(x, 0x200_0000, x / 0x400 / 0x8000, x / 0x400 % 0x8000 * 0x400 + x % 0x400);
  }

  lemma ExceptionFieldIsLow(x: word, n: nat)
    requires n < 512
    ensures WithException(x, n) / 0x400 == x / 0x400
  {
    DivMod(x, 512);
    DivMod(x / 512, 2);
    DivModUnique(x, 0x400, x / 512 / 2, x / 512 % 2 * 512 + x % 512);
    DivModUnique(x / 512 * 512 + n, 0x400, x / 512 / 2, x / 512 % 2 * 512 + n);
  }

  lemma StackedFrameIsHeld(c: Configuration, x: State, n: nat)
    requires n < 512 && SoundMap(c.s.cfg) && SameContext(x, c.s)
    requires c.s.regs[SP] >= 32 && InSram(c.s.cfg, Minus(c.s.regs[SP], 32), 32)
    ensures Holds(c.s.cfg, TakeException(x, n).mem, Minus(c.s.regs[SP], 32), FrameWords(c.s))
  {
    hide TakeException, Holds, FrameWords, SoundMap;
    SameFrame(x, c.s);
    MinusFits(c.s.regs[SP], 32);
    EntryStacks(x, n);
  }

  /** The new frame is written below every frame already there. */
  lemma OuterFramesSurvive(c: Configuration, x: State, n: nat)
    requires n < 512 && WellPlaced(c.s.cfg) && SameContext(x, c.s) && FramesInMemory(c) && c.s.active != HARD_FAULT
    requires c.s.cfg.sramBase <= c.s.regs[SP] <= Ceiling(c)
    ensures forall i :: 0 <= i < |c.frames| ==>
      c.frames[i].whole && Holds(c.s.cfg, TakeException(x, n).mem, c.frames[i].addr, c.frames[i].words)
  {
    hide TakeException, Holds, SoundMap, SameBytes;
    forall i | 0 <= i < |c.frames|
      ensures c.frames[i].whole && Holds(c.s.cfg, TakeException(x, n).mem, c.frames[i].addr, c.frames[i].words)
    {
      CeilingIsLowest(c, i);
      var f := c.frames[i];
      HeldInSram(c, i);
      EntryWritesBelow(x, n, f.addr, 32);
      HoldsIfSame(c.s.cfg, c.s.mem, TakeException(x, n).mem, f.addr, f.words);
    }
  }

  lemma HeldInSram(c: Configuration, i: nat)
    requires i < |c.frames| && Holds(c.s.cfg, c.s.mem, c.frames[i].addr, c.frames[i].words) && |c.frames[i].words| == 8
    ensures InSram(c.s.cfg, c.frames[i].addr, 32)
  {
  }

  lemma {:induction false} CeilingIsLowest(c: Configuration, i: nat)
    requires i < |c.frames| && FramesInMemory(c)
    ensures Ceiling(c) <= c.frames[i].addr
    decreases |c.frames| - i
  {
    hide Holds;
    if i + 1 < |c.frames| {
      CeilingIsLowest(c, i + 1);
    }
  }

  /** A frame that starts inside SRAM, or runs off its bottom, changes nothing from SP up. */
  lemma EntryWritesBelow(x: State, n: nat, a: int, len: nat)
    requires n < 512 && WellPlaced(x.cfg) && x.cfg.sramBase <= x.regs[SP] <= a && InSram(x.cfg, a, len)
    ensures SameBytes(x.mem, TakeException(x, n).mem, Off(x.cfg, a), Off(x.cfg, a) + len)
  {
    hide WriteWords, Read, FrameWords, Minus, WithException, HalfwordAligned;
    MinusFits(x.regs[SP], 32);
    WordsBelow(x.cfg, x.mem, x.dev, x.regs[SP] - 32, FrameWords(x), x.regs[SP]);
  }

  /** Words written at addresses that end at `top`, inside or below SRAM: SRAM from `top`
      up stays as it was. */
  lemma {:induction false} WordsBelow(cfg: Config, mem: Mem, dev: Device, addr: word, ws: seq<word>, top: word)
    requires WellPlaced(cfg) && cfg.sramBase - 32 <= addr && cfg.sramBase <= top
        && addr + 4 * |ws| <= top <= cfg.sramBase + cfg.sramSize
    ensures SameBytes(mem, WriteWords(cfg, mem, dev, addr, ws), Off(cfg, top), SRAM_OFFSET + cfg.sramSize)
    decreases |ws|
  {
    hide Write, Plus;
    if |ws| == 0 {
    } else {
      PlusFits(addr, 4);
      WordBelow(cfg, mem, dev, addr, ws[0], top);
      WordsBelow(cfg, Write(cfg, mem, dev, addr, 4, ws[0]), dev, addr + 4, ws[1..], top);
    }
  }

  lemma WordBelow(cfg: Config, mem: Mem, dev: Device, addr: word, v: word, top: word)
    requires WellPlaced(cfg) && cfg.sramBase - 32 <= addr && cfg.sramBase <= top
        && addr + 4 <= top <= cfg.sramBase + cfg.sramSize
    ensures SameBytes(mem, Write(cfg, mem, dev, addr, 4, v), Off(cfg, top), SRAM_OFFSET + cfg.sramSize)
  {
    hide Translate, PeriphWrites;
    if addr >= cfg.sramBase {
      SramAccess(cfg, mem, dev, addr, 4, v);
    }
  }

  /** A frame that passes the stack guard lies in SRAM if and only if SP is not above SRAM;
      `FrameEdges` says what becomes of those that do not. */
  lemma AcceptedFrameFits(s: State, n: nat)
    requires WellPlaced(s.cfg) && n != HARD_FAULT && FrameAccepted(s, n)
    ensures InSram(s.cfg, Minus(s.regs[SP], 32), 32) <==> 32 <= s.regs[SP] <= s.cfg.sramBase + s.cfg.sramSize
  {
    if s.regs[SP] >= 32 {
      MinusFits(s.regs[SP], 32);
    }
  }

  lemma CeilingInSram(c: Configuration)
    requires FramesInMemory(c) && (c.s.active != HARD_FAULT || |c.frames| == 0)
    ensures Ceiling(c) <= c.s.cfg.sramBase + c.s.cfg.sramSize
  {
    hide WordsBytes;
  }

  lemma InterruptStepKeepsSafe(c: Configuration, c': Configuration)
    requires Safe(c) && InterruptStep(c, c')
    ensures Safe(c') && |c'.frames| == |c.frames| + 1
    ensures c'.s.active == HARD_FAULT || c'.s.active == Chosen(c.s)
  {
    hide TakeException, Holds, PriorityOf, Coherent, FramesInMemory, InPriorityOrder, WellPlaced, Stacked, Minus,
      FrameAccepted, Chosen, EnterException, Safe;
    SafeParts(c);
    ChosenOutranks(c.s);
    var n := Chosen(c.s);
    var s1 := Acknowledged(c.s, n);
    SafeHere(c);
    CeilingInSram(c);
    StackedAddsOne(c);
    EntryOutcomes(s1, n);
    assert FrameAccepted(s1, n) == FrameAccepted(c.s, n) by { GuardAgrees(c.s, s1, n); }
    if FrameAccepted(s1, n) {
      AcceptedFrameFits(c.s, n);
      TakeKeepsStatics(Attempt(s1), n);
      TakenKeepsSafe(c, Attempt(s1), n);
    } else {
      var x := Attempt(Faulted(Attempt(s1), FAULT_STACK_OVERFLOW));
      TakeKeepsStatics(x, HARD_FAULT);
      TakenKeepsSafe(c, x, HARD_FAULT);
    }
  }

  lemma GuardAgrees(s: State, s': State, n: nat)
    requires s'.cfg == s.cfg && s'.regs == s.regs
    ensures FrameAccepted(s', n) == FrameAccepted(s, n)
  {
  }

  lemma StackedAddsOne(c: Configuration)
    ensures |Stacked(c)| == |c.frames| + 1
  {
  }

  lemma SafeParts(c: Configuration)
    requires Safe(c)
    ensures WellPlaced(c.s.cfg) && StackDiscipline(c) && FramesInMemory(c) && InPriorityOrder(c) && Coherent(c.s)
  {
  }

  /** The running exception of a safe configuration is one that exists. */
  lemma SafeHere(c: Configuration)
    requires Safe(c)
    ensures c.s.active == 0 <==> |c.frames| == 0
    ensures c.s.active == 0 || IsException(c.s.active)
  {
    hide Holds, FramesInMemory, PriorityOf;
    assert Level(c, |c.frames|) == c.s.active;
  }

  lemma FaultStepKeepsSafe(c: Configuration, c': Configuration, code: word)
    requires Safe(c) && FaultStep(c, c', code)
    ensures Safe(c')
    ensures if c.s.active == HARD_FAULT then c'.s.lockup && c'.frames == c.frames
            else c'.s.active == HARD_FAULT && |c'.frames| == |c.frames| + 1
  {
    hide TakeException, Holds, PriorityOf, Coherent, FramesInMemory, InPriorityOrder, WellPlaced, Stacked, Minus,
      FrameAccepted, EnterException, StackDiscipline;
    if c.s.active == HARD_FAULT {
      LockupKeepsSafe(c, c');
    } else {
      var x := Attempt(Faulted(c.s, code));
      HardFaultTakes(c.s, code);
      StackedAddsOne(c);
      TakeKeepsStatics(x, HARD_FAULT);
      TakenKeepsSafe(c, x, HARD_FAULT);
    }
  }

  lemma HardFaultTakes(s: State, code: word)
    requires s.active != HARD_FAULT
    ensures HardFault(s, code) == TakeException(Attempt(Faulted(s, code)), HARD_FAULT)
  {
    hide TakeException;
    EntryOutcomes(Faulted(s, code), HARD_FAULT);
  }

  lemma LockupKeepsSafe(c: Configuration, c': Configuration)
    requires Safe(c) && c'.frames == c.frames && SamePriorities(c.s, c'.s)
    requires c'.s.regs == c.s.regs && c'.s.xpsr == c.s.xpsr && c'.s.it == c.s.it
        && c'.s.active == c.s.active && c'.s.mem == c.s.mem
    ensures Safe(c')
  {
    hide Holds, PriorityOf, IsException, WellPlaced, InPriorityOrder, FramesInMemory, StackDiscipline, Ceiling;
    CodeKeepsOrder(c, c');
    assert FramesInMemory(c') by { FramesStay(c, c'); }
    assert StackDiscipline(c') by { DisciplineStays(c, c'); }
  }

  lemma FramesStay(c: Configuration, c': Configuration)
    requires FramesInMemory(c) && c'.frames == c.frames
    requires c'.s.cfg == c.s.cfg && c'.s.mem == c.s.mem && c'.s.active == c.s.active
    ensures FramesInMemory(c')
  {
    hide Holds;
  }

  lemma DisciplineStays(c: Configuration, c': Configuration)
    requires StackDiscipline(c) && c'.frames == c.frames
    requires c'.s.cfg == c.s.cfg && c'.s.regs == c.s.regs && c'.s.active == c.s.active
    ensures StackDiscipline(c')
  {
  }

  /** Return hands back the context that was stacked, one level down. */
  lemma ReturnStepKeepsSafe(c: Configuration, c': Configuration)
    requires Safe(c) && ReturnStep(c, c')
    ensures Safe(c')
    ensures c'.s.active == Level(c, |c.frames| - 1) && c'.s.mem == c.s.mem
    ensures var ws := c.frames[|c.frames| - 1].words;
      && c'.s.regs == Unstacked(c.s.regs, ws) && c'.s.it == UnpackIt(ws[7]) && c'.s.xpsr == WithoutIt(ws[7])
  {
    hide Read, Holds, Plus, PackXpsr, WithoutIt, UnpackIt, PriorityOf, IsException, WellPlaced, InPriorityOrder;
    var k := |c.frames| - 1;
    var f := c.frames[k];
    PlacedIsSound(c.s.cfg);
    FrameIsRead(c.s, f.words);
    HeldInSram(c, k);
    PlusFits(f.addr, 32);
    StackedXpsrIsCoherent(f.words[7]);
    assert c'.s.regs[SP] == f.addr + 32;
    ReturnKeepsOrder(c, c');
  }

  lemma PlacedIsSound(cfg: Config)
    requires WellPlaced(cfg)
    ensures SoundMap(cfg)
  {
  }

  lemma FrameIsRead(s: State, ws: seq<word>)
    requires |ws| == 8 && SoundMap(s.cfg) && Holds(s.cfg, s.mem, s.regs[SP], ws)
    ensures FrameAt(s) == ws
  {
    hide Read, Holds, Plus;
    forall k | 0 <= k < 8
      ensures FrameAt(s)[k] == ws[k]
    {
      ReadHeldWord(s.cfg, s.mem, s.dev, s.regs[SP], ws, k);
    }
  }

  lemma StackedXpsrIsCoherent(x: word)
    ensures WithoutIt(WithoutIt(x)) == WithoutIt(x) && WithoutIt(x) % 512 == x % 512 && UnpackIt(x) < 0x100
  {
    hide PackXpsr, WithoutIt;
    PackingIsLossless(x, 0);
  }

  lemma ReturnKeepsOrder(c: Configuration, c': Configuration)
    requires InPriorityOrder(c) && |c.frames| > 0 && c'.frames == c.frames[..|c.frames| - 1]
    requires c'.s.active == Suspended(c.frames[|c.frames| - 1]) && SamePriorities(c.s, c'.s)
    ensures InPriorityOrder(c')
  {
    hide PriorityOf, IsException, Suspended;
    forall i | 0 <= i <= |c'.frames| ensures Level(c', i) == Level(c, i) {
    }
    forall m: int ensures PriorityOf(c'.s, m) == PriorityOf(c.s, m) {
      PrioritiesAgree(c.s, c'.s, m);
    }
  }

  lemma StepKeepsSafe(c: Configuration, c': Configuration)
    requires Safe(c) && Step(c, c')
    ensures Safe(c')
  {
    hide Safe, CodeStep, InterruptStep, FaultStep, ReturnStep;
    if (c.s.halted || c.s.lockup) && c' == c {
    } else if CodeStep(c, c') {
      CodeStepKeepsSafe(c, c');
    } else if InterruptStep(c, c') {
      InterruptStepKeepsSafe(c, c');
    } else if ReturnStep(c, c') {
      ReturnStepKeepsSafe(c, c');
    } else {
      var code: word :| FaultStep(c, c', code);
      FaultStepKeepsSafe(c, c', code);
    }
  }

  // ---------------------------------------------------------------- whole runs

  ghost predicate IsRun(run: seq<Configuration>) {
    |run| > 0 && Safe(run[0]) && forall k :: 0 <= k < |run| - 1 ==> Step(run[k], run[k + 1])
  }

  lemma {:induction false} RunStaysSafe(run: seq<Configuration>, k: nat)
    requires IsRun(run) && k < |run|
    ensures Safe(run[k])
  {
    hide Safe, Step;
    if k == 0 {
    } else {
      RunStaysSafe(run, k - 1);
      assert Step(run[k - 1], run[k - 1 + 1]);
      StepKeepsSafe(run[k - 1], run[k]);
    }
  }

  /** The chain as a debugger reads it back: the running exception, then the IPSR field of
      the word 28 bytes above each frame address. */
  function ReadIpsr(s: State, addr: int): int {
    Read(s.cfg, s.mem, s.dev, Plus(addr, 28), 4) % 512
  }

  lemma StackedIpsrReadsBack(c: Configuration, i: nat)
    requires Safe(c) && i < |c.frames| && c.frames[i].whole
    ensures ReadIpsr(c.s, c.frames[i].addr) == Level(c, i)
  {
    hide Read, Holds, Plus;
    HeldInSram(c, i);
    ReadHeldWord(c.s.cfg, c.s.mem, c.s.dev, c.frames[i].addr, c.frames[i].words, 7);
  }

  /** The priority values of IRQs and SysTick. */
  function PriorityValues(core: nat): nat {
    if core <= CORE_M0PLUS then 4 else 256
  }

  /** The deepest nesting: on M0 and M0+ one exception per priority value, and HardFault; on
      the others every exception there is. */
  function MaxDepth(core: nat): nat {
    if core <= CORE_M0PLUS then 5 else 34
  }

  lemma {:induction false} PriorityBudget(c: Configuration, j: nat)
    requires InPriorityOrder(c) && 0 < j <= |c.frames| && Level(c, j) != HARD_FAULT
    ensures PriorityOf(c.s, Level(c, j)) + j <= PriorityValues(c.s.core)
    decreases j
  {
    hide IsException, Suspended, InPriorityOrder, PriorityOf;
    LevelPriority(c, j);
    if j > 1 {
      LevelsDiffer(c, j - 1, j);
      PriorityBudget(c, j - 1);
    }
  }

  lemma LevelPriority(c: Configuration, j: nat)
    requires InPriorityOrder(c) && 0 < j <= |c.frames|
    ensures PriorityOf(c.s, Level(c, j)) < PriorityValues(c.s.core)
  {
    hide IrqPriority, SysPriority, Suspended;
    assert IsException(Level(c, j));
  }

  lemma LevelsDiffer(c: Configuration, i: nat, j: nat)
    requires InPriorityOrder(c) && i < j <= |c.frames|
    ensures Level(c, i) != HARD_FAULT
    ensures Level(c, j) == HARD_FAULT || PriorityOf(c.s, Level(c, j)) < PriorityOf(c.s, Level(c, i))
    ensures Level(c, i) != Level(c, j)
  {
    hide PriorityOf, IsException, Suspended;
  }

  /** The exceptions that are active on levels 1 to `n`. */
  ghost function ActiveUpTo(c: Configuration, n: nat): set<int>
    requires n <= |c.frames|
  {
    set i | 0 < i <= n :: Level(c, i)
  }

  lemma {:induction false} NoneTwice(c: Configuration, n: nat)
    requires InPriorityOrder(c) && n <= |c.frames|
    ensures |ActiveUpTo(c, n)| == n
    decreases n
  {
    hide PriorityOf, IsException, Level, InPriorityOrder;
    if n == 0 {
      assert ActiveUpTo(c, 0) == {};
    } else {
      NoneTwice(c, n - 1);
      forall i | 0 < i < n ensures Level(c, i) != Level(c, n) {
        LevelsDiffer(c, i, n);
      }
      assert Level(c, n) !in ActiveUpTo(c, n - 1);
      assert ActiveUpTo(c, n) == ActiveUpTo(c, n - 1) + {Level(c, n)};
    }
  }

  ghost function Exceptions(): set<int> {
    {HARD_FAULT, SYSTICK} + Irqs(MAX_IRQ)
  }

  ghost function Irqs(n: nat): (js: set<int>)
    ensures |js| == n && forall j :: j in js <==> 16 <= j < 16 + n
  {
    if n == 0 then {} else Irqs(n - 1) + {15 + n}
  }

  lemma ExceptionCount()
    ensures |Exceptions()| == 34
    ensures forall n :: IsException(n) ==> n in Exceptions()
  {
    hide Irqs;
    assert |{HARD_FAULT, SYSTICK}| == 2;
    assert {HARD_FAULT, SYSTICK} !! Irqs(MAX_IRQ);
  }

  lemma SubsetCount(a: set<int>, b: set<int>)
    requires a <= b
    ensures |a| <= |b|
  {
    assert b == a + (b - a);
  }

  lemma DepthByCount(c: Configuration)
    requires InPriorityOrder(c)
    ensures |c.frames| <= 34
  {
    hide PriorityOf, Level, IsException, Exceptions;
    NoneTwice(c, |c.frames|);
    ExceptionCount();
    SubsetCount(ActiveUpTo(c, |c.frames|), Exceptions());
  }

  lemma DepthIsBounded(c: Configuration)
    requires InPriorityOrder(c)
    ensures |c.frames| <= MaxDepth(c.s.core)
  {
    hide PriorityOf, IsException, Suspended, InPriorityOrder;
    var n := |c.frames|;
    DepthByCount(c);
    if n > 1 {
      LevelsDiffer(c, n - 1, n);
      PriorityBudget(c, n - 1);
    }
  }

  /** Nesting safety, at every point of every run: the frames in memory give back the chain
      of suspended exceptions; along it priority values drop strictly and no exception
      appears twice, except that HardFault, whatever it interrupts, may be innermost; and
      the chain is no longer than the priorities and the exceptions there are allow. */
  lemma NestingSafety(run: seq<Configuration>, k: nat)
    requires IsRun(run) && k < |run|
    ensures var c := run[k];
      && |c.frames| <= MaxDepth(c.s.core)
      && (c.s.active == 0 <==> |c.frames| == 0)
      && (forall i :: 0 <= i < |c.frames| && c.frames[i].whole ==> ReadIpsr(c.s, c.frames[i].addr) == Level(c, i))
      && (forall i :: 0 <= i < |c.frames| && !c.frames[i].whole ==> i == |c.frames| - 1 && c.s.active == HARD_FAULT)
      && (forall i, j :: 0 <= i < j <= |c.frames| ==>
            && Level(c, i) != HARD_FAULT
            && Level(c, i) != Level(c, j)
            && (Level(c, j) == HARD_FAULT || PriorityOf(c.s, Level(c, j)) < PriorityOf(c.s, Level(c, i))))
  {
    hide Safe, Step, IsRun, PriorityOf, Suspended, ReadIpsr, Level, InPriorityOrder, FramesInMemory;
    var c := run[k];
    RunStaysSafe(run, k);
    SafeParts(c);
    SafeHere(c);
    DepthIsBounded(c);
    forall i | 0 <= i < |c.frames| && c.frames[i].whole
      ensures ReadIpsr(c.s, c.frames[i].addr) == Level(c, i)
    {
      StackedIpsrReadsBack(c, i);
    }
    OnlyHardFaultLosesItsFrame(c);
    forall i: nat, j: nat | 0 <= i < j <= |c.frames|
      ensures && Level(c, i) != HARD_FAULT && Level(c, i) != Level(c, j)
              && (Level(c, j) == HARD_FAULT || PriorityOf(c.s, Level(c, j)) < PriorityOf(c.s, Level(c, i)))
    {
      LevelsDiffer(c, i, j);
    }
  }

  lemma OnlyHardFaultLosesItsFrame(c: Configuration)
    requires FramesInMemory(c)
    ensures forall i :: 0 <= i < |c.frames| && !c.frames[i].whole ==> i == |c.frames| - 1 && c.s.active == HARD_FAULT
  {
    hide Holds;
  }

  /** Every state out of reset with SP in SRAM starts a run. */
  lemma ThreadModeIsSafe(s: State)
    requires WellPlaced(s.cfg) && Coherent(s) && s.active == 0
    requires s.cfg.sramBase <= s.regs[SP] <= s.cfg.sramBase + s.cfg.sramSize
    ensures Safe(Configuration(s, []))
  {
    hide WellPlaced, Coherent, PriorityOf, IsException;
  }
}
