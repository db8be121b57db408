/** The processor state and the exception mechanism (`src/cpu_exceptions.c`) as functions
    on values. The class `Cortex.CortexEmu` performs the same steps in place. */
module Cpu {
  import opened Words
  import opened Memory
  import opened MemoryLaws
  import opened ShadowStack

  const SP: nat := 13
  const LR: nat := 14
  const PC: nat := 15
  const SYSTICK: nat := 15
  const HARD_FAULT: nat := 3
  const SYSTICK_BIT: nat := 31
  const MAX_IRQ: nat := 32
  const STACK_GUARD_SIZE: nat := 64
  const CORE_M0PLUS: nat := 1
  const FAULT_STACK_OVERFLOW: word := 3

  // NVIC registers that hold or change the enabled and pending interrupts, and the SCB
  // register that can ask for a reset.
  const ISER: word := 0xE000_E100
  const ICER: word := 0xE000_E180
  const ISPR: word := 0xE000_E200
  const ICPR: word := 0xE000_E280
  const AIRCR: word := 0xE000_ED0C

  type Regs = r: seq<word> | |r| == 16 witness seq(16, _ => 0)
  type Priorities = p: seq<word> | |p| == 8 witness seq(8, _ => 0)

  /** A 32-bit NVIC mask, as the set of its one bits. */
  type Mask = m: set<nat> | forall i :: i in m ==> i < MAX_IRQ witness {}

  datatype State = State(
    cfg: Config,
    core: nat,
    regs: Regs,
    xpsr: word,
    it: word,
    active: int,
    primask: word,
    sleeping: bool,
    halted: bool,
    lockup: bool,
    pending: Mask,
    enabled: Mask,
    ipr: Priorities,
    shpr2: word,
    shpr3: word,
    mem: Mem,
    dev: Device,
    shadow: Shadow,
    entries: word,
    exits: word,
    faults: word,
    faultCode: word)

  // ---------------------------------------------------------------- xPSR fields

  /** A word laid out as five fields, from bits 31:27, 26:25, 24:16, 15:10 and 9:0. */
  function Fields(a: nat, b: nat, c: nat, d: nat, e: nat): nat {
    a * 0x800_0000 + b * 0x200_0000 + c * 0x1_0000 + d * 0x400 + e
  }

  predicate InRange(a: nat, b: nat, c: nat, d: nat, e: nat) {
    a < 32 && b < 4 && c < 512 && d < 64 && e < 1024
  }

  /** `x & 0xF9FF03FF`: bits 26:25 and 15:10 cleared. */
  function WithoutIt(x: word): word {
    Fields(x / 0x800_0000, 0, x / 0x1_0000 % 512, 0, x % 0x400)
  }

  /** The stacked xPSR: `it` goes to bits 26:25 (its low two bits) and 15:10 (the others). */
  function PackXpsr(x: word, it: word): word {
    Fields(x / 0x800_0000, it % 4, x / 0x1_0000 % 512, it / 4 % 64, x % 0x400)
  }

  function UnpackIt(stacked: word): word {
    stacked / 0x200_0000 % 4 + (stacked / 0x400 % 64) * 4
  }

  lemma FieldsSplit(a: nat, b: nat, c: nat, d: nat, e: nat)
    requires InRange(a, b, c, d, e)
    ensures var x := Fields(a, b, c, d, e);
      && 0 <= x < 0x1_0000_0000
      && x / 0x800_0000 == a && x / 0x200_0000 % 4 == b && x / 0x1_0000 % 512 == c
      && x / 0x400 % 64 == d && x % 0x400 == e
  {
    var x := Fields(a, b, c, d, e);
    assert x / 0x400 == a * 0x2_0000 + b * 0x8000 + c * 64 + d;
    assert x / 0x1_0000 == a * 0x800 + b * 0x200 + c;
    assert x / 0x200_0000 == a * 4 + b;
  }

  lemma PackingIsLossless(x: word, it: word)
    ensures WithoutIt(PackXpsr(x, it)) == WithoutIt(x)
    ensures UnpackIt(PackXpsr(x, it)) == it % 0x100
    ensures WithoutIt(WithoutIt(x)) == WithoutIt(x)
    ensures WithoutIt(x) % 512 == x % 512 == PackXpsr(x, it) % 512
  {
    FieldsSplit(x / 0x800_0000, it % 4, x / 0x1_0000 % 512, it / 4 % 64, x % 0x400);
    FieldsSplit(x / 0x800_0000, 0, x / 0x1_0000 % 512, 0, x % 0x400);
    ByteSplit(it);
    LowBits(x / 0x800_0000, it % 4, x / 0x1_0000 % 512, it / 4 % 64, x);
    LowBits(x / 0x800_0000, 0, x / 0x1_0000 % 512, 0, x);
  }

  lemma ByteSplit(it: word)
    ensures it % 0x100 == it % 4 + (it / 4 % 64) * 4
  {
    RemainderOfLow(it, 0x100, 64, 4);
    AddMultiple(64, it / 0x100, it % 0x100 / 4);
    DivMod(it % 0x100, 4);
  }

  lemma LowBits(a: nat, b: nat, c: nat, d: nat, x: nat)
    ensures Fields(a, b, c, d, x % 0x400) % 512 == x % 512
  {
    AddMultiple(512, a * 0x4_0000 + b * 0x1_0000 + c * 0x80 + d * 2, x % 0x400);
    RemainderOfLow(x, 0x400, 2, 512);
  }

  lemma FieldsCompose(x: word)
    ensures x == Fields(x / 0x800_0000, x / 0x200_0000 % 4, x / 0x1_0000 % 512, x / 0x400 % 64, x % 0x400)
  {
    assert x / 0x1_0000 == x / 0x400 / 64;
    assert x / 0x200_0000 == x / 0x1_0000 / 512;
    assert x / 0x800_0000 == x / 0x200_0000 / 4;
  }

  /** The IT bits are clear exactly when masking them off changes nothing. */
  lemma ItBitsClear(x: word)
    ensures WithoutIt(x) == x <==> x / 0x200_0000 % 4 == 0 && x / 0x400 % 64 == 0
  {
    FieldsCompose(x);
  }

  // ---------------------------------------------------------------- priorities

  function IrqPriority(s: State, irq: int): (p: nat)
    ensures p < 256
    ensures 0 <= irq < MAX_IRQ && s.core <= CORE_M0PLUS ==> p < 4
  {
    if irq < 0 || irq >= MAX_IRQ then 255
    else
      var prio := ByteOf(s.ipr[irq / 4], irq % 4);
      if s.core <= CORE_M0PLUS then prio / 64 else prio
  }

  function SysPriority(s: State, exc: int): (p: nat)
    ensures p < 256
    ensures s.core <= CORE_M0PLUS ==> p < 4
  {
    if exc <= 3 then 0
    else
      var b := if 8 <= exc <= 11 then ByteOf(s.shpr2, exc - 8)
               else if 12 <= exc <= 15 then ByteOf(s.shpr3, exc - 12)
               else 0;
      if s.core <= CORE_M0PLUS then b / 64 else b
  }

  function PriorityOf(s: State, exc: int): nat {
    if exc == 0 then 256
    else if exc < 16 then SysPriority(s, exc)
    else IrqPriority(s, exc - 16)
  }

  /** The priority of an IRQ is its own byte of the eight IPR words, read as memory; M0 and
      M0+ implement its top two bits only. */
  lemma IrqPriorityIsItsByte(s: State, irq: nat)
    requires irq < MAX_IRQ
    ensures var bytes := WordsBytes(s.ipr);
      |bytes| == 32 && IrqPriority(s, irq) == if s.core <= CORE_M0PLUS then bytes[irq] / 64 else bytes[irq]
  {
    WordsBytesAt(s.ipr, irq / 4);
    ByteOfBytes(s.ipr[irq / 4], irq % 4);
  }

  /** Likewise for exceptions 8 to 15 and the words SHPR2 and SHPR3. */
  lemma SysPriorityIsItsByte(s: State, exc: nat)
    requires 8 <= exc < 16
    ensures var bytes := WordsBytes([s.shpr2, s.shpr3]);
      |bytes| == 8 && SysPriority(s, exc) == if s.core <= CORE_M0PLUS then bytes[exc - 8] / 64 else bytes[exc - 8]
  {
    var ws := [s.shpr2, s.shpr3];
    WordsBytesAt(ws, exc / 4 - 2);
    ByteOfBytes(ws[exc / 4 - 2], exc % 4);
  }

  lemma ByteOfBytes(w: word, k: nat)
    requires k < 4
    ensures Bytes(w, 4)[k] == ByteOf(w, k)
  {
    var a, b, c := w / 0x100, w / 0x1_0000, w / 0x100_0000;
    Shifted(w);
    assert Bytes(w, 4) == [w % 0x100] + Bytes(a, 3);
    assert Bytes(a, 3) == [a % 0x100] + Bytes(b, 2);
    assert Bytes(b, 2) == [b % 0x100] + Bytes(c, 1);
    assert Bytes(c, 1)[0] == c;
  }

  lemma Shifted(w: word)
    ensures w / 0x100 / 0x100 == w / 0x1_0000 && w / 0x1_0000 / 0x100 == w / 0x100_0000
        && w / 0x100_0000 % 0x100 == w / 0x100_0000
  {
  }

  // ---------------------------------------------------------------- entry and return

  predicate StackOverflow(cfg: Config, sp: word) {
    sp < Wrap(cfg.sramBase + STACK_GUARD_SIZE) || sp > Wrap(cfg.sramBase + cfg.sramSize)
  }

  function FrameWords(s: State): (ws: seq<word>)
    ensures |ws| == 8
  {
    [s.regs[0], s.regs[1], s.regs[2], s.regs[3], s.regs[12], s.regs[LR], s.regs[PC], PackXpsr(s.xpsr, s.it)]
  }

  /** `addr & ~1`. */
  function HalfwordAligned(addr: word): word {
    addr / 2 * 2
  }

  /** `(x & 0xFFFFFE00) | n`. */
  function WithException(x: word, n: nat): (r: word)
    requires n < 512
    ensures r % 512 == n
  {
    x / 512 * 512 + n
  }

  /** The one bits of a word written to a register. */
  function BitsOf(w: word): Mask {
    set k | 0 <= k < 32 && BitOf(w, k) == 1
  }

  /** The word whose one bits are those below `n` of `m`. */
  function WordBelow(m: Mask, n: nat): (w: nat)
    requires n <= 32
    ensures w < Pow2(n)
  {
    if n == 0 then 0 else WordBelow(m, n - 1) + if n - 1 in m then Pow2(n - 1) else 0
  }

  function WordOf(m: Mask): word {
    Pow2Top();
    WordBelow(m, 32)
  }

  /** What a store does to the NVIC and to the priority registers of the SCB
      (`emu_nvic_write`, `emu_scb_write`); most stores do nothing to either. */
  function RegisterWrite(s: State, addr: word, val: word): (r: State)
    ensures r == s.(pending := r.pending, enabled := r.enabled, ipr := r.ipr, shpr2 := r.shpr2, shpr3 := r.shpr3)
  {
    if addr == ISER then s.(enabled := s.enabled + BitsOf(val))
    else if addr == ICER then s.(enabled := s.enabled - BitsOf(val))
    else if addr == ISPR then s.(pending := s.pending + BitsOf(val))
    else if addr == ICPR then s.(pending := s.pending - BitsOf(val))
    else if 0xE000_E400 <= addr < 0xE000_E420 then s.(ipr := s.ipr[(addr - 0xE000_E400) / 4 := val])
    else if addr == 0xE000_ED1C then s.(shpr2 := val)
    else if addr == 0xE000_ED20 then s.(shpr3 := val)
    else s
  }

  /** The same for words stored at ascending addresses. */
  function RegisterWrites(s: State, addr: word, ws: seq<word>): (r: State)
    ensures r == s.(pending := r.pending, enabled := r.enabled, ipr := r.ipr, shpr2 := r.shpr2, shpr3 := r.shpr3)
    decreases |ws|
  {
    if |ws| == 0 then s else RegisterWrites(RegisterWrite(s, addr, ws[0]), Plus(addr, 4), ws[1..])
  }

  lemma RegisterWritesStep(s: State, addr: word, ws: seq<word>, k: nat)
    requires k < |ws|
    ensures RegisterWrites(s, Plus(addr, 4 * k), ws[k..])
         == RegisterWrites(RegisterWrite(s, Plus(addr, 4 * k), ws[k]), Plus(addr, 4 * (k + 1)), ws[k + 1..])
  {
    hide RegisterWrite, Plus;
    PlusPlus(addr, 4 * k, 4);
    assert ws[k..][0] == ws[k] && ws[k..][1..] == ws[k + 1..];
  }

  lemma FourRegisterWrites(s0: State, s1: State, s2: State, s3: State, s4: State, addr: word, ws: seq<word>)
    requires |ws| >= 4
    requires s1 == RegisterWrite(s0, addr, ws[0]) && s2 == RegisterWrite(s1, Plus(addr, 4), ws[1])
    requires s3 == RegisterWrite(s2, Plus(addr, 8), ws[2]) && s4 == RegisterWrite(s3, Plus(addr, 12), ws[3])
    ensures RegisterWrites(s0, addr, ws) == RegisterWrites(s4, Plus(addr, 16), ws[4..])
  {
    hide RegisterWrite, RegisterWrites, Plus;
    PlusFits(addr, 0);
    assert ws[0..] == ws;
    RegisterWritesStep(s0, addr, ws, 0);
    RegisterWritesStep(s1, addr, ws, 1);
    RegisterWritesStep(s2, addr, ws, 2);
    RegisterWritesStep(s3, addr, ws, 3);
  }

  lemma NoRegisterWrites(s: State, addr: word, ws: seq<word>)
    requires |ws| == 0
    ensures RegisterWrites(s, addr, ws) == s
  {
  }

  /** The part of exception entry after the stack check. A frame may lie anywhere, register
      space included. */
  function TakeException(s: State, n: nat): State
    requires n < 512
  {
    var sp := Minus(s.regs[SP], 32);
    var mem := WriteWords(s.cfg, s.mem, s.dev, sp, FrameWords(s));
    var vector := Read(s.cfg, mem, s.dev, 4 * n, 4);
    AfterEntry(RegisterWrites(s.(mem := mem), sp, FrameWords(s)), n, sp, vector)
  }

  function AfterEntry(s: State, n: nat, sp: word, vector: word): State
    requires n < 512
  {
    s.(regs := EntryRegs(s.regs, sp, s.active, vector),
       active := n,
       xpsr := WithException(s.xpsr, n),
       it := 0)
  }

  function EntryRegs(regs: Regs, sp: word, active: int, vector: word): Regs {
    regs[SP := sp][LR := if active != 0 then 0xFFFF_FFF1 else 0xFFFF_FFF9][PC := HalfwordAligned(vector)]
  }

  /** Whether exception entry for `n` gets past the stack guard. */
  predicate FrameAccepted(s: State, n: nat) {
    n == HARD_FAULT || !StackOverflow(s.cfg, Minus(s.regs[SP], 32))
  }

  /** The bookkeeping of one entry attempt. */
  function Attempt(s: State): State
  {
    s.(entries := Plus(s.entries, 1), shadow := s.shadow.Record(s.regs[PC], Minus(s.regs[SP], 32)))
  }

  function Faulted(s: State, code: word): State {
    s.(faults := Plus(s.faults, 1), faultCode := code)
  }

  function EnterException(s: State, n: nat): State
    requires n < 512
    decreases if n == HARD_FAULT then 0 else 2
  {
    if FrameAccepted(s, n) then TakeException(Attempt(s), n)
    else HardFault(Attempt(s), FAULT_STACK_OVERFLOW)
  }

  function HardFault(s: State, code: word): State
    decreases 1
  {
    if s.active == HARD_FAULT then Faulted(s, code).(lockup := true, halted := true)
    else EnterException(Faulted(s, code), HARD_FAULT)
  }

  /** The eight words at the stack pointer. */
  function FrameAt(s: State): (ws: seq<word>)
    ensures |ws| == 8
  {
    ReadWords(s.cfg, s.mem, s.dev, s.regs[SP], 8)
  }

  function Unstacked(regs: Regs, ws: seq<word>): Regs
    requires |ws| == 8
  {
    [ws[0], ws[1], ws[2], ws[3]] + regs[4..12] + [ws[4], Plus(regs[SP], 32), ws[5], ws[6]]
  }

  lemma UnstackedInOrder(regs: Regs, ws: seq<word>)
    requires |ws| == 8
    ensures Unstacked(regs, ws)
         == var r := regs[0 := ws[0]][1 := ws[1]][2 := ws[2]][3 := ws[3]];
            r[12 := ws[4]][LR := ws[5]][PC := ws[6]][SP := Plus(regs[SP], 32)]
  {
  }

  function ExitException(s: State): State {
    var ws := FrameAt(s);
    s.(exits := Plus(s.exits, 1),
       regs := Unstacked(s.regs, ws),
       it := UnpackIt(ws[7]),
       xpsr := WithoutIt(ws[7]),
       active := WithoutIt(ws[7]) % 512)
  }

  // ---------------------------------------------------------------- interrupt selection

  /** The selection loop from IRQ `i` on, holding the best candidate so far. */
  function Select(s: State, candidates: Mask, i: nat, best: int, prio: nat): (r: (int, nat))
    requires i <= MAX_IRQ
    decreases MAX_IRQ - i
  {
    if i == MAX_IRQ then (best, prio)
    else if i in candidates && IrqPriority(s, i) < prio then Select(s, candidates, i + 1, i, IrqPriority(s, i))
    else Select(s, candidates, i + 1, best, prio)
  }

  /** The exception that the pending check enters, or -1. */
  function Chosen(s: State): (n: int)
    ensures n == -1 || n == SYSTICK || 16 <= n < 16 + MAX_IRQ
  {
    if s.primask % 2 == 1 then -1
    else
      var active := PriorityOf(s, s.active);
      if SYSTICK_BIT in s.pending && (s.active == 0 || SysPriority(s, SYSTICK) < active) then SYSTICK
      else
        var (irq, prio) := Select(s, s.pending * s.enabled, 0, -1, 256);
        if 0 <= irq < MAX_IRQ && (s.active == 0 || prio < active) then irq + 16 else -1
  }

  /** The state in which exception `n` is entered: its pending bit is gone. */
  function Acknowledged(s: State, n: nat): State {
    s.(pending := s.pending - {if n == SYSTICK then SYSTICK_BIT else n - 16})
  }

  /** `emu_check_pending_interrupts`. */
  function CheckPending(s: State): State {
    var n := Chosen(s);
    if n == -1 then s else EnterException(Acknowledged(s, n), n)
  }

  /** IRQ `b` is first among `candidates` by priority value, then by number. */
  ghost predicate IsMostUrgent(s: State, candidates: Mask, b: nat) {
    && b in candidates
    && forall j :: j in candidates ==>
         IrqPriority(s, b) < IrqPriority(s, j) || (IrqPriority(s, b) == IrqPriority(s, j) && b <= j)
  }

  lemma {:induction false} SelectFromFindsLeast(s: State, candidates: Mask, i: nat, best: int, prio: nat)
    requires i <= MAX_IRQ && prio <= 256
    requires best == -1 ==> prio == 256
    requires best != -1 ==> 0 <= best < i && best in candidates && prio == IrqPriority(s, best)
    requires forall j :: j in candidates && j < i ==>
      best != -1 && (prio < IrqPriority(s, j) || (prio == IrqPriority(s, j) && best <= j))
    ensures var r := Select(s, candidates, i, best, prio);
      if candidates == {} then r == (-1, 256)
      else 0 <= r.0 < MAX_IRQ && r.1 == IrqPriority(s, r.0) && IsMostUrgent(s, candidates, r.0)
    decreases MAX_IRQ - i
  {
    hide IrqPriority;
    if i == MAX_IRQ {
      if candidates != {} {
        var j :| j in candidates;
        assert j < MAX_IRQ;
      }
    } else if i in candidates && IrqPriority(s, i) < prio {
      SelectFromFindsLeast(s, candidates, i + 1, i, IrqPriority(s, i));
    } else {
      SelectFromFindsLeast(s, candidates, i + 1, best, prio);
    }
  }

  /** The selection loop finds the lexicographic minimum of (priority, IRQ number). */
  lemma SelectFindsMostUrgent(s: State, candidates: Mask)
    ensures var r := Select(s, candidates, 0, -1, 256);
      if candidates == {} then r == (-1, 256)
      else 0 <= r.0 < MAX_IRQ && r.1 == IrqPriority(s, r.0) && IsMostUrgent(s, candidates, r.0)
  {
    SelectFromFindsLeast(s, candidates, 0, -1, 256);
  }

  /** The three outcomes of exception entry: the exception is taken, a stack overflow is
      taken as HardFault, or an overflow inside HardFault locks the core up. */
  lemma EntryOutcomes(s: State, n: nat)
    requires n < 512
    ensures EnterException(s, n) ==
      if FrameAccepted(s, n) then TakeException(Attempt(s), n)
      else if s.active == HARD_FAULT then Faulted(Attempt(s), FAULT_STACK_OVERFLOW).(lockup := true, halted := true)
      else TakeException(Attempt(Faulted(Attempt(s), FAULT_STACK_OVERFLOW)), HARD_FAULT)
  {
    hide WriteWords, Read, TakeException;
    if !FrameAccepted(s, n) {
      assert EnterException(s, n) == HardFault(Attempt(s), FAULT_STACK_OVERFLOW);
      if s.active != HARD_FAULT {
        assert HardFault(Attempt(s), FAULT_STACK_OVERFLOW)
            == EnterException(Faulted(Attempt(s), FAULT_STACK_OVERFLOW), HARD_FAULT);
      }
    }
  }

  // ---------------------------------------------------------------- frames and registers

  /** Where word `k` of a frame below `sp` goes. */
  function FrameAddr(sp: word, k: nat): word {
    Plus(Minus(sp, 32), 4 * k)
  }

  predicate IsRequestRegister(a: word) {
    a == ISER || a == ICER || a == ISPR || a == ICPR
  }

  /** The frame reaches no peripheral but the NVIC and the SCB, and does not ask for a reset. */
  predicate FrameStaysHome(sp: word) {
    forall k :: 0 <= k < 8 ==>
      var a := FrameAddr(sp, k);
      a != AIRCR && (ReachesPeripheral(a) ==> a >= 0xE000_E000)
  }

  /** Nor does it hit a register of enabled or pending interrupts. */
  predicate FrameSparesRequests(sp: word) {
    FrameStaysHome(sp) && forall k :: 0 <= k < 8 ==> !IsRequestRegister(FrameAddr(sp, k))
  }

  ghost predicate SameRequests(s: State, s': State) {
    s'.pending == s.pending && s'.enabled == s.enabled
  }

  lemma {:induction false} WritesKeepRequests(s: State, addr: word, ws: seq<word>)
    requires forall k :: 0 <= k < |ws| ==> !IsRequestRegister(Plus(addr, 4 * k))
    ensures SameRequests(s, RegisterWrites(s, addr, ws))
    decreases |ws|
  {
    hide Plus, BitsOf, IsRequestRegister;
    if |ws| > 0 {
      PlusFits(addr, 0);
      assert !IsRequestRegister(Plus(addr, 4 * 0));
      OneWriteKeepsRequests(s, addr, ws[0]);
      forall k | 0 <= k < |ws| - 1 ensures !IsRequestRegister(Plus(Plus(addr, 4), 4 * k)) {
        PlusPlus(addr, 4, 4 * k);
        assert !IsRequestRegister(Plus(addr, 4 * (k + 1)));
      }
      WritesKeepRequests(RegisterWrite(s, addr, ws[0]), Plus(addr, 4), ws[1..]);
    }
  }

  /** A store that no peripheral takes changes no register. */
  lemma WriteMissesRegisters(s: State, addr: word, v: word)
    requires !PeriphWrites(addr)
    ensures RegisterWrite(s, addr, v) == s
  {
    assert PERIPH_WINDOWS[0] == (0xE000_E100, 0xE000_E500) && PERIPH_WINDOWS[1..][1..][0] == (0xE000_ED00, 0xE000_ED40);
    assert !InWindows(addr, PERIPH_WINDOWS[1..]) && !InWindows(addr, PERIPH_WINDOWS[1..][1..]);
  }

  lemma {:induction false} WritesMissRegisters(s: State, addr: word, ws: seq<word>)
    requires forall k :: 0 <= k < |ws| ==> !PeriphWrites(Plus(addr, 4 * k))
    ensures RegisterWrites(s, addr, ws) == s
    decreases |ws|
  {
    hide Plus, PeriphWrites, RegisterWrite;
    if |ws| > 0 {
      PlusFits(addr, 0);
      assert !PeriphWrites(Plus(addr, 4 * 0));
      WriteMissesRegisters(s, addr, ws[0]);
      forall k | 0 <= k < |ws| - 1 ensures !PeriphWrites(Plus(Plus(addr, 4), 4 * k)) {
        PlusPlus(addr, 4, 4 * k);
        assert !PeriphWrites(Plus(addr, 4 * (k + 1)));
      }
      WritesMissRegisters(s, Plus(addr, 4), ws[1..]);
    }
  }

  lemma OneWriteKeepsRequests(s: State, addr: word, v: word)
    requires !IsRequestRegister(addr)
    ensures SameRequests(s, RegisterWrite(s, addr, v))
  {
  }

  /** A context in which every word of the frame has its top bit set. */
  ghost predicate TopBitsSet(s: State) {
    s.xpsr == 0x8000_0000 && s.it == 0 && forall i :: 0 <= i < 16 && i != SP ==> s.regs[i] == 0x8000_0000
  }

  lemma TopBitsInFrame(s: State, k: nat)
    requires TopBitsSet(s) && k < 8
    ensures FrameWords(s)[k] == 0x8000_0000 && BitsOf(0x8000_0000) == {31}
  {
    hide PackXpsr;
    OnlyTopBit();
    PackedTopBit();
  }

  lemma PackedTopBit()
    ensures PackXpsr(0x8000_0000, 0) == 0x8000_0000
  {
  }

  lemma OnlyTopBit()
    ensures BitsOf(0x8000_0000) == {31}
  {
    hide Pow2;
    Pow2Top();
    forall k | 0 <= k < 31 ensures BitOf(0x8000_0000, k) == 0 {
      Pow2Complement(k);
      HalfTop(k);
      LowBitClear(Pow2(k), Pow2(30 - k));
    }
  }

  lemma HalfTop(k: nat)
    requires k < 31
    ensures Pow2(31 - k) == 2 * Pow2(30 - k)
  {
  }

  lemma LowBitClear(p: nat, h: nat)
    requires p > 0 && p * (2 * h) == 0x8000_0000
    ensures (0x8000_0000 / p) % 2 == 0
  {
    assert (2 * h) * p == 0x8000_0000;
    DivModUnique(0x8000_0000, p, 2 * h, 0);
  }

  /** The writes up to word `k`, word `k`, and the rest. */
  lemma {:induction false} WritesAt(s: State, addr: word, ws: seq<word>, k: nat)
    requires k < |ws|
    requires forall j :: 0 <= j < |ws| && j != k ==> !IsRequestRegister(Plus(addr, 4 * j))
    ensures SameRequests(RegisterWrite(s, Plus(addr, 4 * k), ws[k]), RegisterWrites(s, addr, ws))
    decreases |ws|
  {
    hide Plus, BitsOf, IsRequestRegister;
    PlusFits(addr, 0);
    var s' := RegisterWrite(s, addr, ws[0]);
    forall j | 0 <= j < |ws| - 1 ensures Plus(Plus(addr, 4), 4 * j) == Plus(addr, 4 * (j + 1)) {
      PlusPlus(addr, 4, 4 * j);
    }
    if k == 0 {
      forall j | 0 <= j < |ws| - 1 ensures !IsRequestRegister(Plus(Plus(addr, 4), 4 * j)) {
        assert !IsRequestRegister(Plus(addr, 4 * (j + 1)));
      }
      WritesKeepRequests(s', Plus(addr, 4), ws[1..]);
    } else {
      assert !IsRequestRegister(Plus(addr, 4 * 0));
      OneWriteKeepsRequests(s, addr, ws[0]);
      forall j | 0 <= j < |ws| - 1 && j != k - 1 ensures !IsRequestRegister(Plus(Plus(addr, 4), 4 * j)) {
        assert !IsRequestRegister(Plus(addr, 4 * (j + 1)));
      }
      WritesAt(s', Plus(addr, 4), ws[1..], k - 1);
      SameRequestsAfter(s, s', Plus(addr, 4 * k), ws[k]);
    }
  }

  lemma SameRequestsAfter(s: State, t: State, addr: word, v: word)
    requires SameRequests(s, t)
    ensures SameRequests(RegisterWrite(s, addr, v), RegisterWrite(t, addr, v))
  {
    hide BitsOf;
    if addr == ISER || addr == ICER {
    } else if addr == ISPR || addr == ICPR {
    } else {
      OneWriteKeepsRequests(s, addr, v);
      OneWriteKeepsRequests(t, addr, v);
    }
  }

  /** Frames are shorter than the distance between request registers. */
  lemma OneRegisterAtMost(sp: word, j: nat, k: nat)
    requires j < 8 && k < 8 && IsRequestRegister(FrameAddr(sp, j)) && IsRequestRegister(FrameAddr(sp, k))
    ensures j == k
  {
    hide IsRequestRegister;
    WordsApart(Minus(sp, 32), j, k);
    FarApart(FrameAddr(sp, j), FrameAddr(sp, k));
  }

  lemma WordsApart(base: word, j: nat, k: nat)
    requires j < 8 && k < 8
    ensures var d := Plus(base, 4 * j) - Plus(base, 4 * k);
      d == 4 * (j - k) || d == 4 * (j - k) + 0x1_0000_0000 || d == 4 * (j - k) - 0x1_0000_0000
  {
  }

  lemma FarApart(a: word, b: word)
    requires IsRequestRegister(a) && IsRequestRegister(b)
    ensures a == b || a - b >= 128 || b - a >= 128
    ensures -0x200 <= a - b <= 0x200
  {
  }

  /** A frame keeps the enabled and the pending interrupts of every context stacked there if
      and only if it hits none of their four registers. */
  lemma FrameKeepsRequestsExactly(sp: word, n: nat)
    requires n < 512 && FrameStaysHome(sp)
    ensures (forall s: State :: s.regs[SP] == sp ==> SameRequests(s, TakeException(s, n))) <==> FrameSparesRequests(sp)
  {
    hide WriteWords, Read, FrameWords, IsRequestRegister, FrameStaysHome, BitsOf;
    if FrameSparesRequests(sp) {
      forall s: State | s.regs[SP] == sp ensures SameRequests(s, TakeException(s, n)) {
        TakeKeepsRequests(s, n);
      }
    } else {
      var k :| 0 <= k < 8 && IsRequestRegister(FrameAddr(sp, k));
      var s := HitContext(sp, k);
      TakeLosesRequests(s, n, k);
    }
  }

  lemma TakeKeepsRequests(s: State, n: nat)
    requires n < 512 && FrameSparesRequests(s.regs[SP])
    ensures SameRequests(s, TakeException(s, n))
  {
    hide WriteWords, Read, FrameWords, IsRequestRegister, FrameStaysHome, Plus, Minus;
    var sp := Minus(s.regs[SP], 32);
    forall k | 0 <= k < 8 ensures !IsRequestRegister(Plus(sp, 4 * k)) {
      assert !IsRequestRegister(FrameAddr(s.regs[SP], k));
    }
    WritesKeepRequests(s.(mem := WriteWords(s.cfg, s.mem, s.dev, sp, FrameWords(s))), sp, FrameWords(s));
  }

  /** A context whose frame at `sp` visibly changes the register its word `k` hits. */
  lemma HitContext(sp: word, k: nat) returns (s: State)
    ensures s.regs[SP] == sp && TopBitsSet(s)
    ensures var a := FrameAddr(sp, k);
      if a == ISER || a == ISPR then s.pending == {} && s.enabled == {} else s.pending == {31} && s.enabled == {31}
  {
    var regs: Regs := seq(16, i => if i == SP then sp else 0x8000_0000);
    var a := FrameAddr(sp, k);
    var m: Mask := if a == ISER || a == ISPR then {} else {31};
    s := State(Config(0, 0, 0, 0), 0, regs, 0x8000_0000, 0, 0, 0, false, false, false, m, m,
               seq(8, _ => 0), 0, 0, seq(MEM_SIZE, _ => 0), _ => 0, Empty(), 0, 0, 0, 0);
  }

  lemma TakeLosesRequests(s: State, n: nat, k: nat)
    requires n < 512 && k < 8 && TopBitsSet(s) && IsRequestRegister(FrameAddr(s.regs[SP], k))
    requires var a := FrameAddr(s.regs[SP], k);
      if a == ISER || a == ISPR then s.pending == {} && s.enabled == {} else s.pending == {31} && s.enabled == {31}
    ensures !SameRequests(s, TakeException(s, n))
  {
    hide WriteWords, Read, FrameWords, Plus, Minus, TopBitsSet;
    hide BitsOf;
    var sp := Minus(s.regs[SP], 32);
    forall j | 0 <= j < 8 && j != k ensures !IsRequestRegister(Plus(sp, 4 * j)) {
      if IsRequestRegister(FrameAddr(s.regs[SP], j)) {
        OneRegisterAtMost(s.regs[SP], j, k);
      }
    }
    var t := s.(mem := WriteWords(s.cfg, s.mem, s.dev, sp, FrameWords(s)));
    TopBitsInFrame(s, k);
    WritesAt(t, sp, FrameWords(s), k);
  }

  /** The unchecked HardFault frame in the NVIC: with SP at 0xE000E2A0 on a map whose SRAM
      lies elsewhere, the frame of the refused interrupt is stacked for HardFault, and its
      first word, R0, clears pending interrupts. */
  lemma OverflowFrameClearsRequests(s: State, n: nat)
    requires n < 512 && s.regs[SP] == 0xE000_E2A0 && !FrameAccepted(s, n) && s.active != HARD_FAULT
    ensures EnterException(s, n).pending == s.pending - BitsOf(s.regs[0])
    ensures EnterException(s, n).active == HARD_FAULT
  {
    hide WriteWords, Read, BitsOf, PackXpsr, TakeException;
    EntryOutcomes(s, n);
    var x := Attempt(Faulted(Attempt(s), FAULT_STACK_OVERFLOW));
    ClearingFrame(x);
  }

  lemma ClearingFrame(x: State)
    requires x.regs[SP] == 0xE000_E2A0
    ensures TakeException(x, HARD_FAULT).pending == x.pending - BitsOf(x.regs[0])
    ensures TakeException(x, HARD_FAULT).active == HARD_FAULT
  {
    hide WriteWords, Read, BitsOf, PackXpsr, RegisterWrites, WithException, HalfwordAligned;
    var sp: word := 0xE000_E280;
    var t := x.(mem := WriteWords(x.cfg, x.mem, x.dev, sp, FrameWords(x)));
    WritesAt(t, sp, FrameWords(x), 0);
  }

  /** Entry, with or without an overflow, keeps the enabled and the pending interrupts when
      the frame spares their registers. */
  lemma EntryKeepsPending(s: State, n: nat)
    requires n < 512
    ensures FrameSparesRequests(s.regs[SP]) ==> SameRequests(s, EnterException(s, n))
    ensures FrameAccepted(s, n) ==> EnterException(s, n).active == n
    ensures !FrameAccepted(s, n) ==>
      if s.active == HARD_FAULT then EnterException(s, n).lockup else EnterException(s, n).active == HARD_FAULT
  {
    hide WriteWords, Read, FrameWords, FrameSparesRequests, RegisterWrites, WithException, HalfwordAligned;
    EntryOutcomes(s, n);
    if FrameSparesRequests(s.regs[SP]) {
      TakeKeepsRequests(Attempt(s), n);
      TakeKeepsRequests(Attempt(Faulted(Attempt(s), FAULT_STACK_OVERFLOW)), HARD_FAULT);
    }
  }

  /** With PRIMASK clear and SysTick not pending: the most urgent pending enabled IRQ is
      taken if and only if it beats the active priority, and then, unless the frame is
      written over the request registers, exactly its own pending bit is cleared; otherwise
      nothing at all changes. A frame that trips the stack guard clears the bit all the same
      and diverts to HardFault. */
  lemma InterruptSelection(s: State, b: nat)
    requires s.primask % 2 == 0 && SYSTICK_BIT !in s.pending
    requires IsMostUrgent(s, s.pending * s.enabled, b)
    ensures var s' := CheckPending(s);
      if s.active == 0 || IrqPriority(s, b) < PriorityOf(s, s.active) then
        && (FrameSparesRequests(s.regs[SP]) ==> s'.pending == s.pending - {b} && s'.enabled == s.enabled)
        && (FrameAccepted(s, b + 16) ==> s'.active == b + 16)
        && (!FrameAccepted(s, b + 16) && s.active != HARD_FAULT ==> s'.active == HARD_FAULT)
      else s' == s
  {
    hide IrqPriority, PriorityOf, Select, EnterException, StackOverflow, FrameSparesRequests;
    SelectFindsMostUrgent(s, s.pending * s.enabled);
    var r := Select(s, s.pending * s.enabled, 0, -1, 256);
    assert r.0 == b;
    EntryKeepsPending(s.(pending := s.pending - {b}), b + 16);
  }

  /** SysTick is examined before every IRQ, whatever their priorities: an IRQ that outranks
      it waits. */
  lemma SysTickGoesFirst(s: State)
    requires s.primask % 2 == 0 && SYSTICK_BIT in s.pending
    requires s.active == 0 || SysPriority(s, SYSTICK) < PriorityOf(s, s.active)
    ensures FrameSparesRequests(s.regs[SP]) ==> CheckPending(s).pending == s.pending - {SYSTICK_BIT}
    ensures FrameAccepted(s, SYSTICK) ==> CheckPending(s).active == SYSTICK
  {
    hide FrameSparesRequests, EnterException, StackOverflow;
    EntryKeepsPending(s.(pending := s.pending - {SYSTICK_BIT}), SYSTICK);
  }

  /** A request for exception `n`: SysTick by its pending bit alone, an IRQ if also enabled. */
  predicate Requested(s: State, n: int) {
    || (n == SYSTICK && SYSTICK_BIT in s.pending)
    || (16 <= n < 16 + MAX_IRQ && n - 16 in s.pending * s.enabled)
  }

  /** Exception `n` may preempt what is running. */
  predicate Beats(s: State, n: int) {
    s.primask % 2 == 0 && (s.active == 0 || PriorityOf(s, n) < PriorityOf(s, s.active))
  }

  /** The pending check enters a request that may preempt and that no other outranks, or
      nothing when no request may preempt. */
  ghost predicate MostUrgentGoes(s: State) {
    var n := Chosen(s);
    if n == -1 then forall r :: Requested(s, r) ==> !Beats(s, r)
    else Requested(s, n) && Beats(s, n) && forall r :: Requested(s, r) ==> PriorityOf(s, n) <= PriorityOf(s, r)
  }

  /** An enabled IRQ waits that outranks SysTick. */
  ghost predicate IrqOutranksSysTick(s: State) {
    exists j :: j in s.pending * s.enabled && IrqPriority(s, j) < SysPriority(s, SYSTICK)
  }

  /** The most urgent request of all is taken, if and only if it is not the case that SysTick
      is pending and may preempt while an enabled IRQ of lower priority value waits. */
  lemma MostUrgentGoesExactly(s: State)
    ensures MostUrgentGoes(s) <==> !(SYSTICK_BIT in s.pending && Beats(s, SYSTICK) && IrqOutranksSysTick(s))
  {
    hide IrqPriority, SysPriority, Select;
    SelectFindsMostUrgent(s, s.pending * s.enabled);
    assert PriorityOf(s, SYSTICK) == SysPriority(s, SYSTICK);
    forall j | j in s.pending * s.enabled
      ensures Requested(s, j + 16) && PriorityOf(s, j + 16) == IrqPriority(s, j)
    {
    }
  }

  /** The failing case in numbers: on an M4 thread with IRQ 0 pending at priority 0 and
      SysTick pending at priority 255, SysTick is taken. */
  lemma UrgentIrqWaits(s: State)
    requires s.core > CORE_M0PLUS && s.active == 0 && s.primask == 0 && s.pending == {0, 31} && s.enabled == {0}
    requires s.ipr[0] == 0 && s.shpr3 == 0xFF00_0000
    ensures Chosen(s) == SYSTICK && Requested(s, 16) && PriorityOf(s, 16) == 0 && PriorityOf(s, SYSTICK) == 255
  {
  }

  /** Bit 31 stands for SysTick and for IRQ 31 at once. Exactly when software has enabled
      IRQ 31 and SysTick itself is held back by the running exception, a SysTick request can
      be taken, and its bit cleared, as IRQ 31. */
  lemma SysTickTakenAsIrq31(s: State)
    requires s.primask % 2 == 0 && SYSTICK_BIT in s.pending
    ensures Chosen(s) == SYSTICK_BIT + 16 <==>
      && s.active != 0 && SysPriority(s, SYSTICK) >= PriorityOf(s, s.active)
      && IsMostUrgent(s, s.pending * s.enabled, SYSTICK_BIT)
      && IrqPriority(s, SYSTICK_BIT) < PriorityOf(s, s.active)
  {
    hide IrqPriority, SysPriority, PriorityOf, Select;
    SelectFindsMostUrgent(s, s.pending * s.enabled);
  }

  lemma NothingPending(s: State)
    requires s.primask % 2 == 1 || (SYSTICK_BIT !in s.pending && s.pending * s.enabled == {})
    ensures CheckPending(s) == s
  {
    SelectFindsMostUrgent(s, s.pending * s.enabled);
  }

  // ---------------------------------------------------------------- coherent states

  /** `active_exception` is the IPSR field, xPSR keeps the IT bits clear, and `it_state`
      is a byte: what makes the stacked xPSR a lossless record of all three. */
  predicate Coherent(s: State) {
    s.active == s.xpsr % 512 && WithoutIt(s.xpsr) == s.xpsr && s.it < 0x100
  }

  // ---------------------------------------------------------------- conditions

  function FlagN(x: word): bool { x / 0x8000_0000 % 2 == 1 }
  function FlagZ(x: word): bool { x / 0x4000_0000 % 2 == 1 }
  function FlagC(x: word): bool { x / 0x2000_0000 % 2 == 1 }
  function FlagV(x: word): bool { x / 0x1000_0000 % 2 == 1 }

  /** `emu_evaluate_condition`. */
  predicate Condition(x: word, cond: nat) {
    match cond
    case 0 => FlagZ(x)
    case 1 => !FlagZ(x)
    case 2 => FlagC(x)
    case 3 => !FlagC(x)
    case 4 => FlagN(x)
    case 5 => !FlagN(x)
    case 6 => FlagV(x)
    case 7 => !FlagV(x)
    case 8 => FlagC(x) && !FlagZ(x)
    case 9 => !FlagC(x) || FlagZ(x)
    case 10 => FlagN(x) == FlagV(x)
    case 11 => FlagN(x) != FlagV(x)
    case 12 => !FlagZ(x) && FlagN(x) == FlagV(x)
    case 13 => FlagZ(x) || FlagN(x) != FlagV(x)
    case _ => true
  }
}
