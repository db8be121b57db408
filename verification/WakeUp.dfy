/** Sleep and wake-up: the part of `cortex_emu_step` (`src/cortex_emu.c`) before the fetch,
    with SysTick and the timers running behind a sleeping core. */
module WakeUp {
  import opened Words
  import opened Memory
  import opened MemoryLaws
  import opened Cpu
  import Cortex
  import SysTick
  import Timers
  import TimerRequests

  /** The core with SysTick and the timers; the pending register is `cpu.pending`, and the
      copies inside the other two are loaded from it before each tick. */
  datatype Machine = Machine(cpu: State, tick: SysTick.Unit, bank: Timers.Bank)

  /** `n` cycles of timer ticks return. */
  predicate Returns(m: Machine, n: nat) {
    Timers.BankReturns(m.bank, n)
  }

  /** `emu_systick_tick(1)`, then `emu_timer_tick(1)`, on the shared pending register. */
  function TickAll(m: Machine): Machine
    requires Returns(m, 1)
  {
    var t := SysTick.Tick(m.tick.(pending := m.cpu.pending), 1);
    var b := Timers.TickBank(m.bank.(pending := t.pending), 1);
    Machine(m.cpu.(pending := b.pending), t, b)
  }

  predicate Stopped(s: State) {
    s.halted || s.lockup
  }

  /** A sleeping core stays asleep on this call. */
  predicate StaysAsleep(s: State) {
    s.sleeping && s.pending * s.enabled == {} && SYSTICK_BIT !in s.pending
  }

  /** One call of `cortex_emu_step` up to the fetch: a core that is halted or locked up does
      nothing, a core that stays asleep ticks, and any other leaves sleep and runs the
      pending check. */
  function StepFront(m: Machine): Machine
    requires !Stopped(m.cpu) && StaysAsleep(m.cpu) ==> Returns(m, 1)
  {
    if m.cpu.halted || m.cpu.lockup then m
    else if StaysAsleep(m.cpu) then TickAll(m)
    else m.(cpu := CheckPending(m.cpu.(sleeping := false)))
  }

  lemma TickAllKeepsCore(m: Machine)
    requires Returns(m, 1)
    ensures var m' := TickAll(m);
      && m'.cpu == m.cpu.(pending := m'.cpu.pending)
      && m.cpu.pending <= m'.cpu.pending
      && (SYSTICK_BIT in m'.cpu.pending <==>
            SYSTICK_BIT in m.cpu.pending
            || (SysTick.Running(m.tick) && SysTick.RaisesInterrupt(m.tick) && m.tick.val == 0))
      && SysTick.Running(m'.tick) == SysTick.Running(m.tick)
      && SysTick.RaisesInterrupt(m'.tick) == SysTick.RaisesInterrupt(m.tick)
      && (SysTick.Running(m.tick) && m.tick.val > 0 ==> m'.tick.val == m.tick.val - 1)
  {
    hide Timers.TickBank, SysTick.WithCountFlag;
    var u := m.tick.(pending := m.cpu.pending);
    var t := SysTick.Tick(u, 1);
    var b := m.bank.(pending := t.pending);
    SamePendingOnly(m.bank, b, 1);
    Timers.TickBankEnds(b, 1);
    Timers.TimersOnlyRaise(b, 0, 1);
    OneTick(u);
    assert m.cpu.pending <= t.pending;
  }

  /** A tick of one cycle out of `n + 1` leaves `n` that return. */
  lemma TickAllReturns(m: Machine, n: nat)
    requires Returns(m, n + 1)
    ensures Returns(m, 1) && Returns(TickAll(m), n)
  {
    hide Timers.TickBank, SysTick.Tick, Timers.BankReturns;
    Timers.ShorterReturns(m.bank, 1, n);
    var b := m.bank.(pending := SysTick.Tick(m.tick.(pending := m.cpu.pending), 1).pending);
    SamePendingOnly(m.bank, b, n + 1);
    Timers.PartsReturn(b, 1, n);
  }

  lemma SamePendingOnly(b: Timers.Bank, b': Timers.Bank, n: nat)
    requires b' == b.(pending := b'.pending) && Timers.BankReturns(b, n)
    ensures Timers.BankReturns(b', n)
  {
  }

  lemma OneTick(u: SysTick.Unit)
    ensures var t := SysTick.Tick(u, 1);
      && (if !SysTick.Running(u) then t == u
          else if u.val == 0 then t == SysTick.Reload(u)
          else t == u.(val := u.val - 1))
      && SysTick.Running(t) == SysTick.Running(u)
      && SysTick.RaisesInterrupt(t) == SysTick.RaisesInterrupt(u)
  {
    hide SysTick.WithCountFlag;
  }

  // ---------------------------------------------------------------- calls

  /** Each of the next `n` calls returns. */
  predicate CallsReturn(m: Machine, n: nat) {
    Stopped(m.cpu) || Returns(m, n)
  }

  function Calls(m: Machine, n: nat): Machine
    requires CallsReturn(m, n)
    decreases n
  {
    if n == 0 then m
    else
      StepReturns(m, n);
      Calls(StepFront(m), n - 1)
  }

  lemma StepReturns(m: Machine, n: nat)
    requires CallsReturn(m, n) && n > 0
    ensures !Stopped(m.cpu) && StaysAsleep(m.cpu) ==> Returns(m, 1)
    ensures CallsReturn(StepFront(m), n - 1)
  {
    hide TickAll, CheckPending, Timers.BankReturns;
    if !Stopped(m.cpu) {
      TickAllReturns(m, n - 1);
      Timers.ShorterReturns(m.bank, n - 1, 1);
    }
  }

  lemma CallsUnfold(m: Machine, n: nat)
    requires CallsReturn(m, n)
    ensures n > 0 ==> (!Stopped(m.cpu) && StaysAsleep(m.cpu) ==> Returns(m, 1)) && CallsReturn(StepFront(m), n - 1)
    ensures Calls(m, n) == if n == 0 then m else Calls(StepFront(m), n - 1)
  {
    hide Timers.BankReturns;
    if n > 0 {
      StepReturns(m, n);
    }
  }

  /** A core that is halted or locked up does nothing on any number of calls: the clocks
      behind it stand still too. */
  lemma {:induction false} LockupIsFinal(m: Machine, n: nat)
    requires Stopped(m.cpu)
    ensures Calls(m, n) == m
    decreases n
  {
    hide CheckPending, TickAll;
    CallsUnfold(m, n);
    if n > 0 {
      LockupIsFinal(m, n - 1);
    }
  }

  /** A fault inside HardFault ends there: no later call changes anything. */
  lemma FaultInHardFaultIsFinal(m: Machine, code: word, n: nat)
    requires m.cpu.active == HARD_FAULT
    ensures var f := m.(cpu := HardFault(m.cpu, code));
      Stopped(f.cpu) && f.cpu.lockup && Calls(f, n) == f
  {
    hide EnterException;
    LockupIsFinal(m.(cpu := HardFault(m.cpu, code)), n);
  }

  // ---------------------------------------------------------------- wake-up

  /** As long as the core may sleep, ticking returns. */
  predicate SleepReturns(m: Machine) {
    StaysAsleep(m.cpu) ==> Returns(m, m.tick.val + 1)
  }

  /** One call of a sleeping core. */
  lemma SleepingCall(m: Machine)
    requires StaysAsleep(m.cpu) && SleepReturns(m) && SysTick.Running(m.tick) && SysTick.RaisesInterrupt(m.tick)
    ensures Returns(m, 1)
    ensures var m' := TickAll(m);
      && SleepReturns(m') && SysTick.Running(m'.tick) && SysTick.RaisesInterrupt(m'.tick)
      && (if m.tick.val == 0 then !StaysAsleep(m'.cpu) else m'.tick.val == m.tick.val - 1)
  {
    hide TickAll, SysTick.Running, SysTick.RaisesInterrupt, Timers.BankReturns;
    TickAllReturns(m, m.tick.val);
    TickAllKeepsCore(m);
  }

  /** How many calls it takes to leave sleep, the waking call included. */
  function CallsToWake(m: Machine): (n: nat)
    requires SleepReturns(m) && SysTick.Running(m.tick) && SysTick.RaisesInterrupt(m.tick)
    ensures 1 <= n <= m.tick.val + 2
    ensures n == 1 <==> !StaysAsleep(m.cpu)
    decreases if StaysAsleep(m.cpu) then m.tick.val + 1 else 0
  {
    if StaysAsleep(m.cpu) then
      SleepingCall(m);
      1 + CallsToWake(TickAll(m))
    else 1
  }

  /** `w` differs from the sleeping core `s` in pending interrupts only, and the next call
      runs the pending check on it, awake. */
  ghost predicate Wakes(s: State, w: Machine) {
    && w.cpu == s.(pending := w.cpu.pending) && !StaysAsleep(w.cpu)
    && StepFront(w) == w.(cpu := CheckPending(w.cpu.(sleeping := false)))
  }

  /** A sleeping core with SysTick counting and TICKINT set leaves sleep within
      `systick_val + 2` calls: it sleeps through all calls but the last of these, the core
      untouched but for interrupts becoming pending, and the last one runs the pending check
      on a core that is awake. */
  lemma {:induction false} WakesInTime(m: Machine)
    requires SleepReturns(m) && !Stopped(m.cpu) && m.cpu.sleeping
    requires SysTick.Running(m.tick) && SysTick.RaisesInterrupt(m.tick)
    ensures var n := CallsToWake(m);
      && 1 <= n <= m.tick.val + 2 && CallsReturn(m, n - 1)
      && Wakes(m.cpu, Calls(m, n - 1))
    decreases CallsToWake(m)
  {
    hide TickAll, CheckPending, SysTick.Running, SysTick.RaisesInterrupt, Returns, CallsToWake, Calls, StepFront;
    hide StaysAsleep, SleepReturns, Wakes;
    if StaysAsleep(m.cpu) {
      SleepingCall(m);
      CallsAsleep(m);
      TickAllKeepsCore(m);
      TickAllSleeps(m);
      WakesInTime(TickAll(m));
      WakesAlike(m.cpu, TickAll(m).cpu, Calls(m, CallsToWake(m) - 1));
    } else {
      CallsAwake(m);
      WakesAtOnce(m);
    }
  }

  lemma WakesAlike(s: State, s': State, w: Machine)
    requires s' == s.(pending := s'.pending) && Wakes(s', w)
    ensures Wakes(s, w)
  {
    hide StepFront, CheckPending;
  }

  lemma WakesAtOnce(m: Machine)
    requires !StaysAsleep(m.cpu) && !Stopped(m.cpu)
    ensures Wakes(m.cpu, m)
  {
    hide CheckPending;
  }

  lemma TickAllSleeps(m: Machine)
    requires Returns(m, 1)
    ensures TickAll(m).cpu.sleeping == m.cpu.sleeping && Stopped(TickAll(m).cpu) == Stopped(m.cpu)
  {
    hide Timers.TickBank, SysTick.Tick;
  }

  lemma CallsAsleep(m: Machine)
    requires StaysAsleep(m.cpu) && SleepReturns(m) && !Stopped(m.cpu)
    requires SysTick.Running(m.tick) && SysTick.RaisesInterrupt(m.tick)
    ensures Returns(m, 1)
    ensures var m' := TickAll(m);
      && SleepReturns(m') && SysTick.Running(m'.tick) && SysTick.RaisesInterrupt(m'.tick)
      && CallsToWake(m) == 1 + CallsToWake(m') && CallsReturn(m, CallsToWake(m'))
      && CallsReturn(m', CallsToWake(m') - 1)
      && Calls(m, CallsToWake(m')) == Calls(m', CallsToWake(m') - 1)
  {
    hide TickAll, CheckPending, SysTick.Running, SysTick.RaisesInterrupt, Timers.BankReturns;
    SleepingCall(m);
    var k := CallsToWake(TickAll(m));
    Timers.ShorterReturns(m.bank, k, m.tick.val + 1 - k);
    CallsUnfold(m, k);
  }

  lemma CallsAwake(m: Machine)
    requires !StaysAsleep(m.cpu) && SleepReturns(m) && SysTick.Running(m.tick) && SysTick.RaisesInterrupt(m.tick)
    ensures CallsToWake(m) == 1 && CallsReturn(m, 0) && Calls(m, 0) == m
  {
    hide TickAll, CheckPending, SysTick.Running, SysTick.RaisesInterrupt;
  }

  /** On the waking call SysTick, if it is what is pending, is entered at once: PRIMASK must
      be clear, SysTick must outrank the exception the core slept in, and the frame fit. */
  lemma WakesIntoSysTick(m: Machine)
    requires SleepReturns(m) && !Stopped(m.cpu) && m.cpu.sleeping
    requires SysTick.Running(m.tick) && SysTick.RaisesInterrupt(m.tick)
    requires m.cpu.primask % 2 == 0 && FrameAccepted(m.cpu, SYSTICK)
    requires m.cpu.active == 0 || SysPriority(m.cpu, SYSTICK) < PriorityOf(m.cpu, m.cpu.active)
    ensures var n := CallsToWake(m);
      && CallsReturn(m, n - 1)
      && var w := Calls(m, n - 1);
      && !StaysAsleep(w.cpu)
      && (SYSTICK_BIT in w.cpu.pending ==>
            && StepFront(w).cpu.active == SYSTICK
            && (FrameSparesRequests(m.cpu.regs[SP]) ==> SYSTICK_BIT !in StepFront(w).cpu.pending))
  {
    hide TickAll, CheckPending, SysTick.Running, SysTick.RaisesInterrupt, Timers.BankReturns, Calls, CallsToWake;
    hide FrameSparesRequests, SleepReturns;
    WakesInTime(m);
    var n := CallsToWake(m);
    var s := Calls(m, n - 1).cpu.(sleeping := false);
    if SYSTICK_BIT in s.pending {
      PriorityDependsOnTables(m.cpu, s);
      SysTickGoesFirst(s);
    }
  }

  /** A call of a core in WFI: it runs the pending check, awake, if and only if some interrupt
      is pending and enabled or bit 31 is pending. Otherwise the core changes in pending bits
      only, SysTick and every enabled timer advance by one cycle, and what becomes pending is
      SysTick if it stood at 0 with TICKINT set, and the timer interrupts of the line table. */
  lemma SleepingCallExactly(m: Machine)
    requires m.cpu.sleeping && !m.cpu.halted && !m.cpu.lockup && Returns(m, 1)
    ensures var e := StepFront(m);
      if (exists k :: k in m.cpu.pending && k in m.cpu.enabled) || 31 in m.cpu.pending then
        e == m.(cpu := CheckPending(m.cpu.(sleeping := false)))
      else
        && e.cpu == m.cpu.(pending := e.cpu.pending)
        && OneCyclePassed(m, e)
        && forall k :: k in e.cpu.pending <==> BecomesPending(m, e, k)
  {
    hide CheckPending, TickAll, Timers.BankReturns;
    var s := m.cpu;
    assert (exists k :: k in s.pending && k in s.enabled) <==> s.pending * s.enabled != {} by {
      if k :| k in s.pending && k in s.enabled {
        assert k in s.pending * s.enabled;
      } else {
        assert forall k :: k in s.pending * s.enabled ==> k in s.pending && k in s.enabled;
      }
    }
    if StaysAsleep(s) {
      TickAllKeepsCore(m);
      CyclePasses(m);
    }
  }

  /** SysTick and the timers, one cycle on. */
  ghost predicate OneCyclePassed(m: Machine, e: Machine)
    requires Returns(m, 1)
  {
    && e.bank.core == m.bank.core
    && (forall i :: 0 <= i < 6 ==>
          e.bank.tim[i] == if m.bank.tim[i].cr1 % 2 == 1 then Timers.Run(m.bank.core, i, m.bank.tim[i], 1).0
                           else m.bank.tim[i])
    && e.tick.load == m.tick.load
    && e.tick.val == if BitOf(m.tick.ctrl, 0) == 0 then m.tick.val
                     else if m.tick.val == 0 then m.tick.load else m.tick.val - 1
  }

  ghost predicate BecomesPending(m: Machine, e: Machine, k: nat) {
    || k in m.cpu.pending
    || (k == 31 && BitOf(m.tick.ctrl, 0) == 1 && BitOf(m.tick.ctrl, 1) == 1 && m.tick.val == 0)
    || exists j :: 0 <= j < |TimerRequests.IRQ_LINES|
         && TimerRequests.Requests(m.bank, e.bank, 1, TimerRequests.IRQ_LINES[j], k)
  }

  lemma CyclePasses(m: Machine)
    requires Returns(m, 1)
    ensures var e := TickAll(m);
      OneCyclePassed(m, e) && forall k :: k in e.cpu.pending <==> BecomesPending(m, e, k)
  {
    hide Timers.TickBank, Timers.Run, SysTick.Tick, SysTick.WithCountFlag, BitOf, TimerRequests.Requests,
      Timers.Enabled, SysTick.Running, SysTick.RaisesInterrupt;
    var u := m.tick.(pending := m.cpu.pending);
    var t := SysTick.Tick(u, 1);
    var b := m.bank.(pending := t.pending);
    SamePendingOnly(m.bank, b, 1);
    OneTick(u);
    SysTick.ControlBits(u);
    BankAdvances(b);
    forall k: nat ensures k in TickAll(m).cpu.pending <==> BecomesPending(m, TickAll(m), k) {
      TimerRequests.BankRequestsExactly(b, 1, k);
      SameLines(m.bank, b, TickAll(m).bank, k);
    }
  }

  lemma BankAdvances(b: Timers.Bank)
    requires Timers.BankReturns(b, 1)
    ensures var e := Timers.TickBank(b, 1);
      && e.core == b.core
      && forall i :: 0 <= i < 6 ==>
           e.tim[i] == if b.tim[i].cr1 % 2 == 1 then Timers.Run(b.core, i, b.tim[i], 1).0 else b.tim[i]
  {
    hide Timers.Run, Timers.Returns, Timers.RaisedFrom;
  }

  /** The lines speak of the timers, not of the pending register. */
  lemma SameLines(a: Timers.Bank, b: Timers.Bank, e: Timers.Bank, k: nat)
    requires b == a.(pending := b.pending)
    ensures forall l: TimerRequests.IrqLine ::
      TimerRequests.Requests(a, e, 1, l, k) == TimerRequests.Requests(b, e, 1, l, k)
  {
    hide TimerRequests.Clocked, TimerRequests.Carries, BitOf;
  }

  /** The wake-up by an interrupt line: with PRIMASK clear and the frame accepted, the most
      urgent enabled interrupt, if it beats what the core slept in, is entered on that very
      call, and the clocks do not move. */
  lemma WakesIntoIrq(m: Machine, b: nat)
    requires m.cpu.sleeping && !Stopped(m.cpu) && m.cpu.primask % 2 == 0 && SYSTICK_BIT !in m.cpu.pending
    requires IsMostUrgent(m.cpu, m.cpu.pending * m.cpu.enabled, b) && FrameAccepted(m.cpu, b + 16)
    requires m.cpu.active == 0 || IrqPriority(m.cpu, b) < PriorityOf(m.cpu, m.cpu.active)
    ensures var e := StepFront(m);
      && e.cpu.active == b + 16 && !e.cpu.sleeping
      && (FrameSparesRequests(m.cpu.regs[SP]) ==> e.cpu.pending == m.cpu.pending - {b})
      && e.tick == m.tick && e.bank == m.bank
  {
    hide CheckPending, IsMostUrgent, FrameSparesRequests, IrqPriority, SysPriority, TickAll, StackOverflow;
    var s := m.cpu.(sleeping := false);
    assert b in m.cpu.pending * m.cpu.enabled by { UrgentIsCandidate(m.cpu, b); }
    StillMostUrgent(m.cpu, s, b);
    InterruptSelection(s, b);
    CheckKeepsAwake(s);
  }

  lemma UrgentIsCandidate(s: State, b: nat)
    requires IsMostUrgent(s, s.pending * s.enabled, b)
    ensures b in s.pending * s.enabled
  {
  }

  lemma StillMostUrgent(s: State, t: State, b: nat)
    requires t == s.(sleeping := t.sleeping) && IsMostUrgent(s, s.pending * s.enabled, b)
    ensures IsMostUrgent(t, t.pending * t.enabled, b)
    ensures IrqPriority(t, b) == IrqPriority(s, b) && PriorityOf(t, t.active) == PriorityOf(s, s.active)
  {
    forall j: int ensures IrqPriority(t, j) == IrqPriority(s, j) {
    }
  }

  /** The pending check does not put the core to sleep. */
  lemma CheckKeepsAwake(s: State)
    ensures CheckPending(s).sleeping == s.sleeping
  {
    hide WriteWords, Read, FrameWords, Minus, WithException, HalfwordAligned, RegisterWrites, Chosen, FrameAccepted,
      EnterException;
    var n := Chosen(s);
    if n != -1 {
      EntryOutcomes(Acknowledged(s, n), n);
    }
  }

  /** With PRIMASK set the core wakes all the same, and enters nothing. */
  lemma WakesMasked(m: Machine, k: nat)
    requires m.cpu.sleeping && !Stopped(m.cpu) && m.cpu.primask % 2 == 1
    requires k in m.cpu.pending && k in m.cpu.enabled
    ensures !StaysAsleep(m.cpu)
    ensures StepFront(m) == m.(cpu := m.cpu.(sleeping := false))
  {
    hide EnterException, Select, TickAll;
    assert k in m.cpu.pending * m.cpu.enabled;
  }

  lemma PriorityDependsOnTables(s: State, s': State)
    requires s' == s.(pending := s'.pending, sleeping := s'.sleeping)
    ensures FrameAccepted(s', SYSTICK) == FrameAccepted(s, SYSTICK)
    ensures SysPriority(s', SYSTICK) == SysPriority(s, SYSTICK) && PriorityOf(s', s'.active) == PriorityOf(s, s.active)
  {
  }

  /** The bound is reached: with the timers off and nothing pending at first, sleep lasts
      exactly `systick_val + 1` calls and SysTick itself ends it. */
  lemma {:induction false} SleepsAllTheWay(m: Machine)
    requires StaysAsleep(m.cpu) && SysTick.Running(m.tick) && SysTick.RaisesInterrupt(m.tick)
    requires forall k :: 0 <= k < Timers.TIM_N ==> !Timers.Enabled(m.bank.tim[k])
    ensures SleepReturns(m) && CallsToWake(m) == m.tick.val + 2
    decreases m.tick.val
  {
    hide SysTick.Running, SysTick.RaisesInterrupt, SysTick.WithCountFlag;
    SleepingCall(m);
    TickAllKeepsCore(m);
    QuietTimers(m);
    var m' := TickAll(m);
    if m.tick.val > 0 {
      SleepsAllTheWay(m');
    }
  }

  lemma QuietTimers(m: Machine)
    requires forall k :: 0 <= k < Timers.TIM_N ==> !Timers.Enabled(m.bank.tim[k])
    ensures Returns(m, 1)
    ensures var m' := TickAll(m);
      && m'.bank.tim == m.bank.tim
      && m'.cpu.pending == SysTick.Tick(m.tick.(pending := m.cpu.pending), 1).pending
      && (SysTick.Running(m.tick) && m.tick.val > 0 ==> m'.cpu.pending == m.cpu.pending)
  {
    hide SysTick.WithCountFlag;
    var u := m.tick.(pending := m.cpu.pending);
    var b := m.bank.(pending := SysTick.Tick(u, 1).pending);
    OneTick(u);
    QuietBank(b, 0);
    assert Timers.TickBank(b, 1).tim == b.tim;
  }

  lemma {:induction false} QuietBank(b: Timers.Bank, i: nat)
    requires i <= Timers.TIM_N && Timers.BankReturns(b, 1)
    requires forall k :: 0 <= k < Timers.TIM_N ==> !Timers.Enabled(b.tim[k])
    ensures Timers.RaisedFrom(b, i, 1) == {}
    decreases Timers.TIM_N - i
  {
    if i < Timers.TIM_N {
      QuietBank(b, i + 1);
    }
  }

  // ---------------------------------------------------------------- in place

  /** The core object with its SysTick and timers. The three hold one pending register
      between them; it is carried along where the original shares it. */
  class Emulator {
    const core: Cortex.CortexEmu
    const tick: SysTick.SysTickUnit
    const bank: Timers.TimerBank

    ghost predicate Valid()
      reads core, core.ring
    {
      core.Valid() && bank.Valid()
    }

    ghost function View(): Machine
      requires Valid()
      reads core, core.bus.mem, core.ring, core.ring.pcs, core.ring.sps, tick, bank, bank.tim
    {
      Machine(core.View(), tick.View(), bank.View())
    }

    constructor (c: Cortex.CortexEmu, t: SysTick.SysTickUnit, b: Timers.TimerBank)
      requires c.Valid() && b.Valid()
      ensures core == c && tick == t && bank == b && Valid()
    {
      core, tick, bank := c, t, b;
    }

    /** `emu_systick_tick(emu, 1)` and `emu_timer_tick(emu, 1)`. */
    method TickAllUnits()
      requires Valid() && Returns(View(), 1)
      modifies core, tick, bank, bank.tim
      ensures Valid() && View() == TickAll(old(View()))
    {
      hide Timers.TickBank, SysTick.Tick;
      ghost var m := View();
      tick.pending := core.pending;
      tick.TickUnit(1);
      bank.pending := tick.pending;
      SamePendingOnly(m.bank, bank.View(), 1);
      bank.TickTimers(1);
      core.pending := bank.pending;
      assert core.bus.Contents() == m.cpu.mem;
      assert core.ring.View() == m.cpu.shadow;
    }

    /** `cortex_emu_step` up to the fetch; the result says whether it goes on to fetch. */
    method Step() returns (fetches: bool)
      requires Valid() && (!Stopped(core.View()) && StaysAsleep(core.View()) ==> Returns(View(), 1))
      modifies core, core.bus.mem, core.ring, core.ring.pcs, core.ring.sps, tick, bank, bank.tim
      ensures Valid() && View() == StepFront(old(View()))
      ensures fetches <==>
        && !old(core.halted) && !old(core.lockup)
        && (old(core.sleeping) ==> old(core.pending * core.enabled) != {} || 31 in old(core.pending))
    {
      hide TickAll, CheckPending;
      if core.halted || core.lockup {
        return false;
      }
      ghost var m := View();
      if core.sleeping {
        if core.pending * core.enabled == {} && SYSTICK_BIT !in core.pending {
          TickAllUnits();
          return false;
        }
        core.sleeping := false;
      }
      assert core.bus.Contents() == m.cpu.mem;
      assert core.ring.View() == m.cpu.shadow;
      core.CheckPendingInterrupts();
      return true;
    }
  }
}
