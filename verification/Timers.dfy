/** The timers (`src/periph_timers.c`): `emu_timer_tick` advances six timers by a batch of
    cycles. The batch is shown to be what single cycles do, to split at any point, and to
    have the closed forms of a prescaler, a counter and a repetition counter. */
module Timers {
  import opened Words
  import Cpu

  const TIM_N: nat := 6
  const CORE_M3: nat := 2

  type Mask = Cpu.Mask
  type Channels = c: seq<word> | |c| == 4 witness seq(4, _ => 0)

  /** The registers of one timer; SR and DIER as the sets of their one bits. */
  datatype Timer = Timer(
    cr1: word, cr2: word, dier: Mask, sr: Mask,
    ccmr1: word, ccmr2: word, ccer: word,
    cnt: word, psc: word, arr: word, rcr: word, ccr: Channels,
    ccmr1Eff: word, ccmr2Eff: word, ccerEff: word,
    rcrCnt: word, pscnt: word, dir: int)

  predicate Enabled(t: Timer) {
    t.cr1 % 2 == 1
  }

  /** CR1.CMS: 0 counts up, anything else up and down. */
  function Cms(t: Timer): nat {
    t.cr1 / 32 % 4
  }

  // ---------------------------------------------------------------- one counter clock

  /** The counter and direction after one clock, and whether the clock was an overflow
      (edge mode) or a turning point (center mode). */
  datatype Move = Move(cnt: word, dir: int, turn: bool)

  function Advance(t: Timer): Move {
    if Cms(t) != 0 then
      if t.dir >= 0 then
        var c := Plus(t.cnt, 1);
        if c >= t.arr then Move(t.arr, -1, true) else Move(c, t.dir, false)
      else
        var c := if t.cnt > 0 then t.cnt - 1 else t.cnt;
        if c == 0 then Move(0, 1, true) else Move(c, t.dir, false)
    else
      var c := Plus(t.cnt, 1);
      if c > t.arr then Move(0, t.dir, true) else Move(c, t.dir, false)
  }

  /** Whether compare matches set their flags on this clock. */
  predicate CanFire(t: Timer) {
    var cms := Cms(t);
    cms == 0 || cms == 3 || (cms == 1 && t.dir < 0) || (cms == 2 && t.dir >= 0)
  }

  function Matches(t: Timer, cnt: word): Mask {
    set ch | 0 <= ch < 4 && cnt == t.ccr[ch] :: ch + 1
  }

  predicate IsUpdate(t: Timer) {
    Advance(t).turn && t.rcrCnt == 0
  }

  /** CR2: preload with the COM event on update. */
  predicate ComOnUpdate(t: Timer) {
    t.cr2 % 2 == 1 && t.cr2 / 4 % 2 == 1
  }

  /** One counter clock. A COM event made by the update loads the effective registers, but
      the COMIF bit it sets is overwritten when SR is stored. */
  function Clock(t: Timer): Timer {
    var m := Advance(t);
    var com := IsUpdate(t) && ComOnUpdate(t);
    t.(cnt := m.cnt,
       dir := m.dir,
       rcrCnt := if !m.turn then t.rcrCnt else if t.rcrCnt == 0 then t.rcr % 0x100 else t.rcrCnt - 1,
       sr := t.sr + (if CanFire(t) then Matches(t, m.cnt) else {}) + (if IsUpdate(t) then {0} else {}),
       ccmr1Eff := if com then t.ccmr1 else t.ccmr1Eff,
       ccmr2Eff := if com then t.ccmr2 else t.ccmr2Eff,
       ccerEff := if com then t.ccer else t.ccerEff)
  }

  /** EGR.UG: counter, prescaler and repetition counter restart. */
  function GenerateUpdate(t: Timer): Timer {
    t.(cnt := 0, pscnt := 0, dir := 1, rcrCnt := t.rcr % 0x100, sr := t.sr + {0})
  }

  /** `is_ccpc`: CCMR1, CCMR2 and CCER are preloaded. */
  predicate Preloads(t: Timer) {
    t.cr2 % 2 == 1
  }

  /** `timer_com_event`. */
  function ComEvent(t: Timer): Timer {
    t.(ccmr1Eff := t.ccmr1, ccmr2Eff := t.ccmr2, ccerEff := t.ccer, sr := t.sr + {5})
  }

  /** A write to EGR, by its one bits. */
  function WriteEgr(t: Timer, bits: Mask): Timer {
    var u := if 0 in bits then GenerateUpdate(t) else t;
    var v := if 5 in bits then ComEvent(u) else u;
    v.(sr := v.sr + bits * {1, 2, 3, 4, 6, 7})
  }

  function WriteCcmr1(t: Timer, val: word): Timer {
    t.(ccmr1 := val, ccmr1Eff := if Preloads(t) then t.ccmr1Eff else val)
  }

  function WriteCcmr2(t: Timer, val: word): Timer {
    t.(ccmr2 := val, ccmr2Eff := if Preloads(t) then t.ccmr2Eff else val)
  }

  function WriteCcer(t: Timer, val: word): Timer {
    t.(ccer := val, ccerEff := if Preloads(t) then t.ccerEff else val)
  }

  /** The part of a clock that moves the counter, short of storing the count. */
  function Moved(t: Timer): Timer {
    var m := Advance(t);
    t.(dir := m.dir,
       rcrCnt := if !m.turn then t.rcrCnt else if t.rcrCnt == 0 then t.rcr % 0x100 else t.rcrCnt - 1)
  }

  /** The NVIC bits that timer `i` sets when its flags stand as in `t`. */
  function Raised(core: nat, i: nat, t: Timer): Mask {
    var pending := t.sr * t.dier;
    if pending == {} then {}
    else if core >= CORE_M3 then
      if i == 0 then
        (if 0 in pending then {25} else {}) + (if pending * {1, 2, 3, 4} != {} then {27} else {})
      else if i == 1 then {29}
      else if i == 3 then {28}
      else if i == 4 then {30}
      else {}
    else
      if i == 0 then
        (if pending * {0, 5, 6, 7} != {} then {13} else {}) + (if pending * {1, 2, 3, 4} != {} then {14} else {})
      else if i == 1 then {16}
      else if i == 5 then {19}
      else if i == 2 then {20}
      else {}
  }

  // ---------------------------------------------------------------- a batch of cycles

  /** Cycles until the prescaler overflows: `(psc + 1) - pscnt`, wrapping. */
  function Left(t: Timer): word {
    Minus(t.psc + 1, t.pscnt)
  }

  /** The loop of the code, by iterations: whether at most `k` counter clocks use up `n`
      cycles. */
  predicate EndsWithin(t: Timer, n: nat, k: nat)
    decreases k
  {
    n == 0 || n < Left(t) || t.arr == 0
    || (k > 0 && EndsWithin(Clock(t.(pscnt := 0)), n - Left(t), k - 1))
  }

  /** The call returns: the prescaler period does not wrap to 0, or the batch ends no later
      than the prescaler overflow after which it would. */
  predicate Returns(t: Timer, n: nat) {
    t.arr == 0 || t.psc < 0xFFFF_FFFF || n <= Left(t)
  }

  /** The loop ends after some number of iterations if and only if `Returns` says so. */
  lemma LoopEndsExactly(t: Timer, n: nat)
    ensures (exists k :: EndsWithin(t, n, k)) <==> Returns(t, n)
  {
    hide EndsWithin, Clock;
    if Returns(t, n) {
      var k := EnoughIterations(t, n);
      assert EndsWithin(t, n, k);
    } else {
      forall k: nat ensures !EndsWithin(t, n, k) {
        NeverEnds(t, n, k);
      }
    }
  }

  lemma {:induction false} EnoughIterations(t: Timer, n: nat) returns (k: nat)
    requires Returns(t, n)
    ensures EndsWithin(t, n, k)
    decreases n, if Left(t) == 0 then 1 else 0
  {
    hide Clock, Minus;
    k := 0;
    if !(n == 0 || n < Left(t) || t.arr == 0) {
      ClockReturns(t, n);
      k := EnoughIterations(Clock(t.(pscnt := 0)), n - Left(t));
      k := k + 1;
    }
  }

  lemma {:induction false} NeverEnds(t: Timer, n: nat, k: nat)
    requires !Returns(t, n)
    ensures !EndsWithin(t, n, k)
    decreases k
  {
    hide Clock, Minus;
    if k > 0 {
      var u := Clock(t.(pscnt := 0));
      ClockKeepsControl(t.(pscnt := 0));
      StuckAtZero(u);
      NeverEnds(u, n - Left(t), k - 1);
    }
  }

  lemma StuckAtZero(t: Timer)
    requires t.pscnt == 0
    ensures Left(t) == 0 <==> t.psc == 0xFFFF_FFFF
  {
  }

  /** After a clock the rest of the batch returns too. */
  lemma ClockReturns(t: Timer, n: nat)
    requires Returns(t, n) && Left(t) <= n && n > 0 && t.arr != 0
    ensures var u := Clock(t.(pscnt := 0));
      && Returns(u, n - Left(t)) && u.arr == t.arr && u.psc == t.psc
      && (Left(t) == 0 ==> Left(u) > 0)
  {
    hide Clock, Minus;
    ClockKeepsControl(t.(pscnt := 0));
    StuckAtZero(Clock(t.(pscnt := 0)));
  }

  /** The loop for one enabled timer: its new state and the NVIC bits it sets. */
  function Run(core: nat, i: nat, t: Timer, n: word): (r: (Timer, Mask))
    requires Returns(t, n)
    decreases n, if Left(t) == 0 then 1 else 0
  {
    if n == 0 then (t, {})
    else if n < Left(t) then (t.(pscnt := Plus(t.pscnt, n)), {})
    else if t.arr == 0 then (t.(pscnt := 0), {})
    else
      var u := Clock(t.(pscnt := 0));
      ClockReturns(t, n);
      var r := Run(core, i, u, n - Left(t));
      (r.0, Raised(core, i, u) + r.1)
  }

  function Tick(core: nat, i: nat, t: Timer, n: word): (r: (Timer, Mask))
    requires Enabled(t) ==> Returns(t, n)
  {
    if Enabled(t) then Run(core, i, t, n) else (t, {})
  }

  type Timers = b: seq<Timer> | |b| == TIM_N witness seq(TIM_N, _ => Stopped())

  function Stopped(): Timer {
    Timer(0, 0, {}, {}, 0, 0, 0, 0, 0, 0, 0, seq(4, _ => 0), 0, 0, 0, 0, 0, 1)
  }

  /** The timers and the NVIC pending register they share. */
  datatype Bank = Bank(core: nat, tim: Timers, pending: Mask)

  predicate BankReturns(b: Bank, n: nat) {
    forall i :: 0 <= i < TIM_N ==> Enabled(b.tim[i]) ==> Returns(b.tim[i], n)
  }

  /** The NVIC bits set by timers `i` and later. */
  function RaisedFrom(b: Bank, i: nat, n: word): Mask
    requires BankReturns(b, n) && i <= TIM_N
    decreases TIM_N - i
  {
    if i == TIM_N then {} else Tick(b.core, i, b.tim[i], n).1 + RaisedFrom(b, i + 1, n)
  }

  /** `emu_timer_tick`. */
  function TickBank(b: Bank, n: word): Bank
    requires BankReturns(b, n)
  {
    Bank(b.core,
         seq(TIM_N, i requires 0 <= i < TIM_N => Tick(b.core, i, b.tim[i], n).0),
         b.pending + RaisedFrom(b, 0, n))
  }

  // ---------------------------------------------------------------- batches split anywhere

  lemma LeftAfter(t: Timer, a: word)
    requires a < Left(t)
    ensures Left(t.(pscnt := Plus(t.pscnt, a))) == Left(t) - a
  {
    LeftIsMinus(t.psc, t.pscnt, a);
  }

  lemma LeftIsMinus(psc: word, pscnt: word, a: word)
    requires a < Minus(psc + 1, pscnt)
    ensures Minus(psc + 1, Plus(pscnt, a)) == Minus(psc + 1, pscnt) - a
  {
  }

  lemma {:induction false} RunSplits(core: nat, i: nat, t: Timer, a: word, b: word)
    requires Returns(t, a + b) && t.arr != 0 && a + b < 0x1_0000_0000
    ensures var r := Run(core, i, t, a);
      && Returns(r.0, b) && r.0.arr == t.arr
      && var q := Run(core, i, r.0, b);
      && Run(core, i, t, a + b) == (q.0, r.1 + q.1)
    decreases a, if Left(t) == 0 then 1 else 0
  {
    hide Clock, Raised, Plus, Minus;
    NoneAdded();
    if a == 0 {
    } else if a < Left(t) {
      var u := t.(pscnt := Plus(t.pscnt, a));
      LeftAfter(t, a);
      if b == 0 {
      } else if a + b < Left(t) {
        PlusPlus(t.pscnt, a, b);
        assert Run(core, i, u, b) == (u.(pscnt := Plus(u.pscnt, b)), {});
      } else {
        assert t.(pscnt := 0) == u.(pscnt := 0);
        assert a + b - Left(t) == b - Left(u);
      }
    } else {
      var u := Clock(t.(pscnt := 0));
      ClockReturns(t, a + b);
      ClockReturns(t, a);
      RunSplits(core, i, u, a - Left(t), b);
      var m := Raised(core, i, u);
      var r := Run(core, i, u, a - Left(t));
      var q := Run(core, i, r.0, b);
      assert Run(core, i, t, a) == (r.0, m + r.1);
      assert Run(core, i, t, a + b) == (q.0, m + (r.1 + q.1));
      assert m + (r.1 + q.1) == m + r.1 + q.1;
    }
  }

  /** A clock moves the counter and its flags; it never touches the control registers. */
  lemma ClockKeepsControl(t: Timer)
    ensures var u := Clock(t);
      && u.cr1 == t.cr1 && u.cr2 == t.cr2 && u.dier == t.dier && u.psc == t.psc && u.arr == t.arr
      && u.rcr == t.rcr && u.ccr == t.ccr && u.pscnt == t.pscnt
      && u.ccmr1 == t.ccmr1 && u.ccmr2 == t.ccmr2 && u.ccer == t.ccer
  {
    hide Advance, CanFire, Matches, IsUpdate, ComOnUpdate;
  }

  lemma NoneAdded()
    ensures forall m: Mask :: {} + m == m && m + {} == m
  {
  }

  /** With ARR at 0 the loop drops the cycles left after a prescaler overflow. Splitting a
      batch then agrees with the whole exactly in these cases. */
  predicate ZeroArrSplits(t: Timer, a: word, b: word) {
    a == 0 || b == 0 || a < Left(t) || b >= Plus(t.psc, 1)
  }

  lemma ZeroArrRunSplits(core: nat, i: nat, t: Timer, a: word, b: word)
    requires t.arr == 0 && a + b < 0x1_0000_0000
    ensures var r := Run(core, i, t, a);
      var q := Run(core, i, r.0, b);
      Run(core, i, t, a + b) == (q.0, r.1 + q.1) <==> ZeroArrSplits(t, a, b)
  {
    hide Minus, Plus;
    NoneAdded();
    if a == 0 || b == 0 {
    } else if a < Left(t) {
      LeftAfter(t, a);
      PlusPlus(t.pscnt, a, b);
    } else {
      var u := t.(pscnt := 0);
      assert Run(core, i, t, a) == (u, {});
      assert Left(u) == Plus(t.psc, 1) by { FromZero(t.psc); }
      PlusFits(0, b);
      assert Run(core, i, t, a + b) == (u, {});
    }
  }

  lemma FromZero(psc: word)
    ensures Minus(psc + 1, 0) == Plus(psc, 1)
  {
  }

  predicate Splits(t: Timer, a: word, b: word) {
    !Enabled(t) || t.arr != 0 || ZeroArrSplits(t, a, b)
  }

  lemma TickKeepsControl(core: nat, i: nat, t: Timer, n: word)
    requires Enabled(t) ==> Returns(t, n)
    ensures var u := Tick(core, i, t, n).0;
      u.cr1 == t.cr1 && u.arr == t.arr && u.psc == t.psc
  {
    hide Run;
    if Enabled(t) {
      RunKeepsControl(core, i, t, n);
    }
  }

  lemma {:induction false} RunKeepsControl(core: nat, i: nat, t: Timer, n: word)
    requires Returns(t, n)
    ensures var u := Run(core, i, t, n).0;
      u.cr1 == t.cr1 && u.arr == t.arr && u.psc == t.psc
    decreases n, if Left(t) == 0 then 1 else 0
  {
    hide Clock, Raised, Plus, Minus;
    if n == 0 || n < Left(t) || t.arr == 0 {
    } else {
      ClockKeepsControl(t.(pscnt := 0));
      ClockReturns(t, n);
      RunKeepsControl(core, i, Clock(t.(pscnt := 0)), n - Left(t));
    }
  }

  lemma TickSplits(core: nat, i: nat, t: Timer, a: word, b: word)
    requires (Enabled(t) ==> Returns(t, a + b)) && a + b < 0x1_0000_0000
    ensures var r := Tick(core, i, t, a);
      && (Enabled(r.0) ==> Returns(r.0, b))
      && var q := Tick(core, i, r.0, b);
      && (Tick(core, i, t, a + b) == (q.0, r.1 + q.1) <==> Splits(t, a, b))
      && (Splits(t, a, b) || Tick(core, i, t, a + b).0 != q.0)
  {
    hide Run, ZeroArrSplits;
    NoneAdded();
    TickKeepsControl(core, i, t, a);
    if Enabled(t) {
      if t.arr != 0 {
        RunSplits(core, i, t, a, b);
      } else {
        ZeroArrRunSplits(core, i, t, a, b);
        ZeroArrRaisesNothing(core, i, t, a, b);
      }
    }
  }

  lemma ZeroArrRaisesNothing(core: nat, i: nat, t: Timer, a: word, b: word)
    requires t.arr == 0 && a + b < 0x1_0000_0000
    ensures var r := Run(core, i, t, a);
      r.0.arr == 0 && r.1 == {} && Run(core, i, r.0, b).1 == {} && Run(core, i, t, a + b).1 == {}
  {
    hide Minus, Plus;
  }

  lemma {:induction false} RaisedFromSplits(bank: Bank, i: nat, a: word, b: word)
    requires i <= TIM_N && a + b < 0x1_0000_0000 && BankReturns(bank, a + b) && BankReturns(bank, a)
    requires BankReturns(TickBank(bank, a), b)
    requires forall k :: 0 <= k < TIM_N ==> Splits(bank.tim[k], a, b)
    ensures RaisedFrom(bank, i, a + b) == RaisedFrom(bank, i, a) + RaisedFrom(TickBank(bank, a), i, b)
    decreases TIM_N - i
  {
    hide Tick, Splits;
    if i < TIM_N {
      TickSplits(bank.core, i, bank.tim[i], a, b);
      assert TickBank(bank, a).tim[i] == Tick(bank.core, i, bank.tim[i], a).0;
      RaisedFromSplits(bank, i + 1, a, b);
    }
  }

  lemma ShorterReturns(bank: Bank, a: nat, b: nat)
    requires BankReturns(bank, a + b)
    ensures BankReturns(bank, a)
  {
    forall k | 0 <= k < TIM_N && Enabled(bank.tim[k]) ensures Returns(bank.tim[k], a) {
      assert Returns(bank.tim[k], a + b);
    }
  }

  /** A call for part of the cycles returns, and so does the call for the rest. */
  lemma PartsReturn(bank: Bank, a: word, b: nat)
    requires BankReturns(bank, a + b)
    ensures BankReturns(bank, a) && BankReturns(TickBank(bank, a), b)
  {
    hide Tick;
    ShorterReturns(bank, a, b);
    forall k | 0 <= k < TIM_N && Enabled(TickBank(bank, a).tim[k])
      ensures Returns(TickBank(bank, a).tim[k], b)
    {
      TickKeepsControl(bank.core, k, bank.tim[k], a);
      SameEnable(bank.tim[k], TickBank(bank, a).tim[k]);
      assert Returns(bank.tim[k], a + b);
      RestReturns(bank.core, k, bank.tim[k], a, b);
    }
  }

  lemma RestReturns(core: nat, i: nat, t: Timer, a: word, b: nat)
    requires Enabled(t) && Returns(t, a + b)
    ensures Returns(Tick(core, i, t, a).0, b)
  {
    hide Clock, Raised, Plus, Minus;
    TickKeepsControl(core, i, t, a);
    if t.arr != 0 && t.psc == 0xFFFF_FFFF {
      if a == 0 {
      } else if a < Left(t) {
        LeftAfter(t, a);
      }
    }
  }

  /** `emu_timer_tick(a + b)` leaves the same whole state, the six timers and the pending
      register they share, as `emu_timer_tick(a)` followed by `emu_timer_tick(b)`: exactly
      when no enabled timer with ARR 0 is cut after its prescaler overflow. Asked of every
      batch on which the call returns. */
  lemma BatchesSplit(bank: Bank, a: word, b: word)
    requires a + b < 0x1_0000_0000 && BankReturns(bank, a + b)
    ensures BankReturns(bank, a) && BankReturns(TickBank(bank, a), b)
    ensures TickBank(bank, a + b) == TickBank(TickBank(bank, a), b)
       <==> forall k :: 0 <= k < TIM_N ==> Splits(bank.tim[k], a, b)
  {
    hide Tick, Splits, RaisedFrom, BankReturns;
    PartsReturn(bank, a, b);
    var mid := TickBank(bank, a);
    var whole, parts := TickBank(bank, a + b), TickBank(mid, b);
    forall k | 0 <= k < TIM_N
      ensures whole.tim[k] == parts.tim[k] <==> Splits(bank.tim[k], a, b)
    {
      BankReturnsAt(bank, a + b, k);
      TickSplits(bank.core, k, bank.tim[k], a, b);
      assert mid.tim[k] == Tick(bank.core, k, bank.tim[k], a).0;
    }
    if forall k :: 0 <= k < TIM_N ==> Splits(bank.tim[k], a, b) {
      RaisedFromSplits(bank, 0, a, b);
      assert whole.tim == parts.tim;
    }
  }

  lemma BankReturnsAt(bank: Bank, n: nat, k: nat)
    requires BankReturns(bank, n) && k < TIM_N
    ensures Enabled(bank.tim[k]) ==> Returns(bank.tim[k], n)
  {
  }

  // ---------------------------------------------------------------- cycle by cycle

  function TickSingly(bank: Bank, n: nat): Bank
    requires BankReturns(bank, n)
    decreases n
  {
    if n == 0 then bank
    else
      PartsReturn(bank, 1, n - 1);
      TickSingly(TickBank(bank, 1), n - 1)
  }

  /** With no enabled timer at ARR 0, a batch is as many batches of one cycle, although the
      batch runs the timers one after the other and single cycles interleave them. */
  lemma {:induction false} BatchIsInterleaved(bank: Bank, n: nat)
    requires n < 0x1_0000_0000 && BankReturns(bank, n)
    requires forall k :: 0 <= k < TIM_N ==> Enabled(bank.tim[k]) ==> bank.tim[k].arr != 0
    ensures TickBank(bank, n) == TickSingly(bank, n)
    decreases n
  {
    hide Tick, RaisedFrom, BankReturns, Enabled;
    if n == 0 {
      NoCycles(bank);
    } else {
      PartsReturn(bank, 1, n - 1);
      var next := TickBank(bank, 1);
      forall k | 0 <= k < TIM_N
        ensures Enabled(next.tim[k]) ==> next.tim[k].arr != 0
      {
        BankReturnsAt(bank, 1, k);
        TickKeepsControl(bank.core, k, bank.tim[k], 1);
        SameEnable(bank.tim[k], next.tim[k]);
      }
      BatchesSplit(bank, 1, n - 1);
      BatchIsInterleaved(next, n - 1);
    }
  }

  lemma SameEnable(t: Timer, u: Timer)
    requires u.cr1 == t.cr1
    ensures Enabled(u) == Enabled(t)
  {
  }

  lemma NoCycles(bank: Bank)
    requires BankReturns(bank, 0)
    ensures TickBank(bank, 0) == bank
  {
    NoneRaised(bank, 0);
    assert TickBank(bank, 0).tim == bank.tim;
  }

  lemma {:induction false} NoneRaised(bank: Bank, i: nat)
    requires BankReturns(bank, 0) && i <= TIM_N
    ensures RaisedFrom(bank, i, 0) == {}
    decreases TIM_N - i
  {
    if i < TIM_N {
      NoneRaised(bank, i + 1);
    }
  }

  /** The timers only ever add to the pending register, and never the SysTick bit. */
  lemma {:induction false} TimersOnlyRaise(bank: Bank, i: nat, n: word)
    requires BankReturns(bank, n) && i <= TIM_N
    ensures Cpu.SYSTICK_BIT !in RaisedFrom(bank, i, n)
    decreases TIM_N - i
  {
    if i < TIM_N {
      TimersOnlyRaise(bank, i + 1, n);
      if Enabled(bank.tim[i]) {
        RunNeverRaisesSysTick(bank.core, i, bank.tim[i], n);
      }
    }
  }

  lemma {:induction false} RunNeverRaisesSysTick(core: nat, i: nat, t: Timer, n: word)
    requires Returns(t, n)
    ensures Cpu.SYSTICK_BIT !in Run(core, i, t, n).1
    decreases n, if Left(t) == 0 then 1 else 0
  {
    hide Clock;
    if n == 0 || n < Left(t) || t.arr == 0 {
    } else {
      ClockReturns(t, n);
      RunNeverRaisesSysTick(core, i, Clock(t.(pscnt := 0)), n - Left(t));
    }
  }

  // ---------------------------------------------------------------- in place

  /** The six timers as the object that is updated in place. */
  class TimerBank {
    const core: nat
    const tim: array<Timer>
    var pending: Mask

    ghost predicate Valid() {
      tim.Length == TIM_N
    }

    ghost function View(): Bank
      requires Valid()
      reads this, tim
    {
      Bank(core, tim[..], pending)
    }

    constructor (coreType: nat)
      ensures Valid() && fresh(tim) && View() == Bank(coreType, seq(TIM_N, _ => Stopped()), {})
    {
      core := coreType;
      tim := new Timer[TIM_N](_ => Stopped());
      pending := {};
    }

    /** `timer_com_event`. */
    method Commutate(i: nat)
      requires Valid() && i < TIM_N
      modifies tim
      ensures tim[..] == old(tim[..])[i := ComEvent(old(tim[i]))]
    {
      tim[i] := tim[i].(ccmr1Eff := tim[i].ccmr1);
      tim[i] := tim[i].(ccmr2Eff := tim[i].ccmr2);
      tim[i] := tim[i].(ccerEff := tim[i].ccer);
      tim[i] := tim[i].(sr := tim[i].sr + {5});
    }

    /** The EGR write of `emu_timer_write`. */
    method GenerateEvents(i: nat, bits: Mask)
      requires Valid() && i < TIM_N
      modifies tim
      ensures tim[..] == old(tim[..])[i := WriteEgr(old(tim[i]), bits)]
    {
      hide GenerateUpdate;
      if 0 in bits {
        Restart(i);
      }
      if 5 in bits {
        Commutate(i);
      }
      var flags := GeneratedFlags(bits);
      tim[i] := tim[i].(sr := tim[i].sr + flags);
    }

    /** The UG part. */
    method Restart(i: nat)
      requires Valid() && i < TIM_N
      modifies tim
      ensures tim[..] == old(tim[..])[i := GenerateUpdate(old(tim[i]))]
    {
      tim[i] := tim[i].(cnt := 0, pscnt := 0, dir := 1);
      tim[i] := tim[i].(rcrCnt := tim[i].rcr % 0x100, sr := tim[i].sr + {0});
    }

    /** The channel, break and trigger flags that the written bits ask for. */
    method GeneratedFlags(bits: Mask) returns (flags: Mask)
      ensures flags == bits * {1, 2, 3, 4, 6, 7}
    {
      flags := {};
      for ch := 0 to 4
        invariant flags == set b | b in bits && 1 <= b <= ch
      {
        if ch + 1 in bits {
          flags := flags + {ch + 1};
        }
      }
      if 7 in bits {
        flags := flags + {7};
      }
      if 6 in bits {
        flags := flags + {6};
      }
    }

    /** The CCMR1, CCMR2 and CCER writes of `emu_timer_write`. */
    method WriteOutputMode(i: nat, reg: word, val: word)
      requires Valid() && i < TIM_N
      modifies tim
      ensures tim[..] == old(tim[..])[i :=
        if reg == 0x18 then WriteCcmr1(old(tim[i]), val)
        else if reg == 0x1C then WriteCcmr2(old(tim[i]), val)
        else if reg == 0x20 then WriteCcer(old(tim[i]), val)
        else old(tim[i])]
    {
      var direct := !Preloads(tim[i]);
      if reg == 0x18 {
        tim[i] := tim[i].(ccmr1 := val);
        if direct {
          tim[i] := tim[i].(ccmr1Eff := val);
        }
      } else if reg == 0x1C {
        tim[i] := tim[i].(ccmr2 := val);
        if direct {
          tim[i] := tim[i].(ccmr2Eff := val);
        }
      } else if reg == 0x20 {
        tim[i] := tim[i].(ccer := val);
        if direct {
          tim[i] := tim[i].(ccerEff := val);
        }
      }
    }

    /** The repetition counter on an overflow or turning point. */
    method Repeat(i: nat) returns (update: bool)
      requires Valid() && i < TIM_N
      modifies tim
      ensures update == (old(tim[i]).rcrCnt == 0)
      ensures tim[..] == old(tim[..])[i := old(tim[i]).(rcrCnt := if update then old(tim[i]).rcr % 0x100
          else old(tim[i]).rcrCnt - 1)]
    {
      if tim[i].rcrCnt == 0 {
        update := true;
        tim[i] := tim[i].(rcrCnt := tim[i].rcr % 0x100);
      } else {
        update := false;
        tim[i] := tim[i].(rcrCnt := tim[i].rcrCnt - 1);
      }
    }

    /** The flags of the channels whose compare value the counter has reached. */
    method Compare(i: nat, cnt: word) returns (flags: Mask)
      requires Valid() && i < TIM_N
      ensures flags == Matches(tim[i], cnt)
    {
      flags := {};
      for ch := 0 to 4
        invariant flags == set c | 0 <= c < ch && cnt == tim[i].ccr[c] :: c + 1
      {
        if cnt == tim[i].ccr[ch] {
          flags := flags + {ch + 1};
        }
      }
    }

    /** The counter, its direction and its repetition counter; the count is returned, to be
        stored by the caller. */
    method MoveCounter(i: nat) returns (cnt: word, update: bool)
      requires Valid() && i < TIM_N
      modifies tim
      ensures cnt == Advance(old(tim[i])).cnt && update == IsUpdate(old(tim[i]))
      ensures tim[..] == old(tim[..])[i := Moved(old(tim[i]))]
    {
      cnt := tim[i].cnt;
      update := false;
      if Cms(tim[i]) != 0 {
        var dir := tim[i].dir;
        if dir >= 0 {
          cnt := Plus(cnt, 1);
          if cnt >= tim[i].arr {
            cnt := tim[i].arr;
            dir := -1;
            update := Repeat(i);
          }
        } else {
          if cnt > 0 {
            cnt := cnt - 1;
          }
          if cnt == 0 {
            dir := 1;
            update := Repeat(i);
          }
        }
        tim[i] := tim[i].(dir := dir);
      } else {
        cnt := Plus(cnt, 1);
        if cnt > tim[i].arr {
          cnt := 0;
          update := Repeat(i);
        }
      }
    }

    /** The body of the cycle loop once the prescaler has overflowed. */
    method ClockTimer(i: nat)
      requires Valid() && i < TIM_N
      modifies this, tim
      ensures tim[..] == old(tim[..])[i := Clock(old(tim[i]))]
      ensures pending == old(pending) + Raised(core, i, tim[i])
    {
      hide Matches, Raised, Advance, CanFire, ComOnUpdate, IsUpdate;
      ghost var t := tim[i];
      var sr, canFire := tim[i].sr, CanFire(tim[i]);
      var cnt, update := MoveCounter(i);
      MovedKeepsControl(t);
      if canFire {
        var flags := Compare(i, cnt);
        sr := sr + flags;
      }
      MatchesOnlyCcr(t, tim[i], cnt);
      if update {
        sr := sr + {0};
        SameComMode(t, tim[i]);
        if ComOnUpdate(tim[i]) {
          Commutate(i);
        }
      }
      tim[i] := tim[i].(cnt := cnt, sr := sr);
      assert tim[i].sr == Clock(t).sr;
      pending := pending + Raised(core, i, tim[i]);
    }

    /** `emu_timer_tick`. */
    method TickTimers(ticks: word)
      requires Valid() && BankReturns(View(), ticks)
      modifies this, tim
      ensures View() == TickBank(old(View()), ticks)
    {
      hide Run, Clock, Raised, BankReturns, Returns, TickBank, RaisedFrom;
      ghost var b := View();
      ghost var after := TickBank(b, ticks);
      TickBankEnds(b, ticks);
      for i := 0 to TIM_N
        invariant forall k :: 0 <= k < TIM_N ==> tim[k] == if k < i then after.tim[k] else b.tim[k]
        invariant pending + RaisedFrom(b, i, ticks) == after.pending
      {
        TickBankAt(b, i, ticks);
        BankReturnsAt(b, ticks, i);
        ghost var before := pending;
        if Enabled(tim[i]) {
          TickTimer(i, ticks);
        }
        assert pending == before + Tick(core, i, b.tim[i], ticks).1;
      }
      TickBankEnds(b, ticks);
      assert tim[..] == after.tim;
    }

    /** The cycle loop of one enabled timer. */
    method TickTimer(i: nat, ticks: word)
      requires Valid() && i < TIM_N && Returns(tim[i], ticks)
      modifies this, tim
      ensures forall k :: 0 <= k < TIM_N && k != i ==> tim[k] == old(tim[k])
      ensures tim[i] == Run(core, i, old(tim[i]), ticks).0
      ensures pending == old(pending) + Run(core, i, old(tim[i]), ticks).1
    {
      hide Clock, Raised, Minus, Plus;
      var pscnt, remaining := tim[i].pscnt, ticks;
      while remaining > 0
        invariant forall k :: 0 <= k < TIM_N && k != i ==> tim[k] == old(tim[k])
        invariant Returns(tim[i].(pscnt := pscnt), remaining)
        invariant Run(core, i, tim[i].(pscnt := pscnt), remaining).0 == Run(core, i, old(tim[i]), ticks).0
        invariant pending + Run(core, i, tim[i].(pscnt := pscnt), remaining).1
            == old(pending) + Run(core, i, old(tim[i]), ticks).1
        decreases remaining, if Left(tim[i].(pscnt := pscnt)) == 0 then 1 else 0
      {
        ghost var t := tim[i].(pscnt := pscnt);
        ghost var n := remaining;
        var left := Left(tim[i].(pscnt := pscnt));
        if remaining < left {
          pscnt := Plus(pscnt, remaining);
          remaining := 0;
          break;
        }
        remaining := remaining - left;
        pscnt := 0;
        if tim[i].arr == 0 {
          remaining := 0;
          break;
        }
        ghost var stale := tim[i];
        ClockTimer(i);
        ClockIgnoresPscnt(stale, 0);
        ClockKeepsControl(stale);
        ClockReturns(t, n);
        RaisedIgnoresPscnt(core, i, tim[i], 0);
      }
      tim[i] := tim[i].(pscnt := pscnt);
    }
  }

  lemma TickBankAt(b: Bank, i: nat, n: word)
    requires BankReturns(b, n) && i < TIM_N
    ensures Enabled(b.tim[i]) ==> Returns(b.tim[i], n)
    ensures TickBank(b, n).tim[i] == Tick(b.core, i, b.tim[i], n).0
    ensures RaisedFrom(b, i, n) == Tick(b.core, i, b.tim[i], n).1 + RaisedFrom(b, i + 1, n)
  {
    hide Tick;
  }

  lemma TickBankEnds(b: Bank, n: word)
    requires BankReturns(b, n)
    ensures RaisedFrom(b, TIM_N, n) == {} && TickBank(b, n).core == b.core
    ensures TickBank(b, n).pending == b.pending + RaisedFrom(b, 0, n)
  {
  }

  lemma MovedKeepsControl(t: Timer)
    ensures Moved(t).(dir := t.dir, rcrCnt := t.rcrCnt) == t
    ensures Clock(t).dir == Moved(t).dir && Clock(t).rcrCnt == Moved(t).rcrCnt
  {
    hide Advance, CanFire, Matches;
  }

  lemma SameComMode(t: Timer, u: Timer)
    requires u.cr2 == t.cr2
    ensures ComOnUpdate(u) == ComOnUpdate(t)
  {
  }

  lemma MatchesOnlyCcr(t: Timer, u: Timer, cnt: word)
    requires u.ccr == t.ccr
    ensures Matches(u, cnt) == Matches(t, cnt)
  {
  }

  /** The counter clock neither reads nor writes the prescaler. */
  lemma ClockIgnoresPscnt(t: Timer, p: word)
    ensures Clock(t.(pscnt := p)) == Clock(t).(pscnt := p)
  {
  }

  lemma RaisedIgnoresPscnt(core: nat, i: nat, t: Timer, p: word)
    ensures Raised(core, i, t.(pscnt := p)) == Raised(core, i, t)
  {
  }
}
