/** SysTick (`src/periph_nvic_systick.c`): a down counter that consumes many cycles per call. */
module SysTick {
  import opened Words
  import opened Memory
  import opened MemoryLaws
  import Bitband
  import Cpu

  /** The SysTick registers and the pending register it shares with the NVIC. */
  datatype Unit = Unit(ctrl: word, load: word, val: word, fires: word, pending: Cpu.Mask)

  predicate Running(u: Unit) {
    u.ctrl % 2 == 1
  }

  predicate RaisesInterrupt(u: Unit) {
    u.ctrl / 2 % 2 == 1
  }

  /** The control register by bit number: ENABLE 0, TICKINT 1. */
  lemma ControlBits(u: Unit)
    ensures Running(u) <==> BitOf(u.ctrl, 0) == 1
    ensures RaisesInterrupt(u) <==> BitOf(u.ctrl, 1) == 1
  {
    hide Pow2, BitOf;
    Pow2Values();
    BitNumber(u.ctrl, 0, 1);
    BitNumber(u.ctrl, 1, 2);
  }

  /** `ctrl | 1 << 16`. */
  function WithCountFlag(ctrl: word): (c: word)
    ensures c % 2 == ctrl % 2 && c / 2 % 2 == ctrl / 2 % 2 && c / 0x1_0000 % 2 == 1
    ensures ctrl / 0x1_0000 % 2 == 1 ==> c == ctrl
  {
    if ctrl / 0x1_0000 % 2 == 1 then ctrl
    else
      FlagFits(ctrl);
      ctrl + 0x1_0000
  }

  lemma FlagFits(ctrl: word)
    requires ctrl / 0x1_0000 % 2 == 0
    ensures ctrl + 0x1_0000 < 0x1_0000_0000
    ensures (ctrl + 0x1_0000) / 0x1_0000 % 2 == 1
    ensures (ctrl + 0x1_0000) % 2 == ctrl % 2 && (ctrl + 0x1_0000) / 2 % 2 == ctrl / 2 % 2
  {
    var q := ctrl / 0x1_0000;
    assert q < 0xFFFF;
    DivModUnique(ctrl + 0x1_0000, 0x1_0000, q + 1, ctrl % 0x1_0000);
    DivModUnique(ctrl + 0x1_0000, 2, ctrl / 2 + 0x8000, ctrl % 2);
    AddEven(ctrl / 2, 0x4000);
    AddEven(ctrl, 0x8000);
  }

  lemma AddEven(x: nat, k: nat)
    ensures (x + 2 * k) % 2 == x % 2
  {
  }

  /** COUNTFLAG is bit 16, and no other bit changes with it. */
  lemma CountFlagIsBit16(ctrl: word, k: nat)
    requires k < 32
    ensures BitOf(WithCountFlag(ctrl), k) == if k == 16 then 1 else BitOf(ctrl, k)
  {
    hide Pow2, BitOf, WithBit;
    Pow2Values();
    BitNumber(ctrl, 16, 0x1_0000);
    Bitband.WithBitSetsOneBit(ctrl, 16, 1, k);
    OneBitMore(ctrl);
  }

  lemma OneBitMore(ctrl: word)
    requires Pow2(16) == 0x1_0000 && BitOf(ctrl, 16) == ctrl / 0x1_0000 % 2
    ensures WithBit(ctrl, 16, 1) == WithCountFlag(ctrl)
  {
    hide Pow2, BitOf;
  }

  /** The counter is at 0: reload, flag, and raise SysTick if TICKINT is set. */
  function Reload(u: Unit): Unit {
    var raise := RaisesInterrupt(u);
    u.(val := u.load,
       ctrl := WithCountFlag(u.ctrl),
       fires := if raise then Plus(u.fires, 1) else u.fires,
       pending := if raise then u.pending + {Cpu.SYSTICK_BIT} else u.pending)
  }

  /** The loop of `emu_systick_tick`. */
  function Consume(u: Unit, n: word): Unit
    decreases n
  {
    if n == 0 then u
    else if u.val == 0 then Consume(Reload(u), n - 1)
    else if u.val >= n then u.(val := u.val - n)
    else Consume(u.(val := 0), n - u.val)
  }

  function Tick(u: Unit, n: word): Unit {
    if Running(u) then Consume(u, n) else u
  }

  // ---------------------------------------------------------------- single cycles

  /** One cycle of section B3.3 of the ARMv7-M Architecture Reference Manual. */
  function Once(u: Unit): Unit {
    if u.val == 0 then Reload(u) else u.(val := u.val - 1)
  }

  function Times(u: Unit, n: nat): Unit {
    if n == 0 then u else Once(Times(u, n - 1))
  }

  lemma {:induction false} TimesFrom(u: Unit, a: nat, b: nat)
    ensures Times(u, a + b) == Times(Times(u, a), b)
    decreases b
  {
    hide Once;
    if b > 0 {
      TimesFrom(u, a, b - 1);
    }
  }

  lemma {:induction false} CountDown(u: Unit, n: nat)
    requires n <= u.val
    ensures Times(u, n) == u.(val := u.val - n)
  {
    hide Reload;
    if n > 0 {
      CountDown(u, n - 1);
    }
  }

  /** A batch of `n` cycles is `n` single cycles. */
  lemma {:induction false} ConsumeIsSingleCycles(u: Unit, n: word)
    ensures Consume(u, n) == Times(u, n)
    decreases n
  {
    hide Reload, Times, Once;
    if n == 0 {
      assert Times(u, 0) == u by { NoCycles(u); }
    } else if u.val == 0 {
      ConsumeIsSingleCycles(Reload(u), n - 1);
      OneCycle(u);
      TimesFrom(u, 1, n - 1);
    } else if u.val >= n {
      CountDown(u, n);
    } else {
      ConsumeIsSingleCycles(u.(val := 0), n - u.val);
      CountDown(u, u.val);
      TimesFrom(u, u.val, n - u.val);
    }
  }

  lemma NoCycles(u: Unit)
    ensures Times(u, 0) == u
  {
  }

  lemma OneCycle(u: Unit)
    ensures Times(u, 1) == Once(u) && (u.val == 0 ==> Once(u) == Reload(u))
  {
    assert Times(u, 1) == Once(Times(u, 0));
  }

  /** While the unit runs, `emu_systick_tick(n)` is `n` calls of `emu_systick_tick(1)`. */
  lemma BatchIsSingleTicks(u: Unit, a: word, b: word)
    requires a + b < 0x1_0000_0000
    ensures Tick(u, a + b) == Tick(Tick(u, a), b)
  {
    hide Consume, Times;
    ConsumeIsSingleCycles(u, a + b);
    ConsumeIsSingleCycles(u, a);
    ConsumeIsSingleCycles(Times(u, a), b);
    TimesFrom(u, a, b);
    TimesKeepControl(u, a);
  }

  lemma {:induction false} TimesKeepControl(u: Unit, n: nat)
    ensures Running(Times(u, n)) == Running(u) && RaisesInterrupt(Times(u, n)) == RaisesInterrupt(u)
    ensures Times(u, n).load == u.load
  {
    hide WithCountFlag;
    if n > 0 {
      TimesKeepControl(u, n - 1);
    }
  }

  // ---------------------------------------------------------------- closed form

  /** How often the counter reloads in `n` cycles from `v` with reload value `L`. */
  function Fires(v: nat, L: nat, n: nat): nat {
    if n <= v then 0 else 1 + Quotient(n - v - 1, L + 1)
  }

  function ValueAfter(v: nat, L: nat, n: nat): int {
    if n <= v then v - n else L - Remainder(n - v - 1, L + 1)
  }

  lemma NextFire(v: nat, L: nat, n: nat)
    ensures ValueAfter(v, L, n) >= 0
    ensures Fires(v, L, n + 1) == Fires(v, L, n) + if ValueAfter(v, L, n) == 0 then 1 else 0
    ensures ValueAfter(v, L, n + 1) == if ValueAfter(v, L, n) == 0 then L else ValueAfter(v, L, n) - 1
  {
    hide Quotient, Remainder;
    if n == v {
      SmallRemainder(0, L + 1);
    } else if n > v {
      NextRemainder(n - v - 1, L + 1);
    }
  }

  lemma {:induction false} TimesForm(u: Unit, n: nat)
    ensures var w := Times(u, n);
      var fires := Fires(u.val, u.load, n);
      && w.val == ValueAfter(u.val, u.load, n)
      && w.load == u.load
      && w.ctrl == (if fires > 0 then WithCountFlag(u.ctrl) else u.ctrl)
      && w.fires == (if RaisesInterrupt(u) then Plus(u.fires, fires) else u.fires)
      && w.pending == (if RaisesInterrupt(u) && fires > 0 then u.pending + {Cpu.SYSTICK_BIT} else u.pending)
  {
    hide Fires, ValueAfter, WithCountFlag, Plus;
    if n == 0 {
      NoFires(u.val, u.load);
      PlusFits(u.fires, 0);
    } else {
      TimesForm(u, n - 1);
      NextFire(u.val, u.load, n - 1);
      PlusPlus(u.fires, Fires(u.val, u.load, n - 1), 1);
      FlagStays(u.ctrl);
      TimesKeepControl(u, n - 1);
    }
  }

  lemma NoFires(v: nat, L: nat)
    ensures Fires(v, L, 0) == 0 && ValueAfter(v, L, 0) == v
  {
  }

  lemma FlagStays(ctrl: word)
    ensures WithCountFlag(WithCountFlag(ctrl)) == WithCountFlag(ctrl)
  {
  }

  /** From value `v` and reload `L`, a running unit fires 0 times in `n <= v` cycles, else
      `1 + (n - v - 1) / (L + 1)` times, ending at `v - n` or `L - (n - v - 1) % (L + 1)`; L = 0
      fires on every cycle. */
  lemma TickForm(u: Unit, n: word)
    requires Running(u)
    ensures var w := Tick(u, n);
      var v, L := u.val, u.load;
      && w.val == (if n <= v then v - n else L - (n - v - 1) % (L + 1))
      && var fires := if n <= v then 0 else 1 + (n - v - 1) / (L + 1);
      && w.load == L
      && w.ctrl == (if fires > 0 then WithCountFlag(u.ctrl) else u.ctrl)
      && w.fires == (if RaisesInterrupt(u) then Plus(u.fires, fires) else u.fires)
      && w.pending == (if RaisesInterrupt(u) && fires > 0 then u.pending + {Cpu.SYSTICK_BIT} else u.pending)
  {
    hide Consume, Times, WithCountFlag, Plus;
    ConsumeIsSingleCycles(u, n);
    TimesForm(u, n);
  }

  // ---------------------------------------------------------------- in place

  class SysTickUnit {
    var ctrl: word
    var load: word
    var val: word
    var fires: word
    var pending: Cpu.Mask

    ghost function View(): Unit
      reads this
    {
      Unit(ctrl, load, val, fires, pending)
    }

    constructor ()
      ensures View() == Unit(0, 0, 0, 0, {})
    {
      ctrl, load, val, fires, pending := 0, 0, 0, 0, {};
    }

    /** `emu_systick_tick`. */
    method TickUnit(cycles: word)
      modifies this
      ensures View() == Tick(old(View()), cycles)
    {
      hide WithCountFlag, Plus;
      if ctrl % 2 == 0 {
        return;
      }
      var n: word := cycles;
      while n > 0
        invariant Consume(View(), n) == Consume(old(View()), cycles)
        decreases n
      {
        if val == 0 {
          FlagKeepsTickInt(ctrl);
          val := load;
          ctrl := WithCountFlag(ctrl);
          if ctrl / 2 % 2 == 1 {
            pending := pending + {Cpu.SYSTICK_BIT};
            fires := Plus(fires, 1);
          }
          n := n - 1;
        } else if val >= n {
          val := val - n;
          return;
        } else {
          n := n - val;
          val := 0;
        }
      }
    }
  }

  lemma FlagKeepsTickInt(ctrl: word)
    ensures WithCountFlag(ctrl) / 2 % 2 == ctrl / 2 % 2
  {
  }
}
