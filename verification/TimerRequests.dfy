/** Which interrupt a timer asks for: the requests of a whole call of `emu_timer_tick`, over
    all six timers, are those of a table of interrupt lines. */
module TimerRequests {
  import opened Words
  import opened Memory
  import opened MemoryLaws
  import Cpu
  import opened Timers
  import opened TimerForms

  // ---------------------------------------------------------------- control bits

  /** The control registers by bit number. */
  lemma ControlBits(t: Timer)
    ensures Enabled(t) <==> BitOf(t.cr1, 0) == 1
    ensures Cms(t) == BitOf(t.cr1, 5) + 2 * BitOf(t.cr1, 6)
    ensures Preloads(t) <==> BitOf(t.cr2, 0) == 1
    ensures ComOnUpdate(t) <==> BitOf(t.cr2, 0) == 1 && BitOf(t.cr2, 2) == 1
  {
    hide Pow2, BitOf;
    Pow2Values();
    BitNumber(t.cr1, 0, 1);
    TwoBitsAt(t.cr1, 5, 32);
    BitNumber(t.cr2, 0, 1);
    BitNumber(t.cr2, 2, 4);
  }

  // ---------------------------------------------------------------- the table

  /** The six timers, in the order of the code. */
  const TIM1: nat := 0
  const TIM3: nat := 1
  const TIM15: nat := 2
  const TIM2: nat := 3
  const TIM4: nat := 4
  const TIM14: nat := 5

  /** The flags that drive a line: any of the timer's, or some. */
  datatype Source = Any | Only(flags: set<nat>)

  /** An interrupt line of the parts with an M3 or M4 core, or of those with an M0 or M0+. */
  datatype IrqLine = IrqLine(mainline: bool, timer: nat, source: Source, number: nat)

  const IRQ_LINES: seq<IrqLine> := [
    IrqLine(true, TIM1, Only({0}), 25),            // update
    IrqLine(true, TIM1, Only({1, 2, 3, 4}), 27),   // capture and compare
    IrqLine(true, TIM2, Any, 28),
    IrqLine(true, TIM3, Any, 29),
    IrqLine(true, TIM4, Any, 30),
    IrqLine(false, TIM1, Only({0, 5, 6, 7}), 13),  // break, update, trigger, commutation
    IrqLine(false, TIM1, Only({1, 2, 3, 4}), 14),  // capture and compare
    IrqLine(false, TIM3, Any, 16),
    IrqLine(false, TIM14, Any, 19),
    IrqLine(false, TIM15, Any, 20)
  ]

  /** Some flag of the timer that is up and enabled drives the line. */
  predicate Drives(t: Timer, source: Source) {
    exists f :: f in t.sr && f in t.dier && (source.Only? ==> f in source.flags)
  }

  /** Line `l` carries request `k` of timer `i` with flags as in `t`. */
  predicate Carries(l: IrqLine, core: nat, i: nat, t: Timer, k: nat) {
    l.mainline == (core >= 2) && l.timer == i && l.number == k && Drives(t, l.source)
  }

  lemma PendingDrives(t: Timer, source: Source)
    ensures Drives(t, source) <==> (if source.Any? then t.sr * t.dier else t.sr * t.dier * source.flags) != {}
  {
    if Drives(t, source) {
      var f :| f in t.sr && f in t.dier && (source.Only? ==> f in source.flags);
      assert f in t.sr * t.dier;
      assert source.Only? ==> f in t.sr * t.dier * source.flags;
    } else {
      match source
      case Any => assert forall f :: f in t.sr * t.dier ==> f in t.sr && f in t.dier;
      case Only(fs) => assert forall f :: f in t.sr * t.dier * fs ==> f in t.sr && f in t.dier && f in fs;
    }
  }

  /** The requests of one clock are those of the table. */
  lemma RaisedByLines(core: nat, i: nat, t: Timer, k: nat)
    requires i < TIM_N
    ensures k in Raised(core, i, t) <==> exists j :: 0 <= j < |IRQ_LINES| && Carries(IRQ_LINES[j], core, i, t, k)
  {
    hide Drives;
    var pending := t.sr * t.dier;
    PendingDrives(t, Any);
    PendingDrives(t, Only({0}));
    PendingDrives(t, Only({1, 2, 3, 4}));
    PendingDrives(t, Only({0, 5, 6, 7}));
    assert pending * {0} != {} <==> 0 in pending by {
      if 0 in pending {
        assert 0 in pending * {0};
      }
    }
    Lines();
    if k in Raised(core, i, t) {
      var j := LineOf(core, i, k);
      assert Carries(IRQ_LINES[j], core, i, t, k);
    }
  }

  /** The table, entry by entry. */
  lemma Lines()
    ensures |IRQ_LINES| == 10
    ensures IRQ_LINES[0] == IrqLine(true, 0, Only({0}), 25) && IRQ_LINES[1] == IrqLine(true, 0, Only({1, 2, 3, 4}), 27)
    ensures IRQ_LINES[2] == IrqLine(true, 3, Any, 28) && IRQ_LINES[3] == IrqLine(true, 1, Any, 29)
    ensures IRQ_LINES[4] == IrqLine(true, 4, Any, 30) && IRQ_LINES[5] == IrqLine(false, 0, Only({0, 5, 6, 7}), 13)
    ensures IRQ_LINES[6] == IrqLine(false, 0, Only({1, 2, 3, 4}), 14) && IRQ_LINES[7] == IrqLine(false, 1, Any, 16)
    ensures IRQ_LINES[8] == IrqLine(false, 5, Any, 19) && IRQ_LINES[9] == IrqLine(false, 2, Any, 20)
  {
  }

  function LineOf(core: nat, i: nat, k: nat): (j: nat)
    ensures j < 10
  {
    if core >= 2 then
      (if k == 25 then 0 else if k == 27 then 1 else if k == 28 then 2 else if k == 29 then 3 else 4)
    else
      (if k == 13 then 5 else if k == 14 then 6 else if k == 16 then 7 else if k == 19 then 8 else 9)
  }

  // ---------------------------------------------------------------- a whole call

  /** The batch reaches a prescaler overflow with ARR nonzero, so the counter is clocked. */
  predicate Clocked(t: Timer, n: nat) {
    t.arr != 0 && 0 < n && (t.psc + 1 - t.pscnt) % 0x1_0000_0000 <= n
  }

  lemma RaisedNeedsFlags(core: nat, i: nat, t: Timer, u: Timer)
    requires u.sr == t.sr && u.dier == t.dier
    ensures Raised(core, i, u) == Raised(core, i, t)
  {
  }

  /** Flags only come up, so the requests of all clocks of a batch are those of its end. */
  lemma {:induction false} RunRequests(core: nat, i: nat, t: Timer, n: word)
    requires Returns(t, n)
    ensures var r := Run(core, i, t, n);
      && t.sr <= r.0.sr && r.0.dier == t.dier
      && (!Clocked(t, n) ==> r.0.sr == t.sr)
      && r.1 == if Clocked(t, n) then Raised(core, i, r.0) else {}
    decreases n, if Left(t) == 0 then 1 else 0
  {
    hide Clock, Raised;
    if n == 0 || n < Left(t) || t.arr == 0 {
    } else {
      var u := Clock(t.(pscnt := 0));
      ClockReturns(t, n);
      RunRequests(core, i, u, n - Left(t));
      ClockOnlyAddsFlags(t.(pscnt := 0));
      var v := Run(core, i, u, n - Left(t)).0;
      MoreFlagsMoreRequests(core, i, u, v);
      if v.sr == u.sr {
        RaisedNeedsFlags(core, i, u, v);
      }
    }
  }

  lemma {:induction false} RaisedFromIsUnion(b: Bank, i: nat, n: word, k: nat)
    requires BankReturns(b, n) && i <= TIM_N
    ensures k in RaisedFrom(b, i, n) <==> exists j :: i <= j < TIM_N && k in Tick(b.core, j, b.tim[j], n).1
    decreases TIM_N - i
  {
    hide Run, Enabled, Returns;
    if i < TIM_N {

      RaisedFromIsUnion(b, i + 1, n, k);
    }
  }

  /** Line `l` carries request `k` in the batch of `n` cycles from `b` to `e`. */
  predicate Requests(b: Bank, e: Bank, n: nat, l: IrqLine, k: nat) {
    && l.timer < TIM_N
    && BitOf(b.tim[l.timer].cr1, 0) == 1 && Clocked(b.tim[l.timer], n)
    && Carries(l, b.core, l.timer, e.tim[l.timer], k)
  }

  /** After a call of `emu_timer_tick` interrupt `k` is pending if and only if it was before,
      or a line of the table with that number belongs to an enabled timer that was clocked and
      has a flag up, enabled in DIER, that drives the line. */
  lemma BankRequestsExactly(b: Bank, n: word, k: nat)
    requires BankReturns(b, n)
    ensures var e := TickBank(b, n);
      && |e.tim| == 6
      && (k in e.pending <==> k in b.pending || exists j :: 0 <= j < |IRQ_LINES| && Requests(b, e, n, IRQ_LINES[j], k))
  {
    hide Raised, Run, Clocked, Carries, Returns, RaisedFrom, Enabled, BitOf;
    var e := TickBank(b, n);
    Lines();
    RaisedFromIsUnion(b, 0, n, k);
    forall i | 0 <= i < TIM_N
      ensures k in Tick(b.core, i, b.tim[i], n).1 <==>
        exists j :: 0 <= j < |IRQ_LINES| && IRQ_LINES[j].timer == i && Requests(b, e, n, IRQ_LINES[j], k)
    {
      TimerRequestsByLines(b, n, i, k);
    }
  }

  lemma TimerRequestsByLines(b: Bank, n: word, i: nat, k: nat)
    requires BankReturns(b, n) && i < TIM_N
    ensures k in Tick(b.core, i, b.tim[i], n).1 <==>
      exists j :: 0 <= j < |IRQ_LINES| && IRQ_LINES[j].timer == i && Requests(b, TickBank(b, n), n, IRQ_LINES[j], k)
  {
    hide Raised, Run, Clocked, Drives, Returns, RaisedFrom, Enabled, BitOf;
    var t, e := b.tim[i], TickBank(b, n);
    Lines();
    ControlBits(t);
    if Enabled(t) {
      RunRequests(b.core, i, t, n);
      RaisedByLines(b.core, i, e.tim[i], k);
    }
  }

  /** TIM2 of an F103 with only its update interrupt enabled, counting up with no repetition:
      within `n` cycles it requests interrupt 28 exactly when it overflows. */
  lemma Tim2RequestsOnOverflow(b: Bank, n: word)
    requires BankReturns(b, n) && b.core >= 2 && 28 !in b.pending
    requires var t := b.tim[TIM2];
      && BitOf(t.cr1, 0) == 1 && BitOf(t.cr1, 5) == BitOf(t.cr1, 6) == 0 && t.dier == {0} && 0 !in t.sr
      && t.cnt <= t.arr < 0xFFFF_FFFF && t.arr != 0 && t.pscnt <= t.psc < 0xFFFF_FFFF
      && t.rcrCnt == 0 && t.rcr % 0x100 == 0
    ensures var t := b.tim[TIM2];
      28 in TickBank(b, n).pending <==> t.cnt + (t.pscnt + n) / (t.psc + 1) > t.arr
  {
    hide Raised, Run, Clocked, Returns, RaisedFrom, Enabled, BitOf, Cms, Quotient, Remainder;
    var t, e := b.tim[TIM2], TickBank(b, n);
    ControlBits(t);
    Lines();
    BankRequestsExactly(b, n, 28);
    var clocks := Quotient(t.pscnt + n, t.psc + 1);
    EdgeTimer(b.core, TIM2, t, n);
    RunRequests(b.core, TIM2, t, n);
    OneInOne(Quotient(t.cnt + clocks, t.arr + 1));
    QuotientAsDivision(t.pscnt + n, t.psc + 1);
    Reaches(t.cnt + clocks, t.arr + 1);
    assert e.tim[TIM2] == Run(b.core, TIM2, t, n).0;
    assert Requests(b, e, n, IRQ_LINES[2], 28) <==> Clocked(t, n) && 0 in e.tim[TIM2].sr by {
      UpdateDrives(e.tim[TIM2]);
    }
  }

  lemma UpdateDrives(t: Timer)
    requires t.dier == {0}
    ensures Drives(t, Any) <==> 0 in t.sr
  {
  }

  lemma OneInOne(x: nat)
    ensures Quotient(x + 0 - 0, 0 + 1) == x
  {
    DivModUnique(x, 1, x, 0);
  }

  lemma QuotientAsDivision(x: nat, d: nat)
    requires d > 0
    ensures Quotient(x, d) == x / d
  {
  }

  lemma Reaches(x: nat, d: nat)
    requires d > 0
    ensures Quotient(x, d) > 0 <==> x >= d
  {
    DivMod(x, d);
    if x < d {
      DivModUnique(x, d, 0, x);
    }
  }
}
