/** Closed forms of the timers: single cycles, the prescaler, the counter as a remainder or
    a triangular wave, and the repetition counter. */
module TimerForms {
  import opened Words
  import Cpu
  import opened Timers

  // ---------------------------------------------------------------- single cycles

  /** One cycle, told without batches: the prescaler counts to PSC, then clocks the counter. */
  function TickOnce(core: nat, i: nat, t: Timer): (r: (Timer, Mask)) {
    if t.pscnt == t.psc then
      var u := Clock(t.(pscnt := 0));
      (u, Raised(core, i, u))
    else (t.(pscnt := Plus(t.pscnt, 1)), {})
  }

  function TickTimes(core: nat, i: nat, t: Timer, n: nat): (r: (Timer, Mask))
    decreases n
  {
    if n == 0 then (t, {})
    else
      var r := TickOnce(core, i, t);
      var q := TickTimes(core, i, r.0, n - 1);
      (q.0, r.1 + q.1)
  }

  lemma OneCycleLeft(psc: word, pscnt: word)
    requires psc < 0xFFFF_FFFF
    ensures 1 < Minus(psc + 1, pscnt) <==> pscnt != psc && pscnt != psc + 1
    ensures Minus(psc + 1, pscnt) == 1 <==> pscnt == psc
    ensures Minus(psc + 1, pscnt) == 0 <==> pscnt == psc + 1
  {
  }

  /** A batch of one cycle is one cycle, exactly unless PSCNT stands one past PSC, where the
      loop makes a clock that costs no cycle. */
  lemma SingleCycle(core: nat, i: nat, t: Timer)
    requires t.arr != 0 && t.psc < 0xFFFF_FFFF
    ensures Run(core, i, t, 1) == TickOnce(core, i, t) <==> t.pscnt != t.psc + 1
  {
    hide Clock, Raised, Minus, Plus;
    NoneAdded();
    OneCycleLeft(t.psc, t.pscnt);
    if t.pscnt == t.psc + 1 {
      var u := Clock(t.(pscnt := 0));
      ClockKeepsControl(t.(pscnt := 0));
      FreeClock(core, i, u);
      OffByOne(t.pscnt, t.psc);
    } else if t.pscnt == t.psc {
      var u := Clock(t.(pscnt := 0));
      ClockKeepsControl(t.(pscnt := 0));
      assert Run(core, i, u, 0) == (u, {});
    }
  }

  lemma FreeClock(core: nat, i: nat, u: Timer)
    requires u.pscnt == 0 && u.psc < 0xFFFF_FFFF && u.arr != 0
    ensures Run(core, i, u, 1).0.pscnt == if u.psc == 0 then 0 else 1
  {
    hide Clock, Raised;
    ClockKeepsControl(u);
  }

  lemma OffByOne(pscnt: word, psc: word)
    requires pscnt == psc + 1 && psc < 0xFFFF_FFFF
    ensures Plus(pscnt, 1) != 0 || psc == 0xFFFF_FFFE
    ensures Plus(pscnt, 1) != 1
    ensures psc == 0 ==> Plus(pscnt, 1) == 2
  {
  }

  /** `emu_timer_tick(n)` on one timer is `n` single cycles. */
  lemma {:induction false} BatchIsSingleCycles(core: nat, i: nat, t: Timer, n: nat)
    requires t.arr != 0 && t.psc < 0xFFFF_FFFF && t.pscnt != t.psc + 1 && n < 0x1_0000_0000
    ensures Run(core, i, t, n) == TickTimes(core, i, t, n)
    decreases n
  {
    hide Run, Raised, Clock, Plus;
    if n == 0 {
      RunOfNone(core, i, t);
    } else {
      var u := TickOnce(core, i, t).0;
      SingleCycle(core, i, t);
      RunSplits(core, i, t, 1, n - 1);
      ClockKeepsControl(t.(pscnt := 0));
      NotPast(t.pscnt, t.psc);
      BatchIsSingleCycles(core, i, u, n - 1);
    }
  }

  lemma RunOfNone(core: nat, i: nat, t: Timer)
    ensures Run(core, i, t, 0) == (t, {})
  {
  }

  lemma NotPast(pscnt: word, psc: word)
    requires psc < 0xFFFF_FFFF
    ensures pscnt != psc && pscnt != psc + 1 ==> Plus(pscnt, 1) != psc + 1
  {
  }

  // ---------------------------------------------------------------- the prescaler

  function Clocks(t: Timer, n: nat): Timer {
    if n == 0 then t else Clock(Clocks(t, n - 1))
  }

  lemma {:induction false} ClocksKeepControl(t: Timer, n: nat)
    ensures var u := Clocks(t, n);
      && u.cr1 == t.cr1 && u.cr2 == t.cr2 && u.dier == t.dier && u.psc == t.psc && u.arr == t.arr
      && u.rcr == t.rcr && u.ccr == t.ccr && u.pscnt == t.pscnt
  {
    hide Clock;
    if n > 0 {
      ClocksKeepControl(t, n - 1);
      ClockKeepsControl(Clocks(t, n - 1));
    }
  }

  /** After `n` cycles the prescaler holds a remainder and the counter has been clocked once
      per quotient. */
  lemma {:induction false} PrescalerForm(core: nat, i: nat, t: Timer, n: nat)
    requires t.arr != 0 && t.psc < 0xFFFF_FFFF && t.pscnt <= t.psc && n < 0x1_0000_0000
    ensures var x := t.pscnt + n;
      && Remainder(x, t.psc + 1) <= t.psc
      && Run(core, i, t, n).0 == Clocks(t, Quotient(x, t.psc + 1)).(pscnt := Remainder(x, t.psc + 1))
    decreases n
  {
    hide Run, Clock, Quotient, Remainder;
    var d := t.psc + 1;
    if n == 0 {
      RunOfNone(core, i, t);
      SmallRemainder(t.pscnt, d);
      assert Clocks(t, 0) == t;
    } else {
      var x := t.pscnt + n - 1;
      var q := Quotient(x, d);
      PrescalerForm(core, i, t, n - 1);
      RunSplits(core, i, t, n - 1, 1);
      NextRemainder(x, d);
      NextRemainder(x + 1, d);
      ClocksKeepControl(t, q);
      PrescalerStep(core, i, Clocks(t, q), Remainder(x, d));
      assert Clocks(t, q + 1) == Clock(Clocks(t, q));
    }
  }

  lemma PrescalerStep(core: nat, i: nat, t: Timer, p: word)
    requires t.arr != 0 && t.psc < 0xFFFF_FFFF && p <= t.psc
    ensures Run(core, i, t.(pscnt := p), 1).0 == if p == t.psc then Clock(t).(pscnt := 0) else t.(pscnt := p + 1)
  {
    hide Run, Clock, Raised, Plus;
    var u := t.(pscnt := p);
    SingleCycle(core, i, u);
    if p == t.psc {
      ClockIgnoresPscnt(t, 0);
      assert u.(pscnt := 0) == t.(pscnt := 0);
    } else {
      PlusFits(p, 1);
    }
  }

  // ---------------------------------------------------------------- counting events

  /** How many of the first `n` clocks were overflows (edge) or turning points (center). */
  function Turns(t: Timer, n: nat): nat {
    if n == 0 then 0 else Turns(t, n - 1) + if Advance(Clocks(t, n - 1)).turn then 1 else 0
  }

  function Updates(t: Timer, n: nat): nat {
    if n == 0 then 0 else Updates(t, n - 1) + if IsUpdate(Clocks(t, n - 1)) then 1 else 0
  }

  /** The repetition counter: with RCR at `R` and the counter loaded at most to `R`, the
      update events are one in every `R + 1` turns, the first after `rcrCnt + 1`. */
  lemma {:induction false} UpdatesEveryRepetition(t: Timer, n: nat)
    requires t.rcrCnt <= t.rcr % 0x100
    ensures var R := t.rcr % 0x100;
      var x := Turns(t, n) + R - t.rcrCnt;
      Updates(t, n) == Quotient(x, R + 1) && Clocks(t, n).rcrCnt == R - Remainder(x, R + 1)
    decreases n
  {
    hide Advance, Clock, Quotient, Remainder;
    var R := t.rcr % 0x100;
    if n == 0 {
      SmallRemainder(R - t.rcrCnt, R + 1);
    } else {
      UpdatesEveryRepetition(t, n - 1);
      ClocksKeepControl(t, n - 1);
      var x := Turns(t, n - 1) + R - t.rcrCnt;
      NextRemainder(x, R + 1);
      ClockTurns(Clocks(t, n - 1));
    }
  }

  lemma ClockTurns(t: Timer)
    ensures Clock(t).rcrCnt == if !Advance(t).turn then t.rcrCnt else if t.rcrCnt == 0 then t.rcr % 0x100
        else t.rcrCnt - 1
    ensures 0 in Clock(t).sr <==> 0 in t.sr || IsUpdate(t)
    ensures Clock(t).cnt == Advance(t).cnt && Clock(t).dir == Advance(t).dir
  {
    hide Advance, CanFire;
  }

  /** The update flag is up exactly if it was up before or an update happened. */
  lemma {:induction false} UpdateFlagMeansUpdate(t: Timer, n: nat)
    ensures 0 in Clocks(t, n).sr <==> 0 in t.sr || Updates(t, n) > 0
    decreases n
  {
    hide IsUpdate, Clock;
    if n > 0 {
      UpdateFlagMeansUpdate(t, n - 1);
      ClockTurns(Clocks(t, n - 1));
    }
  }

  // ---------------------------------------------------------------- compare flags

  /** Clock `k + 1` matches channel `ch` and may set its flag. */
  predicate Hits(t: Timer, ch: nat, k: nat)
    requires ch < 4
  {
    CanFire(Clocks(t, k)) && Clocks(t, k + 1).cnt == t.ccr[ch]
  }

  /** A compare flag is up exactly if it was up before or some clock hit its channel. */
  lemma {:induction false} CompareFlagMeansHit(t: Timer, ch: nat, n: nat)
    requires ch < 4
    ensures ch + 1 in Clocks(t, n).sr <==> ch + 1 in t.sr || exists k :: 0 <= k < n && Hits(t, ch, k)
    decreases n
  {
    hide Clock, Hits;
    if n > 0 {
      CompareFlagMeansHit(t, ch, n - 1);
      CompareStep(t, ch, n - 1);
    }
  }

  lemma CompareStep(t: Timer, ch: nat, n: nat)
    requires ch < 4
    ensures ch + 1 in Clocks(t, n + 1).sr <==> ch + 1 in Clocks(t, n).sr || Hits(t, ch, n)
  {
    hide Advance, CanFire;
    ClocksKeepControl(t, n);
  }

  // ---------------------------------------------------------------- interrupt requests

  lemma MoreFlagsMoreRequests(core: nat, i: nat, t: Timer, u: Timer)
    requires t.sr <= u.sr && t.dier == u.dier
    ensures Raised(core, i, t) <= Raised(core, i, u)
  {
  }

  lemma ClockOnlyAddsFlags(t: Timer)
    ensures t.sr <= Clock(t).sr && Clock(t).dier == t.dier
  {
    hide Advance, CanFire, Matches;
  }

  /** The requests of a whole batch are those of the flags it ends with, if the counter was
      clocked at all. */
  lemma {:induction false} RequestsForm(core: nat, i: nat, t: Timer, n: nat)
    requires t.arr != 0 && t.psc < 0xFFFF_FFFF && t.pscnt <= t.psc && n < 0x1_0000_0000
    ensures var clocks := Quotient(t.pscnt + n, t.psc + 1);
      Run(core, i, t, n).1 == if clocks == 0 then {} else Raised(core, i, Clocks(t, clocks))
    decreases n
  {
    hide Run, Clock, Raised, Quotient, Remainder, Clocks;
    var d := t.psc + 1;
    if n == 0 {
      RunOfNone(core, i, t);
      SmallRemainder(t.pscnt, d);
    } else {
      var x := t.pscnt + n - 1;
      var q := Quotient(x, d);
      RequestsForm(core, i, t, n - 1);
      PrescalerForm(core, i, t, n - 1);
      RunSplits(core, i, t, n - 1, 1);
      NextRemainder(x, d);
      ClocksKeepControl(t, q);
      RequestsStep(core, i, Clocks(t, q), Remainder(x, d));
      NextClock(t, q);
      ClockOnlyAddsFlags(Clocks(t, q));
      MoreFlagsMoreRequests(core, i, Clocks(t, q), Clock(Clocks(t, q)));
    }
  }

  lemma NextClock(t: Timer, q: nat)
    ensures Clocks(t, q + 1) == Clock(Clocks(t, q))
  {
  }

  lemma RequestsStep(core: nat, i: nat, t: Timer, p: word)
    requires t.arr != 0 && t.psc < 0xFFFF_FFFF && p <= t.psc
    ensures Run(core, i, t.(pscnt := p), 1).1 == if p == t.psc then Raised(core, i, Clock(t)) else {}
  {
    hide Run, Clock, Raised, Plus;
    var u := t.(pscnt := p);
    SingleCycle(core, i, u);
    if p == t.psc {
      ClockIgnoresPscnt(t, 0);
      assert u.(pscnt := 0) == t.(pscnt := 0);
      RaisedIgnoresPscnt(core, i, Clock(t), 0);
    }
  }

  // ---------------------------------------------------------------- edge mode

  /** Edge-aligned counting is counting modulo ARR + 1, overflowing at every multiple. With
      ARR at 2^32 - 1 the counter wraps without the overflow being seen. */
  lemma {:induction false} EdgeForm(t: Timer, n: nat)
    requires Cms(t) == 0 && t.cnt <= t.arr < 0xFFFF_FFFF
    ensures Clocks(t, n).cnt == Remainder(t.cnt + n, t.arr + 1)
    ensures Turns(t, n) == Quotient(t.cnt + n, t.arr + 1)
    decreases n
  {
    hide Clock, Cms, Quotient, Remainder;
    var d := t.arr + 1;
    if n == 0 {
      SmallRemainder(t.cnt, d);
    } else {
      EdgeForm(t, n - 1);
      ClocksKeepControl(t, n - 1);
      var u := Clocks(t, n - 1);
      NextRemainder(t.cnt + n - 1, d);
      ClockTurns(u);
      assert Cms(u) == 0 by { SameMode(t, u); }
      PlusFits(u.cnt, 1);
    }
  }

  function EdgeCount(t: Timer, k: nat): nat
  {
    Remainder(t.cnt + k, t.arr + 1)
  }

  /** In edge mode a compare flag comes up exactly when the counter passes its value. */
  lemma EdgeCompare(t: Timer, ch: nat, n: nat)
    requires Cms(t) == 0 && t.cnt <= t.arr < 0xFFFF_FFFF && ch < 4
    ensures ch + 1 in Clocks(t, n).sr <==> ch + 1 in t.sr || exists k :: 1 <= k <= n && EdgeCount(t, k) == t.ccr[ch]
  {
    hide Clocks, Remainder, Hits, CanFire, Turns, Quotient, Cms;
    CompareFlagMeansHit(t, ch, n);
    forall k | 0 <= k < n
      ensures Hits(t, ch, k) <==> EdgeCount(t, k + 1) == t.ccr[ch]
    {
      EdgeForm(t, k + 1);
      ClocksKeepControl(t, k);
      EdgeHit(t, ch, k);
    }
    if k :| 1 <= k <= n && EdgeCount(t, k) == t.ccr[ch] {
      assert Hits(t, ch, k - 1);
    }
  }

  lemma EdgeHit(t: Timer, ch: nat, k: nat)
    requires Cms(t) == 0 && ch < 4 && Clocks(t, k).cr1 == t.cr1
    ensures Hits(t, ch, k) <==> Clocks(t, k + 1).cnt == t.ccr[ch]
  {
    hide Clocks;
  }

  lemma SameMode(t: Timer, u: Timer)
    requires u.cr1 == t.cr1
    ensures Cms(u) == Cms(t) && Enabled(u) == Enabled(t)
  {
  }

  lemma {:induction false} FullRangeNeverOverflows(t: Timer, n: nat)
    requires Cms(t) == 0 && t.arr == 0xFFFF_FFFF
    ensures Turns(t, n) == 0 && Clocks(t, n).cnt == Plus(t.cnt, n)
    decreases n
  {
    hide Clock, Cms, Plus;
    if n == 0 {
      PlusFits(t.cnt, 0);
    } else {
      FullRangeNeverOverflows(t, n - 1);
      ClocksKeepControl(t, n - 1);
      var u := Clocks(t, n - 1);
      ClockTurns(u);
      assert Cms(u) == 0 by { SameMode(t, u); }
      PlusPlus(t.cnt, n - 1, 1);
    }
  }

  /** The two together, from `n` cycles: counter and update count of an edge-aligned timer. */
  lemma EdgeTimer(core: nat, i: nat, t: Timer, n: nat)
    requires Cms(t) == 0 && t.cnt <= t.arr < 0xFFFF_FFFF && t.arr != 0
    requires t.psc < 0xFFFF_FFFF && t.pscnt <= t.psc && t.rcrCnt <= t.rcr % 0x100 && n < 0x1_0000_0000
    ensures var clocks := Quotient(t.pscnt + n, t.psc + 1);
      var overflows := Quotient(t.cnt + clocks, t.arr + 1);
      var R := t.rcr % 0x100;
      var updates := Quotient(overflows + R - t.rcrCnt, R + 1);
      var u := Run(core, i, t, n).0;
      && u.cnt == Remainder(t.cnt + clocks, t.arr + 1)
      && u.rcrCnt == R - Remainder(overflows + R - t.rcrCnt, R + 1)
      && (0 in u.sr <==> 0 in t.sr || updates > 0)
  {
    hide Run, Clocks, Turns, Updates, Cms, Quotient, Remainder;
    var clocks := Quotient(t.pscnt + n, t.psc + 1);
    PrescalerForm(core, i, t, n);
    EdgeForm(t, clocks);
    UpdatesEveryRepetition(t, clocks);
    UpdateFlagMeansUpdate(t, clocks);
  }

  // ---------------------------------------------------------------- center mode

  /** The phase of a center-aligned counter in its period of 2 * ARR clocks: the way up,
      then the way down. */
  function Phase(t: Timer): int {
    if t.dir >= 0 then t.cnt else 2 * t.arr - t.cnt
  }

  predicate InPhase(t: Timer) {
    if t.dir >= 0 then t.cnt < t.arr else 0 < t.cnt <= t.arr
  }

  /** The triangular wave. */
  function Wave(arr: word, phase: int): int {
    if phase < arr then phase else 2 * arr - phase
  }

  lemma CenterStep(t: Timer)
    requires Cms(t) != 0 && InPhase(t)
    ensures var u := Clock(t);
      && InPhase(u) && u.arr == t.arr
      && Phase(u) == (if Phase(t) + 1 == 2 * t.arr then 0 else Phase(t) + 1)
      && (Advance(t).turn <==> Phase(t) + 1 == t.arr || Phase(t) + 1 == 2 * t.arr)
  {
    hide Clock, Cms;
    ClockTurns(t);
    ClockKeepsControl(t);
    if t.dir >= 0 {
      PlusFits(t.cnt, 1);
    }
  }

  /** Center-aligned counting is the triangular wave of period 2 * ARR; its turning points
      are the multiples of ARR. */
  lemma {:induction false} CenterForm(t: Timer, n: nat)
    requires Cms(t) != 0 && InPhase(t)
    ensures var u := Clocks(t, n);
      var phase := Remainder(Phase(t) + n, 2 * t.arr);
      && InPhase(u) && Phase(u) == phase && u.cnt == Wave(t.arr, phase)
      && (u.dir >= 0 <==> phase < t.arr)
    ensures Turns(t, n) == Quotient(Phase(t) + n, t.arr) - Quotient(Phase(t), t.arr)
    decreases n
  {
    hide Clock, Cms, Advance, Quotient, Remainder;
    var p, d: int := Phase(t), t.arr;
    if n == 0 {
      SmallRemainder(p, 2 * d);
    } else {
      CenterForm(t, n - 1);
      ClocksKeepControl(t, n - 1);
      var u := Clocks(t, n - 1);
      assert Cms(u) != 0 by { SameMode(t, u); }
      CenterStep(u);
      NextRemainder(p + n - 1, 2 * d);
      NextRemainder(p + n - 1, d);
      HalfPeriod(p + n - 1, d);
    }
  }

  /** The remainder modulo `d`, from the one modulo `2 * d`. */
  lemma HalfPeriod(x: nat, d: nat)
    requires d > 0
    ensures Remainder(x, d) == if Remainder(x, 2 * d) < d then Remainder(x, 2 * d) else Remainder(x, 2 * d) - d
  {
    var q, r := x / (2 * d), x % (2 * d);
    DivMod(x, 2 * d);
    assert q * (2 * d) == (2 * q) * d;
    if r < d {
      DivModUnique(x, d, 2 * q, r);
    } else {
      Distribute(2 * q, 1, d);
      DivModUnique(x, d, 2 * q + 1, r - d);
    }
  }

  /** Whether clock `k` reaches the compare value while the counting direction before it is
      one in which CMS lets flags be set: down for 1, up for 2, both for 3. */
  predicate CenterHit(t: Timer, ch: nat, k: nat)
    requires ch < 4 && k > 0 && t.arr > 0 && Phase(t) >= 0
  {
    var before := Remainder(Phase(t) + k - 1, 2 * t.arr);
    && Wave(t.arr, Remainder(Phase(t) + k, 2 * t.arr)) == t.ccr[ch]
    && (Cms(t) == 3 || (Cms(t) == 1 && before >= t.arr) || (Cms(t) == 2 && before < t.arr))
  }

  lemma CenterCompare(t: Timer, ch: nat, n: nat)
    requires Cms(t) != 0 && InPhase(t) && ch < 4
    ensures ch + 1 in Clocks(t, n).sr <==> ch + 1 in t.sr || exists k :: 1 <= k <= n && CenterHit(t, ch, k)
  {
    hide Clocks, Remainder, Hits, CenterHit;
    CompareFlagMeansHit(t, ch, n);
    forall k | 0 <= k < n
      ensures Hits(t, ch, k) <==> CenterHit(t, ch, k + 1)
    {
      CenterHitStep(t, ch, k);
    }
    if k :| 1 <= k <= n && CenterHit(t, ch, k) {
      assert Hits(t, ch, k - 1);
    }
  }

  lemma CenterHitStep(t: Timer, ch: nat, k: nat)
    requires Cms(t) != 0 && InPhase(t) && ch < 4
    ensures Hits(t, ch, k) <==> CenterHit(t, ch, k + 1)
  {
    hide Clocks, Remainder, Wave, Phase;
    CenterForm(t, k);
    CenterForm(t, k + 1);
    ClocksKeepControl(t, k);
  }

  /** From `n` cycles: counter, direction and update count of a center-aligned timer. */
  lemma CenterTimer(core: nat, i: nat, t: Timer, n: nat)
    requires Cms(t) != 0 && InPhase(t)
    requires t.psc < 0xFFFF_FFFF && t.pscnt <= t.psc && t.rcrCnt <= t.rcr % 0x100 && n < 0x1_0000_0000
    ensures var clocks := Quotient(t.pscnt + n, t.psc + 1);
      var phase := Remainder(Phase(t) + clocks, 2 * t.arr);
      var turns := Quotient(Phase(t) + clocks, t.arr) - Quotient(Phase(t), t.arr);
      var R := t.rcr % 0x100;
      var u := Run(core, i, t, n).0;
      && turns >= 0
      && u.cnt == Wave(t.arr, phase) && (u.dir >= 0 <==> phase < t.arr)
      && u.rcrCnt == R - Remainder(turns + R - t.rcrCnt, R + 1)
      && (0 in u.sr <==> 0 in t.sr || Quotient(turns + R - t.rcrCnt, R + 1) > 0)
  {
    hide Run, Clocks, Turns, Updates, Cms, Phase, Quotient, Remainder;
    var clocks := Quotient(t.pscnt + n, t.psc + 1);
    PrescalerForm(core, i, t, n);
    CenterForm(t, clocks);
    UpdatesEveryRepetition(t, clocks);
    UpdateFlagMeansUpdate(t, clocks);
  }

  /** Outside the domain of the closed forms: an edge-aligned counter beyond ARR is back at 0
      after one clock, with an overflow unless it stood at 2^32 - 1. */
  lemma BeyondArrWraps(t: Timer)
    requires Cms(t) == 0 && t.cnt > t.arr
    ensures Clock(t).cnt == 0 && Turns(t, 1) == if t.cnt == 0xFFFF_FFFF then 0 else 1
  {
    hide CanFire, Matches, ComOnUpdate;
    assert Clocks(t, 0) == t;
    assert Turns(t, 0) == 0;
  }

  /** The turning points of a center-aligned counter, in phase or not: it never passes ARR on
      the way up or 0 on the way down. */
  lemma TurningPoints(t: Timer)
    requires Cms(t) != 0 && t.cnt < 0xFFFF_FFFF
    ensures var u := Clock(t);
      if t.dir >= 0 then
        (if t.cnt + 1 < t.arr then u.cnt == t.cnt + 1 && u.dir == t.dir else u.cnt == t.arr && u.dir == -1)
      else
        (if t.cnt > 1 then u.cnt == t.cnt - 1 && u.dir == t.dir else u.cnt == 0 && u.dir == 1)
  {
    hide CanFire, Matches, ComOnUpdate, Cms, Plus;
    PlusFits(t.cnt, 1);
  }

  /** Out of reset a timer is off, counts up, and every register and flag of it is 0. */
  lemma ResetTimer(ch: nat)
    requires ch < 4
    ensures var t := Stopped();
      && t.cr1 == t.cr2 == t.ccmr1 == t.ccmr2 == t.ccer == t.cnt == t.psc == t.arr == t.rcr == t.ccr[ch] == 0
      && t.ccmr1Eff == t.ccmr2Eff == t.ccerEff == t.rcrCnt == t.pscnt == 0
      && t.dier == t.sr == {} && t.dir == 1
  {
  }

  /** EGR by bit number: bits 0 to 7 each raise the flag of their number; bit 0 restarts the
      counter, bit 5 loads the output registers, and nothing else changes. */
  lemma EgrByBits(t: Timer, bits: Mask, f: nat)
    ensures var u := WriteEgr(t, bits);
      && (f in u.sr <==> f in t.sr || (f in bits && f < 8))
      && (u.cnt, u.pscnt, u.dir, u.rcrCnt)
         == (if 0 in bits then (0, 0, 1, t.rcr % 0x100) else (t.cnt, t.pscnt, t.dir, t.rcrCnt))
      && (u.ccmr1Eff, u.ccmr2Eff, u.ccerEff)
         == (if 5 in bits then (t.ccmr1, t.ccmr2, t.ccer) else (t.ccmr1Eff, t.ccmr2Eff, t.ccerEff))
      && u == t.(sr := u.sr, cnt := u.cnt, pscnt := u.pscnt, dir := u.dir, rcrCnt := u.rcrCnt,
                 ccmr1Eff := u.ccmr1Eff, ccmr2Eff := u.ccmr2Eff, ccerEff := u.ccerEff)
  {
  }

  /** After EGR.UG a timer meets the conditions of every closed form above, whatever state
      it was in; the first update then comes after RCR + 1 turns, and every RCR + 1 turns. */
  lemma UpdateGenerationAligns(t: Timer, n: nat)
    requires t.arr != 0
    ensures var u := GenerateUpdate(t);
      && u.cnt <= u.arr && InPhase(u) && u.pscnt <= u.psc && u.rcrCnt <= u.rcr % 0x100
      && Updates(u, n) == Quotient(Turns(u, n), u.rcr % 0x100 + 1)
  {
    hide Turns, Updates, Quotient, Remainder;
    UpdatesEveryRepetition(GenerateUpdate(t), n);
  }
}
