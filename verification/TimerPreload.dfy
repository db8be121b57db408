/** Preloaded outputs (`src/periph_timers.c`): with CCPC set, the output registers in force
    change together, at COM events, and at no other time. */
module TimerPreload {
  import opened Words
  import opened Timers

  /** What can happen to one timer. CR2 is not written: CCPC is fixed over a run. */
  datatype Event =
    | SetCcmr1(val: word)
    | SetCcmr2(val: word)
    | SetCcer(val: word)
    | Generate(bits: Mask)
    | CounterClock
    | ClearFlags(keep: Mask)
    | Configure(cr1: word, dier: Mask, cnt: word, psc: word, arr: word, rcr: word, ccr: Channels)

  function After(t: Timer, e: Event): Timer {
    match e
    case SetCcmr1(val) => WriteCcmr1(t, val)
    case SetCcmr2(val) => WriteCcmr2(t, val)
    case SetCcer(val) => WriteCcer(t, val)
    case Generate(bits) => WriteEgr(t, bits)
    case CounterClock => Clock(t)
    case ClearFlags(keep) => t.(sr := t.sr * keep)
    case Configure(cr1, dier, cnt, psc, arr, rcr, ccr) =>
      t.(cr1 := cr1, dier := dier, cnt := cnt, psc := psc, arr := arr, rcr := rcr, ccr := ccr)
  }

  function Run(t: Timer, events: seq<Event>): Timer {
    if |events| == 0 then t else After(Run(t, events[..|events| - 1]), events[|events| - 1])
  }

  /** The three output registers: as written, and as in force. */
  datatype Outputs = Outputs(ccmr1: word, ccmr2: word, ccer: word)

  function Written(t: Timer): Outputs {
    Outputs(t.ccmr1, t.ccmr2, t.ccer)
  }

  function InForce(t: Timer): Outputs {
    Outputs(t.ccmr1Eff, t.ccmr2Eff, t.ccerEff)
  }

  /** Whether `e` makes a COM event: EGR.COMG, or an update with CR2 bit 2 set. */
  predicate IsCom(t: Timer, e: Event) {
    (e.Generate? && 5 in e.bits) || (e.CounterClock? && IsUpdate(t) && ComOnUpdate(t))
  }

  /** Whether event `k` of the run makes a COM event. */
  predicate ComAt(t: Timer, events: seq<Event>, k: nat)
    requires k < |events|
  {
    IsCom(Run(t, events[..k]), events[k])
  }

  lemma OneEvent(t: Timer, e: Event)
    ensures Preloads(After(t, e)) == Preloads(t)
    ensures Preloads(t) ==> InForce(After(t, e)) == if IsCom(t, e) then Written(t) else InForce(t)
    ensures !Preloads(t) && InForce(t) == Written(t) ==> InForce(After(t, e)) == Written(After(t, e))
  {
    hide Advance, CanFire, Matches, IsUpdate;
  }

  lemma {:induction false} PreloadIsFixed(t: Timer, events: seq<Event>)
    ensures Preloads(Run(t, events)) == Preloads(t)
    decreases |events|
  {
    hide After, Preloads;
    if |events| > 0 {
      var n := |events| - 1;
      PreloadIsFixed(t, events[..n]);
      OneEvent(Run(t, events[..n]), events[n]);
    }
  }

  /** With CCPC set, what is in force is what was written up to the last COM event, all three
      registers of the same moment. */
  lemma {:induction false} LastComIsInForce(t: Timer, events: seq<Event>, k: nat)
    requires Preloads(t) && k < |events| && ComAt(t, events, k)
    requires forall j :: k < j < |events| ==> !ComAt(t, events, j)
    ensures InForce(Run(t, events)) == Written(Run(t, events[..k]))
    decreases |events|
  {
    hide After, Preloads, IsCom;
    var n := |events| - 1;
    PreloadIsFixed(t, events[..n]);
    OneEvent(Run(t, events[..n]), events[n]);
    if k < n {
      assert !ComAt(t, events, n);
      Shorter(t, events, k);
      LastComIsInForce(t, events[..n], k);
      assert events[..n][..k] == events[..k];
    }
  }

  /** Dropping the last event changes nothing about those before it. */
  lemma Shorter(t: Timer, events: seq<Event>, k: nat)
    requires |events| > 0
    ensures var n := |events| - 1;
      forall j :: 0 <= j < n ==> ComAt(t, events[..n], j) == ComAt(t, events, j)
  {
    hide Run, IsCom;
    var n := |events| - 1;
    forall j | 0 <= j < n ensures ComAt(t, events[..n], j) == ComAt(t, events, j) {
      assert events[..n][..j] == events[..j];
    }
  }

  /** Without a COM event nothing written takes effect. */
  lemma {:induction false} NoComKeepsOutputs(t: Timer, events: seq<Event>)
    requires Preloads(t) && forall j :: 0 <= j < |events| ==> !ComAt(t, events, j)
    ensures InForce(Run(t, events)) == InForce(t)
    decreases |events|
  {
    hide After, Preloads, IsCom;
    if |events| > 0 {
      var n := |events| - 1;
      PreloadIsFixed(t, events[..n]);
      OneEvent(Run(t, events[..n]), events[n]);
      assert !ComAt(t, events, n);
      Shorter(t, events, 0);
      NoComKeepsOutputs(t, events[..n]);
    }
  }

  /** With CCPC clear, whatever is written is in force at once. */
  lemma {:induction false} DirectOutputs(t: Timer, events: seq<Event>)
    requires !Preloads(t) && InForce(t) == Written(t)
    ensures InForce(Run(t, events)) == Written(Run(t, events))
    decreases |events|
  {
    hide After, Preloads;
    if |events| > 0 {
      var n := |events| - 1;
      PreloadIsFixed(t, events[..n]);
      DirectOutputs(t, events[..n]);
      OneEvent(Run(t, events[..n]), events[n]);
    }
  }

  /** COMIF is up at the end exactly if it was up at the start, or software generated a COM
      event, with no clearing write since: a COM event made by an update never sets it. */
  lemma {:induction false} ComFlagIsFromSoftware(t: Timer, events: seq<Event>)
    ensures 5 in Run(t, events).sr <==>
      || (exists k :: 0 <= k < |events| && Commutes(events[k]) && StaysUp(events, k + 1))
      || (5 in t.sr && StaysUp(events, 0))
    decreases |events|
  {
    hide After, StaysUp;
    if |events| == 0 {
      StaysUpAtEnd(events);
    } else {
      var n := |events| - 1;
      var u := Run(t, events[..n]);
      FlagStep(u, events[n]);
      StaysUpAtEnd(events);
      forall k | 0 <= k <= n
        ensures StaysUp(events, k) <==> StaysUp(events[..n], k) && !Clears(events[n])
      {
        StaysUpNext(events, k);
      }
      ComFlagIsFromSoftware(t, events[..n]);
      if 5 in Run(t, events).sr {
        if Commutes(events[n]) {
          assert StaysUp(events, n + 1);
        } else if !(5 in t.sr && StaysUp(events[..n], 0)) {
          var k :| 0 <= k < n && Commutes(events[..n][k]) && StaysUp(events[..n], k + 1);
          assert Commutes(events[k]) && StaysUp(events, k + 1);
        }
      } else {
        forall k | 0 <= k < |events| && Commutes(events[k])
          ensures !StaysUp(events, k + 1)
        {
          if k < n {
            assert Commutes(events[..n][k]);
          }
        }
      }
    }
  }

  predicate Commutes(e: Event) {
    e.Generate? && 5 in e.bits
  }

  predicate Clears(e: Event) {
    e.ClearFlags? && 5 !in e.keep
  }

  /** No event from `k` on clears COMIF. */
  predicate StaysUp(events: seq<Event>, k: nat) {
    forall j :: k <= j < |events| ==> !Clears(events[j])
  }

  lemma StaysUpAtEnd(events: seq<Event>)
    ensures StaysUp(events, |events|)
  {
  }

  lemma StaysUpNext(events: seq<Event>, k: nat)
    requires k < |events|
    ensures var n := |events| - 1;
      StaysUp(events, k) <==> StaysUp(events[..n], k) && !Clears(events[n])
  {
    hide Clears;
    var n := |events| - 1;
    forall j | k <= j < n ensures Clears(events[..n][j]) == Clears(events[j]) {
    }
  }

  lemma FlagStep(t: Timer, e: Event)
    ensures 5 in After(t, e).sr <==> Commutes(e) || (5 in t.sr && !Clears(e))
  {
    hide Advance, CanFire, IsUpdate, ComOnUpdate;
  }
}
