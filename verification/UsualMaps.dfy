/** The memory maps of real parts meet the conditions the theorems put on a map, and reset on
    them is where runs start. */
module UsualMaps {
  import opened Words
  import opened Memory
  import opened MemoryLaws
  import opened PlainMemory
  import opened Cpu
  import opened Nesting
  import opened Coherence

  lemma UsualMapsAreSound(cfg: Config)
    requires UsualMap(cfg)
    ensures SoundMap(cfg) && WellPlaced(cfg)
  {
    hide PeriphWrites;
    forall a: word | cfg.sramBase <= a < cfg.sramBase + cfg.sramSize
      ensures PlainAddr(cfg, a)
    {
      NoWindowBelow(a);
    }
    forall a: word | cfg.sramBase - 32 <= a < cfg.sramBase
      ensures !IsBitband(a) && !PeriphWrites(a) && Translate(cfg, a) < SRAM_OFFSET
    {
      NoWindowBelow(a);
    }
  }

  /** Out of reset, on the map of a real part and with the initial stack pointer of the
      vector table in SRAM. */
  ghost predicate Boots(s: State, dev: Device) {
    && UsualMap(s.cfg)
    && var sp := Read(s.cfg, s.mem, dev, s.cfg.flashBase, 4);
       s.cfg.sramBase <= sp <= s.cfg.sramBase + s.cfg.sramSize
  }

  /** Reset is where the runs of `Nesting` start. */
  lemma ResetStartsARun(s: State, dev: Device)
    requires Boots(s, dev)
    ensures IsRun([Configuration(ResetState(s, dev), [])])
  {
    hide Read, Plus, HalfwordAligned, Safe, Coherent, WellPlaced, SoundMap;
    var r := ResetState(s, dev);
    UsualMapsAreSound(s.cfg);
    ResetIsCoherent(s, dev);
    ResetSp(s, dev);
    ThreadModeIsSafe(r);
  }

  lemma ResetSp(s: State, dev: Device)
    ensures var r := ResetState(s, dev);
      r.regs[SP] == Read(s.cfg, s.mem, dev, s.cfg.flashBase, 4)
      && r.cfg == s.cfg && r.active == 0 && !r.halted && !r.lockup
  {
    hide Read, Plus, HalfwordAligned;
  }

  /** A fault after reset and a fault in its handler: the run of three configurations ends in
      lockup, the first context suspended in one frame. */
  lemma TwoFaultsLockUp(s: State, dev: Device, code: word, code': word)
    requires Boots(s, dev)
    ensures var c0 := Configuration(ResetState(s, dev), []);
      var c1 := Configuration(HardFault(c0.s, code), Stacked(c0));
      var c2 := Configuration(HardFault(c1.s, code'), c1.frames);
      && IsRun([c0, c1, c2])
      && c1.s.active == HARD_FAULT && |c1.frames| == 1
      && c2.s.lockup && c2.s.halted
  {
    hide Boots, ResetState, Safe, HardFault, Stacked;
    var c0 := Configuration(ResetState(s, dev), []);
    var c1 := Configuration(HardFault(c0.s, code), Stacked(c0));
    var c2 := Configuration(HardFault(c1.s, code'), c1.frames);
    ResetStartsARun(s, dev);
    ResetSp(s, dev);
    StackedAddsOne(c0);
    FaultInThreadMode(c0.s, code);
    FaultInHardFault(c1.s, code');
    assert FaultStep(c0, c1, code);
    assert FaultStep(c1, c2, code');
    var run := [c0, c1, c2];
    assert Step(run[0], run[1]) && Step(run[1], run[2]);
  }

  lemma FaultInThreadMode(s: State, code: word)
    requires s.active == 0 && !s.halted && !s.lockup
    ensures var f := HardFault(s, code);
      f.active == HARD_FAULT && !f.halted && !f.lockup
  {
    hide WriteWords, Read, FrameWords, Minus, WithException, HalfwordAligned;
    HardFaultTakes(s, code);
  }

  lemma FaultInHardFault(s: State, code: word)
    requires s.active == HARD_FAULT
    ensures HardFault(s, code).lockup && HardFault(s, code).halted
  {
    hide EnterException;
  }
}
