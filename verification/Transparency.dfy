/** Preemption is transparent: code that is interrupted any number of times, by handlers
    that are themselves interrupted, computes what it would have computed undisturbed.

    A `Program` is what the core executes between two points: its own operations, and the
    preemptions that happen between them. Each preemption goes through the real entry and
    return functions of `Cpu`, over the real byte memory; the eight stacked words are the
    only record of the interrupted context. */
module Transparency {
  import opened Words
  import opened Memory
  import opened MemoryLaws
  import opened Cpu
  import opened Blocks

  /** What one instruction of the interrupted code does. */
  type Operation = State -> State

  /** How a handler is entered. */
  datatype Cause =
    | Arrival(irqs: Mask)        // interrupts become pending, then the pending check runs
    | Fault(code: word)          // the instruction faults

  /** How a handler returns: BX of a register, or POP of some low registers and PC. */
  datatype Return = Bx(rm: nat) | PopPc(list: RegList)

  /** Offsets of bytes that some code keeps to itself: its static data. */
  type Private = set<nat>

  /** `own` is the static data of the handler. */
  datatype Program =
    | Done
    | Do(op: Operation, rest: Program)
    | Preempt(cause: Cause, handler: Program, own: Private, ret: Return, rest: Program)

  function Enter(s: State, cause: Cause): State
  {
    match cause
    case Arrival(irqs) => CheckPending(s.(pending := s.pending + irqs))
    case Fault(code) => HardFault(s, code)
  }

  /** The return instruction up to the exception return: the state and the branch target.
      PC is past the instruction, and a branch to PC itself reads two bytes further. */
  function Returning(s: State, ret: Return): (State, word) {
    match ret
    case Bx(rm) =>
      var target := if rm == PC then Plus(s.regs[PC], 2) else if rm < 16 then s.regs[rm] else 0;
      (s.(regs := s.regs[PC := HalfwordAligned(target)]), target)
    case PopPc(list) => PopLoads(s, list, true)
  }

  /** The whole run. */
  function Exec(p: Program, s: State): State
    decreases p
  {
    match p
    case Done => s
    case Do(op, rest) => Exec(rest, op(s))
    case Preempt(cause, handler, own, ret, rest) =>
      Exec(rest, ExitException(Returning(Exec(handler, Enter(s, cause)), ret).0))
  }

  /** The program's own operations, with every preemption left out. */
  function Solo(p: Program, s: State): State
    decreases p
  {
    match p
    case Done => s
    case Do(op, rest) => Solo(rest, op(s))
    case Preempt(_, _, _, _, rest) => Solo(rest, s)
  }

  // ---------------------------------------------------------------- what code can see

  /** Memory that code with stack pointer `sp` relies on: flash, the stack from `sp` up, and
      the private bytes in `keep`. */
  ghost predicate SameRelied(cfg: Config, mem: Mem, mem': Mem, sp: int, keep: Private) {
    && SameBelowSram(mem, mem')
    && SameBytes(mem, mem', Off(cfg, sp), SRAM_OFFSET + cfg.sramSize)
    && forall i :: i in keep && i < MEM_SIZE ==> mem'[i] == mem[i]
  }

  /** Two states that code cannot tell apart: all sixteen registers, xPSR, the IT state, the
      active exception, and the memory the code relies on. */
  ghost predicate SameView(s: State, t: State, keep: Private) {
    && s.cfg == t.cfg && s.regs == t.regs && s.xpsr == t.xpsr && s.it == t.it && s.active == t.active
    && SameRelied(s.cfg, s.mem, t.mem, s.regs[SP], keep)
  }

  /** At `s` the operation computes from the view alone: it does the same on every state
      that looks like `s`. */
  ghost predicate LocalAt(op: Operation, s: State, keep: Private) {
    forall t :: SameView(s, t, keep) ==> SameView(op(s), op(t), keep)
  }

  // ---------------------------------------------------------------- discipline

  /** The eight words below SP lie in SRAM and outside private data. */
  ghost predicate FrameFits(s: State, keep: Private) {
    var sp: int := s.regs[SP];
    InSram(s.cfg, sp - 32, 32) && forall i :: i in keep ==> !(Off(s.cfg, sp) - 32 <= i < Off(s.cfg, sp))
  }

  /** An exception is really entered (rather than refused, or turned into a lockup). */
  predicate Taken(s: State, cause: Cause) {
    match cause
    case Arrival(irqs) =>
      var s' := s.(pending := s.pending + irqs);
      Chosen(s') != -1 && (s.active == HARD_FAULT ==> FrameAccepted(s', Chosen(s')))
    case Fault(_) => s.active != HARD_FAULT
  }

  /** What a handler owes, stated on its own code alone, from its entry state `e` to the
      state `f` in which it starts its return: it leaves flash, everything from its frame up
      and the private data of interrupted code as they were, and its return instruction finds
      an EXC_RETURN value, brings SP back to the frame, and leaves R4-R11 with their values
      at entry. */
  ghost predicate KeepsContract(e: State, f: State, ret: Return, keep: Private) {
    var (g, target) := Returning(f, ret);
    && f.cfg == e.cfg
    && SameRelied(e.cfg, e.mem, f.mem, e.regs[SP], keep)
    && (ret.PopPc? ==> InSram(f.cfg, f.regs[SP], 4 * BlockSize(ret.list, true)))
    && IsExcReturn(target)
    && g.regs[SP] == e.regs[SP]
    && g.regs[4..12] == e.regs[4..12]
  }

  /** Each operation is local where it runs, each preemption really happens with room for its
      frame, and each handler keeps its contract when its own code runs alone from its entry
      state.
      `keep` is the private data of the code and of everything it interrupts. */
  ghost predicate Disciplined(p: Program, s: State, keep: Private)
    decreases p
  {
    match p
    case Done => true
    case Do(op, rest) => LocalAt(op, s, keep) && Disciplined(rest, op(s), keep)
    case Preempt(cause, handler, own, ret, rest) =>
      && SoundMap(s.cfg) && Coherent(s) && FrameFits(s, keep) && Taken(s, cause)
      && var e := Enter(s, cause);
      && Disciplined(handler, e, keep + own)
      && KeepsContract(e, Solo(handler, e), ret, keep)
      && Disciplined(rest, ExitException(Returning(Exec(handler, e), ret).0), keep)
  }

  // ---------------------------------------------------------------- one activation

  /** The parts of the state that exception entry stacks or changes. */
  ghost predicate SameContext(x: State, s: State) {
    x.cfg == s.cfg && x.regs == s.regs && x.xpsr == s.xpsr && x.it == s.it && x.active == s.active && x.mem == s.mem
  }

  /** Every way in takes some exception from the interrupted context. */
  lemma EnterTakes(s: State, cause: Cause) returns (x: State, n: nat)
    requires Taken(s, cause)
    ensures n < 512 && SameContext(x, s) && Enter(s, cause) == TakeException(x, n)
  {
    hide TakeException, Chosen, StackOverflow, Attempt;
    match cause
    case Arrival(irqs) =>
      var s1 := s.(pending := s.pending + irqs);
      n := Chosen(s1);
      x := Acknowledged(s1, n);
      x, n := EntryTakes(x, n);
      assert SameContext(x, s);
    case Fault(code) =>
      x, n := EntryTakes(Faulted(s, code), HARD_FAULT);
  }

  lemma EntryTakes(s: State, n: nat) returns (x: State, m: nat)
    requires n < 512 && (s.active == HARD_FAULT ==> FrameAccepted(s, n))
    ensures m < 512 && SameContext(x, s) && EnterException(s, n) == TakeException(x, m)
  {
    hide TakeException, FrameAccepted, EnterException;
    EntryOutcomes(s, n);
    if FrameAccepted(s, n) {
      x, m := Attempt(s), n;
    } else {
      x, m := Attempt(Faulted(Attempt(s), FAULT_STACK_OVERFLOW)), HARD_FAULT;
    }
  }

  /** Entry stacks the context below SP and touches nothing else in memory. */
  lemma EntryStacks(x: State, n: nat)
    requires n < 512 && SoundMap(x.cfg) && FrameFits(x, {})
    ensures var e := TakeException(x, n);
      && e.cfg == x.cfg
      && e.regs[SP] == x.regs[SP] - 32
      && e.regs[4..12] == x.regs[4..12]
      && Holds(x.cfg, e.mem, e.regs[SP], FrameWords(x))
      && SameOutside(x.mem, e.mem, Off(x.cfg, x.regs[SP]) - 32, Off(x.cfg, x.regs[SP]))
  {
    hide WriteWords, Read, FrameWords, Holds, SameOutside, Minus, WithException, HalfwordAligned, RegisterWrites;
    MinusFits(x.regs[SP], 32);
    WriteWordsHolds(x.cfg, x.mem, x.dev, x.regs[SP] - 32, FrameWords(x));
    var e := TakeException(x, n);
    assert e.regs[4..12] == x.regs[4..12];
  }

  /** Return from a frame that still holds the stacked words restores the context. */
  lemma ExitRestores(s: State, g: State)
    requires SoundMap(g.cfg) && g.cfg == s.cfg && Coherent(s) && FrameFits(s, {})
    requires g.regs[SP] == s.regs[SP] - 32 && g.regs[4..12] == s.regs[4..12]
    requires Holds(g.cfg, g.mem, g.regs[SP], FrameWords(s))
    ensures var r := ExitException(g);
      r.cfg == s.cfg && r.regs == s.regs && r.xpsr == s.xpsr && r.it == s.it && r.active == s.active && r.mem == g.mem
  {
    hide Read, Holds, Plus, FrameWords;
    var ws := FrameWords(s);
    forall k | 0 <= k < 8
      ensures FrameAt(g)[k] == ws[k]
    {
      ReadHeldWord(g.cfg, g.mem, g.dev, g.regs[SP], ws, k);
    }
    assert FrameAt(g) == ws;
    PlusFits(g.regs[SP], 32);
    ReadFrameRestores(s, g);
  }

  /** Return restores the context whose words it reads. */
  lemma ReadFrameRestores(s: State, g: State)
    requires Coherent(s) && FrameAt(g) == FrameWords(s)
    requires Plus(g.regs[SP], 32) == s.regs[SP] && g.regs[4..12] == s.regs[4..12]
    ensures var r := ExitException(g);
      r.regs == s.regs && r.xpsr == s.xpsr && r.it == s.it && r.active == s.active && r.cfg == g.cfg && r.mem == g.mem
  {
    hide FrameAt, Plus, PackXpsr, WithoutIt, UnpackIt;
    PackingIsLossless(s.xpsr, s.it);
    UnstackedContext(s.regs, g.regs, FrameWords(s));
  }

  lemma UnstackedContext(regs: Regs, g: Regs, ws: seq<word>)
    requires |ws| == 8 && g[4..12] == regs[4..12] && Plus(g[SP], 32) == regs[SP]
    requires ws[..7] == [regs[0], regs[1], regs[2], regs[3], regs[12], regs[LR], regs[PC]]
    ensures Unstacked(g, ws) == regs
  {
    hide Plus;
    forall k | 0 <= k < 16
      ensures Unstacked(g, ws)[k] == regs[k]
    {
      if 4 <= k < 12 {
        assert g[k] == g[4..12][k - 4];
      }
    }
  }

  /** The return instruction sees the same registers and the same stack in both states. */
  lemma ReturningIsLocal(s: State, t: State, ret: Return)
    requires SameView(s, t, {}) && SoundMap(s.cfg)
    requires ret.PopPc? ==> InSram(s.cfg, s.regs[SP], 4 * BlockSize(ret.list, true))
    ensures var (g, target) := Returning(s, ret);
      var (h, target') := Returning(t, ret);
      && target == target' && g.regs == h.regs
      && g == s.(regs := g.regs) && h == t.(regs := h.regs)
  {
    hide LoadLoop, Read, Rank, HalfwordAligned;
    if ret.PopPc? {
      LoadsAgree(s, t, ret.list);
    }
  }

  /** A return instruction only ever moves SP up. */
  lemma ReturningRaisesSp(f: State, ret: Return)
    requires SoundMap(f.cfg) && (ret.PopPc? ==> InSram(f.cfg, f.regs[SP], 4 * BlockSize(ret.list, true)))
    ensures f.regs[SP] <= Returning(f, ret).0.regs[SP]
  {
    hide LoadLoop, Read, Rank, HalfwordAligned, Plus;
    if ret.PopPc? {
      RankZero(ret.list);
      PlusFits(f.regs[SP], 0);
      LoadLoopReads(f.cfg, f.mem, f.dev, f.regs, ret.list, f.regs[SP], 0, 8);
      PlusFits(f.regs[SP], 4 * Rank(ret.list, 8));
      PlusFits(f.regs[SP] + 4 * Rank(ret.list, 8), 4);
    }
  }

  lemma LoadsAgree(s: State, t: State, list: RegList)
    requires SameView(s, t, {}) && SoundMap(s.cfg)
    requires InSram(s.cfg, s.regs[SP], 4 * BlockSize(list, true))
    ensures var a := LoadLoop(s.cfg, s.mem, s.dev, s.regs, list, s.regs[SP], 0, 8);
      var b := LoadLoop(t.cfg, t.mem, t.dev, t.regs, list, t.regs[SP], 0, 8);
      a == b && Read(s.cfg, s.mem, s.dev, a.1, 4) == Read(t.cfg, t.mem, t.dev, b.1, 4)
  {
    hide LoadLoop, Read, Rank, Plus, SameView;
    var sp := s.regs[SP];
    assert s.cfg == t.cfg && s.regs == t.regs by { SameViewFields(s, t); }
    RankZero(list);
    PlusFits(sp, 0);
    LoadLoopReads(s.cfg, s.mem, s.dev, s.regs, list, sp, 0, 8);
    LoadLoopReads(t.cfg, t.mem, t.dev, t.regs, list, sp, 0, 8);
    forall j | 0 <= j <= 8
      ensures Read(s.cfg, s.mem, s.dev, Plus(sp, 4 * Rank(list, j)), 4)
          == Read(t.cfg, t.mem, t.dev, Plus(sp, 4 * Rank(list, j)), 4)
    {
      RankBounds(list, j, 8);
      PlusFits(sp, 4 * Rank(list, j));
      StackReadsAgree(s, t, sp + 4 * Rank(list, j));
    }
    var a := LoadLoop(s.cfg, s.mem, s.dev, s.regs, list, sp, 0, 8);
    var b := LoadLoop(t.cfg, t.mem, t.dev, t.regs, list, sp, 0, 8);
    assert a.0 == b.0;
  }

  lemma SameViewFields(s: State, t: State)
    requires SameView(s, t, {})
    ensures s.cfg == t.cfg && s.regs == t.regs
  {
  }

  lemma StackReadsAgree(s: State, t: State, a: word)
    requires SameView(s, t, {}) && SoundMap(s.cfg) && s.regs[SP] <= a && InSram(s.cfg, a, 4)
    ensures Read(s.cfg, s.mem, s.dev, a, 4) == Read(t.cfg, t.mem, t.dev, a, 4)
  {
    hide Read;
    SramAccess(s.cfg, s.mem, s.dev, a, 4, 0);
    SramAccess(t.cfg, t.mem, t.dev, a, 4, 0);
    var o := Off(s.cfg, a);
    assert s.mem[o..o + 4] == t.mem[o..o + 4];
  }

  /** One activation: entered from `s`, its code ending in a state `r` that looks like a
      state `f` that keeps the contract, it leaves the view of `s` behind. */
  lemma ActivationRestoresView(s: State, cause: Cause, r: State, f: State, ret: Return, keep: Private)
    requires SoundMap(s.cfg) && Coherent(s) && FrameFits(s, keep) && Taken(s, cause)
    requires var e := Enter(s, cause);
      SameView(r, f, keep) && KeepsContract(e, f, ret, keep)
    ensures SameView(ExitException(Returning(r, ret).0), s, keep)
  {
    hide TakeException, Returning, ExitException, Holds, FrameWords, Taken, Coherent;
    var e := Enter(s, cause);
    var x, n := EnterTakes(s, cause);
    EntryStacks(x, n);
    assert FrameWords(x) == FrameWords(s) by { SameFrame(x, s); }
    assert SameView(f, r, {});
    ReturningIsLocal(f, r, ret);
    var g := Returning(r, ret).0;
    ReturningRaisesSp(f, ret);
    FrameSurvives(s, e, f, r, keep);
    assert g.mem == r.mem && g.cfg == s.cfg;
    ExitRestores(s, g);
  }

  lemma SameFrame(x: State, s: State)
    requires SameContext(x, s)
    ensures FrameWords(x) == FrameWords(s)
  {
  }

  /** The frame, the flash and the stack above it are still there when the handler returns. */
  lemma FrameSurvives(s: State, e: State, f: State, r: State, keep: Private)
    requires FrameFits(s, keep) && e.cfg == s.cfg == f.cfg && e.regs[SP] == s.regs[SP] - 32
    requires Holds(s.cfg, e.mem, e.regs[SP], FrameWords(s))
    requires SameOutside(s.mem, e.mem, Off(s.cfg, s.regs[SP]) - 32, Off(s.cfg, s.regs[SP]))
    requires SameRelied(e.cfg, e.mem, f.mem, e.regs[SP], keep)
    requires SameView(r, f, keep) && f.regs[SP] <= e.regs[SP]
    ensures Holds(s.cfg, r.mem, e.regs[SP], FrameWords(s))
    ensures SameRelied(s.cfg, r.mem, s.mem, s.regs[SP], keep)
  {
    hide FrameWords, Holds;
    HoldsIfSame(s.cfg, e.mem, r.mem, e.regs[SP], FrameWords(s));
  }

  // ---------------------------------------------------------------- the theorem

  lemma SameViewIsTransitive(s: State, t: State, u: State, keep: Private)
    requires SameView(s, t, keep) && SameView(t, u, keep)
    ensures SameView(s, u, keep)
  {
  }

  /** Whatever handlers run in between, to whatever depth, the run ends in a state that the
      code cannot tell from the one its own operations lead to alone. */
  lemma {:induction false} PreemptionIsTransparent(p: Program, s: State, t: State, keep: Private)
    requires SameView(s, t, keep) && Disciplined(p, s, keep)
    ensures SameView(Exec(p, s), Solo(p, t), keep)
    decreases p
  {
    hide SameView, Enter, Returning, ExitException, KeepsContract, Taken, Coherent, FrameFits;
    match p
    case Done =>
    case Do(op, rest) =>
      PreemptionIsTransparent(rest, op(s), op(t), keep);
    case Preempt(cause, handler, own, ret, rest) =>
      var e := Enter(s, cause);
      SameViewIsReflexive(e, keep + own);
      PreemptionIsTransparent(handler, e, e, keep + own);
      var r, f := Exec(handler, e), Solo(handler, e);
      SameViewShrinks(r, f, keep + own, keep);
      ActivationRestoresView(s, cause, r, f, ret, keep);
      var s' := ExitException(Returning(r, ret).0);
      SameViewIsTransitive(s', s, t, keep);
      PreemptionIsTransparent(rest, s', t, keep);
  }

  lemma SameViewIsReflexive(s: State, keep: Private)
    ensures SameView(s, s, keep)
  {
  }

  lemma SameViewShrinks(s: State, t: State, keep: Private, less: Private)
    requires SameView(s, t, keep) && less <= keep
    ensures SameView(s, t, less)
  {
  }

  /** Interrupted between two instructions, the code resumes with all sixteen registers,
      SP among them, xPSR, the IT state and the active exception exactly as before, and with
      every byte it relies on. */
  lemma ResumesExactly(s: State, cause: Cause, handler: Program, own: Private, ret: Return, keep: Private)
    requires Disciplined(Preempt(cause, handler, own, ret, Done), s, keep)
    ensures var s' := Exec(Preempt(cause, handler, own, ret, Done), s);
      && s'.regs == s.regs && s'.xpsr == s.xpsr && s'.it == s.it && s'.active == s.active
      && SameRelied(s.cfg, s'.mem, s.mem, s.regs[SP], keep)
  {
    hide Disciplined, Exec;
    SameViewIsReflexive(s, keep);
    PreemptionIsTransparent(Preempt(cause, handler, own, ret, Done), s, s, keep);
    SoloOfPreempt(cause, handler, own, ret, s);
  }

  lemma SoloOfPreempt(cause: Cause, handler: Program, own: Private, ret: Return, s: State)
    ensures Solo(Preempt(cause, handler, own, ret, Done), s) == s
  {
  }
}
