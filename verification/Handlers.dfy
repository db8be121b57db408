/** Handlers that meet the contract of `Transparency`: leaf code returning by BX LR, and
    code that saves registers with PUSH {.., LR} and returns by POP {.., PC}. */
module Handlers {
  import opened Words
  import opened Memory
  import opened MemoryLaws
  import opened Cpu
  import opened Blocks
  import opened Transparency

  /** What the body of a handler does between its prologue and its return: it keeps SP, the
      registers in `saved`, and the memory that interrupted code relies on. */
  ghost predicate KeepsCallerState(a: State, b: State, saved: set<nat>, keep: Private) {
    && b.cfg == a.cfg && b.regs[SP] == a.regs[SP]
    && (forall i :: i in saved && i < 16 ==> b.regs[i] == a.regs[i])
    && SameRelied(a.cfg, a.mem, b.mem, a.regs[SP], keep)
  }

  /** Exception entry leaves an EXC_RETURN value in LR. */
  lemma EntryLinkIsExcReturn(s: State, cause: Cause)
    requires Taken(s, cause)
    ensures IsExcReturn(Enter(s, cause).regs[LR])
  {
    hide Enter, Taken, WriteWords, Read, FrameWords, Minus, WithException, HalfwordAligned;
    var x, n := EnterTakes(s, cause);
  }

  lemma LeafHandlerKeepsContract(e: State, f: State, keep: Private)
    requires IsExcReturn(e.regs[LR])
    requires KeepsCallerState(e, f, {4, 5, 6, 7, 8, 9, 10, 11, LR}, keep)
    ensures KeepsContract(e, f, Bx(LR), keep)
  {
    hide HalfwordAligned, SameRelied;
    forall i | 4 <= i < 12 ensures f.regs[i] == e.regs[i] {
    }
    assert f.regs[LR] == e.regs[LR];
  }

  /** The registers R4-R11 that PUSH does not save. */
  function Unsaved(list: RegList): set<nat> {
    set i: nat | 4 <= i < 12 && !(i in list && i < 8)
  }

  /** Room for PUSH {list, LR}: in SRAM, past the stack guard, and clear of private data. */
  ghost predicate HasRoom(e: State, list: RegList, keep: Private) {
    var n := 4 * BlockSize(list, true);
    && InSram(e.cfg, e.regs[SP] - n, n) && !StackOverflow(e.cfg, e.regs[SP] - n)
    && forall i :: i in keep ==> !(Off(e.cfg, e.regs[SP]) - n <= i < Off(e.cfg, e.regs[SP]))
  }

  /** PUSH {list, LR}, then a body, ending in `b`, that may clobber R0-R3, R12, LR, the flags and every
      listed register, then POP {list, PC}: the handler's code alone meets the contract. */
  lemma PushPopHandlerKeepsContract(e: State, list: RegList, b: State, keep: Private)
    requires SoundMap(e.cfg) && IsExcReturn(e.regs[LR])
    requires HasRoom(e, list, keep)
    requires KeepsCallerState(Push(e, list, true), b, Unsaved(list), keep)
    ensures KeepsContract(e, b, PopPc(list), keep)
  {
    hide Push, PopLoads, Rank, StackOverflow, SoundMap;
    PushEffect(e, list, keep);
    PushPopRoundTrip(e, list, true, b);
    var u := PopLoads(b, list, true).0;
    forall i | 4 <= i < 12 ensures u.regs[i] == e.regs[i] {
      if !(i in list && i < 8) {
        assert i in Unsaved(list);
      }
    }
    assert u.regs[4..12] == e.regs[4..12];
  }

  /** PUSH seen from the code above it. */
  lemma PushEffect(e: State, list: RegList, keep: Private)
    requires SoundMap(e.cfg)
    requires HasRoom(e, list, keep)
    ensures var a := Push(e, list, true);
      && a.cfg == e.cfg && a.regs == e.regs[SP := e.regs[SP] - 4 * BlockSize(list, true)]
      && SameRelied(e.cfg, e.mem, a.mem, e.regs[SP], keep)
  {
    hide PushStores, PushedWords, Rank, InOrder, Holds, StackOverflow, HardFault, SoundMap;
    PushStoresBlock(e, list, true);
    PushFlags(e, list, true);
  }

  /** PUSH inside SRAM does the same on states that look alike. */
  lemma PushAgrees(s: State, t: State, list: RegList, pushLR: bool, keep: Private)
    requires SoundMap(s.cfg) && SameView(s, t, keep)
    requires InSram(s.cfg, s.regs[SP] - 4 * BlockSize(list, pushLR), 4 * BlockSize(list, pushLR))
    requires !StackOverflow(s.cfg, s.regs[SP] - 4 * BlockSize(list, pushLR))
    ensures SameView(Push(s, list, pushLR), Push(t, list, pushLR), keep)
  {
    hide PushStores, PushedWords, BlockSize, InOrder, Holds, StackOverflow, HardFault, SoundMap;
    PushStoresBlock(s, list, pushLR);
    PushStoresBlock(t, list, pushLR);
    PushFlags(s, list, pushLR);
    PushFlags(t, list, pushLR);
    var a, b := PushStores(s, list, pushLR), PushStores(t, list, pushLR);
    BlocksAgree(s.cfg, a.mem, b.mem, a.regs[SP], PushedWords(s.regs, list, pushLR));
  }

  lemma PushFlags(s: State, list: RegList, pushLR: bool)
    ensures var a := PushStores(s, list, pushLR);
      a.cfg == s.cfg && a.xpsr == s.xpsr && a.it == s.it && a.active == s.active
  {
    hide StoreLoop, Write, BlockSize, Minus;
  }

  lemma BlocksAgree(cfg: Config, mem: Mem, mem': Mem, a: int, ws: seq<word>)
    requires Holds(cfg, mem, a, ws) && Holds(cfg, mem', a, ws)
    ensures SameBytes(mem, mem', Off(cfg, a), Off(cfg, a) + 4 * |ws|)
  {
    hide WordsBytes;
    var o, n := Off(cfg, a), 4 * |ws|;
    forall i | 0 <= i < MEM_SIZE && o <= i < o + n ensures mem'[i] == mem[i] {
      assert mem'[i] == mem'[o..o + n][i - o];
      assert mem[i] == mem[o..o + n][i - o];
    }
  }

  // ---------------------------------------------------------------- end to end

  /** The interrupted code resumes as it was. */
  ghost predicate Resumed(s: State, s': State, keep: Private) {
    && s'.regs == s.regs && s'.xpsr == s.xpsr && s'.it == s.it && s'.active == s.active
    && SameRelied(s.cfg, s'.mem, s.mem, s.regs[SP], keep)
  }

  /** A leaf handler entered by any interrupt or fault and left by BX LR, itself preempted
      wherever its program says: conditions on its own code alone, and the interrupted code
      resumes as it was. */
  lemma LeafHandlerIsTransparent(s: State, cause: Cause, handler: Program, own: Private, keep: Private)
    requires SoundMap(s.cfg) && Coherent(s) && FrameFits(s, keep) && Taken(s, cause)
    requires Disciplined(handler, Enter(s, cause), keep + own)
    requires KeepsCallerState(Enter(s, cause), Solo(handler, Enter(s, cause)), {4, 5, 6, 7, 8, 9, 10, 11, LR}, keep)
    ensures Resumed(s, Exec(Preempt(cause, handler, own, Bx(LR), Done), s), keep)
  {
    hide SoundMap, Coherent, FrameFits, Taken, Enter, KeepsCallerState, KeepsContract, LocalAt, SameRelied, IsExcReturn;
    var e := Enter(s, cause);
    EntryLinkIsExcReturn(s, cause);
    LeafHandlerKeepsContract(e, Solo(handler, e), keep);
    assert Disciplined(Preempt(cause, handler, own, Bx(LR), Done), s, keep);
    ResumesExactly(s, cause, handler, own, Bx(LR), keep);
  }

  /** The same for a handler that saves registers with PUSH {list, LR} and leaves by
      POP {list, PC}. Its own code, preemptions left out, may change every register it saved,
      R0-R3, R12, LR and the flags. */
  lemma PushPopHandlerIsTransparent(s: State, cause: Cause, list: RegList, handler: Program,
      own: Private, keep: Private)
    requires SoundMap(s.cfg) && Coherent(s) && FrameFits(s, keep) && Taken(s, cause)
    requires HasRoom(Enter(s, cause), list, keep)
    requires Disciplined(handler, Enter(s, cause), keep + own)
    requires KeepsCallerState(Push(Enter(s, cause), list, true), Solo(handler, Enter(s, cause)), Unsaved(list), keep)
    ensures Resumed(s, Exec(Preempt(cause, handler, own, PopPc(list), Done), s), keep)
  {
    hide SoundMap, Coherent, FrameFits, Taken, Enter, KeepsCallerState, KeepsContract, LocalAt, SameRelied, IsExcReturn;
    hide Push, Unsaved, HasRoom;
    var e := Enter(s, cause);
    EntryLinkIsExcReturn(s, cause);
    EntryKeepsMap(s, cause);
    PushPopHandlerKeepsContract(e, list, Solo(handler, e), keep);
    assert Disciplined(Preempt(cause, handler, own, PopPc(list), Done), s, keep);
    ResumesExactly(s, cause, handler, own, PopPc(list), keep);
  }

  function PushLink(list: RegList): Operation {
    s => Push(s, list, true)
  }

  /** PUSH {list, LR} and then any disciplined body is a disciplined handler, and its own code
      is the body's after the PUSH. */
  lemma PushThenBody(e: State, list: RegList, body: Program, keep: Private)
    requires SoundMap(e.cfg)
    requires HasRoom(e, list, keep)
    requires Disciplined(body, Push(e, list, true), keep)
    ensures Disciplined(Do(PushLink(list), body), e, keep)
    ensures Solo(Do(PushLink(list), body), e) == Solo(body, Push(e, list, true))
  {
    hide Push, BlockSize, StackOverflow, SoundMap, LocalAt;
    PushLinkIsLocal(e, list, keep);
    assert PushLink(list)(e) == Push(e, list, true);
  }

  lemma EntryKeepsMap(s: State, cause: Cause)
    requires Taken(s, cause)
    ensures Enter(s, cause).cfg == s.cfg
  {
    hide Enter, Taken, WriteWords, Read, FrameWords, Minus, WithException, HalfwordAligned;
    var x, n := EnterTakes(s, cause);
  }

  lemma PushLinkIsLocal(e: State, list: RegList, keep: Private)
    requires SoundMap(e.cfg)
    requires HasRoom(e, list, keep)
    ensures LocalAt(PushLink(list), e, keep)
  {
    hide Push, BlockSize, StackOverflow, SoundMap, SameView;
    var f := PushLink(list);
    forall t | SameView(e, t, keep)
      ensures SameView(f(e), f(t), keep)
    {
      PushAgrees(e, t, list, true, keep);
    }
  }
}
