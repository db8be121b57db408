/** Where execution goes: exception entry, reset and the instructions that load PC. Every one
    of them drops the Thumb bit of the word it takes, and values from 0xFFFFFFF0 up taken by
    a load or BX return from the exception instead. */
module Branches {
  import opened Words
  import opened Memory
  import opened MemoryLaws
  import opened Cpu
  import opened Blocks
  import Coherence
  import Transparency

  /** `pc` is the halfword at or just below `v`. */
  predicate Names(v: word, pc: word) {
    pc % 2 == 0 && v - 1 <= pc <= v
  }

  lemma AlignedNames(v: word)
    ensures Names(v, HalfwordAligned(v))
  {
    DivMod(v, 2);
    AddMultiple(2, v / 2, 0);
  }

  // ---------------------------------------------------------------- reset

  /** Reset: SP and PC come from the first two words of flash, the core is a Thumb thread
      with nothing running, asked for, enabled, masked or stopped, all priorities are 0, and
      memory and configuration stay. */
  lemma ResetStartsProgram(s: State, dev: Device)
    requires s.cfg.flashBase + 4 < 0x1_0000_0000
    ensures var r := Coherence.ResetState(s, dev);
      && Names(Read(s.cfg, s.mem, dev, s.cfg.flashBase + 4, 4), r.regs[15])
      && r.regs[13] == Read(s.cfg, s.mem, dev, s.cfg.flashBase, 4)
      && (forall i :: 0 <= i < 16 && i != 13 && i != 15 ==> r.regs[i] == 0)
      && r.xpsr == 0x100_0000 && r.it == 0 && r.active == 0 && r.primask == 0
      && !r.sleeping && !r.halted && !r.lockup
      && r.pending == {} && r.enabled == {}
      && (forall irq: nat :: irq < 32 ==> IrqPriority(r, irq) == 0)
      && (forall n: nat :: 0 < n < 16 ==> SysPriority(r, n) == 0)
      && r.mem == s.mem && r.cfg == s.cfg && r.core == s.core && r.dev == dev
      && r.faultCode == 0 && r.shadow.GetPc(0) == 0 && r.shadow.count == 0
      && r.entries == s.entries && r.exits == s.exits && r.faults == s.faults
  {
    hide Read, HalfwordAligned;
    PlusFits(s.cfg.flashBase, 4);
    AlignedNames(Read(s.cfg, s.mem, dev, s.cfg.flashBase + 4, 4));
  }

  // ---------------------------------------------------------------- loads of PC

  /** What an instruction that takes `v` for PC leaves, `t` being the state it would leave
      but for the branch: PC on the named halfword and nothing else, or an exception return
      from the stack pointer of `t`. */
  ghost predicate Branched(t: State, v: word, u: State) {
    if v < 0xFFFF_FFF0 then u == t.(regs := u.regs) && u.regs == t.regs[15 := u.regs[15]] && Names(v, u.regs[15])
    else exists r: Regs :: r == t.regs[15 := r[15]] && u == ExitException(t.(regs := r))
  }

  /** POP with PC: the word above the popped registers is taken. */
  lemma PopBranches(s: State, list: RegList)
    ensures var a := Plus(s.regs[13], 4 * Rank(list, 8));
      var t := PopLoads(s, list, true).0;
      && t.regs[13] == Plus(a, 4) && t == s.(regs := t.regs)
      && (forall j :: 0 <= j < 16 && j !in list && j != 13 ==> t.regs[j] == s.regs[j])
      && Branched(t, Read(s.cfg, s.mem, s.dev, a, 4), Pop(s, list, true))
  {
    hide Read, LoadLoop, Plus, Rank, HalfwordAligned, ExitException;
    RankZero(list);
    PlusFits(s.regs[13], 0);
    LoadLoopReads(s.cfg, s.mem, s.dev, s.regs, list, s.regs[13], 0, 8);
    var (t, v) := PopLoads(s, list, true);
    AlignedNames(v);
    assert v >= 0xFFFF_FFF0 ==> t.regs == t.regs[15 := t.regs[15]];
  }

  /** POP without PC does not branch. */
  lemma PopStays(s: State, list: RegList)
    requires PC !in list
    ensures var t := Pop(s, list, false);
      t == s.(regs := t.regs) && t.regs[15] == s.regs[15] && t.regs[13] == Plus(s.regs[13], 4 * Rank(list, 8))
  {
    hide Read, LoadLoop, Plus, Rank;
    RankZero(list);
    PlusFits(s.regs[13], 0);
    LoadLoopReads(s.cfg, s.mem, s.dev, s.regs, list, s.regs[13], 0, 8);
  }

  /** The registers a block load leaves, from the word of rank 0 at `low`: listed ones by
      rank; a base that is not listed moves to `base` when written back and stays otherwise. */
  ghost predicate Loaded(s: State, rn: nat, w: bool, list: RegList, low: word, base: word, t: State)
    requires rn < 16
  {
    && t == s.(regs := t.regs)
    && forall j :: 0 <= j < 16 ==>
         t.regs[j] == if j in list then Read(s.cfg, s.mem, s.dev, Plus(low, 4 * Rank(list, j)), 4)
                      else if j == rn && w then base else s.regs[j]
  }

  /** LDMIA, with or without write-back, its base listed or not, PC listed or not. */
  lemma LdmiaBranches(s: State, rn: nat, w: bool, list: RegList)
    requires rn < 16
    ensures var low := s.regs[rn];
      var t := LdmiaLoads(s, rn, w, list);
      && Loaded(s, rn, w, list, low, Plus(low, 4 * Rank(list, 16)), t)
      && (15 !in list ==> Ldmia(s, rn, w, list) == t)
      && (15 in list ==>
            Branched(t, Read(s.cfg, s.mem, s.dev, Plus(low, 4 * Rank(list, 15)), 4), Ldmia(s, rn, w, list)))
  {
    hide Read, LoadLoop, Plus, Rank, HalfwordAligned, ExitException;
    RankZero(list);
    PlusFits(s.regs[rn], 0);
    LoadLoopReads(s.cfg, s.mem, s.dev, s.regs, list, s.regs[rn], 0, 16);
    var t := LdmiaLoads(s, rn, w, list);
    AlignedNames(t.regs[15]);
    assert t.regs == t.regs[15 := t.regs[15]];
  }

  /** LDMDB: the block lies below the base, and the base is lowered to its start. */
  lemma LdmdbBranches(s: State, rn: nat, w: bool, list: RegList)
    requires rn < 16
    ensures var low := Minus(s.regs[rn], 4 * Rank(list, 16));
      var t := LdmdbLoads(s, rn, w, list);
      && Loaded(s, rn, w, list, low, low, t)
      && (15 !in list ==> Ldmdb(s, rn, w, list) == t)
      && (15 in list ==>
            Branched(t, Read(s.cfg, s.mem, s.dev, Plus(low, 4 * Rank(list, 15)), 4), Ldmdb(s, rn, w, list)))
  {
    hide Read, LoadLoop, Plus, Minus, Rank, HalfwordAligned, ExitException;
    var low := Minus(s.regs[rn], 4 * Rank(list, 16));
    var regs := if w then s.regs[rn := low] else s.regs;
    RankZero(list);
    PlusFits(low, 0);
    LoadLoopReads(s.cfg, s.mem, s.dev, regs, list, low, 0, 16);
    var t := LdmdbLoads(s, rn, w, list);
    AlignedNames(t.regs[15]);
    assert t.regs == t.regs[15 := t.regs[15]];
  }

  /** STM, either way: only the base register changes, and only with write-back. */
  lemma StoresMoveBase(s: State, rn: nat, w: bool, list: RegList)
    requires rn < 16
    ensures var up, down := Stmia(s, rn, w, list, 16), Stmdb(s, rn, w, list);
      && up == s.(mem := up.mem, regs := up.regs) && down == s.(mem := down.mem, regs := down.regs)
      && (forall j :: 0 <= j < 16 ==>
            && up.regs[j] == (if j == rn && w then Plus(s.regs[rn], 4 * Rank(list, 16)) else s.regs[j])
            && down.regs[j] == (if j == rn && w then Minus(s.regs[rn], 4 * Rank(list, 16)) else s.regs[j]))
  {
    hide StoreLoop, WriteWords, Plus, Minus, Rank, Picked;
    StoreLoopWrites(s.cfg, s.mem, s.dev, s.regs, list, s.regs[rn], 0, 16);
    PickedInOrder(s.regs, list, 16);
  }

  // ---------------------------------------------------------------- BX

  /** `BX rm`; the word read from PC itself is two bytes further. */
  function Bx(s: State, rm: nat): State
    requires rm < 16
  {
    var (t, target) := Transparency.Returning(s, Transparency.Bx(rm));
    if IsExcReturn(target) then ExitException(t) else t
  }

  lemma BxBranches(s: State, rm: nat)
    requires rm < 16
    ensures Branched(s, if rm == 15 then Plus(s.regs[15], 2) else s.regs[rm], Bx(s, rm))
  {
    hide HalfwordAligned, ExitException, Plus;
    var v := Transparency.Returning(s, Transparency.Bx(rm)).1;
    AlignedNames(v);
    var r: Regs := s.regs[15 := HalfwordAligned(v)];
    assert r == s.regs[15 := r[15]];
  }
}
