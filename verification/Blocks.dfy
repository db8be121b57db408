/** Block transfers: PUSH, POP, STMDB and LDMIA (`src/cpu_thumb16.c`, `src/cpu_thumb32.c`). */
module Blocks {
  import opened Words
  import opened Memory
  import opened MemoryLaws
  import ShadowStack
  import opened Cpu

  /** A register-list mask, as the set of its one bits. */
  type RegList = l: set<nat> | forall i :: i in l ==> i < 16 witness {}

  /** How many listed registers are numbered below `i`. */
  function Rank(list: RegList, i: nat): nat {
    if i == 0 then 0 else Rank(list, i - 1) + if i - 1 in list then 1 else 0
  }

  /** The listed registers from number `i` up to `n`, in ascending order. */
  function Picked(regs: Regs, list: RegList, i: nat, n: nat): (ws: seq<word>)
    requires i <= n <= 16
    decreases n - i
  {
    if i == n then []
    else (if i in list then [regs[i]] else []) + Picked(regs, list, i + 1, n)
  }

  /** The store loop from register `i` on: the memory and the address it ends with. */
  function StoreLoop(cfg: Config, mem: Mem, dev: Device, regs: Regs, list: RegList, addr: word, i: nat,
      n: nat): (r: (Mem, word))
    requires i <= n <= 16
    decreases n - i
  {
    if i == n then (mem, addr)
    else if i in list then
      StoreLoop(cfg, Write(cfg, mem, dev, addr, 4, regs[i]), dev, regs, list, Plus(addr, 4), i + 1, n)
    else StoreLoop(cfg, mem, dev, regs, list, addr, i + 1, n)
  }

  function LoadLoop(cfg: Config, mem: Mem, dev: Device, regs: Regs, list: RegList, addr: word, i: nat,
      n: nat): (r: (Regs, word))
    requires i <= n <= 16
    decreases n - i
  {
    if i == n then (regs, addr)
    else if i in list then
      LoadLoop(cfg, mem, dev, regs[i := Read(cfg, mem, dev, addr, 4)], list, Plus(addr, 4), i + 1, n)
    else LoadLoop(cfg, mem, dev, regs, list, addr, i + 1, n)
  }

  lemma {:induction false} PickedLength(regs: Regs, list: RegList, i: nat, n: nat)
    requires i <= n <= 16
    ensures |Picked(regs, list, i, n)| == Rank(list, n) - Rank(list, i)
    decreases n - i
  {
    if i == n {
    } else {
      PickedLength(regs, list, i + 1, n);
    }
  }

  lemma {:induction false} RankBounds(list: RegList, i: nat, j: nat)
    requires i <= j
    ensures Rank(list, i) <= Rank(list, j) <= Rank(list, i) + (j - i)
    ensures i < j && i in list ==> Rank(list, i) < Rank(list, j)
    decreases j
  {
    if i == j {
    } else {
      RankBounds(list, i, j - 1);
    }
  }

  /** Register `j` stands at its rank among the picked words. */
  lemma {:induction false} PickedAt(regs: Regs, list: RegList, i: nat, n: nat, j: nat)
    requires i <= j < n <= 16 && j in list
    ensures 0 <= Rank(list, j) - Rank(list, i) < |Picked(regs, list, i, n)|
    ensures Picked(regs, list, i, n)[Rank(list, j) - Rank(list, i)] == regs[j]
    decreases n - i
  {
    PickedLength(regs, list, i, n);
    RankBounds(list, i, j);
    RankBounds(list, j, n);
    if i < j {
      PickedAt(regs, list, i + 1, n, j);
    }
  }

  /** The store loop writes the picked words to ascending addresses. */
  lemma {:induction false} StoreLoopWrites(cfg: Config, mem: Mem, dev: Device, regs: Regs, list: RegList,
      addr: word, i: nat, n: nat)
    requires i <= n <= 16
    ensures var ws := Picked(regs, list, i, n);
      StoreLoop(cfg, mem, dev, regs, list, addr, i, n) == (WriteWords(cfg, mem, dev, addr, ws), Plus(addr, 4 * |ws|))
    decreases n - i
  {
    hide Write, Plus;
    if i == n {
      PlusFits(addr, 0);
    } else if i in list {
      var rest := Picked(regs, list, i + 1, n);
      StoreLoopWrites(cfg, Write(cfg, mem, dev, addr, 4, regs[i]), dev, regs, list, Plus(addr, 4), i + 1, n);
      assert Picked(regs, list, i, n) == [regs[i]] + rest;
      assert Picked(regs, list, i, n)[1..] == rest;
      PlusPlus(addr, 4, 4 * |rest|);
    } else {
      StoreLoopWrites(cfg, mem, dev, regs, list, addr, i + 1, n);
      assert Picked(regs, list, i, n) == Picked(regs, list, i + 1, n);
    }
  }

  /** PUSH updates SP before its stores; SP is not in its list. */
  lemma {:induction false} StoreIgnoresSp(cfg: Config, mem: Mem, dev: Device, regs: Regs, sp: word,
      list: RegList, addr: word, i: nat)
    requires i <= 8
    ensures StoreLoop(cfg, mem, dev, regs[SP := sp], list, addr, i, 8)
        == StoreLoop(cfg, mem, dev, regs, list, addr, i, 8)
    decreases 8 - i
  {
    hide Write, Plus;
    if i == 8 {
    } else if i in list {
      StoreIgnoresSp(cfg, Write(cfg, mem, dev, addr, 4, regs[i]), dev, regs, sp, list, Plus(addr, 4), i + 1);
    } else {
      StoreIgnoresSp(cfg, mem, dev, regs, sp, list, addr, i + 1);
    }
  }

  /** The load loop gives each listed register the word at its rank and leaves the others. */
  lemma {:induction false} LoadLoopReads(cfg: Config, mem: Mem, dev: Device, regs: Regs, list: RegList,
      base: word, i: nat, n: nat)
    requires i <= n <= 16
    ensures var r := LoadLoop(cfg, mem, dev, regs, list, Plus(base, 4 * Rank(list, i)), i, n);
      && r.1 == Plus(base, 4 * Rank(list, n))
      && forall j :: 0 <= j < 16 ==>
           r.0[j] == if i <= j < n && j in list then Read(cfg, mem, dev, Plus(base, 4 * Rank(list, j)), 4) else regs[j]
    decreases n - i
  {
    hide Read, Plus;
    if i == n {
    } else if i in list {
      var a := Plus(base, 4 * Rank(list, i));
      PlusPlus(base, 4 * Rank(list, i), 4);
      LoadLoopReads(cfg, mem, dev, regs[i := Read(cfg, mem, dev, a, 4)], list, base, i + 1, n);
    } else {
      LoadLoopReads(cfg, mem, dev, regs, list, base, i + 1, n);
    }
  }

  // ---------------------------------------------------------------- PUSH and POP

  /** Words moved by PUSH or POP of `list`, with LR or PC when `extra`. */
  function BlockSize(list: RegList, extra: bool): nat {
    Rank(list, 8) + if extra then 1 else 0
  }

  /** The words PUSH stores, lowest address first. */
  function PushedWords(regs: Regs, list: RegList, pushLR: bool): seq<word> {
    Picked(regs, list, 0, 8) + if pushLR then [regs[LR]] else []
  }

  /** PUSH up to its stack check: `regs[15]` is already past the instruction. */
  function PushStores(s: State, list: RegList, pushLR: bool): State
  {
    var sp := Minus(s.regs[SP], 4 * BlockSize(list, pushLR));
    var r := StoreLoop(s.cfg, s.mem, s.dev, s.regs, list, sp, 0, 8);
    s.(regs := s.regs[SP := sp],
       mem := if pushLR then Write(s.cfg, r.0, s.dev, r.1, 4, s.regs[LR]) else r.0,
       shadow := s.shadow.Record(Minus(s.regs[PC], 2), sp))
  }

  function Push(s: State, list: RegList, pushLR: bool): State
  {
    var s' := PushStores(s, list, pushLR);
    if StackOverflow(s.cfg, s'.regs[SP]) then HardFault(s', FAULT_STACK_OVERFLOW) else s'
  }

  predicate IsExcReturn(target: word) {
    target >= 0xFFFF_FFF0
  }

  /** POP up to the branch: the popped registers and SP, and the word meant for PC. */
  function PopLoads(s: State, list: RegList, popPC: bool): (r: (State, word)) {
    var r := LoadLoop(s.cfg, s.mem, s.dev, s.regs, list, s.regs[SP], 0, 8);
    if popPC then
      (s.(regs := r.0[SP := Plus(r.1, 4)]), Read(s.cfg, s.mem, s.dev, r.1, 4))
    else (s.(regs := r.0[SP := r.1]), 0)
  }

  function Pop(s: State, list: RegList, popPC: bool): State {
    var (s', target) := PopLoads(s, list, popPC);
    if !popPC then s'
    else if IsExcReturn(target) then ExitException(s')
    else s'.(regs := s'.regs[PC := HalfwordAligned(target)])
  }

  /** Each listed register below `n` has its value at its rank among `ws`. */
  ghost predicate InOrder(regs: Regs, list: RegList, n: nat, ws: seq<word>)
    requires n <= 16
  {
    forall j :: 0 <= j < n && j in list ==> Rank(list, j) < |ws| && ws[Rank(list, j)] == regs[j]
  }

  /** `regs'` takes the listed registers below `n` from `regs` and all others, `base` apart,
      from `other`. */
  ghost predicate Merged(regs': Regs, regs: Regs, other: Regs, list: RegList, n: nat, base: nat) {
    forall j :: 0 <= j < 16 && j != base ==> regs'[j] == if j in list && j < n then regs[j] else other[j]
  }

  /** What PUSH leaves in memory: the listed registers in ascending order from the new SP
      up, LR last, and every byte outside that block as it was. */
  lemma PushStoresBlock(s: State, list: RegList, pushLR: bool)
    requires SoundMap(s.cfg)
    requires InSram(s.cfg, s.regs[SP] - 4 * BlockSize(list, pushLR), 4 * BlockSize(list, pushLR))
    ensures var s' := PushStores(s, list, pushLR);
      var ws := PushedWords(s.regs, list, pushLR);
      && |ws| == BlockSize(list, pushLR)
      && s'.regs == s.regs[SP := s.regs[SP] - 4 * |ws|]
      && Holds(s.cfg, s'.mem, s'.regs[SP], ws)
      && InOrder(s.regs, list, 8, ws)
      && (pushLR ==> ws[|ws| - 1] == s.regs[LR])
      && SameOutside(s.mem, s'.mem, Off(s.cfg, s'.regs[SP]), Off(s.cfg, s.regs[SP]))
  {
    hide StoreLoop, Write, WriteWords, PushedWords, BlockSize, InOrder, Holds, SameOutside, Minus;
    var n := BlockSize(list, pushLR);
    var sp := Minus(s.regs[SP], 4 * n);
    MinusFits(s.regs[SP], 4 * n);
    PushMemory(s.cfg, s.mem, s.dev, s.regs, list, pushLR, sp);
    PushedInOrder(s.regs, list, pushLR);
    WriteWordsHolds(s.cfg, s.mem, s.dev, sp, PushedWords(s.regs, list, pushLR));
  }

  lemma PushMemory(cfg: Config, mem: Mem, dev: Device, regs: Regs, list: RegList, pushLR: bool, sp: word)
    ensures var r := StoreLoop(cfg, mem, dev, regs, list, sp, 0, 8);
      (if pushLR then Write(cfg, r.0, dev, r.1, 4, regs[LR]) else r.0)
        == WriteWords(cfg, mem, dev, sp, PushedWords(regs, list, pushLR))
  {
    hide Write, StoreLoop, WriteWords, Picked, Plus;
    var picked := Picked(regs, list, 0, 8);
    StoreLoopWrites(cfg, mem, dev, regs, list, sp, 0, 8);
    if pushLR {
      WriteWordsLast(cfg, mem, dev, sp, picked, regs[LR]);
    } else {
      assert picked + [] == picked;
    }
  }

  lemma PushedInOrder(regs: Regs, list: RegList, pushLR: bool)
    ensures var ws := PushedWords(regs, list, pushLR);
      && |ws| == BlockSize(list, pushLR)
      && InOrder(regs, list, 8, ws)
      && (pushLR ==> ws[|ws| - 1] == regs[LR])
  {
    hide Picked, Rank;
    var picked := Picked(regs, list, 0, 8);
    assert Rank(list, 0) == 0 by { RankZero(list); }
    PickedLength(regs, list, 0, 8);
    PickedInOrder(regs, list, 8);
  }

  lemma RankZero(list: RegList)
    ensures Rank(list, 0) == 0
  {
  }

  lemma PickedInOrder(regs: Regs, list: RegList, n: nat)
    requires n <= 16
    ensures |Picked(regs, list, 0, n)| == Rank(list, n)
    ensures InOrder(regs, list, n, Picked(regs, list, 0, n))
  {
    hide Picked, Rank;
    RankZero(list);
    PickedLength(regs, list, 0, n);
    forall j | 0 <= j < n && j in list
      ensures Rank(list, j) < |Picked(regs, list, 0, n)| && Picked(regs, list, 0, n)[Rank(list, j)] == regs[j]
    {
      PickedAt(regs, list, 0, n, j);
    }
  }

  /** PUSH adds one pair to the shadow stack, the address of the instruction and the new SP,
      and faults as a stack overflow when the guard trips. */
  lemma PushIsRecorded(s: State, list: RegList, pushLR: bool)
    ensures var sp := Minus(s.regs[13], 4 * (Rank(list, 8) + if pushLR then 1 else 0));
      var t := Push(s, list, pushLR);
      if StackOverflow(s.cfg, sp) then
        t.faultCode == 3 && t.faults == Plus(s.faults, 1) && (t.active == HARD_FAULT || t.lockup)
      else
        && t.shadow == s.shadow.Record(Minus(s.regs[15], 2), sp)
        && t == s.(regs := s.regs[13 := sp], mem := t.mem, shadow := t.shadow)
  {
    hide StoreLoop, Write, Minus, Plus, Rank, StackOverflow, TakeException, ShadowStack.Shadow.Record;
    var u := PushStores(s, list, pushLR);
    EntryOutcomes(Faulted(u, FAULT_STACK_OVERFLOW), HARD_FAULT);
    TakenIsActive(Attempt(Faulted(u, FAULT_STACK_OVERFLOW)));
  }

  lemma TakenIsActive(s: State)
    ensures var e := TakeException(s, HARD_FAULT);
      e.active == HARD_FAULT && e.faults == s.faults && e.faultCode == s.faultCode && e.lockup == s.lockup
  {
    hide WriteWords, Read, FrameWords, Minus, WithException, HalfwordAligned, RegisterWrites;
  }

  /** POP of the words it finds: listed registers by rank, SP past the block. */
  lemma PopLoadsBlock(s: State, list: RegList, popPC: bool, ws: seq<word>)
    requires SoundMap(s.cfg) && Holds(s.cfg, s.mem, s.regs[SP], ws) && |ws| == BlockSize(list, popPC)
    ensures var (s', target) := PopLoads(s, list, popPC);
      && s' == s.(regs := s'.regs)
      && s'.regs[SP] == s.regs[SP] + 4 * |ws|
      && (forall regs: Regs :: InOrder(regs, list, 8, ws) ==> Merged(s'.regs, regs, s.regs, list, 8, SP))
      && (popPC ==> target == ws[|ws| - 1])
  {
    hide Read, Holds, LoadLoop, Plus, Rank, InOrder, Merged;
    var sp := s.regs[SP];
    RankZero(list);
    HoldsInSram(s.cfg, s.mem, sp, ws);
    LoadedBlock(s.cfg, s.mem, s.dev, s.regs, list, sp, 8, ws, if popPC then 1 else 0);
    PlusFits(sp, 4 * Rank(list, 8));
    PlusPlus(sp, 4 * Rank(list, 8), 4);
    PlusFits(sp, 4 * |ws|);
    if popPC {
      ReadHeldWord(s.cfg, s.mem, s.dev, sp, ws, |ws| - 1);
    }
    var r := LoadLoop(s.cfg, s.mem, s.dev, s.regs, list, sp, 0, 8).0;
    var regs' := PopLoads(s, list, popPC).0.regs;
    forall regs: Regs | InOrder(regs, list, 8, ws)
      ensures Merged(regs', regs, s.regs, list, 8, SP)
    {
      MergedApart(r, regs', regs, s.regs, list, 8, SP);
    }
  }

  /** Changing the excepted register keeps a merge. */
  lemma MergedApart(r: Regs, r': Regs, regs: Regs, other: Regs, list: RegList, n: nat, base: nat)
    requires base < 16 && Merged(r, regs, other, list, n, base) && r' == r[base := r'[base]]
    ensures Merged(r', regs, other, list, n, base)
  {
  }

  /** The load loop over a block that memory holds: register by rank, whatever the excess. */
  lemma LoadedBlock(cfg: Config, mem: Mem, dev: Device, regs: Regs, list: RegList, base: word, n: nat,
      ws: seq<word>, excess: nat)
    requires n <= 16 && SoundMap(cfg) && Holds(cfg, mem, base, ws) && |ws| == Rank(list, n) + excess
    ensures var r := LoadLoop(cfg, mem, dev, regs, list, base, 0, n);
      && r.1 == Plus(base, 4 * Rank(list, n))
      && forall from: Regs, x: nat :: InOrder(from, list, n, ws) ==> Merged(r.0, from, regs, list, n, x)
  {
    hide Read, Holds, LoadLoop, Plus, Rank, InOrder, Merged;
    RankZero(list);
    PlusFits(base, 0);
    LoadLoopReads(cfg, mem, dev, regs, list, base, 0, n);
    var r := LoadLoop(cfg, mem, dev, regs, list, base, 0, n);
    forall from: Regs, x: nat | InOrder(from, list, n, ws)
      ensures Merged(r.0, from, regs, list, n, x)
    {
      MergeFromBlock(cfg, mem, dev, r.0, from, regs, list, base, n, ws, x);
    }
  }

  lemma MergeFromBlock(cfg: Config, mem: Mem, dev: Device, r: Regs, from: Regs, regs: Regs, list: RegList,
      base: word, n: nat, ws: seq<word>, x: nat)
    requires n <= 16 && SoundMap(cfg) && Holds(cfg, mem, base, ws) && InOrder(from, list, n, ws)
    requires forall j :: 0 <= j < 16 ==>
      r[j] == if 0 <= j < n && j in list then Read(cfg, mem, dev, Plus(base, 4 * Rank(list, j)), 4) else regs[j]
    ensures Merged(r, from, regs, list, n, x)
  {
    hide Read, Holds, Plus, Rank;
    forall j | 0 <= j < n && j in list
      ensures r[j] == from[j]
    {
      ReadHeldWord(cfg, mem, dev, base, ws, Rank(list, j));
    }
  }

  lemma HoldsInSram(cfg: Config, mem: Mem, a: int, ws: seq<word>)
    requires Holds(cfg, mem, a, ws)
    ensures InSram(cfg, a, 4 * |ws|)
  {
  }

  /** One more write at the end of a block of writes. */
  lemma {:induction false} WriteWordsLast(cfg: Config, mem: Mem, dev: Device, addr: word, ws: seq<word>, w: word)
    ensures Write(cfg, WriteWords(cfg, mem, dev, addr, ws), dev, Plus(addr, 4 * |ws|), 4, w)
         == WriteWords(cfg, mem, dev, addr, ws + [w])
    decreases |ws|
  {
    hide Write, Plus;
    if |ws| == 0 {
      PlusFits(addr, 0);
      assert (ws + [w])[1..] == [];
      assert WriteWords(cfg, Write(cfg, mem, dev, addr, 4, w), dev, Plus(addr, 4), [])
          == Write(cfg, mem, dev, addr, 4, w);
    } else {
      WriteWordsLast(cfg, Write(cfg, mem, dev, addr, 4, ws[0]), dev, Plus(addr, 4), ws[1..], w);
      assert (ws + [w])[1..] == ws[1..] + [w];
      PlusPlus(addr, 4, 4 * |ws[1..]|);
    }
  }

  /** PUSH then POP, with anything in between that keeps the block and brings SP back:
      every listed register and SP return to their values at the PUSH, a pushed LR comes
      back as the branch target, and no other register is touched. The block must lie in
      SRAM; a PUSH that trips the guard is a fault, not a PUSH. */
  lemma PushPopRoundTrip(s: State, list: RegList, extra: bool, t: State)
    requires SoundMap(s.cfg)
    requires InSram(s.cfg, s.regs[SP] - 4 * BlockSize(list, extra), 4 * BlockSize(list, extra))
    requires !StackOverflow(s.cfg, s.regs[SP] - 4 * BlockSize(list, extra))
    requires var s' := Push(s, list, extra);
      && t.cfg == s.cfg && t.regs[SP] == s'.regs[SP]
      && SameBytes(s'.mem, t.mem, Off(s.cfg, t.regs[SP]), Off(s.cfg, s.regs[SP]))
    ensures var (u, target) := PopLoads(t, list, extra);
      && u == t.(regs := u.regs)
      && u.regs[SP] == s.regs[SP]
      && Merged(u.regs, s.regs, t.regs, list, 8, SP)
      && (extra ==> target == s.regs[LR])
  {
    hide Holds, PushStores, PopLoads, HardFault;
    assert InSram(s.cfg, s.regs[SP] - 4 * BlockSize(list, extra), 4 * BlockSize(list, extra));
    PushStoresBlock(s, list, extra);
    var ws := PushedWords(s.regs, list, extra);
    var s' := PushStores(s, list, extra);
    assert Push(s, list, extra) == s';
    HoldsIfSame(s.cfg, s'.mem, t.mem, t.regs[SP], ws);
    PopLoadsBlock(t, list, extra, ws);
  }

  // ---------------------------------------------------------------- STMDB and LDMIA

  /** STMDB: with write-back the base is lowered before the stores. */
  function Stmdb(s: State, rn: nat, w: bool, list: RegList): State
    requires rn < 16
  {
    var addr := Minus(s.regs[rn], 4 * Rank(list, 16));
    var regs := if w then s.regs[rn := addr] else s.regs;
    s.(regs := regs, mem := StoreLoop(s.cfg, s.mem, s.dev, regs, list, addr, 0, 16).0)
  }

  /** LDMIA up to the branch that a listed PC makes. */
  function LdmiaLoads(s: State, rn: nat, w: bool, list: RegList): State
    requires rn < 16
  {
    var r := LoadLoop(s.cfg, s.mem, s.dev, s.regs, list, s.regs[rn], 0, 16);
    s.(regs := if w && rn !in list then r.0[rn := r.1] else r.0)
  }

  function Ldmia(s: State, rn: nat, w: bool, list: RegList): State
    requires rn < 16
  {
    var s' := LdmiaLoads(s, rn, w, list);
    if PC !in list then s'
    else if IsExcReturn(s'.regs[PC]) then ExitException(s')
    else s'.(regs := s'.regs[PC := HalfwordAligned(s'.regs[PC])])
  }

  lemma StmdbBlock(s: State, rn: nat, list: RegList)
    requires rn < 16 && rn !in list && SoundMap(s.cfg)
    requires InSram(s.cfg, s.regs[rn] - 4 * Rank(list, 16), 4 * Rank(list, 16))
    ensures var s' := Stmdb(s, rn, true, list);
      var ws := Picked(s.regs, list, 0, 16);
      && |ws| == Rank(list, 16)
      && s'.regs == s.regs[rn := s.regs[rn] - 4 * |ws|]
      && Holds(s.cfg, s'.mem, s'.regs[rn], ws)
      && InOrder(s.regs, list, 16, ws)
      && SameOutside(s.mem, s'.mem, Off(s.cfg, s'.regs[rn]), Off(s.cfg, s.regs[rn]))
  {
    hide StoreLoop, Write, WriteWords, Picked, Rank, InOrder, Holds, SameOutside, Minus, Plus;
    var n := Rank(list, 16);
    var addr := Minus(s.regs[rn], 4 * n);
    MinusFits(s.regs[rn], 4 * n);
    PickedElsewhere(s.regs, s.regs[rn := addr], list, rn, 0, 16);
    PickedInOrder(s.regs, list, 16);
    StoreLoopWrites(s.cfg, s.mem, s.dev, s.regs[rn := addr], list, addr, 0, 16);
    WriteWordsHolds(s.cfg, s.mem, s.dev, addr, Picked(s.regs, list, 0, 16));
  }

  /** A register outside the list does not matter to what is picked. */
  lemma {:induction false} PickedElsewhere(regs: Regs, regs': Regs, list: RegList, rn: nat, i: nat, n: nat)
    requires i <= n <= 16 && rn !in list && rn < 16 && regs' == regs[rn := regs'[rn]]
    ensures Picked(regs', list, i, n) == Picked(regs, list, i, n)
    decreases n - i
  {
    if i == n {
    } else {
      PickedElsewhere(regs, regs', list, rn, i + 1, n);
    }
  }

  /** STMDB rn! then LDMIA rn!, with anything in between that keeps the block and the base:
      every listed register and the base return to their values, nothing else is touched. */
  lemma StmdbLdmiaRoundTrip(s: State, rn: nat, list: RegList, t: State)
    requires rn < 16 && rn !in list && PC !in list && SoundMap(s.cfg)
    requires InSram(s.cfg, s.regs[rn] - 4 * Rank(list, 16), 4 * Rank(list, 16))
    requires var s' := Stmdb(s, rn, true, list);
      && t.cfg == s.cfg && t.regs[rn] == s'.regs[rn]
      && SameBytes(s'.mem, t.mem, Off(s.cfg, t.regs[rn]), Off(s.cfg, s.regs[rn]))
    ensures var u := Ldmia(t, rn, true, list);
      && u == t.(regs := u.regs)
      && u.regs[rn] == s.regs[rn]
      && Merged(u.regs, s.regs, t.regs, list, 16, rn)
  {
    hide Holds, Stmdb, LoadLoop, Rank, Picked, Plus, InOrder, Merged, SameBytes, SameOutside;
    StmdbBlock(s, rn, list);
    var ws := Picked(s.regs, list, 0, 16);
    HoldsIfSame(s.cfg, Stmdb(s, rn, true, list).mem, t.mem, t.regs[rn], ws);
    HoldsInSram(t.cfg, t.mem, t.regs[rn], ws);
    PlusFits(t.regs[rn], 4 * |ws|);
    LoadedBlock(t.cfg, t.mem, t.dev, t.regs, list, t.regs[rn], 16, ws, 0);
    var r := LoadLoop(t.cfg, t.mem, t.dev, t.regs, list, t.regs[rn], 0, 16).0;
    MergedApart(r, Ldmia(t, rn, true, list).regs, s.regs, t.regs, list, 16, rn);
  }

  // ---------------------------------------------------------------- STMIA and LDMDB

  /** STMIA over registers below `n`: 8 in the 16-bit encoding, which always writes back. */
  function Stmia(s: State, rn: nat, w: bool, list: RegList, n: nat): State
    requires rn < 16 && n <= 16
  {
    var (mem, addr) := StoreLoop(s.cfg, s.mem, s.dev, s.regs, list, s.regs[rn], 0, n);
    s.(mem := mem, regs := if w then s.regs[rn := addr] else s.regs)
  }

  /** LDMDB up to the branch that a listed PC makes: the base is lowered before the loads, so
      a listed base ends with the loaded word. */
  function LdmdbLoads(s: State, rn: nat, w: bool, list: RegList): State
    requires rn < 16
  {
    var addr := Minus(s.regs[rn], 4 * Rank(list, 16));
    s.(regs := LoadLoop(s.cfg, s.mem, s.dev, if w then s.regs[rn := addr] else s.regs, list, addr, 0, 16).0)
  }

  function Ldmdb(s: State, rn: nat, w: bool, list: RegList): State
    requires rn < 16
  {
    var s' := LdmdbLoads(s, rn, w, list);
    if PC !in list then s'
    else if IsExcReturn(s'.regs[PC]) then ExitException(s')
    else s'.(regs := s'.regs[PC := HalfwordAligned(s'.regs[PC])])
  }

  lemma StmiaBlock(s: State, rn: nat, list: RegList)
    requires rn < 16 && SoundMap(s.cfg) && InSram(s.cfg, s.regs[rn], 4 * Rank(list, 16))
    ensures var s' := Stmia(s, rn, true, list, 16);
      var ws := Picked(s.regs, list, 0, 16);
      && |ws| == Rank(list, 16)
      && s'.regs == s.regs[rn := s.regs[rn] + 4 * |ws|]
      && Holds(s.cfg, s'.mem, s.regs[rn], ws)
      && InOrder(s.regs, list, 16, ws)
      && SameOutside(s.mem, s'.mem, Off(s.cfg, s.regs[rn]), Off(s.cfg, s'.regs[rn]))
  {
    hide StoreLoop, Write, WriteWords, Picked, Rank, InOrder, Holds, SameOutside, Plus;
    PlusFits(s.regs[rn], 4 * Rank(list, 16));
    PickedInOrder(s.regs, list, 16);
    StoreLoopWrites(s.cfg, s.mem, s.dev, s.regs, list, s.regs[rn], 0, 16);
    WriteWordsHolds(s.cfg, s.mem, s.dev, s.regs[rn], Picked(s.regs, list, 0, 16));
  }

  /** STMIA rn! then LDMDB rn!: the same, on a block above the base. */
  lemma StmiaLdmdbRoundTrip(s: State, rn: nat, list: RegList, t: State)
    requires rn < 16 && rn !in list && PC !in list && SoundMap(s.cfg)
    requires InSram(s.cfg, s.regs[rn], 4 * Rank(list, 16))
    requires var s' := Stmia(s, rn, true, list, 16);
      && t.cfg == s.cfg && t.regs[rn] == s'.regs[rn]
      && SameBytes(s'.mem, t.mem, Off(s.cfg, s.regs[rn]), Off(s.cfg, t.regs[rn]))
    ensures var u := Ldmdb(t, rn, true, list);
      && u == t.(regs := u.regs)
      && u.regs[rn] == s.regs[rn]
      && Merged(u.regs, s.regs, t.regs, list, 16, rn)
  {
    hide Holds, Stmia, LoadLoop, Rank, Picked, Plus, Minus, InOrder, Merged, SameBytes, SameOutside;
    StmiaBlock(s, rn, list);
    var ws := Picked(s.regs, list, 0, 16);
    var base := s.regs[rn];
    HoldsIfSame(s.cfg, Stmia(s, rn, true, list, 16).mem, t.mem, base, ws);
    HoldsInSram(t.cfg, t.mem, base, ws);
    MinusFits(t.regs[rn], 4 * |ws|);
    var low := t.regs[rn := base];
    LoadedBlock(t.cfg, t.mem, t.dev, low, list, base, 16, ws, 0);
    var r := Ldmdb(t, rn, true, list).regs;
    assert r == LoadLoop(t.cfg, t.mem, t.dev, low, list, base, 0, 16).0;
    BaseIsKept(t.cfg, t.mem, t.dev, low, list, base, rn);
    MergedUnder(r, s.regs, low, t.regs, list, 16, rn);
  }

  lemma BaseIsKept(cfg: Config, mem: Mem, dev: Device, regs: Regs, list: RegList, base: word, rn: nat)
    requires rn < 16 && rn !in list
    ensures LoadLoop(cfg, mem, dev, regs, list, base, 0, 16).0[rn] == regs[rn]
  {
    hide LoadLoop, Read, Plus;
    RankZero(list);
    PlusFits(base, 0);
    LoadLoopReads(cfg, mem, dev, regs, list, base, 0, 16);
  }

  /** A merge does not depend on the excepted register of the context around the list. */
  lemma MergedUnder(r: Regs, regs: Regs, other: Regs, other': Regs, list: RegList, n: nat, base: nat)
    requires base < 16 && Merged(r, regs, other, list, n, base) && other == other'[base := other[base]]
    ensures Merged(r, regs, other', list, n, base)
  {
  }
}
