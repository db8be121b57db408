/** IT blocks: the condition field that `cortex_emu_step` consumes one instruction at a time
    (`src/cortex_emu.c`), and what an interrupt between those instructions does to it. */
module ItBlock {
  import opened Words
  import opened Memory
  import opened Cpu
  import opened Transparency
  import Arithmetic

  type Nibble = n: nat | n < 16

  /** The IT instruction: `(firstcond << 4) | mask`. */
  function BeginIt(firstcond: Nibble, mask: Nibble): word {
    firstcond * 16 + mask
  }

  /** `(it & 0xE0) | ((it << 1) & 0x1F)`, cleared when the low four bits run out. */
  function AdvanceIt(it: word): word {
    var next := it / 32 % 8 * 32 + (2 * it) % 32;
    if next % 16 == 0 then 0 else next
  }

  /** ITAdvance of section A7.3 of the ARMv7-M Architecture Reference Manual. */
  function ArchitecturalAdvance(it: word): word
    requires it < 0x100
  {
    if it % 8 == 0 then 0 else it / 32 * 32 + (it % 32) * 2 % 32
  }

  /** Inside a block the code's step is the architecture's. */
  lemma AdvanceIsArchitectural(it: word)
    requires it < 0x100 && it % 16 != 0
    ensures AdvanceIt(it) == ArchitecturalAdvance(it)
  {
    hide AdvanceIt;
    AdvanceSplit(it / 32, it % 32);
    assert it == it / 32 * 32 + it % 32;
    LowThree(it / 32, it % 32);
  }

  lemma LowThree(high: nat, low: nat)
    ensures (high * 32 + low) % 8 == low % 8
  {
    assert high * 32 + low == 8 * (4 * high) + low;
  }

  /** The step on the upper three and the lower five bits. */
  lemma AdvanceSplit(high: nat, low: nat)
    requires high < 8 && low < 32
    ensures var it := high * 32 + low;
      && it < 0x100 && it / 32 == high && it % 32 == low && it / 16 == high * 2 + low / 16 && it % 16 == low % 16
      && AdvanceIt(it) == if low % 8 == 0 then 0 else high * 32 + 2 * low % 32
  {
    var it := high * 32 + low;
    Halves(high, low);
    DoubledLow(high, low);
    var x := 2 * low % 32;
    ShiftedLow(low);
    assert high % 8 == high;
    LowNibble(high, x);
  }

  lemma Halves(high: nat, low: nat)
    requires high < 8 && low < 32
    ensures var it := high * 32 + low;
      it < 0x100 && it / 32 == high && it % 32 == low && it / 16 == high * 2 + low / 16 && it % 16 == low % 16
  {
  }

  lemma DoubledLow(high: nat, low: nat)
    ensures (2 * (high * 32 + low)) % 32 == 2 * low % 32
  {
    AddMultiple(32, 2 * high, 2 * low);
  }

  lemma ShiftedLow(low: nat)
    requires low < 32
    ensures 2 * low % 32 % 16 == 0 <==> low % 8 == 0
  {
    RemainderOfLow(2 * low, 32, 2, 16);
    DivMod(low, 8);
    DivModUnique(2 * low, 16, low / 8, 2 * (low % 8));
  }

  lemma LowNibble(high: nat, x: nat)
    ensures (high * 32 + x) % 16 == x % 16
  {
    assert high * 32 + x == 16 * (2 * high) + x;
  }

  function AdvanceTimes(it: word, n: nat): word
    decreases n
  {
    if n == 0 then it else AdvanceTimes(AdvanceIt(it), n - 1)
  }

  function TrailingZeros(mask: Nibble): (z: nat)
    requires mask != 0
    ensures z < 4
  {
    if mask % 2 == 1 then 0 else if mask % 4 == 2 then 1 else if mask % 8 == 4 then 2 else 3
  }

  /** How many instructions a block with this mask governs. */
  function BlockLength(mask: Nibble): (n: nat)
    requires mask != 0
    ensures 1 <= n <= 4
  {
    4 - TrailingZeros(mask)
  }

  lemma BlockLengths(mask: Nibble)
    requires mask != 0
    ensures 1 <= BlockLength(mask) <= 4
    ensures mask % 8 == 0 <==> BlockLength(mask) == 1
    ensures mask % 4 == 0 <==> BlockLength(mask) <= 2
    ensures mask % 2 == 0 <==> BlockLength(mask) <= 3
  {
  }

  /** The condition of instruction `i`: `firstcond` with its low bit replaced, from the
      second instruction on, by the matching bit of the mask, most significant first. */
  function ConditionOf(firstcond: Nibble, mask: Nibble, i: nat): Nibble
    requires i < 4
  {
    if i == 0 then firstcond
    else
      var bit := if i == 1 then mask / 8 % 2 else if i == 2 then mask / 4 % 2 else mask / 2 % 2;
      firstcond / 2 * 2 + bit
  }

  lemma {:induction false} AdvanceTimesIn(it: word, i: nat)
    ensures AdvanceTimes(it, i + 1) == AdvanceIt(AdvanceTimes(it, i))
    decreases i
  {
    if i == 0 {
      assert AdvanceTimes(it, 1) == AdvanceTimes(AdvanceIt(it), 0);
    } else {
      AdvanceTimesIn(AdvanceIt(it), i - 1);
    }
  }

  /** The state before instruction `i`: `firstcond` shifted out, bit by bit, by the mask. */
  function StateAt(firstcond: Nibble, mask: Nibble, i: nat): word
    requires i < 4
  {
    firstcond / 2 * 32 + (if i == 0 then firstcond % 2 * 16 + mask
                          else if i == 1 then 2 * mask
                          else if i == 2 then 4 * mask % 32
                          else 8 * mask % 32)
  }

  lemma StateAdvances(firstcond: Nibble, mask: Nibble, i: nat)
    requires mask != 0 && i < BlockLength(mask)
    ensures StateAt(firstcond, mask, i) % 16 != 0
    ensures StateAt(firstcond, mask, i) / 16 == ConditionOf(firstcond, mask, i)
    ensures AdvanceIt(StateAt(firstcond, mask, i)) == if i + 1 == BlockLength(mask) then 0
        else StateAt(firstcond, mask, i + 1)
  {
    hide AdvanceIt;
    var high := firstcond / 2;
    var low := StateAt(firstcond, mask, i) - high * 32;
    AdvanceSplit(high, low);
    LowBits(firstcond % 2, mask, i);
  }

  /** The lower five bits before instruction `i`, for each of the fifteen masks. */
  lemma LowBits(bit: nat, mask: Nibble, i: nat)
    requires bit < 2 && mask != 0 && i < BlockLength(mask)
    ensures var low := if i == 0 then bit * 16 + mask else if i == 1 then 2 * mask
        else if i == 2 then 4 * mask % 32 else 8 * mask % 32;
      && low < 32 && low % 16 != 0
      && low / 16 == (if i == 0 then bit else if i == 1 then mask / 8 % 2 else if i == 2 then mask / 4 % 2
          else mask / 2 % 2)
      && (low % 8 == 0 <==> i + 1 == BlockLength(mask))
      && (i + 1 < BlockLength(mask) ==> 2 * low % 32 == if i == 0 then 2 * mask
          else if i == 1 then 4 * mask % 32 else 8 * mask % 32)
  {
    hide BlockLength;
    BlockLengths(mask);
    match i
    case 0 => FirstState(bit, mask);
    case 1 => SecondState(mask);
    case 2 => ThirdState(mask);
    case _ => FourthState(mask);
  }

  lemma FirstState(bit: nat, mask: Nibble)
    requires bit < 2
    ensures var low := bit * 16 + mask;
      low < 32 && low % 16 == mask && low / 16 == bit && low % 8 == mask % 8 && 2 * low % 32 == 2 * mask
  {
  }

  lemma SecondState(mask: Nibble)
    ensures (2 * mask) / 16 == mask / 8 % 2 && 2 * (2 * mask) % 32 == 4 * mask % 32
    ensures (2 * mask) % 16 == 2 * (mask % 8) && (2 * mask) % 8 == 2 * (mask % 4)
  {
    assert 2 * mask == 16 * (mask / 8) + 2 * (mask % 8);
    assert 2 * mask == 8 * (mask / 4) + 2 * (mask % 4);
  }

  lemma ThirdState(mask: Nibble)
    ensures var low := 4 * mask % 32;
      low == 4 * (mask % 8) && low % 16 == 4 * (mask % 4) && low % 8 == 4 * (mask % 2)
      && low / 16 == mask / 4 % 2 && 2 * low % 32 == 8 * mask % 32
  {
    FourTimes(mask);
    EightTimes(mask);
    EightTimes(mask % 8);
    TopOfThree(mask);
    ThirdLow(mask % 8 / 4, mask % 8 % 4);
  }

  lemma FourTimes(mask: nat)
    ensures 4 * mask % 32 == 4 * (mask % 8)
  {
    DivMod(mask, 8);
    DivModUnique(4 * mask, 32, mask / 8, 4 * (mask % 8));
  }

  lemma EightTimes(mask: nat)
    ensures 8 * mask % 32 == 8 * (mask % 4)
  {
    DivMod(mask, 4);
    DivModUnique(8 * mask, 32, mask / 4, 8 * (mask % 4));
  }

  lemma TopOfThree(mask: nat)
    ensures mask % 8 / 4 == mask / 4 % 2 && mask % 8 % 4 == mask % 4 && mask % 4 % 2 == mask % 2 && mask % 8 / 4 < 2
    ensures mask % 8 == 4 * (mask % 8 / 4) + mask % 8 % 4
  {
    RemainderOfLow(mask, 8, 2, 4);
    RemainderOfLow(mask, 4, 2, 2);
    DivMod(mask % 8, 4);
    AddMultiple(2, mask / 8, mask % 8 / 4);
  }

  lemma ThirdLow(top: nat, rest: nat)
    requires top < 2 && rest < 4
    ensures var low := 4 * (4 * top + rest);
      low % 32 == low && low % 16 == 4 * rest && low % 8 == 4 * (rest % 2) && low / 16 == top
  {
  }

  lemma FourthState(mask: Nibble)
    ensures var low := 8 * mask % 32;
      low == 8 * (mask % 4) && low % 8 == 0 && low % 16 == 8 * (mask % 2) && low / 16 == mask / 2 % 2
  {
    EightTimes(mask);
    assert mask % 4 == mask / 2 % 2 * 2 + mask % 2;
  }

  /** An IT with a nonzero mask governs exactly the next `4 - ctz(mask)` instructions, each
      under its own condition, and then the IT state is 0. */
  lemma {:induction false} ItGovernsItsBlock(firstcond: Nibble, mask: Nibble, i: nat)
    requires mask != 0 && i <= BlockLength(mask)
    ensures var it := AdvanceTimes(BeginIt(firstcond, mask), i);
      if i == BlockLength(mask) then it == 0
      else it == StateAt(firstcond, mask, i) && it % 16 != 0 && it / 16 == ConditionOf(firstcond, mask, i)
  {
    if i == 0 {
      assert StateAt(firstcond, mask, 0) == BeginIt(firstcond, mask);
      StateAdvances(firstcond, mask, 0);
    } else {
      ItGovernsItsBlock(firstcond, mask, i - 1);
      AdvanceTimesIn(BeginIt(firstcond, mask), i - 1);
      StateAdvances(firstcond, mask, i - 1);
      if i < BlockLength(mask) {
        StateAdvances(firstcond, mask, i);
      }
    }
  }

  // ---------------------------------------------------------------- instructions in a block

  /** An instruction: what it does once PC is past it, and its length in bytes. */
  datatype Instruction = Instruction(effect: Operation, length: nat)

  function Skip(s: State, length: nat): State {
    s.(regs := s.regs[PC := Plus(s.regs[PC], length)])
  }

  /** One step of the core on a fetched instruction: inside a block the IT state advances
      first and a failed condition skips the instruction. */
  function StepOn(i: Instruction, s: State): State {
    if s.it % 16 == 0 then i.effect(Skip(s, i.length))
    else
      var s' := s.(it := AdvanceIt(s.it));
      if Condition(s.xpsr, s.it / 16) then i.effect(Skip(s', i.length)) else Skip(s', i.length)
  }

  function ItStep(firstcond: Nibble, mask: Nibble, s: State): State {
    s.(it := BeginIt(firstcond, mask))
  }

  /** The instruction leaves the IT state alone. */
  ghost predicate KeepsIt(i: Instruction) {
    forall s: State :: i.effect(s).it == s.it
  }

  /** The block as the IT instruction means it: instruction `k` under its own condition. The
      IT state is only carried along for the instructions to see. */
  function MeantBlock(firstcond: Nibble, mask: Nibble, code: seq<Instruction>, k: nat, s: State): State
    requires mask != 0 && k <= |code| == BlockLength(mask)
    decreases |code| - k
  {
    if k == |code| then s
    else
      var s' := s.(it := AdvanceTimes(BeginIt(firstcond, mask), k + 1));
      var t := Skip(s', code[k].length);
      MeantBlock(firstcond, mask, code, k + 1,
                 if Condition(s.xpsr, ConditionOf(firstcond, mask, k)) then code[k].effect(t) else t)
  }

  function RunAll(code: seq<Instruction>, k: nat, s: State): State
    requires k <= |code|
    decreases |code| - k
  {
    if k == |code| then s else RunAll(code, k + 1, StepOn(code[k], s))
  }

  lemma {:induction false} BlockRunsAsMeant(firstcond: Nibble, mask: Nibble, code: seq<Instruction>, k: nat, s: State)
    requires mask != 0 && k <= |code| == BlockLength(mask)
    requires forall j :: 0 <= j < |code| ==> KeepsIt(code[j])
    requires s.it == AdvanceTimes(BeginIt(firstcond, mask), k)
    ensures RunAll(code, k, s) == MeantBlock(firstcond, mask, code, k, s)
    ensures RunAll(code, k, s).it == 0
    decreases |code| - k
  {
    hide Condition, AdvanceIt, BeginIt, ConditionOf, BlockLength, StateAt;
    ItGovernsItsBlock(firstcond, mask, k);
    if k < |code| {
      AdvanceTimesIn(BeginIt(firstcond, mask), k);
      assert KeepsIt(code[k]);
      BlockRunsAsMeant(firstcond, mask, code, k + 1, StepOn(code[k], s));
    }
  }

  /** An AL block executes every instruction: the conditions of its mask are 14 and 15. */
  lemma AlwaysBlockExecutes(firstcond: Nibble, mask: Nibble, code: seq<Instruction>, k: nat, s: State)
    requires firstcond >= 14 && mask != 0 && k < |code| == BlockLength(mask)
    requires s.it == AdvanceTimes(BeginIt(firstcond, mask), k)
    ensures StepOn(code[k], s) == code[k].effect(Skip(s.(it := AdvanceTimes(BeginIt(firstcond, mask), k + 1)),
                                                      code[k].length))
  {
    hide Condition, AdvanceIt, BeginIt, BlockLength, StateAt, Skip;
    ItGovernsItsBlock(firstcond, mask, k);
    AdvanceTimesIn(BeginIt(firstcond, mask), k);
    Arithmetic.ConditionsComplement(s.xpsr, s.it / 16);
  }

  /** Outside a block every instruction executes, and a skipped one only moves PC past itself. */
  lemma SkippedOnlyMovesPc(i: Instruction, s: State)
    ensures s.it % 16 == 0 ==> StepOn(i, s) == i.effect(s.(regs := s.regs[15 := Plus(s.regs[15], i.length)]))
    ensures s.it % 16 != 0 && !Condition(s.xpsr, s.it / 16) ==>
      StepOn(i, s) == s.(it := AdvanceIt(s.it), regs := s.regs[15 := Plus(s.regs[15], i.length)])
  {
    hide Condition, AdvanceIt, Plus;
  }

  // ---------------------------------------------------------------- interrupts in between

  /** `p` runs exactly `code`, from instruction `k` on, whatever preempts it. */
  ghost predicate Runs(p: Program, code: seq<Instruction>, k: nat)
    decreases p
  {
    match p
    case Done => k == |code|
    case Do(op, rest) => k < |code| && (forall s: State :: op(s) == StepOn(code[k], s)) && Runs(rest, code, k + 1)
    case Preempt(_, _, _, _, rest) => Runs(rest, code, k)
  }

  lemma {:induction false} SoloRunsCode(p: Program, code: seq<Instruction>, k: nat, s: State)
    requires Runs(p, code, k) && k <= |code|
    ensures Solo(p, s) == RunAll(code, k, s)
    decreases p
  {
    hide StepOn;
    match p
    case Done =>
    case Do(op, rest) =>
      SoloRunsCode(rest, code, k + 1, op(s));
    case Preempt(_, _, _, _, rest) =>
      SoloRunsCode(rest, code, k, s);
  }

  /** Interrupts taken and returned from between the instructions of an IT block change
      nothing about it: the run ends as the block means it, with the IT state at 0. */
  lemma ItBlockSurvivesInterrupts(firstcond: Nibble, mask: Nibble, code: seq<Instruction>, p: Program,
      s: State, keep: Private)
    requires mask != 0 && |code| == BlockLength(mask)
    requires forall j :: 0 <= j < |code| ==> KeepsIt(code[j])
    requires Runs(p, code, 0)
    requires Disciplined(p, ItStep(firstcond, mask, s), keep)
    ensures var s' := Exec(p, ItStep(firstcond, mask, s));
      && SameView(s', MeantBlock(firstcond, mask, code, 0, ItStep(firstcond, mask, s)), keep)
      && s'.it == 0
  {
    hide Exec, Disciplined, MeantBlock, RunAll, Runs, StepOn, BeginIt, BlockLength, KeepsIt;
    var s0 := ItStep(firstcond, mask, s);
    assert AdvanceTimes(BeginIt(firstcond, mask), 0) == BeginIt(firstcond, mask);
    BlockRunsAsMeant(firstcond, mask, code, 0, s0);
    SoloRunsCode(p, code, 0, s0);
    SameViewIsReflexive(s0, keep);
    PreemptionIsTransparent(p, s0, s0, keep);
  }

  /** A step on an instruction that is local is itself local: the condition and the IT state
      are part of the view. */
  lemma StepIsLocal(i: Instruction, s: State, keep: Private)
    requires LocalAt(i.effect, Skip(s, i.length), keep)
    requires LocalAt(i.effect, Skip(s.(it := AdvanceIt(s.it)), i.length), keep)
    ensures LocalAt(s => StepOn(i, s), s, keep)
  {
    hide Condition, AdvanceIt;
    var f := i.effect;
    forall t | SameView(s, t, keep)
      ensures SameView(StepOn(i, s), StepOn(i, t), keep)
    {
      var a, b := s.(it := AdvanceIt(s.it)), t.(it := AdvanceIt(t.it));
      assert SameView(Skip(s, i.length), Skip(t, i.length), keep);
      assert SameView(Skip(a, i.length), Skip(b, i.length), keep);
      assert SameView(f(Skip(s, i.length)), f(Skip(t, i.length)), keep);
      assert SameView(f(Skip(a, i.length)), f(Skip(b, i.length)), keep);
    }
  }
}
