/** Words by bit number and registers by address: what the fields of the stacked xPSR, a frame,
    the NVIC and the priority registers hold, one bit, word or byte at a time. */
module RegisterMap {
  import opened Words
  import opened Memory
  import opened MemoryLaws
  import Bitband
  import ShadowStack
  import opened Cpu
  import opened Transparency

  // ---------------------------------------------------------------- masks and words

  lemma {:induction false} WordBelowSums(w: word, n: nat)
    requires n <= 32
    ensures WordBelow(BitsOf(w), n) == Bitband.BitSum(w, n)
    decreases n
  {
    hide Pow2, BitOf;
    if n > 0 {
      WordBelowSums(w, n - 1);
    }
  }

  lemma {:induction false} BitOfBelow(m: Mask, n: nat, k: nat)
    requires k < n <= 32
    ensures WordBelow(m, n) / Pow2(k) % 2 == if k in m then 1 else 0
    decreases n
  {
    hide Pow2;
    var b, p := if n - 1 in m then 1 else 0, Pow2(n - 1);
    var low := WordBelow(m, n - 1);
    if k == n - 1 {
      DivModUnique(low + b * p, p, b, low);
    } else {
      BitOfBelow(m, n - 1, k);
      Bitband.LowerBit(low, low + b * p, n - 1, k, b * p, b);
    }
  }

  /** Masks are words bit by bit: the two conversions are inverse. */
  lemma MasksAreWords(m: Mask, w: word)
    ensures WordOf(BitsOf(w)) == w && BitsOf(WordOf(m)) == m
    ensures forall k :: k in m <==> k < 32 && BitOf(WordOf(m), k) == 1
  {
    hide Pow2, WordBelow, BitsOf, Bitband.BitSum;
    Pow2Top();
    WordBelowSums(w, 32);
    Bitband.BitSumIsRemainder(w, 32);
    forall k | 0 <= k < 32 ensures BitOf(WordOf(m), k) == if k in m then 1 else 0 {
      BitOfBelow(m, 32, k);
    }
    SameBits(m, WordOf(m));
  }

  lemma SameBits(m: Mask, w: word)
    requires forall k :: 0 <= k < 32 ==> BitOf(w, k) == if k in m then 1 else 0
    ensures BitsOf(w) == m
  {
    hide BitOf;
  }

  // ---------------------------------------------------------------- fields

  /** The field of width `w` at bit `j`. */
  function Field(x: word, j: nat, w: nat): nat
    requires j + w <= 32
  {
    Remainder(Quotient(x, Pow2(j)), Pow2(w))
  }

  /** Bit `m` of a field at bit `j` is bit `j + m` of the word. */
  lemma FieldBit(x: word, j: nat, w: nat, m: nat)
    requires m < w && j + w <= 32
    ensures BitOf(x, j + m) == Quotient(Field(x, j, w), Pow2(m)) % 2
  {
    hide Pow2, BitOf, Quotient, Remainder;
    BitDeeper(x, j, m);
    PowSplit(w, m);
    LowPartBit(Quotient(x, Pow2(j)), Pow2(w - m - 1), Pow2(m), Pow2(w));
  }

  lemma BitDeeper(x: word, j: nat, m: nat)
    requires j + m < 32
    ensures BitOf(x, j + m) == Quotient(Quotient(x, Pow2(j)), Pow2(m)) % 2
  {
    hide Pow2;
    Pow2Add(j, m);
    DivDiv(x, Pow2(j), Pow2(m));
  }

  lemma PowSplit(w: nat, m: nat)
    requires m < w
    ensures Pow2(w) == (2 * Pow2(w - m - 1)) * Pow2(m)
  {
    hide Pow2;
    var k := w - m;
    Pow2Add(k, m);
    Bitband.PowNext(k);
    assert k + m == w;
  }

  lemma LowPartBit(q: nat, h: nat, e: nat, p: nat)
    requires h > 0 && e > 0 && p == (2 * h) * e
    ensures p > 0 && Quotient(q, e) % 2 == Quotient(Remainder(q, p), e) % 2
  {
    RemainderOfLow(q, p, 2 * h, e);
    assert q / p * (2 * h) == (q / p * h) * 2;
    AddMultiple(2, q / p * h, q % p / e);
  }

  lemma FieldAt(x: word, j: nat, w: nat, p: nat, q: nat)
    requires j + w <= 32 && Pow2(j) == p && Pow2(w) == q
    ensures Field(x, j, w) == x / p % q
  {
  }

  /** The stacked word holds xPSR, but for bits 26:25 and 15:10, which hold the IT state. */
  lemma StackedBits(x: word, it: word, j: nat)
    requires j < 32
    ensures BitOf(PackXpsr(x, it), j)
         == if 25 <= j < 27 then BitOf(it, j - 25) else if 10 <= j < 16 then BitOf(it, j - 8) else BitOf(x, j)
  {
    hide Pow2, BitOf, PackXpsr, Field, Quotient;
    var y := PackXpsr(x, it);
    PackedFields(x, it);
    if j >= 27 {
      SameField(x, y, 27, 5, j - 27);
    } else if j >= 25 {
      FieldBit(y, 25, 2, j - 25);
      FieldBit(it, 0, 2, j - 25);
    } else if j >= 16 {
      SameField(x, y, 16, 9, j - 16);
    } else if j >= 10 {
      FieldBit(y, 10, 6, j - 10);
      FieldBit(it, 2, 6, j - 10);
    } else {
      SameField(x, y, 0, 10, j);
    }
  }

  lemma SameField(x: word, y: word, j: nat, w: nat, m: nat)
    requires m < w && j + w <= 32 && Field(x, j, w) == Field(y, j, w)
    ensures BitOf(x, j + m) == BitOf(y, j + m)
  {
    hide Pow2, BitOf, Field, Quotient;
    FieldBit(x, j, w, m);
    FieldBit(y, j, w, m);
  }

  lemma FieldPowers()
    ensures Pow2(0) == 1 && Pow2(2) == 4 && Pow2(5) == 32 && Pow2(6) == 64 && Pow2(9) == 512 && Pow2(10) == 0x400
    ensures Pow2(16) == 0x1_0000 && Pow2(25) == 0x200_0000 && Pow2(27) == 0x800_0000
  {
    Pow2Values();
    assert Pow2(9) == 2 * Pow2(8);
  }

  lemma PackedFields(x: word, it: word)
    ensures var y := PackXpsr(x, it);
      && Field(y, 27, 5) == Field(x, 27, 5) && Field(y, 25, 2) == Field(it, 0, 2)
      && Field(y, 16, 9) == Field(x, 16, 9) && Field(y, 10, 6) == Field(it, 2, 6) && Field(y, 0, 10) == Field(x, 0, 10)
  {
    hide Pow2, PackXpsr, Fields, Field;
    var y := PackXpsr(x, it);
    FieldPowers();
    PackedIs(x, it);
    FieldsSplit(x / 0x800_0000, it % 4, x / 0x1_0000 % 512, it / 4 % 64, x % 0x400);
    FieldAt(y, 27, 5, 0x800_0000, 32);
    FieldAt(x, 27, 5, 0x800_0000, 32);
    FieldAt(y, 25, 2, 0x200_0000, 4);
    FieldAt(it, 0, 2, 1, 4);
    FieldAt(y, 16, 9, 0x1_0000, 512);
    FieldAt(x, 16, 9, 0x1_0000, 512);
    FieldAt(y, 10, 6, 0x400, 64);
    FieldAt(it, 2, 6, 4, 64);
    FieldAt(y, 0, 10, 1, 0x400);
    FieldAt(x, 0, 10, 1, 0x400);
    OverOne(it);
    OverOne(x);
    OverOne(y);
  }

  lemma OverOne(x: nat)
    ensures x / 1 == x
  {
  }

  lemma PackedIs(x: word, it: word)
    ensures PackXpsr(x, it) == Fields(x / 0x800_0000, it % 4, x / 0x1_0000 % 512, it / 4 % 64, x % 0x400)
  {
  }

  /** What return takes from the stacked word: xPSR with those bits clear, and the IT state. */
  lemma UnstackedBits(w: word, j: nat)
    requires j < 32
    ensures BitOf(WithoutIt(w), j) == if 25 <= j < 27 || 10 <= j < 16 then 0 else BitOf(w, j)
    ensures BitOf(UnpackIt(w), j)
         == if j < 2 then BitOf(w, 25 + j) else if j < 8 then BitOf(w, 8 + j) else 0
  {
    hide Pow2, BitOf, PackXpsr, WithoutIt, UnpackIt;
    WithoutItIsPacked(w);
    StackedBits(w, 0, j);
    if 25 <= j < 27 {
      ZeroBit(j - 25);
    } else if 10 <= j < 16 {
      ZeroBit(j - 8);
    }
    ItBits(w, j);
  }

  lemma WithoutItIsPacked(w: word)
    ensures WithoutIt(w) == PackXpsr(w, 0)
  {
  }

  lemma ItBits(w: word, j: nat)
    requires j < 32
    ensures BitOf(UnpackIt(w), j)
         == if j < 2 then BitOf(w, 25 + j) else if j < 8 then BitOf(w, 8 + j) else 0
  {
    hide Pow2, BitOf, UnpackIt, Field, Quotient;
    var it := UnpackIt(w);
    UnpackedFields(w);
    if j < 2 {
      FieldBit(it, 0, 2, j);
      FieldBit(w, 25, 2, j);
    } else if j < 8 {
      FieldBit(it, 2, 6, j - 2);
      FieldBit(w, 10, 6, j - 2);
    } else {
      HighBitClear(it, j);
    }
  }

  lemma UnpackedFields(w: word)
    ensures var it := UnpackIt(w);
      it < 0x100 && Field(it, 0, 2) == Field(w, 25, 2) && Field(it, 2, 6) == Field(w, 10, 6)
  {
    hide Pow2, Field;
    var a, b, it := w / 0x200_0000 % 4, w / 0x400 % 64, UnpackIt(w);
    FieldPowers();
    DivModUnique(a + b * 4, 4, b, a);
    FieldAt(it, 0, 2, 1, 4);
    FieldAt(w, 25, 2, 0x200_0000, 4);
    FieldAt(it, 2, 6, 4, 64);
    FieldAt(w, 10, 6, 0x400, 64);
    OverOne(it);
  }

  lemma HighBitClear(x: word, j: nat)
    requires x < 0x100 && 8 <= j < 32
    ensures BitOf(x, j) == 0
  {
    hide Pow2;
    Pow2Values();
    Pow2Add(8, j - 8);
    MulMono(1, Pow2(j - 8), 0x100);
    SmallRemainder(x, Pow2(j));
  }

  // ---------------------------------------------------------------- frames

  /** The registers of a frame, lowest address first; xPSR comes eighth. */
  function Stacked(k: nat): (i: nat)
    requires k < 7
    ensures i < 16
  {
    match k
    case 0 => 0
    case 1 => 1
    case 2 => 2
    case 3 => 3
    case 4 => 12
    case 5 => 14
    case 6 => 15
  }

  /** Where entry puts each register, as memory reads afterwards. */
  lemma FrameLayout(x: State, n: nat, k: nat)
    requires n < 512 && k < 7 && SoundMap(x.cfg)
    requires var sp: int := x.regs[13]; InSram(x.cfg, sp - 32, 32)
    ensures var e := TakeException(x, n);
      && Read(x.cfg, e.mem, x.dev, Plus(x.regs[13], 4 * k - 32), 4) == x.regs[Stacked(k)]
      && Read(x.cfg, e.mem, x.dev, Plus(x.regs[13], -4), 4) == PackXpsr(x.xpsr, x.it)
      && e.regs[13] == Minus(x.regs[13], 32)
      && forall i :: 0 <= i < 13 ==> e.regs[i] == x.regs[i]
  {
    hide WriteWords, Read, Holds, SameOutside, Minus, Plus, WithException, HalfwordAligned, RegisterWrites, PackXpsr,
      SoundMap;
    EntryStacks(x, n);
    var mem, a := TakeException(x, n).mem, x.regs[13] - 32;
    SameAddress(x.regs[13], a, 4 * k);
    SameAddress(x.regs[13], a, 28);
    MinusFits(x.regs[13], 32);
    ReadHeldWord(x.cfg, mem, x.dev, a, FrameWords(x), k);
    ReadHeldWord(x.cfg, mem, x.dev, a, FrameWords(x), 7);
  }

  lemma SameAddress(sp: word, a: word, d: nat)
    requires a == sp - 32
    ensures Plus(sp, d - 32) == Plus(a, d)
  {
  }

  /** Where return takes each register from, whatever lies there. */
  lemma ReturnLayout(g: State, k: nat)
    requires k < 7
    ensures var r := ExitException(g);
      var w := Read(g.cfg, g.mem, g.dev, Plus(g.regs[13], 28), 4);
      && r.regs[Stacked(k)] == Read(g.cfg, g.mem, g.dev, Plus(g.regs[13], 4 * k), 4)
      && (forall i :: 4 <= i < 12 ==> r.regs[i] == g.regs[i])
      && r.regs[13] == Plus(g.regs[13], 32)
      && r.xpsr == WithoutIt(w) && r.it == UnpackIt(w) && r.active == r.xpsr % 512
      && r == g.(regs := r.regs, xpsr := r.xpsr, it := r.it, active := r.active, exits := Plus(g.exits, 1))
  {
    hide Read, Plus, WithoutIt, UnpackIt;
  }

  /** What entry leaves besides registers and memory: its counter, the newest pair of the
      shadow stack, and, when the guard refuses the frame, the fault and its code. */
  lemma EntryIsRecorded(s: State, n: nat)
    requires n < 512 && s.active != HARD_FAULT
    ensures var e := EnterException(s, n);
      if FrameAccepted(s, n) then
        && e.entries == Plus(s.entries, 1) && e.faults == s.faults && e.faultCode == s.faultCode
        && e.shadow == s.shadow.Record(s.regs[15], Minus(s.regs[13], 32))
      else
        && e.entries == Plus(s.entries, 2) && e.faults == Plus(s.faults, 1) && e.faultCode == 3
        && e.shadow == s.shadow.Record(s.regs[15], Minus(s.regs[13], 32)).Record(s.regs[15], Minus(s.regs[13], 32))
    ensures var e := EnterException(s, n);
      && e.exits == s.exits && e.primask == s.primask && e.sleeping == s.sleeping && e.halted == s.halted
      && e.lockup == s.lockup && e.core == s.core && e.cfg == s.cfg && e.dev == s.dev
  {
    hide WriteWords, Read, FrameWords, Minus, Plus, WithException, HalfwordAligned, RegisterWrites, FrameAccepted,
      ShadowStack.Shadow.Record;
    EntryOutcomes(s, n);
    PlusPlus(s.entries, 1, 1);
  }

  // ---------------------------------------------------------------- NVIC and priorities

  /** Enabled and pending interrupts, bit by bit, after a store of `v` to `a`: two registers
      set what the word names and two clear it. */
  lemma RequestRegisters(s: State, a: word, v: word, k: nat)
    requires k < 32
    ensures var r := RegisterWrite(s, a, v);
      && (k in r.enabled <==> if a == 0xE000_E100 then k in s.enabled || BitOf(v, k) == 1
                              else if a == 0xE000_E180 then k in s.enabled && BitOf(v, k) == 0
                              else k in s.enabled)
      && (k in r.pending <==> if a == 0xE000_E200 then k in s.pending || BitOf(v, k) == 1
                              else if a == 0xE000_E280 then k in s.pending && BitOf(v, k) == 0
                              else k in s.pending)
  {
    hide BitOf;
  }

  /** The priority of every IRQ after a store: byte `irq` of the eight words at 0xE000E400. */
  lemma IrqPriorityRegisters(s: State, a: word, v: word, irq: nat)
    requires irq < 32
    ensures IrqPriority(RegisterWrite(s, a, v), irq)
         == if (a - 0xE000_E400) / 4 == irq / 4 then
              (if s.core < 2 then Bytes(v, 4)[irq % 4] / 64 else Bytes(v, 4)[irq % 4])
            else IrqPriority(s, irq)
  {
    hide BitsOf, ByteOf, Bytes;
    ByteOfBytes(v, irq % 4);
  }

  /** The priorities of exceptions 8 to 15: the words at 0xE000ED1C and 0xE000ED20. */
  lemma SysPriorityRegisters(s: State, a: word, v: word, n: nat)
    requires 8 <= n < 16
    ensures SysPriority(RegisterWrite(s, a, v), n)
         == if a == (if n < 12 then 0xE000_ED1C else 0xE000_ED20) then
              (if s.core < 2 then Bytes(v, 4)[n % 4] / 64 else Bytes(v, 4)[n % 4])
            else SysPriority(s, n)
  {
    hide BitsOf, ByteOf, Bytes;
    ByteOfBytes(v, n % 4);
  }
}
