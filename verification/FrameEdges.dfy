/** Frames at the end of SRAM. The stack guard accepts a new stack pointer up to and including
    the end of SRAM, so a frame may pass it with some or all of its words outside; which
    contexts survive that is said here, for every stack pointer the guard lets through. */
module FrameEdges {
  import opened Words
  import opened Memory
  import opened MemoryLaws
  import opened PlainMemory
  import ShadowStack
  import opened Cpu
  import opened Transparency

  /** All sixteen registers, xPSR, the IT state and the active exception. */
  predicate SameExecution(s: State, t: State) {
    s.regs == t.regs && s.xpsr == t.xpsr && s.it == t.it && s.active == t.active
  }

  /** Entry followed at once by return gives back every context with this stack pointer. */
  ghost predicate ReturnRestores(cfg: Config, sp: word, n: nat)
    requires n < 512
  {
    forall s: State :: s.cfg == cfg && s.regs[SP] == sp && Coherent(s) ==>
      SameExecution(ExitException(EnterException(s, n)), s)
  }

  /** The last word of a frame below `sp` starts in SRAM and ends in the byte memory. */
  predicate LastWordStays(cfg: Config, sp: word) {
    sp < cfg.sramBase + cfg.sramSize + 4 && Off(cfg, sp) <= MEM_SIZE
  }

  /** What the guard lets through on a usual map. */
  predicate Accepted(cfg: Config, sp: word) {
    !StackOverflow(cfg, Minus(sp, 32))
  }

  lemma AcceptedRange(cfg: Config, sp: word)
    requires UsualMap(cfg) && Accepted(cfg, sp)
    ensures cfg.sramBase + 96 <= sp <= cfg.sramBase + cfg.sramSize + 32 && Minus(sp, 32) == sp - 32
  {
  }

  // ---------------------------------------------------------------- words that stay

  /** A word that starts in SRAM and ends in the byte memory is stored and loaded there. */
  lemma EdgeAccess(cfg: Config, mem: Mem, dev: Device, a: word, v: word)
    requires UsualMap(cfg) && cfg.sramBase <= a < cfg.sramBase + cfg.sramSize && Off(cfg, a) + 4 <= MEM_SIZE
    ensures Read(cfg, mem, dev, a, 4) == Load(mem, Off(cfg, a), 4)
    ensures Write(cfg, mem, dev, a, 4, v) == Store(mem, Off(cfg, a), 4, v)
  {
    hide Translate, PeriphWrites;
    SramTranslates(cfg, a);
    NoWindowBelow(a);
  }

  lemma {:induction false} EdgeWordsSplice(cfg: Config, mem: Mem, dev: Device, addr: word, ws: seq<word>)
    requires UsualMap(cfg) && cfg.sramBase <= addr && Off(cfg, addr) + 4 * |ws| <= MEM_SIZE
    requires addr + 4 * |ws| < cfg.sramBase + cfg.sramSize + 4
    ensures WriteWords(cfg, mem, dev, addr, ws) == Splice(mem, Off(cfg, addr), WordsBytes(ws))
    decreases |ws|
  {
    hide Read, Write, UsualMap;
    var o := Off(cfg, addr);
    if |ws| == 0 {
      assert Splice(mem, o, []) == mem;
    } else {
      var mem' := Splice(mem, o, Bytes(ws[0], 4));
      EdgeAccess(cfg, mem, dev, addr, ws[0]);
      MapEnds(cfg);
      PlusFits(addr, 4);
      EdgeWordsSplice(cfg, mem', dev, Plus(addr, 4), ws[1..]);
      SpliceTwice(mem, o, Bytes(ws[0], 4), WordsBytes(ws[1..]));
    }
  }

  lemma MapEnds(cfg: Config)
    requires UsualMap(cfg)
    ensures 0x2000_0000 <= cfg.sramBase && cfg.sramBase + cfg.sramSize <= 0x2200_0000
  {
  }

  lemma SplicedWord(mem: Mem, o: nat, ws: seq<word>, k: nat)
    requires o + 4 * |ws| <= MEM_SIZE && k < |ws|
    ensures Load(Splice(mem, o, WordsBytes(ws)), o + 4 * k, 4) == ws[k]
  {
    hide WordsBytes;
    var mem' := Splice(mem, o, WordsBytes(ws));
    assert mem'[o..o + 4 * |ws|] == WordsBytes(ws);
    LoadHeldWord(mem', o, ws, k);
  }

  lemma EdgeWordReadsBack(cfg: Config, mem: Mem, dev: Device, a: word, ws: seq<word>, k: nat)
    requires UsualMap(cfg) && cfg.sramBase <= a && Off(cfg, a) + 4 * |ws| <= MEM_SIZE
    requires a + 4 * |ws| < cfg.sramBase + cfg.sramSize + 4 && k < |ws|
    ensures Read(cfg, WriteWords(cfg, mem, dev, a, ws), dev, Plus(a, 4 * k), 4) == ws[k]
  {
    hide WriteWords, Read, Write, Plus, UsualMap, Splice, WordsBytes, Load, Store;
    MapEnds(cfg);
    EdgeWordsSplice(cfg, mem, dev, a, ws);
    PlusFits(a, 4 * k);
    EdgeAccess(cfg, WriteWords(cfg, mem, dev, a, ws), dev, a + 4 * k, 0);
    SplicedWord(mem, Off(cfg, a), ws, k);
  }

  /** The frame is read back as it was stacked. */
  lemma FrameReadsBack(x: State, n: nat)
    requires n < 512 && UsualMap(x.cfg) && Accepted(x.cfg, x.regs[SP]) && LastWordStays(x.cfg, x.regs[SP])
    ensures FrameAt(TakeException(x, n)) == FrameWords(x)
  {
    hide WriteWords, Read, FrameWords, Minus, Plus, WithException, HalfwordAligned, RegisterWrites, UsualMap, Accepted;
    var sp := x.regs[SP];
    var ws, got := FrameWords(x), FrameAt(TakeException(x, n));
    AcceptedRange(x.cfg, sp);
    assert |got| == |ws| == 8;
    forall k | 0 <= k < 8 ensures got[k] == ws[k] {
      EdgeWordReadsBack(x.cfg, x.mem, x.dev, sp - 32, ws, k);
    }
  }

  // ---------------------------------------------------------------- words that are lost

  /** Nothing is read just past SRAM, or across the end of the byte memory. */
  lemma NothingRead(cfg: Config, mem: Mem, dev: Device, a: word)
    requires UsualMap(cfg) && cfg.sramSize > 0 && cfg.sramBase <= a < cfg.sramBase + cfg.sramSize + 32
    requires a >= cfg.sramBase + cfg.sramSize || Off(cfg, a) + 4 > MEM_SIZE
    ensures Read(cfg, mem, dev, a, 4) == 0
  {
    hide Translate, BitbandWord, BitbandBit, PeriphWrites, BitOf, UsualMap;
    MapEnds(cfg);
    if IsBitband(a) {
      FirstAliases(cfg, a);
      NothingAt(cfg, mem, dev, BitbandWord(a));
      ZeroBit(BitbandBit(a));
    } else {
      EdgeTranslates(cfg, a);
      NothingAt(cfg, mem, dev, a);
    }
  }

  /** An address that no peripheral answers and whose word no byte of memory backs. */
  lemma NothingAt(cfg: Config, mem: Mem, dev: Device, a: word)
    requires 0x2000_0000 <= a < 0x4000_0000 && !IsBitband(a)
    requires Translate(cfg, a) == -1 || Translate(cfg, a) + 4 > MEM_SIZE
    ensures Read(cfg, mem, dev, a, 4) == 0
  {
    hide Translate, PeriphWrites;
    NoWindowBelow(a);
  }

  lemma EdgeTranslates(cfg: Config, a: word)
    requires UsualMap(cfg) && cfg.sramBase <= a < cfg.sramBase + cfg.sramSize + 32
    ensures Translate(cfg, a) == if a < cfg.sramBase + cfg.sramSize then Off(cfg, a) else -1
  {
    if a < cfg.sramBase + cfg.sramSize {
      SramTranslates(cfg, a);
    }
  }

  /** The first aliases name the word at 0x20000000, which is no SRAM if SRAM ends here. */
  lemma FirstAliases(cfg: Config, a: word)
    requires UsualMap(cfg) && 0x2200_0000 <= a < cfg.sramBase + cfg.sramSize + 32
    ensures IsBitband(a) && BitbandWord(a) == 0x2000_0000 && Translate(cfg, 0x2000_0000) == -1
  {
    assert (a - 0x2200_0000) / 32 == 0;
    assert 0x2000_0000 < cfg.sramBase;
  }

  lemma LostWord(x: State, n: nat, k: nat)
    requires n < 512 && k < 8 && UsualMap(x.cfg) && x.cfg.sramSize > 0 && Accepted(x.cfg, x.regs[SP])
    requires var a := x.regs[SP] - 32 + 4 * k;
      a >= x.cfg.sramBase + x.cfg.sramSize || Off(x.cfg, a) + 4 > MEM_SIZE
    ensures FrameAt(TakeException(x, n))[k] == 0
  {
    hide WriteWords, Read, FrameWords, Minus, Plus, WithException, HalfwordAligned, RegisterWrites, UsualMap;
    var sp := x.regs[SP];
    AcceptedRange(x.cfg, sp);
    MapEnds(x.cfg);
    PlusFits(sp - 32, 4 * k);
    NothingRead(x.cfg, TakeException(x, n).mem, x.dev, sp - 32 + 4 * k);
  }

  /** A stack pointer 32 bytes above SRAM passes the guard, and the whole frame is lost: return
      finds zeros for R0-R3, R12, LR, PC and xPSR, whatever was interrupted. */
  lemma FrameAboveSramIsLost(s: State, n: nat)
    requires n < 512 && UsualMap(s.cfg) && s.cfg.sramSize >= 64
    requires s.regs[SP] == s.cfg.sramBase + s.cfg.sramSize + 32
    ensures FrameAccepted(s, n)
    ensures var r := ExitException(EnterException(s, n));
      && (forall i :: 0 <= i < 16 && i != SP && !(4 <= i < 12) ==> r.regs[i] == 0)
      && r.xpsr == 0 && r.it == 0 && r.active == 0
  {
    hide TakeException, FrameAt, Read, UsualMap, WithoutIt, UnpackIt;
    MapEnds(s.cfg);
    MinusFits(s.regs[SP], 32);
    var e := EnterException(s, n);
    assert e == TakeException(Attempt(s), n);
    forall k | 0 <= k < 8 ensures FrameAt(e)[k] == 0 {
      LostWord(Attempt(s), n, k);
    }
    ZeroXpsr(FrameAt(e)[7]);
  }

  lemma ZeroXpsr(x: word)
    requires x == 0
    ensures WithoutIt(x) == 0 && UnpackIt(x) == 0
  {
    hide WithoutIt, UnpackIt;
    NoFlags(x);
    NoItBits(x);
  }

  lemma NoFlags(x: word)
    requires x == 0
    ensures WithoutIt(x) == 0
  {
  }

  lemma NoItBits(x: word)
    requires x == 0
    ensures UnpackIt(x) == 0
  {
  }

  // ---------------------------------------------------------------- exactly

  /** For every frame that the guard accepts, an interrupt entry followed at once by its return
      gives back every context with this stack pointer, if and only if the last of the eight
      words starts in SRAM and ends in the byte memory. */
  lemma AcceptedFrameSurvivesExactly(cfg: Config, sp: word, n: nat)
    requires n < 512 && n != HARD_FAULT && UsualMap(cfg) && Accepted(cfg, sp)
    ensures ReturnRestores(cfg, sp, n) <==> LastWordStays(cfg, sp)
  {
    hide EnterException, ExitException, Coherent, UsualMap, SameExecution, Accepted;
    if LastWordStays(cfg, sp) {
      forall s: State | s.cfg == cfg && s.regs[SP] == sp && Coherent(s)
        ensures SameExecution(ExitException(EnterException(s, n)), s)
      {
        SurvivesHere(s, n);
      }
    } else {
      var s := ThreadContext(cfg, sp);
      ThumbIsCoherent(s);
      ThreadContextIsLost(s, n);
    }
  }

  /** With a word-aligned stack and SRAM, that is a stack pointer no higher than the end. */
  lemma AlignedFrameSurvivesExactly(cfg: Config, sp: word, n: nat)
    requires n < 512 && n != HARD_FAULT && UsualMap(cfg) && Accepted(cfg, sp)
    requires sp % 4 == 0 && (cfg.sramBase + cfg.sramSize) % 4 == 0
    ensures ReturnRestores(cfg, sp, n) <==> sp <= cfg.sramBase + cfg.sramSize
  {
    hide ReturnRestores;
    AcceptedFrameSurvivesExactly(cfg, sp, n);
  }

  lemma SurvivesHere(s: State, n: nat)
    requires n < 512 && n != HARD_FAULT && UsualMap(s.cfg) && Accepted(s.cfg, s.regs[SP]) && Coherent(s)
    requires LastWordStays(s.cfg, s.regs[SP])
    ensures SameExecution(ExitException(EnterException(s, n)), s)
  {
    hide WriteWords, Read, FrameAt, Minus, Plus, WithException, HalfwordAligned, RegisterWrites, UsualMap, Coherent,
      ExitException, LastWordStays;
    var x := Attempt(s);
    var e := TakeException(x, n);
    AcceptedRange(s.cfg, s.regs[SP]);
    PlusFits(s.regs[SP] - 32, 32);
    FrameReadsBack(x, n);
    SameFrame(x, s);
    assert e.regs[4..12] == s.regs[4..12];
    ReadFrameRestores(s, e);
  }

  /** A thread in Thumb state. */
  function ThreadContext(cfg: Config, sp: word): (s: State)
    ensures s.cfg == cfg && s.regs[SP] == sp && s.xpsr == 0x0100_0000 && s.it == 0 && s.active == 0
  {
    State(cfg, 0, seq(16, i => if i == SP then sp else 0), 0x0100_0000, 0, 0, 0, false, false, false, {}, {},
          seq(8, _ => 0), 0, 0, seq(MEM_SIZE, _ => 0), _ => 0, ShadowStack.Empty(), 0, 0, 0, 0)
  }

  lemma ThumbIsCoherent(s: State)
    requires s.xpsr == 0x0100_0000 && s.it == 0 && s.active == 0
    ensures Coherent(s)
  {
    ItBitsClear(s.xpsr);
  }

  lemma ThreadContextIsLost(s: State, n: nat)
    requires n < 512 && n != HARD_FAULT && UsualMap(s.cfg) && Accepted(s.cfg, s.regs[SP])
    requires !LastWordStays(s.cfg, s.regs[SP]) && s.xpsr == 0x0100_0000
    ensures !SameExecution(ExitException(EnterException(s, n)), s)
  {
    hide TakeException, FrameAt, UsualMap;
    AcceptedRange(s.cfg, s.regs[SP]);
    assert EnterException(s, n) == TakeException(Attempt(s), n);
    LostWord(Attempt(s), n, 7);
    ZeroXpsr(FrameAt(TakeException(Attempt(s), n))[7]);
  }
}
