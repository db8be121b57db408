/** What the address space of `Memory` promises: read-over-write in SRAM for mixed widths,
    constant bytes below the SRAM area, flash seen at two addresses, and block writes of whole words. */
module MemoryLaws {
  import opened Words
  import opened Memory

  // ---------------------------------------------------------------- bits by number

  lemma BitNumber(w: word, k: nat, p: nat)
    requires k < 32 && Pow2(k) == p
    ensures BitOf(w, k) == w / p % 2
  {
  }

  /** A field of two bits. */
  lemma TwoBitsAt(w: word, k: nat, p: nat)
    requires k < 31 && Pow2(k) == p
    ensures w / p % 4 == BitOf(w, k) + 2 * BitOf(w, k + 1)
  {
    DivDiv(w, p, 2);
    assert Pow2(k + 1) == p * 2;
    hide Pow2;
    TwoBits(w / p);
  }

  lemma TwoBits(x: nat)
    ensures x % 4 == x % 2 + 2 * (x / 2 % 2)
  {
  }

  // ---------------------------------------------------------------- sound memory maps

  /** Address `a` reaches the byte memory through the SRAM branch of the translation. */
  predicate PlainAddr(cfg: Config, a: word) {
    && !IsBitband(a) && !PeriphReads(a)
    && a >= cfg.flashSize
    && !(cfg.flashBase <= a < Wrap(cfg.flashBase + cfg.flashSize))
  }

  /** Every SRAM address means SRAM: the range ends inside the address space and the byte
      memory, and none of it is claimed by flash, a peripheral or a bit-band alias. Other
      addresses may still be mapped onto the same bytes; see `PlainMemory`. */
  ghost predicate SoundMap(cfg: Config) {
    && cfg.sramBase + cfg.sramSize < 0x1_0000_0000
    && SRAM_OFFSET + cfg.sramSize <= MEM_SIZE
    && forall a: word :: cfg.sramBase <= a < cfg.sramBase + cfg.sramSize ==> PlainAddr(cfg, a)
  }

  predicate InSram(cfg: Config, a: int, n: nat) {
    cfg.sramBase <= a && a + n <= cfg.sramBase + cfg.sramSize
  }

  function Off(cfg: Config, a: int): int {
    SRAM_OFFSET + (a - cfg.sramBase)
  }

  lemma SramAccess(cfg: Config, mem: Mem, dev: Device, a: word, n: Width, v: word)
    requires SoundMap(cfg) && InSram(cfg, a, n)
    ensures Translate(cfg, a) == Off(cfg, a)
    ensures Read(cfg, mem, dev, a, n) == Load(mem, Off(cfg, a), n)
    ensures Write(cfg, mem, dev, a, n, v) == Store(mem, Off(cfg, a), n, v)
  {
    assert PlainAddr(cfg, a);
  }

  // ---------------------------------------------------------------- read over write

  /** The bytes a read of `n` bytes at `a` sees after `m` bytes of `v` were written at `b`. */
  function SeenBytes(mem: Mem, a: nat, n: nat, b: nat, m: nat, v: nat): seq<byte>
    requires a + n <= MEM_SIZE && b + m <= MEM_SIZE
  {
    seq(n, i requires 0 <= i < n => if b <= a + i < b + m then Bytes(v, m)[a + i - b] else mem[a + i])
  }

  lemma SramReadOverWrite(cfg: Config, mem: Mem, dev: Device, a: word, n: Width, b: word, m: Width, v: word)
    requires SoundMap(cfg) && InSram(cfg, a, n) && InSram(cfg, b, m)
    ensures Read(cfg, Write(cfg, mem, dev, b, m, v), dev, a, n)
         == Value(SeenBytes(mem, Off(cfg, a), n, Off(cfg, b), m, v))
    ensures a == b && n == m ==> Read(cfg, Write(cfg, mem, dev, b, m, v), dev, a, n) == v % Pow256(n)
    ensures a + n <= b || b + m <= a ==>
      Read(cfg, Write(cfg, mem, dev, b, m, v), dev, a, n) == Read(cfg, mem, dev, a, n)
  {
    SramAccess(cfg, mem, dev, a, n, v);
    SramAccess(cfg, mem, dev, b, m, v);
    SramAccess(cfg, Write(cfg, mem, dev, b, m, v), dev, a, n, v);
    LoadOverStore(mem, Off(cfg, a), n, Off(cfg, b), m, v);
  }

  lemma LoadOverStore(mem: Mem, x: nat, n: nat, y: nat, m: nat, v: nat)
    requires x + n <= MEM_SIZE && y + m <= MEM_SIZE
    ensures Load(Store(mem, y, m, v), x, n) == Value(SeenBytes(mem, x, n, y, m, v))
    ensures x == y && n == m ==> Load(Store(mem, y, m, v), x, n) == v % Pow256(n)
    ensures x + n <= y || y + m <= x ==> Load(Store(mem, y, m, v), x, n) == Load(mem, x, n)
  {
    var mem' := Store(mem, y, m, v);
    assert mem'[x..x + n] == SeenBytes(mem, x, n, y, m, v);
    if x == y && n == m {
      assert mem'[x..x + n] == Bytes(v, n);
      ValueOfBytes(v, n);
    }
    if x + n <= y || y + m <= x {
      assert mem'[x..x + n] == mem[x..x + n];
    }
  }

  // ---------------------------------------------------------------- flash

  ghost predicate SameBytes(mem: Mem, mem': Mem, lo: int, hi: int) {
    forall i :: 0 <= i < MEM_SIZE && lo <= i < hi ==> mem'[i] == mem[i]
  }

  ghost predicate SameOutside(mem: Mem, mem': Mem, lo: int, hi: int) {
    forall i :: 0 <= i < MEM_SIZE && !(lo <= i < hi) ==> mem'[i] == mem[i]
  }

  /** Everything below the SRAM area of the byte memory. */
  ghost predicate SameBelowSram(mem: Mem, mem': Mem) {
    SameBytes(mem, mem', 0, SRAM_OFFSET)
  }

  /** Any write, at any address and width, changes at most one run of four bytes, and that
      run lies inside the byte memory, at the offset of the SRAM area or above. */
  lemma {:induction false} WriteFootprint(cfg: Config, mem: Mem, dev: Device, addr: word, n: Width, v: word)
    returns (off: nat)
    ensures SRAM_OFFSET <= off <= off + 4 <= MEM_SIZE
         || (n < 4 && SRAM_OFFSET <= off <= off + n <= MEM_SIZE)
    ensures SameOutside(mem, Write(cfg, mem, dev, addr, n, v), off, off + 4)
    decreases IsBitband(addr)
  {
    if IsBitband(addr) {
      var a := BitbandWord(addr);
      off := WriteFootprint(cfg, mem, dev, a, 4, WithBit(Read(cfg, mem, dev, a, 4), BitbandBit(addr), v % 2));
    } else {
      var o := Translate(cfg, addr);
      off := if o < SRAM_OFFSET || o >= MEM_SIZE - (n - 1) then SRAM_OFFSET else o;
    }
  }

  /** One memory write by the CPU, an exception frame, a bit-band alias or a DMA channel. */
  datatype Access = Access(dev: Device, addr: word, width: Width, value: word)

  function RunAccesses(cfg: Config, mem: Mem, accesses: seq<Access>): Mem
    decreases |accesses|
  {
    if |accesses| == 0 then mem
    else
      var x := accesses[0];
      RunAccesses(cfg, Write(cfg, mem, x.dev, x.addr, x.width, x.value), accesses[1..])
  }

  lemma {:induction false} BelowSramIsConstant(cfg: Config, mem: Mem, accesses: seq<Access>)
    ensures SameBelowSram(mem, RunAccesses(cfg, mem, accesses))
    decreases |accesses|
  {
    if |accesses| == 0 {
    } else {
      var x := accesses[0];
      var mem' := Write(cfg, mem, x.dev, x.addr, x.width, x.value);
      var off := WriteFootprint(cfg, mem, x.dev, x.addr, x.width, x.value);
      BelowSramIsConstant(cfg, mem', accesses[1..]);
    }
  }

  /** Flash reads agree at address 0 and at `flash_base`, at any width. The map must not
      fold the two windows onto each other or under a peripheral; 0 and `flash_base` are
      then two names of the same bytes even for an access that runs past the last one. */
  lemma FlashAliases(cfg: Config, mem: Mem, dev: Device, a: word, n: Width)
    requires a < cfg.flashSize
    requires cfg.flashBase >= cfg.flashSize && cfg.flashBase + cfg.flashSize < 0x1_0000_0000
    requires !IsBitband(a) && !PeriphReads(a)
    requires !IsBitband(cfg.flashBase + a) && !PeriphReads(cfg.flashBase + a)
    ensures Read(cfg, mem, dev, cfg.flashBase + a, n) == Read(cfg, mem, dev, a, n)
  {
    hide Translate;
    FlashOffset(cfg, a);
  }

  /** What a read of flash returns: the bytes at the offset from either window. */
  lemma FlashAccess(cfg: Config, mem: Mem, dev: Device, a: word, n: Width)
    requires !IsBitband(a) && !PeriphReads(a) && a < 0x8000_0000
    requires a < cfg.flashSize || cfg.flashBase <= a < cfg.flashBase + cfg.flashSize < 0x1_0000_0000
    ensures var off := if a < cfg.flashSize then a else a - cfg.flashBase;
      Read(cfg, mem, dev, a, n) == if off + n <= 0xC_0000 then Load(mem, off, n) else 0
  {
    hide PeriphReads;
  }

  lemma FlashOffset(cfg: Config, a: word)
    requires a < cfg.flashSize && cfg.flashBase >= cfg.flashSize && cfg.flashBase + cfg.flashSize < 0x1_0000_0000
    ensures Translate(cfg, cfg.flashBase + a) == Translate(cfg, a)
  {
  }

  // ---------------------------------------------------------------- blocks of words

  /** Consecutive 32-bit writes at ascending addresses. */
  function WriteWords(cfg: Config, mem: Mem, dev: Device, addr: word, ws: seq<word>): Mem
    decreases |ws|
  {
    if |ws| == 0 then mem
    else WriteWords(cfg, Write(cfg, mem, dev, addr, 4, ws[0]), dev, Plus(addr, 4), ws[1..])
  }

  /** `n` consecutive 32-bit reads at ascending addresses. */
  function ReadWords(cfg: Config, mem: Mem, dev: Device, addr: word, n: nat): (ws: seq<word>)
    ensures |ws| == n
  {
    seq(n, k requires 0 <= k < n => Read(cfg, mem, dev, Plus(addr, 4 * k), 4))
  }

  /** Writing word `k` of a block leaves the block from word `k + 1` on to be written. */
  lemma WriteWordsStep(cfg: Config, mem: Mem, dev: Device, addr: word, ws: seq<word>, k: nat)
    requires k < |ws|
    ensures WriteWords(cfg, mem, dev, Plus(addr, 4 * k), ws[k..])
         == WriteWords(cfg, Write(cfg, mem, dev, Plus(addr, 4 * k), 4, ws[k]), dev, Plus(addr, 4 * (k + 1)),
             ws[k + 1..])
  {
    hide Write, Plus;
    assert ws[k..][1..] == ws[k + 1..];
    PlusPlus(addr, 4 * k, 4);
  }

  lemma WriteNoWords(cfg: Config, mem: Mem, dev: Device, addr: word, ws: seq<word>)
    requires |ws| == 0
    ensures WriteWords(cfg, mem, dev, addr, ws) == mem
  {
  }

  function WordsBytes(ws: seq<word>): (bs: seq<byte>)
    ensures |bs| == 4 * |ws|
  {
    if |ws| == 0 then [] else Bytes(ws[0], 4) + WordsBytes(ws[1..])
  }

  /** The memory holds the words `ws` at SRAM address `a`. */
  ghost predicate Holds(cfg: Config, mem: Mem, a: int, ws: seq<word>) {
    && InSram(cfg, a, 4 * |ws|)
    && SRAM_OFFSET + cfg.sramSize <= MEM_SIZE
    && mem[Off(cfg, a)..Off(cfg, a) + 4 * |ws|] == WordsBytes(ws)
  }

  lemma {:induction false} WriteWordsSplices(cfg: Config, mem: Mem, dev: Device, addr: word, ws: seq<word>)
    requires SoundMap(cfg) && InSram(cfg, addr, 4 * |ws|)
    ensures WriteWords(cfg, mem, dev, addr, ws) == Splice(mem, Off(cfg, addr), WordsBytes(ws))
    decreases |ws|
  {
    hide Read, Write, PlainAddr;
    var o := Off(cfg, addr);
    if |ws| == 0 {
      assert Splice(mem, o, []) == mem;
    } else {
      var mem' := Splice(mem, o, Bytes(ws[0], 4));
      SramAccess(cfg, mem, dev, addr, 4, ws[0]);
      WriteWordsSplices(cfg, mem', dev, Plus(addr, 4), ws[1..]);
      assert Off(cfg, Plus(addr, 4)) == o + 4;
      SpliceTwice(mem, o, Bytes(ws[0], 4), WordsBytes(ws[1..]));
    }
  }

  lemma SpliceTwice(mem: Mem, o: nat, x: seq<byte>, y: seq<byte>)
    requires o + |x| + |y| <= MEM_SIZE
    ensures Splice(Splice(mem, o, x), o + |x|, y) == Splice(mem, o, x + y)
  {
  }

  lemma SliceOfSlice<T>(s: seq<T>, a: nat, n: nat, c: nat, d: nat)
    requires a + n <= |s| && c <= d <= n
    ensures s[a..a + n][c..d] == s[a + c..a + d]
  {
    var t := s[a..a + n];
    assert |t[c..d]| == |s[a + c..a + d]|;
    forall i | 0 <= i < d - c ensures t[c..d][i] == s[a + c..a + d][i] {
      assert t[c..d][i] == t[c + i] == s[a + (c + i)];
    }
  }

  lemma WriteWordsHolds(cfg: Config, mem: Mem, dev: Device, addr: word, ws: seq<word>)
    requires SoundMap(cfg) && InSram(cfg, addr, 4 * |ws|)
    ensures Holds(cfg, WriteWords(cfg, mem, dev, addr, ws), addr, ws)
    ensures SameOutside(mem, WriteWords(cfg, mem, dev, addr, ws), Off(cfg, addr), Off(cfg, addr) + 4 * |ws|)
  {
    WriteWordsSplices(cfg, mem, dev, addr, ws);
  }

  lemma {:induction false} WordsBytesAt(ws: seq<word>, k: nat)
    requires k < |ws|
    ensures WordsBytes(ws)[4 * k..4 * k + 4] == Bytes(ws[k], 4)
  {
    if k == 0 {
    } else {
      WordsBytesAt(ws[1..], k - 1);
      assert WordsBytes(ws)[4 * k..4 * k + 4] == WordsBytes(ws[1..])[4 * (k - 1)..4 * (k - 1) + 4];
    }
  }

  lemma ReadHeldWord(cfg: Config, mem: Mem, dev: Device, a: word, ws: seq<word>, k: nat)
    requires SoundMap(cfg) && Holds(cfg, mem, a, ws) && k < |ws|
    ensures Read(cfg, mem, dev, Plus(a, 4 * k), 4) == ws[k]
  {
    hide Read, WordsBytes;
    assert Plus(a, 4 * k) == a + 4 * k;
    assert Off(cfg, a + 4 * k) == Off(cfg, a) + 4 * k;
    SramAccess(cfg, mem, dev, Plus(a, 4 * k), 4, 0);
    LoadHeldWord(mem, Off(cfg, a), ws, k);
  }

  lemma WordRoundTrip(w: word)
    ensures Value(Bytes(w, 4)) == w
  {
    ValueOfBytes(w, 4);
    assert Pow256(4) == 0x1_0000_0000;
  }

  lemma LoadHeldWord(mem: Mem, o: nat, ws: seq<word>, k: nat)
    requires o + 4 * |ws| <= MEM_SIZE && mem[o..o + 4 * |ws|] == WordsBytes(ws) && k < |ws|
    ensures Load(mem, o + 4 * k, 4) == ws[k]
  {
    hide Bytes, Value, WordsBytes;
    WordsBytesAt(ws, k);
    SliceOfSlice(mem, o, 4 * |ws|, 4 * k, 4 * k + 4);
    WordRoundTrip(ws[k]);
  }

  lemma HoldsIfSame(cfg: Config, mem: Mem, mem': Mem, a: int, ws: seq<word>)
    requires Holds(cfg, mem, a, ws)
    requires SameBytes(mem, mem', Off(cfg, a), Off(cfg, a) + 4 * |ws|)
    ensures Holds(cfg, mem', a, ws)
  {
    var o := Off(cfg, a);
    assert mem'[o..o + 4 * |ws|] == mem[o..o + 4 * |ws|];
  }
}
