/** Runs of stores anywhere in the address space, seen from flash and from SRAM: when flash is
    immutable, and when SRAM is a plain byte array. Both depend on the sizes configured, since
    the byte memory behind flash, SRAM and peripherals is one. */
module PlainMemory {
  import opened Words
  import opened Memory
  import opened MemoryLaws

  /** The maps of real parts: flash low, SRAM between 0x20000000 and the first alias region,
      the byte memory large enough for it. */
  predicate UsualMap(cfg: Config) {
    && 0x2000_0000 <= cfg.sramBase && cfg.sramBase + cfg.sramSize <= 0x2200_0000
    && cfg.sramSize <= MEM_SIZE - SRAM_OFFSET
    && cfg.flashSize <= 0x1FFF_0000 && cfg.flashBase + cfg.flashSize <= 0x1FFF_0000
  }

  // ---------------------------------------------------------------- flash

  /** `n` bytes at `a` lie in one of the two flash windows. */
  predicate InFlash(cfg: Config, a: word, n: Width) {
    if a < cfg.flashSize then a + n <= cfg.flashSize
    else cfg.flashBase <= a && a + n <= cfg.flashBase + cfg.flashSize < 0x1_0000_0000
  }

  /** No run of stores changes what a read of flash returns. */
  ghost predicate FlashIsImmutable(cfg: Config) {
    forall mem: Mem, xs: seq<Access>, dev: Device, a: word, n: Width ::
      InFlash(cfg, a, n) && !IsBitband(a) ==>
        Read(cfg, RunAccesses(cfg, mem, xs), dev, a, n) == Read(cfg, mem, dev, a, n)
  }

  lemma FlashReadsBelow(cfg: Config, mem: Mem, mem': Mem, dev: Device, a: word, n: Width)
    requires cfg.flashSize <= SRAM_OFFSET && InFlash(cfg, a, n) && !IsBitband(a) && SameBelowSram(mem, mem')
    ensures Read(cfg, mem', dev, a, n) == Read(cfg, mem, dev, a, n)
  {
    hide PeriphReads;
    var off: nat := if a < cfg.flashSize then a else a - cfg.flashBase;
    assert Translate(cfg, a) == off;
    assert mem'[off..off + n] == mem[off..off + n];
  }

  /** A byte stored just past 512 KB of flash lands in the SRAM area, which is written. */
  lemma StorePastFlashLimit(cfg: Config, mem: Mem, dev: Device, v: word)
    requires cfg.flashSize > SRAM_OFFSET
    ensures Write(cfg, mem, dev, 0x8_0000, 1, v) == Store(mem, SRAM_OFFSET, 1, v)
    ensures forall m: Mem, d: Device :: Read(cfg, m, d, 0x8_0000, 1) == Load(m, SRAM_OFFSET, 1)
  {
    hide InWindows;
    NoWindowBelow(0x8_0000);
    assert Translate(cfg, 0x8_0000) == SRAM_OFFSET;
    forall m: Mem, d: Device ensures Read(cfg, m, d, 0x8_0000, 1) == Load(m, SRAM_OFFSET, 1) {
    }
  }

  lemma {:induction false} OutsideWindows(x: int, ws: Windows)
    requires forall k :: 0 <= k < |ws| ==> !(ws[k].0 <= x < ws[k].1)
    ensures !InWindows(x, ws)
    decreases |ws|
  {
    if |ws| > 0 {
      assert !(ws[0].0 <= x < ws[0].1);
      OutsideWindows(x, ws[1..]);
    }
  }

  lemma PeripheralsAreHigh()
    ensures forall k :: 0 <= k < |PERIPH_WINDOWS| ==> PERIPH_WINDOWS[k].0 >= 0x4000_0000
  {
  }

  lemma NoWindowBelow(a: word)
    requires a < 0x4000_0000
    ensures !PeriphWrites(a)
  {
    PeripheralsAreHigh();
    OutsideWindows(a, PERIPH_WINDOWS);
  }

  /** Flash is immutable if and only if no more than 512 KB of it are configured: the guard of
      the stores is the offset of the SRAM area, not the size of flash. */
  lemma FlashImmutableExactly(cfg: Config)
    ensures FlashIsImmutable(cfg) <==> cfg.flashSize <= SRAM_OFFSET
  {
    hide Read, Write, RunAccesses;
    if cfg.flashSize <= SRAM_OFFSET {
      forall mem: Mem, xs: seq<Access>, dev: Device, a: word, n: Width | InFlash(cfg, a, n) && !IsBitband(a)
        ensures Read(cfg, RunAccesses(cfg, mem, xs), dev, a, n) == Read(cfg, mem, dev, a, n)
      {
        BelowSramIsConstant(cfg, mem, xs);
        FlashReadsBelow(cfg, mem, RunAccesses(cfg, mem, xs), dev, a, n);
      }
    } else {
      var mem: Mem, dev: Device := seq(MEM_SIZE, _ => 0), _ => 0;
      var xs := [Access(dev, 0x8_0000, 1, 1)];
      OneAccess(cfg, mem, xs[0]);
      StorePastFlashLimit(cfg, mem, dev, 1);
      StoredByte(mem);
      assert InFlash(cfg, 0x8_0000, 1);
      assert Read(cfg, RunAccesses(cfg, mem, xs), dev, 0x8_0000, 1) != Read(cfg, mem, dev, 0x8_0000, 1);
    }
  }

  lemma OneAccess(cfg: Config, mem: Mem, x: Access)
    ensures RunAccesses(cfg, mem, [x]) == Write(cfg, mem, x.dev, x.addr, x.width, x.value)
  {
    hide Write;
    assert [x][1..] == [];
    var mem' := Write(cfg, mem, x.dev, x.addr, x.width, x.value);
    assert RunAccesses(cfg, mem', []) == mem';
  }

  lemma StoredByte(mem: Mem)
    ensures Load(Store(mem, SRAM_OFFSET, 1, 1), SRAM_OFFSET, 1) == 1
    ensures mem[SRAM_OFFSET] == 0 ==> Load(mem, SRAM_OFFSET, 1) == 0
  {
    LoadOverStore(mem, SRAM_OFFSET, 1, SRAM_OFFSET, 1, 1);
    assert Pow256(1) == 0x100;
    assert mem[SRAM_OFFSET..SRAM_OFFSET + 1] == [mem[SRAM_OFFSET]];
    assert Value([mem[SRAM_OFFSET]]) == mem[SRAM_OFFSET] + 0x100 * Value([mem[SRAM_OFFSET]][1..]);
  }

  /** The failing case in numbers: with 1 MB of flash at 0x08000000, a word stored to 0x80000
      reads back at both flash addresses and at the first word of SRAM. */
  lemma LargeFlashIsWritable(mem: Mem, dev: Device, v: word)
    ensures var cfg := Config(0x0800_0000, 0x10_0000, 0x2000_0000, 0x5000);
      var mem' := Write(cfg, mem, dev, 0x8_0000, 4, v);
      && UsualMap(cfg)
      && Read(cfg, mem', dev, 0x8_0000, 4) == v && Read(cfg, mem', dev, 0x0808_0000, 4) == v
      && Read(cfg, mem', dev, 0x2000_0000, 4) == v
  {
    hide InWindows;
    var cfg := Config(0x0800_0000, 0x10_0000, 0x2000_0000, 0x5000);
    NoWindowBelow(0x8_0000);
    NoWindowBelow(0x0808_0000);
    NoWindowBelow(0x2000_0000);
    LoadOverStore(mem, SRAM_OFFSET, 4, SRAM_OFFSET, 4, v);
    assert Pow256(4) == 0x1_0000_0000;
  }

  // ---------------------------------------------------------------- bits of bytes

  lemma {:induction false} ValueUpdate(bs: seq<byte>, j: nat, c: byte)
    requires j < |bs|
    ensures Value(bs[j := c]) == Value(bs) + (c - bs[j]) * Pow256(j)
    decreases j
  {
    if j == 0 {
      assert bs[0 := c][1..] == bs[1..];
    } else {
      ValueUpdate(bs[1..], j - 1, c);
      assert bs[j := c][1..] == bs[1..][j - 1 := c];
      TimesByte(c - bs[j], Pow256(j - 1));
    }
  }

  lemma TimesByte(d: int, p: int)
    ensures 0x100 * (d * p) == d * (0x100 * p)
  {
  }

  lemma {:induction false} ByteAt(v: nat, n: nat, j: nat)
    requires j < n
    ensures Bytes(v, n)[j] == v / Pow256(j) % 0x100
    decreases j
  {
    if j == 0 {
    } else {
      ByteAt(v / 0x100, n - 1, j - 1);
      DivDiv(v, 0x100, Pow256(j - 1));
    }
  }

  lemma {:induction false} BytesAreBits(j: nat)
    ensures Pow256(j) == Pow2(8 * j)
  {
    if j > 0 {
      BytesAreBits(j - 1);
      Pow2Add(8, 8 * (j - 1));
      Pow2Top();
    }
  }

  /** `b` with bit `i` set to `v`. */
  function ByteWithBit(b: byte, i: nat, v: nat): byte
    requires i < 8 && v < 2
  {
    ByteRoom(b, i);
    b - (b / Pow2(i)) % 2 * Pow2(i) + v * Pow2(i)
  }

  lemma ByteRoom(b: byte, i: nat)
    requires i < 8
    ensures 0 <= b - (b / Pow2(i)) % 2 * Pow2(i) && b - (b / Pow2(i)) % 2 * Pow2(i) + Pow2(i) < 0x100
  {
    hide Pow2;
    HalfByte(i);
    BitRoomAt(b, Pow2(i), Pow2(7 - i), 0x80);
  }

  lemma HalfByte(i: nat)
    requires i < 8
    ensures Pow2(i) * Pow2(7 - i) == 0x80
  {
    Pow2Add(i, 7 - i);
    assert Pow2(7) == 2 * Pow2(6) == 4 * Pow2(5) == 8 * Pow2(4) == 16 * Pow2(3) == 32 * Pow2(2) == 64 * Pow2(1);
  }

  /** The bit of weight `p * q` of a word is the bit of weight `q` of its byte of weight `p`. */
  lemma BitOfByte(w: nat, p: nat, q: nat, m: nat)
    requires p > 0 && q > 0 && q * m == 0x80
    ensures p * q > 0 && (w / (p * q)) % 2 == (w / p % 0x100 / q) % 2
  {
    var x := w / p;
    var h, b := x / 0x100, x % 0x100;
    DivDiv(w, p, q);
    DivMod(x, 0x100);
    Doubled(h, m, q);
    AddMultiple(q, h * (2 * m), b);
    assert h * (2 * m) == (h * m) * 2;
    AddMultiple(2, h * m, b / q);
  }

  lemma Doubled(h: int, m: int, q: int)
    requires q * m == 0x80
    ensures h * (2 * m) * q == h * 0x100
  {
    assert (2 * m) * q == 0x100;
    assert h * (2 * m) * q == h * ((2 * m) * q);
  }

  /** Writing one bit of a word writes one bit of one of its bytes. */
  lemma WordBitIsByteBit(w: word, k: nat, v: nat)
    requires k < 32 && v < 2
    ensures Bytes(WithBit(w, k, v), 4) == Bytes(w, 4)[k / 8 := ByteWithBit(Bytes(w, 4)[k / 8], k % 8, v)]
  {
    hide Pow2, Bytes, Pow256, WithBit, ByteWithBit, BitOf;
    var j, i := k / 8, k % 8;
    var p, q := Pow256(j), Pow2(i);
    var bs := Bytes(w, 4);
    BytesAreBits(j);
    Pow2Add(8 * j, i);
    HalfByte(i);
    ByteAt(w, 4, j);
    BitOfByte(w, p, q, Pow2(7 - i));
    var b := bs[j];
    var bit := (b / q) % 2;
    assert Pow2(k) == p * q;
    WithBitIs(w, k, v, bit);
    ByteWithBitIs(b, i, v);
    var c := ByteWithBit(b, i, v);
    ValueUpdate(bs, j, c);
    WholeWord(w);
    Reweighed(v - bit, q, p);
    assert Value(bs[j := c]) == WithBit(w, k, v);
    BytesOfValue(bs[j := c]);
  }

  lemma WithBitIs(w: word, k: nat, v: nat, bit: int)
    requires k < 32 && v < 2 && bit == (w / Pow2(k)) % 2
    ensures WithBit(w, k, v) == w + (v - bit) * Pow2(k)
  {
    hide Pow2;
    Distribute(v, -bit, Pow2(k));
  }

  lemma ByteWithBitIs(b: byte, i: nat, v: nat)
    requires i < 8 && v < 2
    ensures ByteWithBit(b, i, v) == b + (v - (b / Pow2(i)) % 2) * Pow2(i)
  {
    hide Pow2;
    Distribute(v, -((b / Pow2(i)) % 2), Pow2(i));
  }

  lemma WholeWord(w: word)
    ensures Value(Bytes(w, 4)) == w
  {
    ValueOfBytes(w, 4);
    assert Pow256(4) == 0x1_0000_0000;
  }

  lemma Reweighed(d: int, q: int, p: int)
    ensures (d * q) * p == d * (p * q)
  {
  }

  // ---------------------------------------------------------------- SRAM

  /** The bytes of SRAM. */
  function Ram(cfg: Config, mem: Mem): (ram: seq<byte>)
    requires SRAM_OFFSET + cfg.sramSize <= MEM_SIZE
  {
    mem[SRAM_OFFSET..SRAM_OFFSET + cfg.sramSize]
  }

  /** Bytes put into an array from index `i` on; what does not fit is dropped. */
  function PutBytes(ram: seq<byte>, i: nat, bs: seq<byte>): (r: seq<byte>)
    ensures |r| == |ram|
  {
    seq(|ram|, j requires 0 <= j < |ram| => if i <= j < i + |bs| then bs[j - i] else ram[j])
  }

  function PutBit(ram: seq<byte>, i: nat, k: nat, v: nat): (r: seq<byte>)
    requires k < 8 && v < 2
    ensures |r| == |ram|
  {
    if i < |ram| then ram[i := ByteWithBit(ram[i], k, v)] else ram
  }

  /** What one access does to a plain byte array that knows nothing of the rest of memory: an
      access that starts in SRAM writes its bytes, an alias of a word that starts in SRAM
      writes one bit, and any other access does nothing. */
  function PlainStep(cfg: Config, ram: seq<byte>, x: Access): (r: seq<byte>)
    ensures |r| == |ram|
  {
    var a := if IsBitband(x.addr) then BitbandWord(x.addr) else x.addr;
    if !(cfg.sramBase <= a < cfg.sramBase + cfg.sramSize) then ram
    else if IsBitband(x.addr) then
      var k := BitbandBit(x.addr);
      PutBit(ram, a - cfg.sramBase + k / 8, k % 8, x.value % 2)
    else PutBytes(ram, a - cfg.sramBase, Bytes(x.value, x.width))
  }

  function PlainRun(cfg: Config, ram: seq<byte>, xs: seq<Access>): (r: seq<byte>)
    ensures |r| == |ram|
    decreases |xs|
  {
    if |xs| == 0 then ram else PlainRun(cfg, PlainStep(cfg, ram, xs[0]), xs[1..])
  }

  /** SRAM behaves as a plain byte array over every run of accesses. */
  ghost predicate SramIsPlain(cfg: Config)
    requires SRAM_OFFSET + cfg.sramSize <= MEM_SIZE
  {
    forall mem: Mem, xs: seq<Access> :: Ram(cfg, RunAccesses(cfg, mem, xs)) == PlainRun(cfg, Ram(cfg, mem), xs)
  }

  /** Nothing else is mapped onto the bytes behind SRAM. */
  predicate OwnsItsBytes(cfg: Config) {
    cfg.sramSize == 0 || (cfg.sramSize <= PERIPH_OFFSET - SRAM_OFFSET && cfg.flashSize <= SRAM_OFFSET)
  }

  lemma {:induction false} LookupRange(x: int, lines: seq<Line>, lo: nat)
    requires forall k :: 0 <= k < |lines| ==> lines[k].target >= lo
    ensures Lookup(x, lines) == -1 || Lookup(x, lines) >= lo
    decreases |lines|
  {
    if |lines| > 0 {
      assert lines[0].target >= lo;
      LookupRange(x, lines[1..], lo);
    }
  }

  lemma PeripheralsAreBehind()
    ensures forall k :: 0 <= k < |PERIPH_LINES| ==> PERIPH_LINES[k].target >= PERIPH_OFFSET
    ensures forall k :: 0 <= k < |GPIO_LINES| ==> GPIO_LINES[k].target >= PERIPH_OFFSET
  {
  }

  /** Outside SRAM an address reaches no byte between the SRAM and the peripheral area. */
  lemma ElsewhereMisses(cfg: Config, a: word)
    requires UsualMap(cfg) && cfg.flashSize <= SRAM_OFFSET && !(cfg.sramBase <= a < cfg.sramBase + cfg.sramSize)
    ensures Translate(cfg, a) < SRAM_OFFSET || Translate(cfg, a) >= PERIPH_OFFSET
  {
    hide Lookup;
    PeripheralsAreBehind();
    LookupRange(a % 0x1000_0000, PERIPH_LINES, PERIPH_OFFSET);
    LookupRange(a, GPIO_LINES, PERIPH_OFFSET);
  }

  /** A store that no alias is involved in. */
  lemma PlainStore(cfg: Config, mem: Mem, dev: Device, a: word, n: Width, v: word)
    requires UsualMap(cfg) && OwnsItsBytes(cfg) && cfg.sramSize > 0 && !IsBitband(a)
    ensures Ram(cfg, Write(cfg, mem, dev, a, n, v)) == PlainStep(cfg, Ram(cfg, mem), Access(dev, a, n, v))
  {
    hide Translate, PeriphWrites, Bytes;
    if cfg.sramBase <= a < cfg.sramBase + cfg.sramSize {
      SramTranslates(cfg, a);
      NoWindowBelow(a);
      StoreInRam(cfg, mem, a, n, v);
    } else {
      ElsewhereMisses(cfg, a);
      StoreElsewhere(cfg, mem, Translate(cfg, a), n, v);
    }
  }

  lemma SramTranslates(cfg: Config, a: word)
    requires UsualMap(cfg) && cfg.sramBase <= a < cfg.sramBase + cfg.sramSize
    ensures Translate(cfg, a) == Off(cfg, a)
  {
  }

  lemma StoreInRam(cfg: Config, mem: Mem, a: word, n: Width, v: word)
    requires cfg.sramSize <= PERIPH_OFFSET - SRAM_OFFSET && cfg.sramBase <= a < cfg.sramBase + cfg.sramSize
    ensures Ram(cfg, Store(mem, Off(cfg, a), n, v)) == PutBytes(Ram(cfg, mem), a - cfg.sramBase, Bytes(v, n))
  {
    hide Bytes, Store;
    var i, bs := a - cfg.sramBase, Bytes(v, n);
    var left, right := Ram(cfg, Store(mem, Off(cfg, a), n, v)), PutBytes(Ram(cfg, mem), i, bs);
    assert |left| == |right|;
    forall j | 0 <= j < cfg.sramSize ensures left[j] == right[j] {
      StoredAt(mem, Off(cfg, a), n, v, SRAM_OFFSET + j);
    }
  }

  /** Byte `k` of the memory after a store. */
  lemma StoredAt(mem: Mem, off: nat, n: nat, v: nat, k: nat)
    requires off + n <= MEM_SIZE && k < MEM_SIZE
    ensures Store(mem, off, n, v)[k] == if off <= k < off + n then Bytes(v, n)[k - off] else mem[k]
  {
    hide Bytes;
  }

  lemma StoreElsewhere(cfg: Config, mem: Mem, off: int, n: Width, v: word)
    requires cfg.sramSize <= PERIPH_OFFSET - SRAM_OFFSET
    ensures PERIPH_OFFSET <= off && off + n <= MEM_SIZE ==> Ram(cfg, Store(mem, off, n, v)) == Ram(cfg, mem)
  {
    hide Bytes, Store;
    if PERIPH_OFFSET <= off && off + n <= MEM_SIZE {
      var left, right := Ram(cfg, Store(mem, off, n, v)), Ram(cfg, mem);
      assert |left| == |right|;
      forall j | 0 <= j < cfg.sramSize ensures left[j] == right[j] {
        StoredAt(mem, off, n, v, SRAM_OFFSET + j);
      }
    }
  }

  /** A store through an alias: one bit of SRAM, or nothing of it. */
  lemma AliasStore(cfg: Config, mem: Mem, dev: Device, alias: word, n: Width, v: word)
    requires UsualMap(cfg) && OwnsItsBytes(cfg) && cfg.sramSize > 0 && IsBitband(alias)
    ensures Ram(cfg, Write(cfg, mem, dev, alias, n, v)) == PlainStep(cfg, Ram(cfg, mem), Access(dev, alias, n, v))
  {
    hide Read, Write, WithBit, Bytes, ByteWithBit, BitbandWord, BitbandBit, PutBytes, PutBit, Ram, OwnsItsBytes;
    var a, k := BitbandWord(alias), BitbandBit(alias);
    var w := Read(cfg, mem, dev, a, 4);
    AliasIsWordStore(cfg, mem, dev, alias, n, v);
    PlainStore(cfg, mem, dev, a, 4, WithBit(w, k, v % 2));
    if cfg.sramBase <= a < cfg.sramBase + cfg.sramSize {
      assert cfg.sramSize <= PERIPH_OFFSET - SRAM_OFFSET by { OwnedSize(cfg); }
      SramWordRead(cfg, mem, dev, a);
      WordBitIsByteBit(w, k, v % 2);
      OneByteOfFour(cfg, mem, a, k / 8, k % 8, v % 2);
    }
  }

  lemma AliasIsWordStore(cfg: Config, mem: Mem, dev: Device, alias: word, n: Width, v: word)
    requires IsBitband(alias)
    ensures var a := BitbandWord(alias);
      Write(cfg, mem, dev, alias, n, v)
      == Write(cfg, mem, dev, a, 4, WithBit(Read(cfg, mem, dev, a, 4), BitbandBit(alias), v % 2))
  {
    hide Read, WithBit;
  }

  lemma OwnedSize(cfg: Config)
    requires OwnsItsBytes(cfg)
    ensures cfg.sramSize <= PERIPH_OFFSET - SRAM_OFFSET
  {
  }

  lemma SramWordRead(cfg: Config, mem: Mem, dev: Device, a: word)
    requires UsualMap(cfg) && cfg.sramSize <= PERIPH_OFFSET - SRAM_OFFSET
    requires cfg.sramBase <= a < cfg.sramBase + cfg.sramSize && !IsBitband(a)
    ensures Off(cfg, a) + 4 <= MEM_SIZE
    ensures Bytes(Read(cfg, mem, dev, a, 4), 4) == mem[Off(cfg, a)..Off(cfg, a) + 4]
  {
    hide Translate, PeriphWrites;
    SramTranslates(cfg, a);
    NoWindowBelow(a);
    BytesOfValue(mem[Off(cfg, a)..Off(cfg, a) + 4]);
  }

  lemma OneByteOfFour(cfg: Config, mem: Mem, a: word, j: nat, i: nat, v: nat)
    requires cfg.sramSize <= PERIPH_OFFSET - SRAM_OFFSET && cfg.sramBase <= a < cfg.sramBase + cfg.sramSize
    requires j < 4 && i < 8 && v < 2
    ensures var bs := mem[Off(cfg, a)..Off(cfg, a) + 4];
      PutBytes(Ram(cfg, mem), a - cfg.sramBase, bs[j := ByteWithBit(bs[j], i, v)])
      == PutBit(Ram(cfg, mem), a - cfg.sramBase + j, i, v)
  {
    hide ByteWithBit;
    var bs, ram, x := mem[Off(cfg, a)..Off(cfg, a) + 4], Ram(cfg, mem), a - cfg.sramBase;
    var left, right := PutBytes(ram, x, bs[j := ByteWithBit(bs[j], i, v)]), PutBit(ram, x + j, i, v);
    assert |left| == |right|;
    forall y | 0 <= y < |ram| ensures left[y] == right[y] {
      assert x <= y < x + 4 ==> bs[y - x] == ram[y];
    }
  }

  lemma AccessIsPlain(cfg: Config, mem: Mem, x: Access)
    requires UsualMap(cfg) && OwnsItsBytes(cfg)
    ensures Ram(cfg, Write(cfg, mem, x.dev, x.addr, x.width, x.value)) == PlainStep(cfg, Ram(cfg, mem), x)
  {
    hide Write, PlainStep;
    if cfg.sramSize > 0 {
      if IsBitband(x.addr) {
        AliasStore(cfg, mem, x.dev, x.addr, x.width, x.value);
      } else {
        PlainStore(cfg, mem, x.dev, x.addr, x.width, x.value);
      }
    }
  }

  lemma {:induction false} RunIsPlain(cfg: Config, mem: Mem, xs: seq<Access>)
    requires UsualMap(cfg) && OwnsItsBytes(cfg)
    ensures Ram(cfg, RunAccesses(cfg, mem, xs)) == PlainRun(cfg, Ram(cfg, mem), xs)
    decreases |xs|
  {
    hide Write, PlainStep, Ram;
    if |xs| > 0 {
      var x := xs[0];
      AccessIsPlain(cfg, mem, x);
      RunIsPlain(cfg, Write(cfg, mem, x.dev, x.addr, x.width, x.value), xs[1..]);
    }
  }

  /** A store to an unclaimed peripheral address lands at the start of the peripheral area,
      128 KB behind the first byte of SRAM. */
  lemma StoreToUnclaimed(cfg: Config, mem: Mem, dev: Device, n: Width, v: word)
    requires UsualMap(cfg)
    ensures Write(cfg, mem, dev, 0x5000_0000, n, v) == Store(mem, PERIPH_OFFSET, n, v)
  {
    hide InWindows;
    UnclaimedAddress();
    assert PERIPH_LINES[0] == Line(0, 0x400, PERIPH_OFFSET);
    assert Translate(cfg, 0x5000_0000) == PERIPH_OFFSET;
  }

  lemma UnclaimedAddress()
    ensures !PeriphWrites(0x5000_0000)
  {
    hide InWindows;
    assert forall k :: 0 <= k < |PERIPH_WINDOWS| ==>
      PERIPH_WINDOWS[k].1 <= 0x5000_0000 || PERIPH_WINDOWS[k].0 >= 0xE000_0000;
    OutsideWindows(0x5000_0000, PERIPH_WINDOWS);
  }

  /** On the map of a real part SRAM is a plain byte array over every run of CPU, exception,
      bit-band and DMA stores if and only if it owns its bytes: at most 128 KB of it, in front
      of the peripheral area, and at most 512 KB of flash. */
  lemma SramPlainExactly(cfg: Config)
    requires UsualMap(cfg)
    ensures SramIsPlain(cfg) <==> OwnsItsBytes(cfg)
  {
    hide Write, RunAccesses, PlainRun;
    if OwnsItsBytes(cfg) {
      forall mem: Mem, xs: seq<Access>
        ensures Ram(cfg, RunAccesses(cfg, mem, xs)) == PlainRun(cfg, Ram(cfg, mem), xs)
      {
        RunIsPlain(cfg, mem, xs);
      }
    } else {
      var mem: Mem, dev: Device := seq(MEM_SIZE, _ => 0), _ => 0;
      var large := cfg.sramSize > PERIPH_OFFSET - SRAM_OFFSET;
      var x := Access(dev, if large then 0x5000_0000 else 0x8_0000, 1, 1);
      var off: nat := if large then PERIPH_OFFSET else SRAM_OFFSET;
      if large {
        StoreToUnclaimed(cfg, mem, dev, 1, 1);
      } else {
        StorePastFlashLimit(cfg, mem, dev, 1);
      }
      OneAccess(cfg, mem, x);
      OnePlainStep(cfg, Ram(cfg, mem), x);
      ByteStored(mem, off);
      assert Ram(cfg, Store(mem, off, 1, 1))[off - SRAM_OFFSET] == 1;
      assert Ram(cfg, mem)[off - SRAM_OFFSET] == 0;
      assert PlainStep(cfg, Ram(cfg, mem), x) == Ram(cfg, mem);
      assert Ram(cfg, RunAccesses(cfg, mem, [x])) != PlainRun(cfg, Ram(cfg, mem), [x]);
    }
  }

  lemma OnePlainStep(cfg: Config, ram: seq<byte>, x: Access)
    ensures PlainRun(cfg, ram, [x]) == PlainStep(cfg, ram, x)
  {
    hide PlainStep;
    assert [x][1..] == [];
    assert PlainRun(cfg, PlainStep(cfg, ram, x), []) == PlainStep(cfg, ram, x);
  }

  lemma ByteStored(mem: Mem, off: nat)
    requires off < MEM_SIZE
    ensures Store(mem, off, 1, 1)[off] == 1
  {
    assert Bytes(1, 1)[0] == 1;
  }

  /** What a read of SRAM returns after any run of accesses: the bytes of the plain array. */
  lemma SramReadAfterRun(cfg: Config, mem: Mem, xs: seq<Access>, dev: Device, a: word, n: Width)
    requires UsualMap(cfg) && OwnsItsBytes(cfg) && InSram(cfg, a, n)
    ensures var i := a - cfg.sramBase;
      Read(cfg, RunAccesses(cfg, mem, xs), dev, a, n) == Value(PlainRun(cfg, Ram(cfg, mem), xs)[i..i + n])
  {
    hide RunAccesses, PlainRun, Translate, PeriphWrites, Value;
    RunIsPlain(cfg, mem, xs);
    SramTranslates(cfg, a);
    NoWindowBelow(a);
    var mem' := RunAccesses(cfg, mem, xs);
    var i := a - cfg.sramBase;
    SliceOfSlice(mem', SRAM_OFFSET, cfg.sramSize, i, i + n);
  }

  /** The failing case in numbers: 192 KB of SRAM, and a word stored to 0x50000000. */
  lemma LargeSramIsOverwritten(mem: Mem, dev: Device, v: word)
    ensures var cfg := Config(0x0800_0000, 0x1_0000, 0x2000_0000, 0x3_0000);
      && UsualMap(cfg)
      && Read(cfg, Write(cfg, mem, dev, 0x5000_0000, 4, v), dev, 0x2002_0000, 4) == v
  {
    hide InWindows, PeriphWrites, Value, Bytes, Splice;
    var cfg := Config(0x0800_0000, 0x1_0000, 0x2000_0000, 0x3_0000);
    StoreToUnclaimed(cfg, mem, dev, 4, v);
    NoWindowBelow(0x2002_0000);
    LoadOverStore(mem, PERIPH_OFFSET, 4, PERIPH_OFFSET, 4, v);
    assert Pow256(4) == 0x1_0000_0000;
  }
}
