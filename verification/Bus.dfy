/** The byte memory as the object the emulator updates in place. */
module BusModule {
  import opened Words
  import opened Memory
  import opened MemoryLaws

  class Bus {
    const cfg: Config
    const mem: array<byte>

    ghost predicate Valid() {
      mem.Length == MEM_SIZE
    }

    ghost function Contents(): Mem
      requires Valid()
      reads mem
    {
      mem[..]
    }

    /** `calloc` followed by the flash fill of `cortex_emu_configure`. */
    constructor (c: Config)
      ensures Valid() && fresh(mem) && cfg == c
      ensures forall i :: 0 <= i < MEM_SIZE ==> Contents()[i] == if i < c.flashSize then 0xFF else 0
    {
      cfg := c;
      mem := new byte[MEM_SIZE](i => if i < c.flashSize then 0xFF else 0);
    }

    /** `cortex_emu_load_flash`. */
    method LoadFlash(offset: word, value: word)
      requires Valid()
      modifies mem
      ensures Contents() ==
        if offset < MEM_SIZE - 3 then Store(old(Contents()), offset, 4, value) else old(Contents())
    {
      if offset < MEM_SIZE - 3 {
        StoreAt(offset, 4, value);
      }
    }

    method LoadAt(off: nat, n: nat) returns (v: nat)
      requires Valid() && off + n <= MEM_SIZE
      ensures v == Load(Contents(), off, n)
    {
      v := 0;
      var i := n;
      while i > 0
        invariant 0 <= i <= n
        invariant v == Value(mem[off + i..off + n])
      {
        i := i - 1;
        assert mem[off + i..off + n][1..] == mem[off + i + 1..off + n];
        v := mem[off + i] + 0x100 * v;
      }
    }

    method StoreAt(off: nat, n: nat, value: nat)
      requires Valid() && off + n <= MEM_SIZE
      modifies mem
      ensures Contents() == Store(old(Contents()), off, n, value)
    {
      var i, v := 0, value;
      while i < n
        invariant 0 <= i <= n
        invariant Bytes(value, n) == mem[off..off + i] + Bytes(v, n - i)
        invariant mem[..off] == old(mem[..off])
        invariant mem[off + i..] == old(mem[off + i..])
      {
        ghost var m0 := mem[..];
        mem[off + i] := v % 0x100;
        assert mem[off..off + i + 1] == m0[off..off + i] + [v % 0x100];
        assert mem[off + i + 1..] == m0[off + i..][1..] == old(mem[off + i..])[1..];
        v := v / 0x100;
        i := i + 1;
      }
      assert Bytes(v, 0) == [];
      assert mem[..] == mem[..off] + mem[off..off + n] + mem[off + n..];
    }

    /** `cortex_emu_read8/16/32`. */
    method ReadAt(dev: Device, addr: word, n: Width) returns (v: word)
      requires Valid()
      ensures v == Read(cfg, Contents(), dev, addr, n)
      decreases IsBitband(addr), 1
    {
      if IsBitband(addr) {
        v := BitbandRead(dev, addr);
        return;
      }
      if PeriphReads(addr) && dev(addr) != NOT_HANDLED {
        var sr := dev(addr);
        v := if n == 1 then sr % 0x100 else if n == 2 then sr % 0x1_0000 else sr;
        return;
      }
      var off := Translate(cfg, addr);
      if off < 0 || off >= MEM_SIZE - (n - 1) {
        v := 0;
      } else {
        LoadFits(Contents(), off, n);
        v := LoadAt(off, n);
      }
    }

    /** `emu_bitband_read`, called only on an alias. */
    method BitbandRead(dev: Device, alias: word) returns (v: word)
      requires Valid() && IsBitband(alias)
      ensures v == Read(cfg, Contents(), dev, alias, 4)
      decreases IsBitband(alias), 0
    {
      var w := ReadAt(dev, BitbandWord(alias), 4);
      v := BitOf(w, BitbandBit(alias));
    }

    /** `cortex_emu_write8/16/32`. */
    method WriteAt(dev: Device, addr: word, n: Width, val: word)
      requires Valid()
      modifies mem
      ensures Contents() == Write(cfg, old(Contents()), dev, addr, n, val)
      decreases IsBitband(addr), 1
    {
      if IsBitband(addr) {
        BitbandWrite(dev, addr, val);
        return;
      }
      if PeriphWrites(addr) {
        return;
      }
      var off := Translate(cfg, addr);
      if off < 0 || off >= MEM_SIZE - (n - 1) || off < SRAM_OFFSET {
        return;
      }
      StoreAt(off, n, val);
    }

    /** Eight stores at ascending addresses, as exception entry makes them. */
    method WriteEight(dev: Device, addr: word, w0: word, w1: word, w2: word, w3: word,
                      w4: word, w5: word, w6: word, w7: word)
      requires Valid()
      modifies mem
      ensures Contents() == WriteWords(cfg, old(Contents()), dev, addr, [w0, w1, w2, w3, w4, w5, w6, w7])
    {
      hide Write, WriteWords;
      ghost var ws: seq<word> := [w0, w1, w2, w3, w4, w5, w6, w7];
      ghost var m0 := Contents();
      assert ws[0..] == ws;
      WriteAt(dev, Plus(addr, 0), 4, w0);
      WriteWordsStep(cfg, m0, dev, addr, ws, 0);
      ghost var m1 := Contents();
      WriteAt(dev, Plus(addr, 4), 4, w1);
      WriteWordsStep(cfg, m1, dev, addr, ws, 1);
      ghost var m2 := Contents();
      WriteAt(dev, Plus(addr, 8), 4, w2);
      WriteWordsStep(cfg, m2, dev, addr, ws, 2);
      ghost var m3 := Contents();
      WriteAt(dev, Plus(addr, 12), 4, w3);
      WriteWordsStep(cfg, m3, dev, addr, ws, 3);
      ghost var m4 := Contents();
      WriteAt(dev, Plus(addr, 16), 4, w4);
      WriteWordsStep(cfg, m4, dev, addr, ws, 4);
      ghost var m5 := Contents();
      WriteAt(dev, Plus(addr, 20), 4, w5);
      WriteWordsStep(cfg, m5, dev, addr, ws, 5);
      ghost var m6 := Contents();
      WriteAt(dev, Plus(addr, 24), 4, w6);
      WriteWordsStep(cfg, m6, dev, addr, ws, 6);
      ghost var m7 := Contents();
      WriteAt(dev, Plus(addr, 28), 4, w7);
      WriteWordsStep(cfg, m7, dev, addr, ws, 7);
      WriteNoWords(cfg, Contents(), dev, Plus(addr, 32), ws[8..]);
    }

    /** Eight loads at ascending addresses, as exception return makes them. */
    method ReadEight(dev: Device, addr: word)
      returns (w0: word, w1: word, w2: word, w3: word, w4: word, w5: word, w6: word, w7: word)
      requires Valid()
      ensures [w0, w1, w2, w3, w4, w5, w6, w7]
           == ReadWords(cfg, Contents(), dev, addr, 8)
    {
      hide Read;
      w0 := ReadAt(dev, Plus(addr, 0), 4);
      w1 := ReadAt(dev, Plus(addr, 4), 4);
      w2 := ReadAt(dev, Plus(addr, 8), 4);
      w3 := ReadAt(dev, Plus(addr, 12), 4);
      w4 := ReadAt(dev, Plus(addr, 16), 4);
      w5 := ReadAt(dev, Plus(addr, 20), 4);
      w6 := ReadAt(dev, Plus(addr, 24), 4);
      w7 := ReadAt(dev, Plus(addr, 28), 4);
    }

    /** `emu_bitband_write`, called only on an alias. */
    method BitbandWrite(dev: Device, alias: word, val: word)
      requires Valid() && IsBitband(alias)
      modifies mem
      ensures Contents() == Write(cfg, old(Contents()), dev, alias, 4, val)
      decreases IsBitband(alias), 0
    {
      var w := ReadAt(dev, BitbandWord(alias), 4);
      WriteAt(dev, BitbandWord(alias), 4, WithBit(w, BitbandBit(alias), val % 2));
    }
  }
}
