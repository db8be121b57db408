/** The emulator object: the fields of `struct cortex_emu` that the exception mechanism
    touches, and the functions of `src/cpu_exceptions.c` as methods that update them in
    place. Each is proved against the function of the same name in `Cpu`. */
module Cortex {
  import opened Words
  import opened Memory
  import opened MemoryLaws
  import opened BusModule
  import opened ShadowStack
  import Arithmetic
  import Blocks
  import Cpu
  import ItBlock

  class CortexEmu {
    const core: nat
    const bus: Bus
    const ring: ShadowRing
    var regs: Cpu.Regs
    var xpsr: word
    var it: word
    var active: int
    var primask: word
    var sleeping: bool
    var halted: bool
    var lockup: bool
    var pending: Cpu.Mask
    var enabled: Cpu.Mask
    var ipr: Cpu.Priorities
    var shpr2: word
    var shpr3: word
    var dev: Device
    var entries: word
    var exits: word
    var faults: word
    var faultCode: word

    ghost predicate Valid()
      reads ring
    {
      bus.Valid() && ring.Valid()
    }

    ghost function View(): (s: Cpu.State)
      requires Valid()
      reads this, bus.mem, ring, ring.pcs, ring.sps
    {
      Cpu.State(bus.cfg, core, regs, xpsr, it, active, primask, sleeping, halted, lockup,
                pending, enabled, ipr, shpr2, shpr3, bus.Contents(), dev, ring.View(),
                entries, exits, faults, faultCode)
    }

    /** `cortex_emu_create` and `cortex_emu_configure`: everything zero but the flash. */
    constructor (coreType: nat, cfg: Config, device: Device)
      ensures Valid() && fresh(bus.mem) && fresh(ring) && fresh(ring.pcs) && fresh(ring.sps)
      ensures View().core == coreType && View().cfg == cfg && View().dev == device
      ensures View().regs == seq(16, _ => 0) && View().xpsr == 0 && View().it == 0 && View().active == 0
      ensures View().pending == {} && View().enabled == {} && !View().lockup
      ensures View().shadow == Empty()
    {
      core := coreType;
      bus := new Bus(cfg);
      ring := new ShadowRing();
      regs := seq(16, _ => 0);
      xpsr, it, active, primask := 0, 0, 0, 0;
      sleeping, halted, lockup := false, false, false;
      pending, enabled := {}, {};
      ipr, shpr2, shpr3 := seq(8, _ => 0), 0, 0;
      dev := device;
      entries, exits, faults, faultCode := 0, 0, 0, 0;
    }

    /** `emu_enter_exception`. */
    method EnterException(n: nat)
      requires Valid() && n < 512
      modifies this, bus.mem, ring, ring.pcs, ring.sps
      ensures Valid() && View() == Cpu.EnterException(old(View()), n)
      decreases if n == Cpu.HARD_FAULT then 0 else 2
    {
      hide Cpu.TakeException;
      ghost var s := View();
      entries := Plus(entries, 1);
      var sp := Minus(regs[Cpu.SP], 32);
      ring.Record(regs[Cpu.PC], sp);
      assert View() == Cpu.Attempt(s);
      if n != Cpu.HARD_FAULT && Cpu.StackOverflow(bus.cfg, sp) {
        var _ := HardFault(Cpu.FAULT_STACK_OVERFLOW);
        return;
      }
      StackAndBranch(n, sp);
    }

    /** The rest of exception entry, once the stack guard has been passed. */
    method StackAndBranch(n: nat, sp: word)
      requires Valid() && n < 512 && sp == Minus(regs[Cpu.SP], 32)
      modifies this, bus.mem
      ensures Valid() && View() == Cpu.TakeException(old(View()), n)
    {
      hide WriteWords, Read, Cpu.PackXpsr, Cpu.WithException, Cpu.HalfwordAligned, Cpu.RegisterWrites;
      ghost var s := View();
      bus.WriteEight(dev, sp, regs[0], regs[1], regs[2], regs[3], regs[12], regs[Cpu.LR], regs[Cpu.PC],
                     Cpu.PackXpsr(xpsr, it));
      ghost var m := bus.Contents();
      assert ring.View() == s.shadow;
      assert View() == s.(mem := m);
      WriteEightRegisters(sp, regs[0], regs[1], regs[2], regs[3], regs[12], regs[Cpu.LR], regs[Cpu.PC],
                          Cpu.PackXpsr(xpsr, it));
      assert View() == Cpu.RegisterWrites(s.(mem := m), sp, Cpu.FrameWords(s));
      var vector := bus.ReadAt(dev, 4 * n, 4);
      EnterHandler(n, sp, vector);
    }

    /** The NVIC and SCB side of a store. */
    method WriteRegister(addr: word, val: word)
      requires Valid()
      modifies this`pending, this`enabled, this`ipr, this`shpr2, this`shpr3
      ensures View() == Cpu.RegisterWrite(old(View()), addr, val)
    {
      hide Cpu.BitsOf;
      if 0xE000_E100 <= addr < 0xE000_E500 {
        WriteNvic(addr, val);
      } else if addr == 0xE000_ED1C {
        shpr2 := val;
      } else if addr == 0xE000_ED20 {
        shpr3 := val;
      }
    }

    /** `emu_nvic_write`. */
    method WriteNvic(addr: word, val: word)
      requires Valid() && 0xE000_E100 <= addr < 0xE000_E500
      modifies this`pending, this`enabled, this`ipr
      ensures View() == Cpu.RegisterWrite(old(View()), addr, val)
    {
      hide Cpu.BitsOf;
      var reg := addr - 0xE000_E000;
      if reg == 0x100 {
        enabled := enabled + Cpu.BitsOf(val);
      } else if reg == 0x180 {
        enabled := enabled - Cpu.BitsOf(val);
      } else if reg == 0x200 {
        pending := pending + Cpu.BitsOf(val);
      } else if reg == 0x280 {
        pending := pending - Cpu.BitsOf(val);
      } else if 0x400 <= reg < 0x420 {
        ipr := ipr[(reg - 0x400) / 4 := val];
      }
    }

    method WriteFourRegisters(addr: word, w0: word, w1: word, w2: word, w3: word, ghost rest: seq<word>)
      requires Valid()
      modifies this`pending, this`enabled, this`ipr, this`shpr2, this`shpr3
      ensures Cpu.RegisterWrites(View(), Plus(addr, 16), rest)
           == Cpu.RegisterWrites(old(View()), addr, [w0, w1, w2, w3] + rest)
    {
      hide Cpu.RegisterWrite, Cpu.RegisterWrites, Plus;
      ghost var ws: seq<word> := [w0, w1, w2, w3] + rest;
      ghost var s0 := View();
      PlusFits(addr, 0);
      WriteRegister(addr, w0);
      ghost var s1 := View();
      WriteRegister(Plus(addr, 4), w1);
      ghost var s2 := View();
      WriteRegister(Plus(addr, 8), w2);
      ghost var s3 := View();
      WriteRegister(Plus(addr, 12), w3);
      ghost var s4 := View();
      Cpu.FourRegisterWrites(s0, s1, s2, s3, s4, addr, ws);
      assert ws[4..] == rest;
    }

    /** The same for the eight words of a frame. */
    method WriteEightRegisters(addr: word, w0: word, w1: word, w2: word, w3: word,
                               w4: word, w5: word, w6: word, w7: word)
      requires Valid()
      modifies this`pending, this`enabled, this`ipr, this`shpr2, this`shpr3
      ensures View() == Cpu.RegisterWrites(old(View()), addr, [w0, w1, w2, w3, w4, w5, w6, w7])
    {
      hide Cpu.RegisterWrite, Cpu.RegisterWrites, Plus;
      WriteFourRegisters(addr, w0, w1, w2, w3, [w4, w5, w6, w7]);
      WriteFourRegisters(Plus(addr, 16), w4, w5, w6, w7, []);
      Cpu.NoRegisterWrites(View(), Plus(Plus(addr, 16), 16), []);
      assert [w4, w5, w6, w7] + [] == [w4, w5, w6, w7];
      assert [w0, w1, w2, w3] + [w4, w5, w6, w7] == [w0, w1, w2, w3, w4, w5, w6, w7];
    }

    /** The register updates that end exception entry. */
    method EnterHandler(n: nat, sp: word, vector: word)
      requires Valid() && n < 512
      modifies this
      ensures Valid() && View() == Cpu.AfterEntry(old(View()), n, sp, vector)
    {
      hide Cpu.WithException, Cpu.HalfwordAligned;
      ghost var s := View();
      regs := Cpu.EntryRegs(regs, sp, active, vector);
      active := n;
      xpsr := Cpu.WithException(xpsr, n);
      it := 0;
      assert bus.Contents() == s.mem;
      assert ring.View() == s.shadow;
    }

    /** `emu_hard_fault`; the result is the cycle count, 0 on lockup. */
    method HardFault(code: word) returns (cycles: word)
      requires Valid()
      modifies this, bus.mem, ring, ring.pcs, ring.sps
      ensures Valid() && View() == Cpu.HardFault(old(View()), code)
      ensures cycles == if old(active) == Cpu.HARD_FAULT then 0 else 3
      decreases 1
    {
      hide Cpu.TakeException, Cpu.Attempt, Cpu.FrameAccepted, Write, Read;
      ghost var s := View();
      faults := Plus(faults, 1);
      faultCode := code;
      assert bus.Contents() == s.mem;
      assert ring.View() == s.shadow;
      assert View() == Cpu.Faulted(s, code);
      if active == Cpu.HARD_FAULT {
        lockup := true;
        halted := true;
        assert bus.Contents() == s.mem;
        assert ring.View() == s.shadow;
        return 0;
      }
      EnterException(Cpu.HARD_FAULT);
      return 3;
    }

    /** `emu_exit_exception`. */
    method ExitException()
      requires Valid()
      modifies this
      ensures Valid() && View() == Cpu.ExitException(old(View()))
    {
      hide Read, Cpu.WithoutIt, Cpu.UnpackIt, Plus, ReadWords, Cpu.Unstacked;
      ghost var s := View();
      exits := Plus(exits, 1);
      var sp := regs[Cpu.SP];
      var w0, w1, w2, w3, w4, w5, w6, stacked := bus.ReadEight(dev, sp);
      regs := regs[0 := w0][1 := w1][2 := w2][3 := w3][12 := w4][Cpu.LR := w5][Cpu.PC := w6];
      it := Cpu.UnpackIt(stacked);
      xpsr := Cpu.WithoutIt(stacked);
      regs := regs[Cpu.SP := Plus(sp, 32)];
      active := xpsr % 512;
      assert bus.Contents() == s.mem;
      assert ring.View() == s.shadow;
      Cpu.UnstackedInOrder(s.regs, [w0, w1, w2, w3, w4, w5, w6, stacked]);
    }

    /** `emu_check_pending_interrupts`. */
    method CheckPendingInterrupts()
      requires Valid()
      modifies this, bus.mem, ring, ring.pcs, ring.sps
      ensures Valid() && View() == Cpu.CheckPending(old(View()))
    {
      hide Cpu.EnterException, Cpu.IrqPriority, Cpu.SysPriority;
      ghost var s := View();
      if primask % 2 == 1 {
        return;
      }
      var activePrio := ActivePriority();
      if Cpu.SYSTICK_BIT in pending {
        var systickPrio := SysPriority(Cpu.SYSTICK);
        if active == 0 || systickPrio < activePrio {
          pending := pending - {Cpu.SYSTICK_BIT};
          assert bus.Contents() == s.mem;
          assert ring.View() == s.shadow;
          EnterException(Cpu.SYSTICK);
          return;
        }
      }
      var candidates: Cpu.Mask := pending * enabled;
      if candidates == {} {
        Cpu.SelectFindsMostUrgent(s, candidates);
        return;
      }
      var bestIrq, bestPrio := -1, 256;
      for i := 0 to Cpu.MAX_IRQ
        invariant Valid() && View() == s
        invariant -1 <= bestIrq < Cpu.MAX_IRQ && 0 <= bestPrio <= 256
        invariant Cpu.Select(s, candidates, 0, -1, 256) == Cpu.Select(s, candidates, i, bestIrq, bestPrio)
      {
        if i in candidates {
          var prio := IrqPriority(i);
          if prio < bestPrio {
            bestPrio := prio;
            bestIrq := i;
          }
        }
      }
      if bestIrq >= 0 {
        if active == 0 || bestPrio < activePrio {
          pending := pending - {bestIrq};
          assert bus.Contents() == s.mem;
          assert ring.View() == s.shadow;
          EnterException(bestIrq + 16);
        }
      }
    }

    method IrqPriority(irq: int) returns (p: nat)
      requires Valid()
      ensures p == Cpu.IrqPriority(View(), irq) <= 255
    {
      if irq < 0 || irq >= Cpu.MAX_IRQ {
        return 255;
      }
      var prio := ByteOf(ipr[irq / 4], irq % 4);
      if core <= Cpu.CORE_M0PLUS {
        return prio / 64;
      }
      return prio;
    }

    method SysPriority(exc: int) returns (p: nat)
      requires Valid()
      ensures p == Cpu.SysPriority(View(), exc)
    {
      if exc <= 3 {
        return 0;
      }
      var byteVal := 0;
      if 8 <= exc <= 11 {
        byteVal := ByteOf(shpr2, exc - 8);
      } else if 12 <= exc <= 15 {
        byteVal := ByteOf(shpr3, exc - 12);
      }
      if core <= Cpu.CORE_M0PLUS {
        return byteVal / 64;
      }
      return byteVal;
    }

    method ActivePriority() returns (p: nat)
      requires Valid()
      ensures p == Cpu.PriorityOf(View(), active)
    {
      if active == 0 {
        return 256;
      }
      if active < 16 {
        p := SysPriority(active);
      } else {
        p := IrqPriority(active - 16);
      }
    }

    // -------------------------------------------------------------- flags

    /** `addWithCarry`: the flags are cleared and then set one by one. */
    method AddWithCarry(a: word, b: word, carryIn: bool) returns (result: word)
      requires Valid()
      modifies this`xpsr
      ensures (result, xpsr) == Arithmetic.AddWithCarry(old(xpsr), a, b, carryIn)
    {
      var sum := a + b + Arithmetic.Bit(carryIn);
      result := Wrap(sum);
      var negative := Arithmetic.Negative(result);
      var overflow := Arithmetic.Negative(a) != negative && Arithmetic.Negative(b) != negative;
      var x: nat := xpsr % 0x1000_0000;
      if negative {
        x := x + 0x8000_0000;
      }
      if result == 0 {
        x := x + 0x4000_0000;
      }
      if sum > 0xFFFF_FFFF {
        x := x + 0x2000_0000;
      }
      if overflow {
        x := x + 0x1000_0000;
      }
      xpsr := x;
    }

    /** `setNZ`. */
    method SetNZ(result: word)
      requires Valid()
      modifies this`xpsr
      ensures xpsr == Arithmetic.SetNZ(old(xpsr), result)
    {
      var x: nat := xpsr % 0x4000_0000;
      if Arithmetic.Negative(result) {
        x := x + 0x8000_0000;
      }
      if result == 0 {
        x := x + 0x4000_0000;
      }
      xpsr := x;
    }

    /** `setNZC`. */
    method SetNZC(result: word, carry: bool)
      requires Valid()
      modifies this`xpsr
      ensures xpsr == Arithmetic.SetNZC(old(xpsr), result, carry)
    {
      var x: nat := xpsr % 0x2000_0000;
      if Arithmetic.Negative(result) {
        x := x + 0x8000_0000;
      }
      if result == 0 {
        x := x + 0x4000_0000;
      }
      if carry {
        x := x + 0x2000_0000;
      }
      xpsr := x;
    }

    /** `signedSat32`: values outside the range of a word are clamped and set Q. */
    method SignedSat32(val: int) returns (r: word)
      requires Valid()
      modifies this`xpsr
      ensures Arithmetic.Signed(r) == if val > 0x7FFF_FFFF then 0x7FFF_FFFF
          else if val < -0x8000_0000 then -0x8000_0000 else val
      ensures xpsr == if -0x8000_0000 <= val <= 0x7FFF_FFFF then old(xpsr) else Arithmetic.SetQ(old(xpsr))
    {
      if val > 0x7FFF_FFFF {
        xpsr := Arithmetic.SetQ(xpsr);
        return 0x7FFF_FFFF;
      }
      if val < -0x8000_0000 {
        xpsr := Arithmetic.SetQ(xpsr);
        return 0x8000_0000;
      }
      return Wrap(val);
    }

    /** The IT part of `cortex_emu_step`: whether the fetched instruction is executed. */
    method ConsumeIt() returns (execute: bool)
      requires Valid()
      modifies this`it
      ensures execute == (old(it) % 16 == 0 || Cpu.Condition(xpsr, old(it) / 16))
      ensures it == if old(it) % 16 == 0 then old(it) else ItBlock.AdvanceIt(old(it))
    {
      hide Cpu.Condition;
      execute := true;
      if it % 16 != 0 {
        execute := Cpu.Condition(xpsr, it / 16);
        it := it / 32 % 8 * 32 + (2 * it) % 32;
        if it % 16 == 0 {
          it := 0;
        }
      }
    }

    // -------------------------------------------------------------- block transfers

    /** The register count of PUSH (`n` = 8) or STMDB (`n` = 16). */
    method CountRegisters(list: Blocks.RegList, n: nat) returns (count: nat)
      requires n <= 16
      ensures count == Blocks.Rank(list, n)
    {
      count := 0;
      for i := 0 to n
        invariant count == Blocks.Rank(list, i)
      {
        if i in list {
          count := count + 1;
        }
      }
    }

    /** The store loop over the listed registers below `n`. */
    method StoreRegisters(list: Blocks.RegList, base: word, n: nat) returns (addr: word)
      requires Valid() && n <= 16
      modifies bus.mem
      ensures (bus.Contents(), addr) == Blocks.StoreLoop(bus.cfg, old(bus.Contents()), dev, regs, list, base, 0, n)
    {
      hide Write;
      addr := base;
      for i := 0 to n
        invariant Blocks.StoreLoop(bus.cfg, bus.Contents(), dev, regs, list, addr, i, n)
               == Blocks.StoreLoop(bus.cfg, old(bus.Contents()), dev, regs, list, base, 0, n)
      {
        if i in list {
          bus.WriteAt(dev, addr, 4, regs[i]);
          addr := Plus(addr, 4);
        }
      }
    }

    /** The load loop over the listed registers below `n`. */
    method LoadRegisters(list: Blocks.RegList, base: word, n: nat) returns (addr: word)
      requires Valid() && n <= 16
      modifies this`regs
      ensures (regs, addr) == Blocks.LoadLoop(bus.cfg, bus.Contents(), dev, old(regs), list, base, 0, n)
    {
      hide Read;
      addr := base;
      for i := 0 to n
        invariant Blocks.LoadLoop(bus.cfg, bus.Contents(), dev, regs, list, addr, i, n)
               == Blocks.LoadLoop(bus.cfg, bus.Contents(), dev, old(regs), list, base, 0, n)
      {
        if i in list {
          var w := bus.ReadAt(dev, addr, 4);
          regs := regs[i := w];
          addr := Plus(addr, 4);
        }
      }
    }

    /** PUSH; the result is the cycle count of the instruction or of the fault it ends in. */
    method Push(list: Blocks.RegList, pushLR: bool) returns (cycles: word)
      requires Valid()
      modifies this, bus.mem, ring, ring.pcs, ring.sps
      ensures Valid() && View() == Blocks.Push(old(View()), list, pushLR)
    {
      hide Write, Blocks.StoreLoop, Cpu.HardFault, Cpu.StackOverflow, Blocks.PushStores;
      PushRegisters(list, pushLR);
      if Cpu.StackOverflow(bus.cfg, regs[Cpu.SP]) {
        cycles := HardFault(Cpu.FAULT_STACK_OVERFLOW);
      } else {
        cycles := 2;
      }
    }

    method PushRegisters(list: Blocks.RegList, pushLR: bool)
      requires Valid()
      modifies this, bus.mem, ring, ring.pcs, ring.sps
      ensures Valid() && View() == Blocks.PushStores(old(View()), list, pushLR)
    {
      hide Write, Blocks.StoreLoop, Blocks.Rank, Minus, Plus;
      ghost var s := View();
      var count := CountRegisters(list, 8);
      if pushLR {
        count := count + 1;
      }
      var sp := Minus(regs[Cpu.SP], 4 * count);
      Blocks.StoreIgnoresSp(bus.cfg, bus.Contents(), dev, regs, sp, list, sp, 0);
      regs := regs[Cpu.SP := sp];
      assert bus.Contents() == s.mem;
      var addr := StoreRegisters(list, sp, 8);
      if pushLR {
        bus.WriteAt(dev, addr, 4, regs[Cpu.LR]);
      }
      ghost var m := bus.Contents();
      assert m == Blocks.PushStores(s, list, pushLR).mem;
      assert ring.View() == s.shadow;
      ring.Record(Minus(regs[Cpu.PC], 2), sp);
      assert bus.Contents() == m;
      assert ring.View() == Blocks.PushStores(s, list, pushLR).shadow;
    }

    /** POP. */
    method Pop(list: Blocks.RegList, popPC: bool) returns (cycles: word)
      requires Valid()
      modifies this
      ensures Valid() && View() == Blocks.Pop(old(View()), list, popPC)
    {
      hide Read, Blocks.LoadLoop, Cpu.ExitException, Blocks.IsExcReturn, Cpu.HalfwordAligned;
      ghost var s := View();
      var addr := LoadRegisters(list, regs[Cpu.SP], 8);
      assert bus.Contents() == s.mem;
      assert ring.View() == s.shadow;
      if popPC {
        var newPC := bus.ReadAt(dev, addr, 4);
        addr := Plus(addr, 4);
        regs := regs[Cpu.SP := addr];
        assert bus.Contents() == s.mem;
        assert ring.View() == s.shadow;
        assert (View(), newPC) == Blocks.PopLoads(s, list, true);
        if Blocks.IsExcReturn(newPC) {
          ExitException();
        } else {
          regs := regs[Cpu.PC := Cpu.HalfwordAligned(newPC)];
          assert bus.Contents() == s.mem;
          assert ring.View() == s.shadow;
        }
        return 4;
      }
      regs := regs[Cpu.SP := addr];
      assert bus.Contents() == s.mem;
      assert ring.View() == s.shadow;
      return 2;
    }

    /** STMIA over the registers below `n`. */
    method StoreIncrementAfter(rn: nat, writeBack: bool, list: Blocks.RegList, n: nat)
      requires Valid() && rn < 16 && n <= 16
      modifies this`regs, bus.mem
      ensures Valid() && View() == Blocks.Stmia(old(View()), rn, writeBack, list, n)
    {
      hide Blocks.StoreLoop;
      ghost var s := View();
      var addr := StoreRegisters(list, regs[rn], n);
      if writeBack {
        regs := regs[rn := addr];
      }
      assert ring.View() == s.shadow;
    }

    /** STMDB. */
    method StoreDecrementBefore(rn: nat, writeBack: bool, list: Blocks.RegList)
      requires Valid() && rn < 16
      modifies this`regs, bus.mem
      ensures Valid() && View() == Blocks.Stmdb(old(View()), rn, writeBack, list)
    {
      hide Blocks.StoreLoop, Blocks.Rank;
      ghost var s := View();
      var count := CountRegisters(list, 16);
      var addr := Minus(regs[rn], 4 * count);
      if writeBack {
        regs := regs[rn := addr];
      }
      assert bus.Contents() == s.mem;
      var _ := StoreRegisters(list, addr, 16);
      assert ring.View() == s.shadow;
    }

    /** LDMIA. */
    method LoadIncrementAfter(rn: nat, writeBack: bool, list: Blocks.RegList)
      requires Valid() && rn < 16
      modifies this
      ensures Valid() && View() == Blocks.Ldmia(old(View()), rn, writeBack, list)
    {
      hide Blocks.LoadLoop, Cpu.ExitException;
      ghost var s := View();
      var addr := LoadRegisters(list, regs[rn], 16);
      if writeBack && rn !in list {
        regs := regs[rn := addr];
      }
      assert bus.Contents() == s.mem;
      assert ring.View() == s.shadow;
      assert View() == Blocks.LdmiaLoads(s, rn, writeBack, list);
      BranchIfLoaded(list);
    }

    /** LDMDB. */
    method LoadDecrementBefore(rn: nat, writeBack: bool, list: Blocks.RegList)
      requires Valid() && rn < 16
      modifies this
      ensures Valid() && View() == Blocks.Ldmdb(old(View()), rn, writeBack, list)
    {
      hide Blocks.LoadLoop, Cpu.ExitException, Blocks.Rank;
      ghost var s := View();
      var count := CountRegisters(list, 16);
      var addr := Minus(regs[rn], 4 * count);
      if writeBack {
        regs := regs[rn := addr];
      }
      assert bus.Contents() == s.mem;
      var _ := LoadRegisters(list, addr, 16);
      assert bus.Contents() == s.mem;
      assert ring.View() == s.shadow;
      assert View() == Blocks.LdmdbLoads(s, rn, writeBack, list);
      BranchIfLoaded(list);
    }

    /** The branch at the end of LDMIA and LDMDB. */
    method BranchIfLoaded(list: Blocks.RegList)
      requires Valid()
      modifies this
      ensures Valid()
      ensures View() == var s := old(View());
        if Cpu.PC !in list then s
        else if Blocks.IsExcReturn(s.regs[Cpu.PC]) then Cpu.ExitException(s)
        else s.(regs := s.regs[Cpu.PC := Cpu.HalfwordAligned(s.regs[Cpu.PC])])
    {
      hide Cpu.ExitException, Blocks.IsExcReturn, Cpu.HalfwordAligned;
      ghost var s := View();
      if Cpu.PC in list {
        if Blocks.IsExcReturn(regs[Cpu.PC]) {
          ExitException();
          return;
        }
        regs := regs[Cpu.PC := Cpu.HalfwordAligned(regs[Cpu.PC])];
        assert bus.Contents() == s.mem;
        assert ring.View() == s.shadow;
      }
    }
  }
}
