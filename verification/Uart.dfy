/** The UART transmit rings (`src/periph_uart.c`, `cortex_emu_uart_read_tx`): two rings of 16
    slots in one shared buffer, each a queue that drops what does not fit. */
module Uart {
  import opened Words
  import Cpu

  const UART_COUNT: nat := 2
  const TX_SIZE: nat := 16

  type Mask = Cpu.Mask
  type Buffer = b: seq<byte> | |b| == UART_COUNT * TX_SIZE witness seq(UART_COUNT * TX_SIZE, _ => 0)

  /** The registers of one UART that transmission touches, and its ring indices. */
  datatype Port = Port(cr1: Mask, isr: Mask, tdr: word, head: nat, tail: nat, count: nat)

  type Ports = p: seq<Port> | |p| == UART_COUNT witness seq(UART_COUNT, _ => Port({}, {6, 7}, 0, 0, 0, 0))

  datatype State = State(buf: Buffer, port: Ports, pending: Mask)

  function Reset(): State {
    State(seq(UART_COUNT * TX_SIZE, _ => 0), seq(UART_COUNT, _ => Port({}, {6, 7}, 0, 0, 0, 0)), {})
  }

  predicate ValidPort(p: Port) {
    p.head < TX_SIZE && p.tail < TX_SIZE && p.count <= TX_SIZE && p.head == (p.tail + p.count) % TX_SIZE
  }

  ghost predicate Valid(s: State) {
    forall u :: 0 <= u < UART_COUNT ==> ValidPort(s.port[u])
  }

  function Slot(u: nat, i: nat): (k: nat)
    requires u < UART_COUNT
    ensures u * TX_SIZE <= k < u * TX_SIZE + TX_SIZE
  {
    u * TX_SIZE + i % TX_SIZE
  }

  /** The byte `j` places behind the oldest one of ring `u`. */
  function At(s: State, u: nat, j: nat): byte
    requires u < UART_COUNT
  {
    s.buf[Slot(u, s.port[u].tail + j)]
  }

  /** The bytes waiting in ring `u`, oldest first. */
  function Queue(s: State, u: nat): (q: seq<byte>)
    requires u < UART_COUNT
    ensures |q| == s.port[u].count
    ensures forall j :: 0 <= j < |q| ==> q[j] == At(s, u, j)
  {
    seq(s.port[u].count, j requires j >= 0 => At(s, u, j))
  }

  /** A write to TDR: the byte is stored if there is room; the flags and the interrupt
      request do not depend on that. */
  function Send(s: State, u: nat, val: word): State
    requires u < UART_COUNT && ValidPort(s.port[u])
  {
    var p := s.port[u];
    var room := p.count < TX_SIZE;
    State(
      if room then s.buf[Slot(u, p.head) := val % 0x100] else s.buf,
      s.port[u := p.(tdr := val % 0x200,
                     isr := p.isr + {6, 7},
                     head := if room then (p.head + 1) % TX_SIZE else p.head,
                     count := if room then p.count + 1 else p.count)],
      s.pending + (if 7 in p.cr1 || 6 in p.cr1 then {if u == 0 then 27 else 28} else {}))
  }

  /** Removing the oldest byte. */
  function Taken(s: State, u: nat): State
    requires u < UART_COUNT && s.port[u].count > 0
  {
    var p := s.port[u];
    s.(port := s.port[u := p.(tail := (p.tail + 1) % TX_SIZE, count := p.count - 1)])
  }

  /** `cortex_emu_uart_read_tx`: the oldest byte, or -1. The index is cast to `int32_t`, and
      from 2^31 on the code reads outside its arrays. */
  function ReadTx(s: State, u: nat): (r: (int, State))
    requires u < 0x8000_0000
  {
    if u >= UART_COUNT || s.port[u].count == 0 then (-1, s)
    else
      var data: int := At(s, u, 0);
      (data, Taken(s, u))
  }

  /** What a TDR write does besides the ring, room or no room: TDR keeps nine bits, TXE and TC
      (7 and 6) come up, and interrupt 27 for the first UART or 28 for the second becomes
      pending if CR1 enables either. */
  lemma SendAsks(s: State, u: nat, val: word, k: nat)
    requires u < UART_COUNT && ValidPort(s.port[u])
    ensures var e := Send(s, u, val);
      && e.port[u].tdr == val % 512 && e.port[u].cr1 == s.port[u].cr1 && e.port[u].tail == s.port[u].tail
      && (k in e.port[u].isr <==> k in s.port[u].isr || k == 6 || k == 7)
      && (k in e.pending <==> k in s.pending || (k == 27 + u && (6 in s.port[u].cr1 || 7 in s.port[u].cr1)))
      && e.port[1 - u] == s.port[1 - u]
  {
    hide Slot;
  }

  /** Out of reset both ports are idle, with TXE and TC up, no interrupt enabled or asked for,
      and nothing waiting. */
  lemma ResetIsIdle(u: nat)
    requires u < UART_COUNT
    ensures Reset().port[u] == Port({}, {6, 7}, 0, 0, 0, 0) && Queue(Reset(), u) == [] && Reset().pending == {}
    ensures forall i :: 0 <= i < 32 ==> Reset().buf[i] == 0
  {
  }

  // ---------------------------------------------------------------- refinement of a queue

  lemma SlotsDiffer(u: nat, v: nat, i: nat, j: nat)
    requires u < UART_COUNT && v < UART_COUNT
    requires u != v || (i < j < i + TX_SIZE)
    ensures Slot(u, i) != Slot(v, j)
  {
  }

  lemma SlotWraps(u: nat, i: nat)
    requires u < UART_COUNT
    ensures Slot(u, i % TX_SIZE) == Slot(u, i)
    ensures Slot(u, (i % TX_SIZE) + 1) == Slot(u, i + 1)
  {
  }

  lemma HeadSlot(u: nat, i: nat)
    requires u < UART_COUNT
    ensures i < TX_SIZE ==> Slot(u, i) == u * TX_SIZE + i
  {
  }

  lemma Turns(t: nat, n: nat)
    ensures ((t + n) % TX_SIZE + 1) % TX_SIZE == (t + (n + 1)) % TX_SIZE
    ensures ((t + 1) % TX_SIZE + n) % TX_SIZE == (t + (n + 1)) % TX_SIZE
  {
    DivMod(t + n, TX_SIZE);
    AddMultiple(TX_SIZE, (t + n) / TX_SIZE, (t + n) % TX_SIZE + 1);
    DivMod(t + 1, TX_SIZE);
    AddMultiple(TX_SIZE, (t + 1) / TX_SIZE, (t + 1) % TX_SIZE + n);
  }

  lemma SendKeepsValid(s: State, u: nat, val: word)
    requires u < UART_COUNT && Valid(s)
    ensures Valid(Send(s, u, val))
  {
    var p := s.port[u];
    assert ValidPort(p);
    Turns(p.tail, p.count);
    forall w | 0 <= w < UART_COUNT ensures ValidPort(Send(s, u, val).port[w]) {
      assert ValidPort(s.port[w]);
    }
  }

  /** The slot a byte is stored in holds no other waiting byte. */
  lemma SendKeepsByte(s: State, u: nat, val: word, v: nat, j: nat)
    requires u < UART_COUNT && v < UART_COUNT && Valid(s) && j < s.port[v].count
    ensures At(Send(s, u, val), v, j) == At(s, v, j)
  {
    hide Slot;
    var p := s.port[u];
    assert ValidPort(p);
    SlotWraps(u, p.tail + p.count);
    if p.count < TX_SIZE {
      SlotsDiffer(v, u, s.port[v].tail + j, p.tail + p.count);
    }
  }

  /** Sending appends to its own queue when it holds fewer than 16 bytes, and is dropped
      otherwise; the other queue is not touched. */
  lemma SendAppends(s: State, u: nat, val: word, v: nat)
    requires u < UART_COUNT && v < UART_COUNT && Valid(s)
    ensures Valid(Send(s, u, val))
    ensures Queue(Send(s, u, val), v) ==
            if v == u && |Queue(s, u)| < 16 then Queue(s, u) + [val % 0x100] else Queue(s, v)
  {
    SendKeepsValid(s, u, val);
    var s' := Send(s, u, val);
    var q, q' := Queue(s, v), Queue(s', v);
    forall j | 0 <= j < |q| ensures q'[j] == q[j] {
      SendKeepsByte(s, u, val, v, j);
      assert At(s', v, j) == At(s, v, j);
    }
    if v == u && |q| < TX_SIZE {
      SentByte(s, u, val);
      assert q' == q + [val % 0x100];
    } else {
      assert q' == q;
    }
  }

  lemma SentByte(s: State, u: nat, val: word)
    requires u < UART_COUNT && Valid(s) && s.port[u].count < TX_SIZE
    ensures At(Send(s, u, val), u, s.port[u].count) == val % 0x100
  {
    hide Slot;
    var p := s.port[u];
    assert ValidPort(p);
    SlotWraps(u, p.tail + p.count);
  }

  lemma TakeKeepsValid(s: State, u: nat)
    requires u < UART_COUNT && Valid(s) && s.port[u].count > 0
    ensures Valid(Taken(s, u))
  {
    var p := s.port[u];
    assert ValidPort(p);
    Turns(p.tail, p.count - 1);
    forall w | 0 <= w < UART_COUNT ensures ValidPort(Taken(s, u).port[w]) {
      assert ValidPort(s.port[w]);
    }
  }

  lemma TakeShifts(s: State, u: nat, j: nat)
    requires u < UART_COUNT && s.port[u].count > 0
    ensures At(Taken(s, u), u, j) == At(s, u, j + 1)
  {
    hide Slot;
    SameSlot(u, s.port[u].tail, j);
  }

  lemma SameSlot(u: nat, t: nat, j: nat)
    requires u < UART_COUNT
    ensures Slot(u, (t + 1) % TX_SIZE + j) == Slot(u, t + (j + 1))
  {
    Turns(t, j);
  }

  /** Reading takes the oldest byte of its own queue, or reports an empty one; the other
      queue is not touched. */
  lemma ReadTakesFirst(s: State, u: nat, v: nat)
    requires u < UART_COUNT && v < UART_COUNT && Valid(s)
    ensures Valid(ReadTx(s, u).1)
    ensures if Queue(s, u) == [] then ReadTx(s, u) == (-1, s)
            else
              && ReadTx(s, u).0 == Queue(s, u)[0]
              && Queue(ReadTx(s, u).1, v) == if v == u then Queue(s, u)[1..] else Queue(s, v)
  {
    hide Send;
    if s.port[u].count > 0 {
      TakeKeepsValid(s, u);
      var s' := Taken(s, u);
      var q, q' := Queue(s, v), Queue(s', v);
      forall j | 0 <= j < |q'| ensures q'[j] == if v == u then q[j + 1] else q[j] {
        if v == u {
          TakeShifts(s, u, j);
        }
        assert q'[j] == At(s', v, j);
      }
      if v == u {
        assert q' == q[1..];
      } else {
        assert q' == q;
      }
    }
  }

  // ---------------------------------------------------------------- whole runs

  /** A TDR write, a read by the host, or anything else that changes the control and status
      registers and the interrupt requests but not the rings. */
  datatype Event = Write(u: nat, val: word) | Take(u: nat) | Control(u: nat, cr1: Mask, isr: Mask, irqs: Mask)

  predicate ValidEvent(e: Event) {
    e.u < UART_COUNT
  }

  function After(s: State, e: Event): (s': State)
    requires Valid(s) && ValidEvent(e)
    ensures Valid(s')
  {
    match e
    case Write(u, val) => SendKeepsValid(s, u, val); Send(s, u, val)
    case Take(u) => ReadTakesFirst(s, u, u); ReadTx(s, u).1
    case Control(u, cr1, isr, irqs) =>
      assert ValidPort(s.port[u]);
      var s' := s.(port := s.port[u := s.port[u].(cr1 := cr1, isr := isr)], pending := irqs);
      assert forall w :: 0 <= w < UART_COUNT ==> ValidPort(s.port[w]) ==> ValidPort(s'.port[w]);
      s'
  }

  /** The bytes that event `e` gets accepted on ring `u`: one if it is a write to a ring with
      room. */
  function Accepts(s: State, e: Event, u: nat): seq<byte>
    requires u < UART_COUNT
  {
    if e.Write? && e.u == u && |Queue(s, u)| < 16 then [e.val % 0x100] else []
  }

  /** The bytes that event `e` hands to the host from ring `u`. */
  function Delivers(s: State, e: Event, u: nat): seq<byte>
    requires u < UART_COUNT
  {
    if e.Take? && e.u == u && ReadTx(s, u).0 != -1 then [At(s, u, 0)] else []
  }

  predicate ValidEvents(events: seq<Event>) {
    forall k :: 0 <= k < |events| ==> ValidEvent(events[k])
  }

  function Run(s: State, events: seq<Event>): (s': State)
    requires Valid(s) && ValidEvents(events)
    ensures Valid(s')
    decreases |events|
  {
    if |events| == 0 then s else Run(After(s, events[0]), events[1..])
  }

  function Accepted(s: State, events: seq<Event>, u: nat): seq<byte>
    requires u < UART_COUNT && Valid(s) && ValidEvents(events)
    decreases |events|
  {
    if |events| == 0 then [] else Accepts(s, events[0], u) + Accepted(After(s, events[0]), events[1..], u)
  }

  function Delivered(s: State, events: seq<Event>, u: nat): seq<byte>
    requires u < UART_COUNT && Valid(s) && ValidEvents(events)
    decreases |events|
  {
    if |events| == 0 then [] else Delivers(s, events[0], u) + Delivered(After(s, events[0]), events[1..], u)
  }

  /** One event keeps the balance: what waited plus what is accepted is what is delivered
      plus what waits. */
  lemma EventBalances(s: State, e: Event, u: nat)
    requires u < UART_COUNT && Valid(s) && ValidEvent(e)
    ensures Queue(s, u) + Accepts(s, e, u) == Delivers(s, e, u) + Queue(After(s, e), u)
  {
    hide Slot, Send, ReadTx;
    match e
    case Write(w, val) =>
      SendAppends(s, w, val, u);
    case Take(w) =>
      ReadTakesFirst(s, w, u);
      if w == u && Queue(s, u) != [] {
        assert Queue(s, u) == [Queue(s, u)[0]] + Queue(s, u)[1..];
      }
    case Control(w, cr1, isr, irqs) =>
      assert Queue(After(s, e), u) == Queue(s, u);
  }

  lemma QueueFits(s: State, u: nat)
    requires u < UART_COUNT && Valid(s)
    ensures |Queue(s, u)| <= 16
  {
    assert ValidPort(s.port[u]);
  }

  /** Over any interleaving of writes, reads and control accesses on both UARTs, each ring is
      a first-in first-out queue of its own: what waited at the start followed by what was
      accepted is what was delivered followed by what still waits, at most 16 bytes. */
  lemma {:induction false} RingsAreQueues(s: State, events: seq<Event>, u: nat)
    requires u < UART_COUNT && Valid(s) && ValidEvents(events)
    ensures Queue(s, u) + Accepted(s, events, u) == Delivered(s, events, u) + Queue(Run(s, events), u)
    ensures |Queue(Run(s, events), u)| <= 16
    decreases |events|
  {
    hide Queue, Accepts, Delivers, After;
    QueueFits(s, u);
    if |events| > 0 {
      var e, s' := events[0], After(s, events[0]);
      assert ValidEvent(e);
      EventBalances(s, e, u);
      RingsAreQueues(s', events[1..], u);
      Rearranged(Queue(s, u), Accepts(s, e, u), Delivers(s, e, u), Queue(s', u),
                 Accepted(s', events[1..], u), Delivered(s', events[1..], u), Queue(Run(s, events), u));
    }
  }

  lemma Rearranged<T>(q: seq<T>, a: seq<T>, d: seq<T>, q': seq<T>, a': seq<T>, d': seq<T>, q'': seq<T>)
    requires q + a == d + q' && q' + a' == d' + q''
    ensures q + (a + a') == (d + d') + q''
  {
    calc {
      q + (a + a');
      (q + a) + a';
      d + (q' + a');
      (d + d') + q'';
    }
  }

  /** From reset, what the host has read is a prefix of what was accepted, and nothing is lost:
      the rest is still waiting. */
  lemma FromReset(events: seq<Event>, u: nat)
    requires u < UART_COUNT && ValidEvents(events)
    ensures Valid(Reset())
    ensures var accepted, delivered := Accepted(Reset(), events, u), Delivered(Reset(), events, u);
      delivered <= accepted && accepted[|delivered|..] == Queue(Run(Reset(), events), u)
  {
    RingsAreQueues(Reset(), events, u);
    assert Queue(Reset(), u) == [];
    assert Queue(Reset(), u) + Accepted(Reset(), events, u) == Accepted(Reset(), events, u);
  }

  // ---------------------------------------------------------------- in place

  class UartPair {
    const buf: array<byte>
    var port: Ports
    var pending: Mask

    ghost predicate ValidPair()
      reads this
    {
      buf.Length == UART_COUNT * TX_SIZE && ValidPort(port[0]) && ValidPort(port[1])
    }

    ghost function View(): (s: State)
      requires ValidPair()
      reads this, buf
    {
      State(buf[..], port, pending)
    }

    /** `emu_uart_reset`. */
    constructor ()
      ensures ValidPair() && fresh(buf) && View() == Reset()
    {
      buf := new byte[UART_COUNT * TX_SIZE](_ => 0);
      port := seq(UART_COUNT, _ => Port({}, {6, 7}, 0, 0, 0, 0));
      pending := {};
    }

    /** A write to TDR. */
    method WriteTdr(u: nat, val: word)
      requires ValidPair() && u < UART_COUNT
      modifies this, buf
      ensures ValidPair() && View() == Send(old(View()), u, val)
    {
      hide Slot;
      ghost var s := View();
      HeadSlot(u, port[u].head);
      SendKeepsValid(s, u, val);
      var p := port[u].(tdr := val % 0x200);
      if p.count < TX_SIZE {
        buf[u * TX_SIZE + p.head] := val % 0x100;
        p := p.(head := (p.head + 1) % TX_SIZE, count := p.count + 1);
      }
      p := p.(isr := p.isr + {6, 7});
      if 7 in p.cr1 || 6 in p.cr1 {
        pending := pending + {if u == 0 then 27 else 28};
      }
      port := port[u := p];
      assert buf[..] == Send(s, u, val).buf;
      assert port == Send(s, u, val).port;
    }

    /** `cortex_emu_uart_read_tx`. */
    method Read(u: nat) returns (data: int)
      requires ValidPair() && u < 0x8000_0000
      modifies this
      ensures ValidPair() && (data, View()) == ReadTx(old(View()), u)
    {
      if u >= UART_COUNT {
        return -1;
      }
      if port[u].count == 0 {
        return -1;
      }
      hide Slot;
      HeadSlot(u, port[u].tail);
      TakeKeepsValid(View(), u);
      var tail := port[u].tail;
      data := buf[u * TX_SIZE + tail];
      port := port[u := port[u].(tail := (tail + 1) % TX_SIZE, count := port[u].count - 1)];
    }
  }
}
