/** The rpi4 handlers, which change the virtual interrupt controller, the virtual UART and the physical timer's
    enable bit, refine the transition system of `Handshake`. */
module Rpi4 {
  import opened Arithmetic
  import Gicv2
  import Pl011
  import Handshake

  /** `PL011_INT_ID` */
  const PL011_INT_ID: nat := 33

  /** The events of a burst of received bytes. */
  ghost function Burst(bytes: seq<nat>): seq<Handshake.Event>
  {
    seq(|bytes|, i requires 0 <= i < |bytes| => Handshake.UartByte(bytes[i]))
  }

  lemma {:induction false} BurstFeasible(s: Handshake.State, es: seq<Handshake.Event>, timer: nat)
    requires forall e <- es :: e.UartByte?
    ensures Handshake.Feasible(s, es, timer)
    decreases |es|
  {
    if es != [] {
      assert es[0] in es;
      BurstFeasible(Handshake.Step(s, es[0], timer), es[1..], timer);
    }
  }

  lemma LeastUnique(s: set<nat>, x: nat)
    requires Least(s, x)
    ensures s != {} && Handshake.Lowest(s) == x
  {
  }

  class Machine {
    const gic: Gicv2.VirtualGic
    const uart: Pl011.Receiver
    const timer: nat
    /** The physical timer's bit in the enable registers. */
    var timerOn: bool
    ghost var active: multiset<nat>

    ghost predicate Valid()
      reads this, gic, uart, uart.buffer
    {
      gic.Valid() && uart.Valid() && timer < 32
    }

    ghost function State(): Handshake.State
      reads this, gic, uart, uart.buffer
    {
      Handshake.State(
        gic.Pending(), active, timerOn, uart.Queued(),
        Pl011.RxBit(uart.rawInterruptStatus), Pl011.RxBit(uart.interruptMask))
    }

    constructor (timer: nat)
      requires timer < 32
      ensures Valid() && State() == Handshake.BOOT && this.timer == timer
      ensures fresh(gic) && fresh(uart) && fresh(uart.buffer)
    {
      this.timer, timerOn, active := timer, true, multiset{};
      gic := new Gicv2.VirtualGic();
      uart := new Pl011.Receiver();
    }

    /** `irq_handler`: the physical controller delivers the timer only while it is enabled. */
    method IrqHandler(intId: nat, pl011IntId: nat, received: seq<nat>)
      requires Valid() && (intId == timer && intId != pl011IntId ==> timerOn)
      modifies this, gic, uart, uart.buffer
      ensures Valid() && uart.buffer == old(uart.buffer)
      ensures Handshake.Feasible(old(State()), Burst(received), timer)
      ensures State() ==
        if intId == pl011IntId then Handshake.Run(old(State()), Burst(received), timer)
        else if intId == timer then Handshake.Step(old(State()), Handshake.TimerIrq, timer)
        else old(State())
    {
      hide Handshake.Run, Handshake.Feasible, Pl011.Queue, Pl011.Tidy, Pl011.RxBit, Pl011.OnlyRx;
      BurstFeasible(State(), Burst(received), timer);
      if intId == pl011IntId {
        InputUart(received);
      } else if intId == timer {
        timerOn := false;
        gic.Inject(timer);
      }
    }

    /** `input_uart` pushes every byte that the physical UART holds. */
    method InputUart(received: seq<nat>)
      requires Valid()
      modifies this, gic, uart, uart.buffer
      ensures Valid() && uart.buffer == old(uart.buffer)
      ensures Handshake.Feasible(old(State()), Burst(received), timer)
      ensures State() == Handshake.Run(old(State()), Burst(received), timer)
    {
      hide Handshake.Run, Handshake.Feasible, Handshake.Step, Pl011.Queue, Pl011.Tidy, Pl011.RxBit, Pl011.OnlyRx;
      ghost var s := State();
      Handshake.StartRun(s, timer);
      assert Burst(received[..0]) == [];
      for i := 0 to |received|
        invariant Valid() && uart.buffer == old(uart.buffer)
        invariant Handshake.Feasible(s, Burst(received[..i]), timer)
        invariant State() == Handshake.Run(s, Burst(received[..i]), timer)
      {
        Handshake.Appended(s, Burst(received[..i]), Handshake.UartByte(received[i]), timer);
        assert Burst(received[..i]) + [Handshake.UartByte(received[i])] == Burst(received[..i + 1]);
        PushByte(received[i]);
      }
      assert received[..|received|] == received;
    }

    method PushByte(data: nat)
      requires Valid()
      modifies this, gic, uart, uart.buffer
      ensures Valid() && uart.buffer == old(uart.buffer)
      ensures State() == Handshake.Step(old(State()), Handshake.UartByte(data), timer)
    {
      hide Pl011.Queue, Pl011.Tidy, Pl011.RxBit, Pl011.OnlyRx, Pl011.Arrived;
      var inject := uart.Push(data);
      if inject {
        gic.Inject(PL011_INT_ID);
      }
    }

    /** The guest's read of GICC_IAR. */
    method ReadIar() returns (id: nat)
      requires Valid()
      modifies this, gic
      ensures Valid() && State() == Handshake.Step(old(State()), Handshake.ReadIar, timer)
      ensures id == if old(State()).pending == {} then 1023 else Handshake.Lowest(old(State()).pending)
    {
      hide Pl011.Queue, Pl011.Tidy, Pl011.RxBit, Pl011.OnlyRx;
      ghost var was := gic.Pending();
      id := gic.Acknowledge();
      if was != {} {
        LeastUnique(was, id);
        active := active + multiset{id};
      }
    }

    /** A receive interrupt that is still visible when the guest ends it is injected again. */
    method Reinject()
      requires Valid()
      modifies gic
      ensures Valid()
      ensures gic.Pending() == old(gic.Pending()) + if State().rxris && State().rxim then {33} else {}
    {
      var pending := uart.IsRxPending();
      if pending {
        gic.Inject(PL011_INT_ID);
      }
    }

    /** The guest's write of GICC_EOIR. */
    method WriteEoir(value: nat)
      requires Valid()
      modifies this, gic
      ensures Valid() && State() == Handshake.Step(old(State()), Handshake.WriteEoir(value), timer)
    {
      hide Pl011.Queue, Pl011.Tidy, Pl011.RxBit, Pl011.OnlyRx;
      var id := value % 0x400;
      if id == timer {
        timerOn := true;
      }
      if id == PL011_INT_ID {
        Reinject();
      }
      active := active - multiset{id};
      assert gic.Pending() == old(gic.Pending()) + Handshake.Injects(old(State()), Handshake.WriteEoir(value), timer);
    }

    /** The guest's accesses to the UART registers. */
    method ReadDr() returns (value: nat)
      requires Valid()
      modifies uart, uart.buffer
      ensures Valid() && uart.buffer == old(uart.buffer)
      ensures State() == Handshake.Step(old(State()), Handshake.ReadDr, timer)
      ensures value == if old(State()).queue == [] then 0 else old(State()).queue[0]
    {
      hide Pl011.Queue, Pl011.Tidy, Pl011.RxBit, Pl011.OnlyRx, Pl011.Taken;
      value := uart.ReadData();
    }

    method WriteImsc(value: bv64)
      requires Valid()
      modifies uart
      ensures Valid() && uart.buffer == old(uart.buffer)
      ensures State() == Handshake.Step(old(State()), Handshake.WriteImsc(Pl011.RxBit((value & 0xFFFF) as bv16)), timer)
    {
      hide Pl011.Queue, Pl011.Tidy, Pl011.RxBit, Pl011.OnlyRx;
      uart.WriteMask(value);
    }

    method WriteIcr(value: bv64)
      requires Valid()
      modifies uart
      ensures Valid() && uart.buffer == old(uart.buffer)
      ensures State() == Handshake.Step(old(State()), Handshake.WriteIcr(Pl011.RxBit((value & 0xFFFF) as bv16)), timer)
    {
      hide Pl011.Queue, Pl011.Tidy, Pl011.RxBit, Pl011.OnlyRx;
      uart.WriteClear(value);
    }
  }
}
