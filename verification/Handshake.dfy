/** The interrupt traffic of the rpi4 build as a transition system: the physical timer and UART on one side, the
    guest's accesses to the virtual interrupt controller and the virtual UART on the other. */
module Handshake {
  import opened Arithmetic
  import Pl011

  const UART: nat := 33

  /** `active` holds what the guest has acknowledged and not yet ended; the code keeps no record of it. */
  datatype State = State(
    pending: set<nat>, active: multiset<nat>, timerOn: bool, queue: seq<nat>, rxris: bool, rxim: bool)

  datatype Event =
    | TimerIrq
    | UartByte(data: nat)
    | ReadIar
    | WriteEoir(value: nat)
    | ReadDr
    | WriteImsc(rx: bool)
    | WriteIcr(rx: bool)

  const BOOT: State := State({}, multiset{}, true, [], false, false)

  /** The id field of the end-of-interrupt register. */
  function EndedId(value: nat): nat { value % 1024 }

  /** The physical timer fires only while it is enabled; the guest does what it likes. */
  ghost predicate Allowed(s: State, e: Event) { e.TimerIrq? ==> s.timerOn }

  /** The guest ends an interrupt that it has not acknowledged. */
  predicate Unearned(s: State, e: Event) { e.WriteEoir? && EndedId(e.value) !in s.active }

  lemma LeastFrom(s: set<nat>, from: nat) returns (x: nat)
    requires from in s
    ensures Least(s, x)
    decreases from
  {
    if y: nat :| y in s && y < from {
      x := LeastFrom(s, y);
    } else {
      x := from;
    }
  }

  lemma LeastExists(s: set<nat>)
    requires s != {}
    ensures exists x :: Least(s, x)
  {
    var y :| y in s;
    var x := LeastFrom(s, y);
  }

  ghost function Lowest(s: set<nat>): (x: nat)
    requires s != {}
    ensures Least(s, x)
  {
    LeastExists(s);
    var x :| Least(s, x);
    x
  }

  /** Which ids an event injects. */
  ghost function Injects(s: State, e: Event, timer: nat): set<nat>
  {
    match e
    case TimerIrq => {timer}
    case UartByte(_) => if s.rxim then {UART} else {}
    case WriteEoir(value) => if EndedId(value) == UART && s.rxris && s.rxim then {UART} else {}
    case _ => {}
  }

  ghost function Step(s: State, e: Event, timer: nat): State
    requires Allowed(s, e)
  {
    var pending := s.pending + Injects(s, e, timer);
    match e
    case TimerIrq => s.(pending := pending, timerOn := false)
    case UartByte(data) => s.(pending := pending, queue := Pl011.Arrived(s.queue, data), rxris := s.rxris || s.rxim)
    case ReadIar =>
      if s.pending == {} then s
      else s.(pending := s.pending - {Lowest(s.pending)}, active := s.active + multiset{Lowest(s.pending)})
    case WriteEoir(value) =>
      var id := EndedId(value);
      s.(pending := pending, active := s.active - multiset{id}, timerOn := s.timerOn || id == timer)
    case ReadDr => s.(queue := Pl011.Taken(s.queue), rxris := s.rxris && Pl011.Taken(s.queue) != [])
    case WriteImsc(rx) => s.(rxim := rx)
    case WriteIcr(rx) => s.(rxris := s.rxris && !rx)
  }

  ghost predicate Feasible(s: State, es: seq<Event>, timer: nat)
    decreases |es|
  {
    es == [] || (Allowed(s, es[0]) && Feasible(Step(s, es[0], timer), es[1..], timer))
  }

  ghost function Run(s: State, es: seq<Event>, timer: nat): State
    requires Feasible(s, es, timer)
    decreases |es|
  {
    if es == [] then s else Run(Step(s, es[0], timer), es[1..], timer)
  }

  /** Some event of the run satisfies `bad` in the state it meets. */
  ghost predicate Meets(s: State, es: seq<Event>, timer: nat, bad: (State, Event) -> bool)
    requires Feasible(s, es, timer)
    decreases |es|
  {
    es != [] && (bad(s, es[0]) || Meets(Step(s, es[0], timer), es[1..], timer, bad))
  }

  // ---- The timer ----

  /** The timer is enabled exactly when it is neither pending nor in service, and it is outstanding at most once. */
  ghost predicate TimerHandshake(s: State, timer: nat)
  {
    && (s.timerOn <==> timer !in s.pending && timer !in s.active)
    && !(timer in s.pending && timer in s.active)
    && s.active[timer] <= 1
  }

  /** The guest ends the timer interrupt while it is pending. */
  function EndsPending(timer: nat): (State, Event) -> bool
  {
    (s: State, e: Event) => e.WriteEoir? && EndedId(e.value) == timer && timer in s.pending
  }

  /** The one event that breaks the handshake. */
  lemma TimerStepIff(s: State, e: Event, timer: nat)
    requires timer < 32 && TimerHandshake(s, timer) && Allowed(s, e)
    ensures TimerHandshake(Step(s, e, timer), timer) <==> !EndsPending(timer)(s, e)
  {
  }

  ghost predicate TimerThroughout(s: State, es: seq<Event>, timer: nat)
    requires Feasible(s, es, timer)
    decreases |es|
  {
    TimerHandshake(s, timer) && (es == [] || TimerThroughout(Step(s, es[0], timer), es[1..], timer))
  }

  /** Over whole runs: the handshake holds throughout exactly when the guest never ends the timer while it is
      pending. */
  lemma {:induction false} TimerRunIff(s: State, es: seq<Event>, timer: nat)
    requires timer < 32 && TimerHandshake(s, timer) && Feasible(s, es, timer)
    ensures TimerThroughout(s, es, timer) <==> !Meets(s, es, timer, EndsPending(timer))
    ensures TimerThroughout(s, es, timer) ==> TimerHandshake(Run(s, es, timer), timer)
    decreases |es|
  {
    hide Step, TimerHandshake;
    if es != [] {
      TimerStepIff(s, es[0], timer);
      if !EndsPending(timer)(s, es[0]) {
        TimerRunIff(Step(s, es[0], timer), es[1..], timer);
      }
    }
  }

  /** A guest that ends only what it has acknowledged never does that. */
  lemma {:induction false} EarnedEnds(s: State, es: seq<Event>, timer: nat)
    requires timer < 32 && TimerHandshake(s, timer) && Feasible(s, es, timer) && !Meets(s, es, timer, Unearned)
    ensures !Meets(s, es, timer, EndsPending(timer))
    decreases |es|
  {
    if es != [] {
      TimerStepIff(s, es[0], timer);
      EarnedEnds(Step(s, es[0], timer), es[1..], timer);
    }
  }

  /** In every state that a run from boot reaches, while the guest ends only what it has acknowledged. */
  lemma TimerAlways(es: seq<Event>, timer: nat)
    requires timer < 32 && Feasible(BOOT, es, timer) && !Meets(BOOT, es, timer, Unearned)
    ensures TimerHandshake(Run(BOOT, es, timer), timer)
  {
    EarnedEnds(BOOT, es, timer);
    TimerRunIff(BOOT, es, timer);
  }

  /** Ending the first tick without acknowledging it enables the timer while the tick is still pending. */
  lemma EarlyEndExample(timer: nat)
    requires timer < 32
    ensures var es := [TimerIrq, WriteEoir(timer)];
      Feasible(BOOT, es, timer) && Run(BOOT, es, timer).timerOn && timer in Run(BOOT, es, timer).pending
  {
    var es := [TimerIrq, WriteEoir(timer)];
    assert es[1..] == [WriteEoir(timer)] && es[1..][1..] == [];
    StartRun(Step(Step(BOOT, TimerIrq, timer), WriteEoir(timer), timer), timer);
  }

  /** Acknowledging long enough brings any pending id into service; no more reads than ids are pending. */
  lemma {:induction false} AcknowledgedSoon(s: State, id: nat, timer: nat) returns (es: seq<Event>)
    requires id in s.pending
    ensures |es| <= |s.pending| && (forall i :: 0 <= i < |es| ==> es[i] == ReadIar)
    ensures Feasible(s, es, timer) && id in Run(s, es, timer).active && Run(s, es, timer).timerOn == s.timerOn
    decreases s.pending
  {
    var s' := Step(s, ReadIar, timer);
    if Lowest(s.pending) == id {
      es := [ReadIar];
      assert Feasible(s', es[1..], timer) && Run(s', es[1..], timer) == s';
    } else {
      var rest := AcknowledgedSoon(s', id, timer);
      es := [ReadIar] + rest;
      assert es[1..] == rest;
    }
  }

  lemma StartRun(s: State, timer: nat)
    ensures Feasible(s, [], timer) && Run(s, [], timer) == s
  {
  }

  lemma {:induction false} Appended(s: State, es: seq<Event>, e: Event, timer: nat)
    requires Feasible(s, es, timer) && Allowed(Run(s, es, timer), e)
    ensures Feasible(s, es + [e], timer) && Run(s, es + [e], timer) == Step(Run(s, es, timer), e, timer)
    decreases |es|
  {
    if es == [] {
      assert (es + [e])[1..] == [];
    } else {
      Appended(Step(s, es[0], timer), es[1..], e, timer);
      assert (es + [e])[1..] == es[1..] + [e];
    }
  }

  /** A masked timer is never stuck: the guest unmasks it by acknowledging and ending, and nothing else is needed. */
  lemma TimerNeverStuck(es: seq<Event>, timer: nat) returns (more: seq<Event>)
    requires timer < 32 && Feasible(BOOT, es, timer) && !Meets(BOOT, es, timer, Unearned)
    requires !Run(BOOT, es, timer).timerOn
    ensures var s := Run(BOOT, es, timer);
      && |more| <= |s.pending| + 1
      && (forall i :: 0 <= i < |more| ==> more[i] == ReadIar || more[i] == WriteEoir(timer))
      && Feasible(s, more, timer) && Run(s, more, timer).timerOn
  {
    hide Feasible, Run;
    TimerAlways(es, timer);
    var s := Run(BOOT, es, timer);
    StartRun(s, timer);
    var acks := [];
    if timer in s.pending {
      acks := AcknowledgedSoon(s, timer, timer);
    }
    more := acks + [WriteEoir(timer)];
    Appended(s, acks, WriteEoir(timer), timer);
  }

  // ---- The UART ----

  /** A visible receive interrupt is on its way to the guest or being served. */
  ghost predicate UartCovered(s: State)
  {
    s.rxris && s.rxim ==> UART in s.pending || UART in s.active
  }

  /** Unmasking while the raw status is set and no UART interrupt is outstanding: nothing injects one. */
  ghost predicate Uncovers(s: State, e: Event)
  {
    e == WriteImsc(true) && s.rxris && !s.rxim && UART !in s.pending && UART !in s.active
  }

  /** The one event that loses the interrupt. */
  lemma UartStepIff(s: State, e: Event, timer: nat)
    requires timer < 32 && UartCovered(s) && Allowed(s, e)
    ensures UartCovered(Step(s, e, timer)) <==> !Uncovers(s, e)
  {
  }

  ghost predicate CoveredThroughout(s: State, es: seq<Event>, timer: nat)
    requires Feasible(s, es, timer)
    decreases |es|
  {
    UartCovered(s) && (es == [] || CoveredThroughout(Step(s, es[0], timer), es[1..], timer))
  }

  /** Over whole runs: the interrupt is covered throughout exactly when no event of the run uncovers it. */
  lemma {:induction false} UartRunIff(s: State, es: seq<Event>, timer: nat)
    requires timer < 32 && UartCovered(s) && Feasible(s, es, timer)
    ensures CoveredThroughout(s, es, timer) <==> !Meets(s, es, timer, Uncovers)
    decreases |es|
  {
    if es != [] {
      UartStepIff(s, es[0], timer);
      if !Uncovers(s, es[0]) {
        UartRunIff(Step(s, es[0], timer), es[1..], timer);
      } else {
        assert !UartCovered(Step(s, es[0], timer));
      }
    }
  }

  /** A guest that never unmasks the receive interrupt while its raw status is set. */
  ghost predicate Careless(s: State, e: Event) { e == WriteImsc(true) && s.rxris && !s.rxim }

  lemma {:induction false} CarefulGuest(s: State, es: seq<Event>, timer: nat)
    requires timer < 32 && UartCovered(s) && Feasible(s, es, timer) && !Meets(s, es, timer, Careless)
    ensures UartCovered(Run(s, es, timer))
    decreases |es|
  {
    if es != [] {
      UartStepIff(s, es[0], timer);
      CarefulGuest(Step(s, es[0], timer), es[1..], timer);
    }
  }

  /** Masking inside the handler and unmasking after the end of the interrupt loses it. */
  lemma LostInterrupt(timer: nat)
    requires timer < 32
    ensures var es := [WriteImsc(true), UartByte(65), ReadIar, WriteImsc(false), WriteEoir(UART), WriteImsc(true)];
      Feasible(BOOT, es, timer) && !UartCovered(Run(BOOT, es, timer))
  {
    hide Feasible, Run;
    StartRun(BOOT, timer);
    Appended(BOOT, [], WriteImsc(true), timer);
    var es := [] + [WriteImsc(true)];
    Appended(BOOT, es, UartByte(65), timer);
    es := es + [UartByte(65)];
    assert Run(BOOT, es, timer).pending == {UART};
    Appended(BOOT, es, ReadIar, timer);
    es := es + [ReadIar];
    Appended(BOOT, es, WriteImsc(false), timer);
    es := es + [WriteImsc(false)];
    Appended(BOOT, es, WriteEoir(UART), timer);
    es := es + [WriteEoir(UART)];
    Appended(BOOT, es, WriteImsc(true), timer);
    es := es + [WriteImsc(true)];
    assert es == [WriteImsc(true), UartByte(65), ReadIar, WriteImsc(false), WriteEoir(UART), WriteImsc(true)];
  }

  /** Whatever happened before, the next byte that arrives unmasked covers it again. */
  lemma NextByteCovers(s: State, data: nat, timer: nat)
    ensures UartCovered(Step(s, UartByte(data), timer))
  {
  }

  // ---- Accounting ----

  ghost function Injections(s: State, es: seq<Event>, timer: nat, id: nat): nat
    requires Feasible(s, es, timer)
    decreases |es|
  {
    if es == [] then 0
    else (if id in Injects(s, es[0], timer) then 1 else 0) + Injections(Step(s, es[0], timer), es[1..], timer, id)
  }

  ghost predicate Acknowledges(s: State, e: Event, id: nat)
  {
    e == ReadIar && s.pending != {} && Lowest(s.pending) == id
  }

  ghost function Acknowledgements(s: State, es: seq<Event>, timer: nat, id: nat): nat
    requires Feasible(s, es, timer)
    decreases |es|
  {
    if es == [] then 0
    else (if Acknowledges(s, es[0], id) then 1 else 0) + Acknowledgements(Step(s, es[0], timer), es[1..], timer, id)
  }

  ghost function One(b: bool): nat { if b then 1 else 0 }

  /** Per id, acknowledgements never exceed injections. */
  lemma {:induction false} NoInventedInterrupt(s: State, es: seq<Event>, timer: nat, id: nat)
    requires Feasible(s, es, timer)
    ensures Acknowledgements(s, es, timer, id) + One(id in Run(s, es, timer).pending)
         <= Injections(s, es, timer, id) + One(id in s.pending)
    decreases |es|
  {
    if es != [] {
      NoInventedInterrupt(Step(s, es[0], timer), es[1..], timer, id);
    }
  }

  /** No timer tick is merged with another: every one is acknowledged once, or still pending. */
  lemma {:induction false} EveryTickDelivered(s: State, es: seq<Event>, timer: nat)
    requires timer < 32 && TimerHandshake(s, timer) && Feasible(s, es, timer)
    requires !Meets(s, es, timer, EndsPending(timer))
    ensures Acknowledgements(s, es, timer, timer) + One(timer in Run(s, es, timer).pending)
         == Injections(s, es, timer, timer) + One(timer in s.pending)
    decreases |es|
  {
    if es != [] {
      TimerStepIff(s, es[0], timer);
      EveryTickDelivered(Step(s, es[0], timer), es[1..], timer);
    }
  }

  /** The bytes that an event hands to the buffer, and those it hands to the guest. */
  ghost function Arriving(e: Event): seq<nat> { if e.UartByte? && e.data != 0 then [e.data] else [] }
  ghost function Delivering(s: State, e: Event): seq<nat> { if e == ReadDr && s.queue != [] then [s.queue[0]] else [] }

  /** A full buffer loses the next byte and repeats the one it should give up. */
  ghost predicate Overruns(s: State, e: Event)
  {
    |s.queue| >= Pl011.SLOTS && (e == ReadDr || Arriving(e) != [])
  }

  lemma BytesKeptIff(s: State, e: Event, timer: nat)
    requires Allowed(s, e)
    ensures Delivering(s, e) + Step(s, e, timer).queue == s.queue + Arriving(e) <==> !Overruns(s, e)
  {
    var q := s.queue;
    if e == ReadDr && q != [] {
      assert [q[0]] + q[1..] == q;
      if |q| >= Pl011.SLOTS {
        assert |[q[0]] + (q[1..] + [q[|q| - 1]])| == |q| + 1;
      }
    } else if Arriving(e) != [] {
      assert |q + Arriving(e)| == |q| + 1;
    }
  }

  ghost function Arrivals(es: seq<Event>): seq<nat> { if es == [] then [] else Arriving(es[0]) + Arrivals(es[1..]) }

  ghost function Deliveries(s: State, es: seq<Event>, timer: nat): seq<nat>
    requires Feasible(s, es, timer)
    decreases |es|
  {
    if es == [] then [] else Delivering(s, es[0]) + Deliveries(Step(s, es[0], timer), es[1..], timer)
  }

  /** The receive buffer is a queue: over a run without overruns the guest reads what arrived, in order. */
  lemma {:induction false} BytesInOrder(s: State, es: seq<Event>, timer: nat)
    requires Feasible(s, es, timer) && !Meets(s, es, timer, Overruns)
    ensures Deliveries(s, es, timer) + Run(s, es, timer).queue == s.queue + Arrivals(es)
    decreases |es|
  {
    hide Step, Delivering, Arriving;
    if es != [] {
      var e, s' := es[0], Step(s, es[0], timer);
      BytesKeptIff(s, e, timer);
      BytesInOrder(s', es[1..], timer);
      calc {
        Delivering(s, e) + Deliveries(s', es[1..], timer) + Run(s', es[1..], timer).queue;
        Delivering(s, e) + (Deliveries(s', es[1..], timer) + Run(s', es[1..], timer).queue);
        Delivering(s, e) + (s'.queue + Arrivals(es[1..]));
        (Delivering(s, e) + s'.queue) + Arrivals(es[1..]);
        s.queue + (Arriving(e) + Arrivals(es[1..]));
      }
    }
  }

  /** A full buffer never empties again by reading: each read returns a byte and none goes away. */
  lemma {:induction false} FullStaysFull(s: State, es: seq<Event>, timer: nat)
    requires |s.queue| == Pl011.SLOTS && (forall i :: 0 <= i < |es| ==> es[i] == ReadDr) && Feasible(s, es, timer)
    ensures |Run(s, es, timer).queue| == Pl011.SLOTS && |Deliveries(s, es, timer)| == |es|
    decreases |es|
  {
    if es != [] {
      ReadsFull(s, timer);
      hide Step, Delivering;
      FullStaysFull(Step(s, es[0], timer), es[1..], timer);
    }
  }

  lemma ReadsFull(s: State, timer: nat)
    requires |s.queue| == Pl011.SLOTS
    ensures |Step(s, ReadDr, timer).queue| == Pl011.SLOTS && |Delivering(s, ReadDr)| == 1
  {
  }

  /** A run and one more event. */
  lemma {:induction false} Longer(s: State, es: seq<Event>, e: Event, timer: nat)
    requires Feasible(s, es, timer) && Allowed(Run(s, es, timer), e)
    ensures Feasible(s, es + [e], timer) && Run(s, es + [e], timer) == Step(Run(s, es, timer), e, timer)
    ensures Deliveries(s, es + [e], timer) == Deliveries(s, es, timer) + Delivering(Run(s, es, timer), e)
    decreases |es|
  {
    hide Step, Delivering;
    Appended(s, es, e, timer);
    if es == [] {
      assert (es + [e])[1..] == [];
    } else {
      assert (es + [e])[1..] == es[1..] + [e];
      Longer(Step(s, es[0], timer), es[1..], e, timer);
    }
  }

  /** The first four bytes fill the buffer. */
  lemma FourBytes(timer: nat)
    ensures var es := [UartByte(1), UartByte(2), UartByte(3), UartByte(4)];
      && Feasible(BOOT, es, timer) && Run(BOOT, es, timer) == BOOT.(queue := [1, 2, 3, 4])
      && Deliveries(BOOT, es, timer) == []
  {
    hide Feasible, Run, Deliveries;
    StartRun(BOOT, timer);
    NoDeliveries(BOOT, timer);
    var es: seq<Event> := [];
    Longer(BOOT, es, UartByte(1), timer);
    es := es + [UartByte(1)];
    Longer(BOOT, es, UartByte(2), timer);
    es := es + [UartByte(2)];
    Longer(BOOT, es, UartByte(3), timer);
    es := es + [UartByte(3)];
    Longer(BOOT, es, UartByte(4), timer);
    es := es + [UartByte(4)];
    assert es == [UartByte(1), UartByte(2), UartByte(3), UartByte(4)];
  }

  lemma NoDeliveries(s: State, timer: nat)
    ensures Feasible(s, [], timer) && Deliveries(s, [], timer) == []
  {
  }

  /** Five bytes from boot: the fifth is lost. */
  lemma LostByteExample(timer: nat)
    ensures var es := [UartByte(1), UartByte(2), UartByte(3), UartByte(4)] + [UartByte(5)];
      Feasible(BOOT, es, timer) && Run(BOOT, es, timer).queue == [1, 2, 3, 4]
  {
    FourBytes(timer);
    Longer(BOOT, [UartByte(1), UartByte(2), UartByte(3), UartByte(4)], UartByte(5), timer);
  }

  /** Four bytes from boot and five reads: the fourth byte is read twice. */
  lemma RepeatedByteExample(timer: nat)
    ensures var four := [UartByte(1), UartByte(2), UartByte(3), UartByte(4)];
      var es := four + [ReadDr] + [ReadDr] + [ReadDr] + [ReadDr] + [ReadDr];
      Feasible(BOOT, es, timer) && Deliveries(BOOT, es, timer) == [1, 2, 3, 4, 4]
  {
    hide Feasible, Run, Deliveries;
    FourBytes(timer);
    var es := [UartByte(1), UartByte(2), UartByte(3), UartByte(4)];
    Longer(BOOT, es, ReadDr, timer);
    Longer(BOOT, es + [ReadDr], ReadDr, timer);
    Longer(BOOT, es + [ReadDr] + [ReadDr], ReadDr, timer);
    Longer(BOOT, es + [ReadDr] + [ReadDr] + [ReadDr], ReadDr, timer);
    Longer(BOOT, es + [ReadDr] + [ReadDr] + [ReadDr] + [ReadDr], ReadDr, timer);
  }
}
