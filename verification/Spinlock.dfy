/** The spinlock that masks interrupts, as a transition system: any number of CPUs and locks, interleaved at the level
    of the single loads, exchanges, stores and DAIF writes, with interrupts taken wherever DAIF allows. */
module Spinlock {
  type Lock = nat

  /** The interrupt mask bits of a CPU. */
  datatype Daif = Daif(d: bool, a: bool, i: bool, f: bool)

  /** What `disable_interrupts` leaves in DAIF, and what taking an exception does. */
  function Masked(x: Daif): Daif { x.(i := true, f := true) }
  const ALL_MASKED: Daif := Daif(true, true, true, true)

  predicate IsMasked(x: Daif) { x.i && x.f }

  /** A `MutexGuard` with its saved state. */
  datatype Guard = Guard(lock: Lock, saved: Daif)

  /** Where a thread of control is, in `lock` or in `drop`. */
  datatype Phase =
    | Running
    | Spinning(lock: Lock)
    | SeenFree(lock: Lock)
    | Trying(lock: Lock, saved: Daif)
    | Failed(lock: Lock, saved: Daif)
    | Releasing(saved: Daif)

  /** `base` is the DAIF that the thread had apart from the effect of locks; `asked` lists the locks that it called
      `lock` for and has not dropped since. The code keeps neither. */
  datatype Context = Context(phase: Phase, guards: seq<Guard>, base: Daif, daif: Daif, asked: seq<Lock>)

  /** The running context and the interrupted ones below it, innermost last. */
  datatype Cpu = Cpu(now: Context, below: seq<Context>)

  datatype System = System(taken: set<Lock>, cpus: seq<Cpu>)

  datatype Event =
    | Lock(l: Lock)
    | Load
    | Disable
    | Exchange
    | Restore
    | Drop
    | Interrupt(fiq: bool)
    | Return
    | SetDaif(daif: Daif)

  ghost predicate Allowed(c: Cpu, e: Event)
  {
    match e
    case Lock(_) => c.now.phase.Running?
    case Load => c.now.phase.Spinning?
    case Disable => c.now.phase.SeenFree?
    case Exchange => c.now.phase.Trying?
    case Restore => c.now.phase.Failed? || c.now.phase.Releasing?
    case Drop => c.now.phase.Running? && c.now.guards != []
    case Interrupt(fiq) => if fiq then !c.now.daif.f else !c.now.daif.i
    case Return => c.now.phase.Running? && c.now.guards == [] && c.below != []
    case SetDaif(_) => c.now.phase.Running? && c.now.guards == []
  }

  /** The effect of an event on the CPU that performs it. */
  ghost function CpuStep(taken: set<Lock>, c: Cpu, e: Event): Cpu
    requires Allowed(c, e)
  {
    var x := c.now;
    match e
    case Lock(l) => c.(now := x.(phase := Spinning(l), asked := x.asked + [l]))
    case Load => if x.phase.lock in taken then c else c.(now := x.(phase := SeenFree(x.phase.lock)))
    case Disable => c.(now := x.(phase := Trying(x.phase.lock, x.daif), daif := Masked(x.daif)))
    case Exchange =>
      if x.phase.lock in taken then c.(now := x.(phase := Failed(x.phase.lock, x.phase.saved)))
      else c.(now := x.(phase := Running, guards := x.guards + [Guard(x.phase.lock, x.phase.saved)]))
    case Restore =>
      c.(now := x.(daif := x.phase.saved, phase := if x.phase.Failed? then Spinning(x.phase.lock) else Running))
    case Drop =>
      var last := |x.guards| - 1;
      var left := if x.asked == [] then [] else x.asked[..|x.asked| - 1];
      c.(now := x.(phase := Releasing(x.guards[last].saved), guards := x.guards[..last], asked := left))
    case Interrupt(_) => Cpu(Context(Running, [], ALL_MASKED, ALL_MASKED, []), c.below + [x])
    case Return => Cpu(c.below[|c.below| - 1], c.below[..|c.below| - 1])
    case SetDaif(d) => c.(now := x.(base := d, daif := d))
  }

  /** The effect on the lock bits. */
  ghost function Taken(taken: set<Lock>, c: Cpu, e: Event): set<Lock>
    requires Allowed(c, e)
  {
    match e
    case Exchange => taken + {c.now.phase.lock}
    case Drop => taken - {c.now.guards[|c.now.guards| - 1].lock}
    case _ => taken
  }

  /** CPU `k` performs `e`. */
  ghost predicate CanStep(s: System, k: nat, e: Event) { k < |s.cpus| && Allowed(s.cpus[k], e) }

  ghost function Step(s: System, k: nat, e: Event): System
    requires CanStep(s, k, e)
  {
    System(Taken(s.taken, s.cpus[k], e), s.cpus[k := CpuStep(s.taken, s.cpus[k], e)])
  }

  type Trace = seq<(nat, Event)>

  ghost predicate Feasible(s: System, es: Trace)
    decreases |es|
  {
    es == [] || (CanStep(s, es[0].0, es[0].1) && Feasible(Step(s, es[0].0, es[0].1), es[1..]))
  }

  ghost function Run(s: System, es: Trace): System
    requires Feasible(s, es)
    decreases |es|
  {
    if es == [] then s else Run(Step(s, es[0].0, es[0].1), es[1..])
  }

  /** Boot: no lock taken, every CPU outside any lock with whatever DAIF it has. */
  ghost predicate Initial(s: System)
  {
    && s.taken == {}
    && forall c <- s.cpus ::
         c.below == [] && c.now.phase == Running && c.now.guards == [] && c.now.asked == [] && c.now.base == c.now.daif
  }

  // ---- Masking ----

  /** DAIF outside `lock` and `drop` for a context that holds `guards`. */
  function Level(base: Daif, guards: seq<Guard>): Daif { if guards == [] then base else Masked(base) }

  ghost predicate Saved(base: Daif, guards: seq<Guard>)
  {
    forall i :: 0 <= i < |guards| ==> guards[i].saved == Level(base, guards[..i])
  }

  ghost predicate Sound(x: Context)
  {
    && Saved(x.base, x.guards)
    && match x.phase
       case Trying(_, saved) => saved == Level(x.base, x.guards) && x.daif == Masked(x.base)
       case Failed(_, saved) => saved == Level(x.base, x.guards) && x.daif == Masked(x.base)
       case Releasing(saved) => saved == Level(x.base, x.guards) && x.daif == Masked(x.base)
       case _ => x.daif == Level(x.base, x.guards)
  }

  /** An interrupted context holds no guard. */
  ghost predicate Interrupted(x: Context) { Sound(x) && x.guards == [] && !IsMasked(x.daif) }

  ghost predicate SoundCpu(c: Cpu) { Sound(c.now) && forall x <- c.below :: Interrupted(x) }

  lemma NowSound(taken: set<Lock>, c: Cpu, e: Event)
    requires Sound(c.now) && Allowed(c, e) && !e.Interrupt? && !e.Return?
    ensures Sound(CpuStep(taken, c, e).now)
  {
    var x := c.now;
    match e
    case Exchange => PushSaved(x);
    case Drop => PopSaved(x.base, x.guards);
    case Lock(_) =>
    case Load =>
    case Disable =>
    case Restore =>
    case SetDaif(_) =>
  }

  lemma CpuStepSound(taken: set<Lock>, c: Cpu, e: Event)
    requires SoundCpu(c) && Allowed(c, e)
    ensures SoundCpu(CpuStep(taken, c, e))
  {
    if e.Return? {
      assert c.below[|c.below| - 1] in c.below;
    } else if !e.Interrupt? {
      NowSound(taken, c, e);
    }
  }

  lemma PushSaved(x: Context)
    requires Sound(x) && x.phase.Trying?
    ensures Saved(x.base, x.guards + [Guard(x.phase.lock, x.phase.saved)])
  {
    var g := x.guards + [Guard(x.phase.lock, x.phase.saved)];
    forall i | 0 <= i < |g| ensures g[i].saved == Level(x.base, g[..i]) {
      assert g[..i] == x.guards[..i];
      if i == |x.guards| {
        assert x.guards[..i] == x.guards;
      }
    }
  }

  lemma PopSaved(base: Daif, guards: seq<Guard>)
    requires Saved(base, guards) && guards != []
    ensures Saved(base, guards[..|guards| - 1])
  {
    var g := guards[..|guards| - 1];
    forall i | 0 <= i < |g| ensures g[i].saved == Level(base, g[..i]) {
      assert g[..i] == guards[..i];
    }
  }

  // ---- Getting what was asked for ----

  function LocksInOrder(guards: seq<Guard>): seq<Lock> { seq(|guards|, i requires 0 <= i < |guards| => guards[i].lock) }

  /** Outside `lock` the guards are those of the locks asked for; inside it, all but the last one. */
  ghost predicate Answered(x: Context)
  {
    match x.phase
    case Running => x.asked == LocksInOrder(x.guards)
    case Releasing(_) => x.asked == LocksInOrder(x.guards)
    case Spinning(l) => x.asked == LocksInOrder(x.guards) + [l]
    case SeenFree(l) => x.asked == LocksInOrder(x.guards) + [l]
    case Trying(l, _) => x.asked == LocksInOrder(x.guards) + [l]
    case Failed(l, _) => x.asked == LocksInOrder(x.guards) + [l]
  }

  ghost predicate AnsweredCpu(c: Cpu) { Answered(c.now) && forall x <- c.below :: Answered(x) }

  lemma AnsweredStep(taken: set<Lock>, c: Cpu, e: Event)
    requires AnsweredCpu(c) && Allowed(c, e)
    ensures AnsweredCpu(CpuStep(taken, c, e))
  {
    var x := c.now;
    match e
    case Exchange =>
      var g := Guard(x.phase.lock, x.phase.saved);
      assert LocksInOrder(x.guards + [g]) == LocksInOrder(x.guards) + [g.lock];
    case Drop =>
      var last := |x.guards| - 1;
      assert LocksInOrder(x.guards[..last]) == LocksInOrder(x.guards)[..last];
    case Return =>
      assert c.below[|c.below| - 1] in c.below;
    case _ =>
  }

  lemma {:induction false} AnsweredRun(s: System, es: Trace)
    requires (forall c <- s.cpus :: AnsweredCpu(c)) && Feasible(s, es)
    ensures forall c <- Run(s, es).cpus :: AnsweredCpu(c)
    decreases |es|
  {
    hide AnsweredCpu, Allowed, CpuStep, Taken;
    if es != [] {
      var k, e := es[0].0, es[0].1;
      AnsweredStep(s.taken, s.cpus[k], e);
      AnsweredRun(Step(s, k, e), es[1..]);
    }
  }

  /** `lock` returns only with a guard for its lock, and `drop` takes only its own: in every reachable state the code
      that runs on a CPU outside of both, and any such code that was interrupted, holds a guard for exactly the locks it
      asked for and has not dropped, in that order. */
  lemma GuardsAsAsked(s: System, es: Trace, k: nat, x: Context)
    requires Initial(s) && Feasible(s, es) && k < |s.cpus|
    ensures k < |Run(s, es).cpus|
    ensures var c := Run(s, es).cpus[k];
      (x == c.now || x in c.below) && x.phase.Running? ==> LocksInOrder(x.guards) == x.asked
  {
    hide Feasible, Run;
    SameCpus(s, es);
    AnsweredRun(s, es);
    assert Run(s, es).cpus[k] in Run(s, es).cpus;
  }

  // ---- Getting on ----

  /** The code that runs on a CPU can always go on: no step waits for one that is not allowed. */
  lemma NeverStuck(c: Cpu)
    ensures exists e: Event :: !e.Interrupt? && Allowed(c, e)
  {
    var e := match c.now.phase
      case Running => Lock(0)
      case Spinning(_) => Load
      case SeenFree(_) => Disable
      case Trying(_, _) => Exchange
      case Failed(_, _) => Restore
      case Releasing(_) => Restore;
    assert Allowed(c, e);
  }

  /** What `k` does on its own. */
  ghost function Alone(k: nat, es: seq<Event>): Trace { seq(|es|, i requires 0 <= i < |es| => (k, es[i])) }

  lemma AloneStep(s: System, k: nat, e: Event, es: seq<Event>)
    requires CanStep(s, k, e)
    ensures Alone(k, [e] + es)[0] == (k, e) && Alone(k, [e] + es)[1..] == Alone(k, es)
    ensures Feasible(s, Alone(k, [e] + es)) <==> Feasible(Step(s, k, e), Alone(k, es))
    ensures Feasible(Step(s, k, e), Alone(k, es)) ==>
      Run(s, Alone(k, [e] + es)) == Run(Step(s, k, e), Alone(k, es))
  {
  }

  /** Undisturbed, a CPU that waits for a free lock has it three steps later: the guard remembers DAIF as it was, and
      IRQ and FIQ are masked. */
  lemma FreeLockTaken(s: System, k: nat)
    requires k < |s.cpus| && s.cpus[k].now.phase.Spinning? && s.cpus[k].now.phase.lock !in s.taken
    ensures var es, x := Alone(k, [Load, Disable, Exchange]), s.cpus[k].now;
      && Feasible(s, es)
      && var t := Run(s, es);
         && t.taken == s.taken + {x.phase.lock}
         && t.cpus == s.cpus[k := s.cpus[k].(now := x.(phase := Running, daif := x.daif.(i := true, f := true),
                                                       guards := x.guards + [Guard(x.phase.lock, x.daif)]))]
  {
    var s1 := Step(s, k, Load);
    var s2 := Step(s1, k, Disable);
    var s3 := Step(s2, k, Exchange);
    Settled(s3, k);
    AloneStep(s2, k, Exchange, []);
    AloneStep(s1, k, Disable, [Exchange]);
    AloneStep(s, k, Load, [Disable, Exchange]);
    assert [Load] + [Disable, Exchange] == [Load, Disable, Exchange] && [Disable] + [Exchange] == [Disable, Exchange];
  }

  /** One that finds the lock taken after all waits again, with DAIF as it was. */
  lemma TakenLockRetried(s: System, k: nat)
    requires k < |s.cpus| && s.cpus[k].now.phase.Trying? && s.cpus[k].now.phase.lock in s.taken
    ensures var es, x := Alone(k, [Exchange, Restore]), s.cpus[k].now;
      && Feasible(s, es)
      && var t := Run(s, es);
         && t.taken == s.taken
         && t.cpus == s.cpus[k := s.cpus[k].(now := x.(phase := Spinning(x.phase.lock), daif := x.phase.saved))]
  {
    var s1 := Step(s, k, Exchange);
    var s2 := Step(s1, k, Restore);
    Settled(s2, k);
    AloneStep(s1, k, Restore, []);
    AloneStep(s, k, Exchange, [Restore]);
    assert [Exchange] + [Restore] == [Exchange, Restore];
    assert s1.taken == s.taken;
  }

  /** `drop` frees the lock of the last guard and puts back the DAIF that the guard remembers. */
  lemma DropFrees(s: System, k: nat)
    requires k < |s.cpus| && Allowed(s.cpus[k], Drop)
    ensures var es, x := Alone(k, [Drop, Restore]), s.cpus[k].now;
      && Feasible(s, es)
      && var (t, g) := (Run(s, es), x.guards[|x.guards| - 1]);
         && t.taken == s.taken - {g.lock} && |t.cpus| == |s.cpus| && t.cpus == s.cpus[k := t.cpus[k]]
         && t.cpus[k].below == s.cpus[k].below && t.cpus[k].now.phase.Running?
         && t.cpus[k].now.guards == x.guards[..|x.guards| - 1] && t.cpus[k].now.daif == g.saved
  {
    var s1 := Step(s, k, Drop);
    var s2 := Step(s1, k, Restore);
    Settled(s2, k);
    AloneStep(s1, k, Restore, []);
    AloneStep(s, k, Drop, [Restore]);
    assert [Drop] + [Restore] == [Drop, Restore];
  }

  /** A handler that does nothing leaves everything as it was. */
  lemma InterruptReturns(s: System, k: nat, fiq: bool)
    requires CanStep(s, k, Interrupt(fiq))
    ensures Feasible(s, Alone(k, [Interrupt(fiq), Return])) && Run(s, Alone(k, [Interrupt(fiq), Return])) == s
  {
    var s1 := Step(s, k, Interrupt(fiq));
    var s2 := Step(s1, k, Return);
    Settled(s2, k);
    AloneStep(s1, k, Return, []);
    AloneStep(s, k, Interrupt(fiq), [Return]);
    assert [Interrupt(fiq)] + [Return] == [Interrupt(fiq), Return];
    var c := s.cpus[k];
    assert (c.below + [c.now])[..|c.below|] == c.below;
    assert s2.cpus == s.cpus;
  }

  lemma Settled(s: System, k: nat)
    ensures Feasible(s, Alone(k, [])) && Run(s, Alone(k, [])) == s
  {
  }

  // ---- Exclusion ----

  function Locks(guards: seq<Guard>): multiset<Lock>
  {
    if guards == [] then multiset{} else Locks(guards[..|guards| - 1]) + multiset{guards[|guards| - 1].lock}
  }

  function LocksBelow(below: seq<Context>): multiset<Lock>
  {
    if below == [] then multiset{} else LocksBelow(below[..|below| - 1]) + Locks(below[|below| - 1].guards)
  }

  /** Every guard on a CPU, by lock. */
  function Held(c: Cpu): multiset<Lock> { LocksBelow(c.below) + Locks(c.now.guards) }

  /** Every guard in the system, by lock. */
  function AllHeld(cpus: seq<Cpu>): multiset<Lock>
  {
    if cpus == [] then multiset{} else Held(cpus[0]) + AllHeld(cpus[1..])
  }

  lemma {:induction false} AllHeldChange(cpus: seq<Cpu>, k: nat, c: Cpu, l: Lock)
    requires k < |cpus|
    ensures AllHeld(cpus[k := c])[l] + Held(cpus[k])[l] == AllHeld(cpus)[l] + Held(c)[l]
    ensures Held(cpus[k])[l] <= AllHeld(cpus)[l]
  {
    hide Held;
    var cpus' := cpus[k := c];
    if k == 0 {
      assert cpus'[1..] == cpus[1..];
    } else {
      AllHeldChange(cpus[1..], k - 1, c, l);
      assert cpus'[1..] == cpus[1..][k - 1 := c];
    }
  }

  /** What an event adds to or takes from the guards of its CPU. */
  lemma HeldStep(taken: set<Lock>, c: Cpu, e: Event)
    requires Allowed(c, e)
    ensures var c' := CpuStep(taken, c, e);
      if e == Exchange && c.now.phase.lock !in taken then Held(c') == Held(c) + multiset{c.now.phase.lock}
      else if e == Drop then Held(c) == Held(c') + multiset{c.now.guards[|c.now.guards| - 1].lock}
      else Held(c') == Held(c)
  {
    var x, c' := c.now, CpuStep(taken, c, e);
    match e
    case Exchange =>
      var g := x.guards + [Guard(x.phase.lock, x.phase.saved)];
      assert g[..|g| - 1] == x.guards;
    case Interrupt(_) =>
      assert c'.below[..|c'.below| - 1] == c.below;
    case _ =>
  }

  /** The lock bits are exactly the locks of the guards, and no lock has two guards. */
  ghost predicate Exclusive(s: System) { AllHeld(s.cpus) == multiset(s.taken) }

  ghost predicate Invariant(s: System) { Exclusive(s) && forall c <- s.cpus :: SoundCpu(c) }

  lemma ExclusiveStep(s: System, k: nat, e: Event)
    requires Exclusive(s) && CanStep(s, k, e)
    ensures Exclusive(Step(s, k, e))
  {
    hide AllHeld, Held, CpuStep;
    var c, s' := s.cpus[k], Step(s, k, e);
    HeldStep(s.taken, c, e);
    forall l ensures AllHeld(s'.cpus)[l] == multiset(s'.taken)[l] {
      AllHeldChange(s.cpus, k, CpuStep(s.taken, c, e), l);
    }
  }

  // ---- Every reachable state ----

  lemma InvariantStep(s: System, k: nat, e: Event)
    requires Invariant(s) && CanStep(s, k, e)
    ensures Invariant(Step(s, k, e))
  {
    hide AllHeld, Held, CpuStep, Allowed, SoundCpu;
    ExclusiveStep(s, k, e);
    CpuStepSound(s.taken, s.cpus[k], e);
  }

  lemma {:induction false} NothingHeld(cpus: seq<Cpu>)
    requires forall c <- cpus :: c.below == [] && c.now.guards == []
    ensures AllHeld(cpus) == multiset{}
  {
    if cpus != [] {
      assert cpus[0] in cpus;
      NothingHeld(cpus[1..]);
    }
  }

  lemma {:induction false} InvariantRun(s: System, es: Trace)
    requires Invariant(s) && Feasible(s, es)
    ensures Invariant(Run(s, es)) && |Run(s, es).cpus| == |s.cpus|
    decreases |es|
  {
    hide Invariant;
    if es != [] {
      InvariantStep(s, es[0].0, es[0].1);
      InvariantRun(Step(s, es[0].0, es[0].1), es[1..]);
    }
  }

  lemma InvariantAlways(s: System, es: Trace)
    requires Initial(s) && Feasible(s, es)
    ensures Invariant(Run(s, es))
  {
    NothingHeld(s.cpus);
    InvariantRun(s, es);
  }

  lemma {:induction false} HeldSomewhere(cpus: seq<Cpu>, l: Lock)
    ensures l in AllHeld(cpus) <==> exists k :: 0 <= k < |cpus| && l in Held(cpus[k])
  {
    hide Held;
    if cpus != [] {
      var rest := cpus[1..];
      HeldSomewhere(rest, l);
      if k :| 0 <= k < |rest| && l in Held(rest[k]) {
        assert l in Held(cpus[k + 1]);
      }
      if k :| 0 < k < |cpus| && l in Held(cpus[k]) {
        assert l in Held(rest[k - 1]);
      }
    }
  }

  lemma {:induction false} HeldTwice(cpus: seq<Cpu>, j: nat, k: nat, l: Lock)
    requires j < k < |cpus|
    ensures Held(cpus[j])[l] + Held(cpus[k])[l] <= AllHeld(cpus)[l]
  {
    hide Held;
    if j == 0 {
      AllHeldChange(cpus[1..], k - 1, cpus[k], l);
    } else {
      HeldTwice(cpus[1..], j - 1, k - 1, l);
    }
  }

  /** Mutual exclusion: one CPU at most has a guard for a lock, and only one; the bit is set exactly when there is
      one. */
  lemma MutualExclusion(s: System, es: Trace, l: Lock)
    requires Initial(s) && Feasible(s, es)
    ensures var t := Run(s, es);
      && (l in t.taken <==> exists k :: 0 <= k < |t.cpus| && l in Held(t.cpus[k]))
      && (forall k :: 0 <= k < |t.cpus| ==> Held(t.cpus[k])[l] <= 1)
      && (forall j, k :: 0 <= j < k < |t.cpus| && l in Held(t.cpus[j]) ==> l !in Held(t.cpus[k]))
  {
    hide Held, AllHeld, Feasible, Run;
    var t := Run(s, es);
    InvariantAlways(s, es);
    assert AllHeld(t.cpus)[l] <= 1;
    HeldSomewhere(t.cpus, l);
    forall k | 0 <= k < |t.cpus| ensures Held(t.cpus[k])[l] <= 1 {
      AllHeldChange(t.cpus, k, t.cpus[k], l);
    }
    forall j, k | 0 <= j < k < |t.cpus| && l in Held(t.cpus[j]) ensures l !in Held(t.cpus[k]) {
      HeldTwice(t.cpus, j, k, l);
    }
  }

  lemma {:induction false} NoneBelow(below: seq<Context>)
    requires forall x <- below :: Interrupted(x)
    ensures LocksBelow(below) == multiset{}
  {
    if below != [] {
      assert below[|below| - 1] in below;
      NoneBelow(below[..|below| - 1]);
    }
  }

  /** A CPU with any guard has IRQ and FIQ masked, so no interrupt is taken; hence every guard of a CPU belongs to
      the code it is running, and a handler never waits for a lock of the code that it interrupted. */
  lemma HolderIsMasked(s: System, es: Trace, k: nat)
    requires Initial(s) && Feasible(s, es) && k < |s.cpus|
    ensures var t := Run(s, es);
      && k < |t.cpus|
      && Held(t.cpus[k]) == Locks(t.cpus[k].now.guards)
      && (Held(t.cpus[k]) != multiset{} ==>
            IsMasked(t.cpus[k].now.daif) && forall fiq :: !Allowed(t.cpus[k], Interrupt(fiq)))
  {
    hide Feasible, Run, Exclusive;
    InvariantAlways(s, es);
    SameCpus(s, es);
    var c := Run(s, es).cpus[k];
    assert SoundCpu(c);
    NoneBelow(c.below);
  }

  lemma SameCpus(s: System, es: Trace)
    requires Initial(s) && Feasible(s, es)
    ensures |Run(s, es).cpus| == |s.cpus|
  {
    NothingHeld(s.cpus);
    InvariantRun(s, es);
  }

  // ---- Restoring DAIF ----

  /** The DAIF that the outermost code of a CPU has apart from locks. */
  function Bottom(c: Cpu): Daif { if c.below == [] then c.now.base else c.below[0].base }

  /** An event by which code outside the lock itself rewrites DAIF on CPU `k`. */
  ghost predicate Rewrites(es: Trace, k: nat) { exists i :: 0 <= i < |es| && es[i].0 == k && es[i].1.SetDaif? }

  lemma BottomStep(s: System, j: nat, e: Event, k: nat)
    requires CanStep(s, j, e) && k < |s.cpus| && !(j == k && e.SetDaif?)
    ensures Bottom(Step(s, j, e).cpus[k]) == Bottom(s.cpus[k])
  {
  }

  lemma {:induction false} BottomRun(s: System, es: Trace, k: nat)
    requires Feasible(s, es) && k < |s.cpus| && !Rewrites(es, k)
    ensures k < |Run(s, es).cpus| && Bottom(Run(s, es).cpus[k]) == Bottom(s.cpus[k])
    decreases |es|
  {
    if es != [] {
      assert !(es[0].0 == k && es[0].1.SetDaif?);
      BottomStep(s, es[0].0, es[0].1, k);
      assert forall i :: 0 <= i < |es| - 1 ==> es[1..][i] == es[i + 1];
      BottomRun(Step(s, es[0].0, es[0].1), es[1..], k);
    }
  }

  /** Once a CPU has dropped all its guards and left its handlers, its DAIF is the original one. */
  lemma DaifRestored(s: System, es: Trace, k: nat)
    requires Initial(s) && Feasible(s, es) && k < |s.cpus| && !Rewrites(es, k)
    ensures k < |Run(s, es).cpus|
    ensures var c := Run(s, es).cpus[k];
      c.below == [] && c.now.phase.Running? && c.now.guards == [] ==> c.now.daif == s.cpus[k].now.daif
  {
    hide Feasible, Run, Exclusive, Rewrites;
    InvariantAlways(s, es);
    BottomRun(s, es, k);
    assert s.cpus[k] in s.cpus;
    assert Run(s, es).cpus[k] in Run(s, es).cpus;
  }

  // ---- Guards dropped out of order ----

  /** Both steps of dropping guard `i`, whatever its position. */
  ghost function DropAt(x: Context, i: nat): Context
    requires i < |x.guards|
  {
    x.(guards := x.guards[..i] + x.guards[i + 1..], daif := x.guards[i].saved)
  }

  /** Positions to drop one after the other, each among the guards that are then left. */
  ghost predicate Droppable(x: Context, order: seq<nat>)
  {
    |order| <= |x.guards| && forall t :: 0 <= t < |order| ==> order[t] < |x.guards| - t
  }

  ghost function DropAll(x: Context, order: seq<nat>): Context
    requires Droppable(x, order)
    decreases |order|
  {
    if order == [] then x
    else
      assert Droppable(DropAt(x, order[0]), order[1..]);
      DropAll(DropAt(x, order[0]), order[1..])
  }

  /** The outermost guard keeps position 0 as long as it is held, so the last drop is the one that takes it if that is
      the first drop at position 0. */
  ghost predicate TakesOutermostLast(order: seq<nat>)
  {
    order != [] && order[|order| - 1] == 0 && forall t :: 0 <= t < |order| - 1 ==> order[t] != 0
  }

  /** What drops in any order keep: only the outermost guard, if it is still held, has saved the base DAIF. */
  ghost predicate Scattered(x: Context, outermost: bool)
  {
    && (outermost ==> x.guards != [])
    && forall i :: 0 <= i < |x.guards| ==> x.guards[i].saved == if outermost && i == 0 then x.base else Masked(x.base)
  }

  lemma SoundScattered(x: Context)
    requires Sound(x) && x.guards != []
    ensures Scattered(x, true)
  {
  }

  /** DAIF after any sequence of drops in any order: the base when the last one took the outermost guard. */
  lemma {:induction false} DropsDaif(x: Context, outermost: bool, order: seq<nat>)
    requires Scattered(x, outermost) && Droppable(x, order) && order != []
    ensures var y := DropAll(x, order);
      && |y.guards| == |x.guards| - |order| && y.base == x.base
      && y.daif == if outermost && TakesOutermostLast(order) then x.base else Masked(x.base)
    decreases |order|
  {
    var x', rest := DropAt(x, order[0]), order[1..];
    assert forall t :: 0 <= t < |rest| ==> rest[t] == order[t + 1];
    if rest != [] {
      DropsDaif(x', outermost && order[0] != 0, rest);
      if TakesOutermostLast(rest) && order[0] != 0 {
        assert forall t :: 0 < t < |order| - 1 ==> order[t] == rest[t - 1];
      }
    }
  }

  /** After any drops in any order a context that still holds a guard is masked, unless the last drop took the outermost
      guard and interrupts were not masked to begin with. */
  lemma OutOfOrderIff(x: Context, order: seq<nat>)
    requires Sound(x) && x.guards != [] && Droppable(x, order) && order != []
    ensures var y := DropAll(x, order);
      (y.guards != [] ==> IsMasked(y.daif)) <==> y.guards == [] || !TakesOutermostLast(order) || IsMasked(x.base)
  {
    SoundScattered(x);
    DropsDaif(x, true, order);
  }

  /** Dropping all guards in any order restores DAIF exactly when the outermost one goes last, or interrupts were masked
      to begin with. */
  lemma LastDropDecides(x: Context, order: seq<nat>)
    requires Sound(x) && x.guards != [] && Droppable(x, order) && |order| == |x.guards|
    ensures DropAll(x, order).guards == []
    ensures DropAll(x, order).daif == x.base <==> TakesOutermostLast(order) || IsMasked(x.base)
  {
    SoundScattered(x);
    DropsDaif(x, true, order);
  }

  /** Two locks taken with interrupts on and dropped in the order they were taken: in between, interrupts are on
      although a lock is held, and in the end they are off. */
  lemma OutOfOrderExample()
    ensures var on := Daif(false, false, false, false);
      var x := Context(Running, [Guard(0, on), Guard(1, Masked(on))], on, Masked(on), [0, 1]);
      && Sound(x) && Droppable(x, [0, 0])
      && DropAt(x, 0).guards != [] && !IsMasked(DropAt(x, 0).daif)
      && DropAll(x, [0, 0]).guards == [] && IsMasked(DropAll(x, [0, 0]).daif)
  {
    var on := Daif(false, false, false, false);
    var x := Context(Running, [Guard(0, on), Guard(1, Masked(on))], on, Masked(on), [0, 1]);
    assert x.guards[..1] == [Guard(0, on)] && x.guards[..0] == [];
    assert Sound(x);
    LastDropDecides(x, [0, 0]);
    assert !TakesOutermostLast([0, 0]) by {
      assert [0, 0][0] == 0;
    }
    DropsDaif(x, true, [0, 0]);
  }
}
