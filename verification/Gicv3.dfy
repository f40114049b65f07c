/** The virtual GICv3 distributor: set-enable and set-pending writes, and the interrupts they trigger. */
module Gicv3 {
  import opened ListRegisters
  import opened Options

  const WORD: nat := 32
  const WORDS: nat := 32
  /** The ids that have a priority and a route. */
  const IDS: nat := 1020

  type Bits = seq<seq<bool>>

  ghost predicate IsBits(m: Bits) { |m| == 32 && forall i :: 0 <= i < 32 ==> |m[i]| == 32 }

  /** Bit `id % 32` of register `id / 32`. */
  predicate Bit(m: Bits, id: nat)
    requires IsBits(m) && id < WORD * WORDS
  {
    m[id / WORD][id % WORD]
  }

  function Raised(m: Bits, id: nat): (r: Bits)
    requires IsBits(m) && id < WORD * WORDS
    ensures IsBits(r) && forall j: nat :: j < WORD * WORDS ==> (Bit(r, j) <==> j == id || Bit(m, j))
  {
    m[id / WORD := m[id / WORD][id % WORD := true]]
  }

  function Zeros(): (s: seq<bv64>)
    ensures |s| == 1020 && forall i :: 0 <= i < 1020 ==> s[i] == 0
  {
    seq(IDS, _ => 0)
  }

  /** Registers with no bit set. */
  function NoBits(): (m: Bits)
    ensures IsBits(m) && forall id: nat :: id < WORD * WORDS ==> !Bit(m, id)
  {
    seq(WORDS, _ => seq(WORD, _ => false))
  }

  lemma AlreadyRaised(m: Bits, id: nat)
    requires IsBits(m) && id < WORD * WORDS && Bit(m, id)
    ensures Raised(m, id) == m
  {
    assert m[id / WORD][id % WORD := true] == m[id / WORD];
  }

  /** Bit `k` of a written value. */
  predicate Written(value: nat, k: nat) { if k == 0 then value % 2 == 1 else Written(value / 2, k - 1) }

  /** A write of a register or-ed into its word. */
  function OrWord(m: Bits, register: nat, value: nat): (r: Bits)
    requires IsBits(m) && register < WORDS
    ensures IsBits(r)
    ensures forall id: nat :: id < WORD * WORDS ==>
      (Bit(r, id) <==> Bit(m, id) || (id / 32 == register && Written(value, id % 32)))
  {
    m[register := seq(WORD, k requires 0 <= k < WORD => m[register][k] || Written(value, k))]
  }

  /** The written bits fall inside the word. */
  ghost predicate Writable(register: nat, value: nat)
  {
    register < WORDS && forall k: nat :: Written(value, k) ==> k < WORD
  }

  /** The ids, from `id` on, whose bit is written and set in `m`. */
  ghost function Selected(id: nat, value: nat, m: Bits): seq<nat>
    requires IsBits(m) && forall k: nat :: Written(value, k) ==> id + k < WORD * WORDS
    decreases value
  {
    if value == 0 then [] else
      Halved(id, value);
      (if value % 2 == 1 && Bit(m, id) then [id] else []) + Selected(id + 1, value / 2, m)
  }

  lemma Halved(id: nat, value: nat)
    requires forall k: nat :: Written(value, k) ==> id + k < WORD * WORDS
    ensures value % 2 == 1 ==> id < WORD * WORDS
    ensures forall k: nat :: Written(value / 2, k) ==> id + 1 + k < WORD * WORDS
  {
    assert Written(value, 0) <==> value % 2 == 1;
    forall k: nat | Written(value / 2, k) ensures id + 1 + k < WORD * WORDS {
      assert Written(value, k + 1);
    }
  }

  lemma {:induction false} NothingWritten(k: nat)
    ensures !Written(0, k)
  {
    if k > 0 {
      NothingWritten(k - 1);
    }
  }

  lemma WrittenStep(value: nat, k: nat)
    ensures Written(value, k) <==> if k == 0 then value % 2 == 1 else Written(value / 2, k - 1)
  {
  }

  lemma SelectedFirst(id: nat, value: nat, m: Bits)
    requires IsBits(m) && value > 0 && forall k: nat :: Written(value, k) ==> id + k < WORD * WORDS
    ensures value % 2 == 1 ==> id < WORD * WORDS
    ensures forall k: nat :: Written(value / 2, k) ==> id + 1 + k < WORD * WORDS
    ensures var rest := Selected(id + 1, value / 2, m);
      Selected(id, value, m) == if value % 2 == 1 && Bit(m, id) then [id] + rest else rest
  {
    hide Written, Bit, IsBits;
    Halved(id, value);
    var rest := Selected(id + 1, value / 2, m);
    assert [] + rest == rest;
  }

  lemma NoneSelected(id: nat, m: Bits)
    requires IsBits(m) && forall k: nat :: Written(0, k) ==> id + k < WORD * WORDS
    ensures Selected(id, 0, m) == []
  {
  }

  /** Exactly the written bits that are set in `m`. */
  lemma {:induction false} SelectedExactly(id: nat, value: nat, m: Bits, x: nat)
    requires IsBits(m) && (forall k: nat :: Written(value, k) ==> id + k < WORD * WORDS) && x < WORD * WORDS
    ensures x in Selected(id, value, m) <==> x >= id && Written(value, x - id) && Bit(m, x)
    decreases value
  {
    hide Written, Bit, IsBits, Selected;
    if x >= id {
      WrittenStep(value, x - id);
    }
    if value == 0 {
      NoneSelected(id, m);
      if x >= id {
        NothingWritten(x - id);
      }
    } else {
      Halved(id, value);
      SelectedExactly(id + 1, value / 2, m, x);
      SelectedFirst(id, value, m);
    }
  }

  /** In ascending order, hence once each. */
  lemma {:induction false} SelectedAscending(id: nat, value: nat, m: Bits, i: nat, j: nat)
    requires IsBits(m) && forall k: nat :: Written(value, k) ==> id + k < WORD * WORDS
    requires i <= j < |Selected(id, value, m)|
    ensures var s := Selected(id, value, m); id <= s[i] <= s[j] < WORD * WORDS && (i < j ==> s[i] < s[j])
    decreases value
  {
    hide Written, Bit, IsBits, Selected;
    if value == 0 {
      NoneSelected(id, m);
    }
    SelectedFirst(id, value, m);
    if value % 2 == 0 || !Bit(m, id) {
      SelectedAscending(id + 1, value / 2, m, i, j);
    } else if j > 0 {
      SelectedAscending(id + 1, value / 2, m, if i == 0 then j - 1 else i - 1, j - 1);
    }
  }

  /** A written bit that is set in `m` is set in `m'`. */
  ghost predicate Implied(id: nat, value: nat, m: Bits, m': Bits)
    requires IsBits(m) && IsBits(m') && forall k: nat :: Written(value, k) ==> id + k < WORD * WORDS
  {
    forall k: nat :: Written(value, k) && Bit(m, id + k) ==> Bit(m', id + k)
  }

  lemma ImpliedStep(id: nat, value: nat, m: Bits, m': Bits)
    requires IsBits(m) && IsBits(m') && (forall k: nat :: Written(value, k) ==> id + k < WORD * WORDS)
    requires Implied(id, value, m, m')
    ensures value % 2 == 1 ==> id < WORD * WORDS && (Bit(m, id) ==> Bit(m', id))
    ensures (forall k: nat :: Written(value / 2, k) ==> id + 1 + k < WORD * WORDS) && Implied(id + 1, value / 2, m, m')
  {
    hide Bit, IsBits;
    Halved(id, value);
    assert value % 2 == 1 ==> Written(value, 0);
    forall k: nat | Written(value / 2, k) && Bit(m, id + 1 + k) ensures Bit(m', id + 1 + k) {
      assert Written(value, k + 1);
      var j := k + 1;
      assert Bit(m, id + j) ==> Bit(m', id + j);
    }
  }

  /** The affinity levels in a routing register or in MPIDR_EL1: bits 7 to 0, 15 to 8, 23 to 16, and 39 to 32. */
  function Aff0(affinity: bv64): bv64 { affinity & 0xFF }
  function Aff1(affinity: bv64): bv64 { (affinity & 0xFFFF) >> 8 }
  function Aff2(affinity: bv64): bv64 { (affinity & 0xFF_FFFF) >> 16 }
  function Aff3(affinity: bv64): bv64 { (affinity & 0xFF_FFFF_FFFF) >> 32 }

  /** All four levels agree. */
  predicate SameCpu(a: bv64, b: bv64) {
    Aff3(a) == Aff3(b) && Aff2(a) == Aff2(b) && Aff1(a) == Aff1(b) && Aff0(a) == Aff0(b)
  }

  /** That is, the bits 39 to 32, 23 to 16, 15 to 8 and 7 to 0 of the two registers. */
  lemma SameCpuIff(a: bv64, b: bv64)
    ensures var d := a ^ b;
      SameCpu(a, b) <==> d & 0xFF_0000_0000 == 0 && d & 0xFF_0000 == 0 && d & 0xFF00 == 0 && d & 0xFF == 0
  {
    hide Aff0, Aff1, Aff2, Aff3;
    SameLow(a, b);
    SameHigh(a, b);
  }

  lemma SameLow(a: bv64, b: bv64)
    ensures Aff0(a) == Aff0(b) <==> (a ^ b) & 0xFF == 0
    ensures Aff1(a) == Aff1(b) <==> (a ^ b) & 0xFF00 == 0
  {
  }

  lemma SameHigh(a: bv64, b: bv64)
    ensures Aff2(a) == Aff2(b) <==> (a ^ b) & 0xFF_0000 == 0
    ensures Aff3(a) == Aff3(b) <==> (a ^ b) & 0xFF_0000_0000 == 0
  {
  }

  /** INJECT_INTERRUPT_INT_ID */
  const INJECT: bv64 := 11

  /** What is written to ICC_SGI1R_EL1 to wake the CPU an interrupt is routed to. Affinity level 1 is shifted to the
      place of level 3. */
  function WakeUp(router: bv64): bv64
    requires router & 0xFF < 16
  {
    (Aff3(router) << 48) | (Aff2(router) << 32) | (INJECT << 24) | (Aff1(router) << 48) | (1 << Aff0(router))
  }

  /** The register value addresses the one CPU with this affinity: the target list, the range selector, the affinity
      fields and the routing mode of ICC_SGI1R_EL1. */
  predicate Addresses(value: bv64, affinity: bv64)
    requires affinity & 0xFF < 16
  {
    && value & 0xFFFF == 1 << Aff0(affinity) && (value >> 44) & 0xF == 0 && (value >> 40) & 1 == 0
    && (value >> 16) & 0xFF == Aff1(affinity) && (value >> 32) & 0xFF == Aff2(affinity)
    && (value >> 48) & 0xFF == Aff3(affinity)
  }

  /** The fields that are written: levels 3 and 1 run together, level 2, the interrupt, and one CPU in the list. */
  lemma WakeUpFields(router: bv64)
    requires router & 0xFF < 16
    ensures WakeUp(router) >> 48 == ((router >> 32) & 0xFF) | ((router >> 8) & 0xFF)
    ensures (WakeUp(router) >> 32) & 0xFFFF == (router >> 16) & 0xFF
    ensures (WakeUp(router) >> 16) & 0xFFFF == 0xB00 && WakeUp(router) & 0xFFFF == 1 << (router & 0xFF)
  {
  }

  /** The interrupt that is raised is number 11, which makes the other CPU look at the queue; it is raised on the CPU of
      the route if and only if affinity level 1 of the route is zero. */
  lemma WakeUpIff(router: bv64)
    requires router & 0xFF < 16
    ensures (WakeUp(router) >> 24) & 0xFF == 11
    ensures Addresses(WakeUp(router), router) <==> Aff1(router) == 0
  {
  }

  /** An interrupt routed to CPU 0 of cluster 1 wakes CPU 0 of the cluster with level 3 equal to 1. */
  lemma WrongCpuExample()
    ensures WakeUp(0x100) == WakeUp(0x1_0000_0000)
    ensures Addresses(WakeUp(0x100), 0x1_0000_0000) && !Addresses(WakeUp(0x100), 0x100)
  {
    WakeUpIff(0x100);
    WakeUpIff(0x1_0000_0000);
  }

  /** What decides whether, how and where an interrupt is delivered: ENABLE_GRP1NS and ARE_S of the control register,
      the enable, group, group modifier, priority and routing registers, and the affinity of this CPU. */
  datatype Settings = Settings(groupOne: bool, affinityRouting: bool, enable: Bits, group: Bits, modifier: Bits,
                               priority: seq<bv64>, router: seq<bv64>, mpidr: bv64)
  {
    ghost predicate Valid()
    {
      && IsBits(enable) && IsBits(group) && IsBits(modifier) && |router| == 1020
      && |priority| == 1020 && forall i :: 0 <= i < IDS ==> priority[i] <= 0xFF
    }

    /** The code gets as far as the priority and the route of the interrupt. */
    ghost predicate Reaches(id: nat)
      requires Valid() && id < WORD * WORDS
    {
      groupOne && Bit(enable, id) && !Bit(modifier, id)
    }

    /** The interrupt is routed to this CPU. */
    predicate IsLocal(id: nat)
      requires Valid() && id < IDS
    {
      SameCpu(router[id], mpidr)
    }

    /** What the code demands of an interrupt to trigger: that there is a priority and a route if it looks for them, and
        that another CPU can be signalled. */
    ghost predicate Serviceable(id: nat)
      requires Valid()
    {
      id < WORD * WORDS && (Reaches(id) ==> id < IDS && (affinityRouting && !IsLocal(id) ==> router[id] & 0xFF < 16))
    }

    /** The interrupt is delivered, to the list registers here or to another CPU. */
    ghost predicate Delivers(id: nat, here: bool)
      requires Valid() && Serviceable(id)
    {
      Reaches(id) && affinityRouting && IsLocal(id) == here
    }

    function Entry(id: nat, physical: Option<bv64>): Register
      requires Valid() && id < IDS
    {
      CreateEntry(id as bv64, if Bit(group, id) then 1 else 0, priority[id], physical)
    }
  }

  ghost predicate AllServiceable(c: Settings, ids: seq<nat>)
    requires c.Valid()
  {
    forall i :: 0 <= i < |ids| ==> c.Serviceable(ids[i])
  }

  /** The entries of those among `ids` that are delivered here, or elsewhere. */
  ghost function Entries(c: Settings, ids: seq<nat>, here: bool): seq<Register>
    requires c.Valid() && AllServiceable(c, ids)
  {
    if ids == [] then []
    else (if c.Delivers(ids[0], here) then [c.Entry(ids[0], None)] else []) + Entries(c, ids[1..], here)
  }

  /** The software interrupts for those that are delivered elsewhere. */
  ghost function WakeUps(c: Settings, ids: seq<nat>): seq<bv64>
    requires c.Valid() && AllServiceable(c, ids)
  {
    if ids == [] then []
    else (if c.Delivers(ids[0], false) then [WakeUp(c.router[ids[0]])] else []) + WakeUps(c, ids[1..])
  }

  /** The effect of one trigger on the list registers, on the queue for other CPUs, and what it writes to wake them. */
  ghost function Delivered(c: Settings, regs: seq<Register>, id: nat, physical: Option<bv64>): seq<Register>
    requires c.Valid() && c.Serviceable(id)
  {
    if c.Delivers(id, true) then Offer(regs, c.Entry(id, physical)) else regs
  }

  ghost function Queued(c: Settings, queue: seq<Register>, id: nat, physical: Option<bv64>): seq<Register>
    requires c.Valid() && c.Serviceable(id)
  {
    if c.Delivers(id, false) then queue + [c.Entry(id, physical)] else queue
  }

  ghost function Woken(c: Settings, sgis: seq<bv64>, id: nat): seq<bv64>
    requires c.Valid() && c.Serviceable(id)
  {
    if c.Delivers(id, false) then sgis + [WakeUp(c.router[id])] else sgis
  }

  lemma WakeUpsStep(c: Settings, sgis: seq<bv64>, ids: seq<nat>)
    requires c.Valid() && AllServiceable(c, ids) && ids != []
    ensures AllServiceable(c, ids[1..]) && c.Serviceable(ids[0])
    ensures sgis + WakeUps(c, ids) == Woken(c, sgis, ids[0]) + WakeUps(c, ids[1..])
  {
    hide WakeUp, IsBits, Bit;
    var rest := WakeUps(c, ids[1..]);
    if c.Delivers(ids[0], false) {
      var value := WakeUp(c.router[ids[0]]);
      assert sgis + ([value] + rest) == (sgis + [value]) + rest;
    } else {
      assert [] + rest == rest;
    }
  }

  lemma EntriesStep(c: Settings, ids: seq<nat>, here: bool)
    requires c.Valid() && AllServiceable(c, ids) && ids != []
    ensures AllServiceable(c, ids[1..]) && c.Serviceable(ids[0])
    ensures c.Delivers(ids[0], here) ==> ids[0] < IDS
    ensures Entries(c, ids, here)
         == (if c.Delivers(ids[0], here) then [c.Entry(ids[0], None)] else []) + Entries(c, ids[1..], here)
  {
    hide Settings.Entry;
  }

  lemma OfferFirst(regs: seq<Register>, entry: Register, entries: seq<Register>)
    ensures OfferAll(regs, [entry] + entries) == OfferAll(Offer(regs, entry), entries)
    ensures [] + entries == entries
  {
    hide Offer;
    assert ([entry] + entries)[1..] == entries;
  }

  lemma DeliveredFirst(c: Settings, regs: seq<Register>, queue: seq<Register>, ids: seq<nat>)
    requires c.Valid() && AllServiceable(c, ids) && ids != []
    ensures AllServiceable(c, ids[1..]) && c.Serviceable(ids[0])
    ensures OfferAll(regs, Entries(c, ids, true))
         == OfferAll(Delivered(c, regs, ids[0], None), Entries(c, ids[1..], true))
    ensures queue + Entries(c, ids, false) == Queued(c, queue, ids[0], None) + Entries(c, ids[1..], false)
  {
    hide Offer, OfferAll, Entries, Settings.Entry, Settings.Serviceable, Settings.Delivers, AllServiceable;
    EntriesStep(c, ids, true);
    EntriesStep(c, ids, false);
    var here, rest := Entries(c, ids[1..], true), Entries(c, ids[1..], false);
    if c.Delivers(ids[0], true) {
      OfferFirst(regs, c.Entry(ids[0], None), here);
    } else {
      assert [] + here == here;
    }
    if c.Delivers(ids[0], false) {
      var entry := c.Entry(ids[0], None);
      assert queue + ([entry] + rest) == (queue + [entry]) + rest;
    } else {
      assert [] + rest == rest;
    }
  }

  /** One round of the loop over the written bits. */
  lemma SelectedStep(c: Settings, regs: seq<Register>, queue: seq<Register>, sgis: seq<bv64>,
                     id: nat, value: nat, m: Bits)
    requires c.Valid() && IsBits(m) && value > 0 && forall k: nat :: Written(value, k) ==> id + k < WORD * WORDS
    requires AllServiceable(c, Selected(id, value, m))
    ensures forall k: nat :: Written(value / 2, k) ==> id + 1 + k < WORD * WORDS
    ensures AllServiceable(c, Selected(id + 1, value / 2, m))
    ensures var rest := Selected(id + 1, value / 2, m);
      && (value % 2 == 1 ==> id < WORD * WORDS)
      && if value % 2 == 1 && Bit(m, id) then
           && c.Serviceable(id)
           && OfferAll(regs, Entries(c, Selected(id, value, m), true))
             == OfferAll(Delivered(c, regs, id, None), Entries(c, rest, true))
           && queue + Entries(c, Selected(id, value, m), false) == Queued(c, queue, id, None) + Entries(c, rest, false)
           && sgis + WakeUps(c, Selected(id, value, m)) == Woken(c, sgis, id) + WakeUps(c, rest)
         else
           Selected(id, value, m) == rest
  {
    hide Bit, IsBits, Written, Entries, OfferAll, Delivered, Queued, Settings.Serviceable, WakeUps, Woken;
    Halved(id, value);
    var s, rest := Selected(id, value, m), Selected(id + 1, value / 2, m);
    if value % 2 == 1 && Bit(m, id) {
      assert s == [id] + rest;
      assert s[0] == id && s[1..] == rest;
      DeliveredFirst(c, regs, queue, s);
      WakeUpsStep(c, sgis, s);
    } else {
      assert s == rest;
    }
  }

  lemma SmallId(id: nat)
    requires id < IDS
    ensures id as bv64 <= VINTID
  {
  }

  lemma EntryGood(c: Settings, id: nat)
    requires c.Valid() && id < IDS
    ensures Pends(c.Entry(id, None)) && Id(c.Entry(id, None)) == id as bv64
  {
    hide IsBits, Bit, CreateEntry, Pends, Id;
    SmallId(id);
    var g: bv64, p := if Bit(c.group, id) then 1 else 0, c.priority[id];
    EntryId(id as bv64, g, p, None);
    EntryPends(id as bv64, g, p, None);
    PendsIsLive(c.Entry(id, None));
  }

  /** The ids among `ids` that are delivered here, or elsewhere. */
  ghost function Chosen(c: Settings, ids: seq<nat>, here: bool): seq<nat>
    requires c.Valid() && AllServiceable(c, ids)
  {
    if ids == [] then [] else (if c.Delivers(ids[0], here) then [ids[0]] else []) + Chosen(c, ids[1..], here)
  }

  /** The entry carries the id with its group and priority, and the physical id if there is one. */
  ghost predicate EntryFor(c: Settings, id: nat, physical: Option<bv64>, r: Register)
    requires c.Valid()
  {
    id < IDS && EntryIs(r, id as bv64, Bit(c.group, id), c.priority[id], physical)
  }

  ghost predicate EntriesFor(c: Settings, ids: seq<nat>, es: seq<Register>)
    requires c.Valid()
  {
    |es| == |ids| && forall k :: 0 <= k < |ids| ==> EntryFor(c, ids[k], None, es[k])
  }

  lemma EntryIsFor(c: Settings, id: nat, physical: Option<bv64>)
    requires c.Valid() && id < IDS && Narrow(physical)
    ensures EntryFor(c, id, physical, c.Entry(id, physical))
  {
    hide IsBits, Bit, CreateEntry, EntryIs;
    SmallId(id);
    CreateEntryIs(id as bv64, if Bit(c.group, id) then 1 else 0, c.priority[id], physical);
  }

  lemma {:induction false} EntriesAreFor(c: Settings, ids: seq<nat>, here: bool)
    requires c.Valid() && AllServiceable(c, ids)
    ensures EntriesFor(c, Chosen(c, ids, here), Entries(c, ids, here))
  {
    hide IsBits, Bit, Settings.Entry, EntryFor;
    if ids != [] {
      EntriesAreFor(c, ids[1..], here);
      if c.Delivers(ids[0], here) {
        EntryIsFor(c, ids[0], None);
      }
    }
  }

  /** The registers after an entry for each of the ids, in order, was offered to them. */
  ghost predicate OfferedTo(c: Settings, ids: seq<nat>, regs: seq<Register>, regs': seq<Register>)
    requires c.Valid()
  {
    exists es :: EntriesFor(c, ids, es) && regs' == OfferAll(regs, es)
  }

  /** The queue after an entry for each of the ids, in order, was put in it. */
  ghost predicate QueuedIn(c: Settings, ids: seq<nat>, queue: seq<Register>, queue': seq<Register>)
    requires c.Valid()
  {
    exists es :: EntriesFor(c, ids, es) && queue' == queue + es
  }

  /** Every entry is pending. */
  lemma {:induction false} EntriesPend(c: Settings, ids: seq<nat>, here: bool)
    requires c.Valid() && AllServiceable(c, ids)
    ensures forall e <- Entries(c, ids, here) :: Pends(e)
  {
    hide IsBits, Bit, Settings.Entry, Pends, Id;
    if ids != [] {
      if c.Delivers(ids[0], here) {
        EntryGood(c, ids[0]);
      }
      EntriesPend(c, ids[1..], here);
    }
  }

  /** Each delivered id has its entry. */
  lemma {:induction false} EntriesComplete(c: Settings, ids: seq<nat>, id: nat, here: bool)
    requires c.Valid() && AllServiceable(c, ids) && id in ids && c.Serviceable(id) && c.Delivers(id, here)
    ensures c.Entry(id, None) in Entries(c, ids, here)
  {
    hide IsBits, Bit, Settings.Entry;
    if ids[0] != id {
      assert id in ids[1..];
      EntriesComplete(c, ids[1..], id, here);
    }
  }

  /** What a write of the set-enable or set-pending register does to the list registers: no live one changes its id,
      and every id delivered here is pending there unless all of them are live with other ids. */
  lemma WriteDelivers(c: Settings, regs: seq<Register>, ids: seq<nat>, id: nat)
    requires c.Valid() && AllServiceable(c, ids) && id in ids && c.Serviceable(id) && c.Delivers(id, true)
    ensures var regs' := OfferAll(regs, Entries(c, ids, true));
      Keeps(regs, regs') && (PendingIn(regs', id as bv64) || Crowded(regs', id as bv64))
  {
    hide IsBits, Bit, Settings.Entry, Pends, Id, Keeps, PendingIn, Crowded, OfferAll, Entries;
    EntriesPend(c, ids, true);
    EntriesComplete(c, ids, id, true);
    EntryGood(c, id);
    DrainKeeps(regs, Entries(c, ids, true));
  }

  class Distributor {
    var settings: Settings
    var pending: Bits
    /** `to_inject_interrupt`: entries for other CPUs. */
    var queue: seq<Register>
    /** The values written to ICC_SGI1R_EL1, which wake other CPUs. */
    var sgis: seq<bv64>
    /** The list registers of this CPU. */
    const lrs: array<Register>

    ghost predicate Valid()
      reads this
    {
      settings.Valid() && IsBits(pending)
    }

    /** Reset: nothing enabled, pending or routed. */
    constructor (mpidr: bv64, lrs: array<Register>)
      ensures Valid() && this.lrs == lrs && queue == [] && sgis == [] && settings.mpidr == mpidr
      ensures !settings.groupOne && !settings.affinityRouting
      ensures forall id: nat :: id < WORD * WORDS ==> !Bit(pending, id) && !Bit(settings.enable, id)
      ensures forall id: nat :: id < WORD * WORDS ==> !Bit(settings.group, id) && !Bit(settings.modifier, id)
      ensures forall id: nat :: id < IDS ==> settings.priority[id] == settings.router[id] == 0
    {
      hide IsBits, Bit, NoBits, Zeros;
      var none := NoBits();
      settings := Settings(false, false, none, none, none, Zeros(), Zeros(), mpidr);
      pending, queue, sgis, this.lrs := none, [], [], lrs;
    }

    /** `trigger_interrupt` */
    method TriggerInterrupt(id: nat, physical: Option<bv64>)
      requires Valid() && settings.Serviceable(id)
      modifies this`pending, this`queue, this`sgis, lrs
      ensures Valid() && pending == if settings.groupOne then Raised(old(pending), id) else old(pending)
      ensures lrs[..] == Delivered(settings, old(lrs[..]), id, physical)
      ensures queue == Queued(settings, old(queue), id, physical) && sgis == Woken(settings, old(sgis), id)
      ensures Narrow(physical) && settings.Delivers(id, true) ==>
        exists e :: EntryFor(settings, id, physical, e) && lrs[..] == Offer(old(lrs[..]), e)
      ensures Narrow(physical) && settings.Delivers(id, false) ==>
        exists e :: EntryFor(settings, id, physical, e) && queue == old(queue) + [e]
    {
      hide IsBits, Bit, Raised, Offer, CreateEntry, WakeUp, EntryFor;
      if !settings.groupOne {
        return;
      }
      pending := Raised(pending, id);
      if !Bit(settings.enable, id) {
        return;
      }
      if Bit(settings.modifier, id) {
        return;
      }
      var entry := settings.Entry(id, physical);
      if Narrow(physical) {
        EntryIsFor(settings, id, physical);
      }
      if !settings.affinityRouting {
        return;
      }
      if settings.IsLocal(id) {
        AddVirtualInterrupt(lrs, entry);
      } else {
        queue := queue + [entry];
        sgis := sgis + [WakeUp(settings.router[id])];
      }
    }

    /** The loop of a set-enable or set-pending write: triggers the written ids whose bit is set in `m`. All of them
        are pending already, so the pending bits stay as they are. */
    method TriggerWritten(register: nat, value: nat, m: Bits)
      requires Valid() && IsBits(m) && Writable(register, value) && Implied(register * WORD, value, m, pending)
      requires AllServiceable(settings, Selected(register * WORD, value, m))
      modifies this`pending, this`queue, this`sgis, lrs
      ensures Valid() && pending == old(pending)
      ensures sgis == old(sgis) + WakeUps(settings, Selected(register * WORD, value, m))
      ensures lrs[..] == OfferAll(old(lrs[..]), Entries(settings, Selected(register * WORD, value, m), true))
      ensures queue == old(queue) + Entries(settings, Selected(register * WORD, value, m), false)
    {
      hide IsBits, Bit, Raised, Offer, OfferAll, Written, Delivered, Queued, Implied, Entries, AllServiceable, Selected,
        Settings.Serviceable, WakeUps, Woken;
      var id: nat, rest: nat := register * WORD, value;
      var c := settings;
      ghost var all := Selected(id, rest, m);
      while rest != 0
        invariant Valid() && pending == old(pending) && forall k: nat :: Written(rest, k) ==> id + k < WORD * WORDS
        invariant Implied(id, rest, m, pending) && AllServiceable(c, Selected(id, rest, m))
        invariant OfferAll(lrs[..], Entries(c, Selected(id, rest, m), true))
               == OfferAll(old(lrs[..]), Entries(c, all, true))
        invariant queue + Entries(c, Selected(id, rest, m), false) == old(queue) + Entries(c, all, false)
        invariant sgis + WakeUps(c, Selected(id, rest, m)) == old(sgis) + WakeUps(c, all)
        decreases rest
      {
        SelectedStep(c, lrs[..], queue, sgis, id, rest, m);
        ImpliedStep(id, rest, m, pending);
        if rest % 2 == 1 && Bit(m, id) {
          AlreadyRaised(pending, id);
          TriggerInterrupt(id, None);
        }
        id, rest := id + 1, rest / 2;
      }
      NothingLeft(c, lrs[..], queue, sgis, id, m);
    }

    /** A write of ISENABLER: enables, and triggers what was pending. */
    method WriteSetEnable(register: nat, value: nat)
      requires Valid() && Writable(register, value)
      requires var after := settings.(enable := OrWord(settings.enable, register, value));
        AllServiceable(after, Selected(register * WORD, value, pending))
      modifies this, lrs
      ensures Valid() && pending == old(pending)
      ensures settings == old(settings).(enable := OrWord(old(settings.enable), register, value))
      ensures AllServiceable(settings, Selected(register * WORD, value, pending))
      ensures lrs[..] == OfferAll(old(lrs[..]), Entries(settings, Selected(register * WORD, value, pending), true))
      ensures queue == old(queue) + Entries(settings, Selected(register * WORD, value, pending), false)
      ensures sgis == old(sgis) + WakeUps(settings, Selected(register * WORD, value, pending))
      ensures var ids := Selected(register * WORD, value, pending);
        && OfferedTo(settings, Chosen(settings, ids, true), old(lrs[..]), lrs[..])
        && QueuedIn(settings, Chosen(settings, ids, false), old(queue), queue)
    {
      hide OfferAll, Entries, Selected, AllServiceable, WakeUps, EntriesFor, Chosen;
      settings := settings.(enable := OrWord(settings.enable, register, value));
      TriggerWritten(register, value, pending);
      EntriesAreFor(settings, Selected(register * WORD, value, pending), true);
      EntriesAreFor(settings, Selected(register * WORD, value, pending), false);
    }

    /** A write of ISPENDR: makes pending, and triggers what was enabled. */
    method WriteSetPending(register: nat, value: nat)
      requires Valid() && Writable(register, value)
      requires AllServiceable(settings, Selected(register * WORD, value, settings.enable))
      modifies this, lrs
      ensures Valid() && settings == old(settings) && pending == OrWord(old(pending), register, value)
      ensures var ids := Selected(register * WORD, value, settings.enable);
        && lrs[..] == OfferAll(old(lrs[..]), Entries(settings, ids, true))
        && queue == old(queue) + Entries(settings, ids, false) && sgis == old(sgis) + WakeUps(settings, ids)
        && OfferedTo(settings, Chosen(settings, ids, true), old(lrs[..]), lrs[..])
        && QueuedIn(settings, Chosen(settings, ids, false), old(queue), queue)
    {
      hide OfferAll, Entries, Selected, AllServiceable, WakeUps, EntriesFor, Chosen;
      pending := OrWord(pending, register, value);
      TriggerWritten(register, value, settings.enable);
      EntriesAreFor(settings, Selected(register * WORD, value, settings.enable), true);
      EntriesAreFor(settings, Selected(register * WORD, value, settings.enable), false);
    }
  }

  lemma NothingLeft(c: Settings, regs: seq<Register>, queue: seq<Register>, sgis: seq<bv64>, id: nat, m: Bits)
    requires c.Valid() && IsBits(m) && forall k: nat :: Written(0, k) ==> id + k < WORD * WORDS
    ensures Selected(id, 0, m) == [] && AllServiceable(c, [])
    ensures OfferAll(regs, Entries(c, [], true)) == regs && queue + Entries(c, [], false) == queue
    ensures sgis + WakeUps(c, []) == sgis
  {
  }
}
