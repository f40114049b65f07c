/** The GICv3 list registers: how an entry is built and how entries are offered to the registers. */
module ListRegisters {
  import opened Options

  type Register = bv64

  const STATUS: bv64 := 0xC000_0000_0000_0000
  const PENDING: bv64 := 0x4000_0000_0000_0000
  const HW: bv64 := 0x2000_0000_0000_0000
  const EOI: bv64 := 0x0000_0200_0000_0000
  const VINTID: bv64 := 0x0000_0000_FFFF_FFFF

  /** Bits 63 and 62: the interrupt is active, pending, or both. */
  predicate Live(r: Register): (b: bool)
    ensures b <==> r >> 62 != 0
  {
    r & STATUS != 0
  }

  /** Bit 62. */
  predicate Pends(r: Register): (b: bool)
    ensures b <==> (r >> 62) & 1 == 1
  {
    r & PENDING != 0
  }

  /** Bits 31 to 0. */
  function Id(r: Register): (id: bv64)
    ensures id <= 0xFFFF_FFFF && r - id == (r >> 32) << 32
  {
    r & VINTID
  }

  /** Sets bit 62 and no other. */
  function Raise(r: Register): (p: Register)
    ensures Pends(p) && p & 0xBFFF_FFFF_FFFF_FFFF == r & 0xBFFF_FFFF_FFFF_FFFF
  {
    r | PENDING
  }

  function CreateEntry(intId: bv64, group: bv64, priority: bv64, physical: Option<bv64>): Register
  {
    var entry := PENDING | (group << 60) | (priority << 48) | intId;
    match physical
    case Some(p) => entry | HW | (p << 32)
    case None => entry | EOI
  }

  ghost predicate Fits(intId: bv64, group: bv64, priority: bv64, physical: Option<bv64>)
  {
    intId <= VINTID && group <= 1 && priority <= 0xFF && Narrow(physical)
  }

  /** A physical id, if there is one, fits in 13 bits. */
  predicate Narrow(physical: Option<bv64>) { physical.Some? ==> physical.value <= 0x1FFF }

  /** Every field reads back, and the entry is pending: nothing overlaps while each value fits its field. */
  lemma EntryId(intId: bv64, group: bv64, priority: bv64, physical: Option<bv64>)
    requires Fits(intId, group, priority, physical)
    ensures Id(CreateEntry(intId, group, priority, physical)) == intId
  {
  }

  lemma EntryPends(intId: bv64, group: bv64, priority: bv64, physical: Option<bv64>)
    requires Fits(intId, group, priority, physical)
    ensures CreateEntry(intId, group, priority, physical) & STATUS == PENDING
  {
  }

  lemma EntryPriority(intId: bv64, group: bv64, priority: bv64, physical: Option<bv64>)
    requires Fits(intId, group, priority, physical)
    ensures (CreateEntry(intId, group, priority, physical) >> 48) & 0xFF == priority
    ensures (CreateEntry(intId, group, priority, physical) >> 60) & 1 == group
  {
  }

  lemma EntryLink(intId: bv64, group: bv64, priority: bv64, physical: Option<bv64>)
    requires Fits(intId, group, priority, physical)
    ensures var r := CreateEntry(intId, group, priority, physical);
      && (r & HW != 0 <==> physical.Some?) && (physical.None? ==> r & EOI != 0)
      && (physical.Some? ==> (r >> 32) & 0x1FFF == physical.value)
  {
  }

  /** The fields of a list register as the CPU reads them: pending and not active (bits 63 and 62), linked to a physical
      interrupt or not (bit 61), the group (bit 60), the priority (bits 55 to 48), the physical id (bits 44 to 32) or
      the maintenance request (bit 41), and the id (bits 31 to 0). Every other bit is zero. */
  ghost predicate EntryIs(r: Register, id: bv64, group: bool, priority: bv64, physical: Option<bv64>) {
    && r >> 62 == 1 && ((r >> 61) & 1 == 1 <==> physical.Some?) && ((r >> 60) & 1 == 1 <==> group)
    && (r >> 56) & 0xF == 0 && (r >> 48) & 0xFF == priority && r & 0xFFFF_FFFF == id
    && (r >> 32) & 0xFFFF == if physical.Some? then physical.value else 0x200
  }

  lemma CreateEntryIs(intId: bv64, group: bv64, priority: bv64, physical: Option<bv64>)
    requires Fits(intId, group, priority, physical)
    ensures EntryIs(CreateEntry(intId, group, priority, physical), intId, group == 1, priority, physical)
  {
  }

  lemma PendsIsLive(r: Register)
    ensures (Pends(r) ==> Live(r)) && (r & STATUS == PENDING ==> Pends(r))
  {
  }

  lemma RaisePends(r: Register)
    ensures Pends(Raise(r))
  {
  }

  lemma RaiseKeepsId(r: Register)
    ensures Id(Raise(r)) == Id(r)
  {
  }

  // ---- Offering an entry ----

  /** The register that takes an entry: the first that is idle or already has its id. */
  function Target(regs: seq<Register>, entry: Register): (k: nat)
    ensures k <= |regs| && (k < |regs| ==> !Live(regs[k]) || Id(regs[k]) == Id(entry))
    ensures forall i :: 0 <= i < k ==> Live(regs[i]) && Id(regs[i]) != Id(entry)
  {
    if regs == [] || !Live(regs[0]) || Id(regs[0]) == Id(entry) then 0 else 1 + Target(regs[1..], entry)
  }

  /** `add_virtual_interrupt` on the usable registers; a full set drops the entry. */
  function Offer(regs: seq<Register>, entry: Register): (r: seq<Register>)
    ensures |r| == |regs|
  {
    var k := Target(regs, entry);
    if k == |regs| then regs else regs[k := if Live(regs[k]) then Raise(regs[k]) else entry]
  }

  lemma {:induction false} TargetIs(regs: seq<Register>, entry: Register, k: nat)
    requires k <= |regs| && (k < |regs| ==> !Live(regs[k]) || Id(regs[k]) == Id(entry))
    requires forall i :: 0 <= i < k ==> Live(regs[i]) && Id(regs[i]) != Id(entry)
    ensures Target(regs, entry) == k
  {
    hide Live, Id;
    if k > 0 {
      TargetIs(regs[1..], entry, k - 1);
    }
  }

  method AddVirtualInterrupt(regs: array<Register>, entry: Register)
    modifies regs
    ensures regs[..] == Offer(old(regs[..]), entry)
  {
    hide Live, Id, Raise, Target;
    for i := 0 to regs.Length
      invariant regs[..] == old(regs[..])
      invariant forall j :: 0 <= j < i ==> Live(regs[j]) && Id(regs[j]) != Id(entry)
    {
      if !Live(regs[i]) {
        TargetIs(regs[..], entry, i);
        regs[i] := entry;
        return;
      } else if Id(regs[i]) == Id(entry) {
        TargetIs(regs[..], entry, i);
        regs[i] := Raise(regs[i]);
        return;
      }
    }
    TargetIs(regs[..], entry, regs.Length);
  }

  /** Some register holds the id as pending. */
  ghost predicate PendingIn(regs: seq<Register>, id: bv64)
  {
    exists i :: 0 <= i < |regs| && Pends(regs[i]) && Id(regs[i]) == id
  }

  /** Every register is live with another id. */
  ghost predicate Crowded(regs: seq<Register>, id: bv64)
  {
    forall i :: 0 <= i < |regs| ==> Live(regs[i]) && Id(regs[i]) != id
  }

  /** From one register set to a later one: a live register stays live with its id, a pending one pending. */
  ghost predicate Keeps(regs: seq<Register>, later: seq<Register>)
  {
    && |later| == |regs|
    && (forall i :: 0 <= i < |regs| && Live(regs[i]) ==> Live(later[i]) && Id(later[i]) == Id(regs[i]))
    && (forall i :: 0 <= i < |regs| && Pends(regs[i]) ==> Pends(later[i]))
  }

  lemma OfferKeeps(regs: seq<Register>, entry: Register)
    requires Pends(entry)
    ensures Keeps(regs, Offer(regs, entry))
    ensures PendingIn(Offer(regs, entry), Id(entry)) <==> !Crowded(regs, Id(entry))
    ensures Crowded(regs, Id(entry)) ==> Offer(regs, entry) == regs
  {
    hide Live, Pends, Id, Raise;
    var k, regs' := Target(regs, entry), Offer(regs, entry);
    forall i | 0 <= i < |regs| ensures Pends(regs[i]) ==> Live(regs[i]) {
      PendsIsLive(regs[i]);
    }
    if k < |regs| {
      RaisePends(regs[k]);
      PendsIsLive(Raise(regs[k]));
      RaiseKeepsId(regs[k]);
      PendsIsLive(entry);
      assert Pends(regs'[k]) && Id(regs'[k]) == Id(entry);
    }
  }

  /** The registers after a queue of entries has been emptied into them. */
  function OfferAll(regs: seq<Register>, entries: seq<Register>): (r: seq<Register>)
    ensures |r| == |regs|
    decreases |entries|
  {
    if entries == [] then regs else OfferAll(Offer(regs, entries[0]), entries[1..])
  }

  /** `inject_interrupt_handler`: the distributor's queue first, then the redistributor's. */
  method InjectInterruptHandler(regs: array<Register>, distributor: seq<Register>, redistributor: seq<Register>)
    modifies regs
    ensures regs[..] == OfferAll(OfferAll(old(regs[..]), distributor), redistributor)
  {
    Drain(regs, distributor);
    Drain(regs, redistributor);
  }

  method Drain(regs: array<Register>, queue: seq<Register>)
    modifies regs
    ensures regs[..] == OfferAll(old(regs[..]), queue)
  {
    hide Offer;
    var rest := queue;
    while rest != []
      invariant OfferAll(regs[..], rest) == OfferAll(old(regs[..]), queue)
      decreases |rest|
    {
      AddVirtualInterrupt(regs, rest[0]);
      rest := rest[1..];
    }
  }

  lemma KeepsPending(regs: seq<Register>, later: seq<Register>, id: bv64)
    requires Keeps(regs, later)
    ensures PendingIn(regs, id) ==> PendingIn(later, id)
    ensures Crowded(regs, id) ==> Crowded(later, id)
  {
    hide Live, Pends, Id;
    if i :| 0 <= i < |regs| && Pends(regs[i]) && Id(regs[i]) == id {
      PendsIsLive(regs[i]);
      assert Pends(later[i]) && Id(later[i]) == id;
    }
  }

  lemma KeepsTwice(a: seq<Register>, b: seq<Register>, c: seq<Register>)
    requires Keeps(a, b) && Keeps(b, c)
    ensures Keeps(a, c)
  {
    hide Live, Pends, Id;
  }

  /** Draining a queue of any length never changes the id of a live register, and every offered id ends up pending,
      unless all registers are live with other ids. */
  lemma {:induction false} DrainKeeps(regs: seq<Register>, entries: seq<Register>)
    requires forall e <- entries :: Pends(e)
    ensures Keeps(regs, OfferAll(regs, entries))
    ensures forall e <- entries :: PendingIn(OfferAll(regs, entries), Id(e)) || Crowded(OfferAll(regs, entries), Id(e))
    decreases |entries|
  {
    hide Live, Pends, Id, Raise, Offer, PendingIn, Crowded;
    if entries == [] {
      KeepsSelf(regs);
    } else {
      var e, regs' := entries[0], Offer(regs, entries[0]);
      OfferKeeps(regs, e);
      DrainKeeps(regs', entries[1..]);
      var final := OfferAll(regs', entries[1..]);
      KeepsTwice(regs, regs', final);
      KeepsPending(regs', final, Id(e));
      assert forall x <- entries :: x == e || x in entries[1..];
    }
  }

  lemma KeepsSelf(regs: seq<Register>)
    ensures Keeps(regs, regs)
  {
    hide Live, Pends, Id;
  }

  // ---- One register per id ----

  ghost predicate Distinct(regs: seq<Register>)
  {
    forall i, j :: 0 <= i < j < |regs| && Live(regs[i]) && Live(regs[j]) ==> Id(regs[i]) != Id(regs[j])
  }

  /** An idle register is met before the live one that has the id. */
  ghost predicate Hidden(regs: seq<Register>, entry: Register)
  {
    var k := Target(regs, entry);
    k < |regs| && !Live(regs[k]) && exists j :: k < j < |regs| && Live(regs[j]) && Id(regs[j]) == Id(entry)
  }

  /** The code can put one id in two live registers: exactly when an idle register hides the live one. */
  lemma DuplicateIff(regs: seq<Register>, entry: Register)
    requires Distinct(regs) && Pends(entry)
    ensures Distinct(Offer(regs, entry)) <==> !Hidden(regs, entry)
  {
    hide Live, Pends, Id, Raise;
    var k, regs' := Target(regs, entry), Offer(regs, entry);
    PendsIsLive(entry);
    if k < |regs| {
      RaisePends(regs[k]);
      PendsIsLive(Raise(regs[k]));
      RaiseKeepsId(regs[k]);
      assert Live(regs'[k]) && Id(regs'[k]) == Id(entry);
      if j :| k < j < |regs| && !Live(regs[k]) && Live(regs[j]) && Id(regs[j]) == Id(entry) {
        assert regs'[j] == regs[j];
      }
    }
  }

  lemma DuplicateExample(r: Register)
    requires Live(r)
    ensures Distinct([0, r]) && Offer([0, r], Raise(r)) == [Raise(r), r] && !Distinct([Raise(r), r])
  {
    hide Id, Raise, Target;
    RaisePends(r);
    PendsIsLive(Raise(r));
    RaiseKeepsId(r);
    TargetIs([0, r], Raise(r), 0);
    var regs := [Raise(r), r];
    assert Live(regs[0]) && Live(regs[1]) && Id(regs[0]) == Id(regs[1]);
  }
}
