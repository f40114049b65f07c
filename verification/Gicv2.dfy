/** The virtual GICv2 interrupt line: a 64-bit pending bitmap and the virtual IRQ bit of HCR_EL2. */
module Gicv2 {
  import opened Arithmetic

  const IDS: nat := 64
  const SPURIOUS: nat := 1023

  class VirtualGic {
    /** Bit `i` of `PENDING`. */
    var bits: seq<bool>
    /** HCR_EL2.VI */
    var vi: bool

    ghost function Pending(): set<nat>
      reads this
    {
      set i: nat | i < |bits| && bits[i]
    }

    /** The line is up exactly while something is pending. */
    ghost predicate Valid()
      reads this
    {
      |bits| == 64 && (vi <==> Pending() != {})
    }

    constructor ()
      ensures Valid() && Pending() == {} && |bits| == 64
    {
      bits, vi := seq(IDS, _ => false), false;
    }

    /** `inject_interrupt`; the source asserts that the id fits the bitmap. */
    method Inject(id: nat)
      requires Valid() && id < 64
      modifies this
      ensures Valid() && Pending() == old(Pending()) + {id} && vi
    {
      bits := bits[id := true];
      vi := true;
      assert id in Pending();
    }

    /** `acknowledge_interrupt`: takes the lowest pending id, or reports a spurious interrupt. */
    method Acknowledge() returns (id: nat)
      requires Valid()
      modifies this
      ensures Valid()
      ensures old(Pending()) == {} ==> id == 1023 && Pending() == {}
      ensures old(Pending()) != {} ==> Least(old(Pending()), id) && id < 64 && Pending() == old(Pending()) - {id}
    {
      id := LowestBit(0);
      if id == IDS {
        assert Pending() == {};
        return SPURIOUS;
      }
      ghost var was := Pending();
      assert id in was;
      bits := bits[id := false];
      var left := LowestBit(0);
      if left == IDS {
        vi := false;
        assert Pending() == {};
      } else {
        assert left in Pending();
      }
    }

    /** `trailing_zeros`, or 64 for zero. */
    method LowestBit(from: nat) returns (i: nat)
      requires from <= |bits| == 64
      ensures from <= i <= 64 && (i < 64 ==> bits[i]) && forall j :: from <= j < i ==> !bits[j]
    {
      i := from;
      while i < IDS && !bits[i]
        invariant from <= i <= IDS && forall j :: from <= j < i ==> !bits[j]
      {
        i := i + 1;
      }
    }

    /** Acknowledging until nothing is pending yields every pending id once, in ascending order. */
    method Drain() returns (ids: seq<nat>)
      requires Valid()
      modifies this
      ensures Valid() && Pending() == {} && !vi
      ensures forall i, j :: 0 <= i < j < |ids| ==> ids[i] < ids[j]
      ensures (set x | x in ids) == old(Pending())
    {
      ids := [];
      while vi
        invariant Valid() && (set x | x in ids) + Pending() == old(Pending())
        invariant forall i, j :: 0 <= i < j < |ids| ==> ids[i] < ids[j]
        invariant forall i, y :: 0 <= i < |ids| && y in Pending() ==> ids[i] < y
        decreases Pending()
      {
        var id := Acknowledge();
        ids := ids + [id];
      }
    }
  }
}
