/** How many tables of each level one mapping call makes. */
module TableCount {
  import opened Geometry

  /** Tables made so far, by level. */
  type Made = multiset<Level>

  function Uneven(level: Level, x: nat): nat {
    if Within(level, x) == 0 then 0 else 1
  }

  ghost predicate FrugalAt(was: Made, now: Made, from: Level, lv: Level, lo: nat, hi: nat, pa: nat) {
    if lv <= from then now[lv] == was[lv]
    else lv >= 2 && Within(lv - 1, pa) == Within(lv - 1, lo) ==>
      now[lv] <= was[lv] + Uneven(lv - 1, lo) + Uneven(lv - 1, hi)
  }

  /** Mapping `[lo, hi)` to `pa` below a table of level `from` makes no table of that level or above,
      and, at each deeper level whose blocks `lo` and `pa` are equally offset in, at most one table for
      each end of the range that is not on a block border. */
  ghost predicate Frugal(was: Made, now: Made, from: Level, lo: nat, hi: nat, pa: nat) {
    forall lv: Level :: FrugalAt(was, now, from, lv, lo, hi, pa)
  }

  lemma AlignedBelow(upper: Level, lower: Level, x: nat)
    requires upper <= lower && Within(upper, x) == 0
    ensures Within(lower, x) == 0
    decreases lower - upper
  {
    if upper < lower {
      AlignedDeeper(upper, x);
      AlignedBelow(upper + 1, lower, x);
    }
  }

  lemma FrugalNothing(made: Made, from: Level, lo: nat, hi: nat, pa: nat)
    ensures Frugal(made, made, from, lo, hi, pa)
  {
  }

  lemma FrugalExtended(a: Made, b: Made, c: Made, from: Level, lo: nat, mid: nat, hi: nat, pa: nat)
    requires lo <= mid && (if lo == mid then a == b else Within(from, mid) == 0)
    requires Frugal(a, b, from, lo, mid, pa) && Frugal(b, c, from, mid, hi, pa + (mid - lo))
    ensures Frugal(a, c, from, lo, hi, pa)
  {
    hide Within;
    forall lv: Level
      ensures FrugalAt(a, c, from, lv, lo, hi, pa)
    {
      assert FrugalAt(a, b, from, lv, lo, mid, pa) && FrugalAt(b, c, from, lv, mid, hi, pa + (mid - lo));
      if lv > from && Within(lv - 1, pa) == Within(lv - 1, lo) {
        OffsetsMove(lv - 1, pa, lo, mid - lo);
        if lo < mid { AlignedBelow(from, lv - 1, mid); }
      }
    }
  }

  /** An end on a block border costs nothing, so any other end may stand for it. */
  lemma FrugalLater(a: Made, b: Made, from: Level, lo: nat, hi: nat, hi': nat, pa: nat)
    requires Frugal(a, b, from, lo, hi, pa) && (hi == hi' || Within(from, hi) == 0)
    ensures Frugal(a, b, from, lo, hi', pa)
  {
    hide Within;
    forall lv: Level
      ensures FrugalAt(a, b, from, lv, lo, hi', pa)
    {
      assert FrugalAt(a, b, from, lv, lo, hi, pa);
      if lv > from && hi != hi' { AlignedBelow(from, lv - 1, hi); }
    }
  }

  /** A slot that cannot be a block needs at most one table, and only when an end of its range is off
      the slot border. */
  lemma FrugalSlot(a: Made, b: Made, c: Made, from: Level, lo: nat, hi: nat, pa: nat, size: nat)
    requires from < 3 && Frugal(b, c, from + 1, lo, hi, pa)
    requires b == a || b == a + multiset{from + 1}
    requires from == 0 || size < BlockSize(from) || Within(from, pa) != 0 || Within(from, lo) != 0
    requires size > 0 && (size < BlockSize(from) && Within(from, lo) == 0 ==> hi == lo + size)
    ensures Frugal(a, c, from, lo, hi, pa)
  {
    forall lv: Level
      ensures FrugalAt(a, c, from, lv, lo, hi, pa)
    {
      assert FrugalAt(b, c, from + 1, lv, lo, hi, pa);
      if lv == from + 1 && size < BlockSize(from) && Within(from, lo) == 0 {
        hide Within;
        OffsetKept(from, size, lo);
        AsQuotient(from, size);
      }
    }
  }

  /** With both addresses equally offset in the blocks of the level above, one call makes at most two
      tables of a level. */
  lemma AtMostTwo(was: Made, now: Made, from: Level, lo: nat, hi: nat, pa: nat, lv: Level)
    requires Frugal(was, now, from, lo, hi, pa) && lv >= 2 && Within(lv - 1, pa) == Within(lv - 1, lo)
    ensures now[lv] <= was[lv] + 2
  {
    assert FrugalAt(was, now, from, lv, lo, hi, pa);
  }
}
