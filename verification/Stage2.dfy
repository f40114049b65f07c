/** Stage-2 translation tables in flat memory: the architectural walk, the shape of the table
    graph, and what one run of the table writer may change. */
module Stage2 {
  import opened Descriptor
  import opened Geometry

  /** Physical memory as 64-bit words; byte address `a` is word `a / 8`. */
  type Memory = seq<Word>

  datatype Mapping = Fault | Mapped(address: nat, rights: Rights, attributes: Attributes, level: Level)

  /** What a descriptor that ends the walk translates `x` to: a page at level 3, a block at levels 1
      and 2, each with the access flag set; anything else faults. */
  function Leaf(w: Word, level: Level, x: nat): (r: Mapping)
    ensures r.Mapped? ==> r.level == level
  {
    if !Accessible(w) then Fault
    else if level == 3 then
      if IsTable(w) then Mapped(OutputAddress(w) + Within(3, x), RightsOf(w), AttributesOf(w), 3) else Fault
    else if IsBlock(w) && level >= 1 then
      Mapped(OutputAddress(w) - Within(level, OutputAddress(w)) + Within(level, x), RightsOf(w), AttributesOf(w), level)
    else Fault
  }

  /** The architectural stage-2 walk of `x` from a table of `count` descriptors (VMSAv8-64, 4 KiB granule). */
  function Walk(m: Memory, table: nat, level: Level, count: nat, x: nat): (r: Mapping)
    requires count > 0
    ensures r.Mapped? ==> level <= r.level
    decreases 3 - level
  {
    var i := table / 8 + Index(level, x) % count;
    if i >= |m| then Fault
    else if level < 3 && IsTable(m[i]) then Walk(m, OutputAddress(m[i]), level + 1, 512, x)
    else Leaf(m[i], level, x)
  }

  /** The place of a table in the graph: its level, the first address it translates, how many
      descriptors it holds, and the one descriptor that points to it. */
  datatype Label = Label(level: Level, base: nat, count: nat, parent: nat, slot: nat)

  type Labels = map<int, Label>

  ghost predicate Placed(l: Label) {
    && l.count > 0
    && (l.base == 0 || (l.level >= 1 && l.count == 512 && Within(l.level - 1, l.base) == 0))
  }

  /** First address slot `k` covers; the slot covers `BlockSize` bytes from there. */
  ghost function SlotBase(l: Label, k: nat): nat
  {
    l.base + Extent(l.level, k)
  }

  ghost predicate Covers(l: Label, x: nat)
  {
    l.base <= x < l.base + Extent(l.level, l.count)
  }

  ghost predicate Disjoint(l: Label, k: nat, lo: nat, hi: nat)
  {
    SlotBase(l, k) + BlockSize(l.level) <= lo || hi <= SlotBase(l, k)
  }

  ghost predicate Inside(l: Label, k: nat, lo: nat, hi: nat)
  {
    lo <= SlotBase(l, k) && SlotBase(l, k) + BlockSize(l.level) <= hi
  }

  ghost function Slot(m: Memory, t: nat, k: nat): Word {
    if t / 8 + k < |m| then m[t / 8 + k] else ZERO
  }

  ghost predicate Located(size: nat, root: nat, t: nat, l: Label) {
    && Placed(l) && t % PAGE_SIZE == 0 && t / 8 + l.count <= size
    && (t == root ==> l.base == 0)
    && (t != root ==> l.level >= 1 && l.count == 512)
  }

  ghost predicate Apart(t: nat, l: Label, t': nat, l': Label) {
    t + 8 * l.count <= t' || t' + 8 * l'.count <= t
  }

  /** A table descriptor names the table whose label says it hangs from exactly this slot. Since a
      table has one label, no table hangs from two slots, and levels grow along every edge: the
      tables form a tree. */
  ghost predicate Linked(m: Memory, ls: Labels, t: nat, l: Label, k: nat) {
    l.level < 3 && IsTable(Slot(m, t, k)) ==>
      var c := OutputAddress(Slot(m, t, k));
      c in ls && ls[c] == Label(l.level + 1, SlotBase(l, k), 512, t, k)
  }

  ghost predicate Tree(m: Memory, root: nat, ls: Labels) {
    && root in ls
    && (forall t <- ls :: Located(|m|, root, t, ls[t]))
    && (forall t <- ls, t' <- ls :: t != t' ==> Apart(t, ls[t], t', ls[t']))
    && (forall t, k: nat :: t in ls && k < ls[t].count ==> Linked(m, ls, t, ls[t], k))
  }

  lemma TableLocated(m: Memory, root: nat, ls: Labels, t: nat)
    requires Tree(m, root, ls) && t in ls
    ensures Located(|m|, root, t, ls[t]) && Placed(ls[t]) && ls[t].count > 0 && root in ls
  {
  }

  lemma TableLinked(m: Memory, root: nat, ls: Labels, t: nat, k: nat)
    requires Tree(m, root, ls) && t in ls && k < ls[t].count
    ensures Linked(m, ls, t, ls[t], k)
  {
  }

  /** Tables that did not exist before count as all zero. */
  ghost function Before(m: Memory, ls: Labels, t: nat, k: nat): Word {
    if t in ls then Slot(m, t, k) else ZERO
  }

  /** What mapping (part of) `[lo, hi)` from level `top` on may do to one slot: nothing above that
      level; nothing when the slot translates nothing in the range; and, unless it translates
      addresses of the range only, at most hang a new table where there was none. */
  ghost predicate SlotStep(l: Label, k: nat, was: Word, now: Word, ls: Labels, top: nat, lo: nat, hi: nat) {
    && (l.level < top || Disjoint(l, k, lo, hi) ==> now == was)
    && (!Inside(l, k, lo, hi) ==>
          now == was || (l.level < 3 && !IsTable(was) && IsTable(now) && OutputAddress(now) !in ls))
  }

  ghost predicate Extends(ls: Labels, ls': Labels) {
    forall t <- ls :: t in ls' && ls'[t] == ls[t]
  }

  ghost predicate SlotChange(m: Memory, ls: Labels, m': Memory, top: nat, lo: nat, hi: nat,
                             t: nat, l: Label, k: nat) {
    SlotStep(l, k, Before(m, ls, t, k), Slot(m', t, k), ls, top, lo, hi)
  }

  ghost predicate Step(m: Memory, ls: Labels, m': Memory, ls': Labels, top: nat, lo: nat, hi: nat) {
    && |m| == |m'| && Extends(ls, ls')
    && (forall t, k: nat :: t in ls' && k < ls'[t].count ==>
          SlotChange(m, ls, m', top, lo, hi, t, ls'[t], k))
  }

  // ------------------------------------------------------------------ walking through one table

  lemma SlotOf(l: Label, x: nat) returns (k: nat)
    requires Placed(l) && Covers(l, x)
    ensures k == Index(l.level, x) % l.count
    ensures k < l.count && SlotBase(l, k) <= x < SlotBase(l, k) + BlockSize(l.level)
    ensures Within(l.level, x) == x - SlotBase(l, k)
  {
    k := Index(l.level, x) % l.count;
    if l.base == 0 {
      IndexBelow(l.level, l.count, x);
      Split(l.level, x);
    } else {
      SlotOfChild(l, x);
    }
  }

  lemma IndexBelow(level: Level, count: nat, x: nat)
    requires x < Extent(level, count)
    ensures Index(level, x) < count
    ensures Index(level, x) % count == Index(level, x)
  {
    if Index(level, x) >= count {
      ExtentMonotone(level, count, Index(level, x));
      Split(level, x);
    }
  }

  lemma SlotOfChild(l: Label, x: nat)
    requires 1 <= l.level && l.count == 512 && Within(l.level - 1, l.base) == 0 && Covers(l, x)
    ensures var k := Index(l.level, x) % l.count;
      SlotBase(l, k) <= x < SlotBase(l, k) + BlockSize(l.level) && Within(l.level, x) == x - SlotBase(l, k)
  {
    hide Index, Within, Extent, BlockSize;
    var d := x - l.base;
    var q := Index(l.level - 1, l.base);
    Split(l.level - 1, l.base);
    Split(l.level, d);
    IndexBelow(l.level, 512, d);
    IndexShift(l.level, q, d);
    LastDigit(q, Index(l.level, d));
    ExtentSucc(l.level, Index(l.level, d));
  }

  lemma LastDigit(q: nat, r: nat)
    requires r < 512
    ensures (512 * q + r) % 512 == r
  {
  }

  lemma IndexShift(level: Level, q: nat, d: nat)
    requires 1 <= level
    ensures Index(level, Extent(level - 1, q) + d) == 512 * q + Index(level, d)
    ensures Within(level, Extent(level - 1, q) + d) == Within(level, d)
  {
  }

  /** Slots lie end to end on block borders and fill what the table covers. */
  lemma SlotEnd(l: Label, k: nat)
    requires Placed(l) && k < l.count
    ensures SlotBase(l, k) + BlockSize(l.level) == SlotBase(l, k + 1) <= l.base + Extent(l.level, l.count)
    ensures Within(l.level, SlotBase(l, k)) == Within(l.level, SlotBase(l, k + 1)) == 0
    ensures k + 1 == l.count ==> SlotBase(l, k + 1) == l.base + Extent(l.level, l.count)
  {
    ExtentSucc(l.level, k);
    ExtentMonotone(l.level, k + 1, l.count);
    if l.base == 0 {
      WholeExtent(l.level, k);
      WholeExtent(l.level, k + 1);
    } else {
      AlignedDeeper(l.level - 1, l.base);
      AlignedStep(l.level, l.base, k);
      AlignedStep(l.level, l.base, k + 1);
    }
  }

  lemma ChildCovers(l: Label, k: nat, x: nat, t: nat)
    requires Placed(l) && l.level < 3 && k < l.count
    requires SlotBase(l, k) <= x < SlotBase(l, k) + BlockSize(l.level)
    ensures Placed(Label(l.level + 1, SlotBase(l, k), 512, t, k))
    ensures Covers(Label(l.level + 1, SlotBase(l, k), 512, t, k), x)
  {
    FullTable(l.level + 1);
    if l.base == 0 {
      AlignedStep(l.level, 0, k);
    } else {
      AlignedDeeper(l.level - 1, l.base);
      AlignedStep(l.level, l.base, k);
    }
  }

  /** The place of a slot in its table, and of an address in the slot. */
  lemma SlotPlace(m: Memory, root: nat, ls: Labels, t: nat, k: nat, x: nat)
    requires Tree(m, root, ls) && t in ls && k < ls[t].count
    requires SlotBase(ls[t], k) <= x < SlotBase(ls[t], k) + BlockSize(ls[t].level)
    ensures Placed(ls[t]) && t / 8 + k < |m|
    ensures SlotBase(ls[t], k) + BlockSize(ls[t].level) <= ls[t].base + Extent(ls[t].level, ls[t].count)
    ensures Within(ls[t].level, SlotBase(ls[t], k)) == 0 && Within(ls[t].level, x) == x - SlotBase(ls[t], k)
  {
    hide Tree, Index, Within, Placed, Extent, BlockSize;
    var l := ls[t];
    TableLocated(m, root, ls, t);
    SlotEnd(l, k);
    SlotFrom(l, k);
    var j := SlotOf(l, x);
    SlotUnique(l, j, k, x);
  }

  lemma SlotFrom(l: Label, k: nat)
    ensures l.base <= SlotBase(l, k)
  {
  }

  lemma SlotUnique(l: Label, j: nat, k: nat, x: nat)
    requires SlotBase(l, j) <= x < SlotBase(l, j) + BlockSize(l.level)
    requires SlotBase(l, k) <= x < SlotBase(l, k) + BlockSize(l.level)
    ensures j == k
  {
  }

  /** The table that hangs from a slot reaches exactly as far. */
  lemma ChildPlace(l: Label, k: nat, x: nat, t: nat)
    requires Placed(l) && l.level < 3 && k < l.count
    requires SlotBase(l, k) <= x < SlotBase(l, k) + BlockSize(l.level)
    ensures var c := Label(l.level + 1, SlotBase(l, k), 512, t, k);
      Placed(c) && Covers(c, x) && Extent(c.level, c.count) == BlockSize(l.level)
  {
    ChildCovers(l, k, x, t);
    FullTable(l.level + 1);
  }

  /** One step of a walk inside a tree: the slot that is read, and the table it leads to. */
  lemma WalkSlot(m: Memory, root: nat, ls: Labels, t: nat, x: nat) returns (k: nat)
    requires Tree(m, root, ls) && t in ls && Placed(ls[t]) && Covers(ls[t], x)
    ensures k == Index(ls[t].level, x) % ls[t].count
    ensures k < ls[t].count && t / 8 + k < |m|
    ensures SlotBase(ls[t], k) <= x < SlotBase(ls[t], k) + BlockSize(ls[t].level)
    ensures Within(ls[t].level, x) == x - SlotBase(ls[t], k)
    ensures ls[t].level < 3 && IsTable(Slot(m, t, k)) ==>
      var c := OutputAddress(Slot(m, t, k));
      c in ls && ls[c] == Label(ls[t].level + 1, SlotBase(ls[t], k), 512, t, k) && Placed(ls[c]) && Covers(ls[c], x)
  {
    var l := ls[t];
    assert Located(|m|, root, t, l);
    k := SlotOf(l, x);
    if l.level < 3 {
      assert Linked(m, ls, t, l, k);
      ChildCovers(l, k, x, t);
    }
  }

  // ------------------------------------------------------------------ composing steps

  lemma StepReflexive(m: Memory, ls: Labels, top: nat, lo: nat, hi: nat)
    ensures Step(m, ls, m, ls, top, lo, hi)
  {
  }

  lemma StepCompose(m0: Memory, ls0: Labels, m1: Memory, ls1: Labels, m2: Memory, ls2: Labels,
                    top1: nat, lo1: nat, hi1: nat, top2: nat, lo2: nat, hi2: nat,
                    top: nat, lo: nat, hi: nat)
    requires Step(m0, ls0, m1, ls1, top1, lo1, hi1) && Step(m1, ls1, m2, ls2, top2, lo2, hi2)
    requires top <= top1 && top <= top2 && lo <= lo1 && hi1 <= hi && lo <= lo2 && hi2 <= hi
    ensures Step(m0, ls0, m2, ls2, top, lo, hi)
  {
    forall t, k: nat | t in ls2 && k < ls2[t].count
      ensures SlotChange(m0, ls0, m2, top, lo, hi, t, ls2[t], k)
    {
      assert SlotChange(m1, ls1, m2, top2, lo2, hi2, t, ls2[t], k);
      if t in ls1 {
        assert SlotChange(m0, ls0, m1, top1, lo1, hi1, t, ls1[t], k);
      }
    }
  }

  // ------------------------------------------------------------------ walks across a step

  /** Addresses whose slot in a table translates nothing of the range keep their translation. */
  lemma {:induction false} WalkKept(m: Memory, root: nat, ls: Labels, m': Memory, ls': Labels,
                                    top: nat, lo: nat, hi: nat, t: nat, k: nat, x: nat)
    requires Tree(m, root, ls) && Tree(m', root, ls') && Step(m, ls, m', ls', top, lo, hi)
    requires t in ls && Placed(ls[t]) && Covers(ls[t], x) && k == Index(ls[t].level, x) % ls[t].count
    requires Disjoint(ls[t], k, lo, hi)
    ensures var l := ls[t];
      Walk(m', t, l.level, l.count, x) == Walk(m, t, l.level, l.count, x)
    decreases 3 - ls[t].level
  {
    hide Tree, Index, Within, Extent, BlockSize;
    var l := ls[t];
    assert ls'[t] == l;
    var j := WalkSlot(m, root, ls, t, x);
    assert j == k;
    assert SlotChange(m, ls, m', top, lo, hi, t, ls'[t], k);
    var w := Slot(m, t, k);
    assert Slot(m', t, k) == w;
    if l.level < 3 && IsTable(w) {
      var c := OutputAddress(w);
      var i := SlotOf(ls[c], x);
      assert Disjoint(ls[c], i, lo, hi) by { ChildInside(l, k, t, i); }
      WalkKept(m, root, ls, m', ls', top, lo, hi, c, i, x);
    }
  }

  lemma ChildInside(l: Label, k: nat, t: nat, i: nat)
    requires l.level < 3 && i < 512
    ensures var c := Label(l.level + 1, SlotBase(l, k), 512, t, k);
      SlotBase(l, k) <= SlotBase(c, i) && SlotBase(c, i) + BlockSize(c.level) <= SlotBase(l, k) + BlockSize(l.level)
  {
    FullTable(l.level + 1);
    ExtentMonotone(l.level + 1, i, 512);
  }

  /** A table made by the step translates nothing outside the range. */
  lemma {:induction false} NewTableFaults(m: Memory, ls: Labels, m': Memory, root: nat, ls': Labels,
                                          top: nat, lo: nat, hi: nat, t: nat, x: nat)
    requires Tree(m', root, ls') && Step(m, ls, m', ls', top, lo, hi)
    requires t in ls' && t !in ls && Placed(ls'[t]) && Covers(ls'[t], x) && !(lo <= x < hi)
    ensures Walk(m', t, ls'[t].level, ls'[t].count, x) == Fault
    decreases 3 - ls'[t].level
  {
    hide Tree, Index, Within, Extent, BlockSize;
    var k := WalkSlot(m', root, ls', t, x);
    var w := Slot(m', t, k);
    assert SlotChange(m, ls, m', top, lo, hi, t, ls'[t], k);
    if ls'[t].level < 3 && IsTable(w) {
      NewTableFaults(m, ls, m', root, ls', top, lo, hi, OutputAddress(w), x);
    }
  }

  /** The block or page of size `BlockSize(level)` around `x` meets `[lo, hi)`. */
  ghost predicate Meets(level: Level, x: nat, lo: nat, hi: nat)
  {
    x - Within(level, x) < hi && lo < x - Within(level, x) + BlockSize(level)
  }

  /** A slot that the step gave a new table: nothing of it outside the range is translated any more. */
  lemma WalkSplit(m: Memory, root: nat, ls: Labels, m': Memory, ls': Labels,
                  top: nat, lo: nat, hi: nat, t: nat, k: nat, x: nat)
    requires Tree(m, root, ls) && Tree(m', root, ls') && Step(m, ls, m', ls', top, lo, hi)
    requires t in ls && Placed(ls[t]) && Covers(ls[t], x) && !(lo <= x < hi)
    requires k == Index(ls[t].level, x) % ls[t].count
    requires t / 8 + k < |m| && Slot(m, t, k) != Slot(m', t, k)
    ensures Walk(m', t, ls[t].level, ls[t].count, x) == Fault
    ensures ls[t].level < 3 && !IsTable(Slot(m, t, k)) && Meets(ls[t].level, x, lo, hi)
  {
    hide Tree, Index, Within, Extent, BlockSize;
    var l := ls[t];
    assert ls'[t] == l;
    var j := WalkSlot(m', root, ls', t, x);
    assert j == k;
    assert SlotChange(m, ls, m', top, lo, hi, t, ls'[t], k);
    assert !Disjoint(l, k, lo, hi) && !Inside(l, k, lo, hi);
    var c := OutputAddress(Slot(m', t, k));
    assert c in ls' && c !in ls;
    NewTableFaults(m, ls, m', root, ls', top, lo, hi, c, x);
  }

  /** Outside the range a translation is kept, unless a block that straddles the border of the range
      provided it: then it is lost. */
  lemma {:induction false} WalkOutside(m: Memory, root: nat, ls: Labels, m': Memory, ls': Labels,
                                       top: nat, lo: nat, hi: nat, t: nat, x: nat)
    requires Tree(m, root, ls) && Tree(m', root, ls') && Step(m, ls, m', ls', top, lo, hi)
    requires t in ls && Placed(ls[t]) && Covers(ls[t], x) && !(lo <= x < hi)
    ensures var was := Walk(m, t, ls[t].level, ls[t].count, x);
      var now := Walk(m', t, ls[t].level, ls[t].count, x);
      now == was || (now == Fault && was.Mapped? && Meets(was.level, x, lo, hi))
    decreases 3 - ls[t].level
  {
    hide Tree, Index, Within, Extent, BlockSize;
    var k := WalkSlot(m, root, ls, t, x);
    var w := Slot(m, t, k);
    if Slot(m', t, k) != w {
      WalkSplit(m, root, ls, m', ls', top, lo, hi, t, k, x);
    } else if ls[t].level < 3 && IsTable(w) {
      WalkOutside(m, root, ls, m', ls', top, lo, hi, OutputAddress(w), x);
    }
  }

  /** Two addresses in the same leaf are translated by the same leaf. */
  lemma {:induction false} SameLeaf(m: Memory, t: nat, level: Level, count: nat, leaf: Level, x: nat, y: nat)
    requires level <= leaf && count > 0
    requires Walk(m, t, level, count, x).Mapped? && Walk(m, t, level, count, x).level == leaf
    requires Index(leaf, x) == Index(leaf, y)
    ensures Walk(m, t, level, count, y).Mapped? && Walk(m, t, level, count, y).level == leaf
    decreases 3 - level
  {
    hide Index;
    assert Index(level, x) == Index(level, y) by { SameIndexAbove(level, leaf, x, y); }
    var w := m[t / 8 + Index(level, x) % count];
    if level < 3 && IsTable(w) {
      SameLeaf(m, OutputAddress(w), level + 1, 512, leaf, x, y);
    }
  }

  lemma SameIndexAbove(upper: Level, lower: Level, x: nat, y: nat)
    requires upper <= lower && Index(lower, x) == Index(lower, y)
    ensures Index(upper, x) == Index(upper, y)
    decreases lower - upper
  {
    if upper < lower {
      IndexUp(lower, x);
      IndexUp(lower, y);
      SameIndexAbove(upper, lower - 1, x, y);
    }
  }

  lemma IndexUp(level: Level, x: nat)
    requires 1 <= level
    ensures Index(level - 1, x) == Index(level, x) / 512
  {
  }
}
