/** The two kinds of write the table writer makes, as facts about memory values. */
module Stage2Update {
  import opened Descriptor
  import opened Geometry
  import opened Stage2

  lemma SlotsDistinct(m: Memory, root: nat, ls: Labels, t: nat, k: nat, t': nat, k': nat)
    requires Tree(m, root, ls) && t in ls && t' in ls && k < ls[t].count && k' < ls[t'].count
    requires t != t' || k != k'
    ensures t / 8 + k != t' / 8 + k'
  {
    assert Located(|m|, root, t, ls[t]) && Located(|m|, root, t', ls[t']);
    if t != t' {
      assert Apart(t, ls[t], t', ls[t']);
    }
  }

  /** Writing a leaf descriptor keeps the tree; only the translation of its slot changes. */
  lemma LeafWritten(m: Memory, root: nat, ls: Labels, t: nat, k: nat, w: Word)
    requires Tree(m, root, ls) && t in ls && k < ls[t].count
    requires Placed(ls[t]) && t / 8 + k < |m|
    requires ls[t].level == 3 || !IsTable(w)
    ensures var m' := m[t / 8 + k := w];
      var lo := SlotBase(ls[t], k);
      Tree(m', root, ls) && Step(m, ls, m', ls, ls[t].level, lo, lo + BlockSize(ls[t].level))
  {
    hide IsTable, Extent, BlockSize, Within, Placed;
    var m' := m[t / 8 + k := w];
    var lo := SlotBase(ls[t], k);
    var hi := lo + BlockSize(ls[t].level);
    forall t', k': nat | t' in ls && k' < ls[t'].count
      ensures Linked(m', ls, t', ls[t'], k')
      ensures SlotChange(m, ls, m', ls[t].level, lo, hi, t', ls[t'], k')
    {
      assert Linked(m, ls, t', ls[t'], k');
      if t' != t || k' != k {
        SlotsDistinct(m, root, ls, t, k, t', k');
        assert Slot(m', t', k') == Slot(m, t', k');
      }
    }
  }

  /** Inside the slot the new leaf decides the translation. */
  lemma LeafWalk(m: Memory, root: nat, ls: Labels, t: nat, k: nat, w: Word, x: nat)
    requires Tree(m, root, ls) && t in ls && k < ls[t].count
    requires Placed(ls[t]) && t / 8 + k < |m|
    requires ls[t].level == 3 || !IsTable(w)
    requires SlotBase(ls[t], k) <= x < SlotBase(ls[t], k) + BlockSize(ls[t].level)
    ensures var l := ls[t];
      Walk(m[t / 8 + k := w], t, l.level, l.count, x) == Leaf(w, l.level, x)
      && Within(l.level, x) == x - SlotBase(l, k)
  {
    var l := ls[t];
    assert Covers(l, x) by { ExtentMonotone(l.level, k, l.count); }
    var j := SlotOf(l, x);
    assert j == k by { SlotUnique(l, j, k, x); }
  }

  /** A page that no table uses. */
  ghost predicate FreePage(size: nat, ls: Labels, p: nat) {
    && IsPageAddress(p) && p / 8 + 512 <= size
    && forall t <- ls :: p + PAGE_SIZE <= t || t + 8 * ls[t].count <= p
  }

  ghost predicate PoolFree(size: nat, ls: Labels, pool: seq<nat>) {
    && (forall i :: 0 <= i < |pool| ==> FreePage(size, ls, pool[i]))
    && (forall i, j :: 0 <= i < j < |pool| ==> pool[i] != pool[j])
  }

  lemma PagesApart(p: nat, q: nat)
    requires p % PAGE_SIZE == 0 && q % PAGE_SIZE == 0 && p < q
    ensures p + PAGE_SIZE <= q
  {
  }

  /** Turning the first page of the pool into a table leaves the others free. */
  lemma PoolRest(size: nat, ls: Labels, pages: seq<nat>, l: Label)
    requires PoolFree(size, ls, pages) && pages != [] && l.count == 512
    ensures FreePage(size, ls, pages[0]) && PoolFree(size, ls[pages[0] := l], pages[1..])
  {
    var p, ls' := pages[0], ls[pages[0] := l];
    forall i | 0 <= i < |pages| - 1
      ensures FreePage(size, ls', pages[1..][i])
    {
      var q := pages[i + 1];
      assert FreePage(size, ls, q) && q != p;
      if p < q { PagesApart(p, q); } else { PagesApart(q, p); }
    }
  }

  /** `m'` is `m` with page `p` zeroed. */
  ghost predicate PageZeroed(m: Memory, m': Memory, p: nat) {
    && |m'| == |m|
    && (forall i :: 0 <= i < |m| ==> m'[i] == if p / 8 <= i < p / 8 + 512 then ZERO else m[i])
  }

  /** `m'` and `ls'` are `m` and `ls` after a free page `p` was zeroed and hung from slot `k` of table
      `t`, which held no table. */
  ghost predicate Hung(m: Memory, ls: Labels, m': Memory, ls': Labels, t: nat, k: nat, p: nat) {
    && t in ls && k < ls[t].count && ls[t].level < 3 && t / 8 + k < |m| && Placed(ls[t])
    && !IsTable(Slot(m, t, k)) && FreePage(|m|, ls, p)
    && ls' == ls[p := Label(ls[t].level + 1, SlotBase(ls[t], k), 512, t, k)]
    && exists z: Memory :: PageZeroed(m, z, p) && m' == z[t / 8 + k := TableDescriptor(p)]
  }

  lemma FreePageFacts(size: nat, ls: Labels, p: nat)
    requires FreePage(size, ls, p)
    ensures IsPageAddress(p) && p / 8 + 512 <= size
  {
  }

  /** A zeroed page and the write of its descriptor hang it. */
  lemma HungNow(m: Memory, z: Memory, ls: Labels, t: nat, k: nat, p: nat)
    requires t in ls && k < ls[t].count && ls[t].level < 3 && t / 8 + k < |m| && Placed(ls[t])
    requires !IsTable(Slot(m, t, k)) && FreePage(|m|, ls, p) && PageZeroed(m, z, p)
    ensures |z| == |m| && IsPageAddress(p)
    ensures var ls' := ls[p := Label(ls[t].level + 1, SlotBase(ls[t], k), 512, t, k)];
      Hung(m, ls, z[t / 8 + k := TableDescriptor(p)], ls', t, k, p)
  {
  }

  lemma HungSlot(m: Memory, root: nat, ls: Labels, m': Memory, ls': Labels, t: nat, k: nat, p: nat, t': nat, k': nat)
    requires Tree(m, root, ls) && Hung(m, ls, m', ls', t, k, p)
    requires t' in ls' && k' < ls'[t'].count
    ensures t' == p ==> Slot(m', t', k') == ZERO
    ensures t' == t && k' == k ==> t' != p && Slot(m', t', k') == TableDescriptor(p)
    ensures t' != p && (t' != t || k' != k) ==> Slot(m', t', k') == Slot(m, t', k')
  {
    hide Tree, TableDescriptor, IsTable, Extent, BlockSize, Within, Placed;
    var z: Memory :| PageZeroed(m, z, p) && m' == z[t / 8 + k := TableDescriptor(p)];
    TableLocated(m, root, ls, t);
    if t' in ls {
      TableLocated(m, root, ls, t');
    }
    if t' == p {
      assert t / 8 + k != p / 8 + k';
    } else {
      if t' != t || k' != k {
        SlotsDistinct(m, root, ls, t, k, t', k');
        assert !(p / 8 <= t' / 8 + k' < p / 8 + 512);
      } else {
        assert !(p / 8 <= t / 8 + k < p / 8 + 512);
      }
    }
  }

  lemma HungSlotStep(m: Memory, root: nat, ls: Labels, m': Memory, ls': Labels,
                     t: nat, k: nat, p: nat, x: nat, t': nat, k': nat)
    requires Tree(m, root, ls) && Hung(m, ls, m', ls', t, k, p) && p !in ls
    requires SlotBase(ls[t], k) <= x < SlotBase(ls[t], k) + BlockSize(ls[t].level)
    requires t' in ls' && k' < ls'[t'].count
    ensures Linked(m', ls', t', ls'[t'], k')
    ensures SlotChange(m, ls, m', ls[t].level, x, x + PAGE_SIZE, t', ls'[t'], k')
  {
    HungSlot(m, root, ls, m', ls', t, k, p, t', k');
    SlotWiderThanPage(ls[t].level);
    assert !IsTable(ZERO);
    assert t' != p ==> Linked(m, ls, t', ls[t'], k');
    hide Tree, Extent, BlockSize, Within, IsTable, OutputAddress, TableDescriptor, PageZeroed;
  }

  /** Hanging a zeroed page from a slot that held no table keeps the tree and counts as a step for
      any range that begins in the slot. */
  lemma TableHung(m: Memory, root: nat, ls: Labels, m': Memory, ls': Labels, t: nat, k: nat, p: nat, x: nat)
    requires Tree(m, root, ls) && Hung(m, ls, m', ls', t, k, p)
    requires SlotBase(ls[t], k) <= x < SlotBase(ls[t], k) + BlockSize(ls[t].level)
    ensures p !in ls && Tree(m', root, ls')
    ensures Step(m, ls, m', ls', ls[t].level, x, x + PAGE_SIZE)
  {
    HungTree(m, root, ls, m', ls', t, k, p);
    var hi := x + PAGE_SIZE;
    hide Tree, Linked, SlotChange, Extent, BlockSize, IsTable, FreePage, PageZeroed, TableDescriptor;
    forall t', k': nat | t' in ls' && k' < ls'[t'].count
      ensures SlotChange(m, ls, m', ls[t].level, x, hi, t', ls'[t'], k')
    {
      HungSlotStep(m, root, ls, m', ls', t, k, p, x, t', k');
    }
  }

  lemma HungTree(m: Memory, root: nat, ls: Labels, m': Memory, ls': Labels, t: nat, k: nat, p: nat)
    requires Tree(m, root, ls) && Hung(m, ls, m', ls', t, k, p)
    ensures p !in ls && Tree(m', root, ls')
  {
    HungLabels(m, root, ls, m', ls', t, k, p);
    assert |m'| == |m| && root in ls';
    var x := SlotBase(ls[t], k);
    SlotWiderThanPage(ls[t].level);
    hide Hung, Linked, SlotChange, Located, Apart, Extent, BlockSize;
    forall t', k': nat | t' in ls' && k' < ls'[t'].count
      ensures Linked(m', ls', t', ls'[t'], k')
    {
      HungSlotStep(m, root, ls, m', ls', t, k, p, x, t', k');
    }
  }

  lemma HungLabels(m: Memory, root: nat, ls: Labels, m': Memory, ls': Labels, t: nat, k: nat, p: nat)
    requires Tree(m, root, ls) && Hung(m, ls, m', ls', t, k, p)
    ensures p !in ls && Extends(ls, ls')
    ensures forall t' <- ls' :: Located(|m|, root, t', ls'[t'])
    ensures forall t1 <- ls', t2 <- ls' :: t1 != t2 ==> Apart(t1, ls'[t1], t2, ls'[t2])
  {
    hide Tree, Linked, Located, FreePage, Apart, Extent, BlockSize, IsTable, PageZeroed, TableDescriptor, Placed;
    NewLabel(m, root, ls, t, k, p);
    forall t' <- ls'
      ensures Located(|m|, root, t', ls'[t'])
    {
      if t' != p {
        TableLocated(m, root, ls, t');
      }
    }
    forall t1 <- ls', t2 <- ls' | t1 != t2
      ensures Apart(t1, ls'[t1], t2, ls'[t2])
    {
      if t1 != p && t2 != p {
        TablesApart(m, root, ls, t1, t2);
      }
    }
  }

  lemma TablesApart(m: Memory, root: nat, ls: Labels, t: nat, t': nat)
    requires Tree(m, root, ls) && t in ls && t' in ls && t != t'
    ensures Apart(t, ls[t], t', ls[t'])
  {
  }

  lemma NewLabel(m: Memory, root: nat, ls: Labels, t: nat, k: nat, p: nat)
    requires Tree(m, root, ls) && t in ls && k < ls[t].count && ls[t].level < 3 && FreePage(|m|, ls, p)
    ensures p !in ls
    ensures var l := Label(ls[t].level + 1, SlotBase(ls[t], k), 512, t, k);
      Located(|m|, root, p, l) && forall t' <- ls :: Apart(t', ls[t'], p, l) && Apart(p, l, t', ls[t'])
  {
    hide Tree, Extent, BlockSize, Placed;
    TableLocated(m, root, ls, t);
    ChildCovers(ls[t], k, SlotBase(ls[t], k), t);
    forall t' <- ls
      ensures ls[t'].count > 0
    {
      TableLocated(m, root, ls, t');
    }
  }

  lemma SlotWiderThanPage(level: Level)
    requires level < 3
    ensures BlockSize(level) > PAGE_SIZE
  {
  }

  // ------------------------------------------------------------------ ranges that translate linearly

  /** A walk that ends at the address, readable and writable as said, executable, in plain inner shareable write-back
      memory. */
  ghost predicate Yields(r: Mapping, address: nat, readable: bool, writable: bool) {
    && r.Mapped? && r.address == address && r.rights == Rights(readable, writable, true)
    && r.attributes == Attributes(0, 0x33C)
  }

  /** `x` translates to `pa + (x - lo)`, through a leaf that translates nothing outside `[lo, hi)`. */
  ghost predicate Linear(m: Memory, t: nat, l: Label, x: nat, lo: nat, hi: nat, pa: nat, permission: bv2) {
    l.count > 0 && lo <= x
    && var r := Walk(m, t, l.level, l.count, x);
    && Yields(r, pa + (x - lo), permission & 1 == 1, permission & 2 == 2)
    && lo <= Extent(r.level, Index(r.level, x)) && Extent(r.level, Index(r.level, x) + 1) <= hi
  }

  ghost predicate LinearRange(m: Memory, t: nat, l: Label, lo: nat, hi: nat, pa: nat, permission: bv2) {
    forall x: nat :: lo <= x < hi ==> Linear(m, t, l, x, lo, hi, pa, permission)
  }

  /** A range mapped up to a slot border stays mapped while what follows the border is mapped. */
  lemma RangeExtended(m: Memory, root: nat, ls: Labels, m': Memory, ls': Labels, hi': nat,
                      t: nat, lo: nat, mid: nat, hi: nat, pa: nat, permission: bv2)
    requires Tree(m, root, ls) && Tree(m', root, ls') && t in ls && Placed(ls[t])
    requires Step(m, ls, m', ls', ls[t].level, mid, hi')
    requires ls[t].base <= lo <= mid <= hi && mid <= ls[t].base + Extent(ls[t].level, ls[t].count)
    requires lo == mid || Within(ls[t].level, mid) == 0
    requires LinearRange(m, t, ls[t], lo, mid, pa, permission)
    requires LinearRange(m', t, ls[t], mid, hi, pa + (mid - lo), permission)
    ensures LinearRange(m', t, ls[t], lo, hi, pa, permission)
  {
    hide Tree, Step;
    forall x: nat | lo <= x < hi
      ensures Linear(m', t, ls[t], x, lo, hi, pa, permission)
    {
      if x < mid {
        assert Linear(m, t, ls[t], x, lo, mid, pa, permission);
        KeptBelow(m, root, ls, m', ls', ls[t].level, mid, hi', t, x);
      } else {
        assert Linear(m', t, ls[t], x, mid, hi, pa + (mid - lo), permission);
      }
    }
  }

  lemma KeptBelow(m: Memory, root: nat, ls: Labels, m': Memory, ls': Labels,
                  top: nat, mid: nat, hi: nat, t: nat, x: nat)
    requires Tree(m, root, ls) && Tree(m', root, ls') && Step(m, ls, m', ls', top, mid, hi)
    requires t in ls && Placed(ls[t]) && Covers(ls[t], x) && x < mid && Within(ls[t].level, mid) == 0
    ensures Walk(m', t, ls[t].level, ls[t].count, x) == Walk(m, t, ls[t].level, ls[t].count, x)
  {
    hide Tree, Step;
    var l := ls[t];
    var k := SlotOf(l, x);
    assert Disjoint(l, k, mid, hi) by { BlockBelow(l.level, x, mid); }
    WalkKept(m, root, ls, m', ls', top, mid, hi, t, k, x);
  }

  lemma BlockBelow(level: Level, x: nat, mid: nat)
    requires x < mid && Within(level, mid) == 0
    ensures x - Within(level, x) + BlockSize(level) <= mid
  {
    Split(level, x);
    Split(level, mid);
    if Index(level, mid) <= Index(level, x) {
      ExtentMonotone(level, Index(level, mid), Index(level, x));
    } else {
      ExtentMonotone(level, Index(level, x) + 1, Index(level, mid));
    }
  }

  /** A leaf descriptor with an aligned output address maps its slot linearly. */
  lemma LeafRange(m: Memory, root: nat, ls: Labels, t: nat, k: nat, pa: nat, permission: bv2, w: Word)
    requires Tree(m, root, ls) && t in ls && k < ls[t].count && Placed(ls[t]) && t / 8 + k < |m|
    requires Within(ls[t].level, pa) == 0 && IsPageAddress(pa)
    requires w == if ls[t].level == 3 then PageDescriptor(pa, permission) else BlockDescriptor(pa, permission)
    requires ls[t].level >= 1
    ensures var lo := SlotBase(ls[t], k);
      LinearRange(m[t / 8 + k := w], t, ls[t], lo, lo + BlockSize(ls[t].level), pa, permission)
  {
    hide Tree, PageDescriptor, BlockDescriptor, IsPageAddress;
    var l := ls[t];
    var lo := SlotBase(l, k);
    var hi := lo + BlockSize(l.level);
    var m' := m[t / 8 + k := w];
    assert l.level < 3 ==> !IsTable(w);
    forall x: nat | lo <= x < hi
      ensures Linear(m', t, l, x, lo, hi, pa, permission)
    {
      LeafWalk(m, root, ls, t, k, w, x);
      Split(l.level, x);
    }
  }

  /** A walk goes on in the next-level table. */
  lemma WalkDown(m: Memory, t: nat, level: Level, count: nat, x: nat)
    requires count > 0 && level < 3 && t / 8 + Index(level, x) % count < |m|
    ensures var w := Slot(m, t, Index(level, x) % count);
      IsTable(w) ==> Walk(m, t, level, count, x) == Walk(m, OutputAddress(w), level + 1, 512, x)
  {
    hide Index;
  }

  /** What the next-level table maps linearly, the slot that names it maps linearly. */
  lemma ChildRange(m: Memory, root: nat, ls: Labels, t: nat, k: nat, lo: nat, hi: nat, pa: nat, permission: bv2)
    requires Tree(m, root, ls) && t in ls && k < ls[t].count && Placed(ls[t]) && t / 8 + k < |m| && ls[t].level < 3
    requires IsTable(Slot(m, t, k)) && OutputAddress(Slot(m, t, k)) in ls
    requires SlotBase(ls[t], k) <= lo && hi <= SlotBase(ls[t], k) + BlockSize(ls[t].level)
    requires var c := OutputAddress(Slot(m, t, k));
      ls[c].level == ls[t].level + 1 && ls[c].count == 512
      && LinearRange(m, c, ls[c], lo, hi, pa, permission)
    ensures LinearRange(m, t, ls[t], lo, hi, pa, permission)
  {
    hide Tree, Index, Within, Extent, BlockSize, Placed, Yields, Walk;
    var l := ls[t];
    var c := OutputAddress(Slot(m, t, k));
    forall x: nat | lo <= x < hi
      ensures Linear(m, t, l, x, lo, hi, pa, permission)
    {
      assert Linear(m, c, ls[c], x, lo, hi, pa, permission);
      SlotPlace(m, root, ls, t, k, x);
      var j := WalkSlot(m, root, ls, t, x);
      SlotUnique(l, j, k, x);
      WalkDown(m, t, l.level, l.count, x);
    }
  }

  /** From state `m`, `ls` to state `m'`, `ls'` the range `[lo, hi)` below table `t` was mapped
      linearly to `pa`, and outside `[lo, reach)` nothing changed but tables hung in straddling slots. */
  ghost predicate Done(m: Memory, ls: Labels, m': Memory, ls': Labels, t: nat,
                       lo: nat, hi: nat, reach: nat, pa: nat, permission: bv2) {
    && t in ls && t in ls' && ls'[t] == ls[t]
    && Step(m, ls, m', ls', ls[t].level, lo, reach)
    && LinearRange(m', t, ls[t], lo, hi, pa, permission)
  }

  lemma DoneLabel(m: Memory, ls: Labels, m': Memory, ls': Labels, t: nat,
                  lo: nat, hi: nat, reach: nat, pa: nat, permission: bv2)
    requires Done(m, ls, m', ls', t, lo, hi, reach, pa, permission)
    ensures t in ls && t in ls' && ls'[t] == ls[t]
  {
  }

  lemma DoneNothing(m: Memory, ls: Labels, t: nat, lo: nat, reach: nat, pa: nat, permission: bv2)
    requires t in ls
    ensures Done(m, ls, m, ls, t, lo, lo, reach, pa, permission)
  {
  }

  lemma DoneExtended(m: Memory, ls: Labels, m1: Memory, ls1: Labels, m2: Memory, ls2: Labels, root: nat,
                     t: nat, lo: nat, mid: nat, hi: nat, reach: nat, pa: nat, permission: bv2)
    requires Tree(m1, root, ls1) && Tree(m2, root, ls2) && lo <= mid <= hi <= reach
    requires Done(m, ls, m1, ls1, t, lo, mid, mid, pa, permission)
    requires Done(m1, ls1, m2, ls2, t, mid, hi, reach, pa + (mid - lo), permission)
    requires Placed(ls[t]) && ls[t].base <= lo && mid <= ls[t].base + Extent(ls[t].level, ls[t].count)
    requires lo == mid || Within(ls[t].level, mid) == 0
    ensures Done(m, ls, m2, ls2, t, lo, hi, reach, pa, permission)
  {
    hide Tree, LinearRange, SlotChange;
    var level := ls[t].level;
    StepCompose(m, ls, m1, ls1, m2, ls2, level, lo, mid, level, mid, reach, level, lo, reach);
    RangeExtended(m1, root, ls1, m2, ls2, reach, t, lo, mid, hi, pa, permission);
  }

  /** Table `c` hangs from slot `k` of table `t`. */
  ghost predicate Hangs(m: Memory, ls: Labels, c: nat, t: nat, k: nat) {
    && t in ls && c in ls && ls[t].level < 3 && k < ls[t].count && t / 8 + k < |m|
    && IsTable(Slot(m, t, k)) && OutputAddress(Slot(m, t, k)) == c
    && ls[c] == Label(ls[t].level + 1, SlotBase(ls[t], k), 512, t, k)
  }

  /** What was done below the next-level table of a slot was done below the slot's own table. */
  lemma DoneBelow(m: Memory, ls: Labels, m1: Memory, ls1: Labels, m2: Memory, ls2: Labels, root: nat,
                  t: nat, k: nat, c: nat, lo: nat, hi: nat, reach: nat, pa: nat, permission: bv2)
    requires Tree(m2, root, ls2) && t in ls && t in ls1 && ls1[t] == ls[t] && Placed(ls[t])
    requires Step(m, ls, m1, ls1, ls[t].level, lo, lo + PAGE_SIZE) && Hangs(m1, ls1, c, t, k)
    requires Done(m1, ls1, m2, ls2, c, lo, hi, reach, pa, permission) && lo + PAGE_SIZE <= reach
    requires SlotBase(ls[t], k) <= lo && hi <= SlotBase(ls[t], k) + BlockSize(ls[t].level)
    ensures Done(m, ls, m2, ls2, t, lo, hi, reach, pa, permission)
  {
    assert SlotChange(m1, ls1, m2, ls1[c].level, lo, reach, t, ls2[t], k);
    assert Slot(m2, t, k) == Slot(m1, t, k);
    hide Tree, LinearRange, SlotChange;
    var level := ls[t].level;
    StepCompose(m, ls, m1, ls1, m2, ls2, level, lo, lo + PAGE_SIZE, level + 1, lo, reach, level, lo, reach);
    ChildRange(m2, root, ls2, t, k, lo, hi, pa, permission);
  }

  // ------------------------------------------------------------------ what a whole call does to every walk

  /** The meaning of a successful mapping call for one address: inside the range the new linear
      translation; outside it the old one, except that addresses of a block the range cuts in two
      lose their translation. */
  ghost predicate Remapped(was: Mapping, now: Mapping, x: nat, lo: nat, hi: nat, pa: nat,
                           readable: bool, writable: bool) {
    if lo <= x < hi then Yields(now, pa + (x - lo), readable, writable)
    else if was.Mapped? && Meets(was.level, x, lo, hi) then now == Fault
    else now == was
  }

  /** `x` lost its translation because the block that provided it meets the range. */
  ghost predicate CutBy(was: Mapping, now: Mapping, x: nat, lo: nat, hi: nat) {
    now == Fault && was.Mapped? && Meets(was.level, x, lo, hi)
  }

  lemma RemappedExactly(m: Memory, root: nat, ls: Labels, m': Memory, ls': Labels, t: nat,
                        lo: nat, hi: nat, pa: nat, permission: bv2, x: nat)
    requires Tree(m, root, ls) && Tree(m', root, ls') && Done(m, ls, m', ls', t, lo, hi, hi, pa, permission)
    requires Placed(ls[t]) && Covers(ls[t], x) && lo < hi
    ensures Remapped(Walk(m, t, ls[t].level, ls[t].count, x), Walk(m', t, ls[t].level, ls[t].count, x),
                     x, lo, hi, pa, permission & 1 == 1, permission & 2 == 2)
  {
    var l := ls[t];
    if lo <= x < hi {
      assert Linear(m', t, l, x, lo, hi, pa, permission);
    } else {
      WalkOutside(m, root, ls, m', ls', l.level, lo, hi, t, x);
      var was := Walk(m, t, l.level, l.count, x);
      var now := Walk(m', t, l.level, l.count, x);
      if was.Mapped? && Meets(was.level, x, lo, hi) && now == was {
        LeafInside(m', t, l, was.level, x, lo, hi, pa, permission);
      }
    }
  }

  /** No leaf straddles the border of a range that is mapped linearly. */
  lemma LeafInside(m: Memory, t: nat, l: Label, leaf: Level, x: nat, lo: nat, hi: nat, pa: nat, permission: bv2)
    requires l.count > 0 && lo < hi && LinearRange(m, t, l, lo, hi, pa, permission)
    requires Walk(m, t, l.level, l.count, x).Mapped? && Walk(m, t, l.level, l.count, x).level == leaf
    requires Meets(leaf, x, lo, hi)
    ensures lo <= x < hi
  {
    Split(leaf, x);
    var y := if Extent(leaf, Index(leaf, x)) < lo then lo else Extent(leaf, Index(leaf, x));
    assert Index(leaf, y) == Index(leaf, x) by { SameBlock(leaf, x, y); }
    assert Linear(m, t, l, y, lo, hi, pa, permission);
    hide Within, LinearRange;
    SameLeaf(m, t, l.level, l.count, leaf, x, y);
  }

  lemma SameBlock(level: Level, x: nat, y: nat)
    requires Extent(level, Index(level, x)) <= y < Extent(level, Index(level, x)) + BlockSize(level)
    ensures Index(level, y) == Index(level, x)
  {
    Split(level, y);
    if Index(level, y) < Index(level, x) {
      ExtentMonotone(level, Index(level, y), Index(level, x));
    } else if Index(level, y) > Index(level, x) {
      ExtentMonotone(level, Index(level, x), Index(level, y));
    }
  }
}
