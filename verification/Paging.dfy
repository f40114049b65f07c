/** The stage-2 table writer of the hypervisor: `init_stage2_translation_table`,
    `_map_address_stage2` and `map_address_stage2`. */
module Paging {
  import opened Descriptor
  import opened Geometry
  import opened Stage2
  import opened Stage2Update
  import opened TableCount
  import opened Arithmetic

  /** `43 - (3 - first_level) * 9` */
  function ConcatenationLimit(first: Level): nat { 43 - (3 - first) * 9 }

  /** `number_of_concatenated_page_tables` */
  function NumberOfTables(t0sz: nat, first: Level): nat {
    if t0sz > ConcatenationLimit(first) then 1 else Pow2(ConcatenationLimit(first) - t0sz)
  }

  /** The top table always reaches the whole `64 - t0sz` bit address space, and exactly that when
      tables are concatenated. */
  lemma TopTableReach(t0sz: nat, first: Level)
    requires t0sz <= 64
    ensures Extent(first, 512 * NumberOfTables(t0sz, first)) >= Pow2(64 - t0sz)
    ensures t0sz <= ConcatenationLimit(first) ==> Extent(first, 512 * NumberOfTables(t0sz, first)) == Pow2(64 - t0sz)
  {
    hide Pow2, Extent;
    var limit := ConcatenationLimit(first);
    OneTableReach(first);
    ExtentProduct(first, NumberOfTables(t0sz, first));
    if t0sz > limit {
      Pow2Add(t0sz - limit, 64 - t0sz);
      ProductAtLeast(Pow2(t0sz - limit), Pow2(64 - t0sz));
    } else {
      Pow2Add(limit - t0sz, 64 - limit);
    }
  }

  lemma ExtentProduct(first: Level, n: nat)
    ensures Extent(first, 512 * n) == n * Extent(first, 512)
  {
  }

  lemma OneTableReach(first: Level)
    ensures Extent(first, 512) == Pow2(64 - ConcatenationLimit(first))
  {
    assert Pow2(10) == 0x400;
    assert Pow2(1) == 2;
    assert Pow2(20) == 0x10_0000 by { Pow2Add(10, 10); }
    assert Pow2(21) == 0x20_0000 by { Pow2Add(1, 20); }
    assert Pow2(30) == 0x4000_0000 by { Pow2Add(10, 20); }
    assert Pow2(40) == 0x100_0000_0000 by { Pow2Add(10, 30); }
    assert Pow2(9) == 0x200;
    assert Pow2(39) == 0x80_0000_0000 by { Pow2Add(9, 30); }
    assert Pow2(8) == 0x100;
    assert Pow2(48) == 0x1_0000_0000_0000 by { Pow2Add(8, 40); }
  }

  /** The alignment the top table is allocated with, `12 + number_of_tables - 1` bits, is a multiple of
      the size of the concatenated tables, as the architecture demands of the table base. */
  lemma TopTableAlignment(t0sz: nat, first: Level)
    ensures var n := NumberOfTables(t0sz, first); Pow2(12 + n - 1) % (n * 0x1000) == 0
  {
    var k := if t0sz > ConcatenationLimit(first) then 0 else ConcatenationLimit(first) - t0sz;
    assert Pow2(12) == 0x1000;
    assert NumberOfTables(t0sz, first) == Pow2(k);
    ConcatenatedAlignment(k);
  }

  lemma ConcatenatedAlignment(k: nat)
    ensures Pow2(12 + Pow2(k) - 1) % (Pow2(k) * 0x1000) == 0
  {
    hide Pow2;
    var n := Pow2(k);
    OnePage();
    Pow2Grows(k);
    Pow2Add(12, n - 1);
    Pow2Add(k, n - 1 - k);
    var rest := Pow2(n - 1 - k);
    assert 0x1000 * (n * rest) == rest * (n * 0x1000);
    MultipleMod(rest, n * 0x1000);
  }

  lemma OnePage()
    ensures Pow2(12) == 0x1000
  {
  }

  lemma {:induction false} Pow2Grows(k: nat)
    ensures Pow2(k) >= k + 1
  {
    if k > 0 {
      Pow2Grows(k - 1);
    }
  }

  /** T0SZ and the initial lookup level for the physical address range field of ID_AA64MMFR0_EL1. */
  function AddressSpace(parange: nat): (nat, Level) {
    match parange
    case 0 => (32, 1)
    case 1 => (28, 1)
    case 2 => (24, 1)
    case 3 => (22, 1)
    case 4 => (20, 0)
    case _ => (16, 0)
  }

  /** The physical memory a CPU reaches, by the same field: 4 GiB, 64 GiB, 1 TiB, 4 TiB, 16 TiB, 256 TiB. */
  function PhysicalSize(parange: nat): nat {
    match parange
    case 0 => 0x1_0000_0000
    case 1 => 0x10_0000_0000
    case 2 => 0x100_0000_0000
    case 3 => 0x400_0000_0000
    case 4 => 0x1000_0000_0000
    case _ => 0x1_0000_0000_0000
  }

  /** The input address space is exactly as large, the top table reaches all of it, and no more tables are concatenated
      than the architecture allows: sixteen at level 1, one at level 0. */
  lemma AddressSpaceFits(parange: nat)
    ensures var (t0sz, first) := AddressSpace(parange);
      && t0sz <= 64 && Pow2(64 - t0sz) == PhysicalSize(parange)
      && Extent(first, 512 * NumberOfTables(t0sz, first)) >= PhysicalSize(parange)
      && (first == 0 ==> NumberOfTables(t0sz, first) == 1) && NumberOfTables(t0sz, first) <= 16
  {
    hide Pow2, Extent;
    var (t0sz, first) := AddressSpace(parange);
    TopTableReach(t0sz, first);
    SmallPowers();
    Pow2Add(32, 4);
    Pow2Add(32, 8);
    Pow2Add(32, 10);
    Pow2Add(32, 12);
    Pow2Add(32, 16);
  }

  lemma SmallPowers()
    ensures Pow2(0) == 1 && Pow2(1) == 2 && Pow2(3) == 8 && Pow2(4) == 0x10 && Pow2(8) == 0x100
    ensures Pow2(10) == 0x400 && Pow2(12) == 0x1000 && Pow2(16) == 0x1_0000 && Pow2(32) == 0x1_0000_0000
  {
    assert Pow2(8) == 0x100;
    assert Pow2(16) == 0x1_0000 by { Pow2Add(8, 8); }
    Pow2Add(16, 16);
  }

  /** Every page that left the pool is a table that was made, and there are no other tables below the top one. */
  ghost predicate Accounted(supply: nat, pool: seq<nat>, made: Made, labels: Labels) {
    |made| + |pool| == supply && |labels| == 1 + |made|
  }

  lemma OneMoreTable(supply: nat, pool: seq<nat>, made: Made, labels: Labels, level: Level, l: Label)
    requires Accounted(supply, pool, made, labels) && pool != [] && pool[0] !in labels
    ensures Accounted(supply, pool[1..], made + multiset{level}, labels[pool[0] := l])
  {
  }

  class TranslationTable {
    const mem: array<Word>
    /** What VTTBR_EL2 and VTCR_EL2 hold: the top table, its lookup level, and its descriptor count. */
    const root: nat
    const level: Level
    const count: nat
    /** The pages the allocator will hand out, in order; it fails once they are used up. */
    var pool: seq<nat>
    /** The place of every table made so far. */
    ghost var labels: Labels
    /** How many tables of each level have been made. */
    ghost var made: Made
    /** How many pages the allocator had to begin with. */
    ghost const supply: nat

    ghost predicate Valid()
      reads this, mem
    {
      && Tree(mem[..], root, labels)
      && labels[root] == Label(level, 0, count, root, 0)
      && PoolFree(mem.Length, labels, pool)
      && Accounted(supply, pool, made, labels)
    }

    /** `init_stage2_translation_table`: a zeroed top table, sized for the address range of the CPU. */
    constructor (memory: array<Word>, table: nat, parange: nat, pages: seq<nat>)
      requires var (t0sz, first) := AddressSpace(parange);
        && table % PAGE_SIZE == 0 && table / 8 + 512 * NumberOfTables(t0sz, first) <= memory.Length
        && PoolFree(memory.Length, map[table := Label(first, 0, 512 * NumberOfTables(t0sz, first), table, 0)], pages)
      modifies memory
      ensures Valid() && mem == memory && root == table && pool == pages && made == multiset{} && supply == |pages|
      ensures var (t0sz, first) := AddressSpace(parange);
        level == first && count == 512 * NumberOfTables(t0sz, first)
      ensures labels == map[table := Label(level, 0, count, table, 0)]
      ensures forall i :: table / 8 <= i < table / 8 + count ==> Value(memory[i]) == 0
      ensures forall x: nat :: Translate(x) == Fault
    {
      var (t0sz, first) := AddressSpace(parange);
      mem, root, level, count, pool := memory, table, first, 512 * NumberOfTables(t0sz, first), pages;
      labels := map[table := Label(first, 0, 512 * NumberOfTables(t0sz, first), table, 0)];
      made, supply := multiset{}, |pages|;
      new;
      for i := 0 to count
        invariant mem == memory && root == table && pool == pages && made == multiset{} && supply == |pages|
        invariant level == first && count == 512 * NumberOfTables(t0sz, first)
        invariant labels == map[table := Label(level, 0, count, table, 0)]
        invariant forall j :: table / 8 <= j < table / 8 + i ==> mem[j] == ZERO
      {
        mem[table / 8 + i] := ZERO;
      }
      forall x: nat
        ensures Translate(x) == Fault
      {
        var i := Index(level, x) % count;
        assert mem[..][table / 8 + i] == ZERO;
      }
    }

    /** The architectural translation of a guest address. */
    ghost function Translate(x: nat): Mapping
      requires count > 0
      reads this, mem
    {
      Walk(mem[..], root, level, count, x)
    }

    method Write(i: nat, w: Word)
      requires i < mem.Length
      modifies mem
      ensures mem[..] == old(mem[..])[i := w]
    {
      mem[i] := w;
    }

    /** The zeroing loop over a freshly allocated page. */
    method ZeroPage(p: nat)
      requires p / 8 + 512 <= mem.Length
      modifies mem
      ensures PageZeroed(old(mem[..]), mem[..], p)
    {
      for i := 0 to 512
        invariant forall j :: 0 <= j < mem.Length ==>
          mem[j] == if p / 8 <= j < p / 8 + i then ZERO else old(mem[j])
      {
        mem[p / 8 + i] := ZERO;
      }
    }

    lemma PageAligned(lvl: Level, pa: nat)
      requires pa < ADDRESS_LIMIT && Within(lvl, pa) == 0
      ensures IsPageAddress(pa)
    {
      AlignedToPages(lvl, pa);
    }

    lemma LeafIsNoTable(lvl: Level, pa: nat, permission: bv2)
      requires IsPageAddress(pa)
      ensures !IsTable(BlockDescriptor(pa, permission))
    {
      hide BlockDescriptor;
    }

    /** The leaf branch: fills one slot with a page or block descriptor. */
    method WriteLeaf(t: nat, lvl: Level, k: nat, pa: nat, permission: bv2)
      requires Valid() && t in labels && k < labels[t].count && labels[t].level == lvl
      requires lvl >= 1 && pa < ADDRESS_LIMIT && Within(lvl, pa) == 0
      modifies mem
      ensures Valid()
      ensures t / 8 + k < mem.Length && old(mem[..])[t / 8 + k := mem[t / 8 + k]] == mem[..]
      ensures Value(mem[t / 8 + k]) == pa + (if lvl == 3 then 0x73F else 0x73D) + 0x40 * (permission as nat)
      ensures var lo := SlotBase(labels[t], k);
        Done(old(mem[..]), labels, mem[..], labels, t, lo, lo + BlockSize(lvl), lo + BlockSize(lvl), pa, permission)
    {
      hide Tree, Step, LinearRange, IsTable, IsBlock, Extent, BlockSize, Within, PageDescriptor, BlockDescriptor,
        Placed, PoolFree, Accounted, IsPageAddress;
      ghost var m := mem[..];
      TableLocated(m, root, labels, t);
      PageAligned(lvl, pa);
      var w := if lvl == 3 then PageDescriptor(pa, permission) else BlockDescriptor(pa, permission);
      LeafIsNoTable(lvl, pa, permission);
      Write(t / 8 + k, w);
      LeafWritten(m, root, labels, t, k, w);
      LeafRange(m, root, labels, t, k, pa, permission, w);
    }

    /** The table branch: the next-level table of a slot, allocated and hung there if it has none. */
    method NextTable(t: nat, k: nat, ghost x: nat) returns (ok: bool, next: nat)
      requires Valid() && t in labels && k < labels[t].count && labels[t].level < 3
      requires SlotBase(labels[t], k) <= x < SlotBase(labels[t], k) + BlockSize(labels[t].level)
      modifies this, mem
      ensures Valid()
      ensures t in old(labels) && t in labels && labels[t] == old(labels)[t]
      ensures Step(old(mem[..]), old(labels), mem[..], labels, old(labels)[t].level, x, x + PAGE_SIZE)
      ensures ok ==> Hangs(mem[..], labels, next, t, k)
      ensures t / 8 + k < mem.Length
      ensures if ok && !old(IsTable(mem[t / 8 + k])) then
          made == old(made) + multiset{old(labels)[t].level + 1} && old(pool) != [] && pool == old(pool)[1..]
        else
          made == old(made) && pool == old(pool)
      ensures !ok ==> pool == old(pool) == [] && mem[..] == old(mem[..]) && labels == old(labels)
    {
      hide Tree, Step, Extent, BlockSize, Within, TableDescriptor, Accounted, PoolFree, FreePage, PageZeroed, Placed,
        Located, Hangs, IsTable, IsPageAddress;
      TableLocated(mem[..], root, labels, t);
      var w := mem[t / 8 + k];
      if IsTable(w) {
        StepReflexive(mem[..], labels, labels[t].level, x, x + PAGE_SIZE);
        TableThere(mem[..], root, labels, t, k);
        return true, OutputAddress(w);
      }
      if pool == [] {
        StepReflexive(mem[..], labels, labels[t].level, x, x + PAGE_SIZE);
        return false, 0;
      }
      ok, next := true, pool[0];
      ghost var m := mem[..];
      PoolFirst(mem.Length, labels, pool);
      ZeroPage(next);
      TableMade(m, mem[..], labels, pool, made, t, k, x);
      Write(t / 8 + k, TableDescriptor(next));
      made, labels := made + multiset{labels[t].level + 1}, HungLabel(labels, t, k, next);
      pool := pool[1..];
    }

    lemma TableThere(m: Memory, root: nat, ls: Labels, t: nat, k: nat)
      requires Tree(m, root, ls) && t in ls && k < ls[t].count && ls[t].level < 3
      ensures t / 8 + k < |m|
      ensures IsTable(m[t / 8 + k]) ==> Hangs(m, ls, OutputAddress(m[t / 8 + k]), t, k)
    {
      hide Tree, IsTable, Extent;
      TableLocated(m, root, ls, t);
      TableLinked(m, root, ls, t, k);
    }

    lemma PoolFirst(size: nat, ls: Labels, pages: seq<nat>)
      requires PoolFree(size, ls, pages) && pages != []
      ensures FreePage(size, ls, pages[0]) && IsPageAddress(pages[0]) && pages[0] / 8 + 512 <= size
    {
    }

    ghost function HungLabel(ls: Labels, t: nat, k: nat, p: nat): Labels
      requires t in ls && ls[t].level < 3
    {
      ls[p := Label(ls[t].level + 1, SlotBase(ls[t], k), 512, t, k)]
    }

    /** What hanging the first page of the pool from a slot makes of the table. */
    lemma TableMade(m: Memory, z: Memory, ls: Labels, pages: seq<nat>, made: Made, t: nat, k: nat, x: nat)
      requires Tree(m, root, ls) && PoolFree(|m|, ls, pages) && Accounted(supply, pages, made, ls) && pages != []
      requires t in ls && k < ls[t].count && ls[t].level < 3 && t / 8 + k < |m| && !IsTable(m[t / 8 + k])
      requires SlotBase(ls[t], k) <= x < SlotBase(ls[t], k) + BlockSize(ls[t].level) && PageZeroed(m, z, pages[0])
      ensures |z| == |m| && IsPageAddress(pages[0]) && root in ls
      ensures var p, ls' := pages[0], HungLabel(ls, t, k, pages[0]);
        var m' := z[t / 8 + k := TableDescriptor(p)];
        && Tree(m', root, ls') && root in ls' && ls'[root] == ls[root] && t in ls' && ls'[t] == ls[t]
        && PoolFree(|m|, ls', pages[1..]) && Accounted(supply, pages[1..], made + multiset{ls[t].level + 1}, ls')
        && Step(m, ls, m', ls', ls[t].level, x, x + PAGE_SIZE) && Hangs(m', ls', p, t, k)
    {
      hide Tree, Step, Extent, BlockSize, Within, Accounted, PoolFree, FreePage, PageZeroed, Placed, Hung, Located;
      var p, ls' := pages[0], HungLabel(ls, t, k, pages[0]);
      TableLocated(m, root, ls, t);
      PoolRest(|m|, ls, pages, ls'[p]);
      FreePageFacts(|m|, ls, p);
      HungNow(m, z, ls, t, k, p);
      TableHung(m, root, ls, z[t / 8 + k := TableDescriptor(p)], ls', t, k, p, x);
      OneMoreTable(supply, pages, made, ls, ls[t].level + 1, ls'[p]);
    }

    /** First address past what one call on table `t` can map. */
    ghost function Stop(l: Label, ipa: nat, size: nat): nat {
      var end := l.base + Extent(l.level, l.count);
      if ipa + size <= end then ipa + size else end
    }

    lemma StopOnPage(l: Label, ipa: nat, size: nat)
      requires l.base == 0 && Within(3, ipa) == Within(3, size) == 0
      ensures Within(3, Stop(l, ipa, size)) == 0
    {
      hide Within, Extent;
      PagesMove(ipa, ipa, size, size);
      WholeExtent(l.level, l.count);
      AlignedToPages(l.level, Extent(l.level, l.count));
    }

    lemma WholePage()
      ensures Within(3, PAGE_SIZE) == 0
    {
    }

    /** The level-3 branch of `_map_address_stage2`. */
    method MapPages(pa0: nat, ipa0: nat, size0: nat, t: nat, permission: bv2, n: nat)
      returns (pa: nat, ipa: nat, size: nat)
      requires Valid() && t in labels && labels[t].level == 3 && labels[t].count == n
      requires Within(3, pa0) == Within(3, ipa0) == Within(3, size0) == 0 && size0 > 0
      requires pa0 + size0 <= ADDRESS_LIMIT && Covers(labels[t], ipa0)
      modifies mem
      ensures ipa == Stop(labels[t], ipa0, size0)
      ensures Within(3, pa) == Within(3, ipa) == Within(3, size) == 0
      ensures pa - pa0 == ipa - ipa0 == size0 - size
      ensures Valid() && Done(old(mem[..]), labels, mem[..], labels, t, ipa0, ipa, ipa, pa0, permission)
    {
      hide Tree, Done, Index, Within, PoolFree, Extent, Placed, Accounted, Located;
      ghost var m := mem[..];
      ghost var l := labels[t];
      pa, ipa, size := pa0, ipa0, size0;
      TableLocated(m, root, labels, t);
      ghost var _ := SlotOf(l, ipa);
      var k := Index(3, ipa) % n;
      DoneNothing(m, labels, t, ipa, ipa, pa, permission);
      WholePage();
      while k < n
        invariant k <= n && ipa == SlotBase(l, k) && size > 0
        invariant ipa - ipa0 == pa - pa0 == size0 - size >= 0
        invariant Within(3, pa) == Within(3, ipa) == Within(3, size) == 0
        invariant Valid() && Done(m, labels, mem[..], labels, t, ipa0, ipa, ipa, pa0, permission)
      {
        ghost var m1 := mem[..];
        SlotEnd(l, k);
        WriteLeaf(t, 3, k, pa, permission);
        DoneExtended(m, labels, m1, labels, mem[..], labels, root, t,
                     ipa0, ipa, ipa + PAGE_SIZE, ipa + PAGE_SIZE, pa0, permission);
        PagesMove(pa, ipa, size, PAGE_SIZE);
        pa, ipa, size := pa + PAGE_SIZE, ipa + PAGE_SIZE, size - PAGE_SIZE;
        if size == 0 {
          break;
        }
        k := k + 1;
      }
    }

    /** `_map_address_stage2`: maps `[ipa0, ipa0 + size0)` below table `t`, as far as the table reaches. */
    method MapLevel(pa0: nat, ipa0: nat, size0: nat, t: nat, permission: bv2, lvl: Level, n: nat)
      returns (ok: bool, pa: nat, ipa: nat, size: nat)
      requires Valid() && t in labels && labels[t].level == lvl && labels[t].count == n
      requires Within(3, pa0) == Within(3, ipa0) == Within(3, size0) == 0 && size0 > 0
      requires pa0 + size0 <= ADDRESS_LIMIT && Covers(labels[t], ipa0)
      modifies this, mem
      ensures Valid() && t in old(labels)
      ensures pa - pa0 == ipa - ipa0 == size0 - size >= 0
      ensures ok ==> ipa == Stop(old(labels)[t], ipa0, size0)
      ensures !ok ==> pool == [] && ipa < Stop(old(labels)[t], ipa0, size0)
      ensures Within(3, pa) == Within(3, ipa) == Within(3, size) == 0
      ensures Done(old(mem[..]), old(labels), mem[..], labels, t,
                   ipa0, ipa, if ok then ipa else ipa + PAGE_SIZE, pa0, permission)
      ensures Frugal(old(made), made, lvl, ipa0, Stop(old(labels)[t], ipa0, size0), pa0)
      decreases 3 - lvl, 3
    {
      if lvl == 3 {
        pa, ipa, size := MapPages(pa0, ipa0, size0, t, permission, n);
        FrugalNothing(made, lvl, ipa0, ipa, pa0);
        return true, pa, ipa, size;
      }
      ok, pa, ipa, size := MapDescriptors(pa0, ipa0, size0, t, permission, lvl, n);
    }

    /** The loop over block and table descriptors of `_map_address_stage2`, levels 0 to 2. */
    method MapDescriptors(pa0: nat, ipa0: nat, size0: nat, t: nat, permission: bv2, lvl: Level, n: nat)
      returns (ok: bool, pa: nat, ipa: nat, size: nat)
      requires lvl < 3
      requires Valid() && t in labels && labels[t].level == lvl && labels[t].count == n
      requires Within(3, pa0) == Within(3, ipa0) == Within(3, size0) == 0 && size0 > 0
      requires pa0 + size0 <= ADDRESS_LIMIT && Covers(labels[t], ipa0)
      modifies this, mem
      ensures Valid() && t in old(labels)
      ensures pa - pa0 == ipa - ipa0 == size0 - size >= 0
      ensures ok ==> ipa == Stop(old(labels)[t], ipa0, size0)
      ensures !ok ==> pool == [] && ipa < Stop(old(labels)[t], ipa0, size0)
      ensures Within(3, pa) == Within(3, ipa) == Within(3, size) == 0
      ensures Done(old(mem[..]), old(labels), mem[..], labels, t,
                   ipa0, ipa, if ok then ipa else ipa + PAGE_SIZE, pa0, permission)
      ensures Frugal(old(made), made, lvl, ipa0, Stop(old(labels)[t], ipa0, size0), pa0)
      decreases 3 - lvl, 2
    {
      hide Tree, Done, Index, Within, Extent, BlockSize, PoolFree, Frugal, Accounted, Placed, Located;
      ghost var m, ls := mem[..], labels;
      ghost var l := labels[t];
      ok, pa, ipa, size := true, pa0, ipa0, size0;
      TableLocated(m, root, ls, t);
      ghost var _ := SlotOf(l, ipa);
      var k := Index(lvl, ipa) % n;
      DoneNothing(m, ls, t, ipa, ipa, pa, permission);
      FrugalNothing(made, lvl, ipa, ipa, pa);
      ghost var stop := Stop(l, ipa0, size0);
      while k < n
        invariant ok && k <= n && size > 0 && SlotBase(l, k) <= ipa && (ipa0 < ipa ==> ipa == SlotBase(l, k))
        invariant k < n ==> ipa < SlotBase(l, k) + BlockSize(lvl)
        invariant ipa0 < ipa ==> Within(lvl, ipa) == 0
        invariant k == n ==> ipa0 < ipa
        invariant ipa - ipa0 == pa - pa0 == size0 - size >= 0
        invariant Within(3, pa) == Within(3, ipa) == Within(3, size) == 0
        invariant Valid() && t in labels && labels[t] == l
        invariant Done(m, ls, mem[..], labels, t, ipa0, ipa, ipa, pa0, permission)
        invariant Frugal(old(made), made, lvl, ipa0, ipa, pa0) && (ipa == ipa0 ==> made == old(made))
      {
        ghost var m1, ls1, mid, made1 := mem[..], labels, ipa, made;
        ghost var last := SlotStop(l, k, ipa, size);
        ok, pa, ipa, size := MapSlot(pa, ipa, size, t, permission, lvl, k);
        SlotEnd(l, k);
        DoneLabel(m1, ls1, mem[..], labels, t,
                  mid, ipa, if ok then ipa else ipa + PAGE_SIZE, pa - (ipa - mid), permission);
        DoneExtended(m, ls, m1, ls1, mem[..], labels, root, t, ipa0, mid, ipa,
                     if ok then ipa else ipa + PAGE_SIZE, pa0, permission);
        FrugalExtended(old(made), made1, made, lvl, ipa0, mid, last, pa0);
        if !ok || size == 0 {
          FrugalLater(old(made), made, lvl, ipa0, last, stop, pa0);
          break;
        }
        k := k + 1;
      }
    }

    /** First address past what one call on slot `k` can map. */
    ghost function SlotStop(l: Label, k: nat, ipa: nat, size: nat): nat {
      var end := SlotBase(l, k) + BlockSize(l.level);
      if ipa + size <= end then ipa + size else end
    }

    /** One descriptor of the loop in `_map_address_stage2`: a block where it fits, else the next level. */
    method MapSlot(pa0: nat, ipa0: nat, size0: nat, t: nat, permission: bv2, lvl: Level, k: nat)
      returns (ok: bool, pa: nat, ipa: nat, size: nat)
      requires lvl < 3 && Valid() && t in labels && labels[t].level == lvl && k < labels[t].count
      requires Within(3, pa0) == Within(3, ipa0) == Within(3, size0) == 0 && size0 > 0
      requires pa0 + size0 <= ADDRESS_LIMIT
      requires SlotBase(labels[t], k) <= ipa0 < SlotBase(labels[t], k) + BlockSize(lvl)
      modifies this, mem
      ensures Valid() && t in old(labels)
      ensures pa - pa0 == ipa - ipa0 == size0 - size >= 0
      ensures ok ==> ipa == SlotStop(old(labels)[t], k, ipa0, size0)
      ensures !ok ==> pool == [] && ipa < SlotStop(old(labels)[t], k, ipa0, size0)
      ensures Within(3, pa) == Within(3, ipa) == Within(3, size) == 0
      ensures Done(old(mem[..]), old(labels), mem[..], labels, t,
                   ipa0, ipa, if ok then ipa else ipa + PAGE_SIZE, pa0, permission)
      ensures Frugal(old(made), made, lvl, ipa0, SlotStop(old(labels)[t], k, ipa0, size0), pa0)
      decreases 3 - lvl, 1
    {
      hide Tree, Step, Done, Index, Within, Extent, PoolFree, IsTable, Placed, Frugal, Accounted;
      ghost var l := labels[t];
      SlotPlace(mem[..], root, labels, t, k, ipa0);
      var block := BlockSize(lvl);
      if lvl >= 1 && size0 >= block && Within(lvl, pa0) == 0 && Within(lvl, ipa0) == 0 {
        WriteLeaf(t, lvl, k, pa0, permission);
        BlockMoves(lvl, pa0, ipa0, size0);
        FrugalNothing(made, lvl, ipa0, ipa0 + block, pa0);
        return true, pa0 + block, ipa0 + block, size0 - block;
      }
      ok, pa, ipa, size := MapThroughTable(pa0, ipa0, size0, t, permission, lvl, k);
    }

    /** The table branch of that loop: makes sure there is a next-level table and maps through it. */
    method MapThroughTable(pa0: nat, ipa0: nat, size0: nat, t: nat, permission: bv2, lvl: Level, k: nat)
      returns (ok: bool, pa: nat, ipa: nat, size: nat)
      requires lvl < 3 && Valid() && t in labels && labels[t].level == lvl && k < labels[t].count
      requires Within(3, pa0) == Within(3, ipa0) == Within(3, size0) == 0 && size0 > 0
      requires pa0 + size0 <= ADDRESS_LIMIT
      requires SlotBase(labels[t], k) <= ipa0 < SlotBase(labels[t], k) + BlockSize(lvl)
      requires lvl == 0 || size0 < BlockSize(lvl) || Within(lvl, pa0) != 0 || Within(lvl, ipa0) != 0
      modifies this, mem
      ensures Valid() && t in old(labels)
      ensures pa - pa0 == ipa - ipa0 == size0 - size >= 0
      ensures ok ==> ipa == SlotStop(old(labels)[t], k, ipa0, size0)
      ensures !ok ==> pool == [] && ipa < SlotStop(old(labels)[t], k, ipa0, size0)
      ensures Within(3, pa) == Within(3, ipa) == Within(3, size) == 0
      ensures Done(old(mem[..]), old(labels), mem[..], labels, t,
                   ipa0, ipa, if ok then ipa else ipa + PAGE_SIZE, pa0, permission)
      ensures Frugal(old(made), made, lvl, ipa0, SlotStop(old(labels)[t], k, ipa0, size0), pa0)
      decreases 3 - lvl, 0
    {
      hide Tree, Step, Done, Index, Within, Extent, BlockSize, PoolFree, IsTable, Placed, Frugal, Accounted;
      ghost var m, ls := mem[..], labels;
      ghost var l := labels[t];
      ghost var last := SlotStop(l, k, ipa0, size0);
      SlotPlace(m, root, ls, t, k, ipa0);
      var next;
      ok, next := NextTable(t, k, ipa0);
      if !ok {
        DoneNothing(m, ls, t, ipa0, ipa0 + PAGE_SIZE, pa0, permission);
        FrugalNothing(made, lvl, ipa0, last, pa0);
        return false, pa0, ipa0, size0;
      }
      ghost var m1, ls1, made1 := mem[..], labels, made;
      ChildPlace(l, k, ipa0, t);
      ok, pa, ipa, size := MapLevel(pa0, ipa0, size0, next, permission, lvl + 1, 512);
      PagesAdvance(ipa0, ipa);
      DoneBelow(m, ls, m1, ls1, mem[..], labels, root, t, k, next, ipa0, ipa,
                if ok then ipa else ipa + PAGE_SIZE, pa0, permission);
      FrugalSlot(old(made), made1, made, lvl, ipa0, last, pa0, size0);
    }

    /** First address past what the top table translates. */
    ghost function Coverage(): nat
    {
      Extent(level, count)
    }

    /** `map_address_stage2`. A map size that is not a multiple of the page size is refused. Otherwise
        `[ipa, end)` is mapped, where `end` is `ipa + size` cut off at the coverage of the top table.
        On failure the ghost result `mid` is how far the writer came; only what is due to that part
        of the range changed. */
    method Map(pa: nat, ipa: nat, size: nat, readable: bool, writable: bool) returns (ok: bool, ghost mid: nat)
      requires Valid() && Within(3, pa) == Within(3, ipa) == 0 && size > 0
      requires pa + size <= ADDRESS_LIMIT && ipa < Coverage()
      modifies this, mem
      ensures Valid()
      ensures Within(3, size) != 0 ==> !ok && mem[..] == old(mem[..]) && labels == old(labels) && made == old(made)
      ensures Within(2, pa) == Within(2, ipa) ==> made[3] <= old(made)[3] + 2
      ensures var end := Stop(Label(level, 0, count, root, 0), ipa, size);
        && Frugal(old(made), made, level, ipa, end, pa)
        && (ok ==> mid == end && MappedAll(old(mem[..]), mem[..], ipa, end, pa, readable, writable))
        && (!ok && Within(3, size) == 0 ==>
              && ipa <= mid && mid + PAGE_SIZE <= end && pool == []
              && MappedPart(old(mem[..]), mem[..], ipa, mid, pa, readable, writable))
    {
      if Within(3, size) != 0 {
        FrugalNothing(made, level, ipa, Stop(Label(level, 0, count, root, 0), ipa, size), pa);
        return false, 0;
      }
      ghost var m, ls := mem[..], labels;
      assert Located(mem.Length, root, root, labels[root]);
      hide Tree, Extent, Within, Placed, Done, Frugal, PoolFree, Accounted;
      var reached, rest, left;
      ok, rest, reached, left := MapLevel(pa, ipa, size, root, S2ap(readable, writable), level, count);
      mid := reached;
      if ok {
        MappedAllMeaning(m, ls, mem[..], labels, ipa, mid, pa, S2ap(readable, writable));
      } else {
        MappedPartMeaning(m, ls, mem[..], labels, ipa, mid, pa, S2ap(readable, writable));
        StopOnPage(Label(level, 0, count, root, 0), ipa, size);
        PagesAdvance(mid, Stop(Label(level, 0, count, root, 0), ipa, size));
      }
      if Within(2, pa) == Within(2, ipa) {
        AtMostTwo(old(made), made, level, ipa, Stop(Label(level, 0, count, root, 0), ipa, size), pa, 3);
      }
    }

    /** Every translation after a successful call, in terms of the translations before it. */
    ghost predicate MappedAll(m: Memory, m': Memory, lo: nat, hi: nat, pa: nat, readable: bool, writable: bool)
      requires count > 0
    {
      forall x: nat :: x < Coverage() ==>
        Remapped(Walk(m, root, level, count, x), Walk(m', root, level, count, x), x, lo, hi, pa, readable, writable)
    }

    /** After a failed call: the part up to `mid` is mapped; outside it and the page after it, nothing
        changed but that blocks cut by it may be gone. */
    ghost predicate MappedPart(m: Memory, m': Memory, lo: nat, mid: nat, pa: nat, readable: bool, writable: bool)
      requires count > 0
    {
      && (forall x: nat :: lo <= x < mid ==>
            Yields(Walk(m', root, level, count, x), pa + (x - lo), readable, writable))
      && (forall x: nat :: x < Coverage() && !(lo <= x < mid + PAGE_SIZE) ==>
            var was, now := Walk(m, root, level, count, x), Walk(m', root, level, count, x);
            now == was || CutBy(was, now, x, lo, mid + PAGE_SIZE))
    }

    /** The translation of `x` comes from a block that reaches into `[lo, hi)`. */
    ghost predicate Cut(m: Memory, lo: nat, hi: nat, x: nat)
      requires count > 0
    {
      var was := Walk(m, root, level, count, x);
      was.Mapped? && Meets(was.level, x, lo, hi)
    }

    ghost predicate Kept(m: Memory, m': Memory, x: nat)
      requires count > 0
    {
      Walk(m', root, level, count, x) == Walk(m, root, level, count, x)
    }

    /** A successful call leaves every translation outside its range as it was exactly when its range
        cuts no existing block in two. */
    lemma FrameIff(m: Memory, m': Memory, lo: nat, hi: nat, pa: nat, readable: bool, writable: bool)
      requires count > 0 && MappedAll(m, m', lo, hi, pa, readable, writable)
      ensures (forall x: nat :: x < Coverage() && !(lo <= x < hi) ==> Kept(m, m', x)) <==>
              (forall x: nat :: x < Coverage() && !(lo <= x < hi) ==> !Cut(m, lo, hi, x))
    {
      hide Walk, Extent, Meets;
      forall x: nat | x < Coverage() && !(lo <= x < hi)
        ensures Kept(m, m', x) <==> !Cut(m, lo, hi, x)
      {
        assert Remapped(Walk(m, root, level, count, x), Walk(m', root, level, count, x),
                        x, lo, hi, pa, readable, writable);
      }
    }

    /** A failed call too leaves every translation outside `[lo, hi)` as it was, if no block is cut in two. */
    lemma FrameOnFailure(m: Memory, m': Memory, lo: nat, mid: nat, hi: nat, pa: nat, readable: bool, writable: bool)
      requires count > 0 && mid + PAGE_SIZE <= hi && MappedPart(m, m', lo, mid, pa, readable, writable)
      requires forall x: nat :: x < Coverage() && !(lo <= x < hi) ==> !Cut(m, lo, hi, x)
      ensures forall x: nat :: x < Coverage() && !(lo <= x < hi) ==> Kept(m, m', x)
    {
      hide Walk, Extent;
      forall x: nat | x < Coverage() && !(lo <= x < hi)
        ensures Kept(m, m', x)
      {
        var was, now := Walk(m, root, level, count, x), Walk(m', root, level, count, x);
        assert now == was || CutBy(was, now, x, lo, mid + PAGE_SIZE);
        assert !Cut(m, lo, hi, x);
      }
    }

    /** The other direction is not idle: mapping the first page of a block loses the rest of it. */
    lemma CutExample(m: Memory, m': Memory, pa: nat, readable: bool, writable: bool)
      requires count > 0 && 1 <= level < 3 && root / 8 < |m| && IsBlock(m[root / 8]) && Accessible(m[root / 8])
      requires MappedAll(m, m', 0, PAGE_SIZE, pa, readable, writable)
      ensures Walk(m, root, level, count, PAGE_SIZE).Mapped? && Walk(m', root, level, count, PAGE_SIZE) == Fault
    {
      assert Index(level, PAGE_SIZE) == 0 && Within(level, PAGE_SIZE) == PAGE_SIZE;
      assert PAGE_SIZE < Coverage();
      assert Remapped(Walk(m, root, level, count, PAGE_SIZE), Walk(m', root, level, count, PAGE_SIZE),
                      PAGE_SIZE, 0, PAGE_SIZE, pa, readable, writable);
    }

    lemma MappedAllMeaning(m: Memory, ls: Labels, m': Memory, ls': Labels, lo: nat, hi: nat, pa: nat, permission: bv2)
      requires Tree(m, root, ls) && Tree(m', root, ls') && lo < hi
      requires ls[root] == Label(level, 0, count, root, 0) && Placed(ls[root])
      requires Done(m, ls, m', ls', root, lo, hi, hi, pa, permission)
      ensures MappedAll(m, m', lo, hi, pa, permission & 1 == 1, permission & 2 == 2)
    {
      hide Tree, Done;
      forall x: nat | x < Coverage()
        ensures Remapped(Walk(m, root, level, count, x), Walk(m', root, level, count, x),
                         x, lo, hi, pa, permission & 1 == 1, permission & 2 == 2)
      {
        RemappedExactly(m, root, ls, m', ls', root, lo, hi, pa, permission, x);
      }
    }

    lemma MappedPartMeaning(m: Memory, ls: Labels, m': Memory, ls': Labels, lo: nat, mid: nat, pa: nat, permission: bv2)
      requires Tree(m, root, ls) && Tree(m', root, ls') && lo <= mid
      requires ls[root] == Label(level, 0, count, root, 0) && Placed(ls[root])
      requires Done(m, ls, m', ls', root, lo, mid, mid + PAGE_SIZE, pa, permission)
      ensures MappedPart(m, m', lo, mid, pa, permission & 1 == 1, permission & 2 == 2)
    {
      hide Tree, Step;
      forall x: nat | lo <= x < mid
        ensures Yields(Walk(m', root, level, count, x), pa + (x - lo), permission & 1 == 1, permission & 2 == 2)
      {
        assert Linear(m', root, ls[root], x, lo, mid, pa, permission);
      }
      forall x: nat | x < Coverage() && !(lo <= x < mid + PAGE_SIZE)
        ensures var was, now := Walk(m, root, level, count, x), Walk(m', root, level, count, x);
          now == was || CutBy(was, now, x, lo, mid + PAGE_SIZE)
      {
        WalkOutside(m, root, ls, m', ls', level, lo, mid + PAGE_SIZE, root, x);
      }
    }
  }

  /** `(is_writable << 1) | is_readable` */
  function S2ap(readable: bool, writable: bool): (permission: bv2)
    ensures (permission & 1 == 1 <==> readable) && (permission & 2 == 2 <==> writable)
  {
    (if writable then 2 else 0) | (if readable then 1 else 0)
  }
}
