/** The intrusive linked-list allocator: every free region holds its own list node. */
module Allocator {
  import opened Options
  import opened Arithmetic
  import opened HeapModel

  /** Address of the node at position `i` of the free list, or null past the end. */
  ghost function NodeAt(free: seq<Region>, i: nat): nat {
    if i < |free| then free[i].addr else 0
  }

  /** The word that byte address `a` lies in. */
  function WordOf(a: nat): nat { a / 8 }

  /** A list node: size in the first word, next pointer in the second. */
  ghost predicate NodeHolds(m: seq<nat>, r: Region, next: nat) {
    WordOf(r.addr) + 1 < |m| && m[WordOf(r.addr)] == r.size && m[WordOf(r.addr) + 1] == next
  }

  /** The node at position `i` of the list is in place and points to the one after it. */
  ghost predicate Linked(m: seq<nat>, free: seq<Region>, i: nat)
    requires i < |free|
  {
    NodeHolds(m, free[i], NodeAt(free, i + 1))
  }

  /** The list that starts at `head` in memory is `free`. */
  ghost predicate Chained(m: seq<nat>, head: nat, free: seq<Region>) {
    && head == NodeAt(free, 0)
    && forall i :: 0 <= i < |free| ==> Linked(m, free, i)
  }

  /** Following next pointers in memory from `p` for at most `fuel` nodes. */
  ghost function Follow(m: seq<nat>, p: nat, fuel: nat): seq<Region>
    decreases fuel
  {
    if p == 0 || fuel == 0 || WordOf(p) + 1 >= |m| then []
    else [Region(p, m[WordOf(p)])] + Follow(m, m[WordOf(p) + 1], fuel - 1)
  }

  /** Following the pointers gives the free list and ends there: more fuel finds nothing more. */
  lemma {:induction false} FollowsFreeList(m: seq<nat>, head: nat, free: seq<Region>, fuel: nat)
    requires Chained(m, head, free) && fuel >= |free|
    requires forall i :: 0 <= i < |free| ==> free[i].addr > 0
    ensures Follow(m, head, fuel) == free
    decreases |free|
  {
    if free != [] {
      assert Linked(m, free, 0);
      forall i | 0 <= i < |free| - 1
        ensures Linked(m, free[1..], i)
      {
        assert Linked(m, free, i + 1);
      }
      FollowsFreeList(m, m[WordOf(head) + 1], free[1..], fuel - 1);
    }
  }

  /** Word `w` lies in the region. */
  ghost predicate Holds(r: Region, w: int) { r.addr <= 8 * w < r.End() }

  ghost predicate HeldBy(rs: seq<Region>, w: int) {
    exists i :: 0 <= i < |rs| && Holds(rs[i], w)
  }

  /** Outside the listed regions nothing changed. */
  ghost predicate OnlyNodes(m: seq<nat>, m': seq<nat>, free: seq<Region>) {
    && |m| == |m'|
    && forall w :: 0 <= w < |m| && m'[w] != m[w] ==> HeldBy(free, w)
  }

  /** Regions that can hold list nodes side by side. */
  ghost predicate NodesApart(free: seq<Region>) {
    && (forall i :: 0 <= i < |free| ==> free[i].addr > 0 && free[i].addr % 8 == 0 && free[i].size >= NODE_SIZE)
    && AllSeparate(free)
  }

  lemma NodeWords(free: seq<Region>, i: nat, j: nat)
    requires NodesApart(free) && i < |free| && j < |free| && i != j
    ensures WordOf(free[i].addr) + 1 < WordOf(free[j].addr) || WordOf(free[j].addr) + 1 < WordOf(free[i].addr)
  {
    if i < j { assert Separate(free[i], free[j]); } else { assert Separate(free[j], free[i]); }
  }

  /** `m` after the node at position `i` was cut out of the list. */
  ghost function Cut(m: seq<nat>, free: seq<Region>, i: nat): seq<nat>
    requires i < |free| && WordOf(free[i].addr) + 1 < |m| && (i > 0 ==> WordOf(free[i - 1].addr) + 1 < |m|)
  {
    var m1 := m[WordOf(free[i].addr) + 1 := 0];
    if i == 0 then m1 else m1[WordOf(free[i - 1].addr) + 1 := m[WordOf(free[i].addr) + 1]]
  }

  lemma ChainedAt(m: seq<nat>, head: nat, free: seq<Region>, i: nat)
    requires Chained(m, head, free) && i < |free|
    ensures Linked(m, free, i)
  {
  }

  lemma CutEntry(m: seq<nat>, head: nat, free: seq<Region>, i: nat, e: nat)
    requires Chained(m, head, free) && NodesApart(free) && i < |free| && e < |free| && e != i
    requires WordOf(free[i].addr) + 1 < |m| && (i > 0 ==> WordOf(free[i - 1].addr) + 1 < |m|)
    ensures NodeHolds(Cut(m, free, i), free[e], NodeAt(free, if e + 1 == i then i + 1 else e + 1))
  {
    hide Chained, NodesApart, WordOf;
    ChainedAt(m, head, free, e);
    ChainedAt(m, head, free, i);
    NodeWords(free, i, e);
    if i > 0 {
      NodeWords(free, i - 1, i);
      if e != i - 1 { NodeWords(free, i - 1, e); }
    }
  }

  lemma CutChained(m: seq<nat>, head: nat, free: seq<Region>, i: nat)
    requires Chained(m, head, free) && NodesApart(free) && i < |free|
    requires WordOf(free[i].addr) + 1 < |m| && (i > 0 ==> WordOf(free[i - 1].addr) + 1 < |m|)
    ensures Chained(Cut(m, free, i), if i == 0 then m[WordOf(free[0].addr) + 1] else head, WithoutIndex(free, i))
  {
    hide WordOf, NodesApart;
    assert Linked(m, free, i);
    var rest := WithoutIndex(free, i);
    forall j | 0 <= j < |rest|
      ensures Linked(Cut(m, free, i), rest, j)
    {
      WithoutEntry(free, i, j);
      if j + 1 < |rest| { WithoutEntry(free, i, j + 1); }
      CutEntry(m, head, free, i, if j < i then j else j + 1);
    }
  }

  class LinkedListAllocator {
    const mem: array<nat>
    /** `head.next`, null when the list is empty. */
    var head: nat
    ghost var heap: Heap

    ghost predicate Valid()
      reads this, mem
    {
      && Sound(heap) && heap.start + heap.size <= 8 * mem.Length
      && Chained(mem[..], head, heap.free)
    }

    /** `add_free_region`; the two assertions of the source are its first preconditions. */
    method AddFreeRegion(addr: nat, size: nat, ghost free: seq<Region>)
      requires AlignUp(addr, NODE_ALIGN) == addr && size >= NODE_SIZE
      requires addr > 0 && addr + size <= 8 * mem.Length
      requires Chained(mem[..], head, free)
      requires forall i :: 0 <= i < |free| ==>
        free[i].addr % 8 == 0 && free[i].size >= NODE_SIZE && Separate(free[i], Region(addr, size))
      modifies this`head, mem
      ensures Chained(mem[..], head, [Region(addr, size)] + free)
      ensures forall w :: 0 <= w < mem.Length && !(addr <= 8 * w < addr + NODE_SIZE) ==> mem[w] == old(mem[w])
    {
      ghost var m := mem[..];
      mem[WordOf(addr)] := size;
      mem[WordOf(addr) + 1] := head;
      head := addr;
      ghost var free' := [Region(addr, size)] + free;
      forall i | 0 <= i < |free'|
        ensures Linked(mem[..], free', i)
      {
        if i > 0 {
          assert Linked(m, free, i - 1);
          assert Separate(free[i - 1], Region(addr, size));
        }
      }
    }

    /** The cursor loop of `find_and_take_region`: the first node whose region takes the block, and
        the node before it (null for the list head). */
    method FindRegion(size: nat, align: nat) returns (prev: nat, cur: nat, ghost i: nat)
      requires Valid() && align > 0
      ensures i == FirstFit(heap.free, size, align) && cur == NodeAt(heap.free, FirstFit(heap.free, size, align))
      ensures prev == if i == 0 then 0 else heap.free[i - 1].addr
    {
      prev, cur, i := 0, head, 0;
      SoundNodes(heap);
      hide Sound, AllSeparate, Place, WordOf;
      while cur != 0
        invariant i <= |heap.free| && cur == NodeAt(heap.free, i)
        invariant prev == if i == 0 then 0 else heap.free[i - 1].addr
        invariant forall j :: 0 <= j < i ==> Place(heap.free[j], size, align).None?
        decreases |heap.free| - i
      {
        assert Linked(mem[..], heap.free, i);
        if Place(Region(cur, mem[WordOf(cur)]), size, align).Some? {
          return;
        }
        prev, cur, i := cur, mem[WordOf(cur) + 1], i + 1;
      }
    }

    /** `find_and_take_region`: unlinks the first region that takes the block; reports the region and
        where the block goes in it. */
    method FindAndTakeRegion(size: nat, align: nat) returns (found: bool, region: Region, start: nat)
      requires Valid() && align > 0
      modifies this`head, mem
      ensures found == (FirstFit(heap.free, size, align) < |heap.free|)
      ensures found ==> var i := FirstFit(heap.free, size, align);
        && region == heap.free[i] && Place(region, size, align) == Some(start)
        && Chained(mem[..], head, WithoutIndex(heap.free, i))
      ensures !found ==> head == old(head) && mem[..] == old(mem[..])
      ensures OnlyNodes(old(mem[..]), mem[..], heap.free)
    {
      var prev, cur, i := FindRegion(size, align);
      SoundNodes(heap);
      NothingChanged(mem[..], heap.free);
      hide Sound, AllSeparate, Place, OnlyNodes, WithoutIndex, WordOf;
      if cur == 0 {
        return false, Region(0, 0), 0;
      }
      assert Linked(mem[..], heap.free, i);
      region := Region(cur, mem[WordOf(cur)]);
      found, start := true, Place(region, size, align).value;
      Unlink(prev, cur, i);
    }

    lemma NothingChanged(m: seq<nat>, free: seq<Region>)
      ensures OnlyNodes(m, m, free)
    {
    }

    /** Cuts the node at `cur` out of the list: its next pointer is taken and stored in its predecessor. */
    method Unlink(prev: nat, cur: nat, ghost i: nat)
      requires Valid() && i < |heap.free| && cur == heap.free[i].addr
      requires prev == if i == 0 then 0 else heap.free[i - 1].addr
      modifies this`head, mem
      ensures Chained(mem[..], head, WithoutIndex(heap.free, i))
      ensures OnlyNodes(old(mem[..]), mem[..], heap.free)
    {
      ghost var m := mem[..];
      ghost var free := heap.free;
      SoundNodes(heap);
      assert Linked(m, free, i);
      assert i > 0 ==> Linked(m, free, i - 1);
      CutChained(m, head, free, i);
      hide Sound, Chained, AllSeparate, NodesApart, HeldBy, WithoutIndex;
      var next := mem[WordOf(cur) + 1];
      mem[WordOf(cur) + 1] := 0;
      if prev == 0 {
        head := next;
      } else {
        mem[WordOf(prev) + 1] := next;
      }
      assert mem[..] == Cut(m, free, i);
      CutOnlyNodes(m, heap, i);
    }

    lemma SoundNodes(h: Heap)
      requires Sound(h)
      ensures NodesApart(h.free)
    {
      assert forall i :: 0 <= i < |h.free| ==> Usable(h.start, h.size, h.free[i]);
    }

    lemma CutOnlyNodes(m: seq<nat>, h: Heap, i: nat)
      requires Sound(h) && i < |h.free|
      requires WordOf(h.free[i].addr) + 1 < |m| && (i > 0 ==> WordOf(h.free[i - 1].addr) + 1 < |m|)
      ensures OnlyNodes(m, Cut(m, h.free, i), h.free)
    {
      assert Usable(h.start, h.size, h.free[i]) && (i > 0 ==> Usable(h.start, h.size, h.free[i - 1]));
      assert Holds(h.free[i], WordOf(h.free[i].addr) + 1);
      if i > 0 {
        assert Holds(h.free[i - 1], WordOf(h.free[i - 1].addr) + 1);
      }
    }

    /** `init`: the whole heap becomes one free region. */
    constructor (memory: array<nat>, start: nat, size: nat)
      requires start > 0 && AlignUp(start, NODE_ALIGN) == start && size >= NODE_SIZE
      requires start + size <= 8 * memory.Length
      modifies memory
      ensures Valid() && mem == memory && heap == Init(start, size)
    {
      mem, head, heap := memory, 0, Init(start, size);
      new;
      AddFreeRegion(start, size, []);
      assert [Region(start, size)] + [] == heap.free;
      InitSound(start, size);
    }

    /** Rounding up a size or an address stays inside 64 bits. */
    ghost predicate NoOverflow(size: nat, align: nat)
      reads this
    {
      size + NODE_ALIGN <= ADDRESS_END && heap.start + heap.size + RoundAlign(align) <= ADDRESS_END
    }

    /** `alloc`, with null as 0: the first fit of the list model, which is the first free region with room. The bytes of
        live blocks are untouched. */
    method Alloc(size: nat, align: nat) returns (p: nat)
      requires Valid() && IsPowerOfTwo(align) && NoOverflow(size, align)
      modifies this, mem
      ensures Valid()
      ensures heap == AllocStep(old(heap), size, align).0
      ensures p == match AllocStep(old(heap), size, align).1 case None => 0 case Some(a) => a
      ensures p == 0 <==> AllocStep(old(heap), size, align).1.None?
      ensures p == 0 <==> NoRoom(old(heap).free, RoundSize(size), RoundAlign(align))
      ensures p != 0 ==> exists i :: Takes(old(heap), heap, RoundSize(size), RoundAlign(align), p, i)
      ensures forall w :: 0 <= w < mem.Length && HeldBy(old(heap).live, w) ==> mem[w] == old(mem[w])
    {
      hide Sound, RoundSize, RoundAlign, Place, FirstFit, Chained, OnlyNodes, IsPowerOfTwo, HeldBy, NoRoom, Takes,
        AllocStep, WithoutIndex, Rest;
      var n, a := RoundSize(size), RoundAlign(align);
      ghost var h, m := heap, mem[..];
      AllocSound(h, size, align);
      AllocComplete(h, size, align);
      StepTaken(h, size, align);
      var found, region, start := FindAndTakeRegion(n, a);
      if !found {
        return 0;
      }
      ghost var i, m1 := FirstFit(h.free, n, a), mem[..];
      PutBackRest(region, start, n, i);
      OnlyNodesTwice(m, m1, mem[..], h.free);
      LiveUntouched(h, m, mem[..]);
      heap := AllocStep(h, size, align).0;
      p := start;
    }

    /** The end of `alloc`: what is left of the region behind the block goes back to the free list. */
    method PutBackRest(region: Region, start: nat, n: nat, ghost i: nat)
      requires Sound(heap) && heap.start + heap.size <= 8 * mem.Length && i < |heap.free| && region == heap.free[i]
      requires region.addr <= start && n % NODE_ALIGN == 0 && start % NODE_ALIGN == 0
      requires start + n == region.End() || start + n + NODE_SIZE <= region.End()
      requires Chained(mem[..], head, WithoutIndex(heap.free, i))
      modifies this`head, mem
      ensures Chained(mem[..], head, Rest(region, start, n) + WithoutIndex(heap.free, i))
      ensures OnlyNodes(old(mem[..]), mem[..], heap.free)
    {
      hide Sound, Total, Chained, WithoutIndex, AlignUp;
      var excess := region.End() - (start + n);
      ghost var others := WithoutIndex(heap.free, i);
      if excess > 0 {
        OthersSound(heap, i);
        PieceApart(heap, region, i, Region(start + n, excess));
        RestAligned(start, n);
        RegionUsable(heap, i);
        assert forall j :: 0 <= j < |others| ==> Usable(heap.start, heap.size, others[j]);
        AddFreeRegion(start + n, excess, others);
        assert forall w: int :: start + n <= 8 * w < start + n + NODE_SIZE ==> Holds(heap.free[i], w);
      } else {
        assert Rest(region, start, n) + others == others;
      }
    }

    lemma OnlyNodesTwice(m: seq<nat>, m1: seq<nat>, m2: seq<nat>, free: seq<Region>)
      requires OnlyNodes(m, m1, free) && OnlyNodes(m1, m2, free)
      ensures OnlyNodes(m, m2, free)
    {
    }

    lemma RestAligned(start: nat, n: nat)
      requires start % NODE_ALIGN == 0 && n % NODE_ALIGN == 0
      ensures AlignUp(start + n, NODE_ALIGN) == start + n
    {
    }

    /** A write confined to free regions leaves live blocks alone. */
    lemma LiveUntouched(h: Heap, m: seq<nat>, m': seq<nat>)
      requires Sound(h) && OnlyNodes(m, m', h.free)
      ensures forall w :: 0 <= w < |m| && HeldBy(h.live, w) ==> m'[w] == m[w]
    {
      forall w | HeldBy(h.live, w)
        ensures !HeldBy(h.free, w)
      {
        var j :| 0 <= j < |h.live| && Holds(h.live[j], w);
        assert forall i :: 0 <= i < |h.free| ==> Separate(h.free[i], h.live[j]);
      }
    }

    lemma RestUntouched(h: Heap, i: nat, addr: nat)
      requires Sound(h) && i < |h.free| && h.free[i].addr <= addr && addr + NODE_SIZE <= h.free[i].End()
      ensures forall w :: HeldBy(h.live, w) ==> !(addr <= 8 * w < addr + NODE_SIZE)
    {
      forall w | HeldBy(h.live, w)
        ensures !(addr <= 8 * w < addr + NODE_SIZE)
      {
        var j :| 0 <= j < |h.live| && Holds(h.live[j], w);
        assert Separate(h.free[i], h.live[j]);
      }
    }

    /** `dealloc_aligned` of a live block: its region becomes the head of the free list. The bytes of the
        blocks that stay live are untouched. */
    method Dealloc(p: nat, size: nat, ghost k: nat)
      requires Valid() && k < |heap.live| && heap.live[k] == Region(p, RoundSize(size))
      modifies this, mem
      ensures Valid() && heap == FreeStep(old(heap), k)
      ensures forall w :: 0 <= w < mem.Length && HeldBy(heap.live, w) ==> mem[w] == old(mem[w])
    {
      ghost var h := heap;
      var n := RoundSize(size);
      FreeSound(h, k);
      assert Usable(h.start, h.size, h.live[k]);
      SoundNodes(h);
      assert forall i :: 0 <= i < |h.free| ==> Separate(h.free[i], h.live[k]);
      AddFreeRegion(p, n, h.free);
      heap := FreeStep(h, k);
      RestUntouched(heap, 0, p);
    }

    /** `allocate_pages`: `Err` exactly when `alloc` returns null; the pages are aligned to `2^order` bytes. */
    method AllocatePages(pages: nat, order: nat) returns (ok: bool, p: nat)
      requires Valid() && NoOverflow(pages * 0x1000, Pow2(order))
      modifies this, mem
      ensures Valid() && heap == AllocStep(old(heap), pages * 0x1000, Pow2(order)).0
      ensures ok <==> !NoRoom(old(heap).free, RoundSize(pages * 0x1000), RoundAlign(Pow2(order)))
      ensures ok ==> exists i :: Takes(old(heap), heap, RoundSize(pages * 0x1000), RoundAlign(Pow2(order)), p, i)
      ensures ok ==> p % Pow2(order) == 0 && heap.live == old(heap).live + [Region(p, RoundSize(pages * 0x1000))]
      ensures forall w :: 0 <= w < mem.Length && HeldBy(old(heap).live, w) ==> mem[w] == old(mem[w])
    {
      ShiftIsPower(order);
      p := Alloc(pages * 0x1000, Pow2(order));
      ok := p != 0;
      if ok {
        AllocAligned(old(heap), pages * 0x1000, Pow2(order));
      }
    }

    /** `free_pages` of pages that are live. */
    method FreePages(address: nat, pages: nat, ghost k: nat)
      requires Valid() && k < |heap.live| && heap.live[k] == Region(address, RoundSize(pages * 0x1000))
      modifies this, mem
      ensures Valid() && heap == FreeStep(old(heap), k)
      ensures forall w :: 0 <= w < mem.Length && HeldBy(heap.live, w) ==> mem[w] == old(mem[w])
    {
      Dealloc(address, pages * 0x1000, k);
    }

    lemma AllocAligned(h: Heap, size: nat, align: nat)
      requires IsPowerOfTwo(align) && AllocStep(h, size, align).1.Some?
      ensures AllocStep(h, size, align).1.value % align == 0
    {
      hide RoundSize, RoundAlign, Place, IsPowerOfTwo;
      PlaceAligned(h.free[FirstFit(h.free, RoundSize(size), RoundAlign(align))], RoundSize(size), align);
    }
  }

  lemma {:induction false} ShiftIsPower(e: nat)
    ensures IsPowerOfTwo(Pow2(e))
  {
    if e > 0 {
      ShiftIsPower(e - 1);
    }
  }

  lemma SmallPower(n: nat)
    requires IsPowerOfTwo(n) && n < NODE_ALIGN
    ensures n == 1 || n == 2 || n == 4
  {
  }

  lemma SmallAlign(align: nat, p: nat)
    requires (align == 1 || align == 2 || align == 4) && p % NODE_ALIGN == 0
    ensures p % align == 0
  {
    var q := p / 8;
    if align == 2 {
      MultipleMod(4 * q, 2);
    } else if align == 4 {
      MultipleMod(2 * q, 4);
    }
  }

  lemma PlaceAligned(r: Region, n: nat, align: nat)
    requires IsPowerOfTwo(align) && Place(r, n, RoundAlign(align)).Some?
    ensures Place(r, n, RoundAlign(align)).value % align == 0
  {
    hide Place, IsPowerOfTwo;
    if align < NODE_ALIGN {
      SmallPower(align);
      SmallAlign(align, Place(r, n, RoundAlign(align)).value);
    }
  }
}
