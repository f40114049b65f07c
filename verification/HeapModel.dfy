/** The heap allocator as a value: the free list, the live blocks, and the bytes lost to alignment. */
module HeapModel {
  import opened Options
  import opened Arithmetic

  const NODE_SIZE: nat := 16
  const NODE_ALIGN: nat := 8
  const ADDRESS_END: nat := 0x1_0000_0000_0000_0000

  datatype Region = Region(addr: nat, size: nat) {
    function End(): nat { addr + size }
  }

  /** `free` in list order; `live` in the order of allocation; `lost` is the front padding that
      aligned allocations have dropped so far. */
  datatype Heap = Heap(start: nat, size: nat, free: seq<Region>, live: seq<Region>, lost: nat)

  predicate IsPowerOfTwo(n: nat): (b: bool)
    ensures b ==> n > 0
  {
    n == 1 || (n > 1 && n % 2 == 0 && IsPowerOfTwo(n / 2))
  }

  /** `addr.next_multiple_of(align)` */
  function AlignUp(addr: nat, align: nat): (a: nat)
    requires align > 0
    ensures addr <= a < addr + align && a % align == 0
    ensures addr % align == 0 ==> a == addr
  {
    if addr % align == 0 then addr
    else
      AlignedUp(addr, align);
      addr + (align - addr % align)
  }

  lemma AlignedUp(addr: nat, align: nat)
    requires align > 0
    ensures (addr + (align - addr % align)) % align == 0
  {
    var q := addr / align;
    assert addr == q * align + addr % align;
    assert (q + 1) * align == q * align + align;
    MultipleMod(q + 1, align);
  }

  /** The least multiple of 8 that holds the bytes asked for and a list node. */
  ghost predicate Rounded(size: nat, n: nat) {
    n % 8 == 0 && n >= size && n >= 16 && (n == 16 || n < size + 8)
  }

  /** `size_align` */
  function RoundSize(size: nat): (r: nat)
    ensures Rounded(size, r) && r >= NODE_SIZE && r % NODE_ALIGN == 0
  {
    AlignUp(if size < NODE_SIZE then NODE_SIZE else size, NODE_ALIGN)
  }

  function RoundAlign(align: nat): (r: nat)
    ensures r >= 8 && (align >= 8 ==> r == align) && (align < 8 ==> r == 8)
  {
    if align < NODE_ALIGN then NODE_ALIGN else align
  }

  /** A block of `size` bytes at `s` is right for a free region: `s` is the first aligned address of the region, the
      block ends below 2^64 and inside the region, and what is left behind it is nothing or holds a list node. */
  ghost predicate RoomAt(r: Region, size: nat, align: nat, s: nat)
    requires align > 0
  {
    && r.addr <= s && s % align == 0 && s + size < 0x1_0000_0000_0000_0000
    && (forall a: nat :: r.addr <= a && a % align == 0 ==> s <= a)
    && (s + size == r.addr + r.size || s + size + 16 <= r.addr + r.size)
  }

  ghost predicate NoRoom(free: seq<Region>, size: nat, align: nat)
    requires align > 0
  {
    forall i, s: nat :: 0 <= i < |free| ==> !RoomAt(free[i], size, align, s)
  }

  /** `validate_region`: where a block of `size` bytes goes in a region, if it fits there and leaves
      either nothing behind it or enough for a list node. */
  function Place(r: Region, size: nat, align: nat): (p: Option<nat>)
    requires align > 0
    ensures p.Some? ==> r.addr <= p.value && p.value + size <= r.End() && p.value % align == 0
  {
    var s := AlignUp(r.addr, align);
    if s + size >= ADDRESS_END || s + size > r.End() then None
    else if 0 < r.End() - (s + size) < NODE_SIZE then None
    else Some(s)
  }

  /** No aligned address lies between an address and its rounding. */
  lemma AlignUpLeast(addr: nat, align: nat, a: nat)
    requires align > 0 && addr <= a && a % align == 0
    ensures AlignUp(addr, align) <= a
  {
    hide AlignUp;
    var s := AlignUp(addr, align);
    if a < s {
      ModShift(s - a, a, align);
      DivUnique(s - a, align, 0, s - a);
    }
  }

  /** A region is used exactly when there is room in it, and then from its first aligned address on. */
  lemma PlaceIff(r: Region, size: nat, align: nat, s: nat)
    requires align > 0
    ensures Place(r, size, align) == Some(s) <==> RoomAt(r, size, align, s)
  {
    hide AlignUp;
    forall a: nat | r.addr <= a && a % align == 0
      ensures AlignUp(r.addr, align) <= a
    {
      AlignUpLeast(r.addr, align, a);
    }
  }

  lemma NoPlaceIff(free: seq<Region>, size: nat, align: nat)
    requires align > 0
    ensures NoRoom(free, size, align) <==> forall i :: 0 <= i < |free| ==> Place(free[i], size, align).None?
  {
    hide Place, RoomAt;
    forall i, s: nat | 0 <= i < |free| && RoomAt(free[i], size, align, s)
      ensures Place(free[i], size, align).Some?
    {
      PlaceIff(free[i], size, align, s);
    }
    if i :| 0 <= i < |free| && Place(free[i], size, align).Some? {
      PlaceIff(free[i], size, align, Place(free[i], size, align).value);
    }
  }

  /** The first region of the list that takes the block. */
  function FirstFit(free: seq<Region>, size: nat, align: nat): (i: nat)
    requires align > 0
    ensures i <= |free|
    ensures i < |free| ==> Place(free[i], size, align).Some?
    ensures forall j :: 0 <= j < i ==> Place(free[j], size, align).None?
  {
    if free == [] then 0
    else if Place(free[0], size, align).Some? then 0
    else 1 + FirstFit(free[1..], size, align)
  }

  function WithoutIndex<T>(s: seq<T>, i: nat): (r: seq<T>)
    requires i < |s|
    ensures |r| == |s| - 1
  {
    s[..i] + s[i + 1..]
  }

  /** What is left of a region behind a block placed at `p`, put back at the head of the list. */
  function Rest(r: Region, p: nat, size: nat): seq<Region>
    requires p + size <= r.End()
  {
    if p + size == r.End() then [] else [Region(p + size, r.End() - (p + size))]
  }

  /** `alloc` */
  function AllocStep(h: Heap, size: nat, align: nat): (Heap, Option<nat>) {
    var (size, align) := (RoundSize(size), RoundAlign(align));
    var i := FirstFit(h.free, size, align);
    if i == |h.free| then (h, None)
    else
      var r := h.free[i];
      var p := Place(r, size, align).value;
      (h.(free := Rest(r, p, size) + WithoutIndex(h.free, i),
          live := h.live + [Region(p, size)],
          lost := h.lost + (p - r.addr)),
       Some(p))
  }

  /** `dealloc_aligned` of live block number `k`. */
  function FreeStep(h: Heap, k: nat): Heap
    requires k < |h.live|
  {
    h.(free := [h.live[k]] + h.free, live := WithoutIndex(h.live, k))
  }

  function Init(start: nat, size: nat): Heap {
    Heap(start, size, [Region(start, size)], [], 0)
  }

  // ------------------------------------------------------------------ what every step keeps

  ghost predicate Separate(a: Region, b: Region) { a.End() <= b.addr || b.End() <= a.addr }

  /** A region that can hold a list node where it starts. */
  ghost predicate Usable(start: nat, size: nat, r: Region) {
    && start <= r.addr && r.End() <= start + size
    && r.addr % NODE_ALIGN == 0 && r.size >= NODE_SIZE
  }

  ghost predicate AllUsable(start: nat, size: nat, rs: seq<Region>) {
    forall i :: 0 <= i < |rs| ==> Usable(start, size, rs[i])
  }

  ghost predicate AllSeparate(rs: seq<Region>) {
    forall i, j :: 0 <= i < j < |rs| ==> Separate(rs[i], rs[j])
  }

  ghost predicate Across(xs: seq<Region>, ys: seq<Region>) {
    forall i, j :: 0 <= i < |xs| && 0 <= j < |ys| ==> Separate(xs[i], ys[j])
  }

  function Total(rs: seq<Region>): nat {
    if rs == [] then 0 else rs[0].size + Total(rs[1..])
  }

  /** Free regions and live blocks lie inside the heap, are pairwise disjoint, and together with the
      lost padding account for every byte of it. */
  ghost predicate Sound(h: Heap) {
    && h.start > 0
    && AllUsable(h.start, h.size, h.free) && AllUsable(h.start, h.size, h.live)
    && AllSeparate(h.free) && AllSeparate(h.live) && Across(h.free, h.live)
    && Total(h.free) + Total(h.live) + h.lost == h.size
  }

  lemma {:induction false} TotalConcat(xs: seq<Region>, ys: seq<Region>)
    ensures Total(xs + ys) == Total(xs) + Total(ys)
  {
    if xs == [] {
      assert xs + ys == ys;
    } else {
      assert (xs + ys)[1..] == xs[1..] + ys;
      TotalConcat(xs[1..], ys);
    }
  }

  lemma {:induction false} TotalWithout(s: seq<Region>, i: nat)
    requires i < |s|
    ensures Total(s) == Total(WithoutIndex(s, i)) + s[i].size
  {
    if i == 0 {
      assert WithoutIndex(s, 0) == s[1..];
    } else {
      TotalWithout(s[1..], i - 1);
      assert WithoutIndex(s, i)[1..] == WithoutIndex(s[1..], i - 1);
    }
  }

  /** Each region of a list without one of its entries is another entry of the list. */
  lemma WithoutEntry(s: seq<Region>, i: nat, j: nat)
    requires i < |s| && j < |WithoutIndex(s, i)|
    ensures WithoutIndex(s, i)[j] == s[if j < i then j else j + 1]
  {
  }

  lemma EightDivides(align: nat, p: nat)
    requires IsPowerOfTwo(align) && align >= 8 && p % align == 0
    ensures p % 8 == 0
  {
    PowerMultiple(align);
    var q, k := p / align, align / 8;
    assert p == q * align && align == k * 8;
    assert q * align == (q * k) * 8;
    MultipleMod(q * k, 8);
  }

  lemma PowerMultiple(n: nat)
    requires IsPowerOfTwo(n) && n >= 8
    ensures n % 8 == 0
  {
    hide IsPowerOfTwo;
    HalfPower(n);
    HalfPower(n / 2);
    HalfPower(n / 2 / 2);
    MultipleMod(n / 2 / 2 / 2, 8);
  }

  lemma HalfPower(n: nat)
    requires IsPowerOfTwo(n) && n > 1
    ensures n == 2 * (n / 2) && IsPowerOfTwo(n / 2)
  {
  }

  lemma RegionUsable(h: Heap, i: nat)
    requires Sound(h) && i < |h.free|
    ensures h.start > 0 && Usable(h.start, h.size, h.free[i])
  {
  }

  lemma AllocSound(h: Heap, size: nat, align: nat)
    requires Sound(h) && IsPowerOfTwo(align)
    ensures Sound(AllocStep(h, size, align).0)
  {
    var (n, a) := (RoundSize(size), RoundAlign(align));
    var i := FirstFit(h.free, n, a);
    if i < |h.free| {
      PlacedWell(h.free[i], n, align);
      hide Sound, AlignUp, RoundSize, Place, IsPowerOfTwo;
      CarveSound(h, i, Place(h.free[i], n, a).value, n);
    }
  }

  /** A placed block starts on the node alignment and leaves nothing or a whole node behind it. */
  lemma PlacedWell(r: Region, n: nat, align: nat)
    requires IsPowerOfTwo(align) && Place(r, n, RoundAlign(align)).Some?
    ensures var p := Place(r, n, RoundAlign(align)).value;
      p % NODE_ALIGN == 0 && (p + n == r.End() || p + n + NODE_SIZE <= r.End())
  {
    if align >= 8 {
      EightDivides(align, Place(r, n, RoundAlign(align)).value);
    }
  }

  /** The step in full, and what the region and the place of the block give the allocator to rely on. */
  lemma StepTaken(h: Heap, size: nat, align: nat)
    requires Sound(h) && IsPowerOfTwo(align)
    ensures var (n, a) := (RoundSize(size), RoundAlign(align));
      var (i, (h', p)) := (FirstFit(h.free, n, a), AllocStep(h, size, align));
      if i == |h.free| then h' == h && p == None
      else
        && i < |h.free| && Place(h.free[i], n, a) == p && p.Some?
        && h'.free == Rest(h.free[i], p.value, n) + WithoutIndex(h.free, i)
        && h'.start == h.start && h'.size == h.size
        && 0 < h.free[i].addr <= p.value && n % NODE_ALIGN == 0 && p.value % NODE_ALIGN == 0
        && (p.value + n == h.free[i].End() || p.value + n + NODE_SIZE <= h.free[i].End())
  {
    hide IsPowerOfTwo, WithoutIndex, Rest;
    var (n, a) := (RoundSize(size), RoundAlign(align));
    var i := FirstFit(h.free, n, a);
    if i < |h.free| {
      hide Place;
      PlacedWell(h.free[i], n, align);
      RegionUsable(h, i);
    }
  }

  /** Taking a block out of a region and putting the rest back. */
  lemma CarveSound(h: Heap, i: nat, p: nat, n: nat)
    requires Sound(h) && i < |h.free| && n >= NODE_SIZE && n % NODE_ALIGN == 0 && p % NODE_ALIGN == 0
    requires h.free[i].addr <= p && p + n <= h.free[i].End()
    requires p + n == h.free[i].End() || p + n + NODE_SIZE <= h.free[i].End()
    ensures Sound(h.(free := Rest(h.free[i], p, n) + WithoutIndex(h.free, i),
                     live := h.live + [Region(p, n)], lost := h.lost + (p - h.free[i].addr)))
  {
    hide Usable, WithoutIndex, Total;
    var r := h.free[i];
    var rest, others, block := Rest(r, p, n), WithoutIndex(h.free, i), Region(p, n);
    CarveTotal(h, i, p, n);
    OthersSound(h, i);
    PieceApart(h, r, i, block);
    if rest != [] {
      PieceApart(h, r, i, rest[0]);
    }
    PiecesUsable(h.start, h.size, r, p, n);
    Concat(h.start, h.size, rest, others);
    Concat(h.start, h.size, h.live, [block]);
    AcrossConcat(rest, others, h.live, [block]);
  }

  lemma PiecesUsable(start: nat, size: nat, r: Region, p: nat, n: nat)
    requires Usable(start, size, r) && r.addr <= p && p + n <= r.End()
    requires n >= NODE_SIZE && n % NODE_ALIGN == 0 && p % NODE_ALIGN == 0
    requires p + n == r.End() || p + n + NODE_SIZE <= r.End()
    ensures AllUsable(start, size, Rest(r, p, n)) && AllUsable(start, size, [Region(p, n)])
    ensures Across(Rest(r, p, n), [Region(p, n)]) && AllSeparate(Rest(r, p, n))
  {
    ModShift(p, n, NODE_ALIGN);
  }

  lemma Concat(start: nat, size: nat, xs: seq<Region>, ys: seq<Region>)
    requires AllUsable(start, size, xs) && AllUsable(start, size, ys)
    requires AllSeparate(xs) && AllSeparate(ys) && Across(xs, ys)
    ensures AllUsable(start, size, xs + ys) && AllSeparate(xs + ys)
  {
    hide Usable, Separate;
  }

  lemma AcrossConcat(xs: seq<Region>, ys: seq<Region>, zs: seq<Region>, ws: seq<Region>)
    requires Across(xs, zs) && Across(xs, ws) && Across(ys, zs) && Across(ys, ws)
    ensures Across(xs + ys, zs + ws)
  {
    hide Separate;
  }

  lemma CarveTotal(h: Heap, i: nat, p: nat, n: nat)
    requires i < |h.free| && h.free[i].addr <= p && p + n <= h.free[i].End()
    ensures var free, live := Rest(h.free[i], p, n) + WithoutIndex(h.free, i), h.live + [Region(p, n)];
      Total(free) + Total(live) + (p - h.free[i].addr) == Total(h.free) + Total(h.live)
  {
    var rest, block := Rest(h.free[i], p, n), Region(p, n);
    TotalWithout(h.free, i);
    TotalConcat(rest, WithoutIndex(h.free, i));
    TotalConcat(h.live, [block]);
    assert Total([block]) == n + Total([]);
    assert rest != [] ==> Total(rest) == rest[0].size + Total([]);
  }

  lemma OthersSound(h: Heap, i: nat)
    requires Sound(h) && i < |h.free|
    ensures var others := WithoutIndex(h.free, i);
      AllUsable(h.start, h.size, others) && AllSeparate(others) && Across(others, h.live)
  {
    hide Total, Usable, Separate;
    var others := WithoutIndex(h.free, i);
    forall j | 0 <= j < |others|
      ensures others[j] == h.free[if j < i then j else j + 1]
    {
      WithoutEntry(h.free, i, j);
    }
  }

  /** A piece of a free region is apart from every other region. */
  lemma PieceApart(h: Heap, r: Region, i: nat, piece: Region)
    requires Sound(h) && i < |h.free| && r == h.free[i]
    requires r.addr <= piece.addr && piece.End() <= r.End()
    ensures forall j :: 0 <= j < |WithoutIndex(h.free, i)| ==> Separate(WithoutIndex(h.free, i)[j], piece)
    ensures forall j :: 0 <= j < |h.live| ==> Separate(h.live[j], piece)
  {
    hide Total;
    forall j | 0 <= j < |WithoutIndex(h.free, i)|
      ensures Separate(WithoutIndex(h.free, i)[j], piece)
    {
      WithoutEntry(h.free, i, j);
      assert j < i ==> Separate(h.free[j], r);
      assert j >= i ==> Separate(r, h.free[j + 1]);
    }
    forall j | 0 <= j < |h.live|
      ensures Separate(h.live[j], piece)
    {
      assert Separate(r, h.live[j]);
    }
  }

  lemma FreeSound(h: Heap, k: nat)
    requires Sound(h) && k < |h.live|
    ensures Sound(FreeStep(h, k))
  {
    var others := WithoutIndex(h.live, k);
    TotalWithout(h.live, k);
    TotalConcat([h.live[k]], h.free);
    forall j | 0 <= j < |others|
      ensures Usable(h.start, h.size, others[j]) && Separate(h.live[k], others[j])
    {
      WithoutEntry(h.live, k, j);
    }
    forall i, j | 0 <= i < j < |others|
      ensures Separate(others[i], others[j])
    {
      WithoutEntry(h.live, k, i);
      WithoutEntry(h.live, k, j);
    }
    forall i, j | 0 <= i < |h.free| && 0 <= j < |others|
      ensures Separate(h.free[i], others[j])
    {
      WithoutEntry(h.live, k, j);
    }
  }

  // ------------------------------------------------------------------ whole runs

  datatype Op = Alloc(size: nat, align: nat) | Free(block: nat)

  ghost predicate Legal(h: Heap, op: Op) {
    match op
    case Alloc(_, align) => IsPowerOfTwo(align)
    case Free(k) => k < |h.live|
  }

  ghost function Apply(h: Heap, op: Op): Heap
    requires Legal(h, op)
  {
    match op
    case Alloc(size, align) => AllocStep(h, size, align).0
    case Free(k) => FreeStep(h, k)
  }

  ghost predicate LegalRun(h: Heap, ops: seq<Op>)
    decreases |ops|
  {
    ops == [] || (Legal(h, ops[0]) && LegalRun(Apply(h, ops[0]), ops[1..]))
  }

  ghost function Run(h: Heap, ops: seq<Op>): Heap
    requires LegalRun(h, ops)
    decreases |ops|
  {
    if ops == [] then h else Run(Apply(h, ops[0]), ops[1..])
  }

  /** Over every run: live blocks and free regions stay disjoint inside the heap and no byte is
      unaccounted for. */
  lemma {:induction false} RunSound(h: Heap, ops: seq<Op>)
    requires Sound(h) && LegalRun(h, ops)
    ensures Sound(Run(h, ops)) && Run(h, ops).lost >= h.lost
    ensures Run(h, ops).start == h.start && Run(h, ops).size == h.size
    decreases |ops|
  {
    if ops != [] {
      match ops[0] {
        case Alloc(size, align) => AllocSound(h, size, align);
        case Free(k) => FreeSound(h, k);
      }
      hide Sound;
      RunSound(Apply(h, ops[0]), ops[1..]);
    }
  }

  lemma InitSound(start: nat, size: nat)
    requires start > 0 && start % NODE_ALIGN == 0 && size >= NODE_SIZE
    ensures Sound(Init(start, size))
  {
    assert Total([Region(start, size)]) == size + Total([]);
  }

  /** `alloc` fails exactly when there is no room in any listed region; otherwise it takes the first one with room and
      leaves the others in order. */
  lemma AllocComplete(h: Heap, size: nat, align: nat)
    requires align > 0
    ensures var (h', p) := AllocStep(h, size, align);
      var (n, a) := (RoundSize(size), RoundAlign(align));
      && (p.None? <==> NoRoom(h.free, n, a))
      && (p.None? ==> h' == h)
      && (p.Some? ==> exists i :: Takes(h, h', n, a, p.value, i))
  {
    hide Place, RoundSize, RoundAlign, NoRoom, RoomAt;
    var (n, a) := (RoundSize(size), RoundAlign(align));
    var i := FirstFit(h.free, n, a);
    NoPlaceIff(h.free, n, a);
    if i < |h.free| {
      var p := Place(h.free[i], n, a).value;
      PlaceIff(h.free[i], n, a, p);
      NoPlaceIff(h.free[..i], n, a);
      assert Takes(h, AllocStep(h, size, align).0, n, a, p, i);
    }
  }

  /** Region `i` is the first with room; the block starts at `p` there, and what changed in the heap is that region and
      the new live block: what is left behind the block comes first in the list. */
  ghost predicate Takes(h: Heap, h': Heap, n: nat, a: nat, p: nat, i: nat)
    requires a > 0
  {
    && i < |h.free| && RoomAt(h.free[i], n, a, p) && NoRoom(h.free[..i], n, a)
    && var left := h.free[i].addr + h.free[i].size - (p + n);
       && h'.free == (if left == 0 then [] else [Region(p + n, left)]) + (h.free[..i] + h.free[i + 1..])
       && h'.live == h.live + [Region(p, n)]
  }
}
