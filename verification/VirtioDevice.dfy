/** The device side of the virtio block queue: available ring, descriptor chains, used ring.
    (Sections 2.6.5, 2.6.6 and 2.6.8 of VIRTIO 1.1, split virtqueues.) */
module VirtioDevice {
  import opened Options
  import opened Arithmetic
  import opened Vm

  const U16: nat := 0x1_0000
  const U32: nat := 0x1_0000_0000
  const REQUEST_SIZE: nat := 16
  const STATUS_OK: nat := 0
  const STATUS_IOERR: nat := 1

  datatype Desc = Desc(address: nat, length: nat, flags: nat, next: nat) {
    /** `flags & VIRT_QUEUE_DESC_FLAGS_NEXT` */
    predicate HasNext(): (b: bool)
      ensures b <==> flags == 2 * (flags / 2) + 1
    {
      flags % 2 == 1
    }

    /** Bit 1 of the flags: the driver lets the device write the buffer, and otherwise read it. */
    ghost predicate DeviceWritable() { flags / 2 % 2 == 1 }
  }

  /** `VIRTIO_BLK_TYPE_OUT` */
  const TYPE_OUT: nat := 1

  datatype Header = Header(kind: nat, sector: nat) {
    predicate IsWrite(): (w: bool)
      ensures w <==> kind == 1
    {
      kind == TYPE_OUT
    }
  }

  datatype Used = Used(id: nat, length: nat)

  /** One transfer between guest memory at `address` and the image file at `offset`. */
  datatype Access = Access(write: bool, address: nat, offset: nat, size: nat)

  /** Guest memory as the device reads it. */
  datatype Guest = Guest(vm: VM, descs: seq<Desc>, headers: map<nat, Header>)

  ghost predicate InTable(descs: seq<Desc>, ids: seq<nat>) {
    forall i :: 0 <= i < |ids| ==> ids[i] < |descs|
  }

  ghost predicate ChainFrom(descs: seq<Desc>, id: nat, ids: seq<nat>)
    decreases |ids|
  {
    && |ids| > 0 && ids[0] == id && id < |descs|
    && (if descs[id].HasNext() then ChainFrom(descs, descs[id].next, ids[1..]) else |ids| == 1)
  }

  /** A request the driver may offer: a 16-byte header the guest can see, then a finite chain that ends in
      the status descriptor. */
  ghost predicate WellFormed(g: Guest, head: nat) {
    && head < |g.descs| && g.descs[head].length == REQUEST_SIZE && g.descs[head].HasNext()
    && (var a := GetPhysicalAddress(g.vm, g.descs[head].address); a.Some? && a.value in g.headers)
    && exists ids :: ChainFrom(g.descs, g.descs[head].next, ids)
  }

  /** A request the device turns down after looking at its first descriptor. */
  ghost predicate Rejected(g: Guest, head: nat) {
    && head < |g.descs|
    && (g.descs[head].length != REQUEST_SIZE || GetPhysicalAddress(g.vm, g.descs[head].address).None?
        || (!g.descs[head].HasNext() && GetPhysicalAddress(g.vm, g.descs[head].address).value in g.headers))
  }

  // ------------------------------------------------------------------ what serving a chain means

  /** The transfers of the data descriptors in front of the status descriptor. A buffer that does not start in guest
      RAM is skipped and the file offset stays where it is; where a buffer ends is not looked at. */
  ghost function Transfers(g: Guest, ids: seq<nat>, write: bool, offset: nat): seq<Access>
    requires InTable(g.descs, ids)
    decreases |ids|
  {
    if |ids| <= 1 then []
    else
      var x := g.descs[ids[0]];
      match GetPhysicalAddress(g.vm, x.address)
      case None => Transfers(g, ids[1..], write, offset)
      case Some(a) => [Access(write, a, offset, x.length)] + Transfers(g, ids[1..], write, offset + x.length)
  }

  /** Sum of the lengths of the data descriptors. */
  ghost function DataLength(descs: seq<Desc>, ids: seq<nat>): nat
    requires InTable(descs, ids)
    decreases |ids|
  {
    if |ids| <= 1 then 0 else descs[ids[0]].length + DataLength(descs, ids[1..])
  }

  /** Transfers that cover `[start, end)` of the file, each beginning where the one before ends. */
  ghost predicate Tiles(accesses: seq<Access>, start: nat, end: nat) {
    if accesses == [] then start == end
    else accesses[0].offset == start && Tiles(accesses[1..], start + accesses[0].size, end)
  }

  /** Every data descriptor that carries bytes starts in guest RAM. */
  ghost predicate AllOwned(g: Guest, ids: seq<nat>)
    requires InTable(g.descs, ids)
    decreases |ids|
  {
    |ids| <= 1 ||
    ((g.descs[ids[0]].length == 0 || GetPhysicalAddress(g.vm, g.descs[ids[0]].address).Some?) && AllOwned(g, ids[1..]))
  }

  ghost predicate Reachable(g: Guest, ids: seq<nat>)
    requires InTable(g.descs, ids)
    decreases |ids|
  {
    |ids| <= 1 || (GetPhysicalAddress(g.vm, g.descs[ids[0]].address).Some? && Reachable(g, ids[1..]))
  }

  /** The transfers reach a file range no longer than the data, and all of it exactly when every buffer that carries
      bytes starts in guest RAM. */
  lemma {:induction false} TransfersTile(g: Guest, ids: seq<nat>, write: bool, offset: nat) returns (end: nat)
    requires InTable(g.descs, ids)
    ensures Tiles(Transfers(g, ids, write, offset), offset, end) && end <= offset + DataLength(g.descs, ids)
    ensures end == offset + DataLength(g.descs, ids) <==> AllOwned(g, ids)
    decreases |ids|
  {
    if |ids| <= 1 {
      end := offset;
    } else {
      var x := g.descs[ids[0]];
      match GetPhysicalAddress(g.vm, x.address) {
        case None =>
          end := TransfersTile(g, ids[1..], write, offset);
        case Some(a) =>
          end := TransfersTile(g, ids[1..], write, offset + x.length);
          var rest := Transfers(g, ids[1..], write, offset + x.length);
          assert ([Access(write, a, offset, x.length)] + rest)[1..] == rest;
      }
    }
  }

  lemma {:induction false} TilesUnique(accesses: seq<Access>, start: nat, end: nat, end': nat)
    requires Tiles(accesses, start, end) && Tiles(accesses, start, end')
    ensures end == end'
  {
    if accesses != [] {
      TilesUnique(accesses[1..], start + accesses[0].size, end, end');
    }
  }

  /** A request's transfers cover the whole of its file range without gap if and only if every buffer that carries bytes
      starts in guest RAM. */
  lemma TilesIff(g: Guest, ids: seq<nat>, write: bool, offset: nat)
    requires InTable(g.descs, ids)
    ensures Tiles(Transfers(g, ids, write, offset), offset, offset + DataLength(g.descs, ids)) <==> AllOwned(g, ids)
  {
    var end := TransfersTile(g, ids, write, offset);
    if Tiles(Transfers(g, ids, write, offset), offset, offset + DataLength(g.descs, ids)) {
      TilesUnique(Transfers(g, ids, write, offset), offset, end, offset + DataLength(g.descs, ids));
    }
  }

  /** A request of two sectors whose first buffer lies outside the guest's RAM: the second buffer is transferred with
      the first sector of the file. */
  lemma SkippedBufferExample()
    ensures var vm := VM(0x4000_0000, 0x1000_0000, 0x1000_0000, []);
      var descs := [Desc(0, 512, 1, 1), Desc(0x4000_0000, 512, 1, 2), Desc(0x4000_1000, 1, 2, 0)];
      var g := Guest(vm, descs, map[]);
      && ChainFrom(descs, 0, [0, 1, 2]) && InTable(descs, [0, 1, 2]) && DataLength(descs, [0, 1, 2]) == 1024
      && Transfers(g, [0, 1, 2], true, 0) == [Access(true, 0x1000_0000, 0, 512)]
      && !Tiles(Transfers(g, [0, 1, 2], true, 0), 0, 1024)
  {
    hide Tiles;
    var vm := VM(0x4000_0000, 0x1000_0000, 0x1000_0000, []);
    var descs := [Desc(0, 512, 1, 1), Desc(0x4000_0000, 512, 1, 2), Desc(0x4000_1000, 1, 2, 0)];
    var g, ids := Guest(vm, descs, map[]), [0, 1, 2];
    assert ids[1..] == [1, 2] && [1, 2][1..] == [2];
    assert ChainFrom(descs, 2, [2]) && ChainFrom(descs, 1, [1, 2]);
    assert DataLength(descs, [2]) == 0 && DataLength(descs, [1, 2]) == 512;
    assert Transfers(g, [2], true, 512) == [];
    assert Transfers(g, [1, 2], true, 0) == [Access(true, 0x1000_0000, 0, 512)];
    TilesIff(g, ids, true, 0);
  }

  /** The access stays inside the memory that backs the guest's RAM. */
  ghost predicate Inside(vm: VM, x: Access) {
    vm.ramPhysicalBase <= x.address && x.address + x.size <= vm.ramPhysicalBase + vm.ramSize
  }

  ghost predicate Isolated(vm: VM, accesses: seq<Access>) {
    forall i :: 0 <= i < |accesses| ==> Inside(vm, accesses[i])
  }

  /** Every data descriptor that starts in guest RAM also ends there. */
  ghost predicate EndsInRam(g: Guest, ids: seq<nat>)
    requires InTable(g.descs, ids)
    decreases |ids|
  {
    |ids| <= 1 ||
    (var x := g.descs[ids[0]];
     && (GetPhysicalAddress(g.vm, x.address).Some? ==> x.address + x.length <= g.vm.ramVirtualBase + g.vm.ramSize)
     && EndsInRam(g, ids[1..]))
  }

  lemma IsolatedStep(vm: VM, x: Access, accesses: seq<Access>)
    ensures Isolated(vm, [x] + accesses) <==> Inside(vm, x) && Isolated(vm, accesses)
  {
    hide Inside;
    var all := [x] + accesses;
    assert all[0] == x && forall i :: 0 <= i < |accesses| ==> all[i + 1] == accesses[i];
  }

  /** The transfers of a request stay inside guest memory if and only if every buffer that starts in it ends in it:
      the device does not look at the end. */
  lemma {:induction false} IsolatedIff(g: Guest, ids: seq<nat>, write: bool, offset: nat)
    requires InTable(g.descs, ids)
    ensures Isolated(g.vm, Transfers(g, ids, write, offset)) <==> EndsInRam(g, ids)
    decreases |ids|
  {
    hide Isolated;
    if |ids| <= 1 {
      NothingIsolated(g.vm);
    } else {
      var x := g.descs[ids[0]];
      match GetPhysicalAddress(g.vm, x.address) {
        case None =>
          IsolatedIff(g, ids[1..], write, offset);
        case Some(a) =>
          IsolatedIff(g, ids[1..], write, offset + x.length);
          IsolatedStep(g.vm, Access(write, a, offset, x.length), Transfers(g, ids[1..], write, offset + x.length));
      }
    }
  }

  lemma NothingIsolated(vm: VM)
    ensures Isolated(vm, [])
  {
  }

  /** A buffer of 4096 bytes at the last byte of guest RAM: every buffer starts in it, and the transfer leaves it. */
  lemma LeavesRamExample()
    ensures var vm := VM(0x4000_0000, 0x8000_0000, 0x1000_0000, []);
      var descs := [Desc(0x4FFF_FFFF, 4096, 1, 1), Desc(0x4000_1000, 1, 2, 0)];
      var g := Guest(vm, descs, map[]);
      && ChainFrom(descs, 0, [0, 1]) && InTable(descs, [0, 1]) && AllOwned(g, [0, 1])
      && Transfers(g, [0, 1], false, 0) == [Access(false, 0x8FFF_FFFF, 0, 4096)]
      && !Isolated(vm, Transfers(g, [0, 1], false, 0))
  {
    var vm := VM(0x4000_0000, 0x8000_0000, 0x1000_0000, []);
    var descs := [Desc(0x4FFF_FFFF, 4096, 1, 1), Desc(0x4000_1000, 1, 2, 0)];
    var g, ids := Guest(vm, descs, map[]), [0, 1];
    assert ids[1..] == [1] && ChainFrom(descs, 1, [1]);
    IsolatedIff(g, ids, false, 0);
  }

  lemma {:induction false} ChainIds(descs: seq<Desc>, id: nat, ids: seq<nat>)
    requires ChainFrom(descs, id, ids)
    ensures InTable(descs, ids)
    decreases |ids|
  {
    if |ids| > 1 {
      ChainIds(descs, descs[id].next, ids[1..]);
      forall i | 0 <= i < |ids|
        ensures ids[i] < |descs|
      {
        assert i > 0 ==> ids[i] == ids[1..][i - 1];
      }
    }
  }

  /** One step along a chain. */
  lemma ChainStep(g: Guest, id: nat, ids: seq<nat>, write: bool, offset: nat)
    requires ChainFrom(g.descs, id, ids) && InTable(g.descs, ids)
    ensures |ids| > 0 && id < |g.descs| && ids[0] == id
    ensures !g.descs[id].HasNext() ==>
      |ids| == 1 && Transfers(g, ids, write, offset) == [] && DataLength(g.descs, ids) == 0 && Reachable(g, ids)
    ensures g.descs[id].HasNext() ==>
      var x, a := g.descs[id], GetPhysicalAddress(g.vm, g.descs[id].address);
      && |ids| > 1 && ids[|ids| - 1] == ids[1..][|ids| - 2]
      && InTable(g.descs, ids[1..]) && ChainFrom(g.descs, x.next, ids[1..])
      && Transfers(g, ids, write, offset) ==
         (if a.None? then Transfers(g, ids[1..], write, offset)
          else [Access(write, a.value, offset, x.length)] + Transfers(g, ids[1..], write, offset + x.length))
      && DataLength(g.descs, ids) == x.length + DataLength(g.descs, ids[1..])
      && (Reachable(g, ids) <==> a.Some? && Reachable(g, ids[1..]))
  {
    if g.descs[id].HasNext() {
      assert ChainFrom(g.descs, g.descs[id].next, ids[1..]);
      assert |ids[1..]| > 0;
    }
  }

  lemma {:induction false} ChainUnique(descs: seq<Desc>, id: nat, a: seq<nat>, b: seq<nat>)
    requires ChainFrom(descs, id, a) && ChainFrom(descs, id, b)
    ensures a == b
    decreases |a|
  {
    if descs[id].HasNext() {
      ChainUnique(descs, descs[id].next, a[1..], b[1..]);
      assert a == [a[0]] + a[1..] && b == [b[0]] + b[1..];
    }
  }

  // ------------------------------------------------------------------ what a request is worth

  ghost function ChainOf(g: Guest, head: nat): (ids: seq<nat>)
    requires WellFormed(g, head)
    ensures ChainFrom(g.descs, g.descs[head].next, ids)
    ensures InTable(g.descs, ids)
  {
    var ids :| ChainFrom(g.descs, g.descs[head].next, ids);
    ChainIds(g.descs, g.descs[head].next, ids);
    ids
  }

  ghost function HeaderOf(g: Guest, head: nat): Header
    requires WellFormed(g, head)
  {
    g.headers[GetPhysicalAddress(g.vm, g.descs[head].address).value]
  }

  /** The transfers of a request, from its sector on. */
  ghost function AccessesFor(g: Guest, head: nat): seq<Access>
    requires WellFormed(g, head)
  {
    Transfers(g, ChainOf(g, head), HeaderOf(g, head).kind == 1, HeaderOf(g, head).sector * 512)
  }

  /** The used element of a request: its head, and the data length plus that of a reachable status. */
  ghost function UsedFor(g: Guest, head: nat): Used
    requires WellFormed(g, head)
  {
    var ids := ChainOf(g, head);
    var last := g.descs[ids[|ids| - 1]];
    var status := if GetPhysicalAddress(g.vm, last.address).Some? then last.length else 0;
    Used(head, Wrap32(DataLength(g.descs, ids) + status))
  }

  /** The file transfers number `lo` up to `hi` all succeed. */
  ghost predicate AllSucceed(replies: seq<bool>, lo: nat, hi: nat)
  {
    forall k :: lo <= k < hi && k < |replies| ==> replies[k]
  }

  lemma Moved<T>(before: seq<T>, x: T, after: seq<T>)
    ensures before + ([x] + after) == (before + [x]) + after
  {
  }

  lemma OneFurther<T>(xs: seq<T>, lo: nat, hi: nat)
    requires lo <= hi < |xs|
    ensures xs[lo..hi + 1] == xs[lo..hi] + [xs[hi]]
  {
  }

  lemma NoneFail(replies: seq<bool>, lo: nat)
    ensures AllSucceed(replies, lo, lo)
  {
  }

  lemma OneMoreSucceeds(replies: seq<bool>, lo: nat, hi: nat)
    requires lo <= hi
    ensures AllSucceed(replies, lo, hi + 1) <==> AllSucceed(replies, lo, hi) && (hi < |replies| ==> replies[hi])
  {
  }

  /** The request asks of every buffer only what its flag allows (section 2.6.5 of VIRTIO 1.1): the device reads the
      header, writes the data buffers of a read, reads those of a write, and writes the status. */
  ghost predicate FlagsAllow(g: Guest, head: nat)
    requires WellFormed(g, head)
  {
    var ids := ChainOf(g, head);
    && !g.descs[head].DeviceWritable() && g.descs[ids[|ids| - 1]].DeviceWritable()
    && forall i :: 0 <= i < |ids| - 1 ==> (g.descs[ids[i]].DeviceWritable() <==> HeaderOf(g, head).kind != 1)
  }

  /** The device does not look at that flag: it writes a buffer that it may only read. */
  lemma FlagIgnoredExample()
    ensures var vm := VM(0x4000_0000, 0x1000_0000, 0x1000_0000, []);
      var descs := [Desc(0x4000_0000, 16, 1, 1), Desc(0x4000_1000, 512, 1, 2), Desc(0x4000_2000, 1, 2, 0)];
      var g := Guest(vm, descs, map[0x1000_0000 := Header(0, 0)]);
      && WellFormed(g, 0) && !FlagsAllow(g, 0) && AccessesFor(g, 0) == [Access(false, 0x1000_1000, 0, 512)]
  {
    var vm := VM(0x4000_0000, 0x1000_0000, 0x1000_0000, []);
    var descs := [Desc(0x4000_0000, 16, 1, 1), Desc(0x4000_1000, 512, 1, 2), Desc(0x4000_2000, 1, 2, 0)];
    var g := Guest(vm, descs, map[0x1000_0000 := Header(0, 0)]);
    assert [1, 2][1..] == [2];
    assert ChainFrom(descs, 2, [2]) && ChainFrom(descs, 1, [1, 2]);
    ChainUnique(descs, 1, [1, 2], ChainOf(g, 0));
    assert Transfers(g, [2], false, 512) == [];
  }

  /** The status byte of a request whose first transfer is number `first`: success exactly when every buffer could
      be reached and every transfer succeeded. Nothing is written when the status descriptor is out of reach. */
  ghost function StatusFor(g: Guest, head: nat, replies: seq<bool>, first: nat): seq<(nat, nat)>
    requires WellFormed(g, head)
  {
    var ids := ChainOf(g, head);
    match GetPhysicalAddress(g.vm, g.descs[ids[|ids| - 1]].address)
    case None => []
    case Some(a) =>
      var ok := Reachable(g, ids) && AllSucceed(replies, first, first + |AccessesFor(g, head)|);
      [(a, if ok then 0 else 1)]
  }

  ghost function AllStatuses(g: Guest, heads: seq<nat>, replies: seq<bool>, first: nat): seq<(nat, nat)>
    requires forall i :: 0 <= i < |heads| ==> WellFormed(g, heads[i])
    decreases |heads|
  {
    if heads == [] then []
    else
      var front := heads[..|heads| - 1];
      AllStatuses(g, front, replies, first) + StatusFor(g, heads[|heads| - 1], replies, first + |AllAccesses(g, front)|)
  }

  ghost function AllUsed(g: Guest, heads: seq<nat>): seq<Used>
    requires forall i :: 0 <= i < |heads| ==> WellFormed(g, heads[i])
  {
    if heads == [] then [] else AllUsed(g, heads[..|heads| - 1]) + [UsedFor(g, heads[|heads| - 1])]
  }

  ghost function AllAccesses(g: Guest, heads: seq<nat>): seq<Access>
    requires forall i :: 0 <= i < |heads| ==> WellFormed(g, heads[i])
  {
    if heads == [] then [] else AllAccesses(g, heads[..|heads| - 1]) + AccessesFor(g, heads[|heads| - 1])
  }

  // ------------------------------------------------------------------ the device

  /** Slot of item number `t` in a ring. */
  function Slot(t: nat, size: nat): (k: nat)
    requires size > 0
    ensures k < size
  {
    t % size
  }

  /** The 16-bit counter of item `t`. */
  function Counter(t: nat): (c: nat)
    ensures c < 0x1_0000 && (t < 0x1_0000 ==> c == t)
  {
    t % U16
  }

  /** The 16-bit counter of item `t` leads to the same slot, because the ring size divides 65536. */
  lemma CounterSlot(t: nat, size: nat)
    requires size > 0 && U16 % size == 0
    ensures Counter(t) % size == Slot(t, size)
  {
    var q, r, k := t / U16, t % U16, U16 / size;
    assert t == q * U16 + r && U16 == k * size;
    assert q * U16 == (q * k) * size;
    MultipleMod(q * k, size);
    ModShift(r, (q * k) * size, size);
  }

  /** Wrap-around of a 32-bit sum. */
  function Wrap32(x: nat): (r: nat)
    ensures r < 0x1_0000_0000 && (x < 0x1_0000_0000 ==> r == x)
  {
    x % U32
  }

  lemma SumMod(a: nat, b: nat, c: nat)
    ensures Wrap32(Wrap32(a + b) + c) == Wrap32(a + b + c)
  {
  }

  lemma CounterNext(t: nat)
    ensures (Counter(t) + 1) % U16 == Counter(t + 1)
  {
  }

  /** Two counters less than 65536 apart agree only when they are the same. */
  lemma CounterAgrees(t: nat, u: nat)
    requires t <= u < t + U16
    ensures Counter(t) == Counter(u) <==> t == u
  {
  }

  lemma SlotsDiffer(t: nat, u: nat, size: nat)
    requires size > 0 && t < u < t + size
    ensures Slot(t, size) != Slot(u, size)
  {
    var a, r, x := t / size, t % size, u - t;
    assert t == a * size + r;
    if r + x < size {
      DivUnique(u, size, a, r + x);
    } else {
      assert (a + 1) * size == a * size + size;
      DivUnique(u, size, a + 1, r + x - size);
    }
  }

  /** Items `lo` up to `hi` are in their slots. */
  ghost predicate InRing<T>(ring: seq<T>, xs: seq<T>, lo: nat, hi: nat) {
    |ring| > 0 && hi <= |xs| && forall t: nat :: lo <= t < hi ==> ring[Slot(t, |ring|)] == xs[t]
  }

  lemma RingAppend<T>(ring: seq<T>, xs: seq<T>, lo: nat, lo': nat, x: T)
    requires InRing(ring, xs, lo, |xs|) && lo <= lo' <= |xs| < lo' + |ring|
    ensures InRing(ring[Slot(|xs|, |ring|) := x], xs + [x], lo', |xs| + 1)
  {
    hide Slot;
    var ring', xs' := ring[Slot(|xs|, |ring|) := x], xs + [x];
    forall t: nat | lo' <= t < |xs| + 1
      ensures ring'[Slot(t, |ring'|)] == xs'[t]
    {
      if t < |xs| { SlotsDiffer(t, |xs|, |ring|); }
    }
  }

  lemma RingAt<T>(ring: seq<T>, xs: seq<T>, lo: nat, hi: nat, t: nat)
    requires InRing(ring, xs, lo, hi) && lo <= t < hi
    ensures |ring| > 0 && t < |xs| && ring[Slot(t, |ring|)] == xs[t]
  {
  }

  lemma RingLess<T>(ring: seq<T>, xs: seq<T>, lo: nat, lo': nat, hi: nat)
    requires InRing(ring, xs, lo, hi) && lo <= lo'
    ensures InRing(ring, xs, lo', hi)
  {
  }

  /** The available ring and its counters, with `taken` of the `heads` taken. */
  ghost predicate AvailIs(ring: seq<nat>, idx: nat, last: nat, heads: seq<nat>, taken: nat) {
    && taken <= |heads| <= taken + |ring| && InRing(ring, heads, taken, |heads|)
    && idx == Counter(|heads|) && last == Counter(taken)
  }

  /** The used ring and its counters: it holds the last elements put in it. */
  ghost predicate UsedIs(ring: seq<Used>, idx: nat, id: nat, done: seq<Used>) {
    id == idx == Counter(|done|) && InRing(ring, done, if |done| < |ring| then 0 else |done| - |ring|, |done|)
  }

  /** Sizes of rings for which 16-bit counters lead to the slots. */
  predicate RingSize(size: nat) { 0 < size < U16 && U16 % size == 0 }

  lemma PublishNext(ring: seq<nat>, idx: nat, last: nat, heads: seq<nat>, taken: nat, head: nat)
    requires RingSize(|ring|) && AvailIs(ring, idx, last, heads, taken) && |heads| < taken + |ring|
    ensures AvailIs(ring[idx % |ring| := head], (idx + 1) % U16, last, heads + [head], taken)
  {
    hide InRing, Slot, Counter;
    CounterSlot(|heads|, |ring|);
    CounterNext(|heads|);
    RingAppend(ring, heads, taken, taken, head);
  }

  lemma TakeNext(ring: seq<nat>, idx: nat, last: nat, heads: seq<nat>, taken: nat)
    requires RingSize(|ring|) && AvailIs(ring, idx, last, heads, taken)
    ensures taken <= |heads| && (last == idx <==> taken == |heads|)
    ensures taken < |heads| ==>
      ring[last % |ring|] == heads[taken] && AvailIs(ring, idx, (last + 1) % U16, heads, taken + 1)
  {
    hide InRing, Slot, Counter;
    CounterAgrees(taken, |heads|);
    CounterSlot(taken, |ring|);
    CounterNext(taken);
    if taken < |heads| {
      RingAt(ring, heads, taken, |heads|, taken);
      RingLess(ring, heads, taken, taken + 1, |heads|);
    }
  }

  lemma PutNext(ring: seq<Used>, idx: nat, id: nat, done: seq<Used>, x: Used)
    requires RingSize(|ring|) && UsedIs(ring, idx, id, done)
    ensures UsedIs(ring[id % |ring| := x], (id + 1) % U16, (id + 1) % U16, done + [x])
  {
    hide InRing, Slot, Counter;
    var n, size := |done|, |ring|;
    CounterSlot(n, size);
    CounterNext(n);
    RingAppend(ring, done, if n < size then 0 else n - size, if n + 1 < size then 0 else n + 1 - size, x);
  }

  /** Part of the way along a chain: `rest` is still to come, and what was done so far together with what is to
      come is the whole. */
  ghost predicate Serving(g: Guest, ids: seq<nat>, write: bool, start: nat, before: seq<Access>,
                          next: nat, rest: seq<nat>, offset: nat, now: seq<Access>, total: nat)
    requires InTable(g.descs, ids) && InTable(g.descs, rest)
  {
    && |ids| > 0 && ChainFrom(g.descs, next, rest) && rest[|rest| - 1] == ids[|ids| - 1]
    && now + Transfers(g, rest, write, offset) == before + Transfers(g, ids, write, start)
    && total < U32 && Wrap32(DataLength(g.descs, ids)) == Wrap32(total + DataLength(g.descs, rest))
  }

  lemma ServingStart(g: Guest, first: nat, ids: seq<nat>, write: bool, start: nat, before: seq<Access>)
    requires ChainFrom(g.descs, first, ids) && InTable(g.descs, ids)
    ensures Serving(g, ids, write, start, before, first, ids, start, before, 0)
  {
  }

  lemma ServingStep(g: Guest, ids: seq<nat>, write: bool, start: nat, before: seq<Access>,
                    next: nat, rest: seq<nat>, offset: nat, now: seq<Access>, total: nat)
    requires InTable(g.descs, ids) && InTable(g.descs, rest)
    requires Serving(g, ids, write, start, before, next, rest, offset, now, total)
    ensures |ids| > 0 && |rest| > 0 && next < |g.descs|
    ensures !g.descs[next].HasNext() ==>
      && now == before + Transfers(g, ids, write, start) && total == Wrap32(DataLength(g.descs, ids))
      && g.descs[next] == g.descs[ids[|ids| - 1]] && Reachable(g, rest)
    ensures g.descs[next].HasNext() ==>
      var x, a := g.descs[next], GetPhysicalAddress(g.vm, g.descs[next].address);
      && InTable(g.descs, rest[1..]) && (Reachable(g, rest) <==> a.Some? && Reachable(g, rest[1..]))
      && (a.None? ==> Serving(g, ids, write, start, before, x.next, rest[1..], offset, now, Wrap32(total + x.length)))
      && (a.Some? ==> Serving(g, ids, write, start, before, x.next, rest[1..], offset + x.length,
                              now + [Access(write, a.value, offset, x.length)], Wrap32(total + x.length)))
  {
    hide ChainFrom, Transfers, DataLength, Reachable, InTable, Wrap32, GetPhysicalAddress;
    ChainStep(g, next, rest, write, offset);
    if g.descs[next].HasNext() {
      ServingOn(g, ids, write, start, before, next, rest, offset, now, total);
    }
  }

  lemma ServingOn(g: Guest, ids: seq<nat>, write: bool, start: nat, before: seq<Access>,
                  next: nat, rest: seq<nat>, offset: nat, now: seq<Access>, total: nat)
    requires InTable(g.descs, ids) && InTable(g.descs, rest) && next < |g.descs| && g.descs[next].HasNext()
    requires Serving(g, ids, write, start, before, next, rest, offset, now, total)
    ensures |rest| > 0 && InTable(g.descs, rest[1..])
    ensures var x, a := g.descs[next], GetPhysicalAddress(g.vm, g.descs[next].address);
      if a.None? then Serving(g, ids, write, start, before, x.next, rest[1..], offset, now, Wrap32(total + x.length))
      else Serving(g, ids, write, start, before, x.next, rest[1..], offset + x.length,
                   now + [Access(write, a.value, offset, x.length)], Wrap32(total + x.length))
  {
    hide ChainFrom, Transfers, DataLength, Reachable, InTable, Wrap32, GetPhysicalAddress;
    ChainStep(g, next, rest, write, offset);
    var x, a := g.descs[next], GetPhysicalAddress(g.vm, g.descs[next].address);
    TotalStep(DataLength(g.descs, ids), total, x.length, DataLength(g.descs, rest[1..]));
    if a.Some? {
      Moved(now, Access(write, a.value, offset, x.length), Transfers(g, rest[1..], write, offset + x.length));
    }
  }

  lemma TotalStep(whole: nat, total: nat, n: nat, sum: nat)
    requires Wrap32(whole) == Wrap32(total + (n + sum))
    ensures Wrap32(whole) == Wrap32(Wrap32(total + n) + sum) && Wrap32(total + n) < U32
  {
    hide Wrap32;
    SumMod(total, n, sum);
    assert total + (n + sum) == total + n + sum;
  }

  class VirtioBlkMmio {
    const queueSize: nat
    /** Outcomes of the file transfers to come; they succeed from there on. */
    const fileReplies: seq<bool>
    var guest: Guest
    var availRing: seq<nat>
    var availIdx: nat
    var usedRing: seq<Used>
    var usedIdx: nat
    var lastAvail: nat
    var usedId: nat
    var interruptStatus: bool
    var accesses: seq<Access>
    var statuses: seq<(nat, nat)>
    /** Every head the driver has made available, whether each one taken so far was served, and every element put in
        the used ring, in order. */
    ghost var offered: seq<nat>
    ghost var fates: seq<bool>
    ghost var done: seq<Used>

    /** The used ring lists the heads that were served, in order; the device's place in the available ring is the number
        of heads taken, its place in the used ring the number served. */
    ghost predicate Valid()
      reads this`availRing, this`availIdx, this`usedRing, this`usedIdx, this`lastAvail, this`usedId
      reads this`offered, this`fates, this`done
    {
      && RingSize(queueSize) && |availRing| == |usedRing| == queueSize && |done| <= |fates| <= |offered|
      && AvailIs(availRing, availIdx, lastAvail, offered, |fates|) && UsedIs(usedRing, usedIdx, usedId, done)
      && ListsServed(done, offered, fates)
    }

    /** A queue of this many entries, as the driver sets it up. */
    constructor (size: nat, replies: seq<bool>, guest: Guest)
      requires 0 < size < 0x1_0000 && 0x1_0000 % size == 0
      ensures Valid() && queueSize == size && fileReplies == replies && this.guest == guest
      ensures offered == [] && fates == [] && accesses == [] && statuses == [] && !interruptStatus
    {
      queueSize, fileReplies, this.guest := size, replies, guest;
      availRing, usedRing := seq(size, _ => 0), seq(size, _ => Used(0, 0));
      availIdx, usedIdx, lastAvail, usedId, interruptStatus := 0, 0, 0, 0, false;
      accesses, statuses, offered, fates, done := [], [], [], [], [];
    }

    /** What the device has done so far, as the driver and the image file see it. */
    ghost function Log(): Record
      reads this`done, this`accesses, this`statuses
    {
      Record(done, accesses, statuses)
    }

    /** The driver's side: a head goes in the next slot, then the index moves. */
    method Publish(head: nat)
      requires Valid() && |offered| < |fates| + queueSize
      modifies this`availRing, this`availIdx, this`offered
      ensures Valid() && offered == old(offered) + [head]
    {
      hide AvailIs, UsedIs, ListsServed;
      PublishNext(availRing, availIdx, lastAvail, offered, |fates|, head);
      ListsMoreOffered(done, offered, fates, head);
      availRing := availRing[availIdx % queueSize := head];
      availIdx := (availIdx + 1) % U16;
      offered := offered + [head];
    }

    /** `get_next_avail_id`: the slot of the next request, if the driver is ahead. */
    method GetNextAvailId() returns (slot: Option<nat>)
      requires 0 < queueSize
      modifies this`lastAvail
      ensures lastAvail == if old(lastAvail) == availIdx then old(lastAvail) else (old(lastAvail) + 1) % U16
      ensures slot == if old(lastAvail) == availIdx then None else Some(old(lastAvail) % queueSize)
    {
      if lastAvail == availIdx {
        return None;
      }
      slot := Some(lastAvail % queueSize);
      lastAvail := (lastAvail + 1) % U16;
    }

    /** `write_used`: the element goes in the next slot of the used ring, then the index moves. */
    method WriteUsed(id: nat, length: nat)
      requires 0 < queueSize == |usedRing|
      modifies this`usedRing, this`usedId, this`usedIdx
      ensures usedRing == old(usedRing)[old(usedId) % queueSize := Used(id, length)]
      ensures usedId == usedIdx == (old(usedId) + 1) % U16
    {
      var slot := usedId % queueSize;
      usedId := (usedId + 1) % U16;
      usedRing := usedRing[slot := Used(id, length)];
      usedIdx := usedId;
    }

    /** The inner loop of `operation`: transfers data descriptor by data descriptor up to the status
        descriptor. */
    method ServeData(first: nat, write: bool, start: nat, ghost ids: seq<nat>)
      returns (last: Desc, total: nat, status: nat)
      requires ChainFrom(guest.descs, first, ids)
      requires InTable(guest.descs, ids)
      modifies this`accesses
      ensures accesses == old(accesses) + Transfers(guest, ids, write, start)
      ensures last == guest.descs[ids[|ids| - 1]] && total == Wrap32(DataLength(guest.descs, ids))
      ensures status ==
        if Reachable(guest, ids) && AllSucceed(fileReplies, |old(accesses)|, |accesses|) then 0 else 1
    {
      hide ChainFrom, Transfers, DataLength, Reachable, InTable, AllSucceed, Wrap32, GetPhysicalAddress, Serving;
      var g := guest;
      NoneFail(fileReplies, |accesses|);
      ServingStart(g, first, ids, write, start, accesses);
      var next: nat, offset: nat := first, start;
      total, status := 0, STATUS_OK;
      ghost var rest: seq<nat> := ids;
      ghost var missed := false;
      while true
        invariant InTable(g.descs, rest)
        invariant Serving(g, ids, write, start, old(accesses), next, rest, offset, accesses, total)
        invariant |old(accesses)| <= |accesses| && (Reachable(g, ids) <==> !missed && Reachable(g, rest))
        invariant status ==
          if !missed && AllSucceed(fileReplies, |old(accesses)|, |accesses|) then STATUS_OK else STATUS_IOERR
        decreases |rest|
      {
        ServingStep(g, ids, write, start, old(accesses), next, rest, offset, accesses, total);
        var descriptor := g.descs[next];
        if !descriptor.HasNext() {
          last := descriptor;
          return;
        }
        total := Wrap32(total + descriptor.length);
        var reached, good := TransferOne(descriptor, write, offset, |old(accesses)|);
        if !good {
          status := STATUS_IOERR;
        }
        if reached {
          offset := offset + descriptor.length;
        }
        next, rest, missed := descriptor.next, rest[1..], missed || !reached;
      }
    }

    /** One data descriptor: nothing is transferred when its buffer is out of reach. */
    method TransferOne(x: Desc, write: bool, offset: nat, ghost first: nat) returns (reached: bool, good: bool)
      requires first <= |accesses|
      modifies this`accesses
      ensures var a := GetPhysicalAddress(guest.vm, x.address);
        && reached == a.Some?
        && accesses == if reached then old(accesses) + [Access(write, a.value, offset, x.length)] else old(accesses)
      ensures AllSucceed(fileReplies, first, |accesses|) <==>
        AllSucceed(fileReplies, first, |old(accesses)|) && (reached ==> good)
      ensures good ==> reached
    {
      hide AllSucceed, GetPhysicalAddress;
      var address := GetPhysicalAddress(guest.vm, x.address);
      if address.None? {
        return false, false;
      }
      OneMoreSucceeds(fileReplies, first, |accesses|);
      good := |accesses| < |fileReplies| ==> fileReplies[|accesses|];
      accesses := accesses + [Access(write, address.value, offset, x.length)];
      reached := true;
    }

    /** One request of `operation`, up to its entry in the used ring; turns down a malformed header. */
    method ServeRequest(head: nat) returns (ok: bool)
      requires 0 < queueSize == |usedRing| && (WellFormed(guest, head) || Rejected(guest, head))
      modifies this`accesses, this`statuses, this`usedRing, this`usedId, this`usedIdx
      ensures ok == !Rejected(guest, head)
      ensures !ok ==> accesses == old(accesses) && statuses == old(statuses)
      ensures !ok ==> usedRing == old(usedRing) && usedId == old(usedId) && usedIdx == old(usedIdx)
      ensures ok ==> WellFormed(guest, head) && accesses == old(accesses) + AccessesFor(guest, head)
      ensures ok ==> statuses == old(statuses) + StatusFor(guest, head, fileReplies, |old(accesses)|)
      ensures ok ==> usedRing == old(usedRing)[old(usedId) % queueSize := UsedFor(guest, head)]
      ensures ok ==> usedId == usedIdx == (old(usedId) + 1) % U16
    {
      hide Transfers, DataLength, ChainFrom, InTable, Reachable, AllSucceed, Wrap32, GetPhysicalAddress;
      var request := guest.descs[head];
      if request.length != REQUEST_SIZE {
        return false;
      }
      var at := GetPhysicalAddress(guest.vm, request.address);
      if at.None? {
        return false;
      }
      var header := guest.headers[at.value];
      if !request.HasNext() {
        return false;
      }
      ghost var ids := ChainOf(guest, head);
      ghost var data := DataLength(guest.descs, ids);
      ChainStep(guest, request.next, ids, header.IsWrite(), header.sector * 512);
      var last, total, status := ServeData(request.next, header.IsWrite(), header.sector * 512, ids);
      var statusAt := GetPhysicalAddress(guest.vm, last.address);
      if statusAt.Some? {
        statuses := statuses + [(statusAt.value, status)];
        SumMod(data, 0, last.length);
        total := Wrap32(total + last.length);
      }
      WriteUsed(head, total);
      ok := true;
    }

    /** First pending request that will be turned down, or the end of the queue. */
    ghost function FirstRejected(t: nat): (r: nat)
      requires t <= |offered|
      reads this
      ensures t <= r <= |offered| && (r < |offered| ==> Rejected(guest, offered[r]))
      ensures forall u :: t <= u < r ==> !Rejected(guest, offered[u])
      decreases |offered| - t
    {
      if t == |offered| || Rejected(guest, offered[t]) then t else FirstRejected(t + 1)
    }

    lemma InOrder()
      requires Valid()
      ensures |done| <= |fates| <= |offered|
      ensures |done| == |offered| ==> usedIdx == availIdx
      ensures |offered| < |done| + U16 ==> (usedIdx == availIdx <==> |done| == |offered|)
    {
      hide InRing, ListsServed, Counter;
      if |offered| < |done| + U16 {
        CounterAgrees(|done|, |offered|);
      }
    }

    /** `operation`, on a notification: serves the pending requests in order, each once, up to the first one it turns
        down, which it takes without a used element and without raising the interrupt; the requests behind that one wait
        for the next notification. Used and available indices agree again exactly when every request offered was served,
        as long as fewer than 65536 were not. */
    method Operation()
      requires Valid()
      requires forall t :: |fates| <= t < |offered| ==> WellFormed(guest, offered[t]) || Rejected(guest, offered[t])
      modifies this`lastAvail, this`usedId, this`usedIdx, this`usedRing, this`accesses, this`statuses
      modifies this`interruptStatus, this`fates, this`done
      ensures Valid()
      ensures var start, stop := |old(fates)|, old(FirstRejected(|fates|));
        && ServedFrom(guest, offered[start..stop], fileReplies, old(Log()), Log())
        && fates == old(fates) + seq(stop - start, _ => true) + (if stop < |offered| then [false] else [])
        && interruptStatus == (old(interruptStatus) || stop == |offered|)
      ensures |done| == |offered| ==> usedIdx == availIdx
      ensures |offered| < |done| + U16 ==> (usedIdx == availIdx <==> |done| == |offered|)
    {
      hide WellFormed, Rejected, InRing, UsedFor, AccessesFor, StatusFor, FirstRejected, ListsServed,
        ServedFrom, Counter, Valid, LogsOne;
      InOrder();
      ghost var start, stop := |fates|, FirstRejected(|fates|);
      ServedNone(guest, fileReplies, Log());
      assert offered[start..start] == [];
      while true
        invariant Valid() && start <= |fates| <= stop <= |offered| && interruptStatus == old(interruptStatus)
        invariant fates == old(fates) + seq(|fates| - start, _ => true)
        invariant ServedFrom(guest, offered[start..|fates|], fileReplies, old(Log()), Log())
        decreases stop - |fates|
      {
        ghost var heads, log := offered[start..|fates|], Log();
        ghost var t := |fates|;
        var step := ServeNext();
        InOrder();
        if step.Empty? {
          break;
        } else if step.TurnedDown? {
          return;
        }
        ServedOneMore(guest, heads, offered[t], fileReplies, old(Log()), log, Log());
        OneFurther(offered, start, t);
      }
      interruptStatus := true;
    }

    /** One round of the loop in `operation`. */
    method ServeNext() returns (step: ServeStep)
      requires Valid()
      requires |fates| < |offered| ==> WellFormed(guest, offered[|fates|]) || Rejected(guest, offered[|fates|])
      modifies this`lastAvail, this`usedId, this`usedIdx, this`usedRing, this`accesses, this`statuses
      modifies this`fates, this`done
      ensures Valid()
      ensures step.Empty? <==> |old(fates)| == |offered|
      ensures |old(fates)| < |offered| ==> (step.TurnedDown? <==> Rejected(guest, offered[|old(fates)|]))
      ensures fates == if step.Empty? then old(fates) else old(fates) + [step.OneServed?]
      ensures !step.OneServed? ==> Log() == old(Log())
      ensures step.OneServed? ==> LogsOne(guest, offered[|old(fates)|], fileReplies, old(Log()), Log())
    {
      hide WellFormed, Rejected, UsedFor, AccessesFor, StatusFor, ListsServed, LogsOne, AvailIs, UsedIs;
      TakeNext(availRing, availIdx, lastAvail, offered, |fates|);
      var slot := GetNextAvailId();
      if slot.None? {
        return Empty;
      }
      var head := availRing[slot.value];
      var ok := ServeRequest(head);
      if !ok {
        ListsTurnedDown(done, offered, fates);
        fates := fates + [false];
        return TurnedDown;
      }
      Logged(guest, head, fileReplies, old(Log()), Log());
      ListsOneMore(done, offered, fates, UsedFor(guest, head));
      PutNext(old(usedRing), old(usedIdx), old(usedId), done, UsedFor(guest, head));
      fates, done := fates + [true], done + [UsedFor(guest, head)];
      step := OneServed;
    }

    /** A request whose header is not 16 bytes long: the used index stays one behind the available index, and no
        interrupt is raised. */
    method TurnedDownExample()
      requires Valid() && offered == [] && guest.descs == [Desc(0, 8, 1, 0)] && !interruptStatus
      modifies this
      ensures offered == [0] && done == [] && availIdx == 1 && usedIdx == 0 && !interruptStatus
    {
      Publish(0);
      assert FirstRejected(0) == 0;
      Operation();
      NothingUsed(guest, offered[0..0]);
    }
  }

  datatype Record = Record(used: seq<Used>, accesses: seq<Access>, statuses: seq<(nat, nat)>)

  /** One request served. */
  ghost predicate LogsOne(g: Guest, head: nat, replies: seq<bool>, before: Record, after: Record)
  {
    && WellFormed(g, head)
    && after.used == before.used + [UsedFor(g, head)]
    && after.accesses == before.accesses + AccessesFor(g, head)
    && after.statuses == before.statuses + StatusFor(g, head, replies, |before.accesses|)
  }

  /** All of `heads` served, in order. */
  ghost predicate ServedFrom(g: Guest, heads: seq<nat>, replies: seq<bool>, before: Record, after: Record)
  {
    && (forall i :: 0 <= i < |heads| ==> WellFormed(g, heads[i]))
    && after.used == before.used + AllUsed(g, heads)
    && after.accesses == before.accesses + AllAccesses(g, heads)
    && after.statuses == before.statuses + AllStatuses(g, heads, replies, |before.accesses|)
  }

  lemma ServedNone(g: Guest, replies: seq<bool>, log: Record)
    ensures ServedFrom(g, [], replies, log, log)
  {
  }

  lemma ServedOneMore(g: Guest, heads: seq<nat>, head: nat, replies: seq<bool>,
                      before: Record, log: Record, after: Record)
    requires ServedFrom(g, heads, replies, before, log) && LogsOne(g, head, replies, log, after)
    ensures ServedFrom(g, heads + [head], replies, before, after)
  {
    hide WellFormed, UsedFor, AccessesFor, StatusFor;
    assert (heads + [head])[..|heads|] == heads;
  }

  /** The heads among those taken that were served. */
  ghost function Kept(heads: seq<nat>, fates: seq<bool>): seq<nat>
    requires |fates| <= |heads|
    decreases |fates|
  {
    if fates == [] then []
    else
      var n := |fates| - 1;
      Kept(heads, fates[..n]) + if fates[n] then [heads[n]] else []
  }

  ghost predicate ListsServed(done: seq<Used>, heads: seq<nat>, fates: seq<bool>)
  {
    && |fates| <= |heads| && |done| == |Kept(heads, fates)|
    && forall t :: 0 <= t < |done| ==> done[t].id == Kept(heads, fates)[t]
  }

  lemma {:induction false} KeptMoreOffered(heads: seq<nat>, fates: seq<bool>, head: nat)
    requires |fates| <= |heads|
    ensures Kept(heads + [head], fates) == Kept(heads, fates)
    decreases |fates|
  {
    if fates != [] {
      KeptMoreOffered(heads, fates[..|fates| - 1], head);
    }
  }

  lemma ListsMoreOffered(done: seq<Used>, heads: seq<nat>, fates: seq<bool>, head: nat)
    requires ListsServed(done, heads, fates)
    ensures ListsServed(done, heads + [head], fates)
  {
    KeptMoreOffered(heads, fates, head);
  }

  lemma ListsTurnedDown(done: seq<Used>, heads: seq<nat>, fates: seq<bool>)
    requires ListsServed(done, heads, fates) && |fates| < |heads|
    ensures ListsServed(done, heads, fates + [false])
  {
    assert (fates + [false])[..|fates|] == fates;
  }

  lemma ListsOneMore(done: seq<Used>, heads: seq<nat>, fates: seq<bool>, used: Used)
    requires ListsServed(done, heads, fates) && |fates| < |heads| && used.id == heads[|fates|]
    ensures ListsServed(done + [used], heads, fates + [true])
  {
    assert (fates + [true])[..|fates|] == fates;
  }

  datatype ServeStep = Empty | TurnedDown | OneServed

  lemma Logged(g: Guest, head: nat, replies: seq<bool>, before: Record, after: Record)
    requires WellFormed(g, head) && after.used == before.used
    requires after.accesses == before.accesses + AccessesFor(g, head)
    requires after.statuses == before.statuses + StatusFor(g, head, replies, |before.accesses|)
    ensures UsedFor(g, head).id == head
    ensures LogsOne(g, head, replies, before, after.(used := before.used + [UsedFor(g, head)]))
  {
    hide WellFormed, AccessesFor, StatusFor;
  }

  lemma NothingUsed(g: Guest, heads: seq<nat>)
    requires heads == []
    ensures AllUsed(g, heads) == [] && AllAccesses(g, heads) == []
  {
  }
}
