/** The driver side of the virtio block queue: the descriptor pool and one synchronous request. */
module VirtioDriver {
  import opened Options
  import opened Arithmetic
  import opened Vm
  import VirtioDevice

  const DESCRIPTORS: nat := 64
  const BYTE: nat := 8
  const NEXT: nat := 1
  const DEVICE_WRITES: nat := 2
  const TYPE_IN: nat := 0

  type Bitmap = seq<seq<bool>>

  ghost predicate IsBitmap(m: Bitmap) { |m| == BYTE && forall i :: 0 <= i < BYTE ==> |m[i]| == BYTE }

  /** The descriptors whose bit is set. */
  ghost function FreeIn(m: Bitmap): set<nat>
    requires IsBitmap(m)
  {
    set i: nat | i < DESCRIPTORS && m[i / BYTE][i % BYTE]
  }

  lemma BitSet(m: Bitmap, i: nat, value: bool)
    requires IsBitmap(m) && i < DESCRIPTORS
    ensures var m' := m[i / BYTE := m[i / BYTE][i % BYTE := value]];
      IsBitmap(m') && FreeIn(m') == if value then FreeIn(m) + {i} else FreeIn(m) - {i}
  {
  }

  ghost predicate AllFree(free: set<nat>) { forall i: nat :: i < DESCRIPTORS <==> i in free }

  /** What the device finds when it is notified. */
  datatype Queue = Queue(descs: seq<VirtioDevice.Desc>, ring: seq<nat>, idx: nat, header: VirtioDevice.Header)

  datatype Request = Request(write: bool, buffer: nat, block: nat, length: nat, header: nat, status: nat) {
    predicate Aligned() { block % 512 == 0 && length % 512 == 0 }

    /** What the device is to find at the header's address: 1 stands for a write. */
    ghost function Header(): VirtioDevice.Header {
      VirtioDevice.Header(if write then 1 else 0, block / 512)
    }

    /** The device writes the buffer of a read. */
    function BufferFlags(): nat { if write then NEXT else NEXT + DEVICE_WRITES }
  }

  /** Three distinct descriptors, linked header to buffer to status: 16 bytes to read, the buffer, a byte to write. The
      buffer of a write is for the device to read (flags 1), that of a read is for it to write (flags 3). */
  ghost predicate Linked(descs: seq<VirtioDevice.Desc>, r: Request, a: nat, b: nat, c: nat)
  {
    && |descs| == DESCRIPTORS && a < |descs| && b < |descs| && c < |descs| && a != b && b != c && a != c
    && descs[a] == VirtioDevice.Desc(r.header, 16, 1, b)
    && descs[b] == VirtioDevice.Desc(r.buffer, VirtioDevice.Wrap32(r.length), if r.write then 1 else 3, c)
    && descs[c].address == r.status && descs[c].length == 1 && descs[c].flags == 2
  }

  /** How many bytes of the buffers of some descriptors the device may write. */
  ghost function DeviceWrites(descs: seq<VirtioDevice.Desc>, ids: seq<nat>): nat
    requires VirtioDevice.InTable(descs, ids)
  {
    if ids == [] then 0
    else (if descs[ids[0]].DeviceWritable() then descs[ids[0]].length else 0) + DeviceWrites(descs, ids[1..])
  }

  /** The device may write the buffer of a read and the status byte, and nothing else. */
  lemma Direction(descs: seq<VirtioDevice.Desc>, r: Request, a: nat, b: nat, c: nat)
    requires Linked(descs, r, a, b, c)
    ensures VirtioDevice.InTable(descs, [a, b, c])
    ensures DeviceWrites(descs, [a, b, c]) == if r.write then 1 else VirtioDevice.Wrap32(r.length) + 1
  {
    hide VirtioDevice.Wrap32;
    var ids := [a, b, c];
    assert ids[1..] == [b, c] && [b, c][1..] == [c] && [c][1..] == [];
    assert DeviceWrites(descs, []) == 0 && DeviceWrites(descs, [c]) == 1;
    assert descs[b].DeviceWritable() <==> !r.write;
    assert DeviceWrites(descs, [b, c]) == (if r.write then 0 else descs[b].length) + 1;
  }

  /** The three lowest free descriptors. */
  ghost predicate LowestThree(free: set<nat>, a: nat, b: nat, c: nat)
  {
    Least(free, a) && Least(free - {a}, b) && Least(free - {a, b}, c)
  }

  lemma TookOne(free: set<nat>, a: nat)
    requires Least(free, a) && free - {a} == {}
    ensures |free| < 3
  {
    assert free == {a};
  }

  lemma TookTwo(free: set<nat>, a: nat, b: nat)
    requires Least(free, a) && Least(free - {a}, b) && free - {a} - {b} == {}
    ensures |free| < 3
  {
    assert free == {a, b};
  }

  lemma TookThree(free: set<nat>, a: nat, b: nat, c: nat)
    requires Least(free, a) && Least(free - {a}, b) && Least(free - {a} - {b}, c)
    ensures LowestThree(free, a, b, c) && |free| >= 3 && a != b && b != c && a != c
    ensures free - {a} - {b} - {c} == free - {a, b, c}
  {
    assert free - {a} - {b} == free - {a, b};
    assert |free - {a} - {b}| >= 1;
  }

  class VirtioBlk {
    var bitmap: Bitmap
    var descs: seq<VirtioDevice.Desc>
    var ring: seq<nat>
    var idx: nat
    /** The queue at each notification. */
    ghost var notified: seq<Queue>

    ghost predicate Valid()
      reads this
    {
      IsBitmap(bitmap) && |descs| == DESCRIPTORS == |ring| && idx == VirtioDevice.Counter(|notified|)
    }

    ghost function Free(): set<nat>
      reads this
      requires Valid()
    {
      FreeIn(bitmap)
    }

    /** A zeroed queue and every descriptor free. */
    constructor ()
      ensures Valid() && AllFree(Free()) && notified == []
      ensures forall i :: 0 <= i < DESCRIPTORS ==> descs[i] == VirtioDevice.Desc(0, 0, 0, 0) && ring[i] == 0
    {
      bitmap := seq(BYTE, _ => seq(BYTE, _ => true));
      descs := seq(DESCRIPTORS, _ => VirtioDevice.Desc(0, 0, 0, 0));
      ring := seq(DESCRIPTORS, _ => 0);
      idx, notified := 0, [];
    }

    /** `allocate_descriptor`: takes the lowest free descriptor; fails only if there is none. */
    method AllocateDescriptor() returns (index: Option<nat>)
      requires Valid()
      modifies this`bitmap
      ensures Valid()
      ensures index.None? <==> old(Free()) == {}
      ensures index.None? ==> Free() == {}
      ensures index.Some? ==>
        && index.value < DESCRIPTORS && Least(old(Free()), index.value)
        && Free() == old(Free()) - {index.value}
    {
      for byte := 0 to BYTE
        invariant bitmap == old(bitmap) && forall i: nat | i < BYTE * byte :: i !in Free()
      {
        for bit := 0 to BYTE
          invariant bitmap == old(bitmap) && forall i: nat | i < BYTE * byte + bit :: i !in Free()
        {
          var i := byte * BYTE + bit;
          assert i / BYTE == byte && i % BYTE == bit;
          if bitmap[byte][bit] {
            assert i in Free();
            BitSet(bitmap, i, false);
            bitmap := bitmap[byte := bitmap[byte][bit := false]];
            return Some(i);
          }
        }
      }
      assert Free() == {};
      index := None;
    }

    /** `free_descriptor` */
    method FreeDescriptor(index: nat)
      requires Valid() && index < DESCRIPTORS
      modifies this`bitmap
      ensures Valid() && Free() == old(Free()) + {index}
    {
      BitSet(bitmap, index, true);
      bitmap := bitmap[index / BYTE := bitmap[index / BYTE][index % BYTE := true]];
    }

    /** The first part of `operation_sync`: three descriptors, filled and linked. It gives up, without giving anything
        back, when the pool has fewer than three. */
    method Prepare(r: Request) returns (ids: Option<(nat, nat, nat)>)
      requires Valid()
      modifies this`bitmap, this`descs
      ensures Valid()
      ensures ids.None? <==> |old(Free())| < 3
      ensures ids.None? ==> Free() == {}
      ensures ids.Some? ==> var (a, b, c) := ids.value;
        Linked(descs, r, a, b, c) && LowestThree(old(Free()), a, b, c) && Free() == old(Free()) - {a, b, c}
    {
      hide FreeIn, IsBitmap, LowestThree, Least;
      var first := AllocateDescriptor();
      if first.None? {
        return None;
      }
      var a := first.value;
      descs := descs[a := descs[a].(address := r.header, length := VirtioDevice.REQUEST_SIZE, flags := NEXT)];
      ghost var free := old(Free());
      var second := AllocateDescriptor();
      if second.None? {
        TookOne(free, a);
        return None;
      }
      var b := second.value;
      descs := descs[b := descs[b].(
        address := r.buffer, length := VirtioDevice.Wrap32(r.length), flags := r.BufferFlags())];
      descs := descs[a := descs[a].(next := b)];
      var third := AllocateDescriptor();
      if third.None? {
        TookTwo(free, a, b);
        return None;
      }
      var c := third.value;
      TookThree(free, a, b, c);
      descs := descs[c := descs[c].(address := r.status, length := 1, flags := DEVICE_WRITES)];
      descs := descs[b := descs[b].(next := c)];
      ids := Some((a, b, c));
    }

    /** `operation_sync`, where `reply` is the status that the device writes in the end. */
    method OperationSync(r: Request, reply: nat) returns (ok: bool)
      requires Valid() && reply != 0xFF
      modifies this
      ensures Valid()
      ensures !r.Aligned() ==>
        && !ok && bitmap == old(bitmap) && descs == old(descs) && ring == old(ring) && notified == old(notified)
      ensures r.Aligned() && |old(Free())| < 3 ==> !ok && Free() == {} && ring == old(ring) && notified == old(notified)
      ensures r.Aligned() && |old(Free())| >= 3 ==>
        && ok == (reply == 0) && Free() == old(Free())
        && notified == old(notified) + [Queue(descs, ring, idx, r.Header())]
        && exists a, b, c :: LowestThree(old(Free()), a, b, c) && Linked(descs, r, a, b, c)
             && ring == old(ring)[VirtioDevice.Slot(|old(notified)|, DESCRIPTORS) := a]
             && DeviceWrites(descs, [a, b, c]) == if r.write then 1 else VirtioDevice.Wrap32(r.length) + 1
    {
      hide FreeIn, IsBitmap;
      if r.block % 512 != 0 || r.length % 512 != 0 {
        return false;
      }
      var header := VirtioDevice.Header(if r.write then VirtioDevice.TYPE_OUT else TYPE_IN, r.block / 512);
      var ids := Prepare(r);
      if ids.None? {
        return false;
      }
      var (a, b, c) := ids.value;
      Direction(descs, r, a, b, c);
      VirtioDevice.CounterSlot(|notified|, DESCRIPTORS);
      VirtioDevice.CounterNext(|notified|);
      ring := ring[idx % DESCRIPTORS := a];
      idx := (idx + 1) % VirtioDevice.U16;
      notified := notified + [Queue(descs, ring, idx, header)];
      ok := reply == VirtioDevice.STATUS_OK;
      FreeDescriptor(a);
      FreeDescriptor(b);
      FreeDescriptor(c);
      assert Free() == old(Free());
    }

    /** With two free descriptors a request fails and leaves none. */
    method ExhaustedExample(r: Request)
      requires Valid() && Free() == {0, 1} && r.Aligned()
      modifies this
      ensures Valid() && Free() == {} && notified == old(notified)
    {
      var ok := OperationSync(r, VirtioDevice.STATUS_OK);
    }
  }

  // ---- Between requests, and at the device ----

  lemma {:induction false} FirstN(free: set<nat>, n: nat)
    requires forall i: nat :: i < n <==> i in free
    ensures |free| == n
  {
    if n > 0 {
      FirstN(free - {n - 1}, n - 1);
    } else {
      assert free == {};
    }
  }

  lemma LeastIs(s: set<nat>, m: nat, x: nat)
    requires Least(s, m)
    ensures Least(s, x) <==> x == m
  {
  }

  /** With every descriptor free, which each request leaves so, allocation cannot fail and the chain is 0, 1, 2. */
  lemma PoolNeverRunsOut(free: set<nat>, a: nat, b: nat, c: nat)
    requires AllFree(free)
    ensures |free| >= 3
    ensures LowestThree(free, a, b, c) <==> (a, b, c) == (0, 1, 2)
  {
    FirstN(free, DESCRIPTORS);
    assert 0 in free && 1 in free && 2 in free;
    LeastIs(free, 0, a);
    LeastIs(free - {0}, 1, b);
    LeastIs(free - {0, 1}, 2, c);
  }

  /** A request of one transfer is answered by how that goes. */
  lemma AnswerIs(g: VirtioDevice.Guest, head: nat, replies: seq<bool>, n: nat, status: nat)
    requires VirtioDevice.WellFormed(g, head) && |VirtioDevice.AccessesFor(g, head)| == 1
    requires var ids := VirtioDevice.ChainOf(g, head);
      VirtioDevice.Reachable(g, ids) && GetPhysicalAddress(g.vm, g.descs[ids[|ids| - 1]].address) == Some(status)
    ensures VirtioDevice.StatusFor(g, head, replies, n) == [(status, if n < |replies| && !replies[n] then 1 else 0)]
  {
    hide VirtioDevice.WellFormed, VirtioDevice.AccessesFor, VirtioDevice.Reachable, GetPhysicalAddress;
    VirtioDevice.NoneFail(replies, n);
    VirtioDevice.OneMoreSucceeds(replies, n, n);
  }

  /** The device side accepts what the driver side offers, finds every buffer for the right direction, makes exactly the
      transfer that was asked for, and answers 0 exactly if it succeeds. */
  lemma DeviceServesDriver(g: VirtioDevice.Guest, r: Request, a: nat, b: nat, c: nat,
                           header: nat, buffer: nat, status: nat)
    requires Linked(g.descs, r, a, b, c) && r.Aligned() && r.length < VirtioDevice.U32 - 1
    requires GetPhysicalAddress(g.vm, r.header) == Some(header) && GetPhysicalAddress(g.vm, r.buffer) == Some(buffer)
    requires GetPhysicalAddress(g.vm, r.status) == Some(status)
    requires header in g.headers && g.headers[header] == r.Header()
    ensures VirtioDevice.WellFormed(g, a) && VirtioDevice.FlagsAllow(g, a)
    ensures VirtioDevice.AccessesFor(g, a) == [VirtioDevice.Access(r.write, buffer, r.block, r.length)]
    ensures VirtioDevice.UsedFor(g, a) == VirtioDevice.Used(a, r.length + 1)
    ensures forall replies: seq<bool>, n: nat ::
      VirtioDevice.StatusFor(g, a, replies, n) == [(status, if n < |replies| && !replies[n] then 1 else 0)]
  {
    var ids := [b, c];
    assert ids[1..] == [c] && [c][1..] == [];
    assert VirtioDevice.ChainFrom(g.descs, c, [c]);
    assert VirtioDevice.ChainFrom(g.descs, b, ids);
    VirtioDevice.ChainUnique(g.descs, b, ids, VirtioDevice.ChainOf(g, a));
    assert VirtioDevice.InTable(g.descs, [c]);
    assert VirtioDevice.Transfers(g, [c], r.write, r.block + r.length) == [];
    assert VirtioDevice.DataLength(g.descs, ids) == r.length;
    assert VirtioDevice.Reachable(g, [c]) && VirtioDevice.Reachable(g, ids);
    forall replies: seq<bool>, n: nat
      ensures VirtioDevice.StatusFor(g, a, replies, n) == [(status, if n < |replies| && !replies[n] then 1 else 0)]
    {
      AnswerIs(g, a, replies, n, status);
    }
  }
}
