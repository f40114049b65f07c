/** The emulated PL011 receive side: a four-byte buffer in which zero marks a free slot, and the interrupt registers. */
module Pl011 {
  const SLOTS: nat := 4

  /** RXFE of the flag register, RXIM of the mask register and RXRIS of the raw status share one position. */
  const RX: bv16 := 0x10

  predicate RxBit(register: bv16) { register & RX != 0 }

  /** The queued bytes: those in front of the first free slot. */
  function Queue(b: seq<nat>): (q: seq<nat>)
    ensures |q| <= |b| && q == b[..|q|] && (|q| < |b| ==> b[|q|] == 0) && forall i :: 0 <= i < |q| ==> q[i] != 0
  {
    if b == [] || b[0] == 0 then [] else [b[0]] + Queue(b[1..])
  }

  lemma {:induction false} QueueIs(b: seq<nat>, n: nat)
    requires n <= |b| && (n < |b| ==> b[n] == 0) && forall i :: 0 <= i < n ==> b[i] != 0
    ensures Queue(b) == b[..n]
  {
    if n > 0 {
      QueueIs(b[1..], n - 1);
      assert b[..n] == [b[0]] + b[1..][..n - 1];
    }
  }

  /** Nothing but free slots behind the queue. */
  ghost predicate Tidy(b: seq<nat>) { forall i :: |Queue(b)| <= i < |b| ==> b[i] == 0 }

  /** The queue after a byte arrives: NUL cannot be told from a free slot, and a full buffer drops the byte. */
  function Arrived(q: seq<nat>, data: nat): seq<nat> { if data != 0 && |q| < SLOTS then q + [data] else q }

  /** The queue after a read: a full one repeats its last byte, because the shift leaves the last slot as it was. */
  function Taken(q: seq<nat>): seq<nat>
  {
    if q == [] then [] else if |q| < SLOTS then q[1..] else q[1..] + [q[|q| - 1]]
  }

  lemma Stored(b: seq<nat>, i: nat, data: nat)
    requires |b| == SLOTS && Tidy(b) && i < SLOTS && i == |Queue(b)|
    ensures Tidy(b[i := data]) && Queue(b[i := data]) == Arrived(Queue(b), data)
  {
    QueueIs(b[i := data], if data != 0 then i + 1 else i);
  }

  lemma TidyQueue(b: seq<nat>, n: nat)
    requires n <= |b| && (forall i :: 0 <= i < n ==> b[i] != 0) && forall i :: n <= i < |b| ==> b[i] == 0
    ensures Tidy(b) && Queue(b) == b[..n]
  {
    QueueIs(b, n);
  }

  lemma TidyParts(b: seq<nat>)
    requires Tidy(b)
    ensures var n := |Queue(b)|;
      && n <= |b| && Queue(b) == b[..n]
      && (forall i :: 0 <= i < n ==> b[i] != 0) && forall i :: n <= i < |b| ==> b[i] == 0
  {
    hide Queue;
    assert forall i :: 0 <= i < |Queue(b)| ==> b[i] == Queue(b)[i];
  }

  lemma Shifted(b: seq<nat>)
    requires |b| == SLOTS && Tidy(b)
    ensures var b' := b[1..] + [b[3]];
      Tidy(b') && Queue(b') == Taken(Queue(b)) && (b'[0] == 0 <==> Queue(b') == [])
  {
    hide Queue, Tidy, Taken;
    var n, b' := |Queue(b)|, b[1..] + [b[3]];
    ShiftedTo(b, n);
    TidyParts(b);
    TidyQueue(b', if n == SLOTS then n else if n == 0 then 0 else n - 1);
  }

  lemma ShiftedTo(b: seq<nat>, n: nat)
    requires |b| == SLOTS && n <= SLOTS
    ensures var b', m := b[1..] + [b[3]], if n == SLOTS then n else if n == 0 then 0 else n - 1;
      b'[..m] == Taken(b[..n])
  {
  }

  /** No status bit but the receive one. */
  predicate OnlyRx(register: bv16) { register & !RX == 0 }

  function SetRx(register: bv16): (r: bv16)
    ensures RxBit(r) && (OnlyRx(register) ==> OnlyRx(r))
  {
    register | RX
  }

  function ClearRx(register: bv16): (r: bv16)
    ensures !RxBit(r) && (OnlyRx(register) ==> OnlyRx(r))
  {
    register & !RX
  }

  /** The receive bit is bit 4, and no other one changes. */
  lemma OthersKept(register: bv16)
    ensures SetRx(register) ^ register == if register & 0x10 == 0 then 0x10 else 0
    ensures ClearRx(register) ^ register == register & 0x10
  {
  }

  /** Writing the clear register only clears, so no other status bit appears. */
  lemma ClearedBits(status: bv16, value: bv16)
    requires OnlyRx(status)
    ensures OnlyRx(status & !value) && (RxBit(status & !value) <==> RxBit(status) && !RxBit(value))
  {
  }

  lemma SharedBits(status: bv16, mask: bv16)
    requires OnlyRx(status)
    ensures status & mask != 0 <==> RxBit(status) && RxBit(mask)
  {
  }

  class Receiver {
    var buffer: array<nat>
    var flag: bv16
    var interruptMask: bv16
    var rawInterruptStatus: bv16

    ghost predicate Valid()
      reads this, buffer
    {
      buffer.Length == SLOTS && Tidy(buffer[..]) && OnlyRx(rawInterruptStatus)
    }

    ghost function Queued(): seq<nat>
      reads this, buffer
    {
      Queue(buffer[..])
    }

    constructor ()
      ensures Valid() && fresh(buffer) && Queued() == [] && !RxBit(interruptMask) && !RxBit(rawInterruptStatus)
    {
      buffer := new nat[SLOTS](_ => 0);
      flag, interruptMask, rawInterruptStatus := 0, 0, 0;
      new;
      QueueIs(buffer[..], 0);
    }

    /** The byte goes into the first free slot, if there is one. */
    method Store(data: nat)
      requires buffer.Length == SLOTS && Tidy(buffer[..])
      modifies buffer
      ensures Tidy(buffer[..]) && Queued() == Arrived(old(Queued()), data)
    {
      hide Queue, Tidy;
      ghost var q := Queued();
      for i := 0 to SLOTS
        invariant i <= |q| && buffer[..] == old(buffer[..])
      {
        if buffer[i] == 0 {
          Stored(buffer[..], i, data);
          ghost var b := buffer[..][i := data];
          buffer[i] := data;
          assert buffer[..] == b;
          break;
        }
      }
    }

    /** `push`: the raw status is set, and an interrupt asked for, exactly when receive interrupts are unmasked. */
    method Push(data: nat) returns (inject: bool)
      requires Valid()
      modifies this`flag, this`rawInterruptStatus, buffer
      ensures Valid() && Queued() == Arrived(old(Queued()), data) && !RxBit(flag)
      ensures inject == RxBit(interruptMask)
      ensures RxBit(rawInterruptStatus) == (old(RxBit(rawInterruptStatus)) || inject)
    {
      hide Queue, Tidy, RxBit, OnlyRx, SetRx, ClearRx;
      Store(data);
      flag := ClearRx(flag);
      inject := RxBit(interruptMask);
      if inject {
        rawInterruptStatus := SetRx(rawInterruptStatus);
      }
    }

    /** Every byte moves one slot to the front; the last slot keeps its byte. */
    method Shift()
      requires buffer.Length == SLOTS
      modifies buffer
      ensures buffer[..] == old(buffer[1..]) + [old(buffer[3])]
    {
      ghost var b := buffer[..];
      for i := 1 to SLOTS
        invariant buffer[..] == b[1..i] + [b[i - 1]] + b[i..]
      {
        buffer[i - 1] := buffer[i];
      }
    }

    /** The read of the data register. Reading the last byte lowers the raw status. */
    method ReadData() returns (value: nat)
      requires Valid()
      modifies this`flag, this`rawInterruptStatus, buffer
      ensures Valid() && Queued() == Taken(old(Queued()))
      ensures value == if old(Queued()) == [] then 0 else old(Queued()[0])
      ensures RxBit(rawInterruptStatus) == (old(RxBit(rawInterruptStatus)) && Queued() != [])
    {
      hide Queue, Tidy, RxBit, OnlyRx, SetRx, ClearRx;
      Shifted(buffer[..]);
      value := buffer[0];
      Shift();
      if buffer[0] == 0 {
        flag, rawInterruptStatus := SetRx(flag), ClearRx(rawInterruptStatus);
      }
    }

    method WriteMask(value: bv64)
      requires Valid()
      modifies this`interruptMask
      ensures Valid() && RxBit(interruptMask) == RxBit((value & 0xFFFF) as bv16)
    {
      interruptMask := (value & 0xFFFF) as bv16;
    }

    method WriteClear(value: bv64)
      requires Valid()
      modifies this`rawInterruptStatus
      ensures Valid()
      ensures RxBit(rawInterruptStatus) == (old(RxBit(rawInterruptStatus)) && !RxBit((value & 0xFFFF) as bv16))
    {
      hide Queue, Tidy, RxBit, OnlyRx;
      ClearedBits(rawInterruptStatus, (value & 0xFFFF) as bv16);
      rawInterruptStatus := rawInterruptStatus & !((value & 0xFFFF) as bv16);
    }

    /** `is_rx_pending` compares whole registers; only the receive bit can make the difference. */
    method IsRxPending() returns (pending: bool)
      requires Valid()
      ensures pending == (RxBit(rawInterruptStatus) && RxBit(interruptMask))
    {
      SharedBits(rawInterruptStatus, interruptMask);
      pending := rawInterruptStatus & interruptMask != 0;
    }
  }
}
