/** The guest's view of memory set up by `create_vm`: RAM through stage-2 tables, devices through
    trapped accesses. */
module Vm {
  import opened Options
  import opened Descriptor
  import opened Geometry
  import opened Stage2
  import opened Stage2Update
  import opened Paging

  datatype MmioEntry = MmioEntry(base: nat, length: nat)

  datatype VM = VM(ramVirtualBase: nat, ramPhysicalBase: nat, ramSize: nat, mmio: seq<MmioEntry>)

  datatype Board = Qemu | Rpi4

  const GUEST_RAM_BASE: nat := 0x4000_0000
  const RAM_SIZE: nat := 0x1000_0000

  function Devices(board: Board): seq<MmioEntry> {
    match board
    case Qemu => [MmioEntry(0x900_0000, 0x1000), MmioEntry(0xa00_0000, 0x200),
                  MmioEntry(0x800_0000, 0x1_0000), MmioEntry(0x80a_0000, 0x2_0000)]
    case Rpi4 => [MmioEntry(0x900_0000, 0x1000), MmioEntry(0x800_0000, 0x1_0000), MmioEntry(0x801_0000, 0x1_0000)]
  }

  function GetPhysicalAddress(vm: VM, x: nat): Option<nat> {
    if vm.ramVirtualBase <= x < vm.ramVirtualBase + vm.ramSize
    then Some(x - vm.ramVirtualBase + vm.ramPhysicalBase)
    else None
  }

  predicate Claims(e: MmioEntry, x: nat) { e.base <= x < e.base + e.length }

  /** The search of `handle_mmio_read` and `handle_mmio_write`: the first entry that claims the address. */
  method Dispatch(vm: VM, x: nat) returns (r: Option<nat>)
    ensures r.Some? ==> r.value < |vm.mmio| && var e := vm.mmio[r.value]; e.base <= x < e.base + e.length
    ensures r.Some? ==> forall i :: 0 <= i < r.value ==> !Claims(vm.mmio[i], x)
    ensures r.None? ==> forall i :: 0 <= i < |vm.mmio| ==> !Claims(vm.mmio[i], x)
  {
    for i := 0 to |vm.mmio|
      invariant forall j :: 0 <= j < i ==> !Claims(vm.mmio[j], x)
    {
      if Claims(vm.mmio[i], x) {
        return Some(i);
      }
    }
    return None;
  }

  ghost predicate AgreeAt(vm: VM, m: Memory, root: nat, level: Level, count: nat, x: nat)
    requires count > 0
  {
    var w := Walk(m, root, level, count, x);
    match GetPhysicalAddress(vm, x)
    case None => w == Fault
    case Some(a) => Yields(w, a, true, true)
  }

  /** The top table reaches `x` and translates it to nothing. */
  ghost predicate Traps(m: Memory, root: nat, level: Level, count: nat, x: nat)
    requires count > 0
  {
    x < Extent(level, count) && Walk(m, root, level, count, x) == Fault
  }

  /** The tables the MMU walks translate exactly what `get_physical_address` translates, to the same
      address, readable, writable and executable; and every access a device entry claims traps. */
  ghost predicate Agree(vm: VM, m: Memory, root: nat, level: Level, count: nat)
    requires count > 0
  {
    && (forall x: nat :: x < Extent(level, count) ==> AgreeAt(vm, m, root, level, count, x))
    && (forall i, x: nat :: 0 <= i < |vm.mmio| && Claims(vm.mmio[i], x) ==> Traps(m, root, level, count, x))
  }

  /** At most one device claims an address, so the order of the entries does not matter. */
  lemma OneDevice(board: Board, i: nat, j: nat, x: nat)
    requires i < |Devices(board)| && j < |Devices(board)|
    requires Claims(Devices(board)[i], x) && Claims(Devices(board)[j], x)
    ensures i == j
  {
  }

  ghost predicate Claimed(board: Board, x: nat) {
    exists i :: 0 <= i < |Devices(board)| && Claims(Devices(board)[i], x)
  }

  /** The guest's devices: interrupt controller, UART and, on one board, the disk. */
  lemma DeviceMap(x: nat)
    ensures Claimed(Qemu, x) <==>
      || 0x800_0000 <= x < 0x801_0000 || 0x80a_0000 <= x < 0x80c_0000
      || 0x900_0000 <= x < 0x900_1000 || 0xa00_0000 <= x < 0xa00_0200
    ensures Claimed(Rpi4, x) <==> 0x800_0000 <= x < 0x802_0000 || 0x900_0000 <= x < 0x900_1000
  {
    var q, r := Devices(Qemu), Devices(Rpi4);
    assert Claimed(Qemu, x) <==> Claims(q[0], x) || Claims(q[1], x) || Claims(q[2], x) || Claims(q[3], x);
    assert Claimed(Rpi4, x) <==> Claims(r[0], x) || Claims(r[1], x) || Claims(r[2], x);
  }

  /** The part of `create_vm` that builds the guest address space. */
  method CreateVm(board: Board, mem: array<Word>, table: nat, parange: nat, pages: seq<nat>, ram: nat)
    returns (ok: bool, vm: VM, tables: TranslationTable)
    requires var (t0sz, first) := AddressSpace(parange);
      && table % PAGE_SIZE == 0 && table / 8 + 512 * NumberOfTables(t0sz, first) <= mem.Length
      && PoolFree(mem.Length, map[table := Label(first, 0, 512 * NumberOfTables(t0sz, first), table, 0)], pages)
    requires Within(3, ram) == 0 && ram + RAM_SIZE <= ADDRESS_LIMIT
    modifies mem
    ensures tables.Valid() && vm == VM(0x4000_0000, ram, 0x1000_0000, Devices(board))
    ensures ok ==> Agree(vm, tables.mem[..], tables.root, tables.level, tables.count)
    ensures !ok ==> tables.pool == []
  {
    vm := VM(GUEST_RAM_BASE, ram, RAM_SIZE, Devices(board));
    tables := new TranslationTable(mem, table, parange, pages);
    CoversGuest(parange);
    ghost var m := tables.mem[..];
    assert forall x: nat :: Walk(m, table, tables.level, tables.count, x) == tables.Translate(x);
    ghost var mid;
    ok, mid := tables.Map(ram, GUEST_RAM_BASE, RAM_SIZE, true, true);
    if ok {
      MappedAgrees(tables, vm, m, tables.mem[..], ram, board);
    }
  }

  lemma CoversGuest(parange: nat)
    ensures var (t0sz, first) := AddressSpace(parange);
      Extent(first, 512 * NumberOfTables(t0sz, first)) >= GUEST_RAM_BASE + RAM_SIZE
    ensures Within(3, GUEST_RAM_BASE) == Within(3, RAM_SIZE) == 0
  {
    var (t0sz, first) := AddressSpace(parange);
    assert NumberOfTables(t0sz, first) >= 1;
  }

  lemma DeviceBelowRam(board: Board, i: nat, x: nat)
    requires i < |Devices(board)| && Claims(Devices(board)[i], x)
    ensures x < GUEST_RAM_BASE
  {
  }

  lemma MappedAgrees(tables: TranslationTable, vm: VM, m: Memory, m': Memory, ram: nat, board: Board)
    requires tables.count > 0 && tables.Coverage() >= GUEST_RAM_BASE + RAM_SIZE
    requires vm == VM(GUEST_RAM_BASE, ram, RAM_SIZE, Devices(board))
    requires forall x: nat :: Walk(m, tables.root, tables.level, tables.count, x) == Fault
    requires tables.MappedAll(m, m', GUEST_RAM_BASE, GUEST_RAM_BASE + RAM_SIZE, ram, true, true)
    ensures Agree(vm, m', tables.root, tables.level, tables.count)
  {
    hide Walk, Extent;
    forall x: nat | x < tables.Coverage()
      ensures AgreeAt(vm, m', tables.root, tables.level, tables.count, x)
    {
      var was := Walk(m, tables.root, tables.level, tables.count, x);
      var now := Walk(m', tables.root, tables.level, tables.count, x);
      assert Remapped(was, now, x, GUEST_RAM_BASE, GUEST_RAM_BASE + RAM_SIZE, ram, true, true);
    }
    forall i, x: nat | 0 <= i < |vm.mmio| && Claims(vm.mmio[i], x)
      ensures Traps(m', tables.root, tables.level, tables.count, x)
    {
      DeviceBelowRam(board, i, x);
      assert AgreeAt(vm, m', tables.root, tables.level, tables.count, x);
    }
  }
}
