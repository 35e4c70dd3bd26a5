/**
 The translation tables of mmu.c, and the walk the hardware makes through them (4KiB granule, T0SZ = 32: an
 L1 table of 1GiB entries, then L2 tables of 2MiB entries; section D8.3 of Arm ARM DDI 0487).
 */
module Mmu {
  import opened Bits
  import opened PageAlloc

  const TABLE_ENTRIES: nat := 512
  const BLOCK_SIZE: nat := 0x20_0000
  const GIC_BASE: nat := 0x0800_0000
  const UART_BASE: nat := 0x0900_0000

  const DESC_VALID: nat := 1
  const DESC_TABLE: nat := 2
  const DESC_BLOCK: nat := 1
  const DESC_AF: nat := 0x400
  const SH_OUTER: nat := 0x200
  const SH_INNER: nat := 0x300
  const DESC_PXN: nat := 0x20_0000_0000_0000
  const DESC_UXN: nat := 0x40_0000_0000_0000
  const TABLE_OUTPUT_MASK: nat := 0x0000_ffff_ffff_f000
  const OUTPUT_MASK: nat := 0x0000_ffff_ffe0_0000

  /** Attr0 = Device-nGnRnE, Attr1 = Normal write-back. */
  const MAIR: nat := 0xff00

  function AttrIndex(index: nat): nat {
    index * 4
  }

  function DeviceAttributes(): nat {
    Or(Or(Or(AttrIndex(0), SH_OUTER), DESC_PXN), DESC_UXN)
  }

  function RamAttributes(): nat {
    Or(Or(AttrIndex(1), SH_INNER), DESC_UXN)
  }

  function TableDescriptor(table: nat): nat {
    Or(Or(And(table, TABLE_OUTPUT_MASK), DESC_VALID), DESC_TABLE)
  }

  function BlockDescriptor(address: nat, attributes: nat): nat {
    Or(Or(Or(And(address, OUTPUT_MASK), DESC_BLOCK), DESC_AF), attributes)
  }

  // ---- The walk ----

  /** The three tables, and where two of them are in memory. */
  datatype Tables = Tables(level1: seq<nat>, device: seq<nat>, ram: seq<nat>, deviceAt: nat, ramAt: nat)

  datatype Translation =
    | Fault
    | Mapped(address: nat, attr: nat, access: nat, shareability: nat, pxn: bool, uxn: bool)

  function Bit(descriptor: nat, bit: nat): bool {
    descriptor / Pow2(bit) % 2 == 1
  }

  /** What an L2 descriptor says about an address: nothing unless it is a valid block with its access flag set. */
  function WalkBlock(descriptor: nat, va: nat): Translation {
    if !Bit(descriptor, 0) || Bit(descriptor, 1) || !Bit(descriptor, 10) then Fault
    else
      Mapped(descriptor / BLOCK_SIZE % 0x800_0000 * BLOCK_SIZE + va % BLOCK_SIZE,
             MAIR / Pow2(8 * (descriptor / 4 % 8)) % 0x100,
             descriptor / 0x40 % 4,
             descriptor / 0x100 % 4,
             Bit(descriptor, 53), Bit(descriptor, 54))
  }

  /** The walk of a virtual address; above 32 bits, nothing is translated. */
  function Walk(tables: Tables, va: nat): Translation
    requires |tables.level1| == |tables.device| == |tables.ram| == TABLE_ENTRIES
  {
    if va >= TWO_32 then Fault
    else
      var first := tables.level1[va / 0x4000_0000];
      if !Bit(first, 0) || !Bit(first, 1) then Fault
      else
        var next := first / 0x1000 % 0x10_0000_0000 * 0x1000;
        var index := va / BLOCK_SIZE % TABLE_ENTRIES;
        if next == tables.deviceAt then WalkBlock(tables.device[index], va)
        else if next == tables.ramAt then WalkBlock(tables.ram[index], va)
        else Fault
  }

  // ---- The tables as built ----

  function Index(address: nat): nat {
    And(address / BLOCK_SIZE, 0x1ff)
  }

  function Level1Entry(i: nat, deviceAt: nat, ramAt: nat): nat {
    if i == 0 then TableDescriptor(deviceAt) else if i == 1 then TableDescriptor(ramAt) else 0
  }

  function DeviceEntry(i: nat): nat {
    if i == Index(GIC_BASE) then BlockDescriptor(GIC_BASE, DeviceAttributes())
    else if i == Index(UART_BASE) then BlockDescriptor(UART_BASE, DeviceAttributes())
    else 0
  }

  function RamEntry(i: nat): nat {
    if i < 64 then BlockDescriptor(RAM_START + i * BLOCK_SIZE, RamAttributes()) else 0
  }

  ghost predicate Built(t: Tables) {
    && |t.level1| == |t.device| == |t.ram| == TABLE_ENTRIES
    && (forall i :: 0 <= i < TABLE_ENTRIES ==> t.level1[i] == Level1Entry(i, t.deviceAt, t.ramAt))
    && (forall i :: 0 <= i < TABLE_ENTRIES ==> t.device[i] == DeviceEntry(i))
    && (forall i :: 0 <= i < TABLE_ENTRIES ==> t.ram[i] == RamEntry(i))
  }

  /** Tables are page-aligned, lie below 2^48, and are different. */
  predicate Placed(deviceAt: nat, ramAt: nat) {
    && deviceAt % 0x1000 == 0 && ramAt % 0x1000 == 0
    && deviceAt < 0x1_0000_0000_0000 && ramAt < 0x1_0000_0000_0000 && deviceAt != ramAt
  }

  // ---- Fields of the descriptors ----

  lemma TableMask(table: nat)
    requires table % 0x1000 == 0 && table < 0x1_0000_0000_0000
    ensures And(table, TABLE_OUTPUT_MASK) == table
  {
    hide And;
    PowersOfTwo();
    AndFieldMask(table, 12, 36);
  }

  lemma BlockMask(address: nat)
    requires address % BLOCK_SIZE == 0 && address < 0x1_0000_0000_0000
    ensures And(address, OUTPUT_MASK) == address
  {
    hide And;
    PowersOfTwo();
    AndFieldMask(address, 21, 27);
  }

  lemma IndexIs(address: nat)
    ensures Index(address) == address / BLOCK_SIZE % TABLE_ENTRIES
  {
    hide And;
    PowersOfTwo();
    AndLowMask(address / BLOCK_SIZE, 9);
  }

  lemma TableDescriptorIs(table: nat)
    requires table % 0x1000 == 0 && table < 0x1_0000_0000_0000
    ensures TableDescriptor(table) == table + 3
  {
    hide And;
    PowersOfTwo();
    TableMask(table);
    OrAligned(table / 0x1000, 0, 1, 12);
    OrAligned(table / 0x1000, 1, 2, 12);
  }

  lemma AttributesAre()
    ensures DeviceAttributes() == 96 * 0x1_0000_0000_0000 + 0x200
    ensures RamAttributes() == 64 * 0x1_0000_0000_0000 + 0x304
  {
    hide Or;
    PowersOfTwo();
    OrNothing(SH_OUTER);
    OrDisjoint(0x300, 4, 8);
    OrCommutes(0x300, 4);
    OrDisjoint(DESC_PXN, 0x200, 12);
    OrCommutes(DESC_PXN, 0x200);
    OrDisjoint(DESC_UXN, DESC_PXN + 0x200, 54);
    OrCommutes(DESC_UXN, DESC_PXN + 0x200);
    OrDisjoint(DESC_UXN, 0x304, 54);
    OrCommutes(DESC_UXN, 0x304);
  }

  /** A block descriptor is its address with the low and high attribute bits beside it. */
  lemma BlockDescriptorIs(address: nat, attributes: nat, high: nat, low: nat)
    requires address % BLOCK_SIZE == 0 && address < 0x1_0000_0000_0000
    requires attributes == high * 0x1_0000_0000_0000 + low && low < BLOCK_SIZE
    ensures BlockDescriptor(address, attributes) == high * 0x1_0000_0000_0000 + address + Or(0x401, low)
  {
    hide And, Or;
    PowersOfTwo();
    BlockMask(address);
    var q := address / BLOCK_SIZE;
    OrAligned(q, 0, 1, 21);
    OrNothing(1);
    OrAligned(q, 1, 0x400, 21);
    OrLiteral();
    OrAligned(high, low, address + 0x401, 48);
    OrCommutes(address + 0x401, attributes);
    OrCommutes(address + 0x401, low);
    OrAligned(q, 0x401, low, 21);
  }

  lemma OrLiteral()
    ensures Or(1, 0x400) == 0x401 && Or(0x401, 0x200) == 0x601 && Or(0x401, 0x304) == 0x705
  {
    hide Or;
    PowersOfTwo();
    OrDisjoint(0x400, 1, 10);
    OrCommutes(0x400, 1);
    OrAligned(1, 1, 0x200, 10);
    OrDisjoint(0x200, 1, 8);
    OrCommutes(0x200, 1);
    OrAligned(1, 1, 0x304, 10);
    OrDisjoint(0x304, 1, 1);
    OrCommutes(0x304, 1);
  }

  lemma DeviceBlockIs(address: nat)
    requires address % BLOCK_SIZE == 0 && address < 0x1_0000_0000_0000
    ensures BlockDescriptor(address, DeviceAttributes()) == 96 * 0x1_0000_0000_0000 + address + 0x601
  {
    hide And, Or, BlockDescriptor;
    AttributesAre();
    OrLiteral();
    BlockDescriptorIs(address, DeviceAttributes(), 96, 0x200);
  }

  lemma RamBlockIs(address: nat)
    requires address % BLOCK_SIZE == 0 && address < 0x1_0000_0000_0000
    ensures BlockDescriptor(address, RamAttributes()) == 64 * 0x1_0000_0000_0000 + address + 0x705
  {
    hide And, Or, BlockDescriptor;
    AttributesAre();
    OrLiteral();
    BlockDescriptorIs(address, RamAttributes(), 64, 0x304);
  }

  // ---- The identity ----

  predicate InBlock(va: nat, base: nat) {
    base <= va < base + BLOCK_SIZE
  }

  /** Device memory, the kernel's alone, shared, never executable. */
  function DeviceAt(va: nat): Translation {
    Mapped(va, 0x00, 0, 2, true, true)
  }

  /** Normal write-back memory, the kernel's alone to read, write and execute, shared. */
  function NormalAt(va: nat): Translation {
    Mapped(va, 0xff, 0, 3, false, true)
  }

  /** The fields of a descriptor, read off its low 21 bits and its high 16. */
  lemma DescriptorFields(high: nat, address: nat, low: nat)
    requires address % BLOCK_SIZE == 0 && address < TWO_32 && low < BLOCK_SIZE
    ensures var d := high * 0x1_0000_0000_0000 + address + low;
      && d % 2 == low % 2 && d / 2 % 2 == low / 2 % 2 && d / 0x400 % 2 == low / 0x400 % 2
      && d / 4 % 8 == low / 4 % 8 && d / 0x40 % 4 == low / 0x40 % 4 && d / 0x100 % 4 == low / 0x100 % 4
      && d / BLOCK_SIZE % 0x800_0000 * BLOCK_SIZE == address
      && d / 0x20_0000_0000_0000 % 2 == high / 32 % 2 && d / 0x40_0000_0000_0000 % 2 == high / 64 % 2
  {
    var m := high * 0x800_0000 + address / BLOCK_SIZE;
    var d := m * BLOCK_SIZE + low;
    LowFields(m, low);
    DivModUnique(d, BLOCK_SIZE, m, low);
    DivModUnique(m, 0x800_0000, high, address / BLOCK_SIZE);
    HighBit(high, address + low);
  }

  lemma LowFields(m: nat, low: nat)
    requires low < BLOCK_SIZE
    ensures var d := m * BLOCK_SIZE + low;
      && d % 2 == low % 2 && d / 2 % 2 == low / 2 % 2 && d / 0x400 % 2 == low / 0x400 % 2
      && d / 4 % 8 == low / 4 % 8 && d / 0x40 % 4 == low / 0x40 % 4 && d / 0x100 % 4 == low / 0x100 % 4
  {
    var d := m * BLOCK_SIZE + low;
    DivModUnique(d, 2, m * 0x10_0000 + low / 2, low % 2);
    DivModUnique(d / 2, 2, m * 0x8_0000 + low / 2 / 2, low / 2 % 2);
    DivModUnique(d, 0x400, m * 0x800 + low / 0x400, low % 0x400);
    DivModUnique(d / 0x400, 2, m * 0x400 + low / 0x400 / 2, low / 0x400 % 2);
    DivModUnique(d, 4, m * 0x8_0000 + low / 4, low % 4);
    DivModUnique(d / 4, 8, m * 0x1_0000 + low / 4 / 8, low / 4 % 8);
    DivModUnique(d, 0x40, m * 0x8000 + low / 0x40, low % 0x40);
    DivModUnique(d / 0x40, 4, m * 0x2000 + low / 0x40 / 4, low / 0x40 % 4);
    DivModUnique(d, 0x100, m * 0x2000 + low / 0x100, low % 0x100);
    DivModUnique(d / 0x100, 4, m * 0x800 + low / 0x100 / 4, low / 0x100 % 4);
  }

  lemma HighBit(high: nat, rest: nat)
    requires rest < 0x1_0000_0000_0000
    ensures var d := high * 0x1_0000_0000_0000 + rest;
      d / 0x20_0000_0000_0000 % 2 == high / 32 % 2 && d / 0x40_0000_0000_0000 % 2 == high / 64 % 2
  {
  }

  lemma WalkGivenFields(d: nat, va: nat, base: nat, index: nat, shareability: nat, pxn: nat, uxn: nat)
    requires d % 2 == 1 && d / 2 % 2 == 0 && d / 0x400 % 2 == 1
    requires d / 4 % 8 == index < 2 && d / 0x40 % 4 == 0 && d / 0x100 % 4 == shareability
    requires d / BLOCK_SIZE % 0x800_0000 * BLOCK_SIZE == base && base + va % BLOCK_SIZE == va
    requires d / 0x20_0000_0000_0000 % 2 == pxn && d / 0x40_0000_0000_0000 % 2 == uxn
    ensures WalkBlock(d, va) == Mapped(va, if index == 0 then 0x00 else 0xff, 0, shareability, pxn == 1, uxn == 1)
  {
    hide Pow2;
    PowersOfTwo();
  }

  lemma WalkDeviceBlock(va: nat, base: nat)
    requires base % BLOCK_SIZE == 0 && InBlock(va, base) && va < TWO_32
    ensures WalkBlock(BlockDescriptor(base, DeviceAttributes()), va) == DeviceAt(va)
  {
    hide BlockDescriptor, DeviceAttributes, WalkBlock;
    DeviceBlockIs(base);
    DescriptorFields(96, base, 0x601);
    DivModUnique(va, BLOCK_SIZE, base / BLOCK_SIZE, va - base);
    WalkGivenFields(BlockDescriptor(base, DeviceAttributes()), va, base, 0, 2, 1, 1);
  }

  lemma WalkRamBlock(va: nat, base: nat)
    requires base % BLOCK_SIZE == 0 && InBlock(va, base) && va < TWO_32
    ensures WalkBlock(BlockDescriptor(base, RamAttributes()), va) == NormalAt(va)
  {
    hide BlockDescriptor, RamAttributes, WalkBlock;
    RamBlockIs(base);
    DescriptorFields(64, base, 0x705);
    DivModUnique(va, BLOCK_SIZE, base / BLOCK_SIZE, va - base);
    WalkGivenFields(BlockDescriptor(base, RamAttributes()), va, base, 1, 3, 0, 1);
  }

  lemma WalkNothing(va: nat)
    ensures WalkBlock(0, va) == Fault
  {
    PowersOfTwo();
  }

  /** The tables map the two device blocks and RAM to themselves, with the right attributes, and nothing else. */
  lemma WalkIsIdentity(t: Tables, va: nat)
    requires Built(t) && Placed(t.deviceAt, t.ramAt)
    ensures Walk(t, va) ==
      if InBlock(va, GIC_BASE) || InBlock(va, UART_BASE) then DeviceAt(va)
      else if RAM_START <= va < RAM_END then NormalAt(va)
      else Fault
  {
    hide WalkBlock, BlockDescriptor, TableDescriptor, And, Pow2, Index, Walk;
    if va < TWO_32 {
      WalkLevel1(t, va);
      WalkNothing(va);
      IndexIs(GIC_BASE);
      IndexIs(UART_BASE);
      var index := va / BLOCK_SIZE % TABLE_ENTRIES;
      if va < 0x4000_0000 {
        WalkDevices(va);
      } else if va < 0x8000_0000 {
        WalkRam(va);
      }
    } else {
      WalkAbove(t, va);
    }
  }

  lemma WalkAbove(t: Tables, va: nat)
    requires Built(t) && va >= TWO_32
    ensures Walk(t, va) == Fault
  {
  }

  lemma WalkDevices(va: nat)
    requires va < 0x4000_0000
    ensures WalkBlock(DeviceEntry(va / BLOCK_SIZE % TABLE_ENTRIES), va) ==
      if InBlock(va, GIC_BASE) || InBlock(va, UART_BASE) then DeviceAt(va) else Fault
  {
    hide WalkBlock, BlockDescriptor, And, Index, Or;
    WalkNothing(va);
    IndexIs(GIC_BASE);
    IndexIs(UART_BASE);
    var block := va / BLOCK_SIZE;
    DivModUnique(block, TABLE_ENTRIES, 0, block);
    if block == 64 {
      WalkDeviceBlock(va, GIC_BASE);
    } else if block == 72 {
      WalkDeviceBlock(va, UART_BASE);
    }
  }

  lemma WalkRam(va: nat)
    requires 0x4000_0000 <= va < 0x8000_0000
    ensures WalkBlock(RamEntry(va / BLOCK_SIZE % TABLE_ENTRIES), va) ==
      if RAM_START <= va < RAM_END then NormalAt(va) else Fault
  {
    hide WalkBlock, BlockDescriptor, And, Or;
    WalkNothing(va);
    var i := va / BLOCK_SIZE % TABLE_ENTRIES;
    assert va == RAM_START + i * BLOCK_SIZE + va % BLOCK_SIZE;
    if i < 64 {
      WalkRamBlock(va, RAM_START + i * BLOCK_SIZE);
    }
  }

  lemma TableFields(table: nat)
    requires table % 0x1000 == 0 && table < 0x1_0000_0000_0000
    ensures var d := TableDescriptor(table);
      d % 2 == 1 && d / 2 % 2 == 1 && d / 0x1000 % 0x10_0000_0000 * 0x1000 == table
  {
    hide TableDescriptor;
    TableDescriptorIs(table);
    var q := table / 0x1000;
    DivModUnique(table + 3, 0x1000, q, 3);
    DivModUnique(table + 3, 2, q * 0x800 + 1, 1);
    DivModUnique(q * 0x800 + 1, 2, q * 0x400, 1);
    DivModUnique(q, 0x10_0000_0000, 0, q);
  }

  lemma WalkLevel1(t: Tables, va: nat)
    requires Built(t) && Placed(t.deviceAt, t.ramAt) && va < TWO_32
    ensures var index := va / BLOCK_SIZE % TABLE_ENTRIES;
      Walk(t, va) ==
        if va < 0x4000_0000 then WalkBlock(t.device[index], va)
        else if va < 0x8000_0000 then WalkBlock(t.ram[index], va)
        else Fault
  {
    hide WalkBlock, TableDescriptor, DeviceEntry, RamEntry, Pow2;
    PowersOfTwo();
    TableFields(t.deviceAt);
    TableFields(t.ramAt);
    assert t.level1[va / 0x4000_0000] == Level1Entry(va / 0x4000_0000, t.deviceAt, t.ramAt);
  }

  /** Every page the allocator can hand out is mapped to itself as Normal memory, all of it. */
  lemma LivePagesAreMapped(t: Tables, a: Allocator, page: nat, offset: nat)
    requires Built(t) && Placed(t.deviceAt, t.ramAt)
    requires PageAlloc.Inv(a) && Live(a, page) && offset < PAGE_SIZE
    ensures Walk(t, page + offset) == NormalAt(page + offset)
  {
    hide Walk, Built;
    WalkIsIdentity(t, page + offset);
  }

  // ---- Building them ----

  class TranslationTables {
    const level1: array<nat>
    const device: array<nat>
    const ram: array<nat>
    const deviceAt: nat
    const ramAt: nat

    ghost function State(): Tables
      reads level1, device, ram
    {
      Tables(level1[..], device[..], ram[..], deviceAt, ramAt)
    }

    predicate Valid() {
      && level1.Length == device.Length == ram.Length == TABLE_ENTRIES
      && level1 != device && level1 != ram && device != ram
    }

    constructor (devicePlace: nat, ramPlace: nat)
      ensures Valid() && deviceAt == devicePlace && ramAt == ramPlace
      ensures fresh(level1) && fresh(device) && fresh(ram)
    {
      level1, device, ram := new nat[TABLE_ENTRIES], new nat[TABLE_ENTRIES], new nat[TABLE_ENTRIES];
      deviceAt, ramAt := devicePlace, ramPlace;
    }

    method ClearTable(table: array<nat>)
      requires table.Length == TABLE_ENTRIES
      modifies table
      ensures forall i :: 0 <= i < TABLE_ENTRIES ==> table[i] == 0
    {
      var index := 0;
      while index < TABLE_ENTRIES
        invariant 0 <= index <= TABLE_ENTRIES
        invariant forall i :: 0 <= i < index ==> table[i] == 0
      {
        table[index] := 0;
        index := index + 1;
      }
    }

    method MapDeviceBlock(address: nat)
      requires Valid()
      modifies device
      ensures Index(address) < TABLE_ENTRIES
      ensures device[..] == old(device[..])[Index(address) := BlockDescriptor(address, DeviceAttributes())]
    {
      hide And, Or;
      IndexIs(address);
      device[Index(address)] := BlockDescriptor(address, DeviceAttributes());
    }

    /** The loop over RAM, one 2MiB block at a time. */
    method MapRam()
      requires Valid() && forall i :: 0 <= i < TABLE_ENTRIES ==> ram[i] == 0
      modifies ram
      ensures forall i :: 0 <= i < TABLE_ENTRIES ==> ram[i] == RamEntry(i)
    {
      hide And, Or;
      var address: nat := RAM_START;
      ghost var mapped := 0;
      while address < RAM_END
        invariant mapped <= 64 && address == RAM_START + mapped * BLOCK_SIZE
        invariant forall i :: 0 <= i < mapped ==> ram[i] == RamEntry(i)
        invariant forall i :: mapped <= i < TABLE_ENTRIES ==> ram[i] == 0
      {
        IndexIs(address);
        assert Index(address) == mapped;
        ram[Index(address)] := BlockDescriptor(address, RamAttributes());
        address := address + BLOCK_SIZE;
        mapped := mapped + 1;
      }
    }

    method Build()
      requires Valid()
      modifies level1, device, ram
      ensures Built(State())
    {
      hide And, Or, BlockDescriptor, TableDescriptor;
      ClearTable(level1);
      ClearTable(device);
      ClearTable(ram);
      level1[0] := TableDescriptor(deviceAt);
      IndexIs(GIC_BASE);
      IndexIs(UART_BASE);
      MapDeviceBlock(GIC_BASE);
      MapDeviceBlock(UART_BASE);
      level1[1] := TableDescriptor(ramAt);
      MapRam();
    }
  }
}
