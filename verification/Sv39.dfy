/** Address translation through the page tables of an image in memory: the walk of section 4.3.2 of the
    RISC-V Privileged Architecture version 1.12 for Sv39 (section 4.4), in supervisor mode. */
module Sv39 {
  import opened Arithmetic
  import opened Bytes

  const U64 := 0x1_0000_0000_0000_0000
  const PAGE := 0x1000
  const PHYSICAL_BASE := 0x8000_0000
  const VIRTUAL_BASE := 0x4000_0000
  const MAPPED_BYTES := 0x2_0000
  const ROOT_OFFSET := 0x2_0000
  const LEVEL1_OFFSET := 0x2_1000
  const LEVEL0_OFFSET := 0x2_2000
  const TABLES_END := 0x2_3000
  const NEXT_LEVEL := 0x1
  const RWXAD := 0xCF
  const RWAD := 0xC7

  // ---- 64-bit values in memory ----

  function At(image: seq<byte>, offset: nat): nat
    requires offset + 8 <= |image|
  {
    Read(image[offset..offset + 8])
  }

  /** The image with eight bytes replaced. */
  function Put(image: seq<byte>, offset: nat, value: nat): (r: seq<byte>)
    requires offset + 8 <= |image|
    ensures |r| == |image|
  {
    image[..offset] + Little(value, 8) + image[offset + 8..]
  }

  lemma PutAt(image: seq<byte>, offset: nat, value: nat)
    requires offset + 8 <= |image| && value < U64
    ensures At(Put(image, offset, value), offset) == value
  {
    Limits();
    ReadLittle(value, 8);
    assert Put(image, offset, value)[offset..offset + 8] == Little(value, 8);
  }

  lemma PutElsewhere(image: seq<byte>, offset: nat, value: nat, other: nat)
    requires offset + 8 <= |image| && other + 8 <= |image| && (other + 8 <= offset || offset + 8 <= other)
    ensures At(Put(image, offset, value), other) == At(image, other)
  {
    assert Put(image, offset, value)[other..other + 8] == image[other..other + 8];
  }

  // ---- Page table entries ----

  function Pte(address: nat, flags: nat): nat { address / PAGE * 1024 + flags }

  predicate Bit(entry: nat, mask: nat)
    requires mask > 0
  {
    entry / mask % 2 == 1
  }

  function Ppn(entry: nat): nat { entry / 1024 % 0x1000_0000_0000 }

  datatype Access = Load | Store | Fetch

  datatype Translation = Physical(address: nat) | PageFault | AccessFault

  function Vpn(va: nat, level: nat): nat
    requires level <= 2
  {
    (if level == 2 then va / 0x4000_0000 else if level == 1 then va / 0x20_0000 else va / PAGE) % 512
  }

  predicate Canonical(va: nat) { va < 0x40_0000_0000 || va >= U64 - 0x40_0000_0000 }

  predicate Permits(entry: nat, access: Access) {
    && !Bit(entry, 16)
    && (match access case Load => Bit(entry, 2) case Store => Bit(entry, 4) case Fetch => Bit(entry, 8))
    && Bit(entry, 64) && (access.Store? ==> Bit(entry, 128))
  }

  /** A leaf found at this level: the low parts of a large page's number come from the address. */
  function Leaf(entry: nat, va: nat, access: Access, level: nat): Translation
    requires level <= 2
  {
    var span := if level == 2 then 0x4_0000 else if level == 1 then 512 else 1;
    if !Permits(entry, access) || Ppn(entry) % span != 0 then PageFault
    else Physical(Ppn(entry) * PAGE + va % (span * PAGE))
  }

  /** The walk from a table at this physical address. Entries outside the image cannot be read; bits
      54 and up are reserved. */
  function Walk(image: seq<byte>, table: nat, va: nat, access: Access, level: nat): Translation
    requires level <= 2
    decreases level
  {
    var address := table + Vpn(va, level) * 8;
    if address < PHYSICAL_BASE || address + 8 > PHYSICAL_BASE + |image| then AccessFault else
      var entry := At(image, address - PHYSICAL_BASE);
      if !Bit(entry, 1) || (!Bit(entry, 2) && Bit(entry, 4)) || entry / 0x40_0000_0000_0000 != 0 then PageFault
      else if Bit(entry, 2) || Bit(entry, 8) then Leaf(entry, va, access, level)
      else if level == 0 then PageFault
      else Walk(image, Ppn(entry) * PAGE, va, access, level - 1)
  }

  function Translate(image: seq<byte>, root: nat, va: nat, access: Access): Translation {
    if !Canonical(va) then PageFault else Walk(image, root, va, access, 2)
  }

  // ---- The tables of one root ----

  function Entry(image: seq<byte>, offset: nat, k: nat): nat
    requires offset + k * 8 + 8 <= |image|
  {
    At(image, offset + k * 8)
  }

  /** A table page whose entries are given by `entry`. */
  ghost predicate Table(image: seq<byte>, offset: nat, entry: nat -> nat) {
    offset + PAGE <= |image| && forall k: nat :: k < 512 ==> Entry(image, offset, k) == entry(k)
  }

  function RootEntry(prefix: nat): nat -> nat {
    (k: nat) => if k == 1 then Pte(PHYSICAL_BASE + prefix + LEVEL1_OFFSET, NEXT_LEVEL) else 0
  }

  function Level1Entry(prefix: nat): nat -> nat {
    (k: nat) => if k == 0 then Pte(PHYSICAL_BASE + prefix + LEVEL0_OFFSET, NEXT_LEVEL) else 0
  }

  /** Where and how page k of the window is mapped, if it is. */
  datatype Page = Absent | Mapped(address: nat, flags: nat)

  function PageEntry(pages: nat -> Page): nat -> nat {
    (k: nat) => match pages(k) case Absent => 0 case Mapped(address, flags) => Pte(address, flags)
  }

  ghost predicate Tables(image: seq<byte>, prefix: nat, pages: nat -> Page) {
    && prefix % PAGE == 0 && prefix < 0x1000_0000
    && Table(image, prefix + ROOT_OFFSET, RootEntry(prefix))
    && Table(image, prefix + LEVEL1_OFFSET, Level1Entry(prefix))
    && Table(image, prefix + LEVEL0_OFFSET, PageEntry(pages))
  }

  /** Page k of the window shows physical page k of the prefix. */
  function Linear(prefix: nat): nat -> Page {
    (k: nat) => if k < MAPPED_BYTES / PAGE then Mapped(PHYSICAL_BASE + prefix + k * PAGE, RWXAD) else Absent
  }

  predicate Usable(p: Page) {
    p.Mapped? ==> p.address % PAGE == 0 && p.address < 0x1_0000_0000 && p.flags in {RWXAD, RWAD}
  }

  /** What an address of the window means: the first 2 MiB from the virtual base are translated page by
      page, and nothing else is. */
  function Meaning(pages: nat -> Page, va: nat, access: Access): Translation {
    if va < VIRTUAL_BASE || va >= VIRTUAL_BASE + 512 * PAGE then PageFault else
      var k: nat := (va - VIRTUAL_BASE) / PAGE;
      match pages(k)
      case Absent => PageFault
      case Mapped(address, flags) =>
        if access.Fetch? && flags == RWAD then PageFault else Physical(address + va % PAGE)
  }

  /** A bit of an entry, from the entry's quotient by twice the bit's mask. */
  lemma BitIs(e: nat, mask: nat, high: nat, bit: nat, r: nat)
    requires mask > 0 && bit < 2 && r < mask && e == (2 * high + bit) * mask + r
    ensures Bit(e, mask) <==> bit == 1
  {
    Unique(e, mask, 2 * high + bit, r);
    Unique(2 * high + bit, 2, high, bit);
  }

  lemma PointerBits(page: nat)
    ensures var e := page * 1024 + 1; Bit(e, 1) && !Bit(e, 2) && !Bit(e, 4) && !Bit(e, 8)
  {
    hide Bit;
    var e := page * 1024 + 1;
    BitIs(e, 1, page * 512, 1, 0);
    BitIs(e, 2, page * 256, 0, 1);
    BitIs(e, 4, page * 128, 0, 1);
    BitIs(e, 8, page * 64, 0, 1);
  }

  lemma EntryPpn(page: nat, flags: nat)
    requires page < 0x10_0000 && flags < 1024
    ensures Ppn(page * 1024 + flags) == page && (page * 1024 + flags) / 0x40_0000_0000_0000 == 0
  {
    Unique(page * 1024 + flags, 1024, page, flags);
  }

  lemma PointerWalks(image: seq<byte>, table: nat, va: nat, access: Access, level: nat, target: nat)
    requires 0 < level <= 2 && target % PAGE == 0 && target < 0x1_0000_0000
    requires PHYSICAL_BASE <= table && table + Vpn(va, level) * 8 + 8 <= PHYSICAL_BASE + |image|
    requires Entry(image, table - PHYSICAL_BASE, Vpn(va, level)) == Pte(target, NEXT_LEVEL)
    ensures Walk(image, table, va, access, level) == Walk(image, target, va, access, level - 1)
  {
    hide Bit, Ppn, Vpn, At;
    PointerBits(target / PAGE);
    EntryPpn(target / PAGE, NEXT_LEVEL);
  }

  lemma {:induction false} ZeroFaults(image: seq<byte>, table: nat, va: nat, access: Access, level: nat)
    requires level <= 2 && PHYSICAL_BASE <= table && table + Vpn(va, level) * 8 + 8 <= PHYSICAL_BASE + |image|
    requires Entry(image, table - PHYSICAL_BASE, Vpn(va, level)) == 0
    ensures Walk(image, table, va, access, level) == PageFault
  {
  }

  lemma {:induction false} PageWalks(image: seq<byte>, table: nat, va: nat, access: Access, p: Page)
    requires p.Mapped? && Usable(p)
    requires PHYSICAL_BASE <= table && table + Vpn(va, 0) * 8 + 8 <= PHYSICAL_BASE + |image|
    requires Entry(image, table - PHYSICAL_BASE, Vpn(va, 0)) == Pte(p.address, p.flags)
    ensures Walk(image, table, va, access, 0) ==
              if access.Fetch? && p.flags == RWAD then PageFault else Physical(p.address + va % PAGE)
  {
    hide Bit, Ppn, Vpn, At;
    var page := p.address / PAGE;
    LowBits(page, p.flags);
    UserBit(page, p.flags);
    AccessedBit(page, p.flags);
    DirtyBit(page, p.flags);
    EntryPpn(page, p.flags);
  }

  lemma LowBits(page: nat, flags: nat)
    requires flags in {RWXAD, RWAD}
    ensures var e := page * 1024 + flags; Bit(e, 1) && Bit(e, 2) && Bit(e, 4) && (Bit(e, 8) <==> flags == RWXAD)
  {
    hide Bit;
    var e := page * 1024 + flags;
    BitIs(e, 1, page * 512 + flags / 2, 1, 0);
    BitIs(e, 2, page * 256 + flags / 4, 1, 1);
    BitIs(e, 4, page * 128 + flags / 8, 1, 3);
    BitIs(e, 8, page * 64 + flags / 16, if flags == RWXAD then 1 else 0, 7);
  }

  lemma UserBit(page: nat, flags: nat)
    requires flags in {RWXAD, RWAD}
    ensures !Bit(page * 1024 + flags, 16)
  {
    hide Bit;
    BitIs(page * 1024 + flags, 16, page * 32 + 6, 0, flags - 192);
  }

  lemma AccessedBit(page: nat, flags: nat)
    requires flags in {RWXAD, RWAD}
    ensures Bit(page * 1024 + flags, 64)
  {
    hide Bit;
    BitIs(page * 1024 + flags, 64, page * 8 + 1, 1, flags - 192);
  }

  lemma DirtyBit(page: nat, flags: nat)
    requires flags in {RWXAD, RWAD}
    ensures Bit(page * 1024 + flags, 128)
  {
    hide Bit;
    BitIs(page * 1024 + flags, 128, page * 4, 1, flags - 128);
  }

  lemma WindowIndices(va: nat)
    requires Canonical(va) && va < U64
    ensures va >= VIRTUAL_BASE && va < VIRTUAL_BASE + 512 * PAGE <==> Vpn(va, 2) == 1 && Vpn(va, 1) == 0
    ensures va >= VIRTUAL_BASE && va < VIRTUAL_BASE + 512 * PAGE ==> Vpn(va, 0) == (va - VIRTUAL_BASE) / PAGE < 512
  {
  }

  /** Through such tables, every 64-bit virtual address means what its page says, and all addresses
      outside the window fault. */
  lemma TablesTranslate(image: seq<byte>, prefix: nat, pages: nat -> Page, va: nat, access: Access)
    requires Tables(image, prefix, pages) && va < U64 && forall k :: 0 <= k < 512 ==> Usable(pages(k))
    ensures Translate(image, PHYSICAL_BASE + prefix + ROOT_OFFSET, va, access) == Meaning(pages, va, access)
  {
    hide Walk, Vpn, Pte, Entry;
    if Canonical(va) {
      WindowIndices(va);
      var root, level1, level0 := prefix + ROOT_OFFSET, prefix + LEVEL1_OFFSET, prefix + LEVEL0_OFFSET;
      VpnFits(va);
      if Vpn(va, 2) != 1 {
        ZeroFaults(image, PHYSICAL_BASE + root, va, access, 2);
      } else {
        PointerWalks(image, PHYSICAL_BASE + root, va, access, 2, PHYSICAL_BASE + level1);
        if Vpn(va, 1) != 0 {
          ZeroFaults(image, PHYSICAL_BASE + level1, va, access, 1);
        } else {
          PointerWalks(image, PHYSICAL_BASE + level1, va, access, 1, PHYSICAL_BASE + level0);
          var k := Vpn(va, 0);
          if pages(k).Absent? {
            ZeroFaults(image, PHYSICAL_BASE + level0, va, access, 0);
          } else {
            PageWalks(image, PHYSICAL_BASE + level0, va, access, pages(k));
          }
        }
      }
    } else {
      NotCanonical(va);
    }
  }

  lemma VpnFits(va: nat)
    ensures Vpn(va, 0) < 512 && Vpn(va, 1) < 512 && Vpn(va, 2) < 512
  {
  }

  lemma NotCanonical(va: nat)
    requires !Canonical(va)
    ensures va >= VIRTUAL_BASE + 512 * PAGE
  {
  }
}
