/** Page-table entries as packed 64-bit words, and the shape of the tree of page tables. */
module PageTables {
  import opened Powers

  const PAGE_ADDR_MASK: bv64 := 0x000f_ffff_ffff_f000
  const OFFSET_MASK: bv64 := 0xfff
  const PRESENT: bv64 := 0x1
  const WRITABLE: bv64 := 0x2
  const USER_ACCESSIBLE: bv64 := 0x4
  const WRITE_THROUGH: bv64 := 0x8
  const NO_CACHE: bv64 := 0x10
  const SIZE_EXTENSION: bv64 := 0x80
  const GLOBAL: bv64 := 0x100
  const NO_EXECUTE: bv64 := 0x8000_0000_0000_0000
  const NEW_PAGE_FLAGS: bv64 := 0x7
  const NO_ADDRESS: bv64 := 0xffff_ffff_ffff_ffff

  // ---- entries -----------------------------------------------------------------------------

  function SetFlags(entry: bv64, flags: bv64): bv64 { entry | flags }

  function ClearFlags(entry: bv64, flags: bv64): bv64 { entry & !flags }

  function GetFlags(entry: bv64): bv64 { entry & !PAGE_ADDR_MASK }

  predicate HasFlags(entry: bv64, flags: bv64) { entry & flags != 0 }

  function GetAddress(entry: bv64): bv64 { entry & PAGE_ADDR_MASK }

  /** The address is not masked: bits outside the address field end up among the flags. */
  function SetAddress(entry: bv64, address: bv64): bv64 { (entry & !PAGE_ADDR_MASK) | address }

  predicate IsValid(entry: bv64) { HasFlags(entry, PRESENT) }

  predicate IsLarge(entry: bv64) { HasFlags(entry, SIZE_EXTENSION) }

  /** Bits 12 to 51 are the address, bit 0 says present, and the rest are flags. */
  lemma FieldBits(entry: bv64)
    ensures GetAddress(entry) == entry & 0x000f_ffff_ffff_f000 && GetFlags(entry) == entry & 0xfff0_0000_0000_0fff
  {
  }

  lemma PresentBits(entry: bv64)
    ensures HasFlags(entry, PRESENT) <==> entry & 0x1 != 0
    ensures HasFlags(entry, SIZE_EXTENSION) <==> entry & 0x80 != 0
  {
  }

  /** The entry that a reset, an address and flags leave behind. */
  function NewEntry(address: bv64, flags: bv64): bv64
  {
    SetFlags(SetAddress(0, address), flags)
  }

  /** The bits of an address that do not belong there. */
  function StrayBits(address: bv64): bv64 { address & !PAGE_ADDR_MASK }

  lemma EntryAddress(address: bv64, flags: bv64)
    requires flags & PAGE_ADDR_MASK == 0
    ensures GetAddress(NewEntry(address, flags)) == GetAddress(address)
  {
  }

  /** The flags of an entry come out as given if the address has no stray bit that the flags do
      not have as well ... */
  lemma FlagsHold(address: bv64, flags: bv64)
    requires flags & PAGE_ADDR_MASK == 0 && StrayBits(address) & !flags == 0
    ensures GetFlags(NewEntry(address, flags)) == flags
  {
  }

  /** ... and only then. */
  lemma FlagsSpoilt(address: bv64, flags: bv64)
    requires flags & PAGE_ADDR_MASK == 0 && StrayBits(address) & !flags != 0
    ensures GetFlags(NewEntry(address, flags)) != flags
  {
  }

  /** Flags keep clear of the address field, addresses of the flags. */
  lemma FlagsKeepAddress(entry: bv64, flags: bv64)
    requires flags & PAGE_ADDR_MASK == 0
    ensures GetAddress(SetFlags(entry, flags)) == GetAddress(entry) == GetAddress(ClearFlags(entry, flags))
  {
  }

  lemma AddressKeepsFlags(entry: bv64, address: bv64)
    requires address & !PAGE_ADDR_MASK == 0
    ensures GetFlags(SetAddress(entry, address)) == GetFlags(entry) && GetAddress(SetAddress(entry, address)) == address
  {
  }

  /** A link to a table: valid, never taken for a large page, and it gives back the address. */
  lemma LinkEntry(address: bv64)
    requires address & PAGE_ADDR_MASK == address
    ensures IsValid(NewEntry(address, NEW_PAGE_FLAGS)) && !IsLarge(NewEntry(address, NEW_PAGE_FLAGS))
    ensures GetAddress(NewEntry(address, NEW_PAGE_FLAGS)) == address
  {
  }

  /** Bit by bit: present, writable and user accessible, and nothing else but the address. */
  lemma LinkBits(address: bv64)
    requires address & 0xfff0_0000_0000_0fff == 0
    ensures NewEntry(address, NEW_PAGE_FLAGS) == address | 0x7
  {
  }

  lemma EmptyEntry()
    ensures !IsValid(0) && !IsLarge(0)
  {
  }

  // ---- flags of a mapping ------------------------------------------------------------------

  const MAP_READ: bv64 := 0x1
  const MAP_WRITE: bv64 := 0x2
  const MAP_EXEC: bv64 := 0x4
  const MAP_GLOBAL: bv64 := 0x8
  const MAP_USER: bv64 := 0x10
  const MAP_PAGE_1GB: bv64 := 0x20
  const MAP_PAGE_2MB: bv64 := 0x40
  const MAP_MMIO: bv64 := 0x80
  const MAP_WRITE_COMBINING: bv64 := 0x100
  const MAP_WRITE_BACK: bv64 := 0x200
  const MAP_NO_CACHE: bv64 := 0x400

  /** Neither large-page flag is set, so that a mapping is one of a page of 4 KiB. */
  predicate SmallPage(flags: bv64) { flags & (MAP_PAGE_1GB | MAP_PAGE_2MB) == 0 }

  /** The cache bits of a small page. (MAP_WRITE_THROUGH shares its bit with MAP_PAGE_2MB and
      MAP_PROTECTED shares its bit with MAP_MMIO, so neither occurs here.) */
  function ParseCache(flags: bv64): bv64
  {
    if HasFlags(flags, MAP_MMIO) then NO_CACHE
    else if HasFlags(flags, MAP_WRITE_COMBINING) then NO_CACHE | WRITE_THROUGH
    else if HasFlags(flags, MAP_WRITE_BACK) then 0x80 | NO_CACHE
    else if HasFlags(flags, MAP_NO_CACHE) then 0x80 | NO_CACHE | WRITE_THROUGH
    else 0
  }

  function Choose(flags: bv64, flag: bv64, bit: bv64): bv64 { if HasFlags(flags, flag) then bit else 0 }

  function ParseFlags(flags: bv64): bv64
  {
    ParseCache(flags)
    | Choose(flags, MAP_READ, PRESENT) | Choose(flags, MAP_WRITE, WRITABLE) | Choose(flags, MAP_USER, USER_ACCESSIBLE)
    | (if HasFlags(flags, MAP_EXEC) then 0 else NO_EXECUTE) | Choose(flags, MAP_GLOBAL, GLOBAL)
  }

  /** The flags of a small page never reach into the address, and permissions are as asked for. */
  lemma ParsedFlags(flags: bv64)
    requires SmallPage(flags)
    ensures ParseFlags(flags) & PAGE_ADDR_MASK == 0
    ensures HasFlags(ParseFlags(flags), PRESENT) <==> HasFlags(flags, MAP_READ)
    ensures HasFlags(ParseFlags(flags), WRITABLE) <==> HasFlags(flags, MAP_WRITE)
    ensures HasFlags(ParseFlags(flags), USER_ACCESSIBLE) <==> HasFlags(flags, MAP_USER)
    ensures HasFlags(ParseFlags(flags), NO_EXECUTE) <==> !HasFlags(flags, MAP_EXEC)
    ensures ParseFlags(flags) & 0x20 == 0
  {
  }

  /** Bit by bit, what the entry of a small page with an aligned address says to the processor. */
  lemma MappedBits(physical: bv64, flags: bv64)
    requires flags & 0x60 == 0 && physical & 0xfff0_0000_0000_0fff == 0
    ensures var e := NewEntry(physical, ParseFlags(flags));
            && (e & 0x1 != 0 <==> flags & 0x1 != 0)
            && (e & 0x2 != 0 <==> flags & 0x2 != 0)
            && (e & 0x4 != 0 <==> flags & 0x10 != 0)
            && (e & 0x8 != 0 <==> flags & 0x80 == 0 && (flags & 0x100 != 0 || (flags & 0x400 != 0 && flags & 0x200 == 0)))
            && (e & 0x10 != 0 <==> flags & 0x780 != 0)
            && (e & 0x80 != 0 <==> flags & 0x180 == 0 && flags & 0x600 != 0)
            && (e & 0x100 != 0 <==> flags & 0x8 != 0)
            && (e & 0x8000_0000_0000_0000 != 0 <==> flags & 0x4 == 0)
            && e & 0x000f_ffff_ffff_f000 == physical
            && e & 0x7ff0_0000_0000_0e60 == 0
  {
  }

  // ---- addresses ---------------------------------------------------------------------------

  const ENTRIES: nat := 512

  /** The nine bits of an address from bit `offset` on, for a power of two `2^offset` as given. */
  function IndexAt(address: nat, power: nat): (i: nat)
    requires power > 0
    ensures i < ENTRIES
  {
    (address / power) % ENTRIES
  }

  const BIT_12: nat := 0x1000
  const BIT_21: nat := 0x20_0000
  const BIT_30: nat := 0x4000_0000
  const BIT_39: nat := 0x80_0000_0000
  const BIT_48: nat := 0x1_0000_0000_0000

  /** Where a table or a page hangs in the tree: the indices taken from the root down. */
  datatype Path = Root | Step(parent: Path, index: nat)

  function Depth(p: Path): nat
  {
    match p
    case Root => 0
    case Step(q, _) => Depth(q) + 1
  }

  function Levels(fiveLevels: bool): nat { if fiveLevels then 5 else 4 }

  /** The path of a virtual address: nine bits a level, from bit 39 or bit 48 down to bit 12. */
  function PathOf(fiveLevels: bool, address: nat): (p: Path)
    ensures Depth(p) == Levels(fiveLevels) && p.Step?
  {
    var first := if fiveLevels then Step(Root, IndexAt(address, BIT_48)) else Root;
    var second := Step(first, IndexAt(address, BIT_39));
    var third := Step(second, IndexAt(address, BIT_30));
    assert Depth(first) == Levels(fiveLevels) - 4 && Depth(third) == Depth(first) + 2;
    Step(Step(third, IndexAt(address, BIT_21)), IndexAt(address, BIT_12))
  }

  /** The number of the page of a virtual address; bits above the walk are not looked at. */
  function PageOf(fiveLevels: bool, address: nat): nat
  {
    (address / BIT_12) % (if fiveLevels then 0x2000_0000_0000 else 0x10_0000_0000)
  }

  /** A number modulo 512 m is its last digit to the base 512 and, above it, the rest modulo m. */
  lemma LastDigit(x: nat, m: nat)
    requires m > 0
    ensures x % (512 * m) == x % 512 + 512 * ((x / 512) % m)
  {
    var q, r := x / 512, x % 512;
    var k, s := q / m, q % m;
    assert x == 512 * q + r && q == m * k + s;
    assert 512 * (m * k) == (512 * m) * k;
    DivUnique(x, 512 * m, k, 512 * s + r);
  }

  lemma Quotients(address: nat)
    ensures (address / BIT_12) / 512 == address / BIT_21
    ensures (address / BIT_21) / 512 == address / BIT_30
    ensures (address / BIT_30) / 512 == address / BIT_39
    ensures (address / BIT_39) / 512 == address / BIT_48
  {
  }

  /** The page number is made of the indices of the walk. */
  lemma PageDigits(address: nat, fiveLevels: bool)
    ensures PageOf(fiveLevels, address)
            == IndexAt(address, BIT_12) + 512 * (IndexAt(address, BIT_21) + 512 * (IndexAt(address, BIT_30)
               + 512 * (IndexAt(address, BIT_39) + if fiveLevels then 512 * IndexAt(address, BIT_48) else 0)))
  {
    Quotients(address);
    var top := if fiveLevels then 0x4_0000 else 0x200;
    LastDigit(address / BIT_12, 512 * (512 * top));
    LastDigit(address / BIT_21, 512 * top);
    LastDigit(address / BIT_30, top);
    if fiveLevels { LastDigit(address / BIT_39, 512); }
  }

  /** Numbers made of digits to the base 512 are equal exactly when the digits are. */
  lemma SameDigits(a: nat, b: nat, x: nat, y: nat)
    requires a < 512 && b < 512
    ensures a + 512 * x == b + 512 * y <==> a == b && x == y
  {
  }

  /** Two addresses take the same path exactly when they lie in the same page. */
  lemma SamePage(five: bool, a: nat, b: nat)
    ensures PathOf(five, a) == PathOf(five, b) <==> PageOf(five, a) == PageOf(five, b)
  {
    PageDigits(a, five);
    PageDigits(b, five);
    var a4, b4 := if five then IndexAt(a, BIT_48) else 0, if five then IndexAt(b, BIT_48) else 0;
    var a3, b3 := IndexAt(a, BIT_39) + 512 * a4, IndexAt(b, BIT_39) + 512 * b4;
    var a2, b2 := IndexAt(a, BIT_30) + 512 * a3, IndexAt(b, BIT_30) + 512 * b3;
    var a1, b1 := IndexAt(a, BIT_21) + 512 * a2, IndexAt(b, BIT_21) + 512 * b2;
    SameDigits(IndexAt(a, BIT_39), IndexAt(b, BIT_39), a4, b4);
    SameDigits(IndexAt(a, BIT_30), IndexAt(b, BIT_30), a3, b3);
    SameDigits(IndexAt(a, BIT_21), IndexAt(b, BIT_21), a2, b2);
    SameDigits(IndexAt(a, BIT_12), IndexAt(b, BIT_12), a1, b1);
  }

  /** Which nine bits of an address index which level: bits 12 to 20 the leaf table, and nine bits
      higher for each level above. */
  lemma PathLevels(five: bool, address: nat)
    ensures var p := PathOf(five, address);
            && p.Step? && p.index == (address / 0x1000) % 512
            && p.parent.Step? && p.parent.index == (address / 0x20_0000) % 512
            && p.parent.parent.Step? && p.parent.parent.index == (address / 0x4000_0000) % 512
            && p.parent.parent.parent.Step? && p.parent.parent.parent.index == (address / 0x80_0000_0000) % 512
            && (var top := p.parent.parent.parent.parent;
                if five then top == Step(Root, (address / 0x1_0000_0000_0000) % 512) else top == Root)
  {
  }

  // ---- the walk of the processor -----------------------------------------------------------

  /** The indices the processor takes from an address, from the top table down. */
  function WalkIndices(five: bool, address: nat): (r: seq<nat>)
    ensures AllIndices(r)
    ensures !five ==> r == [(address / 0x80_0000_0000) % 512, (address / 0x4000_0000) % 512,
                            (address / 0x20_0000) % 512, (address / 0x1000) % 512]
    ensures five ==> r == [(address / 0x1_0000_0000_0000) % 512, (address / 0x80_0000_0000) % 512,
                           (address / 0x4000_0000) % 512, (address / 0x20_0000) % 512, (address / 0x1000) % 512]
  {
    (if five then [IndexAt(address, BIT_48)] else [])
    + [IndexAt(address, BIT_39), IndexAt(address, BIT_30), IndexAt(address, BIT_21), IndexAt(address, BIT_12)]
  }

  predicate AllIndices(indices: seq<nat>)
  {
    |indices| >= 1 && forall k :: 0 <= k < |indices| ==> indices[k] < 512
  }

  /** The path that the indices lead along. */
  ghost function Extend(p: Path, indices: seq<nat>): (page: Path)
    requires |indices| >= 1
    decreases |indices|
  {
    if |indices| == 1 then Step(p, indices[0]) else Extend(Step(p, indices[0]), indices[1..])
  }

  lemma PathExtends(five: bool, address: nat)
    ensures AllIndices(WalkIndices(five, address)) && |WalkIndices(five, address)| == Levels(five)
    ensures Extend(Root, WalkIndices(five, address)) == PathOf(five, address)
  {
    var r := WalkIndices(five, address);
    var lower := if five then r[1..] else r;
    var first := if five then Step(Root, r[0]) else Root;
    assert Extend(Root, r) == Extend(first, lower);
    assert lower[1..] == [lower[1], lower[2], lower[3]] && lower[1..][1..] == [lower[2], lower[3]];
    assert lower[1..][1..][1..] == [lower[3]];
    var second := Step(first, lower[0]);
    var third := Step(second, lower[1]);
    assert Extend(first, lower) == Extend(second, lower[1..]) == Extend(third, lower[1..][1..]);
    assert Extend(third, lower[1..][1..]) == Extend(Step(third, lower[2]), [lower[3]]);
  }
}
