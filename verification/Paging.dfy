/** Page-table entries and virtual-address indexes of 4-level paging (Intel SDM volume 3A, section 4.5). */
module Paging {
  import opened Arith
  import opened Bits

  const TABLE_LEN: nat := 512
  /** An entry holds address bits 12 to 51: a frame number below 2^40. */
  const FRAMES: nat := 0x100_0000_0000
  const PHYS_LIMIT: nat := 0x10_0000_0000_0000
  const VIRT_LIMIT: nat := 0x1_0000_0000_0000

  const PRESENT: nat := 0
  const WRITABLE: nat := 1
  const USER: nat := 2
  const HUGE_PAGE: nat := 7
  /** The software bit of a reserved page that has no frame yet. */
  const ON_DEMAND: nat := 9
  const NO_EXECUTE: nat := 63

  /** The 64 bits of an entry: address bits 12 to 51 as a frame number, and the positions of the one bits
      among the other 24. */
  datatype Entry = Entry(frame: nat, flags: Word)

  const EMPTY := Entry(0, {})

  type Table = t: seq<Entry> | |t| == TABLE_LEN witness seq(TABLE_LEN, _ => EMPTY)

  function FlagBits(w: Word): (r: Word)
    ensures forall i :: i in r <==> i in w && (i < 12 || 52 <= i)
  {
    set i | i in w && (i < 12 || 52 <= i)
  }

  /** `set_address`: the address is cut down to bits 12 to 51, the flags to the other bits. */
  function SetAddress(addr: nat, flags: Word): Entry {
    Entry(addr / 4096 % FRAMES, FlagBits(flags))
  }

  /** The span of one entry of a level-`l` table: 4 KiB, 2 MiB, 1 GiB, 512 GiB. */
  function Size(l: nat): (r: nat)
    requires 1 <= l <= 5
    ensures r > 0
  {
    match l
    case 1 => 0x1000
    case 2 => 0x20_0000
    case 3 => 0x4000_0000
    case 4 => 0x80_0000_0000
    case 5 => VIRT_LIMIT
  }

  /** `pt_index`, `pd_index`, `pdpt_index` and `pml4_index` for `l` = 1, 2, 3 and 4. */
  function Index(virt: nat, l: nat): (r: nat)
    requires 1 <= l <= 4
    ensures r < TABLE_LEN
  {
    virt / Size(l) % 512
  }

  /** The indexes of `virt` above level `l`, as one number. */
  function Prefix(virt: nat, l: nat): nat
    requires l <= 4
    decreases 4 - l
  {
    if l == 4 then 0 else Prefix(virt, l + 1) * 512 + Index(virt, l + 1)
  }

  predicate SamePage(virt: nat, virt': nat) {
    virt % VIRT_LIMIT / 4096 == virt' % VIRT_LIMIT / 4096
  }

  /** An offset in a page of the next size up is an index and an offset in a page of this size. */
  lemma OffsetSplit(virt: nat, l: nat)
    requires 1 <= l <= 4
    ensures virt % Size(l + 1) == Index(virt, l) * Size(l) + virt % Size(l)
  {
    SplitAt(virt, Size(l), 512);
  }

  /** The four indexes, read as one number, are the page number. */
  lemma PageNumber(virt: nat)
    ensures Prefix(virt, 0) == virt % VIRT_LIMIT / 4096
    ensures virt % VIRT_LIMIT == Prefix(virt, 0) * 4096 + virt % 4096
  {
    OffsetSplit(virt, 1);
    OffsetSplit(virt, 2);
    OffsetSplit(virt, 3);
    OffsetSplit(virt, 4);
    assert Prefix(virt, 3) == Index(virt, 4);
    assert Prefix(virt, 2) == Index(virt, 4) * 512 + Index(virt, 3);
    assert Prefix(virt, 1) == Prefix(virt, 2) * 512 + Index(virt, 2);
    DivModUnique(virt % VIRT_LIMIT, 4096, Prefix(virt, 0), virt % 4096);
  }

  /** The prefix fixes the indexes above. */
  lemma {:induction false} PrefixIndexes(virt: nat, virt': nat, l: nat)
    requires l <= 4 && Prefix(virt, l) == Prefix(virt', l)
    ensures forall k :: l < k <= 4 ==> Index(virt, k) == Index(virt', k)
    ensures forall k :: l <= k <= 4 ==> Prefix(virt, k) == Prefix(virt', k)
    decreases 4 - l
  {
    if l < 4 {
      PrefixIndexes(virt, virt', l + 1);
    }
  }

  /** The address of an entry is the address stored in it, exactly when that is page aligned and below 2^52. */
  lemma AddressRoundTrip(addr: nat, flags: Word)
    ensures SetAddress(addr, flags).frame * 4096 == addr <==> addr % 4096 == 0 && addr < PHYS_LIMIT
  {
  }

  lemma FrameRoundTrip(f: nat, flags: Word)
    requires f < FRAMES
    ensures SetAddress(f * 4096, flags).frame == f
  {
  }
}
