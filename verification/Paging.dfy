/** include/memory/paging.hpp: page table entries and the indexer of 4-level paging
    (section 4.5 of the Intel SDM, volume 3A). */
module Paging {
  const FRAMES := 0x100_0000_0000  // 2^40 frames of 4096 bytes: the 52-bit physical address space

  /** A physical page number, the content of an entry's address bits. */
  type Frame = f: nat | f < FRAMES

  type Index = i: nat | i < 512

  datatype PageTableFlag =
    | Present | ReadWrite | UserSuper | WriteThrough | CacheDisabled
    | Accessed | Dirty | LargerPages | Global | NX

  /** The flag bits of an entry, and also the `mappingFlags` of the mapping functions. */
  datatype Flags = Flags(present: bool, readWrite: bool, userSuper: bool, writeThrough: bool, cacheDisabled: bool,
                         accessed: bool, dirty: bool, largerPages: bool, global: bool, noExecute: bool)
  {
    predicate Has(flag: PageTableFlag) {
      match flag
      case Present => present
      case ReadWrite => readWrite
      case UserSuper => userSuper
      case WriteThrough => writeThrough
      case CacheDisabled => cacheDisabled
      case Accessed => accessed
      case Dirty => dirty
      case LargerPages => largerPages
      case Global => global
      case NX => noExecute
    }

    function With(flag: PageTableFlag, enabled: bool): Flags {
      match flag
      case Present => this.(present := enabled)
      case ReadWrite => this.(readWrite := enabled)
      case UserSuper => this.(userSuper := enabled)
      case WriteThrough => this.(writeThrough := enabled)
      case CacheDisabled => this.(cacheDisabled := enabled)
      case Accessed => this.(accessed := enabled)
      case Dirty => this.(dirty := enabled)
      case LargerPages => this.(largerPages := enabled)
      case Global => this.(global := enabled)
      case NX => this.(noExecute := enabled)
    }
  }

  const NO_FLAGS := Flags(false, false, false, false, false, false, false, false, false, false)

  /** A page table entry by its bit fields: the flag bits, the frame in bits 12 to 51, and the bits
      (9 to 11 and 52 to 62) that the code never changes. */
  datatype PageDirectoryEntry = Entry(flags: Flags, frame: Frame, untouched: nat)
  {
    predicate Flag(flag: PageTableFlag) { flags.Has(flag) }

    function SetFlag(flag: PageTableFlag, enabled: bool): PageDirectoryEntry {
      this.(flags := flags.With(flag, enabled))
    }

    function SetAddress(address: nat): PageDirectoryEntry { this.(frame := address % FRAMES) }
  }

  const ZERO_ENTRY := Entry(NO_FLAGS, 0, 0)

  // ----- the same operations on the 64-bit word of an entry -----

  function FlagMask(flag: PageTableFlag): bv64 {
    match flag
    case Present => 0x1
    case ReadWrite => 0x2
    case UserSuper => 0x4
    case WriteThrough => 0x8
    case CacheDisabled => 0x10
    case Accessed => 0x20
    case Dirty => 0x40
    case LargerPages => 0x80
    case Global => 0x100
    case NX => 0x8000_0000_0000_0000
  }

  function WordAddress(word: bv64): bv64 { (word & 0x000f_ffff_ffff_f000) >> 12 }

  function WordSetAddress(word: bv64, address: bv64): bv64 {
    (word & 0xfff0_0000_0000_0fff) | ((address & 0x0000_00ff_ffff_ffff) << 12)
  }

  predicate WordFlag(word: bv64, flag: PageTableFlag) { word & FlagMask(flag) != 0 }

  function WordSetFlag(word: bv64, flag: PageTableFlag, enabled: bool): bv64 {
    WriteMask(word, FlagMask(flag), enabled)
  }

  function WriteMask(word: bv64, mask: bv64, enabled: bool): bv64 {
    var cleared := word & !mask;
    if enabled then cleared | mask else cleared
  }

  lemma WriteMaskFields(word: bv64, mask: bv64, enabled: bool, other: bv64)
    ensures mask != 0 ==> (WriteMask(word, mask, enabled) & mask != 0) == enabled
    ensures mask & other == 0 ==> WriteMask(word, mask, enabled) & other == word & other
  {
  }

  lemma WriteAddressFields(word: bv64, address: bv64, other: bv64)
    requires other & 0x000f_ffff_ffff_f000 == 0
    ensures WordAddress(WordSetAddress(word, address)) == address & 0x0000_00ff_ffff_ffff
    ensures WordSetAddress(word, address) & other == word & other
  {
  }

  lemma FlagMaskFacts(flag: PageTableFlag, other: PageTableFlag)
    ensures FlagMask(flag) != 0 && FlagMask(flag) & 0x000f_ffff_ffff_f000 == 0
    ensures flag != other ==> FlagMask(flag) & FlagMask(other) == 0
  {
  }

  /** Setting the address replaces the frame and nothing else, as `Entry.SetAddress` does: all other bits, of which
      `others` may be any, keep their values. */
  lemma WordSetAddressFields(word: bv64, address: bv64, flag: PageTableFlag, others: bv64)
    ensures WordAddress(WordSetAddress(word, address)) == address & 0x0000_00ff_ffff_ffff
    ensures WordFlag(WordSetAddress(word, address), flag) == WordFlag(word, flag)
    ensures others & 0x000f_ffff_ffff_f000 == 0 ==> WordSetAddress(word, address) & others == word & others
  {
    FlagMaskFacts(flag, flag);
    WriteAddressFields(word, address, FlagMask(flag));
    if others & 0x000f_ffff_ffff_f000 == 0 {
      WriteAddressFields(word, address, others);
    }
  }

  /** Setting a flag replaces that flag and no other, as `Entry.SetFlag` does. */
  lemma WordSetFlagSame(word: bv64, flag: PageTableFlag, enabled: bool)
    ensures WordFlag(WordSetFlag(word, flag, enabled), flag) == enabled
  {
    FlagMaskFacts(flag, flag);
    WriteMaskFields(word, FlagMask(flag), enabled, 0);
  }

  lemma WordSetFlagOther(word: bv64, flag: PageTableFlag, enabled: bool, other: PageTableFlag)
    requires other != flag
    ensures WordFlag(WordSetFlag(word, flag, enabled), other) == WordFlag(word, other)
  {
    FlagMaskFacts(flag, other);
    WriteMaskFields(word, FlagMask(flag), enabled, FlagMask(other));
  }

  /** Setting a flag keeps the address, as `Entry.SetFlag` does. */
  lemma WordSetFlagKeepsAddress(word: bv64, flag: PageTableFlag, enabled: bool)
    ensures WordAddress(WordSetFlag(word, flag, enabled)) == WordAddress(word)
  {
    FlagMaskFacts(flag, flag);
    WriteMaskFields(word, FlagMask(flag), enabled, 0x000f_ffff_ffff_f000);
  }

  // ----- the indexer -----

  /** The four table indices of a virtual address, root first. */
  function Indices(virtualAddress: nat): (path: seq<Index>)
    ensures |path| == 4
  {
    IndexPath(virtualAddress / 0x1000, 4)
  }

  /** The indices of the lowest `levels` tables, nine bits each, taken off from the right. */
  function IndexPath(address: nat, levels: nat): (path: seq<Index>)
    ensures |path| == levels
  {
    if levels == 0 then [] else IndexPath(address / 0x200, levels - 1) + [address % 0x200]
  }

  /** The virtual page of an address: bits 12 to 47. */
  function VirtualPage(virtualAddress: nat): nat { virtualAddress / 0x1000 % 0x10_0000_0000 }

  /** The page number that a path of indices stands for. */
  function PageOfPath(path: seq<Index>): nat {
    if path == [] then 0 else 0x200 * PageOfPath(path[..|path| - 1]) + path[|path| - 1] as nat
  }

  lemma DigitsUnique(x: nat, i: nat, y: nat, j: nat)
    requires i < 0x200 && j < 0x200 && 0x200 * x + i == 0x200 * y + j
    ensures x == y && i == j
  {
  }

  lemma {:induction false} PageOfPathInjective(p: seq<Index>, q: seq<Index>)
    requires |p| == |q| && PageOfPath(p) == PageOfPath(q)
    ensures p == q
  {
    if p != [] {
      var last := |p| - 1;
      DigitsUnique(PageOfPath(p[..last]), p[last], PageOfPath(q[..last]), q[last]);
      PageOfPathInjective(p[..last], q[..last]);
      assert p == p[..last] + [p[last]] && q == q[..last] + [q[last]];
    }
  }

  lemma FourIndices(p0: nat)
    ensures var p1 := p0 / 0x200;
            var p2 := p1 / 0x200;
            var p3 := p2 / 0x200;
            IndexPath(p0, 4) == [p3 % 0x200] + [p2 % 0x200] + [p1 % 0x200] + [p0 % 0x200]
  {
    var p1 := p0 / 0x200;
    var p2 := p1 / 0x200;
    var p3 := p2 / 0x200;
    assert IndexPath(p3 / 0x200, 0) == [];
    assert IndexPath(p3, 1) == [p3 % 0x200];
    assert IndexPath(p2, 2) == IndexPath(p3, 1) + [p2 % 0x200];
    assert IndexPath(p1, 3) == IndexPath(p2, 2) + [p1 % 0x200];
  }

  lemma Remainder(p: nat, high: nat, low: nat)
    requires p == 0x10_0000_0000 * high + low && low < 0x10_0000_0000
    ensures p % 0x10_0000_0000 == low
  {
  }

  lemma FourDigits(p0: nat)
    ensures var p1 := p0 / 0x200;
            var p2 := p1 / 0x200;
            var p3 := p2 / 0x200;
            p0 % 0x10_0000_0000 == 0x200 * (0x200 * (0x200 * (p3 % 0x200) + p2 % 0x200) + p1 % 0x200) + p0 % 0x200
  {
    var p1 := p0 / 0x200;
    var p2 := p1 / 0x200;
    var p3 := p2 / 0x200;
    var low2 := 0x200 * (p3 % 0x200) + p2 % 0x200;
    assert p2 == 0x4_0000 * (p3 / 0x200) + low2 && low2 < 0x4_0000;
    var low3 := 0x200 * low2 + p1 % 0x200;
    assert p1 == 0x800_0000 * (p3 / 0x200) + low3 && low3 < 0x800_0000;
    Remainder(p0, p3 / 0x200, 0x200 * low3 + p0 % 0x200);
  }

  lemma FourAppended(i0: Index, i1: Index, i2: Index, i3: Index)
    ensures PageOfPath([i0] + [i1] + [i2] + [i3])
         == 0x200 * (0x200 * (0x200 * i0 as nat + i1 as nat) + i2 as nat) + i3 as nat
  {
    PageOfPathAppend([], i0);
    assert [] + [i0] == [i0];
    PageOfPathAppend([i0], i1);
    PageOfPathAppend([i0] + [i1], i2);
    PageOfPathAppend([i0] + [i1] + [i2], i3);
  }

  lemma IndicesComposePage(a: nat)
    ensures VirtualPage(a) == PageOfPath(Indices(a))
  {
    var p0 := a / 0x1000;
    FourIndices(p0);
    FourDigits(p0);
    FourAppended(p0 / 0x200 / 0x200 / 0x200 % 0x200, p0 / 0x200 / 0x200 % 0x200, p0 / 0x200 % 0x200, p0 % 0x200);
  }

  lemma PageOfPathAppend(path: seq<Index>, i: Index)
    ensures PageOfPath(path + [i]) == 0x200 * PageOfPath(path) + i as nat
  {
    assert (path + [i])[..|path|] == path;
  }

  /** The indices tell virtual pages apart and depend on nothing else. */
  lemma IndicesDeterminePage(a: nat, b: nat)
    ensures Indices(a) == Indices(b) <==> VirtualPage(a) == VirtualPage(b)
  {
    IndicesComposePage(a);
    IndicesComposePage(b);
    if VirtualPage(a) == VirtualPage(b) {
      PageOfPathInjective(Indices(a), Indices(b));
    }
  }
}
