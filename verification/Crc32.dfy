/** gnu-efi/lib/crc.c: the table-driven CRC-32 of EFI table headers. */
module Crc32 {
  import opened Wrappers

  /** The reversed polynomial of section 8 of RFC 1952. */
  const POLYNOMIAL: bv32 := 0xedb88320

  // ----- the bitwise definition -----

  /** One bit of the division. */
  function BitStep(state: bv32): bv32 {
    if state & 1 == 1 then (state >> 1) ^ POLYNOMIAL else state >> 1
  }

  function TwoSteps(state: bv32): bv32 { BitStep(BitStep(state)) }

  function FourSteps(state: bv32): bv32 { TwoSteps(TwoSteps(state)) }

  function EightSteps(state: bv32): bv32 { FourSteps(FourSteps(state)) }

  // ----- the table -----

  /** One of the eight values of a row. */
  function Column(c: bv8, v0: bv32, v1: bv32, v2: bv32, v3: bv32, v4: bv32, v5: bv32, v6: bv32, v7: bv32): bv32 {
    match c
    case 0 => v0
    case 1 => v1
    case 2 => v2
    case 3 => v3
    case 4 => v4
    case 5 => v5
    case 6 => v6
    case _ => v7
  }

  /** `CRCTable`, in rows of eight. */
  function CrcTable(i: bv8): bv32 {
    var c := i & 7;
    match i >> 3
    case 0 => Column(c, 0x00000000, 0x77073096, 0xee0e612c, 0x990951ba, 0x076dc419, 0x706af48f, 0xe963a535, 0x9e6495a3)
    case 1 => Column(c, 0x0edb8832, 0x79dcb8a4, 0xe0d5e91e, 0x97d2d988, 0x09b64c2b, 0x7eb17cbd, 0xe7b82d07, 0x90bf1d91)
    case 2 => Column(c, 0x1db71064, 0x6ab020f2, 0xf3b97148, 0x84be41de, 0x1adad47d, 0x6ddde4eb, 0xf4d4b551, 0x83d385c7)
    case 3 => Column(c, 0x136c9856, 0x646ba8c0, 0xfd62f97a, 0x8a65c9ec, 0x14015c4f, 0x63066cd9, 0xfa0f3d63, 0x8d080df5)
    case 4 => Column(c, 0x3b6e20c8, 0x4c69105e, 0xd56041e4, 0xa2677172, 0x3c03e4d1, 0x4b04d447, 0xd20d85fd, 0xa50ab56b)
    case 5 => Column(c, 0x35b5a8fa, 0x42b2986c, 0xdbbbc9d6, 0xacbcf940, 0x32d86ce3, 0x45df5c75, 0xdcd60dcf, 0xabd13d59)
    case 6 => Column(c, 0x26d930ac, 0x51de003a, 0xc8d75180, 0xbfd06116, 0x21b4f4b5, 0x56b3c423, 0xcfba9599, 0xb8bda50f)
    case 7 => Column(c, 0x2802b89e, 0x5f058808, 0xc60cd9b2, 0xb10be924, 0x2f6f7c87, 0x58684c11, 0xc1611dab, 0xb6662d3d)
    case 8 => Column(c, 0x76dc4190, 0x01db7106, 0x98d220bc, 0xefd5102a, 0x71b18589, 0x06b6b51f, 0x9fbfe4a5, 0xe8b8d433)
    case 9 => Column(c, 0x7807c9a2, 0x0f00f934, 0x9609a88e, 0xe10e9818, 0x7f6a0dbb, 0x086d3d2d, 0x91646c97, 0xe6635c01)
    case 10 => Column(c, 0x6b6b51f4, 0x1c6c6162, 0x856530d8, 0xf262004e, 0x6c0695ed, 0x1b01a57b, 0x8208f4c1, 0xf50fc457)
    case 11 => Column(c, 0x65b0d9c6, 0x12b7e950, 0x8bbeb8ea, 0xfcb9887c, 0x62dd1ddf, 0x15da2d49, 0x8cd37cf3, 0xfbd44c65)
    case 12 => Column(c, 0x4db26158, 0x3ab551ce, 0xa3bc0074, 0xd4bb30e2, 0x4adfa541, 0x3dd895d7, 0xa4d1c46d, 0xd3d6f4fb)
    case 13 => Column(c, 0x4369e96a, 0x346ed9fc, 0xad678846, 0xda60b8d0, 0x44042d73, 0x33031de5, 0xaa0a4c5f, 0xdd0d7cc9)
    case 14 => Column(c, 0x5005713c, 0x270241aa, 0xbe0b1010, 0xc90c2086, 0x5768b525, 0x206f85b3, 0xb966d409, 0xce61e49f)
    case 15 => Column(c, 0x5edef90e, 0x29d9c998, 0xb0d09822, 0xc7d7a8b4, 0x59b33d17, 0x2eb40d81, 0xb7bd5c3b, 0xc0ba6cad)
    case 16 => Column(c, 0xedb88320, 0x9abfb3b6, 0x03b6e20c, 0x74b1d29a, 0xead54739, 0x9dd277af, 0x04db2615, 0x73dc1683)
    case 17 => Column(c, 0xe3630b12, 0x94643b84, 0x0d6d6a3e, 0x7a6a5aa8, 0xe40ecf0b, 0x9309ff9d, 0x0a00ae27, 0x7d079eb1)
    case 18 => Column(c, 0xf00f9344, 0x8708a3d2, 0x1e01f268, 0x6906c2fe, 0xf762575d, 0x806567cb, 0x196c3671, 0x6e6b06e7)
    case 19 => Column(c, 0xfed41b76, 0x89d32be0, 0x10da7a5a, 0x67dd4acc, 0xf9b9df6f, 0x8ebeeff9, 0x17b7be43, 0x60b08ed5)
    case 20 => Column(c, 0xd6d6a3e8, 0xa1d1937e, 0x38d8c2c4, 0x4fdff252, 0xd1bb67f1, 0xa6bc5767, 0x3fb506dd, 0x48b2364b)
    case 21 => Column(c, 0xd80d2bda, 0xaf0a1b4c, 0x36034af6, 0x41047a60, 0xdf60efc3, 0xa867df55, 0x316e8eef, 0x4669be79)
    case 22 => Column(c, 0xcb61b38c, 0xbc66831a, 0x256fd2a0, 0x5268e236, 0xcc0c7795, 0xbb0b4703, 0x220216b9, 0x5505262f)
    case 23 => Column(c, 0xc5ba3bbe, 0xb2bd0b28, 0x2bb45a92, 0x5cb36a04, 0xc2d7ffa7, 0xb5d0cf31, 0x2cd99e8b, 0x5bdeae1d)
    case 24 => Column(c, 0x9b64c2b0, 0xec63f226, 0x756aa39c, 0x026d930a, 0x9c0906a9, 0xeb0e363f, 0x72076785, 0x05005713)
    case 25 => Column(c, 0x95bf4a82, 0xe2b87a14, 0x7bb12bae, 0x0cb61b38, 0x92d28e9b, 0xe5d5be0d, 0x7cdcefb7, 0x0bdbdf21)
    case 26 => Column(c, 0x86d3d2d4, 0xf1d4e242, 0x68ddb3f8, 0x1fda836e, 0x81be16cd, 0xf6b9265b, 0x6fb077e1, 0x18b74777)
    case 27 => Column(c, 0x88085ae6, 0xff0f6a70, 0x66063bca, 0x11010b5c, 0x8f659eff, 0xf862ae69, 0x616bffd3, 0x166ccf45)
    case 28 => Column(c, 0xa00ae278, 0xd70dd2ee, 0x4e048354, 0x3903b3c2, 0xa7672661, 0xd06016f7, 0x4969474d, 0x3e6e77db)
    case 29 => Column(c, 0xaed16a4a, 0xd9d65adc, 0x40df0b66, 0x37d83bf0, 0xa9bcae53, 0xdebb9ec5, 0x47b2cf7f, 0x30b5ffe9)
    case 30 => Column(c, 0xbdbdf21c, 0xcabac28a, 0x53b39330, 0x24b4a3a6, 0xbad03605, 0xcdd70693, 0x54de5729, 0x23d967bf)
    case _ => Column(c, 0xb3667a2e, 0xc4614ab8, 0x5d681b02, 0x2a6f2b94, 0xb40bbe37, 0xc30c8ea1, 0x5a05df1b, 0x2d02ef8d)
  }

  lemma TableRows0(i: bv8)
    requires i >> 5 == 0
    ensures CrcTable(i) == EightSteps(i as bv32)
  {
    if i >> 3 == 0 {
      FirstTableRow(i);
    } else if i >> 3 == 1 {
    } else if i >> 3 == 2 {
    } else {
    }
  }

  lemma FirstTableRow(i: bv8)
    requires i >> 3 == 0
    ensures CrcTable(i) == EightSteps(i as bv32)
  {
    if i < 4 {
    } else {
    }
  }

  lemma TableRows1(i: bv8)
    requires i >> 5 == 1
    ensures CrcTable(i) == EightSteps(i as bv32)
  {
    if i >> 3 == 4 {
    } else if i >> 3 == 5 {
    } else if i >> 3 == 6 {
    } else {
    }
  }

  lemma TableRows2(i: bv8)
    requires i >> 5 == 2
    ensures CrcTable(i) == EightSteps(i as bv32)
  {
    if i >> 3 == 8 {
    } else if i >> 3 == 9 {
    } else if i >> 3 == 10 {
    } else {
    }
  }

  lemma TableRows3(i: bv8)
    requires i >> 5 == 3
    ensures CrcTable(i) == EightSteps(i as bv32)
  {
    if i >> 3 == 12 {
    } else if i >> 3 == 13 {
    } else if i >> 3 == 14 {
    } else {
    }
  }

  lemma TableRows4(i: bv8)
    requires i >> 5 == 4
    ensures CrcTable(i) == EightSteps(i as bv32)
  {
    if i >> 3 == 16 {
    } else if i >> 3 == 17 {
    } else if i >> 3 == 18 {
    } else {
    }
  }

  lemma TableRows5(i: bv8)
    requires i >> 5 == 5
    ensures CrcTable(i) == EightSteps(i as bv32)
  {
    if i >> 3 == 20 {
    } else if i >> 3 == 21 {
    } else if i >> 3 == 22 {
    } else {
    }
  }

  lemma TableRows6(i: bv8)
    requires i >> 5 == 6
    ensures CrcTable(i) == EightSteps(i as bv32)
  {
    if i >> 3 == 24 {
    } else if i >> 3 == 25 {
    } else if i >> 3 == 26 {
    } else {
    }
  }

  lemma TableRows7(i: bv8)
    requires i >> 5 == 7
    ensures CrcTable(i) == EightSteps(i as bv32)
  {
    if i >> 3 == 28 {
    } else if i >> 3 == 29 {
    } else if i >> 3 == 30 {
    } else {
    }
  }

  /** Every entry of the table is eight bit steps of its index. */
  lemma TableIsEightSteps(i: bv8)
    ensures CrcTable(i) == EightSteps(i as bv32)
  {
    match i >> 5
    case 0 => TableRows0(i);
    case 1 => TableRows1(i);
    case 2 => TableRows2(i);
    case 3 => TableRows3(i);
    case 4 => TableRows4(i);
    case 5 => TableRows5(i);
    case 6 => TableRows6(i);
    case _ => TableRows7(i);
  }

  // ----- eight bit steps as an abstract operation -----

  // The definitions are wrapped: where `Shown` is not mentioned, no reasoning about single bits is needed.

  ghost predicate AreEightSteps(state: bv32, r: bv32) {
    forall k {:trigger Shown(k)} :: Shown(k) ==> r == EightSteps(state)
  }

  ghost function EightBits(state: bv32): (r: bv32)
    ensures AreEightSteps(state, r)
  {
    assert AreEightSteps(state, EightSteps(state));
    var r :| AreEightSteps(state, r);
    r
  }

  ghost predicate Linear(f: bv32 -> bv32) {
    forall a, b {:trigger f(a ^ b)} :: f(a ^ b) == f(a) ^ f(b)
  }

  ghost predicate Injective(f: bv32 -> bv32) {
    forall a, b {:trigger f(a), f(b)} :: f(a) == f(b) ==> a == b
  }

  lemma XorShift(a: bv32, b: bv32)
    ensures (a ^ b) >> 1 == (a >> 1) ^ (b >> 1)
    ensures ((a ^ b) & 1 == 1) == ((a & 1 == 1) != (b & 1 == 1))
  {
  }

  lemma XorLaws(a: bv32, b: bv32, p: bv32)
    ensures (a ^ p) ^ (b ^ p) == a ^ b && (a ^ p) ^ b == (a ^ b) ^ p && a ^ (b ^ p) == (a ^ b) ^ p
  {
  }

  lemma BitStepLinear(a: bv32, b: bv32)
    ensures BitStep(a ^ b) == BitStep(a) ^ BitStep(b)
  {
    XorShift(a, b);
    XorLaws(a >> 1, b >> 1, POLYNOMIAL);
  }

  /** A bit step can be undone: its top bit tells which bit was shifted out. */
  lemma BitStepInjective(a: bv32, b: bv32)
    requires BitStep(a) == BitStep(b)
    ensures a == b
  {
  }

  /** Doing a linear injective step twice is linear and injective. */
  lemma Twice(f: bv32 -> bv32) returns (g: bv32 -> bv32)
    requires Linear(f) && Injective(f)
    ensures Linear(g) && Injective(g) && forall x :: g(x) == f(f(x))
  {
    g := x => f(f(x));
  }

  lemma BitStepBijective() returns (f: bv32 -> bv32)
    ensures Linear(f) && Injective(f) && forall x :: f(x) == BitStep(x)
  {
    f := BitStep;
    forall a: bv32, b: bv32
      ensures BitStep(a ^ b) == BitStep(a) ^ BitStep(b)
    {
      BitStepLinear(a, b);
    }
    forall a: bv32, b: bv32 | BitStep(a) == BitStep(b)
      ensures a == b
    {
      BitStepInjective(a, b);
    }
  }

  /** Eight bit steps are linear and injective, hence a bijection of the states. */
  lemma EightBitsBijective() returns (f: bv32 -> bv32)
    ensures Linear(f) && Injective(f) && forall x :: f(x) == EightBits(x)
  {
    var one := BitStepBijective();
    var two := Twice(one);
    var four := Twice(two);
    f := Twice(four);
    assert Shown(0);
  }

  lemma EightBitsLinear(a: bv32, b: bv32, x: bv32)
    requires x == a ^ b
    ensures EightBits(x) == EightBits(a) ^ EightBits(b)
  {
    var f := EightBitsBijective();
    assert f(a ^ b) == f(a) ^ f(b);
  }

  lemma EightBitsInjective(a: bv32, b: bv32)
    requires EightBits(a) == EightBits(b)
    ensures a == b
  {
    var f := EightBitsBijective();
    assert f(a) == f(b);
  }

  /** Eight bit steps move the upper three bytes down. */
  lemma EightBitsShift(a: bv32)
    requires a & 0xff == 0
    ensures EightBits(a) == a >> 8
  {
    assert Shown(0);
    EightStepsShift(a);
  }

  lemma EightStepsShift(a: bv32)
    requires a & 0xff == 0
    ensures EightSteps(a) == a >> 8
  {
  }

  method TableLookup(i: bv8) returns (entry: bv32)
    ensures entry == EightBits(i as bv32)
  {
    entry := CrcTable(i);
    TableIsEightSteps(i);
    assert Shown(0);
  }

  // ----- the algorithm -----

  /** One byte: it is added to the low end of the state, followed by eight bit steps. */
  ghost function Feed(state: bv32, byte: bv8): bv32 { EightBits(state ^ (byte as bv32)) }

  /** The state after all bytes. */
  ghost function Fold(state: bv32, bytes: seq<bv8>): bv32 {
    if bytes == [] then state else Feed(Fold(state, bytes[..|bytes| - 1]), bytes[|bytes| - 1])
  }

  /** The CRC-32 of section 8 of RFC 1952. */
  ghost function Crc(bytes: seq<bv8>): bv32 { Fold(0xffff_ffff, bytes) ^ 0xffff_ffff }

  /** `x` is a word `high` with a clear low byte, plus `low`; `shifted` is `high` moved down by a byte. */
  ghost predicate Parts(x: bv32, low: bv32, shifted: bv32) {
    forall k {:trigger Shown(k)} :: Shown(k) ==> exists high :: PartsAt(x, high, low, shifted)
  }

  ghost predicate PartsAt(x: bv32, high: bv32, low: bv32, shifted: bv32) {
    x == high ^ low && high & 0xff == 0 && high >> 8 == shifted
  }

  lemma ByParts(x: bv32, low: bv32, shifted: bv32)
    requires Parts(x, low, shifted)
    ensures shifted ^ EightBits(low) == EightBits(x)
  {
    assert Shown(0);
    var high :| PartsAt(x, high, low, shifted);
    PartsAdd(x, high, low, shifted);
  }

  lemma PartsAdd(x: bv32, high: bv32, low: bv32, shifted: bv32)
    requires PartsAt(x, high, low, shifted)
    ensures shifted ^ EightBits(low) == EightBits(x)
  {
    EightBitsLinear(high, low, x);
    EightBitsShift(high);
  }

  lemma AddedByte(state: bv32, byte: bv8, i: bv8)
    requires i == ((state & 0xff) as bv8) ^ byte
    ensures Parts(state ^ (byte as bv32), i as bv32, state >> 8)
  {
    AddedByteAt(state, byte);
  }

  lemma AddedByteAt(state: bv32, byte: bv8)
    ensures PartsAt(state ^ (byte as bv32), (state ^ (byte as bv32)) & 0xffff_ff00,
                    (((state & 0xff) as bv8) ^ byte) as bv32, state >> 8)
  {
  }

  /** One table step is eight bit steps. */
  lemma TableStepIsFeed(state: bv32, byte: bv8, i: bv8)
    requires i == ((state & 0xff) as bv8) ^ byte
    ensures (state >> 8) ^ EightBits(i as bv32) == Feed(state, byte)
  {
    AddedByte(state, byte, i);
    ByParts(state ^ (byte as bv32), i as bv32, state >> 8);
  }

  /** The 64-bit word holds the state in its lower half and zeros above. */
  ghost predicate Holds(wide: bv64, state: bv32) {
    forall k {:trigger Shown(k)} :: Shown(k) ==> wide == state as bv64
  }

  lemma WideStep(wide: bv64, state: bv32, byte: bv8, i: bv8, entry: bv32, crc: bv64)
    requires Holds(wide, state) && i == ((wide & 0xff) as bv8) ^ byte && crc == (wide >> 8) ^ (entry as bv64)
    ensures i == ((state & 0xff) as bv8) ^ byte && Holds(crc, (state >> 8) ^ entry)
  {
    assert Shown(0);
  }

  lemma HoldsFeed(state: bv32, byte: bv8, i: bv8, entry: bv32, crc: bv64)
    requires i == ((state & 0xff) as bv8) ^ byte && entry == EightBits(i as bv32)
    requires Holds(crc, (state >> 8) ^ entry)
    ensures Holds(crc, Feed(state, byte))
  {
    TableStepIsFeed(state, byte, i);
  }

  /** The loop body of `CalculateCrc`; the ghost state is the lower half of the word. */
  method CrcLoopBody(wide: bv64, ghost state: bv32, byte: bv8) returns (crc: bv64)
    requires Holds(wide, state)
    ensures Holds(crc, Feed(state, byte))
  {
    var i := ((wide & 0xff) as bv8) ^ byte;
    var entry := TableLookup(i);
    crc := (wide >> 8) ^ (entry as bv64);
    WideStep(wide, state, byte, i, entry, crc);
    HoldsFeed(state, byte, i, entry, crc);
  }

  method Complement(wide: bv64, ghost state: bv32) returns (result: bv32)
    requires Holds(wide, state)
    ensures result == state ^ 0xffff_ffff
  {
    assert Shown(0);
    var crc := wide ^ 0xffff_ffff;
    result := (crc & 0xffff_ffff) as bv32;
  }

  /** The state is kept in a 64-bit word, whose upper half stays zero. */
  method CalculateCrc(pt: array<bv8>, size: nat) returns (result: bv32)
    requires size <= pt.Length
    ensures result == Crc(pt[..size])
  {
    var crc: bv64 := 0xffff_ffff;
    for i := 0 to size
      invariant Holds(crc, Fold(0xffff_ffff, pt[..i]))
    {
      assert pt[..i + 1][..i] == pt[..i];
      crc := CrcLoopBody(crc, Fold(0xffff_ffff, pt[..i]), pt[i]);
    }
    result := Complement(crc, Fold(0xffff_ffff, pt[..size]));
  }

  // ----- the constants -----

  lemma FeedByTable(state: bv32, byte: bv8, i: bv8, r: bv32)
    requires i == ((state & 0xff) as bv8) ^ byte && r == (state >> 8) ^ CrcTable(i)
    ensures Feed(state, byte) == r
  {
    TableIsEightSteps(i);
    TableStepIsFeed(state, byte, i);
    EntryIs(i);
  }

  lemma EntryIs(i: bv8)
    ensures CrcTable(i) == EightBits(i as bv32)
  {
    TableIsEightSteps(i);
    assert Shown(0);
  }

  lemma EightBitsByTable(state: bv32, i: bv8, r: bv32)
    requires i == (state & 0xff) as bv8 && r == (state >> 8) ^ CrcTable(i)
    ensures EightBits(state) == r
  {
    FeedByTable(state, 0, i, r);
    NothingAdded(state);
  }

  lemma NothingAdded(state: bv32)
    ensures state ^ (0 as bv8 as bv32) == state
  {
  }

  /** The digits 1 to 9, in ASCII. */
  const DIGITS: seq<bv8> := [0x31, 0x32, 0x33, 0x34, 0x35, 0x36, 0x37, 0x38, 0x39]

  lemma DigitOne()
    ensures Feed(0xffff_ffff, 0x31) == 0x7c23_1048
  {
    FeedByTable(0xffff_ffff, 0x31, 0xce, 0x7c23_1048);
  }

  lemma DigitTwo()
    ensures Feed(0x7c23_1048, 0x32) == 0xb0ac_bb32
  {
    FeedByTable(0x7c23_1048, 0x32, 0x7a, 0xb0ac_bb32);
  }

  lemma DigitThree()
    ensures Feed(0xb0ac_bb32, 0x33) == 0x77b7_9c2d
  {
    FeedByTable(0xb0ac_bb32, 0x33, 0x01, 0x77b7_9c2d);
  }

  lemma DigitFour()
    ensures Feed(0x77b7_9c2d, 0x34) == 0x641c_1f5c
  {
    FeedByTable(0x77b7_9c2d, 0x34, 0x19, 0x641c_1f5c);
  }

  lemma DigitFive()
    ensures Feed(0x641c_1f5c, 0x35) == 0x340a_c5e3
  {
    FeedByTable(0x641c_1f5c, 0x35, 0x69, 0x340a_c5e3);
  }

  lemma DigitSix()
    ensures Feed(0x340a_c5e3, 0x36) == 0xf68d_2c9e
  {
    FeedByTable(0x340a_c5e3, 0x36, 0xd5, 0xf68d_2c9e);
  }

  lemma DigitSeven()
    ensures Feed(0xf68d_2c9e, 0x37) == 0xaffc_9660
  {
    FeedByTable(0xf68d_2c9e, 0x37, 0xa9, 0xaffc_9660);
  }

  lemma DigitEight()
    ensures Feed(0xaffc_9660, 0x38) == 0x651f_2550
  {
    FeedByTable(0xaffc_9660, 0x38, 0x58, 0x651f_2550);
  }

  lemma DigitNine()
    ensures Feed(0x651f_2550, 0x39) == 0x340b_c6d9
  {
    FeedByTable(0x651f_2550, 0x39, 0x69, 0x340b_c6d9);
  }

  lemma FoldNext(k: nat, state: bv32)
    requires k < 9 && Fold(0xffff_ffff, DIGITS[..k]) == state
    ensures Fold(0xffff_ffff, DIGITS[..k + 1]) == Feed(state, DIGITS[k])
  {
    FoldStep(0xffff_ffff, DIGITS, k);
  }

  lemma DigitsFolded()
    ensures Fold(0xffff_ffff, DIGITS[..9]) == 0x340b_c6d9
  {
    assert DIGITS[..0] == [];
    FoldNext(0, 0xffff_ffff);
    DigitOne();
    FoldNext(1, 0x7c23_1048);
    DigitTwo();
    FoldNext(2, 0xb0ac_bb32);
    DigitThree();
    FoldNext(3, 0x77b7_9c2d);
    DigitFour();
    FoldNext(4, 0x641c_1f5c);
    DigitFive();
    FoldNext(5, 0x340a_c5e3);
    DigitSix();
    FoldNext(6, 0xf68d_2c9e);
    DigitSeven();
    FoldNext(7, 0xaffc_9660);
    DigitEight();
    FoldNext(8, 0x651f_2550);
    DigitNine();
  }

  /** The customary check value, which settles what the state begins with and that it is complemented. */
  lemma CheckValue()
    ensures Crc(DIGITS) == 0xcbf4_3926
  {
    DigitsFolded();
    assert DIGITS[..9] == DIGITS;
  }

  /** Four bytes as a word, least significant first. */
  function Assemble(b0: bv8, b1: bv8, b2: bv8, b3: bv8): bv32 {
    (b0 as bv32) | ((b1 as bv32) << 8) | ((b2 as bv32) << 16) | ((b3 as bv32) << 24)
  }

  const RESIDUE: bv32 := 0x2144df1c

  lemma OnesOne()
    ensures EightBits(0xffff_ffff) == 0x2dfd_1072
  {
    EightBitsByTable(0xffff_ffff, 0xff, 0x2dfd_1072);
  }

  lemma OnesTwo()
    ensures EightBits(0x2dfd_1072) == 0xbe26_ed00
  {
    EightBitsByTable(0x2dfd_1072, 0x72, 0xbe26_ed00);
  }

  lemma OnesThree()
    ensures EightBits(0xbe26_ed00) == 0x00be_26ed
  {
    EightBitsByTable(0xbe26_ed00, 0x00, 0x00be_26ed);
  }

  lemma OnesFour()
    ensures EightBits(0x00be_26ed) == 0xdebb_20e3
  {
    EightBitsByTable(0x00be_26ed, 0xed, 0xdebb_20e3);
  }

  lemma ResidueIs()
    ensures FourTimes(0xffff_ffff) == 0xdebb_20e3
  {
    OnesOne();
    OnesTwo();
    OnesThree();
    OnesFour();
  }

  lemma WordFed(state: bv32, b: seq<bv8>, x: bv32)
    requires |b| == 4 && x == WordAdded(state, b[0], b[1], b[2], b[3])
    ensures Fold(state, b) == FourTimes(x)
  {
    FoldFour(state, b);
  }

  lemma WordAppended(m: seq<bv8>, b: seq<bv8>, state: bv32, x: bv32)
    requires |b| == 4 && state == Fold(0xffff_ffff, m) && x == WordAdded(state, b[0], b[1], b[2], b[3])
    ensures Fold(0xffff_ffff, m + b) == FourTimes(x)
  {
    FoldAppend(0xffff_ffff, m, b);
    WordFed(state, b, x);
  }

  /** The sum of a state and a word is all ones for one word only, the complement of the state. */
  lemma OnesIfComplement(state: bv32, v: bv32)
    ensures state ^ v == 0xffff_ffff <==> v == state ^ 0xffff_ffff
  {
    if v == state ^ 0xffff_ffff {
      ComplementAdds(state, v);
    }
    if state ^ v == 0xffff_ffff {
      SameComplement(state, v);
    }
  }

  lemma ComplementAdds(state: bv32, v: bv32)
    requires v == state ^ 0xffff_ffff
    ensures state ^ v == 0xffff_ffff
  {
  }

  lemma SameComplement(state: bv32, v: bv32)
    requires state ^ v == 0xffff_ffff
    ensures v == state ^ 0xffff_ffff
  {
  }

  lemma ResidueComplement(state: bv32)
    ensures state ^ 0xffff_ffff == RESIDUE <==> state == 0xdebb_20e3
  {
  }

  lemma WordAddedIs(state: bv32, b0: bv8, b1: bv8, b2: bv8, b3: bv8)
    ensures WordAdded(state, b0, b1, b2, b3) == state ^ Assemble(b0, b1, b2, b3)
  {
  }

  /** Any message with its own CRC behind it, least significant byte first, has one and the same CRC, and with any other
      four bytes behind it another one. */
  lemma CrcOfMessageWithCrc(m: seq<bv8>, b: seq<bv8>)
    requires |b| == 4
    ensures Crc(m + b) == RESIDUE <==> Assemble(b[0], b[1], b[2], b[3]) == Crc(m)
  {
    var state := Fold(0xffff_ffff, m);
    var x := WordAdded(state, b[0], b[1], b[2], b[3]);
    WordAppended(m, b, state, x);
    ResidueIff(state, b[0], b[1], b[2], b[3], x, m + b);
  }

  lemma ResidueIff(state: bv32, b0: bv8, b1: bv8, b2: bv8, b3: bv8, x: bv32, all: seq<bv8>)
    requires x == WordAdded(state, b0, b1, b2, b3) && Fold(0xffff_ffff, all) == FourTimes(x)
    ensures Crc(all) == RESIDUE <==> Assemble(b0, b1, b2, b3) == state ^ 0xffff_ffff
  {
    WordAddedIs(state, b0, b1, b2, b3);
    OnesIfComplement(state, Assemble(b0, b1, b2, b3));
    ResidueIs();
    ResidueComplement(FourTimes(x));
    OnlyOnes(x);
  }

  lemma OnlyOnes(x: bv32)
    ensures FourTimes(x) == FourTimes(0xffff_ffff) <==> x == 0xffff_ffff
  {
    if FourTimes(x) == FourTimes(0xffff_ffff) {
      FourTimesInjective(x, 0xffff_ffff);
    }
  }

  // ----- detection of errors -----

  lemma {:induction false} FoldAppend(state: bv32, a: seq<bv8>, b: seq<bv8>)
    ensures Fold(state, a + b) == Fold(Fold(state, a), b)
  {
    if b == [] {
      assert a + b == a;
    } else {
      assert (a + b)[..|a + b| - 1] == a + b[..|b| - 1];
      FoldAppend(state, a, b[..|b| - 1]);
    }
  }

  lemma XorCancel(a: bv32, b: bv32, p: bv32)
    requires a ^ p == b ^ p
    ensures a == b
  {
  }

  lemma SumInjective(a: bv32, b: bv32, p: bv32)
    requires EightBits(a ^ p) == EightBits(b ^ p)
    ensures a == b
  {
    EightBitsInjective(a ^ p, b ^ p);
    XorCancel(a, b, p);
  }

  lemma FeedInjective(a: bv32, b: bv32, byte: bv8)
    requires Feed(a, byte) == Feed(b, byte)
    ensures a == b
  {
    SumInjective(a, b, byte as bv32);
  }

  /** Different states stay different over the same bytes. */
  lemma {:induction false} FoldInjective(s: bv32, t: bv32, bytes: seq<bv8>)
    requires Fold(s, bytes) == Fold(t, bytes)
    ensures s == t
  {
    if bytes != [] {
      var init := bytes[..|bytes| - 1];
      FeedInjective(Fold(s, init), Fold(t, init), bytes[|bytes| - 1]);
      FoldInjective(s, t, init);
    }
  }

  /** Adding a word after eight bit steps is adding it one byte further up before them. */
  lemma Delay(z: bv32, y: bv32, up: bv32, x: bv32)
    requires up & 0xff == 0 && up >> 8 == y && x == z ^ up
    ensures EightBits(x) == EightBits(z) ^ y
  {
    EightBitsLinear(z, up, x);
    EightBitsShift(up);
  }

  lemma Delay1(z: bv32, byte: bv8)
    ensures EightBits(z ^ ((byte as bv32) << 8)) == EightBits(z) ^ (byte as bv32)
  {
    Delay(z, byte as bv32, (byte as bv32) << 8, z ^ ((byte as bv32) << 8));
  }

  lemma Delay2(z: bv32, byte: bv8)
    ensures EightBits(z ^ ((byte as bv32) << 16)) == EightBits(z) ^ ((byte as bv32) << 8)
  {
    Delay(z, (byte as bv32) << 8, (byte as bv32) << 16, z ^ ((byte as bv32) << 16));
  }

  lemma Delay3(z: bv32, byte: bv8)
    ensures EightBits(z ^ ((byte as bv32) << 24)) == EightBits(z) ^ ((byte as bv32) << 16)
  {
    Delay(z, (byte as bv32) << 16, (byte as bv32) << 24, z ^ ((byte as bv32) << 24));
  }

  lemma TwoFeeds(x0: bv32, x1: bv32, b1: bv8)
    requires x1 == x0 ^ ((b1 as bv32) << 8)
    ensures Feed(EightBits(x0), b1) == EightBits(EightBits(x1))
  {
    Delay1(x0, b1);
  }

  lemma ThreeFeeds(x1: bv32, x2: bv32, b2: bv8)
    requires x2 == x1 ^ ((b2 as bv32) << 16)
    ensures Feed(EightBits(EightBits(x1)), b2) == EightBits(EightBits(EightBits(x2)))
  {
    Delay2(x1, b2);
    TwoFeeds(EightBits(x1), EightBits(x2), b2);
  }

  lemma FourFeeds(x2: bv32, x3: bv32, b3: bv8)
    requires x3 == x2 ^ ((b3 as bv32) << 24)
    ensures Feed(EightBits(EightBits(EightBits(x2))), b3) == EightBits(EightBits(EightBits(EightBits(x3))))
  {
    Delay3(x2, b3);
    ThreeFeeds(EightBits(x2), EightBits(x3), b3);
  }

  /** The state with a little-endian word of four bytes added. */
  function WordAdded(state: bv32, b0: bv8, b1: bv8, b2: bv8, b3: bv8): bv32 {
    (((state ^ (b0 as bv32)) ^ ((b1 as bv32) << 8)) ^ ((b2 as bv32) << 16)) ^ ((b3 as bv32) << 24)
  }

  lemma FoldStep(state: bv32, b: seq<bv8>, k: nat)
    requires k < |b|
    ensures Fold(state, b[..k + 1]) == Feed(Fold(state, b[..k]), b[k])
  {
    assert b[..k + 1][..k] == b[..k];
  }

  lemma FourStates(state: bv32, b0: bv8, b1: bv8, b2: bv8, b3: bv8, x0: bv32, x1: bv32, x2: bv32, x3: bv32)
    requires x0 == state ^ (b0 as bv32) && x1 == x0 ^ ((b1 as bv32) << 8)
    requires x2 == x1 ^ ((b2 as bv32) << 16) && x3 == x2 ^ ((b3 as bv32) << 24)
    ensures Feed(Feed(Feed(Feed(state, b0), b1), b2), b3) == FourTimes(x3)
  {
    TwoFeeds(x0, x1, b1);
    ThreeFeeds(x1, x2, b2);
    FourFeeds(x2, x3, b3);
  }

  ghost function FourTimes(x: bv32): bv32 { EightBits(EightBits(EightBits(EightBits(x)))) }

  lemma FourFed(state: bv32, b0: bv8, b1: bv8, b2: bv8, b3: bv8)
    ensures Feed(Feed(Feed(Feed(state, b0), b1), b2), b3) == FourTimes(WordAdded(state, b0, b1, b2, b3))
  {
    var x0 := state ^ (b0 as bv32);
    var x1 := x0 ^ ((b1 as bv32) << 8);
    var x2 := x1 ^ ((b2 as bv32) << 16);
    FourStates(state, b0, b1, b2, b3, x0, x1, x2, WordAdded(state, b0, b1, b2, b3));
  }

  lemma FoldFour(state: bv32, b: seq<bv8>)
    requires |b| == 4
    ensures Fold(state, b) == FourTimes(WordAdded(state, b[0], b[1], b[2], b[3]))
  {
    assert b[..4] == b && b[..0] == [];
    FoldStep(state, b, 0);
    FoldStep(state, b, 1);
    FoldStep(state, b, 2);
    FoldStep(state, b, 3);
    FourFed(state, b[0], b[1], b[2], b[3]);
  }

  lemma FourTimesInjective(x: bv32, y: bv32)
    requires FourTimes(x) == FourTimes(y)
    ensures x == y
  {
    EightBitsInjective(EightBits(EightBits(EightBits(x))), EightBits(EightBits(EightBits(y))));
    EightBitsInjective(EightBits(EightBits(x)), EightBits(EightBits(y)));
    EightBitsInjective(EightBits(x), EightBits(y));
    EightBitsInjective(x, y);
  }

  lemma WordInjective(s: bv32, a0: bv8, a1: bv8, a2: bv8, a3: bv8, b0: bv8, b1: bv8, b2: bv8, b3: bv8)
    requires WordAdded(s, a0, a1, a2, a3) == WordAdded(s, b0, b1, b2, b3)
    ensures a0 == b0 && a1 == b1 && a2 == b2 && a3 == b3
  {
  }

  /** The four bytes can be told from the state they lead to. */
  lemma FourBytesInjective(state: bv32, a: seq<bv8>, b: seq<bv8>)
    requires |a| == |b| == 4 && Fold(state, a) == Fold(state, b)
    ensures a == b
  {
    FoldFour(state, a);
    FoldFour(state, b);
    FourTimesInjective(WordAdded(state, a[0], a[1], a[2], a[3]), WordAdded(state, b[0], b[1], b[2], b[3]));
    WordInjective(state, a[0], a[1], a[2], a[3], b[0], b[1], b[2], b[3]);
  }

  lemma UpToFourBytesInjective(state: bv32, a: seq<bv8>, b: seq<bv8>)
    requires |a| == |b| <= 4 && Fold(state, a) == Fold(state, b)
    ensures a == b
  {
    var pad: seq<bv8> := seq(4 - |a|, i => 0);
    FoldAppend(state, a, pad);
    FoldAppend(state, b, pad);
    FourBytesInjective(state, a + pad, b + pad);
    assert a == (a + pad)[..|a|] && b == (b + pad)[..|b|];
  }

  lemma SameFold(state: bv32, before: seq<bv8>, a: seq<bv8>, b: seq<bv8>, after: seq<bv8>)
    requires |a| == |b| <= 4 && Fold(state, before + a + after) == Fold(state, before + b + after)
    ensures a == b
  {
    FoldAppend(state, before + a, after);
    FoldAppend(state, before, a);
    FoldAppend(state, before + b, after);
    FoldAppend(state, before, b);
    FoldInjective(Fold(Fold(state, before), a), Fold(Fold(state, before), b), after);
    UpToFourBytesInjective(Fold(state, before), a, b);
  }

  lemma CrcDetermines(m: seq<bv8>, n: seq<bv8>)
    requires Crc(m) == Crc(n)
    ensures Fold(0xffff_ffff, m) == Fold(0xffff_ffff, n)
  {
    XorCancel(Fold(0xffff_ffff, m), Fold(0xffff_ffff, n), 0xffff_ffff);
  }

  /** Messages of equal length that differ only within four consecutive bytes have different CRCs. */
  lemma ChangeDetected(m: seq<bv8>, n: seq<bv8>, first: nat)
    requires |m| == |n| && m != n
    requires forall i :: 0 <= i < |m| && !(first <= i < first + 4) ==> m[i] == n[i]
    ensures Crc(m) != Crc(n)
  {
    var lo := if first < |m| then first else |m|;
    var hi := if first + 4 < |m| then first + 4 else |m|;
    assert m == m[..lo] + m[lo..hi] + m[hi..];
    assert n == m[..lo] + n[lo..hi] + m[hi..];
    if Crc(m) == Crc(n) {
      CrcDetermines(m, n);
      SameFold(0xffff_ffff, m[..lo], m[lo..hi], n[lo..hi], m[hi..]);
    }
  }

  // ----- the CRC of a difference -----

  /** Byte by byte, which bits differ. */
  function Difference(a: seq<bv8>, b: seq<bv8>): (d: seq<bv8>)
    requires |a| == |b|
    ensures |d| == |a|
  {
    if a == [] then [] else Difference(a[..|a| - 1], b[..|b| - 1]) + [a[|a| - 1] ^ b[|b| - 1]]
  }

  lemma {:induction false} DifferenceAt(a: seq<bv8>, b: seq<bv8>, i: nat)
    requires i < |a| == |b|
    ensures Difference(a, b)[i] == a[i] ^ b[i]
  {
    if i < |a| - 1 {
      DifferenceAt(a[..|a| - 1], b[..|b| - 1], i);
    }
  }

  ghost predicate IsSum(a: bv32, b: bv32, r: bv32) { forall k {:trigger Shown(k)} :: Shown(k) ==> r == a ^ b }

  /** The sum of two states, as an abstract operation. */
  ghost function Sum(a: bv32, b: bv32): (r: bv32)
    ensures IsSum(a, b, r)
  {
    assert IsSum(a, b, a ^ b);
    var r :| IsSum(a, b, r);
    r
  }

  lemma SumIs(a: bv32, b: bv32, r: bv32)
    ensures r == Sum(a, b) <==> r == a ^ b
  {
    assert Shown(0);
  }

  lemma SumsAdd(s: bv32, t: bv32, u: bv32, x: bv8, y: bv8, z: bv8, a: bv32, b: bv32, c: bv32)
    requires u == s ^ t && z == x ^ y && a == s ^ (x as bv32) && b == t ^ (y as bv32) && c == u ^ (z as bv32)
    ensures c == a ^ b
  {
  }

  lemma FeedIs(s: bv32, x: bv8, a: bv32)
    requires a == s ^ (x as bv32)
    ensures Feed(s, x) == EightBits(a)
  {
  }

  lemma LinearSum(f: bv32 -> bv32, a: bv32, b: bv32, c: bv32, p: bv32, q: bv32, r: bv32)
    requires Linear(f) && c == a ^ b && p == f(a) && q == f(b) && r == f(c)
    ensures r == Sum(p, q)
  {
    assert f(a ^ b) == f(a) ^ f(b);
    SumIs(p, q, r);
  }

  lemma EightBitsAdd(a: bv32, b: bv32, c: bv32, p: bv32, q: bv32, r: bv32)
    requires c == a ^ b && p == EightBits(a) && q == EightBits(b) && r == EightBits(c)
    ensures r == Sum(p, q)
  {
    var f := EightBitsBijective();
    LinearSum(f, a, b, c, p, q, r);
  }

  lemma FeedLinear(s: bv32, t: bv32, u: bv32, x: bv8, y: bv8, z: bv8)
    requires u == Sum(s, t) && z == x ^ y
    ensures Feed(u, z) == Sum(Feed(s, x), Feed(t, y))
  {
    var a, b, c := s ^ (x as bv32), t ^ (y as bv32), u ^ (z as bv32);
    SumIs(s, t, u);
    SumsAdd(s, t, u, x, y, z, a, b, c);
    FeedIs(s, x, a);
    FeedIs(t, y, b);
    FeedIs(u, z, c);
    EightBitsAdd(a, b, c, Feed(s, x), Feed(t, y), Feed(u, z));
  }

  lemma DifferenceLast(a: seq<bv8>, b: seq<bv8>)
    requires |a| == |b| > 0
    ensures Difference(a, b)[..|a| - 1] == Difference(a[..|a| - 1], b[..|b| - 1])
    ensures Difference(a, b)[|a| - 1] == a[|a| - 1] ^ b[|b| - 1]
  {
  }

  lemma FoldLast(s: bv32, a: seq<bv8>)
    requires a != []
    ensures Fold(s, a) == Feed(Fold(s, a[..|a| - 1]), a[|a| - 1])
  {
  }

  lemma {:induction false} FoldLinear(s: bv32, t: bv32, u: bv32, a: seq<bv8>, b: seq<bv8>)
    requires |a| == |b| && u == Sum(s, t)
    ensures Fold(u, Difference(a, b)) == Sum(Fold(s, a), Fold(t, b))
  {
    if a != [] {
      var last := |a| - 1;
      DifferenceLast(a, b);
      FoldLinear(s, t, u, a[..last], b[..last]);
      FeedLinear(Fold(s, a[..last]), Fold(t, b[..last]), Fold(u, Difference(a[..last], b[..last])),
                 a[last], b[last], Difference(a, b)[last]);
      FoldLast(s, a);
      FoldLast(t, b);
      FoldLast(u, Difference(a, b));
    }
  }

  lemma SumsCancel(a: bv32, b: bv32, p: bv32, q: bv32, ones: bv32)
    requires p == a ^ ones && q == b ^ ones
    ensures p ^ q == a ^ b
  {
  }

  lemma SumCancels(a: bv32, b: bv32, c: bv32)
    requires Sum(a, c) == Sum(b, c)
    ensures a == b
  {
    SumIs(a, c, Sum(a, c));
    SumIs(b, c, Sum(b, c));
    XorCancel(a, b, c);
  }

  /** By how much two CRCs differ depends on the difference of the messages only. */
  lemma CrcDifference(a: seq<bv8>, b: seq<bv8>)
    requires |a| == |b|
    ensures Fold(0, Difference(a, b)) == Sum(Crc(a), Crc(b))
  {
    var ones: bv32 := 0xffff_ffff;
    SumIs(ones, ones, 0);
    FoldLinear(ones, ones, 0, a, b);
    ComplementsAdd(Fold(ones, a), Fold(ones, b), Crc(a), Crc(b), Fold(0, Difference(a, b)));
  }

  lemma ComplementsAdd(a: bv32, b: bv32, p: bv32, q: bv32, r: bv32)
    requires p == a ^ 0xffff_ffff && q == b ^ 0xffff_ffff && r == Sum(a, b)
    ensures r == Sum(p, q)
  {
    SumIs(a, b, r);
    SumsCancel(a, b, p, q, 0xffff_ffff);
    SumIs(p, q, r);
  }

  /** Zeros leave the zero state. */
  lemma {:induction false} FoldZeros(bytes: seq<bv8>)
    requires forall i :: 0 <= i < |bytes| ==> bytes[i] == 0
    ensures Fold(0, bytes) == 0
  {
    if bytes != [] {
      FoldZeros(bytes[..|bytes| - 1]);
      EightBitsShift(0);
    }
  }

  lemma NineSteps()
    ensures EightBits(0x19) == 0x646b_a8c0 && EightBits(0x646b_a8c0) == 0x9b00_a918 && EightBits(0x9b00_a918) == 0x13f7_98ff
    ensures EightBits(0x13f7_98ff) == 0x2d11_1815 && EightBits(0x2d11_1815) == 0x6df0_f5f3 && EightBits(0x6df0_f5f3) == 0x24d9_5353
    ensures EightBits(0x24d9_5353) == 0xf246_d91d && EightBits(0xf246_d91d) == 0x63f4_2a00 && EightBits(0x63f4_2a00) == 0x63_f42a
  {
    assert Shown(0);
  }

  lemma FeedZero(s: bv32, t: bv32)
    requires t == EightBits(s)
    ensures Feed(s, 0) == t
  {
    FeedIs(s, 0, s);
  }

  lemma ZeroNext(bytes: seq<bv8>, k: nat, s: bv32, t: bv32)
    requires k < |bytes| && bytes[k] == 0 && Fold(0, bytes[..k]) == s && t == EightBits(s)
    ensures Fold(0, bytes[..k + 1]) == t
  {
    FoldStep(0, bytes, k);
    FeedZero(s, t);
  }

  /** One byte 0x19 and eight zeros, after any number of zeros. */
  lemma FoldExample(bytes: seq<bv8>)
    requires |bytes| >= 9 && bytes[|bytes| - 9] == 0x19
    requires forall i :: 0 <= i < |bytes| && i != |bytes| - 9 ==> bytes[i] == 0
    ensures Fold(0, bytes) == 0x63_f42a
  {
    var n := |bytes| - 9;
    FoldZeros(bytes[..n]);
    NineSteps();
    FoldStep(0, bytes, n);
    FeedIs(0, 0x19, 0x19);
    ZeroNext(bytes, n + 1, 0x646b_a8c0, 0x9b00_a918);
    ZeroNext(bytes, n + 2, 0x9b00_a918, 0x13f7_98ff);
    ZeroNext(bytes, n + 3, 0x13f7_98ff, 0x2d11_1815);
    ZeroNext(bytes, n + 4, 0x2d11_1815, 0x6df0_f5f3);
    ZeroNext(bytes, n + 5, 0x6df0_f5f3, 0x24d9_5353);
    ZeroNext(bytes, n + 6, 0x24d9_5353, 0xf246_d91d);
    ZeroNext(bytes, n + 7, 0xf246_d91d, 0x63f4_2a00);
    ZeroNext(bytes, n + 8, 0x63f4_2a00, 0x63_f42a);
    assert bytes[..n + 9] == bytes;
  }
}
