/** gnu-efi/lib/crc.c: the CRC field of an EFI table header, set and checked in place. */
module EfiTables {
  import opened Crc32

  // Layout of EFI_TABLE_HEADER: the CRC32 field is four little-endian bytes at offset 16.
  const CRC_OFFSET := 16
  const HEADER_BYTES := 24

  function Byte0(v: bv32): bv8 { (v & 0xff) as bv8 }

  function Byte1(v: bv32): bv8 { ((v >> 8) & 0xff) as bv8 }

  function Byte2(v: bv32): bv8 { ((v >> 16) & 0xff) as bv8 }

  function Byte3(v: bv32): bv8 { ((v >> 24) & 0xff) as bv8 }

  lemma AssembleBytes(v: bv32)
    ensures Assemble(Byte0(v), Byte1(v), Byte2(v), Byte3(v)) == v
  {
  }

  lemma BytesOfAssembled(b0: bv8, b1: bv8, b2: bv8, b3: bv8)
    ensures var v := Assemble(b0, b1, b2, b3); Byte0(v) == b0 && Byte1(v) == b1 && Byte2(v) == b2 && Byte3(v) == b3
  {
  }

  predicate IsTable(bytes: seq<bv8>) { |bytes| >= HEADER_BYTES }

  /** The CRC32 field. */
  function CrcField(bytes: seq<bv8>): bv32
    requires IsTable(bytes)
  {
    Assemble(bytes[16], bytes[17], bytes[18], bytes[19])
  }

  /** The table with another value in its CRC32 field. */
  function WithCrc(bytes: seq<bv8>, v: bv32): (r: seq<bv8>)
    requires IsTable(bytes)
    ensures |r| == |bytes|
  {
    bytes[16 := Byte0(v)][17 := Byte1(v)][18 := Byte2(v)][19 := Byte3(v)]
  }

  lemma CrcFieldOfWithCrc(bytes: seq<bv8>, v: bv32)
    requires IsTable(bytes)
    ensures CrcField(WithCrc(bytes, v)) == v
  {
    AssembleBytes(v);
  }

  lemma WithCrcOfCrcField(bytes: seq<bv8>, v: bv32)
    requires IsTable(bytes)
    ensures WithCrc(WithCrc(bytes, v), CrcField(bytes)) == bytes
  {
    BytesOfAssembled(bytes[16], bytes[17], bytes[18], bytes[19]);
  }

  lemma WithCrcTwice(bytes: seq<bv8>, v: bv32, w: bv32)
    requires IsTable(bytes)
    ensures WithCrc(WithCrc(bytes, v), w) == WithCrc(bytes, w)
  {
  }

  /** The CRC of the first `size` bytes of a table, with the CRC32 field taken as zero. */
  ghost function TableCrc(bytes: seq<bv8>, size: nat): bv32
    requires IsTable(bytes) && size <= |bytes|
  {
    Crc(WithCrc(bytes, 0)[..size])
  }

  /** What `CheckCrcAltSize` accepts. */
  ghost predicate Accepted(bytes: seq<bv8>, maxSize: nat, size: nat)
    requires IsTable(bytes)
  {
    size != 0 && (maxSize == 0 || size <= maxSize) && size <= |bytes| && CrcField(bytes) == TableCrc(bytes, size)
  }

  /** Writes the CRC32 field. */
  method StoreCrc(hdr: array<bv8>, v: bv32)
    requires hdr.Length >= HEADER_BYTES
    modifies hdr
    ensures hdr[..] == WithCrc(old(hdr[..]), v)
  {
    hdr[16] := Byte0(v);
    hdr[17] := Byte1(v);
    hdr[18] := Byte2(v);
    hdr[19] := Byte3(v);
  }

  method SetCrcAltSize(size: nat, hdr: array<bv8>)
    requires hdr.Length >= HEADER_BYTES && size <= hdr.Length
    modifies hdr
    ensures hdr[..] == WithCrc(old(hdr[..]), TableCrc(old(hdr[..]), size))
  {
    StoreCrc(hdr, 0);
    var crc := CalculateCrc(hdr, size);
    assert hdr[..size] == hdr[..][..size];
    WithCrcTwice(old(hdr[..]), 0, crc);
    StoreCrc(hdr, crc);
  }

  method CheckCrcAltSize(maxSize: nat, size: nat, hdr: array<bv8>) returns (f: bool)
    requires hdr.Length >= HEADER_BYTES
    requires size != 0 && (maxSize == 0 || size <= maxSize) ==> size <= hdr.Length
    modifies hdr
    ensures hdr[..] == old(hdr[..])
    ensures f == Accepted(hdr[..], maxSize, size)
  {
    if size == 0 {
      return false;
    }
    if maxSize != 0 && size > maxSize {
      return false;
    }
    var orgCrc := Assemble(hdr[16], hdr[17], hdr[18], hdr[19]);
    StoreCrc(hdr, 0);
    var crc := CalculateCrc(hdr, size);
    assert hdr[..size] == hdr[..][..size];
    WithCrcOfCrcField(old(hdr[..]), 0);
    StoreCrc(hdr, orgCrc);
    f := orgCrc == crc;
  }

  /** A table whose CRC has been set is accepted, for any non-zero size within the limit. */
  lemma SetThenCheck(bytes: seq<bv8>, maxSize: nat, size: nat)
    requires IsTable(bytes) && size <= |bytes|
    ensures Accepted(WithCrc(bytes, TableCrc(bytes, size)), maxSize, size) <==> size != 0 && (maxSize == 0 || size <= maxSize)
  {
    var v := TableCrc(bytes, size);
    CrcFieldOfWithCrc(bytes, v);
    WithCrcTwice(bytes, v, 0);
  }

  lemma FieldDeterminesTable(bytes: seq<bv8>, other: seq<bv8>)
    requires IsTable(bytes) && |other| == |bytes| && CrcField(bytes) == CrcField(other)
    requires forall i :: 0 <= i < |bytes| && !(CRC_OFFSET <= i < CRC_OFFSET + 4) ==> bytes[i] == other[i]
    ensures bytes == other
  {
    BytesOfAssembled(bytes[16], bytes[17], bytes[18], bytes[19]);
    BytesOfAssembled(other[16], other[17], other[18], other[19]);
  }

  /** An accepted table is rejected after any change of up to four consecutive bytes that leaves the
      CRC32 field alone and touches the covered bytes, and after any change of the field alone. */
  lemma CorruptionDetected(bytes: seq<bv8>, other: seq<bv8>, maxSize: nat, size: nat, first: nat)
    requires IsTable(bytes) && |other| == |bytes| && Accepted(bytes, maxSize, size)
    requires bytes[..size] != other[..size] || CrcField(bytes) != CrcField(other)
    requires forall i :: 0 <= i < |bytes| && !(first <= i < first + 4) ==> bytes[i] == other[i]
    requires first == CRC_OFFSET || first + 4 <= CRC_OFFSET || first >= CRC_OFFSET + 4
    ensures !Accepted(other, maxSize, size)
  {
    var m, n := WithCrc(bytes, 0)[..size], WithCrc(other, 0)[..size];
    if first == CRC_OFFSET {
      assert WithCrc(bytes, 0) == WithCrc(other, 0);
      if CrcField(bytes) == CrcField(other) {
        FieldDeterminesTable(bytes, other);
      }
    } else {
      assert CrcField(bytes) == CrcField(other);
      var k :| 0 <= k < size && bytes[k] != other[k];
      assert m[k] != n[k];
      ChangeDetected(m, n, first);
    }
  }

  // ----- changes that touch the field and bytes beside it -----

  /** Whether any change of an accepted table goes unnoticed depends on the change only: it does exactly if the field has
      changed by as much as the CRC of the rest. */
  lemma ChangeDecides(bytes: seq<bv8>, other: seq<bv8>, maxSize: nat, size: nat)
    requires IsTable(bytes) && |other| == |bytes| && Accepted(bytes, maxSize, size)
    ensures Accepted(other, maxSize, size)
            <==> Sum(CrcField(other), CrcField(bytes)) == Fold(0, Difference(WithCrc(other, 0)[..size], WithCrc(bytes, 0)[..size]))
  {
    CrcDifference(WithCrc(other, 0)[..size], WithCrc(bytes, 0)[..size]);
    if Sum(CrcField(other), CrcField(bytes)) == Sum(TableCrc(other, size), CrcField(bytes)) {
      SumCancels(CrcField(other), TableCrc(other, size), CrcField(bytes));
    }
  }

  /** The table with byte 15 and the three bytes of the field behind it changed. */
  function Straddled(bytes: seq<bv8>): seq<bv8>
    requires IsTable(bytes)
  {
    WithCrc(bytes[15 := bytes[15] ^ 0x19], CrcField(bytes) ^ 0x63_f42a)
  }

  lemma XorFacts(b: bv8, c: bv8, v: bv32, w: bv32)
    requires c == b ^ 0x19 && w == v ^ 0x63_f42a
    ensures c ^ b == 0x19 && c != b && Byte3(w) == Byte3(v)
  {
  }

  lemma SameBytes(b: bv8, c: bv8)
    requires b == c
    ensures b ^ c == 0
  {
  }

  lemma FieldSum(v: bv32, w: bv32)
    requires w == v ^ 0x63_f42a
    ensures Sum(w, v) == 0x63_f42a
  {
    FieldXor(v, w);
    SumIs(w, v, 0x63_f42a);
  }

  lemma FieldXor(v: bv32, w: bv32)
    requires w == v ^ 0x63_f42a
    ensures 0x63_f42a == w ^ v
  {
  }

  lemma StraddledBytes(bytes: seq<bv8>, b: bv8, c: bv8, v: bv32, w: bv32)
    requires |bytes| == HEADER_BYTES && b == bytes[15] && c == b ^ 0x19 && v == CrcField(bytes) && w == v ^ 0x63_f42a
    ensures Straddled(bytes) == WithCrc(bytes[15 := c], w)
    ensures var other := Straddled(bytes);
            && other[15] == c && c != b && CrcField(other) == w
            && forall i :: 0 <= i < HEADER_BYTES && !(15 <= i < 19) ==> other[i] == bytes[i]
  {
    BytesOfAssembled(bytes[16], bytes[17], bytes[18], bytes[19]);
    CrcFieldOfWithCrc(bytes[15 := c], w);
    XorFacts(b, c, v, w);
  }

  lemma StraddledDifference(bytes: seq<bv8>, other: seq<bv8>, m: seq<bv8>, n: seq<bv8>)
    requires |bytes| == |other| == HEADER_BYTES && m == WithCrc(bytes, 0) && n == WithCrc(other, 0)
    requires other[15] == bytes[15] ^ 0x19 && forall i :: 0 <= i < HEADER_BYTES && !(15 <= i < 20) ==> other[i] == bytes[i]
    ensures Fold(0, Difference(n, m)) == 0x63_f42a
  {
    var d := Difference(n, m);
    forall i: nat | i < HEADER_BYTES && i != 15 ensures d[i] == 0 {
      assert m[i] == n[i];
      DifferenceAt(n, m, i);
      SameBytes(n[i], m[i]);
    }
    DifferenceAt(n, m, 15);
    XorFacts(bytes[15], other[15], 0, 0x63_f42a);
    assert d[15] == 0x19;
    FoldExample(d);
  }

  /** Four consecutive bytes across the edge of the field are not protected: this change is missed in every accepted
      table of 24 bytes. */
  lemma StraddlingChangeMissed(bytes: seq<bv8>, maxSize: nat)
    requires |bytes| == HEADER_BYTES && Accepted(bytes, maxSize, HEADER_BYTES)
    ensures Straddled(bytes) != bytes && Accepted(Straddled(bytes), maxSize, HEADER_BYTES)
    ensures forall i :: 0 <= i < HEADER_BYTES && !(15 <= i < 19) ==> Straddled(bytes)[i] == bytes[i]
  {
    var other, v := Straddled(bytes), CrcField(bytes);
    var w := v ^ 0x63_f42a;
    StraddledBytes(bytes, bytes[15], bytes[15] ^ 0x19, v, w);
    FieldSum(v, w);
    var m, n := WithCrc(bytes, 0), WithCrc(other, 0);
    assert m[..HEADER_BYTES] == m && n[..HEADER_BYTES] == n;
    StraddledDifference(bytes, other, m, n);
    ChangeDecides(bytes, other, maxSize, HEADER_BYTES);
  }
}
