/** include/ssfn.h: decoding one symbol by the fast table or by the search, on the bit buffer. */
module HuffmanDecoders {
  import opened Wrappers
  import opened Words
  import opened BitReversal
  import opened HuffmanCodes
  import opened BitReaders
  import opened HuffmanTables

  ghost predicate NoneDecodes(lens: Lengths, bits: seq<bool>) {
    forall sym: nat :: !Decodes(lens, bits, sym)
  }

  // ----- the search -----

  /** The limit of a length, aligned, is compared with the 16 next bits like the limit with the lookahead. */
  lemma AlignedLimit(lens: Lengths, bits: seq<bool>, s: nat)
    requires |bits| >= 16 && s <= 16
    ensures Lookahead(bits, 16) < Shl(Limit(lens, s), 16 - s) <==> Lookahead(bits, s) < Limit(lens, s)
    ensures Shr(Lookahead(bits, 16), 16 - s) == Lookahead(bits, s)
  {
    HighValueOfPrefix(bits[..16], s);
    assert bits[..16][..s] == bits[..s];
    ShrLess(Lookahead(bits, 16), Limit(lens, s), 16 - s);
  }

  lemma LookaheadFits(bits: seq<bool>)
    requires |bits| >= 16
    ensures Lookahead(bits, 16) < 0x1_0000
  {
    Powers();
    HighBitsOfHighValue(bits[..16]);
  }

  /** The slot that the search computes from the length it found. */
  function FoundSlot(firstcode: seq<Word16>, firstsymbol: seq<Word16>, k: nat, r: nat): int
    requires |firstcode| == 16 && |firstsymbol| == 16 && r < 16
  {
    Shr(k, 16 - r) - firstcode[r] + firstsymbol[r]
  }

  /** Symbol `sym` is what the search finds. */
  ghost predicate Finds(lens: Lengths, firstcode: seq<Word16>, firstsymbol: seq<Word16>, bits: seq<bool>, k: nat, r: nat, sym: nat)
    requires |firstcode| == 16 && |firstsymbol| == 16 && r < 16
  {
    Decodes(lens, bits, sym) && lens[sym] == r && FoundSlot(firstcode, firstsymbol, k, r) == Slot(lens, sym)
  }

  /** Searching from a length below which nothing decodes finds the symbol's length, or 16 if there is no
      symbol; and the symbol's slot follows from that length. */
  lemma {:induction false} SearchFinds(lens: Lengths, firstcode: seq<Word16>, firstsymbol: seq<Word16>, maxcode: seq<nat>,
                                       bits: seq<bool>, s: nat)
    requires Accepted(lens) && LengthTables(lens, firstcode, firstsymbol, maxcode, 16) && maxcode[16] == 0x1_0000
    requires |bits| >= 16 && 1 <= s <= 16 && Lookahead(bits, 16) < 0x1_0000
    requires forall sym: nat :: Used(lens, sym) && lens[sym] < s ==> !Decodes(lens, bits, sym)
    ensures var r := SearchLength(maxcode, Lookahead(bits, 16), s);
            if r == 16 then NoneDecodes(lens, bits)
            else exists sym: nat :: Finds(lens, firstcode, firstsymbol, bits, Lookahead(bits, 16), r, sym)
    decreases 16 - s
  {
    if s < 16 {
      AlignedLimit(lens, bits, s);
      PassedLimits(lens, bits, s - 1);
      LookaheadStep(bits, s - 1);
      if Lookahead(bits, s) < Limit(lens, s) {
        var sym := LengthDecodes(lens, bits, s);
        assert Finds(lens, firstcode, firstsymbol, bits, Lookahead(bits, 16), s, sym);
      } else {
        forall sym: nat | Used(lens, sym) && lens[sym] < s + 1 ensures !Decodes(lens, bits, sym) {
          if Decodes(lens, bits, sym) {
            DecodesBelowLimit(lens, bits, sym);
          }
        }
        SearchFinds(lens, firstcode, firstsymbol, maxcode, bits, s + 1);
      }
    }
  }

  lemma DecodesByPrefix(lens: Lengths, short: seq<bool>, bits: seq<bool>, sym: nat)
    requires short <= bits && Used(lens, sym) && lens[sym] <= |short|
    ensures Decodes(lens, short, sym) == Decodes(lens, bits, sym)
  {
    var n := lens[sym];
    assert bits[..n] == short[..n];
  }

  lemma FastHit(lens: Lengths, bits: seq<bool>, j: nat, entry: Word16) returns (sym: nat)
    requires |bits| >= 16 && LowBits(j, FAST_BITS) == bits[..FAST_BITS] && FastEntry(lens, j, entry, |lens|) && entry != 0
    ensures Decodes(lens, bits, sym) && lens[sym] <= FAST_BITS && entry == Packed(lens[sym], sym)
    ensures Shr(entry, 9) == lens[sym] && And(entry, 511) == sym
  {
    sym :| sym < |lens| && ShortCode(lens, j, sym) && entry == Packed(lens[sym], sym);
    PackedParts(lens[sym], sym);
    DecodesByPrefix(lens, bits[..FAST_BITS], bits, sym);
  }

  lemma FastMiss(lens: Lengths, bits: seq<bool>, j: nat)
    requires |bits| >= 16 && LowBits(j, FAST_BITS) == bits[..FAST_BITS] && FastEntry(lens, j, 0, |lens|)
    ensures forall sym: nat :: Used(lens, sym) && lens[sym] < FAST_BITS + 1 ==> !Decodes(lens, bits, sym)
  {
    forall sym: nat | Used(lens, sym) && lens[sym] < FAST_BITS + 1 ensures !Decodes(lens, bits, sym) {
      assert !ShortCode(lens, j, sym);
      DecodesByPrefix(lens, bits[..FAST_BITS], bits, sym);
    }
  }

  /** A hit in the fast table: the search from length 1 finds the same symbol. */
  lemma SearchAgreesWithHit(lens: Lengths, firstcode: seq<Word16>, firstsymbol: seq<Word16>, maxcode: seq<nat>,
                            bits: seq<bool>, hit: nat)
    requires Accepted(lens) && LengthTables(lens, firstcode, firstsymbol, maxcode, 16) && maxcode[16] == 0x1_0000
    requires |bits| >= 16 && Lookahead(bits, 16) < 0x1_0000 && Decodes(lens, bits, hit)
    ensures var r := SearchLength(maxcode, Lookahead(bits, 16), 1);
            r == lens[hit] && FoundSlot(firstcode, firstsymbol, Lookahead(bits, 16), r) == Slot(lens, hit)
  {
    SearchFinds(lens, firstcode, firstsymbol, maxcode, bits, 1);
    var r := SearchLength(maxcode, Lookahead(bits, 16), 1);
    var sym: nat :| Finds(lens, firstcode, firstsymbol, bits, Lookahead(bits, 16), r, sym);
    PrefixFree(lens, bits, sym, hit);
  }

  /** What the search finds has a slot in the value table. */
  lemma SearchInRange(lens: Lengths, firstcode: seq<Word16>, firstsymbol: seq<Word16>, maxcode: seq<nat>,
                      value: seq<Word16>, size: seq<Byte>, bits: seq<bool>)
    requires Accepted(lens) && LengthTables(lens, firstcode, firstsymbol, maxcode, 16) && maxcode[16] == 0x1_0000
    requires ValueTable(lens, value, size, |lens|)
    requires |bits| >= 16 && Lookahead(bits, 16) < 0x1_0000
    ensures var r := SearchLength(maxcode, Lookahead(bits, 16), 1);
            r < 16 ==>
              var slot := FoundSlot(firstcode, firstsymbol, Lookahead(bits, 16), r);
              0 <= slot < 288 && size[slot] == r && Decodes(lens, bits, value[slot])
  {
    SearchFinds(lens, firstcode, firstsymbol, maxcode, bits, 1);
    var r := SearchLength(maxcode, Lookahead(bits, 16), 1);
    if r < 16 {
      var sym: nat :| Finds(lens, firstcode, firstsymbol, bits, Lookahead(bits, 16), r, sym);
      assert Used(lens, sym);
    }
  }

  /** What the fast table's entry for the 16 next bits says about the search from length 1. */
  ghost predicate Agrees(entry: Word16, k: Word16, firstcode: seq<Word16>, firstsymbol: seq<Word16>, maxcode: seq<nat>,
                         value: seq<Word16>, size: seq<Byte>)
    requires |firstcode| == 16 && |firstsymbol| == 16 && |maxcode| == 17 && maxcode[16] == 0x1_0000
    requires |value| == 288 && |size| == 288
  {
    var r := SearchLength(maxcode, k, 1);
    && (entry == 0 ==> k >= maxcode[9] && r == SearchLength(maxcode, k, 10))
    && (entry != 0 ==> r == Shr(entry, 9) <= 9)
    && (r < 16 ==>
          var slot := FoundSlot(firstcode, firstsymbol, k, r);
          0 <= slot < 288 && size[slot] == r && (entry != 0 ==> value[slot] == And(entry, 511)))
  }

  lemma AgreesOnHit(lens: Lengths, firstcode: seq<Word16>, firstsymbol: seq<Word16>, maxcode: seq<nat>,
                    value: seq<Word16>, size: seq<Byte>, bits: seq<bool>, hit: nat, entry: Word16)
    requires Accepted(lens) && LengthTables(lens, firstcode, firstsymbol, maxcode, 16) && maxcode[16] == 0x1_0000
    requires ValueTable(lens, value, size, |lens|)
    requires |bits| >= 16 && Lookahead(bits, 16) < 0x1_0000 && Decodes(lens, bits, hit)
    requires entry != 0 && Shr(entry, 9) == lens[hit] <= FAST_BITS && And(entry, 511) == hit
    ensures Agrees(entry, Lookahead(bits, 16), firstcode, firstsymbol, maxcode, value, size)
  {
    assert Used(lens, hit);
    SearchAgreesWithHit(lens, firstcode, firstsymbol, maxcode, bits, hit);
  }

  lemma AgreesOnMiss(lens: Lengths, firstcode: seq<Word16>, firstsymbol: seq<Word16>, maxcode: seq<nat>,
                     value: seq<Word16>, size: seq<Byte>, bits: seq<bool>)
    requires Accepted(lens) && LengthTables(lens, firstcode, firstsymbol, maxcode, 16) && maxcode[16] == 0x1_0000
    requires ValueTable(lens, value, size, |lens|)
    requires |bits| >= 16 && Lookahead(bits, 16) < 0x1_0000
    requires forall sym: nat :: Used(lens, sym) && lens[sym] < FAST_BITS + 1 ==> !Decodes(lens, bits, sym)
    ensures Agrees(0, Lookahead(bits, 16), firstcode, firstsymbol, maxcode, value, size)
  {
    PassedAll(lens, firstcode, firstsymbol, maxcode, bits, Lookahead(bits, 16), 1);
    SearchInRange(lens, firstcode, firstsymbol, maxcode, value, size, bits);
  }

  /** The fast table agrees with the search from length 1 on every 16 next bits: a nonzero entry gives the
      symbol and the length that the search finds; a zero entry means that all lengths up to 9 are passed, so
      the search may start at 10. In range, too: what the search finds has a slot in the value table. */
  lemma FastAgreesWithSearch(lens: Lengths, fast: seq<Word16>, firstcode: seq<Word16>, firstsymbol: seq<Word16>,
                             maxcode: seq<nat>, value: seq<Word16>, size: seq<Byte>, ahead: Word16)
    requires TablesOf(lens, fast, firstcode, firstsymbol, maxcode, value, size)
    ensures BitReverse16(ahead) < 0x1_0000 && And(ahead, 511) < FAST_SIZE
    ensures Agrees(fast[And(ahead, 511)], BitReverse16(ahead), firstcode, firstsymbol, maxcode, value, size)
  {
    var bits := LowBits(ahead, 16);
    BitReverse16Reads(ahead);
    assert bits[..16] == bits;
    LookaheadFits(bits);
    var j := NineBits(ahead, 16);
    assert FastEntry(lens, j, fast[j], |lens|);
    if fast[j] == 0 {
      FastMiss(lens, bits, j);
      AgreesOnMiss(lens, firstcode, firstsymbol, maxcode, value, size, bits);
    } else {
      var hit := FastHit(lens, bits, j, fast[j]);
      AgreesOnHit(lens, firstcode, firstsymbol, maxcode, value, size, bits, hit, fast[j]);
    }
  }

  /** The index into the fast table. */
  lemma NineBits(code: nat, n: nat) returns (j: nat)
    requires n >= FAST_BITS
    ensures j == And(code, 511) < FAST_SIZE && LowBits(j, FAST_BITS) == LowBits(code, n)[..FAST_BITS]
  {
    Powers();
    j := And(code, 511);
    MaskValue(code, FAST_BITS);
    LowBitsOfValue(LowBits(code, FAST_BITS));
    LowBitsPrefix(code, n, FAST_BITS);
  }

  /** If no short code decodes, the search passes all short lengths. */
  lemma {:induction false} PassedAll(lens: Lengths, firstcode: seq<Word16>, firstsymbol: seq<Word16>, maxcode: seq<nat>,
                                     bits: seq<bool>, k: nat, s: nat)
    requires Accepted(lens) && LengthTables(lens, firstcode, firstsymbol, maxcode, 16) && maxcode[16] == 0x1_0000
    requires |bits| >= 16 && 1 <= s <= 10 && k == Lookahead(bits, 16) < 0x1_0000
    requires forall sym: nat :: Used(lens, sym) && lens[sym] < FAST_BITS + 1 ==> !Decodes(lens, bits, sym)
    ensures SearchLength(maxcode, k, s) == SearchLength(maxcode, k, 10)
    ensures s < 10 ==> k >= maxcode[9]
    decreases 10 - s
  {
    if s < 10 {
      PassedLimits(lens, bits, s);
      AlignedLimit(lens, bits, s);
      PassedAll(lens, firstcode, firstsymbol, maxcode, bits, k, s + 1);
    }
  }

  // ----- the decoder -----

  /** The slot of a symbol that the search finds. */
  lemma FoundInTable(lens: Lengths, firstcode: seq<Word16>, firstsymbol: seq<Word16>, value: seq<Word16>, size: seq<Byte>,
                     bits: seq<bool>, k: nat, r: nat)
      returns (sym: nat)
    requires |firstcode| == 16 && |firstsymbol| == 16 && r < 16 && ValueTable(lens, value, size, |lens|)
    requires exists sym: nat :: Finds(lens, firstcode, firstsymbol, bits, k, r, sym)
    ensures Decodes(lens, bits, sym) && lens[sym] == r
    ensures 0 <= FoundSlot(firstcode, firstsymbol, k, r) < 288 && value[FoundSlot(firstcode, firstsymbol, k, r)] == sym
  {
    sym :| Finds(lens, firstcode, firstsymbol, bits, k, r, sym);
    assert Used(lens, sym);
  }

  /** The first length from ten on whose limit is above the 16 next bits. */
  method FindLength(z: HuffmanTable, k: nat) returns (s: nat)
    requires z.Ready() && k < 0x1_0000
    ensures s == SearchLength(z.maxcode[..], k, 10)
  {
    s := 10;
    while k >= z.maxcode[s]
      invariant 10 <= s <= 16 && SearchLength(z.maxcode[..], k, 10) == SearchLength(z.maxcode[..], k, s)
      decreases 16 - s
    {
      s := s + 1;
    }
  }

  /** A code of ten bits or more. */
  method SlowPath(a: BitReader, z: HuffmanTable) returns (sym: int)
    requires a.Valid() && a.numBits >= 16 && z.Ready()
    requires forall s: nat :: Used(z.lens, s) && z.lens[s] < FAST_BITS + 1 ==> !Decodes(z.lens, a.Unread(), s)
    modifies a`codeBuffer, a`numBits
    ensures a.Valid() && sym >= -1
    ensures sym == -1 ==> NoneDecodes(z.lens, old(a.Unread())) && a.Unread() == old(a.Unread())
    ensures sym >= 0 ==> Decodes(z.lens, old(a.Unread()), sym) && a.Unread() == old(a.Unread())[z.lens[sym]..]
    ensures sym >= 0 ==> a.numBits == old(a.numBits) - z.lens[sym]
  {
    ghost var bits := a.Unread();
    BitsMasked(a.codeBuffer, a.numBits, a.data[a.zbuffer..], 16);
    BitReverse16Reads(a.codeBuffer);
    LookaheadFits(bits);
    var k := BitReverse(a.codeBuffer, 16);
    SearchFinds(z.lens, z.firstcode[..], z.firstsymbol[..], z.maxcode[..], bits, 10);
    var s := FindLength(z, k);
    if s == 16 {
      return -1;
    }
    ghost var found := FoundInTable(z.lens, z.firstcode[..], z.firstsymbol[..], z.value[..], z.size[..], bits, k, s);
    var b := Shr(k, 16 - s) - z.firstcode[s] + z.firstsymbol[s];
    assert z.value[..][b] == found;
    a.Drop(s);
    return z.value[b];
  }

  /** The symbol whose code comes next, which is consumed; -1 if there is no such symbol. */
  method HuffmanDecode(a: BitReader, z: HuffmanTable) returns (sym: int)
    requires a.Valid() && z.Ready() && !Starved(a.Position(), 16)
    modifies a
    ensures a.Valid() && sym >= -1
    ensures sym == -1 ==> NextSymbol(z.lens, old(a.Unread())) == None && a.Unread() == old(a.Unread())
    ensures sym >= 0 ==> NextSymbol(z.lens, old(a.Unread())) == Some(sym) && Decodes(z.lens, old(a.Unread()), sym)
    ensures sym >= 0 ==> a.Position() == Dropped(old(a.Position()), 16, z.lens[sym])
  {
    if a.numBits < 16 {
      a.FillBits();
    }
    ghost var bits := a.Unread();
    ghost var j := NineBits(a.codeBuffer, a.numBits);
    assert bits[..FAST_BITS] == LowBits(a.codeBuffer, a.numBits)[..FAST_BITS];
    assert FastEntry(z.lens, j, z.fast[..][j], |z.lens|);
    var b := z.fast[And(a.codeBuffer, 511)];
    if b != 0 {
      ghost var hit := FastHit(z.lens, bits, j, b);
      var s := Shr(b, 9);
      NextSymbolIs(z.lens, bits, hit);
      a.Drop(s);
      return And(b, 511);
    }
    FastMiss(z.lens, bits, j);
    sym := SlowPath(a, z);
    if sym >= 0 {
      NextSymbolIs(z.lens, bits, sym);
    }
  }
}
