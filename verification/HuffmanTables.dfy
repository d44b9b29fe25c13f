/** include/ssfn.h: the tables that decode a canonical prefix code, and the two ways to use them. */
module HuffmanTables {
  import opened Words
  import opened BitReversal
  import opened HuffmanCodes
  import opened BitReaders

  const FAST_BITS := 9
  const FAST_SIZE := 512

  type Word16 = n: nat | n < 0x1_0000

  // ----- what the tables hold -----

  /** The first code, first slot and limit of every length; limits are aligned to 16 bits. */
  ghost predicate LengthTables(lens: Lengths, firstcode: seq<Word16>, firstsymbol: seq<Word16>, maxcode: seq<nat>, n: nat) {
    && |firstcode| == 16 && |firstsymbol| == 16 && |maxcode| == 17
    && forall s: nat :: 1 <= s < n && s <= MAX_LENGTH ==>
         firstcode[s] == First(lens, s) && firstsymbol[s] == Before(lens, s) && maxcode[s] == Shl(Limit(lens, s), 16 - s)
  }

  ghost predicate FirstCodes(lens: Lengths, nextCode: seq<nat>, n: nat) {
    |nextCode| == 16 && forall s: nat :: 1 <= s < n && s <= MAX_LENGTH ==> nextCode[s] == First(lens, s)
  }

  /** The next code of every length once the symbols below `n` have theirs. */
  ghost predicate NextCodes(lens: Lengths, nextCode: seq<nat>, n: nat) {
    && |nextCode| == 16 && n <= |lens|
    && forall s: nat :: 1 <= s <= MAX_LENGTH ==> nextCode[s] == First(lens, s) + Count(lens[..n], s)
  }

  /** The symbols below `n` are in their slots. */
  ghost predicate ValueTable(lens: Lengths, value: seq<Word16>, size: seq<Byte>, n: nat) {
    && |value| == 288 && |size| == 288
    && forall sym: nat {:trigger Used(lens, sym)} :: sym < n && Used(lens, sym) ==>
         Slot(lens, sym) < 288 && value[Slot(lens, sym)] == sym && size[Slot(lens, sym)] == lens[sym]
  }

  /** A symbol with a short code that starts the nine bits of `j`. */
  ghost predicate ShortCode(lens: Lengths, j: nat, sym: nat) {
    Used(lens, sym) && lens[sym] <= FAST_BITS && Decodes(lens, LowBits(j, FAST_BITS), sym)
  }

  function Packed(length: nat, sym: nat): nat { Or(Shl(length, 9), sym) }

  /** An entry of the fast table, as far as the symbols below `n` are concerned. */
  ghost predicate FastEntry(lens: Lengths, j: nat, v: Word16, n: nat) {
    if v == 0 then forall sym: nat :: sym < n ==> !ShortCode(lens, j, sym)
    else exists sym: nat :: sym < n && ShortCode(lens, j, sym) && v == Packed(lens[sym], sym)
  }

  ghost predicate FastTable(lens: Lengths, fast: seq<Word16>, n: nat) {
    |fast| == FAST_SIZE && forall j: nat :: j < FAST_SIZE ==> FastEntry(lens, j, fast[j], n)
  }

  /** All tables belong to a list of lengths. */
  ghost predicate TablesOf(lens: Lengths, fast: seq<Word16>, firstcode: seq<Word16>, firstsymbol: seq<Word16>,
                           maxcode: seq<nat>, value: seq<Word16>, size: seq<Byte>) {
    && Accepted(lens)
    && LengthTables(lens, firstcode, firstsymbol, maxcode, 16) && maxcode[16] == 0x1_0000
    && ValueTable(lens, value, size, |lens|)
    && FastTable(lens, fast, |lens|)
  }

  lemma {:induction false} OrCommutes(a: nat, b: nat)
    ensures Or(a, b) == Or(b, a)
    decreases a + b
  {
    if a > 0 || b > 0 {
      OrCommutes(a / 2, b / 2);
    }
  }

  lemma {:induction false} ShrOfShl(low: nat, high: nat, n: nat)
    requires low < Shl(1, n)
    ensures Shr(low + Shl(high, n), n) == high
    ensures LowBits(low + Shl(high, n), n) == LowBits(low, n)
    decreases n
  {
    if n > 0 {
      ShrOfShl(low / 2, high, n - 1);
      assert (low + Shl(high, n)) / 2 == low / 2 + Shl(high, n - 1);
    }
  }

  /** The two parts of a fast entry can be read back. */
  lemma PackedParts(length: nat, sym: nat)
    requires length <= MAX_LENGTH && sym < 512
    ensures Shr(Packed(length, sym), 9) == length && And(Packed(length, sym), 511) == sym
    ensures Packed(length, sym) < 0x1_0000 && (length > 0 ==> Packed(length, sym) > 0)
  {
    Powers();
    OrCommutes(Shl(length, 9), sym);
    OrShifted(sym, length, 9);
    ShrOfShl(sym, length, 9);
    MaskValue(Packed(length, sym), 9);
    ValueOfLowBits(sym, 9);
    ShlScales(length, 9);
  }

  // ----- building -----

  lemma {:induction false} PowerBound(n: nat)
    requires n <= 15
    ensures 1 <= Shl(1, n) <= 0x8000
  {
    Powers();
    MaskValue(0, n);
    ShlShl(1, n, 15 - n);
    ShlGrows(Shl(1, n), 15 - n);
  }

  lemma {:induction false} ShlGrows(v: nat, n: nat)
    ensures Shl(v, n) >= v
    decreases n
  {
    if n > 0 {
      ShlGrows(v, n - 1);
    }
  }

  /** The search for the length of the next code, on the 16 next bits read most significant first. */
  function SearchLength(maxcode: seq<nat>, k: nat, s: nat): (r: nat)
    requires |maxcode| == 17 && maxcode[16] == 0x1_0000 && k < 0x1_0000 && s <= 16
    ensures s <= r <= 16 && k < maxcode[r] && forall t :: s <= t < r ==> k >= maxcode[t]
    decreases 16 - s
  {
    if k < maxcode[s] then s else SearchLength(maxcode, k, s + 1)
  }

  /** Writing the entries of one symbol brings the fast table up to date with it. */
  lemma FastEntryStep(lens: Lengths, j: nat, was: Word16, now: Word16, sym: nat)
    requires Used(lens, sym) && FastEntry(lens, j, was, sym)
    requires now == if ShortCode(lens, j, sym) then Packed(lens[sym], sym) else was
    ensures FastEntry(lens, j, now, sym + 1)
  {
    PackedParts(lens[sym], sym);
  }

  lemma ShortCodeByLowBits(lens: Lengths, j: nat, sym: nat)
    requires Used(lens, sym) && lens[sym] <= FAST_BITS
    ensures ShortCode(lens, j, sym) <==> LowBits(j, lens[sym]) == Code(lens, sym)
  {
    LowBitsPrefix(j, FAST_BITS, lens[sym]);
  }

  lemma FastTableStep(lens: Lengths, was: seq<Word16>, now: seq<Word16>, sym: nat)
    requires Used(lens, sym) && lens[sym] <= FAST_BITS && FastTable(lens, was, sym) && |now| == FAST_SIZE
    requires forall j: nat :: j < FAST_SIZE ==>
               now[j] == if LowBits(j, lens[sym]) == Code(lens, sym) then Packed(lens[sym], sym) else was[j]
    ensures FastTable(lens, now, sym + 1)
  {
    forall j: nat | j < FAST_SIZE ensures FastEntry(lens, j, now[j], sym + 1) {
      ShortCodeByLowBits(lens, j, sym);
      FastEntryStep(lens, j, was[j], now[j], sym);
    }
  }

  /** A symbol without a short code leaves the fast table up to date. */
  lemma FastTableSkip(lens: Lengths, fast: seq<Word16>, sym: nat)
    requires FastTable(lens, fast, sym) && !(Used(lens, sym) && lens[sym] <= FAST_BITS)
    ensures FastTable(lens, fast, sym + 1)
  {
    forall j: nat | j < FAST_SIZE ensures FastEntry(lens, j, fast[j], sym + 1) {
      assert FastEntry(lens, j, fast[j], sym);
      if fast[j] == 0 {
        assert !ShortCode(lens, j, sym);
      }
    }
  }

  lemma ValueTableStep(lens: Lengths, value: seq<Word16>, size: seq<Byte>, sym: nat)
    requires Used(lens, sym) && ValueTable(lens, value, size, sym)
    ensures Slot(lens, sym) < 288
    ensures ValueTable(lens, value[Slot(lens, sym) := sym], size[Slot(lens, sym) := lens[sym]], sym + 1)
  {
    SlotsDistinct(lens, sym, sym);
    forall a: nat | a < sym && Used(lens, a) ensures Slot(lens, a) != Slot(lens, sym) {
      SlotsDistinct(lens, a, sym);
    }
  }

  lemma NextCodesStep(lens: Lengths, nextCode: seq<nat>, sym: nat)
    requires NextCodes(lens, nextCode, sym) && sym < |lens|
    ensures Used(lens, sym) ==>
              var s: nat := lens[sym];
              nextCode[s] == CodeValue(lens, sym) && NextCodes(lens, nextCode[s := nextCode[s] + 1], sym + 1)
    ensures !Used(lens, sym) ==> NextCodes(lens, nextCode, sym + 1)
  {
    assert lens[..sym + 1][..sym] == lens[..sym];
  }

  /** The first length from `s` on that does not fit, 16 if all do. */
  function FirstUnfit(lens: Lengths, s: nat): (r: nat)
    requires s <= 16
    ensures s <= r <= 16
    decreases 16 - s
  {
    if s == 16 || !Fits(lens, s) then s else FirstUnfit(lens, s + 1)
  }

  lemma {:induction false} FirstUnfitDecides(lens: Lengths, s: nat)
    requires s <= 16
    ensures FirstUnfit(lens, s) == 16 <==> forall t: nat :: s <= t <= MAX_LENGTH ==> Fits(lens, t)
    decreases 16 - s
  {
    if s < 16 {
      FirstUnfitDecides(lens, s + 1);
    }
  }

  lemma DoubledFits(lens: Lengths, s: nat, limit: nat)
    requires s >= 1 && limit == Limit(lens, s) <= Shl(1, s)
    ensures Shl(limit, 1) == First(lens, s + 1) <= Shl(1, s + 1)
  {
  }

  lemma NoneBetween(j: nat, s: nat)
    ensures Shl(1, s) > 0
    ensures forall i: nat {:trigger LowBits(i, s)} :: j < i < j + Shl(1, s) ==> LowBits(i, s) != LowBits(j, s)
  {
    MaskValue(0, s);
    forall i: nat | j < i < j + Shl(1, s) ensures LowBits(i, s) != LowBits(j, s) {
      if LowBits(i, s) == LowBits(j, s) {
        SameLowBitsApart(j, i, s);
      }
    }
  }

  lemma NoneBelow(j: nat, s: nat)
    requires j < Shl(1, s)
    ensures forall i: nat {:trigger LowBits(i, s)} :: i < j ==> LowBits(i, s) != LowBits(j, s)
  {
    forall i: nat | i < j ensures LowBits(i, s) != LowBits(j, s) {
      if LowBits(i, s) == LowBits(j, s) {
        SameLowBitsApart(i, j, s);
      }
    }
  }

  class HuffmanTable {
    const fast: array<Word16>
    const firstcode: array<Word16>
    const maxcode: array<nat>
    const firstsymbol: array<Word16>
    const size: array<Byte>
    const value: array<Word16>
    ghost var lens: Lengths

    constructor ()
      ensures Shape() && fresh(Repr())
    {
      fast := new Word16[FAST_SIZE];
      firstcode := new Word16[16];
      maxcode := new nat[17];
      firstsymbol := new Word16[16];
      size := new Byte[288];
      value := new Word16[288];
      lens := [];
    }

    ghost function Repr(): set<object> { {this, fast, firstcode, maxcode, firstsymbol, size, value} }

    ghost predicate Apart(a: array<nat>) {
      a as object != firstcode && a as object != firstsymbol && a != maxcode
    }

    ghost predicate Shape() {
      && fast.Length == FAST_SIZE && firstcode.Length == 16 && maxcode.Length == 17 && firstsymbol.Length == 16
      && size.Length == 288 && value.Length == 288
      && fast !in {firstcode, firstsymbol, value} && value !in {firstcode, firstsymbol} && firstcode != firstsymbol
    }

    /** The tables belong to the list of lengths `lens`. */
    ghost predicate Ready()
      reads Repr()
    {
      Shape() && TablesOf(lens, fast[..], firstcode[..], firstsymbol[..], maxcode[..], value[..], size[..])
    }

    /** How many symbols have each length; index zero is cleared. */
    static method CountSizes(sizelist: Lengths) returns (sizes: array<nat>)
      ensures fresh(sizes) && sizes.Length == 17 && sizes[0] == 0
      ensures forall s: nat :: 1 <= s <= MAX_LENGTH ==> sizes[s] == Count(sizelist, s)
    {
      sizes := new nat[17](_ => 0);
      for i := 0 to |sizelist|
        invariant sizes.Length == 17 && fresh(sizes)
        invariant forall s: nat :: s <= MAX_LENGTH ==> sizes[s] == Count(sizelist[..i], s)
      {
        assert sizelist[..i + 1][..i] == sizelist[..i];
        sizes[sizelist[i]] := sizes[sizelist[i]] + 1;
      }
      assert sizelist[..|sizelist|] == sizelist;
      sizes[0] := 0;
    }

    /** The entries of one length with `count` codes from `code` on; the first code of the next one. */
    method SetLength(sizelist: Lengths, s: nat, code: nat, count: nat, k: nat, nextCode: array<nat>)
      returns (ok: bool, next: nat)
      requires Shape() && 1 <= s <= MAX_LENGTH && nextCode.Length == 16 && Apart(nextCode)
      requires code == First(sizelist, s) && code <= Shl(1, s) && k == Before(sizelist, s) && count == Count(sizelist, s)
      requires LengthTables(sizelist, firstcode[..], firstsymbol[..], maxcode[..], s)
      requires FirstCodes(sizelist, nextCode[..], s)
      modifies firstcode, firstsymbol, maxcode, nextCode
      ensures FirstUnfit(sizelist, s) == if ok then FirstUnfit(sizelist, s + 1) else s
      ensures ok ==> next == First(sizelist, s + 1) && next <= Shl(1, s + 1)
      ensures ok ==> LengthTables(sizelist, firstcode[..], firstsymbol[..], maxcode[..], s + 1)
      ensures ok ==> FirstCodes(sizelist, nextCode[..], s + 1)
    {
      PowerBound(s);
      BeforeBound(sizelist, s);
      nextCode[s] := code;
      firstcode[s] := code;
      firstsymbol[s] := k;
      var limit := code + count;
      if count != 0 {
        if limit - 1 >= Shl(1, s) {
          return false, 0;
        }
      }
      maxcode[s] := Shl(limit, 16 - s);
      DoubledFits(sizelist, s, limit);
      return true, Shl(limit, 1);
    }

    /** No length has more codes than there are strings of that length. */
    static method SizesPossible(sizelist: Lengths, sizes: array<nat>) returns (ok: bool)
      requires sizes.Length == 17
      requires forall s: nat :: 1 <= s <= MAX_LENGTH ==> sizes[s] == Count(sizelist, s)
      ensures !ok ==> !Accepted(sizelist)
    {
      for i := 1 to 16 {
        if sizes[i] > Shl(1, i) {
          assert !Fits(sizelist, i);
          return false;
        }
      }
      ok := true;
    }

    /** The length tables and the first code of every length. */
    method SetLengths(sizelist: Lengths, sizes: array<nat>) returns (ok: bool, nextCode: array<nat>)
      requires Shape() && sizes.Length == 17 && Apart(sizes)
      requires forall s: nat :: 1 <= s <= MAX_LENGTH ==> sizes[s] == Count(sizelist, s)
      modifies firstcode, firstsymbol, maxcode
      ensures fresh(nextCode) && nextCode.Length == 16
      ensures ok == (FirstUnfit(sizelist, 1) == 16)
      ensures ok ==> LengthTables(sizelist, firstcode[..], firstsymbol[..], maxcode[..], 16)
      ensures ok ==> FirstCodes(sizelist, nextCode[..], 16)
    {
      nextCode := new nat[16];
      assert Apart(nextCode);
      var code, k := 0, 0;
      for i := 1 to 16
        invariant code == First(sizelist, i) && code <= Shl(1, i) && k == Before(sizelist, i)
        invariant LengthTables(sizelist, firstcode[..], firstsymbol[..], maxcode[..], i)
        invariant FirstCodes(sizelist, nextCode[..], i)
        invariant FirstUnfit(sizelist, 1) == FirstUnfit(sizelist, i)
      {
        ok, code := SetLength(sizelist, i, code, sizes[i], k, nextCode);
        if !ok {
          return;
        }
        k := k + sizes[i];
      }
      ok := true;
    }

    /** The entries at `j` and every `2^s` further. */
    method FillFrom(start: nat, s: nat, fastv: Word16)
      requires Shape() && start < Shl(1, s)
      modifies fast
      ensures forall i: nat :: i < FAST_SIZE ==>
                fast[i] == if LowBits(i, s) == LowBits(start, s) then fastv else old(fast[i])
    {
      var j := start;
      NoneBelow(start, s);
      while j < FAST_SIZE
        invariant LowBits(j, s) == LowBits(start, s)
        invariant forall i: nat :: i < FAST_SIZE ==>
                    fast[i] == if i < j && LowBits(i, s) == LowBits(start, s) then fastv else old(fast[i])
        decreases FAST_SIZE - j
      {
        NoneBetween(j, s);
        StepKeepsLowBits(j, s);
        fast[j] := fastv;
        j := j + Shl(1, s);
      }
    }

    /** The entries of one symbol with a code. */
    method PlaceSymbol(sizelist: Lengths, i: nat, nextCode: array<nat>)
      requires Shape() && Accepted(sizelist) && Used(sizelist, i) && Apart(nextCode)
      requires LengthTables(sizelist, firstcode[..], firstsymbol[..], maxcode[..], 16)
      requires NextCodes(sizelist, nextCode[..], i)
      requires ValueTable(sizelist, value[..], size[..], i) && FastTable(sizelist, fast[..], i)
      modifies nextCode, size, value, fast
      ensures NextCodes(sizelist, nextCode[..], i + 1)
      ensures ValueTable(sizelist, value[..], size[..], i + 1) && FastTable(sizelist, fast[..], i + 1)
    {
      var s: nat := sizelist[i];
      NextCodesStep(sizelist, nextCode[..], i);
      ValueTableStep(sizelist, value[..], size[..], i);
      PackedParts(s, i);
      CodeValueFits(sizelist, i);
      var code := nextCode[s];
      var c := code - firstcode[s] + firstsymbol[s];
      var fastv: Word16 := Or(Shl(s, 9), i);
      size[c] := s;
      value[c] := i;
      if s <= FAST_BITS {
        ghost var was := fast[..];
        BitReverseReads(code, s);
        LowBitsOfValue(Code(sizelist, i));
        FillFrom(BitReverse(code, s), s, fastv);
        FastTableStep(sizelist, was, fast[..], i);
      } else {
        FastTableSkip(sizelist, fast[..], i);
      }
      nextCode[s] := code + 1;
    }

    method ClearFast()
      requires Shape()
      modifies fast
      ensures forall j :: 0 <= j < FAST_SIZE ==> fast[j] == 0
    {
      for i := 0 to FAST_SIZE
        invariant forall j :: 0 <= j < i ==> fast[j] == 0
      {
        fast[i] := 0;
      }
    }

    method PlaceSymbols(sizelist: Lengths, nextCode: array<nat>)
      requires Shape() && Accepted(sizelist) && Apart(nextCode)
      requires LengthTables(sizelist, firstcode[..], firstsymbol[..], maxcode[..], 16)
      requires FirstCodes(sizelist, nextCode[..], 16)
      requires forall j :: 0 <= j < FAST_SIZE ==> fast[j] == 0
      modifies nextCode, size, value, fast
      ensures ValueTable(sizelist, value[..], size[..], |sizelist|) && FastTable(sizelist, fast[..], |sizelist|)
    {
      for i := 0 to |sizelist|
        invariant LengthTables(sizelist, firstcode[..], firstsymbol[..], maxcode[..], 16)
        invariant NextCodes(sizelist, nextCode[..], i)
        invariant ValueTable(sizelist, value[..], size[..], i) && FastTable(sizelist, fast[..], i)
      {
        if sizelist[i] != 0 {
          PlaceSymbol(sizelist, i, nextCode);
        } else {
          NextCodesStep(sizelist, nextCode[..], i);
          FastTableSkip(sizelist, fast[..], i);
        }
      }
    }

    /** `_ssfn__zbuild_huffman`. */
    method Build(sizelist: Lengths) returns (ok: bool)
      requires Shape()
      modifies Repr()
      ensures ok == Accepted(sizelist)
      ensures ok ==> Ready() && lens == sizelist
    {
      ClearFast();
      var sizes := CountSizes(sizelist);
      ok := SizesPossible(sizelist, sizes);
      if !ok {
        return;
      }
      var nextCode;
      ok, nextCode := SetLengths(sizelist, sizes);
      FirstUnfitDecides(sizelist, 1);
      if !ok {
        return;
      }
      maxcode[16] := 0x1_0000;
      PlaceSymbols(sizelist, nextCode);
      lens := sizelist;
    }
  }
}
