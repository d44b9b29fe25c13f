/** The two codes of a block: the fixed ones and the ones that a dynamic block starts with, as sections 3.2.6 and 3.2.7 of
    RFC 1951 describe them. */
module CodeTables {
  import opened Wrappers
  import opened Words
  import opened BitReaders
  import opened HuffmanCodes
  import opened DeflateBlocks

  // ----- what a sequence of bits stands for -----

  /** The order in which the lengths of the code length code are given. */
  const DEZIGZAG: seq<nat> := [16, 17, 18, 0, 8, 7, 9, 6, 10, 5, 11, 4, 12, 3, 13, 2, 14, 1, 15]

  lemma Dezigzag()
    ensures |DEZIGZAG| == 19 && forall i :: 0 <= i < 19 ==> DEZIGZAG[i] < 19
  {
  }

  type Sizes = s: seq<Length> | |s| == 19 witness [0, 0, 0, 0, 0, 0, 0, 0, 0, 0, 0, 0, 0, 0, 0, 0, 0, 0, 0]

  const NO_SIZES: Sizes := [0, 0, 0, 0, 0, 0, 0, 0, 0, 0, 0, 0, 0, 0, 0, 0, 0, 0, 0]

  datatype SizesRead = SizesRead(sizes: Sizes, rest: Input) | SizesTooShort

  /** Extra bits stay below their power of two. */
  lemma ExtraBound(base: nat, extra: nat, input: Input)
    requires extra <= 16 && ReadExtended(base, extra, input).Extended?
    ensures base <= ReadExtended(base, extra, input).value < base + Shl(1, extra)
  {
    if extra > 0 {
      LowBitsOfValue(input.bits[..extra]);
    }
  }

  lemma SmallPowers()
    ensures Shl(1, 2) == 4 && Shl(1, 3) == 8 && Shl(1, 4) == 16 && Shl(1, 5) == 32
  {
  }

  /** The sizes from the `i`-th to the `n`-th of the order, three bits each. */
  function ReadSizes(input: Input, sizes: Sizes, i: nat, n: nat): (r: SizesRead)
    requires i <= n <= 19
    ensures r.SizesRead? ==> |r.rest.bits| <= |input.bits|
    decreases n - i
  {
    if i == n then SizesRead(sizes, input)
    else
      match ReadExtended(0, 3, input)
      case TooShort => SizesTooShort
      case Extended(size, rest) =>
        Dezigzag();
        ExtraBound(0, 3, input);
        SmallPowers();
        ReadSizes(rest, sizes[DEZIGZAG[i] := size], i + 1, n)
  }

  /** Code lengths and the input behind them. */
  datatype LengthsRead = LengthsRead(lens: seq<Length>, rest: Input) | BadLengths | LengthsTooShort

  /** A run of `count` times `fill`, unless it goes past the end. */
  function AddRun(acc: seq<Length>, fill: Length, count: Extended, total: nat): (r: LengthsRead)
    requires |acc| <= total
    ensures r.LengthsRead? ==> count.Extended? && |r.lens| <= total && r.rest == count.rest
  {
    match count
    case TooShort => LengthsTooShort
    case Extended(n, rest) =>
      if total - |acc| < n then BadLengths else LengthsRead(acc + seq(n, _ => fill), rest)
  }

  /** One symbol of the code length code, of 19 symbols: a length, or a run. */
  ghost function ReadRun(codes: Sizes, input: Input, acc: seq<Length>, total: nat): (r: LengthsRead)
    requires |acc| < total
    ensures r.LengthsRead? ==> |r.lens| <= total && |r.rest.bits| < |input.bits|
  {
    if Starved(input, CODE_BITS) then LengthsTooShort
    else
      match NextSymbol(codes, input.bits)
      case None => BadLengths
      case Some(c) => AddSymbol(acc, c, Dropped(input, CODE_BITS, codes[c]), total)
  }

  function AddSymbol(acc: seq<Length>, c: nat, input: Input, total: nat): (r: LengthsRead)
    requires |acc| < total
    ensures r.LengthsRead? ==> |r.lens| <= total && |r.rest.bits| <= |input.bits|
  {
    if c < 16 then LengthsRead(acc + [c], input)
    else if c == 16 then
      match ReadExtended(3, 2, input)
      case TooShort => LengthsTooShort
      case Extended(n, rest) =>
        if acc == [] then BadLengths else AddRun(acc, acc[|acc| - 1], Extended(n, rest), total)
    else if c == 17 then AddRun(acc, 0, ReadExtended(3, 3, input), total)
    else AddRun(acc, 0, ReadExtended(11, 7, input), total)
  }

  ghost function ReadLengths(codes: Sizes, input: Input, acc: seq<Length>, total: nat): (r: LengthsRead)
    requires |acc| <= total
    ensures r.LengthsRead? ==> |r.lens| == total && |r.rest.bits| <= |input.bits|
    decreases |input.bits|
  {
    if |acc| == total then LengthsRead(acc, input)
    else
      match ReadRun(codes, input, acc, total)
      case LengthsTooShort => LengthsTooShort
      case BadLengths => BadLengths
      case LengthsRead(next, rest) => ReadLengths(codes, rest, next, total)
  }

  datatype HeaderRead = HeaderRead(lens: Lengths, dists: DistanceLengths, rest: Input) | BadHeader | HeaderTooShort

  /** Both codes, split from one list of lengths. */
  ghost function SplitLengths(r: LengthsRead, hlit: nat, hdist: nat): (h: HeaderRead)
    requires hlit <= 288 && hdist <= 32 && (r.LengthsRead? ==> |r.lens| == hlit + hdist)
    ensures h.HeaderRead? ==> r.LengthsRead? && h.rest == r.rest && Accepted(h.lens) && Accepted(h.dists)
  {
    match r
    case LengthsTooShort => HeaderTooShort
    case BadLengths => BadHeader
    case LengthsRead(lens, rest) =>
      if Accepted(lens[..hlit]) && Accepted(lens[hlit..]) then HeaderRead(lens[..hlit], lens[hlit..], rest) else BadHeader
  }

  ghost function ReadCodes(input: Input, hlit: nat, hdist: nat, hclen: nat): (h: HeaderRead)
    requires hlit <= 288 && hdist <= 32 && hclen <= 19
    ensures h.HeaderRead? ==> |h.rest.bits| <= |input.bits| && Accepted(h.lens) && Accepted(h.dists)
  {
    match ReadSizes(input, NO_SIZES, 0, hclen)
    case SizesTooShort => HeaderTooShort
    case SizesRead(sizes, rest) =>
      if !Accepted(sizes) then BadHeader
      else SplitLengths(ReadLengths(sizes, rest, [], hlit + hdist), hlit, hdist)
  }

  /** The three counts at the start. */
  datatype CountsRead = CountsRead(hlit: nat, hdist: nat, hclen: nat, rest: Input) | CountsTooShort

  function ReadCounts(input: Input): (r: CountsRead)
    ensures r.CountsRead? ==> |r.rest.bits| <= |input.bits|
    ensures r.CountsRead? ==> 257 <= r.hlit <= 288 && 1 <= r.hdist <= 32 && 4 <= r.hclen <= 19
  {
    SmallPowers();
    match ReadExtended(257, 5, input)
    case TooShort => CountsTooShort
    case Extended(hlit, second) =>
      ExtraBound(257, 5, input);
      match ReadExtended(1, 5, second)
      case TooShort => CountsTooShort
      case Extended(hdist, third) =>
        ExtraBound(1, 5, second);
        match ReadExtended(4, 4, third)
        case TooShort => CountsTooShort
        case Extended(hclen, rest) =>
          ExtraBound(4, 4, third);
          CountsRead(hlit, hdist, hclen, rest)
  }

  ghost function ReadHeader(input: Input): (h: HeaderRead)
    ensures h.HeaderRead? ==> |h.rest.bits| <= |input.bits| && Accepted(h.lens) && Accepted(h.dists)
  {
    match ReadCounts(input)
    case CountsTooShort => HeaderTooShort
    case CountsRead(hlit, hdist, hclen, rest) => ReadCodes(rest, hlit, hdist, hclen)
  }

  // ----- encoding -----

  /** A length, or a run: the last length 3 to 6 times, zero 3 to 10 times, zero 11 to 138 times. */
  datatype Run = One(length: Length) | Again(extra: nat) | Zeros(extra: nat) | ManyZeros(extra: nat)

  function Symbol(run: Run): nat {
    match run
    case One(length) => length
    case Again(_) => 16
    case Zeros(_) => 17
    case ManyZeros(_) => 18
  }

  function RunBits(run: Run): nat {
    match run
    case One(_) => 0
    case Again(_) => 2
    case Zeros(_) => 3
    case ManyZeros(_) => 7
  }

  function RunExtra(run: Run): nat { if run.One? then 0 else run.extra }

  ghost predicate EncodableRun(codes: Sizes, run: Run) {
    Used(codes, Symbol(run)) && RunExtra(run) < Shl(1, RunBits(run))
  }

  ghost function EncodeRun(codes: Sizes, run: Run): seq<bool>
    requires EncodableRun(codes, run)
  {
    Code(codes, Symbol(run)) + LowBits(RunExtra(run), RunBits(run))
  }

  /** The lengths with one run more; none if there is no length to repeat. */
  function Extend(acc: seq<Length>, run: Run): (r: Option<seq<Length>>)
    ensures r.Some? ==> |r.value| > |acc|
  {
    match run
    case One(length) => Some(acc + [length])
    case Again(extra) => if acc == [] then None else Some(acc + seq(3 + extra, _ => acc[|acc| - 1]))
    case Zeros(extra) => Some(acc + seq(3 + extra, _ => 0))
    case ManyZeros(extra) => Some(acc + seq(11 + extra, _ => 0))
  }

  function ExpandRuns(runs: seq<Run>, acc: seq<Length>): (r: Option<seq<Length>>)
    ensures r.Some? ==> |r.value| >= |acc| + |runs|
    decreases |runs|
  {
    if runs == [] then Some(acc)
    else
      match Extend(acc, runs[0])
      case None => None
      case Some(next) => ExpandRuns(runs[1..], next)
  }

  ghost function EncodeRuns(codes: Sizes, runs: seq<Run>): seq<bool>
    requires forall i :: 0 <= i < |runs| ==> EncodableRun(codes, runs[i])
  {
    if runs == [] then [] else EncodeRun(codes, runs[0]) + EncodeRuns(codes, runs[1..])
  }

  lemma AddSymbolOfEncoding(run: Run, acc: seq<Length>, total: nat, input: Input, rest: seq<bool>)
    requires RunExtra(run) < Shl(1, RunBits(run)) && |rest| >= REFILL_BITS && |acc| < total
    requires Extend(acc, run).Some? && |Extend(acc, run).value| <= total
    requires input.bits == LowBits(RunExtra(run), RunBits(run)) + rest
    ensures var r := AddSymbol(acc, Symbol(run), input, total);
            r.LengthsRead? && r.lens == Extend(acc, run).value && r.rest.bits == rest
  {
    match run
    case One(_) =>
      assert [] + rest == rest;
    case Again(e) =>
      ReadExtendedOfEncoding(3, 2, e, input, rest);
    case Zeros(e) =>
      ReadExtendedOfEncoding(3, 3, e, input, rest);
    case ManyZeros(e) =>
      ReadExtendedOfEncoding(11, 7, e, input, rest);
  }

  lemma ReadRunOfEncoding(codes: Sizes, run: Run, acc: seq<Length>, total: nat, input: Input, rest: seq<bool>)
    requires Accepted(codes) && EncodableRun(codes, run) && |rest| >= REFILL_BITS
    requires Extend(acc, run).Some? && |Extend(acc, run).value| <= total
    requires input.bits == EncodeRun(codes, run) + rest
    ensures var r := ReadRun(codes, input, acc, total);
            r.LengthsRead? && r.lens == Extend(acc, run).value && r.rest.bits == rest
  {
    var extra, sym := LowBits(RunExtra(run), RunBits(run)), Symbol(run);
    Regroup(Code(codes, sym), extra, rest);
    NextSymbolOfCode(codes, sym, extra + rest);
    AddSymbolOfEncoding(run, acc, total, Dropped(input, CODE_BITS, codes[sym]), rest);
  }

  /** A list of lengths is read back from its runs. */
  lemma {:induction false} ReadLengthsOfEncoding(codes: Sizes, runs: seq<Run>, acc: seq<Length>, lens: seq<Length>,
                                                 input: Input, rest: seq<bool>)
    requires Accepted(codes) && |rest| >= REFILL_BITS
    requires forall i :: 0 <= i < |runs| ==> EncodableRun(codes, runs[i])
    requires ExpandRuns(runs, acc) == Some(lens) && input.bits == EncodeRuns(codes, runs) + rest
    ensures |acc| <= |lens|
    ensures var r := ReadLengths(codes, input, acc, |lens|); r.LengthsRead? && r.lens == lens && r.rest.bits == rest
    decreases |runs|
  {
    if runs == [] {
      assert [] + rest == rest;
    } else {
      var tail := EncodeRuns(codes, runs[1..]) + rest;
      Regroup(EncodeRun(codes, runs[0]), EncodeRuns(codes, runs[1..]), rest);
      ReadRunOfEncoding(codes, runs[0], acc, |lens|, input, tail);
      ReadLengthsOfEncoding(codes, runs[1..], Extend(acc, runs[0]).value, lens, ReadRun(codes, input, acc, |lens|).rest, rest);
    }
  }

  /** The sizes of the code length code from the `i`-th to the `n`-th. */
  ghost function EncodeSizes(sizes: Sizes, i: nat, n: nat): seq<bool>
    requires i <= n <= 19
    decreases n - i
  {
    Dezigzag();
    if i == n then [] else LowBits(sizes[DEZIGZAG[i]], 3) + EncodeSizes(sizes, i + 1, n)
  }

  /** What is read so far has the sizes of the first `i` of the order. */
  ghost predicate SizesTo(sizes: Sizes, read: Sizes, i: nat) {
    Dezigzag();
    && i <= 19
    && (forall k :: 0 <= k < i ==> read[DEZIGZAG[k]] == sizes[DEZIGZAG[k]])
    && (forall k :: i <= k < 19 ==> read[DEZIGZAG[k]] == 0)
  }

  /** The order names every symbol once. */
  lemma DezigzagPermutes()
    ensures |DEZIGZAG| == 19
    ensures forall i, j :: 0 <= i < j < 19 ==> DEZIGZAG[i] != DEZIGZAG[j]
    ensures forall c :: 0 <= c < 19 ==> c in DEZIGZAG
  {
    assert DEZIGZAG[0] == 16 && DEZIGZAG[1] == 17 && DEZIGZAG[2] == 18 && DEZIGZAG[3] == 0 && DEZIGZAG[4] == 8;
    assert DEZIGZAG[5] == 7 && DEZIGZAG[6] == 9 && DEZIGZAG[7] == 6 && DEZIGZAG[8] == 10 && DEZIGZAG[9] == 5;
    assert DEZIGZAG[10] == 11 && DEZIGZAG[11] == 4 && DEZIGZAG[12] == 12 && DEZIGZAG[13] == 3 && DEZIGZAG[14] == 13;
    assert DEZIGZAG[15] == 2 && DEZIGZAG[16] == 14 && DEZIGZAG[17] == 1 && DEZIGZAG[18] == 15;
  }

  /** It begins with the three repeat codes and the length zero; then it goes from the middle length outwards, up and
      down by turns. */
  lemma DezigzagOrder(i: nat)
    requires i < 19
    ensures DEZIGZAG[i] == if i < 3 then 16 + i else if i == 3 then 0 else if i % 2 == 0 then 6 + i / 2 else 9 - i / 2
  {
    DezigzagPermutes();
  }

  lemma SizesToStep(sizes: Sizes, read: Sizes, i: nat)
    requires i < 19 && SizesTo(sizes, read, i)
    ensures DEZIGZAG[i] < 19 && SizesTo(sizes, read[DEZIGZAG[i] := sizes[DEZIGZAG[i]]], i + 1)
  {
    DezigzagPermutes();
    Dezigzag();
  }

  lemma ReadSizesStep(read: Sizes, i: nat, n: nat, input: Input, size: Length, rest: Input)
    requires i < n <= 19 && ReadExtended(0, 3, input) == Extended(size, rest)
    ensures DEZIGZAG[i] < 19 && ReadSizes(input, read, i, n) == ReadSizes(rest, read[DEZIGZAG[i] := size], i + 1, n)
  {
    Dezigzag();
  }

  lemma {:induction false} ReadSizesOfEncoding(sizes: Sizes, read: Sizes, i: nat, n: nat, input: Input, rest: seq<bool>)
    requires i <= n <= 19 && SizesTo(sizes, read, i) && |rest| >= REFILL_BITS
    requires (forall c :: 0 <= c < 19 ==> sizes[c] <= 7) && input.bits == EncodeSizes(sizes, i, n) + rest
    ensures var r := ReadSizes(input, read, i, n); r.SizesRead? && SizesTo(sizes, r.sizes, n) && r.rest.bits == rest
    decreases n - i
  {
    if i == n {
      assert [] + rest == rest;
    } else {
      SizesToStep(sizes, read, i);
      SmallPowers();
      var size, tail := sizes[DEZIGZAG[i]], EncodeSizes(sizes, i + 1, n) + rest;
      Regroup(LowBits(size, 3), EncodeSizes(sizes, i + 1, n), rest);
      ReadExtendedOfEncoding(0, 3, size, input, tail);
      var after := ReadExtended(0, 3, input).rest;
      ReadSizesStep(read, i, n, input, size, after);
      ReadSizesOfEncoding(sizes, read[DEZIGZAG[i] := size], i + 1, n, after, rest);
    }
  }

  /** The code length code, how many of its sizes are given, both codes' numbers of lengths, and the runs. */
  datatype Tables = Tables(sizes: Sizes, hclen: nat, hlit: nat, hdist: nat, runs: seq<Run>)

  /** The tables can be written: sizes have three bits and the ones left out are zero, and the runs give the
      lengths of two accepted codes. */
  ghost predicate EncodableTables(t: Tables) {
    Dezigzag();
    && 4 <= t.hclen <= 19 && 257 <= t.hlit <= 288 && 1 <= t.hdist <= 32
    && Accepted(t.sizes) && (forall c :: 0 <= c < 19 ==> t.sizes[c] <= 7)
    && (forall k :: t.hclen <= k < 19 ==> t.sizes[DEZIGZAG[k]] == 0)
    && (forall i :: 0 <= i < |t.runs| ==> EncodableRun(t.sizes, t.runs[i]))
    && ExpandRuns(t.runs, []).Some? && |ExpandRuns(t.runs, []).value| == t.hlit + t.hdist
    && Accepted(TableLens(t)) && Accepted(TableDists(t))
  }

  ghost function TableLens(t: Tables): Lengths
    requires ExpandRuns(t.runs, []).Some? && |ExpandRuns(t.runs, []).value| == t.hlit + t.hdist && t.hlit <= 288
  {
    ExpandRuns(t.runs, []).value[..t.hlit]
  }

  ghost function TableDists(t: Tables): DistanceLengths
    requires ExpandRuns(t.runs, []).Some? && |ExpandRuns(t.runs, []).value| == t.hlit + t.hdist && t.hdist <= 32
  {
    ExpandRuns(t.runs, []).value[t.hlit..]
  }

  ghost function EncodeCodes(t: Tables): seq<bool>
    requires EncodableTables(t)
  {
    EncodeSizes(t.sizes, 0, t.hclen) + EncodeRuns(t.sizes, t.runs)
  }

  ghost function EncodeFields(t: Tables): (bits: seq<bool>)
    requires EncodableTables(t)
    ensures |bits| == 14
  {
    LowBits(t.hlit - 257, 5) + (LowBits(t.hdist - 1, 5) + LowBits(t.hclen - 4, 4))
  }

  ghost function EncodeHeader(t: Tables): seq<bool>
    requires EncodableTables(t)
  {
    EncodeFields(t) + EncodeCodes(t)
  }

  lemma SizesToAll(sizes: Sizes, read: Sizes, n: nat)
    requires n <= 19 && SizesTo(sizes, read, n)
    requires forall k :: n <= k < 19 ==> DEZIGZAG[k] < 19 && sizes[DEZIGZAG[k]] == 0
    ensures read == sizes
  {
    DezigzagPermutes();
    Dezigzag();
    forall c | 0 <= c < 19 ensures read[c] == sizes[c] {
      assert c in DEZIGZAG;
      var k :| 0 <= k < 19 && DEZIGZAG[k] == c;
      if k < n {
        assert read[DEZIGZAG[k]] == sizes[DEZIGZAG[k]];
      } else {
        assert read[DEZIGZAG[k]] == 0;
      }
    }
  }

  lemma ReadAllSizes(sizes: Sizes, n: nat, input: Input, rest: seq<bool>)
    requires n <= 19 && |rest| >= REFILL_BITS && forall c :: 0 <= c < 19 ==> sizes[c] <= 7
    requires forall k :: n <= k < 19 ==> DEZIGZAG[k] < 19 && sizes[DEZIGZAG[k]] == 0
    requires input.bits == EncodeSizes(sizes, 0, n) + rest
    ensures var r := ReadSizes(input, NO_SIZES, 0, n); r.SizesRead? && r.sizes == sizes && r.rest.bits == rest
  {
    ReadSizesOfEncoding(sizes, NO_SIZES, 0, n, input, rest);
    SizesToAll(sizes, ReadSizes(input, NO_SIZES, 0, n).sizes, n);
  }

  lemma ReadCodesBySizes(input: Input, hlit: nat, hdist: nat, hclen: nat, sizes: Sizes, rest: Input,
                         lens: seq<Length>, tail: Input)
    requires hlit <= 288 && hdist <= 32 && hclen <= 19 && |lens| == hlit + hdist
    requires ReadSizes(input, NO_SIZES, 0, hclen) == SizesRead(sizes, rest) && Accepted(sizes)
    requires ReadLengths(sizes, rest, [], |lens|) == LengthsRead(lens, tail)
    requires Accepted(lens[..hlit]) && Accepted(lens[hlit..])
    ensures ReadCodes(input, hlit, hdist, hclen) == HeaderRead(lens[..hlit], lens[hlit..], tail)
  {
  }

  lemma ReadCodesOfEncoding(t: Tables, input: Input, rest: seq<bool>)
    requires EncodableTables(t) && |rest| >= REFILL_BITS && input.bits == EncodeCodes(t) + rest
    ensures var h := ReadCodes(input, t.hlit, t.hdist, t.hclen);
            h.HeaderRead? && h.lens == TableLens(t) && h.dists == TableDists(t) && h.rest.bits == rest
  {
    var sizes, runs := EncodeSizes(t.sizes, 0, t.hclen), EncodeRuns(t.sizes, t.runs);
    Regroup(sizes, runs, rest);
    var lens := ExpandRuns(t.runs, []).value;
    ReadAllSizes(t.sizes, t.hclen, input, runs + rest);
    var second := ReadSizes(input, NO_SIZES, 0, t.hclen).rest;
    ReadLengthsOfEncoding(t.sizes, t.runs, [], lens, second, rest);
    var third := ReadLengths(t.sizes, second, [], |lens|).rest;
    ReadCodesBySizes(input, t.hlit, t.hdist, t.hclen, t.sizes, second, lens, third);
  }

  lemma CountsOfFields(hlit: nat, hdist: nat, hclen: nat, input: Input, rest: seq<bool>)
    requires hlit < 32 && hdist < 32 && hclen < 16 && |rest| >= REFILL_BITS
    requires input.bits == LowBits(hlit, 5) + (LowBits(hdist, 5) + (LowBits(hclen, 4) + rest))
    ensures var r := ReadCounts(input);
            r.CountsRead? && r.hlit == 257 + hlit && r.hdist == 1 + hdist && r.hclen == 4 + hclen && r.rest.bits == rest
  {
    SmallPowers();
    ReadExtendedOfEncoding(257, 5, hlit, input, LowBits(hdist, 5) + (LowBits(hclen, 4) + rest));
    var second := ReadExtended(257, 5, input).rest;
    ReadExtendedOfEncoding(1, 5, hdist, second, LowBits(hclen, 4) + rest);
    var third := ReadExtended(1, 5, second).rest;
    ReadExtendedOfEncoding(4, 4, hclen, third, rest);
  }

  lemma CountsOfEncoding(t: Tables, input: Input, rest: seq<bool>)
    requires EncodableTables(t) && |rest| >= REFILL_BITS && input.bits == EncodeFields(t) + rest
    ensures var r := ReadCounts(input);
            r.CountsRead? && r.hlit == t.hlit && r.hdist == t.hdist && r.hclen == t.hclen && r.rest.bits == rest
  {
    var a, b, c := LowBits(t.hlit - 257, 5), LowBits(t.hdist - 1, 5), LowBits(t.hclen - 4, 4);
    Regroup(a, b + c, rest);
    Regroup(b, c, rest);
    CountsOfFields(t.hlit - 257, t.hdist - 1, t.hclen - 4, input, rest);
  }

  /** The tables of a dynamic block are read back. */
  lemma HeaderInvertsEncoding(t: Tables, input: Input, rest: seq<bool>)
    requires EncodableTables(t) && |rest| >= REFILL_BITS && input.bits == EncodeHeader(t) + rest
    ensures var h := ReadHeader(input);
            h.HeaderRead? && h.lens == TableLens(t) && h.dists == TableDists(t) && h.rest.bits == rest
  {
    Regroup(EncodeFields(t), EncodeCodes(t), rest);
    CountsOfEncoding(t, input, EncodeCodes(t) + rest);
    ReadCodesOfEncoding(t, ReadCounts(input).rest, rest);
  }

  // ----- fixed codes -----

  function Repeat(n: nat, length: Length): (r: seq<Length>)
    ensures |r| == n && forall i :: 0 <= i < n ==> r[i] == length
  {
    seq(n, _ => length)
  }

  const FIXED_LENGTHS: Lengths := Repeat(144, 8) + Repeat(112, 9) + Repeat(24, 7) + Repeat(8, 8)

  const FIXED_DISTANCES: DistanceLengths := Repeat(32, 5)

  lemma KraftOfLast(lens: seq<Length>, length: Length)
    requires length > 0
    ensures Kraft(lens + [length]) == Kraft(lens) + Shl(1, MAX_LENGTH - length)
  {
    assert (lens + [length])[..|lens|] == lens;
  }

  lemma OneMore(n: nat, share: nat)
    requires n > 0
    ensures (n - 1) * share + share == n * share
  {
  }

  lemma RepeatStep(lens: seq<Length>, n: nat, length: Length)
    ensures lens + Repeat(0, length) == lens
    ensures n > 0 ==> lens + Repeat(n, length) == lens + Repeat(n - 1, length) + [length]
  {
  }

  lemma {:induction false} KraftOfRun(lens: seq<Length>, n: nat, length: Length, share: nat)
    requires length > 0 && share == Shl(1, MAX_LENGTH - length)
    ensures Kraft(lens + Repeat(n, length)) == Kraft(lens) + n * share
    decreases n
  {
    RepeatStep(lens, n, length);
    if n > 0 {
      KraftOfRun(lens, n - 1, length, share);
      KraftOfLast(lens + Repeat(n - 1, length), length);
      OneMore(n, share);
    }
  }

  /** The fixed codes are accepted. */
  lemma FixedAccepted()
    ensures Accepted(FIXED_LENGTHS) && Accepted(FIXED_DISTANCES)
  {
    Powers();
    assert Shl(1, 6) == 64 && Shl(1, 7) == 128 && Shl(1, 10) == 1024;
    KraftOfRun([], 144, 8, 128);
    KraftOfRun(Repeat(144, 8), 112, 9, 64);
    KraftOfRun(Repeat(144, 8) + Repeat(112, 9), 24, 7, 256);
    KraftOfRun(Repeat(144, 8) + Repeat(112, 9) + Repeat(24, 7), 8, 8, 128);
    assert [] + Repeat(144, 8) == Repeat(144, 8);
    AcceptedIsKraft(FIXED_LENGTHS);
    KraftOfRun([], 32, 5, 1024);
    assert [] + Repeat(32, 5) == FIXED_DISTANCES;
    AcceptedIsKraft(FIXED_DISTANCES);
  }

  lemma {:induction false} CountOfRun(lens: seq<Length>, n: nat, length: Length, other: nat)
    ensures Count(lens + Repeat(n, length), other) == Count(lens, other) + if length == other then n else 0
    decreases n
  {
    RepeatStep(lens, n, length);
    if n > 0 {
      var shorter := lens + Repeat(n - 1, length);
      CountOfRun(lens, n - 1, length, other);
      assert (shorter + [length])[..|shorter|] == shorter;
    }
  }

  lemma FixedCounts(length: nat)
    ensures Count(FIXED_LENGTHS, length) == if length == 7 then 24 else if length == 8 then 152 else if length == 9 then 112 else 0
    ensures Count(FIXED_DISTANCES, length) == if length == 5 then 32 else 0
  {
    CountOfRun([], 144, 8, length);
    CountOfRun(Repeat(144, 8), 112, 9, length);
    CountOfRun(Repeat(144, 8) + Repeat(112, 9), 24, 7, length);
    CountOfRun(Repeat(144, 8) + Repeat(112, 9) + Repeat(24, 7), 8, 8, length);
    assert [] + Repeat(144, 8) == Repeat(144, 8);
    CountOfRun([], 32, 5, length);
    assert [] + Repeat(32, 5) == FIXED_DISTANCES;
  }

  /** Where no shorter length is used the codes begin with zero. */
  lemma {:induction false} FirstAfterNone(lens: seq<Length>, length: nat)
    requires forall l: nat :: 0 < l < length ==> Count(lens, l) == 0
    ensures First(lens, length) == 0
    decreases length
  {
    if length > 1 {
      FirstAfterNone(lens, length - 1);
    }
  }

  lemma FixedFirsts()
    ensures First(FIXED_LENGTHS, 7) == 0 && First(FIXED_LENGTHS, 8) == 0x30 && First(FIXED_LENGTHS, 9) == 0x190
    ensures First(FIXED_DISTANCES, 5) == 0
  {
    forall l: nat
      ensures l < 7 ==> Count(FIXED_LENGTHS, l) == 0
      ensures l < 5 ==> Count(FIXED_DISTANCES, l) == 0
    {
      FixedCounts(l);
    }
    FirstAfterNone(FIXED_LENGTHS, 7);
    FirstAfterNone(FIXED_DISTANCES, 5);
    FixedCounts(7);
    FixedCounts(8);
    assert Limit(FIXED_LENGTHS, 7) == 24 && Limit(FIXED_LENGTHS, 8) == 200;
  }

  /** The symbols before one of the fixed code. */
  lemma FixedPrefix(s: nat)
    requires s < 288
    ensures FIXED_LENGTHS[..s] ==
              if s < 144 then Repeat(s, 8)
              else if s < 256 then Repeat(144, 8) + Repeat(s - 144, 9)
              else if s < 280 then Repeat(144, 8) + Repeat(112, 9) + Repeat(s - 256, 7)
              else Repeat(144, 8) + Repeat(112, 9) + Repeat(24, 7) + Repeat(s - 280, 8)
  {
  }

  lemma FixedRanks(s: nat)
    requires s < 288
    ensures Rank(FIXED_LENGTHS, s) == if s < 144 then s else if s < 256 then s - 144 else if s < 280 then s - 256 else s - 136
  {
    var length := FIXED_LENGTHS[s];
    FixedPrefix(s);
    assert [] + Repeat(s, 8) == Repeat(s, 8) && [] + Repeat(144, 8) == Repeat(144, 8);
    CountOfRun([], if s < 144 then s else 144, 8, length);
    if s >= 144 {
      CountOfRun(Repeat(144, 8), if s < 256 then s - 144 else 112, 9, length);
    }
    if s >= 256 {
      CountOfRun(Repeat(144, 8) + Repeat(112, 9), if s < 280 then s - 256 else 24, 7, length);
    }
    if s >= 280 {
      CountOfRun(Repeat(144, 8) + Repeat(112, 9) + Repeat(24, 7), s - 280, 8, length);
    }
  }

  /** The codes of literals and lengths that section 3.2.6 of RFC 1951 lists. */
  lemma FixedCodes(s: nat)
    requires s < 288
    ensures Used(FIXED_LENGTHS, s)
    ensures Code(FIXED_LENGTHS, s) ==
              if s < 144 then HighBits(0x30 + s, 8)
              else if s < 256 then HighBits(0x190 + (s - 144), 9)
              else if s < 280 then HighBits(s - 256, 7)
              else HighBits(0xc0 + (s - 280), 8)
  {
    FixedFirsts();
    FixedRanks(s);
  }

  /** And those of distances: the symbol in five bits. */
  lemma FixedDistanceCodes(d: nat)
    requires d < 32
    ensures Used(FIXED_DISTANCES, d) && Code(FIXED_DISTANCES, d) == HighBits(d, 5)
  {
    FixedFirsts();
    FixedDistanceRanks(d);
  }

  lemma FixedDistanceRanks(d: nat)
    requires d < 32
    ensures Rank(FIXED_DISTANCES, d) == d
  {
    assert FIXED_DISTANCES[..d] == [] + Repeat(d, 5);
    CountOfRun([], d, 5, 5);
  }
}
