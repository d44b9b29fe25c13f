/** Whole streams, as section 3.2.3 of RFC 1951 describes them: what a sequence of bits stands for, how blocks are
    encoded, and that decoding inverts that. */
module DeflateStreams {
  import opened Words
  import opened Wrappers
  import opened BitReaders
  import opened HuffmanCodes
  import opened DeflateBlocks
  import opened StoredBlocks
  import opened CodeTables

  /** A block of one of the four types; type 3 is reserved. */
  ghost function BlockByType(kind: nat, input: Input, output: seq<Byte>, buffer: seq<Byte>): (r: Outcome)
    ensures r.Done? ==> |r.rest.bits| < |input.bits|
  {
    if kind == 0 then Stored(input, output, buffer)
    else if kind == 1 then Block(FIXED_LENGTHS, FIXED_DISTANCES, input, output, buffer)
    else if kind == 2 then
      match ReadHeader(input)
      case HeaderTooShort => Undefined
      case BadHeader => Refused
      case HeaderRead(lens, dists, rest) => Block(lens, dists, rest, output, buffer)
    else Refused
  }

  /** The same, open only where `Shown` is mentioned. */
  ghost function BlockOfType(kind: nat, input: Input, output: seq<Byte>, buffer: seq<Byte>): (r: Outcome)
    ensures r.Done? ==> |r.rest.bits| < |input.bits|
  {
    var r: Outcome :| (r.Done? ==> |r.rest.bits| < |input.bits|)
                      && forall k {:trigger Shown(k)} :: Shown(k) ==> r == BlockByType(kind, input, output, buffer);
    r
  }

  /** Blocks up to the first one marked as the last. */
  ghost function Stream(input: Input, output: seq<Byte>, buffer: seq<Byte>): (r: Outcome)
    decreases |input.bits|
  {
    match ReadExtended(0, 1, input)
    case TooShort => Undefined
    case Extended(fin, second) =>
      match ReadExtended(0, 2, second)
      case TooShort => Undefined
      case Extended(kind, body) =>
        match BlockOfType(kind, body, output, buffer)
        case Undefined => Undefined
        case Refused => Refused
        case Done(next, rest) => if fin != 0 then Done(next, rest) else Stream(rest, next, buffer)
  }

  // ----- encoding -----

  /** A block to be encoded. */
  datatype Plan = StoredPlan(padding: seq<bool>, bytes: seq<Byte>)
                | FixedPlan(tokens: seq<Coded>)
                | DynamicPlan(tables: Tables, tokens: seq<Coded>)

  function Kind(p: Plan): nat {
    match p
    case StoredPlan(_, _) => 0
    case FixedPlan(_) => 1
    case DynamicPlan(_, _) => 2
  }

  /** Tokens can be written with these codes and stand for output. */
  ghost predicate EncodableBlock(lens: Lengths, dists: DistanceLengths, cs: seq<Coded>, output: seq<Byte>) {
    && Used(lens, 256) && (forall i :: 0 <= i < |cs| ==> Encodable(lens, dists, cs[i]))
    && Expand(lens, dists, cs, output).Some?
  }

  ghost predicate WritesBlock(lens: Lengths, dists: DistanceLengths, cs: seq<Coded>, before: seq<Byte>,
                              body: seq<bool>, after: seq<Byte>) {
    EncodableBlock(lens, dists, cs, before) && body == EncodeBlock(lens, dists, cs)
    && Expand(lens, dists, cs, before) == Some(after)
  }

  ghost predicate WritesDynamic(t: Tables, cs: seq<Coded>, before: seq<Byte>, body: seq<bool>, after: seq<Byte>) {
    EncodableTables(t)
    && exists block :: body == EncodeHeader(t) + block && WritesBlock(TableLens(t), TableDists(t), cs, before, block, after)
  }

  /** A block is written as these bits after `position` bits, and takes the output from `before` to `after`;
      padding goes to the end of a byte. */
  ghost predicate Writes(p: Plan, position: nat, before: seq<Byte>, body: seq<bool>, after: seq<Byte>) {
    match p
    case StoredPlan(padding, bytes) =>
      && |bytes| <= 0xffff && |padding| < 8 && (position + |padding|) % 8 == 0
      && body == EncodeStored(padding, bytes) && after == before + bytes
    case FixedPlan(cs) => WritesBlock(FIXED_LENGTHS, FIXED_DISTANCES, cs, before, body, after)
    case DynamicPlan(t, cs) => WritesDynamic(t, cs, before, body, after)
  }

  /** A block of a stream, its bits, and all output up to its end. */
  datatype Written = Written(plan: Plan, body: seq<bool>, output: seq<Byte>)

  /** The bits before the `i`-th block. */
  function PositionAt(ws: seq<Written>, i: nat): nat
    requires i <= |ws|
  {
    if i == 0 then 0 else PositionAt(ws, i - 1) + 3 + |ws[i - 1].body|
  }

  /** The output before the `i`-th block. */
  function OutputAt(ws: seq<Written>, i: nat): seq<Byte>
    requires i <= |ws|
  {
    if i == 0 then [] else ws[i - 1].output
  }

  /** The `i`-th block is written behind its header of three bits. */
  ghost predicate WrittenAt(ws: seq<Written>, i: nat)
    requires i < |ws|
  {
    && |OutputAt(ws, i)| <= |ws[i].output|
    && Writes(ws[i].plan, PositionAt(ws, i) + 3, OutputAt(ws, i), ws[i].body, ws[i].output)
  }

  /** A stream of blocks. */
  ghost predicate WellWritten(ws: seq<Written>) {
    ws != [] && forall i: nat {:trigger WrittenAt(ws, i)} :: i < |ws| ==> WrittenAt(ws, i)
  }

  function BlockHeader(last: bool, kind: nat): (bits: seq<bool>)
    ensures |bits| == 3
  {
    LowBits(if last then 1 else 0, 1) + LowBits(kind, 2)
  }

  /** The bits of the blocks from the `i`-th on; the last one is marked. */
  function StreamFrom(ws: seq<Written>, i: nat): seq<bool>
    requires i < |ws|
    decreases |ws| - i
  {
    if i == |ws| - 1 then BlockHeader(true, Kind(ws[i].plan)) + ws[i].body
    else BlockHeader(false, Kind(ws[i].plan)) + (ws[i].body + StreamFrom(ws, i + 1))
  }

  // ----- decoding inverts encoding -----

  /** Decoding gives this output and leaves these bits. */
  ghost predicate Yields(r: Outcome, output: seq<Byte>, rest: seq<bool>) {
    r.Done? && r.output == output && r.rest.bits == rest
  }

  lemma WrittenDynamicRead(t: Tables, cs: seq<Coded>, before: seq<Byte>, body: seq<bool>, after: seq<Byte>,
                           input: Input, buffer: seq<Byte>, rest: seq<bool>)
    requires WritesDynamic(t, cs, before, body, after) && |after| <= |buffer| && |rest| >= REFILL_BITS
    requires input.bits == body + rest
    ensures Yields(BlockOfType(2, input, before, buffer), after, rest)
  {
    assert Shown(0);
    var block :| body == EncodeHeader(t) + block && WritesBlock(TableLens(t), TableDists(t), cs, before, block, after);
    Regroup(EncodeHeader(t), block, rest);
    HeaderInvertsEncoding(t, input, block + rest);
    BlockInvertsEncoding(TableLens(t), TableDists(t), cs, ReadHeader(input).rest, before, buffer, rest);
  }

  lemma WrittenFixedRead(cs: seq<Coded>, before: seq<Byte>, body: seq<bool>, after: seq<Byte>,
                         input: Input, buffer: seq<Byte>, rest: seq<bool>)
    requires WritesBlock(FIXED_LENGTHS, FIXED_DISTANCES, cs, before, body, after)
    requires |after| <= |buffer| && |rest| >= REFILL_BITS && input.bits == body + rest
    ensures Yields(BlockOfType(1, input, before, buffer), after, rest)
  {
    assert Shown(0);
    FixedAccepted();
    BlockInvertsEncoding(FIXED_LENGTHS, FIXED_DISTANCES, cs, input, before, buffer, rest);
  }

  lemma StoredAligned(position: nat, padding: nat, bytes: nat, rest: nat)
    requires (position + padding) % 8 == 0 && (position + (padding + 8 * (4 + bytes)) + rest) % 8 == 0
    ensures rest % 8 == 0
  {
    var aligned := position + padding;
    assert (aligned + 8 * (4 + bytes) + rest) % 8 == (aligned + rest) % 8;
  }

  lemma WrittenStoredRead(padding: seq<bool>, bytes: seq<Byte>, position: nat, before: seq<Byte>,
                          input: Input, buffer: seq<Byte>, rest: seq<bool>)
    requires |bytes| <= 0xffff && |padding| < 8 && (position + |padding|) % 8 == 0
    requires |before| + |bytes| <= |buffer| && (position + |EncodeStored(padding, bytes)| + |rest|) % 8 == 0
    requires input.bits == EncodeStored(padding, bytes) + rest
    ensures Yields(BlockOfType(0, input, before, buffer), before + bytes, rest)
  {
    assert Shown(0);
    StoredAligned(position, |padding|, |bytes|, |rest|);
    StreamBitsOfBytes(rest);
    StoredInvertsEncoding(padding, bytes, input, BytesOf(rest), before, buffer);
  }

  /** Wherever the body of a block is followed by enough bits, up to the end of a byte, it is read back. */
  ghost predicate ReadsBack(w: Written, position: nat, before: seq<Byte>, buffer: seq<Byte>) {
    forall input: Input {:trigger BlockOfType(Kind(w.plan), input, before, buffer)} ::
      w.body <= input.bits && |input.bits| >= |w.body| + REFILL_BITS && (position + |input.bits|) % 8 == 0 ==>
        Yields(BlockOfType(Kind(w.plan), input, before, buffer), w.output, input.bits[|w.body|..])
  }

  /** A block that is written is read back. */
  lemma WrittenReadsBack(w: Written, position: nat, before: seq<Byte>, buffer: seq<Byte>)
    requires Writes(w.plan, position, before, w.body, w.output) && |w.output| <= |buffer|
    ensures ReadsBack(w, position, before, buffer)
  {
    forall input: Input | w.body <= input.bits && |input.bits| >= |w.body| + REFILL_BITS && (position + |input.bits|) % 8 == 0
      ensures Yields(BlockOfType(Kind(w.plan), input, before, buffer), w.output, input.bits[|w.body|..])
    {
      var rest := input.bits[|w.body|..];
      assert input.bits == w.body + rest;
      match w.plan
      case StoredPlan(padding, bytes) =>
        WrittenStoredRead(padding, bytes, position, before, input, buffer, rest);
      case FixedPlan(cs) =>
        WrittenFixedRead(cs, before, w.body, w.output, input, buffer, rest);
      case DynamicPlan(t, cs) =>
        WrittenDynamicRead(t, cs, before, w.body, w.output, input, buffer, rest);
    }
  }

  ghost predicate ReadsBackAt(ws: seq<Written>, i: nat, buffer: seq<Byte>)
    requires i < |ws|
  {
    ReadsBack(ws[i], PositionAt(ws, i) + 3, OutputAt(ws, i), buffer)
  }

  lemma WrittenAtReadsBack(ws: seq<Written>, i: nat, buffer: seq<Byte>)
    requires i < |ws| && WrittenAt(ws, i) && |ws[i].output| <= |buffer|
    ensures ReadsBackAt(ws, i, buffer)
  {
    WrittenReadsBack(ws[i], PositionAt(ws, i) + 3, OutputAt(ws, i), buffer);
  }

  lemma OutputGrows(ws: seq<Written>, i: nat)
    requires i + 1 < |ws| && WrittenAt(ws, i + 1)
    ensures |ws[i].output| <= |ws[i + 1].output|
  {
  }

  lemma {:induction false} OutputsFit(ws: seq<Written>, i: nat)
    requires i < |ws| && WellWritten(ws)
    ensures |ws[i].output| <= |ws[|ws| - 1].output|
    decreases |ws| - i
  {
    if i + 1 < |ws| {
      var next := i + 1;
      assert WrittenAt(ws, next);
      OutputGrows(ws, i);
      OutputsFit(ws, next);
    }
  }

  lemma HeaderReadBack(last: bool, kind: nat, input: Input, tail: seq<bool>) returns (body: Input)
    requires kind < 4 && |tail| >= REFILL_BITS && input.bits == BlockHeader(last, kind) + tail
    ensures body.bits == tail
    ensures var first := ReadExtended(0, 1, input);
            && first.Extended? && (first.value != 0) == last && ReadExtended(0, 2, first.rest) == Extended(kind, body)
  {
    SmallPowers();
    var fin := if last then 1 else 0;
    Regroup(LowBits(fin, 1), LowBits(kind, 2), tail);
    ReadExtendedOfEncoding(0, 1, fin, input, LowBits(kind, 2) + tail);
    var second := ReadExtended(0, 1, input).rest;
    ReadExtendedOfEncoding(0, 2, kind, second, tail);
    body := ReadExtended(0, 2, second).rest;
  }

  /** The first block of a stream is read back; decoding goes on, or ends, behind it. */
  lemma HeadRead(w: Written, last: bool, position: nat, before: seq<Byte>, input: Input, buffer: seq<Byte>, tail: seq<bool>)
      returns (after: Input)
    requires ReadsBack(w, position, before, buffer) && |tail| >= REFILL_BITS && (position + |w.body| + |tail|) % 8 == 0
    requires input.bits == BlockHeader(last, Kind(w.plan)) + (w.body + tail)
    ensures after.bits == tail
    ensures Stream(input, before, buffer) == if last then Done(w.output, after) else Stream(after, w.output, buffer)
  {
    var body := HeaderReadBack(last, Kind(w.plan), input, w.body + tail);
    assert body.bits[|w.body|..] == tail;
    after := BlockOfType(Kind(w.plan), body, before, buffer).rest;
  }

  lemma SameSum(position: nat, body: nat, more: nat, rest: nat)
    requires (position + (3 + (body + more)) + rest) % 8 == 0
    ensures (position + 3 + body + (more + rest)) % 8 == 0 && (position + 3 + body + more + rest) % 8 == 0
  {
  }

  /** Behind a block that is not the last one, decoding goes on. */
  lemma BlockAndMoreRead(w: Written, position: nat, before: seq<Byte>, input: Input, buffer: seq<Byte>,
                         more: seq<bool>, rest: seq<bool>)
      returns (after: Input)
    requires ReadsBack(w, position + 3, before, buffer) && |rest| >= REFILL_BITS
    requires (position + (3 + (|w.body| + |more|)) + |rest|) % 8 == 0
    requires input.bits == BlockHeader(false, Kind(w.plan)) + (w.body + more) + rest
    ensures after.bits == more + rest && (position + 3 + |w.body| + |more| + |rest|) % 8 == 0
    ensures Stream(input, before, buffer) == Stream(after, w.output, buffer)
  {
    Regroup(BlockHeader(false, Kind(w.plan)), w.body + more, rest);
    Regroup(w.body, more, rest);
    SameSum(position, |w.body|, |more|, |rest|);
    after := HeadRead(w, false, position + 3, before, input, buffer, more + rest);
  }

  lemma LastRead(w: Written, position: nat, before: seq<Byte>, input: Input, buffer: seq<Byte>, rest: seq<bool>)
    requires ReadsBack(w, position + 3, before, buffer) && |rest| >= REFILL_BITS
    requires (position + (3 + |w.body|) + |rest|) % 8 == 0
    requires input.bits == BlockHeader(true, Kind(w.plan)) + w.body + rest
    ensures Yields(Stream(input, before, buffer), w.output, rest)
  {
    Regroup(BlockHeader(true, Kind(w.plan)), w.body, rest);
    var after := HeadRead(w, true, position + 3, before, input, buffer, rest);
  }

  lemma {:induction false} StreamReadBack(ws: seq<Written>, i: nat, input: Input, buffer: seq<Byte>, rest: seq<bool>)
    requires i < |ws| && |rest| >= REFILL_BITS && input.bits == StreamFrom(ws, i) + rest
    requires (PositionAt(ws, i) + |StreamFrom(ws, i)| + |rest|) % 8 == 0
    requires forall k: nat {:trigger ReadsBackAt(ws, k, buffer)} :: k < |ws| ==> ReadsBackAt(ws, k, buffer)
    ensures Yields(Stream(input, OutputAt(ws, i), buffer), ws[|ws| - 1].output, rest)
    decreases |ws| - i
  {
    var w, before := ws[i], OutputAt(ws, i);
    assert ReadsBackAt(ws, i, buffer);
    if i == |ws| - 1 {
      LastRead(w, PositionAt(ws, i), before, input, buffer, rest);
    } else {
      var after := BlockAndMoreRead(w, PositionAt(ws, i), before, input, buffer, StreamFrom(ws, i + 1), rest);
      StreamReadBack(ws, i + 1, after, buffer, rest);
    }
  }

  /** Inflating a stream of stored, fixed and dynamic blocks, up to the end of a byte and with enough bits behind it,
      gives exactly what its blocks stand for and consumes exactly its bits. */
  lemma InflateInvertsDeflate(ws: seq<Written>, input: Input, buffer: seq<Byte>, rest: seq<bool>)
    requires WellWritten(ws) && |ws[|ws| - 1].output| <= |buffer|
    requires |rest| >= REFILL_BITS && input.bits == StreamFrom(ws, 0) + rest && |input.bits| % 8 == 0
    ensures Yields(Stream(input, [], buffer), ws[|ws| - 1].output, rest)
  {
    forall k: nat | k < |ws| ensures ReadsBackAt(ws, k, buffer) {
      OutputsFit(ws, k);
      WrittenAtReadsBack(ws, k, buffer);
    }
    StreamReadBack(ws, 0, input, buffer, rest);
  }

  // ----- a stream of three bytes -----

  /** One fixed block with the letter `a`. */
  ghost function Letter(): Written {
    FixedCodes(97);
    FixedCodes(256);
    Written(FixedPlan([CodedLiteral(97)]), Code(FIXED_LENGTHS, 97) + Code(FIXED_LENGTHS, 256), [97])
  }

  lemma LetterCodes()
    ensures HighBits(0x91, 8) == [true, false, false, true, false, false, false, true]
    ensures HighBits(0, 7) == [false, false, false, false, false, false, false]
  {
    var none: seq<bool> := [];
    assert HighBits(0x91, 0) == HighBits(0, 0) == none;
    assert HighBits(2, 2) == [true, false] && HighBits(9, 4) == HighBits(2, 2) + [false, true];
    assert HighBits(0x24, 6) == HighBits(9, 4) + [false, false] && HighBits(0x91, 8) == HighBits(0x24, 6) + [false, true];
    assert HighBits(0, 3) == [false, false, false] && HighBits(0, 5) == HighBits(0, 3) + [false, false];
  }

  lemma LastByte()
    ensures LowBits(0, 8) == [false, false, false, false, false, false, false, false]
  {
    assert LowBits(0, 4) == [false, false, false, false] && LowBits(0, 6) == [false, false] + LowBits(0, 4);
  }

  lemma MiddleByte()
    ensures LowBits(0x04, 8) == [false, false, true, false, false, false, false, false]
  {
    assert LowBits(0, 3) == [false, false, false] && LowBits(0, 5) == [false, false] + LowBits(0, 3);
    assert LowBits(1, 6) == [true] + LowBits(0, 5);
  }

  lemma FirstByte()
    ensures LowBits(0x4b, 8) == [true, true, false, true, false, false, true, false]
  {
    assert LowBits(4, 4) == [false, false, true, false] && LowBits(9, 5) == [true] + LowBits(4, 4);
    assert LowBits(0x12, 6) == [false] + LowBits(9, 5);
  }

  lemma LetterHeader()
    ensures BlockHeader(true, 1) == [true, true, false]
  {
    assert LowBits(1, 1) == [true] && LowBits(1, 2) == [true] + LowBits(0, 1);
  }

  /** Three bytes hold a header, a literal and the end of a block, and six bits of padding. */
  lemma Packed(header: seq<bool>, literal: seq<bool>, end: seq<bool>, padding: seq<bool>,
               b0: seq<bool>, b1: seq<bool>, b2: seq<bool>)
    requires |literal| == 8 && |end| == 7
    requires b0 == header + literal[..5] && b1 == literal[5..] + end[..5] && b2 == end[5..] + padding
    ensures b0 + (b1 + b2) == header + (literal + end) + padding
  {
  }

  lemma LetterBits(padding: seq<bool>)
    requires padding == [false, false, false, false, false, false]
    ensures LowBits(0x4b, 8) + (LowBits(0x04, 8) + LowBits(0, 8))
            == BlockHeader(true, 1) + (HighBits(0x91, 8) + HighBits(0, 7)) + padding
  {
    LetterCodes();
    FirstByte();
    MiddleByte();
    LastByte();
    LetterHeader();
    Packed(BlockHeader(true, 1), HighBits(0x91, 8), HighBits(0, 7), padding, LowBits(0x4b, 8), LowBits(0x04, 8), LowBits(0, 8));
  }

  lemma LetterExpanded(cs: seq<Coded>)
    requires cs == [CodedLiteral(97)]
    ensures WritesBlock(FIXED_LENGTHS, FIXED_DISTANCES, cs, [], Letter().body, [97])
  {
    var none: seq<Byte> := [];
    FixedCodes(97);
    FixedCodes(256);
    assert cs[1..] == [] && none + [97] == [97];
    assert EncodeTokens(FIXED_LENGTHS, FIXED_DISTANCES, cs) == Code(FIXED_LENGTHS, 97) + [];
    assert Expand(FIXED_LENGTHS, FIXED_DISTANCES, cs[1..], none + [97]) == Some([97]);
  }

  lemma ThreeBytes(bytes: seq<Byte>)
    requires |bytes| == 3
    ensures StreamBits(bytes) == LowBits(bytes[0], 8) + (LowBits(bytes[1], 8) + LowBits(bytes[2], 8))
  {
    assert StreamBits(bytes) == LowBits(bytes[0], 8) + StreamBits(bytes[1..]);
    assert StreamBits(bytes[1..]) == LowBits(bytes[1], 8) + StreamBits(bytes[2..]) by {
      assert bytes[1..][1..] == bytes[2..];
    }
    assert StreamBits(bytes[2..]) == LowBits(bytes[2], 8) + [] by {
      assert bytes[2..][1..] == [];
    }
  }

  lemma LetterBody()
    ensures Letter().body == HighBits(0x91, 8) + HighBits(0, 7)
  {
    FixedCodes(97);
    FixedCodes(256);
  }

  lemma LetterFrom()
    ensures StreamFrom([Letter()], 0) == BlockHeader(true, 1) + (HighBits(0x91, 8) + HighBits(0, 7))
  {
    LetterBody();
    OneBlock(Letter());
  }

  lemma OneBlock(w: Written)
    ensures StreamFrom([w], 0) == BlockHeader(true, Kind(w.plan)) + w.body
  {
  }

  lemma LetterStreamBits(bytes: seq<Byte>, padding: seq<bool>)
    requires bytes == [0x4b, 0x04, 0x00] && padding == [false, false, false, false, false, false]
    ensures StreamBits(bytes) == StreamFrom([Letter()], 0) + padding
  {
    LetterBits(padding);
    LetterFrom();
    ThreeBytes(bytes);
  }

  /** The bytes 4b 04 00, whatever follows them, are a stream that stands for the letter `a`. */
  lemma LetterStream(tail: seq<Byte>) returns (ws: seq<Written>, rest: seq<bool>)
    ensures WellWritten(ws) && ws[|ws| - 1].output == [97] && |rest| == 6 + 8 * |tail|
    ensures StreamBits([0x4b, 0x04, 0x00] + tail) == StreamFrom(ws, 0) + rest
  {
    ws := [Letter()];
    LetterExpanded([CodedLiteral(97)]);
    assert WrittenAt(ws, 0);
    var padding := [false, false, false, false, false, false];
    rest := padding + StreamBits(tail);
    LetterStreamBits([0x4b, 0x04, 0x00], padding);
    StreamBitsAppend([0x4b, 0x04, 0x00], tail);
    Regroup(StreamFrom(ws, 0), padding, StreamBits(tail));
  }
}
