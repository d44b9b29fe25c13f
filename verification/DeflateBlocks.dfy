/** Compressed blocks as sections 3.2.3 and 3.2.5 of RFC 1951 describe them: what a sequence of bits stands for,
    and how literals and matches are encoded. */
module DeflateBlocks {
  import opened Wrappers
  import opened Words
  import opened BitReaders
  import opened HuffmanCodes

  // ----- lengths and distances -----

  /** Index 0 is symbol 257; the last two symbols are not part of the format. */
  const LENGTH_BASE: seq<nat> := [
    3, 4, 5, 6, 7, 8, 9, 10, 11, 13, 15, 17, 19, 23, 27, 31, 35, 43, 51, 59,
    67, 83, 99, 115, 131, 163, 195, 227, 258, 0, 0]

  const LENGTH_EXTRA: seq<nat> := [
    0, 0, 0, 0, 0, 0, 0, 0, 1, 1, 1, 1, 2, 2, 2, 2, 3, 3, 3, 3, 4, 4, 4, 4, 5, 5, 5, 5, 0, 0, 0]

  const DIST_BASE: seq<nat> := [
    1, 2, 3, 4, 5, 7, 9, 13, 17, 25, 33, 49, 65, 97, 129, 193,
    257, 385, 513, 769, 1025, 1537, 2049, 3073, 4097, 6145, 8193, 12289, 16385, 24577, 0, 0]

  const DIST_EXTRA: seq<nat> := [
    0, 0, 0, 0, 1, 1, 2, 2, 3, 3, 4, 4, 5, 5, 6, 6, 7, 7, 8, 8, 9, 9, 10, 10, 11, 11, 12, 12, 13, 13, 0, 0]

  lemma TableSizes()
    ensures |LENGTH_BASE| == |LENGTH_EXTRA| == 31 && |DIST_BASE| == |DIST_EXTRA| == 32
    ensures forall z :: 0 <= z < 31 ==> LENGTH_EXTRA[z] <= 5
    ensures forall d :: 0 <= d < 32 ==> DIST_EXTRA[d] <= 13
    ensures forall d :: 0 <= d < 30 ==> DIST_BASE[d] >= 1
  {
  }

  /** The distance code has at most 32 symbols. */
  type DistanceLengths = s: seq<Length> | |s| <= 32

  // ----- expansion -----

  datatype Token = Literal(value: Byte) | EndOfBlock | Match(length: nat, distance: nat)

  /** A match repeats output byte by byte, so it may repeat what it has just produced. */
  function CopyMatch(output: seq<Byte>, length: nat, distance: nat): (r: seq<Byte>)
    requires 1 <= distance <= |output|
    ensures |r| == |output| + length
    decreases length
  {
    if length == 0 then output else CopyMatch(output + [output[|output| - distance]], length - 1, distance)
  }

  /** The output keeps what was there, and every new byte equals the one `distance` before it. */
  lemma {:induction false} CopyMatchRepeats(output: seq<Byte>, length: nat, distance: nat)
    requires 1 <= distance <= |output|
    ensures var r := CopyMatch(output, length, distance);
            && output <= r
            && forall i :: |output| <= i < |r| ==> r[i] == r[i - distance]
    decreases length
  {
    if length > 0 {
      var next := output + [output[|output| - distance]];
      CopyMatchRepeats(next, length - 1, distance);
      var r := CopyMatch(output, length, distance);
      assert next[|output|] == r[|output|] && next[|output| - distance] == r[|output| - distance];
      assert output <= next;
    }
  }

  /** That determines it. */
  lemma {:induction false} RepetitionUnique(output: seq<Byte>, r: seq<Byte>, length: nat, distance: nat)
    requires 1 <= distance <= |output| && |r| == |output| + length && output <= r
    requires forall i :: |output| <= i < |r| ==> r[i] == r[i - distance]
    ensures r == CopyMatch(output, length, distance)
    decreases length
  {
    if length > 0 {
      var next := output + [output[|output| - distance]];
      assert r[|output|] == r[|output| - distance] == output[|output| - distance];
      assert next <= r;
      RepetitionUnique(next, r, length - 1, distance);
    }
  }

  /** At distance 1 the last byte is repeated, which is what the decoder's separate branch writes. */
  lemma {:induction false} DistanceOneRepeatsLast(output: seq<Byte>, length: nat)
    requires output != []
    ensures CopyMatch(output, length, 1) == output + seq(length, _ => output[|output| - 1])
    decreases length
  {
    if length > 0 {
      var next := output + [output[|output| - 1]];
      DistanceOneRepeatsLast(next, length - 1);
      assert next + seq(length - 1, _ => next[|next| - 1]) == output + seq(length, _ => output[|output| - 1]);
    }
  }

  // ----- what a sequence of bits stands for -----

  /** A token and the input behind it; or that no code matches; or that the input ends too early for the decoder. */
  datatype TokenRead = Read(token: Token, rest: Input) | NoCode | Outside

  /** The next code is looked for in 16 bits. */
  const CODE_BITS := 16

  /** A base value with extra bits. */
  datatype Extended = Extended(value: nat, rest: Input) | TooShort

  function ReadExtended(base: nat, extra: nat, input: Input): (r: Extended)
    requires extra <= 16
    ensures r.Extended? ==> |r.rest.bits| <= |input.bits|
  {
    if extra == 0 then Extended(base, input)
    else if Starved(input, extra) then TooShort
    else Extended(base + Value(input.bits[..extra]), Dropped(input, extra, extra))
  }

  ghost function ReadDistance(dists: DistanceLengths, input: Input, length: nat): (r: TokenRead)
    ensures r.Read? ==> |r.rest.bits| < |input.bits| && r.token.Match?
  {
    TableSizes();
    if Starved(input, CODE_BITS) then Outside
    else
      match NextSymbol(dists, input.bits)
      case None => NoCode
      case Some(d) =>
        match ReadExtended(DIST_BASE[d], DIST_EXTRA[d], Dropped(input, CODE_BITS, dists[d]))
        case TooShort => Outside
        case Extended(distance, rest) => Read(Match(length, distance), rest)
  }

  /** What follows the `z`-th length symbol. */
  ghost function ReadMatch(dists: DistanceLengths, z: nat, input: Input): (r: TokenRead)
    requires z < 31
    ensures r.Read? ==> |r.rest.bits| < |input.bits| && r.token.Match?
  {
    TableSizes();
    match ReadExtended(LENGTH_BASE[z], LENGTH_EXTRA[z], input)
    case TooShort => Outside
    case Extended(length, rest) => ReadDistance(dists, rest, length)
  }

  ghost function ReadToken(lens: Lengths, dists: DistanceLengths, input: Input): (r: TokenRead)
    ensures r.Read? ==> |r.rest.bits| < |input.bits|
  {
    if Starved(input, CODE_BITS) then Outside
    else
      match NextSymbol(lens, input.bits)
      case None => NoCode
      case Some(sym) =>
        var rest := Dropped(input, CODE_BITS, lens[sym]);
        if sym < 256 then Read(Literal(sym), rest)
        else if sym == 256 then Read(EndOfBlock, rest)
        else ReadMatch(dists, sym - 257, rest)
  }

  /** All output and the input behind the block; or that the block is refused; or that the input ends too early. */
  datatype Outcome = Done(output: seq<Byte>, rest: Input) | Refused | Undefined

  /** A match, in a buffer that still holds `buffer` behind the output. The two distance symbols that the format
      reserves stand for distance 0: they turn what the buffer holds into output. */
  function CopyFrom(output: seq<Byte>, length: nat, distance: nat, buffer: seq<Byte>): (r: seq<Byte>)
    requires distance <= |output| && |output| + length <= |buffer|
    ensures |r| == |output| + length
  {
    if distance == 0 then output + buffer[|output|..|output| + length] else CopyMatch(output, length, distance)
  }

  /** A block, after some output and with room for as many bytes in all as `buffer` holds. */
  ghost function Block(lens: Lengths, dists: DistanceLengths, input: Input, output: seq<Byte>, buffer: seq<Byte>): (r: Outcome)
    ensures r.Done? ==> |r.rest.bits| < |input.bits|
    decreases |input.bits|
  {
    match ReadToken(lens, dists, input)
    case Outside => Undefined
    case NoCode => Refused
    case Read(token, rest) =>
      match token
      case EndOfBlock => Done(output, rest)
      case Literal(v) =>
        if |output| >= |buffer| then Refused else Block(lens, dists, rest, output + [v], buffer)
      case Match(length, distance) =>
        if distance > |output| || |output| + length > |buffer| then Refused
        else Block(lens, dists, rest, CopyFrom(output, length, distance, buffer), buffer)
  }

  /** A block by its next symbol. */
  lemma BlockAfterSymbol(lens: Lengths, dists: DistanceLengths, input: Input, sym: nat, output: seq<Byte>, buffer: seq<Byte>)
    requires !Starved(input, CODE_BITS) && NextSymbol(lens, input.bits) == Some(sym)
    ensures var rest := Dropped(input, CODE_BITS, lens[sym]);
            Block(lens, dists, input, output, buffer)
            == if sym < 256 then
                 if |output| >= |buffer| then Refused else Block(lens, dists, rest, output + [sym], buffer)
               else if sym == 256 then Done(output, rest)
               else
                 match ReadMatch(dists, sym - 257, rest)
                 case Outside => Undefined
                 case NoCode => Refused
                 case Read(token, rest) =>
                   if token.distance > |output| || |output| + token.length > |buffer| then Refused
                   else Block(lens, dists, rest, CopyFrom(output, token.length, token.distance, buffer), buffer)
  {
  }

  // ----- encoding -----

  /** A literal, or a match by its symbols and extra bits. */
  datatype Coded = CodedLiteral(value: Byte)
                 | CodedMatch(lengthSymbol: nat, lengthExtra: nat, distanceSymbol: nat, distanceExtra: nat)

  /** The symbols and extra bits of a match are those of the format. */
  ghost predicate EncodableMatch(dists: DistanceLengths, z: nat, le: nat, d: nat, de: nat) {
    && z < 29 && le < Shl(1, LENGTH_EXTRA[z])
    && d < 30 && Used(dists, d) && de < Shl(1, DIST_EXTRA[d])
  }

  ghost function MatchToken(dists: DistanceLengths, z: nat, le: nat, d: nat, de: nat): (r: Token)
    requires EncodableMatch(dists, z, le, d, de)
    ensures r.Match? && r.distance >= 1
  {
    TableSizes();
    Match(LENGTH_BASE[z] + le, DIST_BASE[d] + de)
  }

  /** What follows the `z`-th length symbol. */
  ghost function EncodeMatch(dists: DistanceLengths, z: nat, le: nat, d: nat, de: nat): seq<bool>
    requires EncodableMatch(dists, z, le, d, de)
  {
    LowBits(le, LENGTH_EXTRA[z]) + (Code(dists, d) + LowBits(de, DIST_EXTRA[d]))
  }

  ghost predicate Encodable(lens: Lengths, dists: DistanceLengths, c: Coded) {
    match c
    case CodedLiteral(v) => Used(lens, v)
    case CodedMatch(l, le, d, de) =>
      l >= 257 && Used(lens, l) && EncodableMatch(dists, l - 257, le, d, de)
  }

  ghost function Meaning(lens: Lengths, dists: DistanceLengths, c: Coded): (r: Token)
    requires Encodable(lens, dists, c)
    ensures r.Match? ==> r.distance >= 1
  {
    match c
    case CodedLiteral(v) => Literal(v)
    case CodedMatch(l, le, d, de) => MatchToken(dists, l - 257, le, d, de)
  }

  ghost function EncodeToken(lens: Lengths, dists: DistanceLengths, c: Coded): seq<bool>
    requires Encodable(lens, dists, c)
  {
    match c
    case CodedLiteral(v) => Code(lens, v)
    case CodedMatch(l, le, d, de) => Code(lens, l) + EncodeMatch(dists, l - 257, le, d, de)
  }

  ghost function EncodeTokens(lens: Lengths, dists: DistanceLengths, cs: seq<Coded>): seq<bool>
    requires forall i :: 0 <= i < |cs| ==> Encodable(lens, dists, cs[i])
  {
    if cs == [] then [] else EncodeToken(lens, dists, cs[0]) + EncodeTokens(lens, dists, cs[1..])
  }

  /** A block: its tokens and the symbol that ends it. */
  ghost function EncodeBlock(lens: Lengths, dists: DistanceLengths, cs: seq<Coded>): seq<bool>
    requires forall i :: 0 <= i < |cs| ==> Encodable(lens, dists, cs[i])
    requires Used(lens, 256)
  {
    EncodeTokens(lens, dists, cs) + Code(lens, 256)
  }

  /** The output after one token more; none if a match reaches back behind its start. */
  function Apply(token: Token, output: seq<Byte>): (r: Option<seq<Byte>>)
    ensures r.Some? ==> |output| <= |r.value|
  {
    match token
    case EndOfBlock => None
    case Literal(v) => Some(output + [v])
    case Match(length, distance) =>
      if distance == 0 || distance > |output| then None else Some(CopyMatch(output, length, distance))
  }

  /** The output of tokens after some output. */
  ghost function Expand(lens: Lengths, dists: DistanceLengths, cs: seq<Coded>, output: seq<Byte>): (r: Option<seq<Byte>>)
    requires forall i :: 0 <= i < |cs| ==> Encodable(lens, dists, cs[i])
    ensures r.Some? ==> |output| <= |r.value|
    decreases |cs|
  {
    if cs == [] then Some(output)
    else
      match Apply(Meaning(lens, dists, cs[0]), output)
      case None => None
      case Some(next) => Expand(lens, dists, cs[1..], next)
  }

  // ----- decoding inverts encoding -----

  // Each lemma is about an input that starts with an encoding and has enough bits behind it for a refill; the
  // encoding is consumed exactly.

  lemma ReadExtendedOfEncoding(base: nat, extra: nat, v: nat, input: Input, rest: seq<bool>)
    requires extra <= 16 && v < Shl(1, extra) && |rest| >= REFILL_BITS
    requires input.bits == LowBits(v, extra) + rest
    ensures var r := ReadExtended(base, extra, input); r.Extended? && r.value == base + v && r.rest.bits == rest
  {
    ValueOfLowBits(v, extra);
    assert input.bits[..extra] == LowBits(v, extra) && input.bits[extra..] == rest;
  }

  lemma ReadDistanceOfEncoding(dists: DistanceLengths, d: nat, de: nat, length: nat, input: Input, rest: seq<bool>)
    requires Accepted(dists) && Used(dists, d) && de < Shl(1, DIST_EXTRA[d]) && |rest| >= REFILL_BITS
    requires input.bits == Code(dists, d) + LowBits(de, DIST_EXTRA[d]) + rest
    ensures var r := ReadDistance(dists, input, length);
            r.Read? && r.token == Match(length, DIST_BASE[d] + de) && r.rest.bits == rest
  {
    TableSizes();
    var tail := LowBits(de, DIST_EXTRA[d]) + rest;
    Regroup(Code(dists, d), LowBits(de, DIST_EXTRA[d]), rest);
    NextSymbolOfCode(dists, d, tail);
    ReadExtendedOfEncoding(DIST_BASE[d], DIST_EXTRA[d], de, Dropped(input, CODE_BITS, dists[d]), rest);
  }

  lemma ReadMatchOfSymbols(dists: DistanceLengths, z: nat, le: nat, d: nat, de: nat, input: Input, rest: seq<bool>)
    requires z < 31 && Accepted(dists) && Used(dists, d) && |rest| >= REFILL_BITS
    requires le < Shl(1, LENGTH_EXTRA[z]) && de < Shl(1, DIST_EXTRA[d])
    requires input.bits == LowBits(le, LENGTH_EXTRA[z]) + (Code(dists, d) + LowBits(de, DIST_EXTRA[d]) + rest)
    ensures var r := ReadMatch(dists, z, input);
            r.Read? && r.token == Match(LENGTH_BASE[z] + le, DIST_BASE[d] + de) && r.rest.bits == rest
  {
    TableSizes();
    var tail := Code(dists, d) + LowBits(de, DIST_EXTRA[d]) + rest;
    ReadExtendedOfEncoding(LENGTH_BASE[z], LENGTH_EXTRA[z], le, input, tail);
    ReadDistanceOfEncoding(dists, d, de, LENGTH_BASE[z] + le, ReadExtended(LENGTH_BASE[z], LENGTH_EXTRA[z], input).rest, rest);
  }

  lemma ReadMatchOfEncoding(dists: DistanceLengths, z: nat, le: nat, d: nat, de: nat, input: Input, rest: seq<bool>)
    requires Accepted(dists) && EncodableMatch(dists, z, le, d, de) && |rest| >= REFILL_BITS
    requires input.bits == EncodeMatch(dists, z, le, d, de) + rest
    ensures var r := ReadMatch(dists, z, input);
            r.Read? && r.token == MatchToken(dists, z, le, d, de) && r.rest.bits == rest
  {
    Regroup(LowBits(le, LENGTH_EXTRA[z]), Code(dists, d) + LowBits(de, DIST_EXTRA[d]), rest);
    ReadMatchOfSymbols(dists, z, le, d, de, input, rest);
  }

  lemma ReadTokenAfterSymbol(lens: Lengths, dists: DistanceLengths, sym: nat, input: Input, tail: seq<bool>)
    requires Accepted(lens) && Used(lens, sym) && |tail| >= REFILL_BITS && input.bits == Code(lens, sym) + tail
    ensures !Starved(input, CODE_BITS)
    ensures var rest := Dropped(input, CODE_BITS, lens[sym]);
            && rest.bits == tail
            && ReadToken(lens, dists, input)
               == if sym < 256 then Read(Literal(sym), rest)
                  else if sym == 256 then Read(EndOfBlock, rest) else ReadMatch(dists, sym - 257, rest)
  {
    NextSymbolOfCode(lens, sym, tail);
  }

  /** A token is read back from its encoding. */
  lemma ReadTokenOfEncoding(lens: Lengths, dists: DistanceLengths, c: Coded, input: Input, rest: seq<bool>)
    requires Accepted(lens) && Accepted(dists) && Encodable(lens, dists, c) && |rest| >= REFILL_BITS
    requires input.bits == EncodeToken(lens, dists, c) + rest
    ensures var r := ReadToken(lens, dists, input);
            r.Read? && r.token == Meaning(lens, dists, c) && r.rest.bits == rest
  {
    match c
    case CodedLiteral(v) =>
      ReadTokenAfterSymbol(lens, dists, v, input, rest);
    case CodedMatch(l, le, d, de) =>
      var tail := EncodeMatch(dists, l - 257, le, d, de);
      Regroup(Code(lens, l), tail, rest);
      ReadTokenAfterSymbol(lens, dists, l, input, tail + rest);
      ReadMatchOfEncoding(dists, l - 257, le, d, de, Dropped(input, CODE_BITS, lens[l]), rest);
  }

  /** The expansion of a block's first token. */
  lemma BlockAfterToken(lens: Lengths, dists: DistanceLengths, c: Coded, input: Input, output: seq<Byte>, buffer: seq<Byte>,
                        rest: seq<bool>, next: seq<Byte>)
    requires Accepted(lens) && Accepted(dists) && Encodable(lens, dists, c) && |rest| >= REFILL_BITS
    requires input.bits == EncodeToken(lens, dists, c) + rest
    requires Apply(Meaning(lens, dists, c), output) == Some(next) && |next| <= |buffer|
    ensures var r := ReadToken(lens, dists, input);
            r.Read? && r.rest.bits == rest && Block(lens, dists, input, output, buffer) == Block(lens, dists, r.rest, next, buffer)
  {
    ReadTokenOfEncoding(lens, dists, c, input, rest);
  }

  /** A block is read back as the expansion of its tokens, and exactly its bits are consumed. */
  lemma {:induction false} BlockInvertsEncoding(lens: Lengths, dists: DistanceLengths, cs: seq<Coded>, input: Input,
                                                output: seq<Byte>, buffer: seq<Byte>, rest: seq<bool>)
    requires Accepted(lens) && Accepted(dists) && Used(lens, 256) && |rest| >= REFILL_BITS
    requires forall i :: 0 <= i < |cs| ==> Encodable(lens, dists, cs[i])
    requires Expand(lens, dists, cs, output).Some? && |Expand(lens, dists, cs, output).value| <= |buffer|
    requires input.bits == EncodeBlock(lens, dists, cs) + rest
    ensures var r := Block(lens, dists, input, output, buffer);
            r.Done? && r.output == Expand(lens, dists, cs, output).value && r.rest.bits == rest
    decreases |cs|
  {
    if cs == [] {
      assert EncodeBlock(lens, dists, cs) == Code(lens, 256);
      ReadTokenAfterSymbol(lens, dists, 256, input, rest);
    } else {
      var token, more := EncodeToken(lens, dists, cs[0]), EncodeBlock(lens, dists, cs[1..]);
      Regroup(token, EncodeTokens(lens, dists, cs[1..]), Code(lens, 256));
      Regroup(token, more, rest);
      var next := Apply(Meaning(lens, dists, cs[0]), output).value;
      BlockAfterToken(lens, dists, cs[0], input, output, buffer, more + rest, next);
      BlockInvertsEncoding(lens, dists, cs[1..], ReadToken(lens, dists, input).rest, next, buffer, rest);
    }
  }

  // ----- symbols that the format does not have -----

  lemma ReservedSymbols(z: nat, d: nat)
    requires z < 31 && d < 32
    ensures if z < 29 then LENGTH_BASE[z] >= 3 else LENGTH_BASE[z] == LENGTH_EXTRA[z] == 0
    ensures if d < 30 then DIST_BASE[d] >= 1 else DIST_BASE[d] == DIST_EXTRA[d] == 0
  {
  }

  /** The decoder takes any symbol that has a code. A match is shorter than the format's 3 bytes if and only if its
      symbol is 286 or 287, and is then empty; its distance is 0 if and only if the symbol is 30 or 31. */
  lemma ReservedSymbolsAccepted(lens: Lengths, dists: DistanceLengths, sym: nat, le: nat, d: nat, de: nat,
                                input: Input, rest: seq<bool>)
    requires Accepted(lens) && Accepted(dists) && sym >= 257 && Used(lens, sym) && Used(dists, d)
    requires le < Shl(1, LENGTH_EXTRA[sym - 257]) && de < Shl(1, DIST_EXTRA[d]) && |rest| >= REFILL_BITS
    requires var extra := LowBits(le, LENGTH_EXTRA[sym - 257]);
             input.bits == Code(lens, sym) + (extra + (Code(dists, d) + LowBits(de, DIST_EXTRA[d]) + rest))
    ensures var r := ReadToken(lens, dists, input);
            && r.Read? && r.rest.bits == rest && r.token.Match?
            && (r.token.length < 3 <==> sym >= 286) && (r.token.length == 0 <==> sym >= 286)
            && (r.token.distance == 0 <==> d >= 30)
  {
    var z := sym - 257;
    var dist := Code(dists, d) + LowBits(de, DIST_EXTRA[d]) + rest;
    ReadTokenAfterSymbol(lens, dists, sym, input, LowBits(le, LENGTH_EXTRA[z]) + dist);
    var after := Dropped(input, CODE_BITS, lens[sym]);
    ReadMatchOfSymbols(dists, z, le, d, de, after, rest);
    ReservedSymbols(z, d);
  }

  // ----- the tables cover the format -----

  /** Every length of the format has a symbol. */
  lemma LengthsCovered(length: nat) returns (z: nat, extra: nat)
    requires 3 <= length <= 258
    ensures z < 29 && extra < Shl(1, LENGTH_EXTRA[z]) && LENGTH_BASE[z] + extra == length
  {
    TableSizes();
    z := 28;
    extra := 0;
    if length < 258 {
      z := 27;
      while LENGTH_BASE[z] > length
        invariant z < 28 && length < if z == 27 then 258 else LENGTH_BASE[z + 1]
      {
        z := z - 1;
      }
      extra := length - LENGTH_BASE[z];
      LengthStep(z);
    }
  }

  lemma LengthStep(z: nat)
    requires z < 28
    ensures LENGTH_BASE[z + 1] <= LENGTH_BASE[z] + Shl(1, LENGTH_EXTRA[z])
  {
  }

  /** Every distance of the format has a symbol. */
  lemma DistancesCovered(distance: nat) returns (d: nat, extra: nat)
    requires 1 <= distance <= 32768
    ensures d < 30 && extra < Shl(1, DIST_EXTRA[d]) && DIST_BASE[d] + extra == distance
  {
    TableSizes();
    d := 29;
    while DIST_BASE[d] > distance
      invariant d < 30 && distance < if d == 29 then 32769 else DIST_BASE[d + 1]
    {
      d := d - 1;
    }
    extra := distance - DIST_BASE[d];
    DistanceStep(d);
  }

  lemma DistanceStep(d: nat)
    requires d < 30
    ensures (if d == 29 then 32769 else DIST_BASE[d + 1]) == DIST_BASE[d] + Shl(1, DIST_EXTRA[d])
  {
    assert Shl(1, 4) == 16 && Shl(1, 8) == 256;
    assert Shl(1, 5) == 32 && Shl(1, 6) == 64 && Shl(1, 7) == 128;
    assert Shl(1, 9) == 512 && Shl(1, 10) == 1024 && Shl(1, 11) == 2048 && Shl(1, 12) == 4096 && Shl(1, 13) == 8192;
  }

  /** The tables of lengths and distances of section 3.2.5 of RFC 1951. Each entry begins where the one before it ends; the
      number of extra bits grows by one with every fourth length and every second distance. 258 has a symbol of its own. */
  lemma LengthTable(z: nat)
    requires z < 28
    ensures LENGTH_BASE[0] == 3 && LENGTH_BASE[28] == 258 && LENGTH_EXTRA[28] == 0
    ensures LENGTH_EXTRA[z] == if z < 8 then 0 else z / 4 - 1
    ensures z < 27 ==> LENGTH_BASE[z + 1] == LENGTH_BASE[z] + Shl(1, LENGTH_EXTRA[z])
  {
    LengthExtras(z);
    assert Shl(1, 4) == 16 && Shl(1, 5) == 32;
  }

  lemma LengthExtras(z: nat)
    requires z < 28
    ensures LENGTH_EXTRA[z] == if z < 8 then 0 else z / 4 - 1
  {
  }

  lemma DistanceTable(d: nat)
    requires d < 30
    ensures DIST_BASE[0] == 1
    ensures DIST_EXTRA[d] == if d < 4 then 0 else d / 2 - 1
    ensures d < 29 ==> DIST_BASE[d + 1] == DIST_BASE[d] + Shl(1, DIST_EXTRA[d])
  {
    DistanceExtras(d);
    DistanceStep(d);
  }

  lemma DistanceExtras(d: nat)
    requires d < 30
    ensures DIST_EXTRA[d] == if d < 4 then 0 else d / 2 - 1
  {
  }
}
