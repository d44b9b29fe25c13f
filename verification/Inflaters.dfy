/** include/ssfn.h: the decoder of compressed blocks. */
module Inflaters {
  import opened Wrappers
  import opened Words
  import opened BitReaders
  import opened HuffmanCodes
  import opened HuffmanTables
  import opened HuffmanDecoders
  import opened DeflateBlocks
  import opened StoredBlocks
  import opened CodeTables
  import opened DeflateStreams

  lemma LowThree(v: nat)
    ensures And(v, 7) == v % 8
  {
    assert And(v / 2 / 2, 1) == v / 2 / 2 % 2 + 2 * And(v / 2 / 2 / 2, 0);
    AndZero(v / 2 / 2 / 2);
    assert And(v / 2, 3) == v / 2 % 2 + 2 * And(v / 2 / 2, 1);
  }

  lemma WholeBytes(n: nat, bytes: nat)
    ensures (n + 8 * bytes) % 8 == n % 8 && (n - n % 8) % 8 == 0
  {
  }

  /** The first byte of an aligned buffer is its low eight bits. */
  lemma BufferedByte(code: nat, n: nat, bytes: seq<Byte>)
    requires code < Shl(1, n) && n >= 8
    ensures And(code, 255) < 256
    ensures BytesOf(Buffered(code, n, bytes)) == [And(code, 255)] + BytesOf(Buffered(code, n, bytes)[8..])
  {
    Powers();
    BitsMasked(code, n, bytes, 8);
  }

  datatype Step = More | Ended | Failed

  class Inflater {
    const input: BitReader
    /** The output buffer; it has its final size. */
    const zout: array<Byte>
    var produced: nat
    const zLength: HuffmanTable
    const zDistance: HuffmanTable

    constructor (data: seq<Byte>, capacity: nat)
      requires capacity != 8
      ensures Valid() && Separate() && fresh(input) && fresh(zout) && fresh(zLength.Repr()) && fresh(zDistance.Repr())
      ensures input.data == data && input.zbuffer == 0 && input.Unread() == StreamBits(data)
      ensures Output() == [] && zout.Length == capacity
    {
      input := new BitReader(data);
      zout := new Byte[capacity];
      produced := 0;
      zLength := new HuffmanTable();
      zDistance := new HuffmanTable();
    }

    ghost predicate Valid()
      reads this, input, zout
    {
      && input.Valid() && produced <= zout.Length && zout.Length != 8
      && zout != zLength.size && zout != zDistance.size
    }

    ghost function Output(): (s: seq<Byte>)
      reads this, zout
      requires produced <= zout.Length
      ensures |s| == produced
    {
      zout[..produced]
    }

    /** Behind the output the buffer still holds what it held at the start. */
    ghost predicate Behind(buffer: seq<Byte>)
      reads this, zout
    {
      produced <= zout.Length == |buffer| && zout[produced..] == buffer[produced..]
    }

    ghost predicate CodesReady()
      reads zLength.Repr(), zDistance.Repr()
    {
      zLength.Ready() && zDistance.Ready() && |zDistance.lens| <= 32
    }

    /** The two tables share nothing. */
    ghost predicate Separate() {
      && zLength.Shape() && zDistance.Shape() && zLength != zDistance
      && zLength.fast !in {zDistance.fast, zDistance.firstcode, zDistance.firstsymbol, zDistance.value}
      && zLength.firstcode !in {zDistance.fast, zDistance.firstcode, zDistance.firstsymbol, zDistance.value}
      && zLength.firstsymbol !in {zDistance.fast, zDistance.firstcode, zDistance.firstsymbol, zDistance.value}
      && zLength.value !in {zDistance.fast, zDistance.firstcode, zDistance.firstsymbol, zDistance.value}
      && zLength.maxcode != zDistance.maxcode && zLength.size != zDistance.size
    }

    method PutByte(b: Byte, ghost buffer: seq<Byte>)
      requires Valid() && Behind(buffer) && produced < zout.Length
      modifies this`produced, zout
      ensures Valid() && Behind(buffer) && Output() == old(Output()) + [b]
    {
      zout[produced] := b;
      produced := produced + 1;
    }

    /** Distance 1: the last byte is repeated. */
    method RepeatByte(length: nat, ghost buffer: seq<Byte>)
      requires Valid() && Behind(buffer) && 1 <= produced && produced + length <= zout.Length
      modifies this`produced, zout
      ensures Valid() && Behind(buffer) && Output() == CopyMatch(old(Output()), length, 1)
    {
      var v := zout[produced - 1];
      var left: nat := length;
      while left > 0
        invariant Valid() && Behind(buffer) && 1 <= produced && produced + left <= zout.Length && zout[produced - 1] == v
        invariant CopyMatch(Output(), left, 1) == CopyMatch(old(Output()), length, 1)
      {
        PutByte(v, buffer);
        left := left - 1;
      }
    }

    /** Any distance, byte by byte; distance 0 passes over what the buffer holds. */
    method CopyBytes(length: nat, distance: nat, ghost buffer: seq<Byte>)
      requires Valid() && Behind(buffer) && distance <= produced && produced + length <= zout.Length
      modifies this`produced, zout
      ensures Valid() && Behind(buffer) && Output() == CopyFrom(old(Output()), length, distance, buffer)
    {
      var p := produced - distance;
      var left: nat := length;
      while left > 0
        invariant Valid() && Behind(buffer) && distance <= produced && p == produced - distance
        invariant produced + left <= zout.Length
        invariant CopyFrom(Output(), left, distance, buffer) == CopyFrom(old(Output()), length, distance, buffer)
      {
        assert distance == 0 ==> zout[p] == buffer[produced];
        PutByte(zout[p], buffer);
        p := p + 1;
        left := left - 1;
      }
    }

    /** The copy of a match; distance 1 has a branch of its own. */
    method CopyMatchBytes(length: nat, distance: nat, ghost buffer: seq<Byte>)
      requires Valid() && Behind(buffer) && distance <= produced && produced + length <= zout.Length
      modifies this`produced, zout
      ensures Valid() && Behind(buffer) && Output() == CopyFrom(old(Output()), length, distance, buffer)
    {
      if distance == 1 {
        RepeatByte(length, buffer);
      } else {
        CopyBytes(length, distance, buffer);
      }
    }

    /** A base value and its extra bits. */
    method ReceiveExtra(base: nat, extra: nat) returns (v: nat)
      requires input.Valid() && extra <= 16 && ReadExtended(base, extra, input.Position()).Extended?
      modifies input
      ensures input.Valid() && Extended(v, input.Position()) == ReadExtended(base, extra, old(input.Position()))
    {
      v := base;
      if extra != 0 {
        var k := input.Receive(extra);
        v := v + k;
      }
    }

    /** The length and distance behind the `z`-th length symbol. */
    method ReceiveMatch(z: nat) returns (ok: bool, length: nat, distance: nat)
      requires input.Valid() && CodesReady() && z < 31 && !ReadMatch(zDistance.lens, z, input.Position()).Outside?
      modifies input
      ensures input.Valid()
      ensures ReadMatch(zDistance.lens, z, old(input.Position()))
              == if ok then Read(Match(length, distance), input.Position()) else NoCode
    {
      TableSizes();
      length := ReceiveExtra(LENGTH_BASE[z], LENGTH_EXTRA[z]);
      var d := HuffmanDecode(input, zDistance);
      if d < 0 {
        return false, 0, 0;
      }
      distance := ReceiveExtra(DIST_BASE[d], DIST_EXTRA[d]);
      ok := true;
    }

    /** What follows the `z`-th length symbol, and the copy. */
    method ParseMatch(z: nat, ghost buffer: seq<Byte>) returns (ok: bool)
      requires Valid() && Behind(buffer) && CodesReady() && z < 31
      requires !ReadMatch(zDistance.lens, z, input.Position()).Outside?
      modifies this`produced, input, zout
      ensures Valid() && Behind(buffer)
      ensures match ReadMatch(zDistance.lens, z, old(input.Position()))
              case Outside => false
              case NoCode => !ok
              case Read(token, rest) =>
                if token.distance > |old(Output())| || |old(Output())| + token.length > |buffer| then !ok
                else ok && input.Position() == rest && Output() == CopyFrom(old(Output()), token.length, token.distance, buffer)
    {
      var length, distance;
      ok, length, distance := ReceiveMatch(z);
      if !ok || produced < distance || produced + length > zout.Length {
        return false;
      }
      CopyMatchBytes(length, distance, buffer);
    }

    /** A literal. */
    method ApplyLiteral(z: nat, ghost start: Input, ghost buffer: seq<Byte>) returns (ok: bool)
      requires Valid() && Behind(buffer) && CodesReady() && !Starved(start, CODE_BITS)
      requires NextSymbol(zLength.lens, start.bits) == Some(z) && z < 256
      requires input.Position() == Dropped(start, CODE_BITS, zLength.lens[z])
      requires !Block(zLength.lens, zDistance.lens, start, Output(), buffer).Undefined?
      modifies this`produced, zout
      ensures Valid() && Behind(buffer)
      ensures Block(zLength.lens, zDistance.lens, start, old(Output()), buffer)
              == if ok then Block(zLength.lens, zDistance.lens, input.Position(), Output(), buffer) else Refused
    {
      BlockAfterSymbol(zLength.lens, zDistance.lens, start, z, Output(), buffer);
      if produced >= zout.Length {
        return false;
      }
      PutByte(z, buffer);
      ok := true;
    }

    /** A match. */
    method ApplyMatch(z: nat, ghost start: Input, ghost buffer: seq<Byte>) returns (ok: bool)
      requires Valid() && Behind(buffer) && CodesReady() && !Starved(start, CODE_BITS)
      requires NextSymbol(zLength.lens, start.bits) == Some(z) && 256 < z < 288
      requires input.Position() == Dropped(start, CODE_BITS, zLength.lens[z])
      requires !Block(zLength.lens, zDistance.lens, start, Output(), buffer).Undefined?
      modifies this`produced, input, zout
      ensures Valid() && Behind(buffer)
      ensures ok ==> |input.Unread()| <= |old(input.Unread())|
      ensures Block(zLength.lens, zDistance.lens, start, old(Output()), buffer)
              == if ok then Block(zLength.lens, zDistance.lens, input.Position(), Output(), buffer) else Refused
    {
      BlockAfterSymbol(zLength.lens, zDistance.lens, start, z, Output(), buffer);
      ok := ParseMatch(z - 257, buffer);
    }

    /** What the symbol at the start of a token asks for. */
    method ApplySymbol(z: nat, ghost start: Input, ghost buffer: seq<Byte>) returns (step: Step)
      requires Valid() && Behind(buffer) && CodesReady() && !Starved(start, CODE_BITS)
      requires NextSymbol(zLength.lens, start.bits) == Some(z) && z < 288
      requires input.Position() == Dropped(start, CODE_BITS, zLength.lens[z])
      requires !Block(zLength.lens, zDistance.lens, start, Output(), buffer).Undefined?
      modifies this`produced, input, zout
      ensures Valid() && Behind(buffer)
      ensures step == More ==> |input.Unread()| <= |old(input.Unread())|
      ensures Block(zLength.lens, zDistance.lens, start, old(Output()), buffer)
              == match step
                 case More => Block(zLength.lens, zDistance.lens, input.Position(), Output(), buffer)
                 case Ended => Done(Output(), input.Position())
                 case Failed => Refused
    {
      if z == 256 {
        BlockAfterSymbol(zLength.lens, zDistance.lens, start, z, Output(), buffer);
        return Ended;
      }
      var ok;
      if z < 256 {
        ok := ApplyLiteral(z, start, buffer);
      } else {
        ok := ApplyMatch(z, start, buffer);
      }
      step := if ok then More else Failed;
    }

    /** One token: whether the block goes on, has ended, or is refused. */
    method ParseToken(ghost buffer: seq<Byte>) returns (step: Step)
      requires Valid() && Behind(buffer) && CodesReady()
      requires !Block(zLength.lens, zDistance.lens, input.Position(), Output(), buffer).Undefined?
      modifies this`produced, input, zout
      ensures Valid() && Behind(buffer)
      ensures step == More ==> |input.Unread()| < |old(input.Unread())|
      ensures Block(zLength.lens, zDistance.lens, old(input.Position()), old(Output()), buffer)
              == match step
                 case More => Block(zLength.lens, zDistance.lens, input.Position(), Output(), buffer)
                 case Ended => Done(Output(), input.Position())
                 case Failed => Refused
    {
      ghost var start := input.Position();
      var z := HuffmanDecode(input, zLength);
      if z < 0 {
        return Failed;
      }
      step := ApplySymbol(z, start, buffer);
    }

    /** `_ssfn__parse_huffman_block`. */
    method ParseHuffmanBlock(ghost buffer: seq<Byte>) returns (ok: bool)
      requires Valid() && Behind(buffer) && CodesReady()
      requires !Block(zLength.lens, zDistance.lens, input.Position(), Output(), buffer).Undefined?
      modifies this`produced, input, zout
      ensures Valid() && Behind(buffer)
      ensures Block(zLength.lens, zDistance.lens, old(input.Position()), old(Output()), buffer)
              == if ok then Done(Output(), input.Position()) else Refused
    {
      ghost var lens, dists := zLength.lens, zDistance.lens;
      ghost var outcome := Block(lens, dists, input.Position(), Output(), buffer);
      while true
        invariant Valid() && Behind(buffer) && CodesReady()
        invariant zLength.lens == lens && zDistance.lens == dists
        invariant Block(lens, dists, input.Position(), Output(), buffer) == outcome
        decreases |input.Unread()|
      {
        var step := ParseToken(buffer);
        if step != More {
          return step == Ended;
        }
      }
    }

    method DrainByte() returns (b: Byte)
      requires input.Valid() && input.numBits >= 8
      modifies input`codeBuffer, input`numBits
      ensures input.Valid() && input.numBits == old(input.numBits) - 8
      ensures BytesOf(old(input.Unread())) == [b] + BytesOf(input.Unread())
    {
      BufferedByte(input.codeBuffer, input.numBits, input.data[input.zbuffer..]);
      b := And(input.codeBuffer, 255);
      input.Drop(8);
    }

    /** Whole bytes of the buffer are moved to the front of a header. */
    method DrainBuffer(header: array<Byte>) returns (k: nat)
      requires input.Valid() && input.numBits % 8 == 0 && header.Length == 4
      modifies input, header
      ensures input.Valid() && input.numBits == 0 && k <= 4
      ensures header[..k] + input.data[input.zbuffer..] == BytesOf(old(input.Unread()))
    {
      ghost var bytes := BytesOf(input.Unread());
      ghost var left := input.numBits / 8;
      k := 0;
      while input.numBits > 0
        invariant input.Valid() && input.numBits == 8 * left && k + left <= 4
        invariant header[..k] + BytesOf(input.Unread()) == bytes
        decreases input.numBits
      {
        ghost var front := header[..k];
        var b := DrainByte();
        Regroup(front, [b], BytesOf(input.Unread()));
        header[k] := b;
        k, left := k + 1, left - 1;
        assert header[..k] == front + [b];
      }
      BytesOfStreamBits(input.data[input.zbuffer..]);
      assert input.Unread() == StreamBits(input.data[input.zbuffer..]);
    }

    /** The four bytes behind an aligned position, first from the buffer and then from the bytes behind it. */
    method ReceiveHeader() returns (header: array<Byte>)
      requires input.Valid() && input.numBits % 8 == 0 && |BytesOf(input.Unread())| >= 4
      modifies input
      ensures input.Valid() && input.numBits == 0 && fresh(header) && header.Length == 4
      ensures header[..] + input.data[input.zbuffer..] == BytesOf(old(input.Unread()))
    {
      ghost var bytes := BytesOf(input.Unread());
      header := new Byte[4];
      var k := DrainBuffer(header);
      while k < 4
        invariant input.Valid() && input.numBits == 0 && k <= 4
        invariant header[..k] + input.data[input.zbuffer..] == bytes
      {
        header[k] := input.Get8();
        k := k + 1;
      }
      assert header[..4] == header[..];
    }

    /** The rest of the current byte is skipped. */
    method Align()
      requires input.Valid()
      modifies input
      ensures input.Valid() && input.numBits % 8 == 0
      ensures input.Unread() == old(input.Unread())[|old(input.Unread())| % 8..]
    {
      LowThree(input.numBits);
      WholeBytes(input.numBits, |input.data| - input.zbuffer);
      if And(input.numBits, 7) != 0 {
        var _ := input.Receive(And(input.numBits, 7));
      }
    }

    /** LEN bytes go from the input to the output. */
    method CopyStored(len: nat, ghost buffer: seq<Byte>)
      requires Valid() && Behind(buffer) && input.numBits == 0 && produced + len <= zout.Length && input.zbuffer + len <= |input.data|
      modifies this`produced, zout, input`zbuffer
      ensures Valid() && Behind(buffer) && Output() == old(Output()) + input.data[old(input.zbuffer)..][..len]
      ensures input.Position() == Input(StreamBits(input.data[old(input.zbuffer)..][len..]), 0)
    {
      ghost var from := input.data[input.zbuffer..];
      for k := 0 to len
        invariant produced == old(produced) && input.zbuffer == old(input.zbuffer)
        invariant zout[..produced + k] == old(Output()) + from[..k] && zout[produced + k..] == buffer[produced + k..]
      {
        zout[produced + k] := input.data[input.zbuffer + k];
      }
      input.zbuffer := input.zbuffer + len;
      produced := produced + len;
      assert input.data[input.zbuffer..] == from[len..];
    }

    /** `_ssfn__parse_uncompressed_block`. */
    method ParseUncompressedBlock(ghost buffer: seq<Byte>) returns (ok: bool)
      requires Valid() && Behind(buffer) && !Stored(input.Position(), Output(), buffer).Undefined?
      modifies this`produced, zout, input
      ensures Valid() && Behind(buffer)
      ensures Stored(old(input.Position()), old(Output()), buffer)
              == if ok then Done(Output(), input.Position()) else Refused
    {
      Align();
      var header := ReceiveHeader();
      ghost var bytes := header[..] + input.data[input.zbuffer..];
      assert bytes[0] == header[0] && bytes[1] == header[1] && bytes[2] == header[2] && bytes[3] == header[3];
      var len: nat := header[1] as nat * 256 + header[0];
      var nlen: nat := header[3] as nat * 256 + header[2];
      XorOnes(len);
      if nlen != Xor(len, 0xffff) {
        return false;
      }
      if produced + len > zout.Length {
        return false;
      }
      assert bytes[4..] == input.data[input.zbuffer..];
      assert bytes[4..4 + len] == bytes[4..][..len] && bytes[4 + len..] == bytes[4..][len..];
      CopyStored(len, buffer);
      ok := true;
    }

    /** The sizes of the code length code. */
    method ReceiveSizes(hclen: nat) returns (sizes: array<Length>)
      requires input.Valid() && hclen <= 19 && ReadSizes(input.Position(), NO_SIZES, 0, hclen).SizesRead?
      modifies input
      ensures input.Valid() && fresh(sizes) && sizes.Length == 19
      ensures ReadSizes(old(input.Position()), NO_SIZES, 0, hclen) == SizesRead(sizes[..], input.Position())
    {
      sizes := new Length[19](_ => 0);
      assert sizes[..] == NO_SIZES;
      for i := 0 to hclen
        invariant input.Valid()
        invariant ReadSizes(input.Position(), sizes[..], i, hclen) == ReadSizes(old(input.Position()), NO_SIZES, 0, hclen)
      {
        Dezigzag();
        SmallPowers();
        ghost var was := sizes[..];
        var s := input.Receive(3);
        sizes[DEZIGZAG[i]] := s;
        assert sizes[..] == was[DEZIGZAG[i] := s];
      }
    }

    static method Fill(lencodes: array<Length>, n: nat, fill: Length, count: nat)
      requires n + count <= lencodes.Length
      modifies lencodes
      ensures lencodes[..n + count] == old(lencodes[..n]) + seq(count, _ => fill)
    {
      for k := 0 to count
        invariant lencodes[..n] == old(lencodes[..n])
        invariant forall i :: n <= i < n + k ==> lencodes[i] == fill
      {
        lencodes[n + k] := fill;
      }
    }

    /** A run, unless it goes past the end. */
    static method AddFill(lencodes: array<Length>, n: nat, fill: Length, count: nat, total: nat) returns (ok: bool, next: nat)
      requires n <= total <= lencodes.Length
      modifies lencodes
      ensures ok ==> next <= total
      ensures forall rest :: AddRun(old(lencodes[..n]), fill, Extended(count, rest), total)
                             == if ok then LengthsRead(lencodes[..next], rest) else BadLengths
    {
      if total - n < count {
        return false, 0;
      }
      Fill(lencodes, n, fill, count);
      return true, n + count;
    }

    /** A length, or a run, behind its symbol. */
    method ReceiveCount(c: nat, lencodes: array<Length>, n: nat, total: nat) returns (ok: bool, next: nat)
      requires input.Valid() && c < 19 && n < total <= lencodes.Length
      requires !AddSymbol(lencodes[..n], c, input.Position(), total).LengthsTooShort?
      modifies input, lencodes
      ensures input.Valid() && (ok ==> next <= total)
      ensures AddSymbol(old(lencodes[..n]), c, old(input.Position()), total)
              == if ok then LengthsRead(lencodes[..next], input.Position()) else BadLengths
    {
      if c < 16 {
        lencodes[n] := c;
        assert lencodes[..n + 1] == old(lencodes[..n]) + [c];
        return true, n + 1;
      }
      var fill: Length := 0;
      var count;
      if c == 16 {
        count := ReceiveExtra(3, 2);
        if n == 0 {
          return false, 0;
        }
        fill := lencodes[n - 1];
      } else if c == 17 {
        count := ReceiveExtra(3, 3);
      } else {
        count := ReceiveExtra(11, 7);
      }
      ok, next := AddFill(lencodes, n, fill, count, total);
    }

    /** One symbol of the code length code. */
    method ReceiveRun(z: HuffmanTable, lencodes: array<Length>, n: nat, total: nat) returns (ok: bool, next: nat)
      requires input.Valid() && z.Ready() && |z.lens| == 19 && n < total <= lencodes.Length
      requires !ReadRun(z.lens, input.Position(), lencodes[..n], total).LengthsTooShort?
      modifies input, lencodes
      ensures input.Valid() && (ok ==> next <= total)
      ensures ReadRun(z.lens, old(input.Position()), old(lencodes[..n]), total)
              == if ok then LengthsRead(lencodes[..next], input.Position()) else BadLengths
    {
      var c := HuffmanDecode(input, z);
      if c < 0 || c >= 19 {
        return false, 0;
      }
      ok, next := ReceiveCount(c, lencodes, n, total);
    }

    /** Both codes' lengths. */
    method ReceiveLengths(z: HuffmanTable, lencodes: array<Length>, total: nat) returns (ok: bool)
      requires input.Valid() && z.Ready() && |z.lens| == 19 && total <= lencodes.Length
      requires !ReadLengths(z.lens, input.Position(), [], total).LengthsTooShort?
      modifies input, lencodes
      ensures input.Valid()
      ensures ReadLengths(z.lens, old(input.Position()), [], total)
              == if ok then LengthsRead(lencodes[..total], input.Position()) else BadLengths
    {
      ghost var codes := z.lens;
      ghost var outcome := ReadLengths(codes, input.Position(), [], total);
      var n: nat := 0;
      assert lencodes[..0] == [];
      while n < total
        invariant input.Valid() && z.Ready() && z.lens == codes
        invariant n <= total
        invariant ReadLengths(codes, input.Position(), lencodes[..n], total) == outcome
        decreases |input.Unread()|
      {
        ok, n := ReceiveRun(z, lencodes, n, total);
        if !ok {
          return;
        }
      }
      ok := true;
    }

    /** The three counts at the start of a dynamic block. */
    method ReceiveCounts() returns (hlit: nat, hdist: nat, hclen: nat)
      requires input.Valid() && ReadCounts(input.Position()).CountsRead?
      modifies input
      ensures input.Valid() && ReadCounts(old(input.Position())) == CountsRead(hlit, hdist, hclen, input.Position())
    {
      hlit := ReceiveExtra(257, 5);
      hdist := ReceiveExtra(1, 5);
      hclen := ReceiveExtra(4, 4);
    }

    /** The table of the code length code. */
    method ReceiveCodeLengthCode(hclen: nat) returns (ok: bool, z: HuffmanTable, ghost given: Sizes)
      requires input.Valid() && hclen <= 19 && ReadSizes(input.Position(), NO_SIZES, 0, hclen).SizesRead?
      modifies input
      ensures input.Valid() && fresh(z.Repr())
      ensures ReadSizes(old(input.Position()), NO_SIZES, 0, hclen) == SizesRead(given, input.Position())
      ensures ok == Accepted(given) && (ok ==> z.Ready() && z.lens == given)
    {
      var sizes := ReceiveSizes(hclen);
      given := sizes[..];
      z := new HuffmanTable();
      ok := z.Build(sizes[..]);
    }

    /** The code lengths of both codes, behind the counts of a dynamic block. */
    method ReceiveCodes(hlit: nat, hdist: nat, hclen: nat) returns (ok: bool, lencodes: array<Length>)
      requires input.Valid() && hlit <= 288 && hdist <= 32 && hclen <= 19
      requires !ReadCodes(input.Position(), hlit, hdist, hclen).HeaderTooShort?
      modifies input
      ensures input.Valid() && fresh(lencodes) && lencodes.Length == 455
      ensures ReadCodes(old(input.Position()), hlit, hdist, hclen)
              == if ok then SplitLengths(LengthsRead(lencodes[..hlit + hdist], input.Position()), hlit, hdist) else BadHeader
    {
      lencodes := new Length[455];
      ghost var given;
      var zCodeLength;
      ok, zCodeLength, given := ReceiveCodeLengthCode(hclen);
      ghost var read := ReadLengths(given, input.Position(), [], hlit + hdist);
      assert ok ==> !read.LengthsTooShort?;
      if ok {
        ok := ReceiveLengths(zCodeLength, lencodes, hlit + hdist);
      }
    }

    /** `_ssfn__compute_huffman_codes`. */
    method ComputeHuffmanCodes() returns (ok: bool)
      requires Valid() && Separate() && !ReadHeader(input.Position()).HeaderTooShort?
      modifies input, zLength.Repr(), zDistance.Repr()
      ensures Valid() && Output() == old(Output()) && zout[..] == old(zout[..])
      ensures ok ==> CodesReady()
      ensures ReadHeader(old(input.Position()))
              == if ok then HeaderRead(zLength.lens, zDistance.lens, input.Position()) else BadHeader
    {
      var hlit, hdist, hclen := ReceiveCounts();
      var lencodes;
      ok, lencodes := ReceiveCodes(hlit, hdist, hclen);
      if !ok {
        return;
      }
      var lens, dists := lencodes[..hlit], lencodes[hlit..hlit + hdist];
      assert lencodes[..hlit + hdist][..hlit] == lens && lencodes[..hlit + hdist][hlit..] == dists;
      ok := BuildCodes(lens, dists);
    }

    /** The table of the distance code; that of the other code stays. */
    method BuildDistanceCode(dists: DistanceLengths) returns (ok: bool)
      requires Separate() && zLength.Ready()
      modifies zDistance.Repr()
      ensures zLength.Ready() && zLength.lens == old(zLength.lens)
      ensures ok == Accepted(dists)
      ensures ok ==> zDistance.Ready() && zDistance.lens == dists
    {
      ok := zDistance.Build(dists);
    }

    /** Tables for both codes. */
    method BuildCodes(lens: Lengths, dists: DistanceLengths) returns (ok: bool)
      requires Valid() && Separate()
      modifies zLength.Repr(), zDistance.Repr()
      ensures Valid() && Output() == old(Output()) && zout[..] == old(zout[..]) && input.Position() == old(input.Position())
      ensures ok == (Accepted(lens) && Accepted(dists))
      ensures ok ==> CodesReady() && zLength.lens == lens && zDistance.lens == dists
    {
      ok := zLength.Build(lens);
      if ok {
        ok := BuildDistanceCode(dists);
      }
    }

    /** A block of one of the four types. */
    method ParseBlock(kind: nat, ghost buffer: seq<Byte>) returns (ok: bool)
      requires Valid() && Behind(buffer) && Separate() && !BlockOfType(kind, input.Position(), Output(), buffer).Undefined?
      modifies this`produced, zout, input, zLength.Repr(), zDistance.Repr()
      ensures Valid() && (ok ==> Behind(buffer))
      ensures BlockOfType(kind, old(input.Position()), old(Output()), buffer)
              == if ok then Done(Output(), input.Position()) else Refused
    {
      assert Shown(0);
      if kind == 0 {
        ok := ParseUncompressedBlock(buffer);
      } else if kind == 1 {
        ok := BuildCodes(FIXED_LENGTHS, FIXED_DISTANCES);
        FixedAccepted();
        if ok {
          ok := ParseHuffmanBlock(buffer);
        }
      } else if kind == 2 {
        ok := ComputeHuffmanCodes();
        if ok {
          ok := ParseHuffmanBlock(buffer);
        }
      } else {
        ok := false;
      }
    }

    /** `_ssfn__parse_zlib`. */
    method ParseZlib() returns (ok: bool)
      requires Valid() && Separate()
      requires !Stream(Input(StreamBits(input.data[input.zbuffer..]), 0), Output(), Held()).Undefined?
      modifies this`produced, zout, input, zLength.Repr(), zDistance.Repr()
      ensures Valid()
      ensures Stream(Input(StreamBits(input.data[old(input.zbuffer)..]), 0), old(Output()), old(Held()))
              == if ok then Done(Output(), input.Position()) else Refused
    {
      input.numBits, input.codeBuffer := 0, 0;
      ghost var buffer := Held();
      assert input.Position() == Input(StreamBits(input.data[input.zbuffer..]), 0);
      ghost var outcome := Stream(input.Position(), Output(), buffer);
      while true
        invariant Valid() && Behind(buffer) && Stream(input.Position(), Output(), buffer) == outcome
        decreases |input.Unread()|
      {
        var fin := ReceiveExtra(0, 1);
        var kind := ReceiveExtra(0, 2);
        ok := ParseBlock(kind, buffer);
        if !ok || fin != 0 {
          return;
        }
      }
    }

    /** What the output buffer holds, output or not. */
    ghost function Held(): (buffer: seq<Byte>)
      reads zout
    {
      zout[..]
    }
  }

  /** The whole decoder on any encoding: the bytes of a stream of blocks are turned into what the blocks stand for. */
  method InflateEncoded(data: seq<Byte>, capacity: nat, ghost ws: seq<Written>, ghost rest: seq<bool>)
      returns (ok: bool, output: seq<Byte>)
    requires WellWritten(ws) && |ws[|ws| - 1].output| <= capacity && capacity != 8
    requires StreamBits(data) == StreamFrom(ws, 0) + rest && |rest| >= REFILL_BITS
    ensures ok && output == ws[|ws| - 1].output
  {
    var a := new Inflater(data, capacity);
    assert data[0..] == data && a.Output() == [];
    InflateInvertsDeflate(ws, Input(StreamBits(data), 0), a.Held(), rest);
    ok := a.ParseZlib();
    output := a.zout[..a.produced];
  }
}
