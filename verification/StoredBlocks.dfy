/** Stored blocks, as section 3.2.4 of RFC 1951 describes them. */
module StoredBlocks {
  import opened Words
  import opened BitReaders
  import opened DeflateBlocks

  /** Whole bytes; left-over bits are dropped. */
  function BytesOf(bits: seq<bool>): (bytes: seq<Byte>)
    ensures |bytes| == |bits| / 8
    decreases |bits|
  {
    if |bits| < 8 then []
    else
      LowBitsOfValue(bits[..8]);
      Powers();
      [Value(bits[..8])] + BytesOf(bits[8..])
  }

  lemma {:induction false} BytesOfStreamBits(bytes: seq<Byte>)
    ensures BytesOf(StreamBits(bytes)) == bytes
  {
    if bytes != [] {
      Powers();
      var bits := StreamBits(bytes);
      assert bits[..8] == LowBits(bytes[0], 8) && bits[8..] == StreamBits(bytes[1..]);
      ValueOfLowBits(bytes[0], 8);
      BytesOfStreamBits(bytes[1..]);
    }
  }

  function Word(low: Byte, high: Byte): nat { high * 256 + low }

  /** A word is the number whose bits are those of its two bytes in the order of the stream. */
  lemma WordOfStream(low: Byte, high: Byte)
    ensures Value(StreamBits([low, high])) == Word(low, high) < 0x1_0000
  {
    Powers();
    EightUp(high);
    LowBitsJoin(low, 8, high, 8);
    var bytes: seq<Byte> := [low, high];
    assert bytes[1..] == [high] && [high][1..] == [];
    assert StreamBits(bytes) == LowBits(low, 8) + LowBits(high, 8);
    ValueOfLowBits(Word(low, high), 16);
  }

  lemma EightUp(v: nat)
    ensures Shl(v, 8) == v * 256
  {
    assert Shl(v, 1) == 2 * Shl(v, 0) == 2 * v;
    assert Shl(v, 2) == 2 * Shl(v, 1) && Shl(v, 3) == 2 * Shl(v, 2) && Shl(v, 4) == 2 * Shl(v, 3);
    assert Shl(v, 5) == 2 * Shl(v, 4) && Shl(v, 6) == 2 * Shl(v, 5) && Shl(v, 7) == 2 * Shl(v, 6);
  }

  /** What is left of the current byte is skipped; then LEN, its complement, and LEN bytes. Nothing is left in the
      bit buffer. */
  function Stored(input: Input, output: seq<Byte>, buffer: seq<Byte>): (r: Outcome)
    ensures r.Done? ==> |r.rest.bits| < |input.bits|
  {
    StoredBytes(BytesOf(input.bits[|input.bits| % 8..]), output, |buffer|)
  }

  function StoredBytes(bytes: seq<Byte>, output: seq<Byte>, capacity: nat): (r: Outcome)
    ensures r.Done? ==> |r.rest.bits| + 32 <= 8 * |bytes|
  {
    if |bytes| < 4 then Undefined
    else
      var len, nlen := Word(bytes[0], bytes[1]), Word(bytes[2], bytes[3]);
      if nlen != 0xffff - len || |output| + len > capacity then Refused
      else if |bytes| < 4 + len then Undefined
      else Done(output + bytes[4..4 + len], Input(StreamBits(bytes[4 + len..]), 0))
  }

  /** LEN and its complement, least significant byte first. */
  function StoredHeader(len: nat): (r: seq<Byte>)
    requires len <= 0xffff
    ensures |r| == 4 && Word(r[0], r[1]) == len && Word(r[2], r[3]) == 0xffff - len
  {
    [len % 256, len / 256, 255 - len % 256, 255 - len / 256]
  }

  /** A stored block is its bytes, behind fewer than eight bits of any value. */
  ghost function EncodeStored(padding: seq<bool>, bytes: seq<Byte>): seq<bool>
    requires |bytes| <= 0xffff
  {
    padding + StreamBits(StoredHeader(|bytes|) + bytes)
  }

  lemma StoredBytesOfEncoding(header: seq<Byte>, bytes: seq<Byte>, tail: seq<Byte>, output: seq<Byte>, capacity: nat)
    requires |bytes| <= 0xffff && |output| + |bytes| <= capacity && header == StoredHeader(|bytes|)
    ensures StoredBytes(header + bytes + tail, output, capacity) == Done(output + bytes, Input(StreamBits(tail), 0))
  {
    var all, len := header + bytes + tail, |bytes|;
    assert all[0] == header[0] && all[1] == header[1] && all[2] == header[2] && all[3] == header[3];
    assert all[4..4 + len] == bytes && all[4 + len..] == tail;
  }

  lemma AlignedBits(padding: seq<bool>, bytes: seq<Byte>)
    requires |padding| < 8
    ensures var bits := padding + StreamBits(bytes); bits[|bits| % 8..] == StreamBits(bytes)
  {
    var bits := padding + StreamBits(bytes);
    assert |bits| % 8 == |padding|;
  }

  /** A stored block is read back. */
  lemma StoredInvertsEncoding(padding: seq<bool>, bytes: seq<Byte>, input: Input, tail: seq<Byte>,
                              output: seq<Byte>, buffer: seq<Byte>)
    requires |padding| < 8 && |bytes| <= 0xffff && |output| + |bytes| <= |buffer|
    requires input.bits == EncodeStored(padding, bytes) + StreamBits(tail)
    ensures Stored(input, output, buffer) == Done(output + bytes, Input(StreamBits(tail), 0))
  {
    var front := StoredHeader(|bytes|) + bytes;
    assert input.bits == padding + StreamBits(front + tail) by {
      StreamBitsAppend(front, tail);
      Regroup(padding, StreamBits(front), StreamBits(tail));
    }
    AlignedBits(padding, front + tail);
    BytesOfStreamBits(front + tail);
    StoredBytesOfEncoding(StoredHeader(|bytes|), bytes, tail, output, |buffer|);
  }

  lemma {:induction false} StreamBitsOfBytes(bits: seq<bool>)
    requires |bits| % 8 == 0
    ensures StreamBits(BytesOf(bits)) == bits
    decreases |bits|
  {
    if bits != [] {
      StreamBitsOfBytes(bits[8..]);
      LowBitsOfValue(bits[..8]);
      assert bits == bits[..8] + bits[8..];
    }
  }
}
