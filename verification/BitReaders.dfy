/** include/ssfn.h: the bit buffer of the deflate decoder over a stream of bytes. */
module BitReaders {
  import opened Words

  type Byte = b: nat | b < 256

  /** The bits of bytes, each least significant bit first. */
  function StreamBits(bytes: seq<Byte>): (bits: seq<bool>)
    ensures |bits| == 8 * |bytes|
  {
    if bytes == [] then [] else LowBits(bytes[0], 8) + StreamBits(bytes[1..])
  }

  lemma Regroup<T>(a: seq<T>, b: seq<T>, c: seq<T>)
    ensures a + b + c == a + (b + c)
  {
  }

  lemma {:induction false} StreamBitsAppend(a: seq<Byte>, b: seq<Byte>)
    ensures StreamBits(a + b) == StreamBits(a) + StreamBits(b)
  {
    if a == [] {
      assert a + b == b;
    } else {
      assert (a + b)[0] == a[0] && (a + b)[1..] == a[1..] + b;
      StreamBitsAppend(a[1..], b);
      Regroup(LowBits(a[0], 8), StreamBits(a[1..]), StreamBits(b));
    }
  }

  /** The bits that a buffer of `n` bits and the bytes behind it stand for. */
  function Buffered(code: nat, n: nat, bytes: seq<Byte>): (bits: seq<bool>)
    ensures |bits| == n + 8 * |bytes|
  {
    LowBits(code, n) + StreamBits(bytes)
  }

  /** Moving a byte into the buffer changes nothing. */
  lemma ByteMoved(code: nat, n: nat, bytes: seq<Byte>)
    requires code < Shl(1, n) && bytes != []
    ensures Or(code, Shl(bytes[0], n)) < Shl(1, n + 8)
    ensures Buffered(Or(code, Shl(bytes[0], n)), n + 8, bytes[1..]) == Buffered(code, n, bytes)
  {
    Powers();
    OrShifted(code, bytes[0], n);
    LowBitsJoin(code, n, bytes[0], 8);
    Regroup(LowBits(code, n), LowBits(bytes[0], 8), StreamBits(bytes[1..]));
  }

  /** Shifting the buffer consumes its low bits. */
  lemma BitsDropped(code: nat, n: nat, bytes: seq<Byte>, k: nat)
    requires code < Shl(1, n) && k <= n
    ensures Shr(code, k) < Shl(1, n - k)
    ensures Buffered(Shr(code, k), n - k, bytes) == Buffered(code, n, bytes)[k..]
  {
    ShrDrops(code, n, k);
    assert (LowBits(code, n) + StreamBits(bytes))[k..] == LowBits(code, n)[k..] + StreamBits(bytes);
  }

  /** A mask of the buffer reads its low bits. */
  lemma BitsMasked(code: nat, n: nat, bytes: seq<Byte>, k: nat)
    requires k <= n
    ensures LowBits(code, k) == Buffered(code, n, bytes)[..k]
    ensures Shl(1, k) >= 1 && And(code, Shl(1, k) - 1) == Value(LowBits(code, k)) < Shl(1, k)
  {
    MaskValue(code, k);
    LowBitsPrefix(code, n, k);
    assert (LowBits(code, n) + StreamBits(bytes))[..k] == LowBits(code, n)[..k];
  }

  // ----- what is left to read -----

  /** The bits that have not been consumed, and how many of them are in the buffer. */
  datatype Input = Input(bits: seq<bool>, buffered: nat)

  /** A refill goes on until more than 24 bits are in the buffer. */
  const REFILL_BITS := 25

  /** The number of bits in the buffer after a refill. */
  function Refilled(n: nat): (r: nat)
    requires n < REFILL_BITS
    ensures REFILL_BITS <= r < REFILL_BITS + 8
    decreases REFILL_BITS - n
  {
    if n + 8 >= REFILL_BITS then n + 8 else Refilled(n + 8)
  }

  /** The buffer has to be refilled before `need` bits can be looked at, but the input ends too early. */
  predicate Starved(input: Input, need: nat) {
    |input.bits| < if input.buffered < need then REFILL_BITS else need
  }

  /** What is left after `need` bits were looked at and `n` of them consumed. */
  function Dropped(input: Input, need: nat, n: nat): (r: Input)
    requires n <= need <= 16 && !Starved(input, need)
    ensures r.bits == input.bits[n..]
  {
    Input(input.bits[n..], (if input.buffered < need then Refilled(input.buffered) else input.buffered) - n)
  }

  class BitReader {
    const data: seq<Byte>
    var zbuffer: nat
    var numBits: nat
    var codeBuffer: nat

    ghost predicate Valid()
      reads this
    {
      zbuffer <= |data| && numBits <= 32 && codeBuffer < Shl(1, numBits)
    }

    /** The input that has not been consumed. */
    ghost function Unread(): (bits: seq<bool>)
      reads this
      requires Valid()
      ensures |bits| == numBits + 8 * (|data| - zbuffer)
    {
      Buffered(codeBuffer, numBits, data[zbuffer..])
    }

    ghost function Position(): (input: Input)
      reads this
      requires Valid()
      ensures input == Input(Unread(), numBits)
    {
      Input(Unread(), numBits)
    }

    constructor (data: seq<Byte>)
      ensures Valid() && this.data == data && zbuffer == 0 && Unread() == StreamBits(data)
    {
      this.data := data;
      zbuffer, numBits, codeBuffer := 0, 0, 0;
      new;
      assert data[zbuffer..] == data;
    }

    method Get8() returns (b: Byte)
      requires zbuffer < |data|
      modifies this`zbuffer
      ensures b == data[old(zbuffer)] && zbuffer == old(zbuffer) + 1
    {
      b := data[zbuffer];
      zbuffer := zbuffer + 1;
    }

    /** The next byte goes into the bit buffer. */
    method FillByte()
      requires Valid() && numBits < REFILL_BITS && |Unread()| >= REFILL_BITS
      modifies this
      ensures Valid() && numBits == old(numBits) + 8 && Unread() == old(Unread())
    {
      ByteMoved(codeBuffer, numBits, data[zbuffer..]);
      assert data[zbuffer..][1..] == data[zbuffer + 1..];
      var b := Get8();
      codeBuffer := Or(codeBuffer, Shl(b, numBits));
      numBits := numBits + 8;
    }

    /** Bytes move into the buffer until it holds more than 24 bits. */
    method FillBits()
      requires Valid() && numBits < REFILL_BITS && |Unread()| >= REFILL_BITS
      modifies this
      ensures Valid() && numBits == Refilled(old(numBits)) && Unread() == old(Unread())
    {
      while true
        invariant Valid() && numBits < REFILL_BITS && Unread() == old(Unread())
        invariant Refilled(numBits) == Refilled(old(numBits))
        decreases 24 - numBits
      {
        FillByte();
        if numBits > 24 {
          break;
        }
      }
    }

    method Drop(n: nat)
      requires Valid() && n <= numBits
      modifies this`codeBuffer, this`numBits
      ensures Valid() && Unread() == old(Unread())[n..] && numBits == old(numBits) - n
    {
      BitsDropped(codeBuffer, numBits, data[zbuffer..], n);
      codeBuffer := Shr(codeBuffer, n);
      numBits := numBits - n;
    }

    /** The next `n` bits, least significant first. */
    method Receive(n: nat) returns (k: nat)
      requires Valid() && n <= 16 && !Starved(Position(), n)
      modifies this
      ensures Valid() && n <= |old(Unread())| && Position() == Dropped(old(Position()), n, n)
      ensures k == Value(old(Unread())[..n]) < Shl(1, n)
      ensures n <= old(numBits) ==> numBits == old(numBits) - n && zbuffer == old(zbuffer)
    {
      if numBits < n {
        FillBits();
      }
      BitsMasked(codeBuffer, numBits, data[zbuffer..], n);
      k := And(codeBuffer, Shl(1, n) - 1);
      Drop(n);
    }
  }
}
