/** include/ssfn.h: reversing the low bits of a word by swapping ever larger groups. */
module BitReversal {
  import opened Words

  /** The groups of bits under `high` move down and those under `low` move up. */
  function Swapped(n: nat, high: nat, low: nat, distance: nat): nat {
    Or(Shr(And(n, high), distance), Shl(And(n, low), distance))
  }

  function BitReverse16(n: nat): nat {
    var n := Swapped(n, 0xAAAA, 0x5555, 1);
    var n := Swapped(n, 0xCCCC, 0x3333, 2);
    var n := Swapped(n, 0xF0F0, 0x0F0F, 4);
    Swapped(n, 0xFF00, 0x00FF, 8)
  }

  function BitReverse(v: nat, bits: nat): nat
    requires bits <= 16
  {
    Shr(BitReverse16(v), 16 - bits)
  }

  // ----- one swap -----

  lemma SwappedBit(n: nat, high: nat, low: nat, distance: nat, k: nat)
    ensures Bit(Swapped(n, high, low, distance), k)
            == ((Bit(high, distance + k) && Bit(n, distance + k))
                || (k >= distance && Bit(low, k - distance) && Bit(n, k - distance)))
  {
    OrBit(Shr(And(n, high), distance), Shl(And(n, low), distance), k);
    ShrBit(And(n, high), distance, k);
    AndBit(n, high, distance + k);
    ShlBit(And(n, low), distance, k);
    if k >= distance {
      AndBit(n, low, k - distance);
    }
  }

  /** Groups of `distance` ones and zeros in turn, zeros first for the upper mask. */
  ghost predicate GroupMasks(high: nat, low: nat, distance: nat) {
    && distance > 0
    && forall k :: 0 <= k < 32 ==>
         && Bit(high, k) == (k < 16 && k / distance % 2 == 1)
         && Bit(low, k) == (k < 16 && k / distance % 2 == 0)
  }

  lemma {:induction false} NoBitAbove(v: nat, n: nat, i: nat)
    requires v < Shl(1, n) && i >= n
    ensures !Bit(v, i)
    decreases n
  {
    if n == 0 {
      ZeroBit(i);
    } else {
      NoBitAbove(v / 2, n - 1, i - 1);
    }
  }

  lemma {:induction false} ZeroBit(i: nat)
    ensures !Bit(0, i)
    decreases i
  {
    if i > 0 {
      ZeroBit(i - 1);
    }
  }

  lemma {:induction false} JoinedBit(low: nat, m: nat, high: nat, k: nat)
    requires low < Shl(1, m)
    ensures Bit(low + Shl(high, m), k) == if k < m then Bit(low, k) else Bit(high, k - m)
    decreases m
  {
    if m > 0 && k > 0 {
      JoinedBit(low / 2, m - 1, high, k - 1);
      assert (low + Shl(high, m)) / 2 == low / 2 + Shl(high, m - 1);
    }
  }

  lemma NibblesJoined(a: nat, b: nat, k: nat)
    requires a < 16
    ensures Bit(a + 16 * b, k) == if k < 4 then Bit(a, k) else Bit(b, k - 4)
  {
    Powers();
    ShlScales(b, 4);
    JoinedBit(a, 4, b, k);
  }

  /** The bits of a mask whose four hexadecimal digits are `d`, `c`, `b` and `a`. */
  lemma MaskBit(a: nat, b: nat, c: nat, d: nat, k: nat)
    requires a < 16 && b < 16 && c < 16 && d < 16
    ensures var digit := if k < 4 then a else if k < 8 then b else if k < 12 then c else d;
            Bit(a + 16 * (b + 16 * (c + 16 * d)), k) == (k < 16 && Bit(digit, k % 4))
  {
    NibblesJoined(a, b + 16 * (c + 16 * d), k);
    if k >= 4 {
      NibblesJoined(b, c + 16 * d, k - 4);
    }
    if k >= 8 {
      NibblesJoined(c, d, k - 8);
    }
    if k >= 16 {
      Powers();
      NoBitAbove(d, 4, k - 12);
    }
  }

  lemma Digits(g: nat)
    requires g < 4
    ensures Bit(15, g) && !Bit(0, g)
    ensures Bit(10, g) == (g % 2 == 1) && Bit(5, g) == (g % 2 == 0)
    ensures Bit(12, g) == (g >= 2) && Bit(3, g) == (g < 2)
  {
    ZeroBit(g);
    assert g == 0 || g == 1 || g == 2 || g == 3;
  }

  lemma Masks1()
    ensures GroupMasks(0xAAAA, 0x5555, 1)
  {
    forall k: nat | k < 32
      ensures Bit(0xAAAA, k) == (k < 16 && k / 1 % 2 == 1) && Bit(0x5555, k) == (k < 16 && k / 1 % 2 == 0)
    {
      MaskBit(10, 10, 10, 10, k);
      MaskBit(5, 5, 5, 5, k);
      Digits(k % 4);
    }
  }

  lemma Masks2()
    ensures GroupMasks(0xCCCC, 0x3333, 2)
  {
    forall k: nat | k < 32
      ensures Bit(0xCCCC, k) == (k < 16 && k / 2 % 2 == 1) && Bit(0x3333, k) == (k < 16 && k / 2 % 2 == 0)
    {
      MaskBit(12, 12, 12, 12, k);
      MaskBit(3, 3, 3, 3, k);
      Digits(k % 4);
    }
  }

  lemma Masks4()
    ensures GroupMasks(0xF0F0, 0x0F0F, 4)
  {
    forall k: nat | k < 32
      ensures Bit(0xF0F0, k) == (k < 16 && k / 4 % 2 == 1) && Bit(0x0F0F, k) == (k < 16 && k / 4 % 2 == 0)
    {
      MaskBit(0, 15, 0, 15, k);
      MaskBit(15, 0, 15, 0, k);
      Digits(k % 4);
    }
  }

  lemma Masks8()
    ensures GroupMasks(0xFF00, 0x00FF, 8)
  {
    forall k: nat | k < 32
      ensures Bit(0xFF00, k) == (k < 16 && k / 8 % 2 == 1) && Bit(0x00FF, k) == (k < 16 && k / 8 % 2 == 0)
    {
      MaskBit(0, 0, 15, 15, k);
      MaskBit(15, 15, 0, 0, k);
      Digits(k % 4);
    }
  }

  /** The partner of a position: its group's bit flipped. */
  function Partner(k: nat, distance: nat): (r: nat)
    requires distance > 0
  {
    if k / distance % 2 == 0 then k + distance else k - distance
  }

  lemma PartnerPair(k: nat, distance: nat)
    requires distance in {1, 2, 4, 8} && k < 16
    ensures if k / distance % 2 == 0
            then (k + distance) / distance % 2 == 1 && k + distance < 16 && (k >= distance ==> (k - distance) / distance % 2 == 1)
            else k >= distance && (k - distance) / distance % 2 == 0 && (k + distance) / distance % 2 == 0
  {
    if distance == 1 {
    } else if distance == 2 {
    } else if distance == 4 {
    } else {
    }
  }

  lemma SwappedAt(n: nat, high: nat, low: nat, distance: nat, k: nat)
    requires GroupMasks(high, low, distance) && distance in {1, 2, 4, 8} && k < 16
    ensures Bit(Swapped(n, high, low, distance), k) == Bit(n, Partner(k, distance))
  {
    PartnerPair(k, distance);
    SwappedBit(n, high, low, distance, k);
  }

  // ----- the reversal -----

  lemma {:induction false} Bounds(a: nat, b: nat, n: nat)
    ensures And(a, b) <= b && Shr(a, n) <= a
    decreases a, n
  {
    if a > 0 {
      Bounds(a / 2, b / 2, 0);
    }
    if n > 0 {
      Bounds(a / 2, 0, n - 1);
    }
  }

  lemma {:induction false} OrBound(a: nat, b: nat, n: nat)
    requires a < Shl(1, n) && b < Shl(1, n)
    ensures Or(a, b) < Shl(1, n)
    decreases n
  {
    if n > 0 {
      OrBound(a / 2, b / 2, n - 1);
    }
  }

  /** Flipping each of the four bits of a position counts it from the other end. */
  lemma PartnersReverse(k: nat)
    requires k < 16
    ensures Partner(k, 8) < 16 && Partner(Partner(k, 8), 4) < 16 && Partner(Partner(Partner(k, 8), 4), 2) < 16
    ensures Partner(Partner(Partner(Partner(k, 8), 4), 2), 1) == 15 - k
  {
  }

  lemma ReversedBit(n: nat, k: nat)
    requires k < 16
    ensures Bit(BitReverse16(n), k) == Bit(n, 15 - k)
  {
    Masks1();
    Masks2();
    Masks4();
    Masks8();
    PartnersReverse(k);
    var n1 := Swapped(n, 0xAAAA, 0x5555, 1);
    var n2 := Swapped(n1, 0xCCCC, 0x3333, 2);
    var n4 := Swapped(n2, 0xF0F0, 0x0F0F, 4);
    var k8 := Partner(k, 8);
    var k4 := Partner(k8, 4);
    SwappedAt(n4, 0xFF00, 0x00FF, 8, k);
    SwappedAt(n2, 0xF0F0, 0x0F0F, 4, k8);
    SwappedAt(n1, 0xCCCC, 0x3333, 2, k4);
    SwappedAt(n, 0xAAAA, 0x5555, 1, Partner(k4, 2));
  }

  lemma ReversedBound(n: nat)
    ensures BitReverse16(n) < 0x1_0000
  {
    Powers();
    var n4 := Swapped(Swapped(Swapped(n, 0xAAAA, 0x5555, 1), 0xCCCC, 0x3333, 2), 0xF0F0, 0x0F0F, 4);
    Bounds(n4, 0xFF00, 0);
    Bounds(n4, 0x00FF, 0);
    Bounds(And(n4, 0xFF00), 0, 8);
    ShlMonotone(And(n4, 0x00FF), 0xFF, 8);
    assert Shl(0xFF, 8) == 0xFF00;
    OrBound(Shr(And(n4, 0xFF00), 8), Shl(And(n4, 0x00FF), 8), 16);
  }

  lemma {:induction false} HighValueAt(bits: seq<bool>, k: nat)
    requires k < |bits|
    ensures Bit(HighValue(bits), k) == bits[|bits| - 1 - k]
    decreases |bits|
  {
    var init := bits[..|bits| - 1];
    assert HighValue(bits) / 2 == HighValue(init) && (HighValue(bits) % 2 == 1) == bits[|bits| - 1];
    if k > 0 {
      HighValueAt(init, k - 1);
    }
  }

  /** Reversal of 16 bits reads the low bits of the word most significant first. */
  lemma BitReverse16Reads(n: nat)
    ensures BitReverse16(n) == HighValue(LowBits(n, 16))
  {
    var bits := LowBits(n, 16);
    var reversed, read := BitReverse16(n), HighValue(bits);
    Powers();
    ReversedBound(n);
    HighBitsOfHighValue(bits);
    forall k | 0 <= k < 16 ensures LowBits(reversed, 16)[k] == LowBits(read, 16)[k] {
      LowBitsAt(reversed, 16, k);
      LowBitsAt(read, 16, k);
      ReversedBit(n, k);
      HighValueAt(bits, k);
      LowBitsAt(n, 16, 15 - k);
    }
    assert LowBits(reversed, 16) == LowBits(read, 16);
    ValueOfLowBits(reversed, 16);
    ValueOfLowBits(read, 16);
  }

  lemma {:induction false} HighBitAt(v: nat, n: nat, k: nat)
    requires k < n
    ensures HighBits(v, n)[k] == Bit(v, n - 1 - k)
    decreases n
  {
    if k < n - 1 {
      HighBitAt(v / 2, n - 1, k);
    }
  }

  lemma ReversedShortBit(v: nat, n: nat, k: nat)
    requires n <= 16 && k < n
    ensures Bit(BitReverse(v, n), k) == HighBits(v, n)[k]
  {
    var from := 16 - n + k;
    ShrBit(BitReverse16(v), 16 - n, k);
    ReversedBit(v, from);
    HighBitAt(v, n, k);
    assert 15 - from == n - 1 - k;
  }

  /** Reversal of a short code: reading the result least significant first gives the code's bits
      most significant first. */
  lemma BitReverseReads(v: nat, n: nat)
    requires n <= 16 && v < Shl(1, n)
    ensures BitReverse(v, n) == Value(HighBits(v, n)) < Shl(1, n)
  {
    Powers();
    ReversedBound(v);
    ShrDrops(BitReverse16(v), 16, 16 - n);
    var r, high := BitReverse(v, n), HighBits(v, n);
    forall k | 0 <= k < n ensures LowBits(r, n)[k] == high[k] {
      LowBitsAt(r, n, k);
      ReversedShortBit(v, n, k);
    }
    assert LowBits(r, n) == high;
    ValueOfLowBits(r, n);
  }
}
