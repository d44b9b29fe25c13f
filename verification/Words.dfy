/** Machine words as natural numbers, and the sequences of their bits, least significant first. */
module Words {
  // ----- the operators -----

  function Shl(v: nat, n: nat): (r: nat) { if n == 0 then v else 2 * Shl(v, n - 1) }

  function Shr(v: nat, n: nat): (r: nat) { if n == 0 then v else Shr(v / 2, n - 1) }

  function And(a: nat, b: nat): (r: nat)
    decreases a
  {
    if a == 0 then 0 else a % 2 * (b % 2) + 2 * And(a / 2, b / 2)
  }

  function Or(a: nat, b: nat): (r: nat)
    decreases a + b
  {
    if a == 0 && b == 0 then 0 else (if a % 2 + b % 2 > 0 then 1 else 0) + 2 * Or(a / 2, b / 2)
  }

  function Xor(a: nat, b: nat): (r: nat)
    decreases a + b
  {
    if a == 0 && b == 0 then 0 else (a + b) % 2 + 2 * Xor(a / 2, b / 2)
  }

  // ----- bits -----

  predicate Bit(v: nat, i: nat) { if i == 0 then v % 2 == 1 else Bit(v / 2, i - 1) }

  /** The low `n` bits of a word. */
  function LowBits(v: nat, n: nat): (bits: seq<bool>)
    ensures |bits| == n
  {
    if n == 0 then [] else [v % 2 == 1] + LowBits(v / 2, n - 1)
  }

  /** The number whose bits these are, least significant first. */
  function Value(bits: seq<bool>): nat {
    if bits == [] then 0 else (if bits[0] then 1 else 0) + 2 * Value(bits[1..])
  }

  /** The number whose bits these are, most significant first. */
  function HighValue(bits: seq<bool>): nat {
    if bits == [] then 0 else 2 * HighValue(bits[..|bits| - 1]) + if bits[|bits| - 1] then 1 else 0
  }

  /** The `n` bits of a number, most significant first. */
  function HighBits(v: nat, n: nat): (bits: seq<bool>)
    ensures |bits| == n
  {
    if n == 0 then [] else HighBits(v / 2, n - 1) + [v % 2 == 1]
  }

  // ----- bits of the operators' results -----

  lemma {:induction false} AndBit(a: nat, b: nat, i: nat)
    ensures Bit(And(a, b), i) == (Bit(a, i) && Bit(b, i))
    decreases i
  {
    if i > 0 {
      AndBit(a / 2, b / 2, i - 1);
      assert And(a, b) / 2 == And(a / 2, b / 2);
    }
  }

  lemma {:induction false} OrBit(a: nat, b: nat, i: nat)
    ensures Bit(Or(a, b), i) == (Bit(a, i) || Bit(b, i))
    decreases i
  {
    if i > 0 {
      OrBit(a / 2, b / 2, i - 1);
      assert Or(a, b) / 2 == Or(a / 2, b / 2);
    }
  }

  lemma {:induction false} ShrBit(v: nat, n: nat, i: nat)
    ensures Bit(Shr(v, n), i) == Bit(v, n + i)
    decreases n
  {
    if n > 0 {
      ShrBit(v / 2, n - 1, i);
    }
  }

  lemma {:induction false} ShlBit(v: nat, n: nat, i: nat)
    ensures Bit(Shl(v, n), i) == (i >= n && Bit(v, i - n))
    decreases n
  {
    if n > 0 && i > 0 {
      ShlBit(v, n - 1, i - 1);
    }
  }

  lemma {:induction false} LowBitsAt(v: nat, n: nat, i: nat)
    requires i < n
    ensures LowBits(v, n)[i] == Bit(v, i)
    decreases n
  {
    if i > 0 {
      LowBitsAt(v / 2, n - 1, i - 1);
    }
  }

  // ----- values and bits are inverse -----

  lemma {:induction false} ValueOfLowBits(v: nat, n: nat)
    requires v < Shl(1, n)
    ensures Value(LowBits(v, n)) == v
  {
    if n > 0 {
      ValueOfLowBits(v / 2, n - 1);
      assert LowBits(v, n)[1..] == LowBits(v / 2, n - 1);
    }
  }

  lemma {:induction false} LowBitsOfValue(bits: seq<bool>)
    ensures LowBits(Value(bits), |bits|) == bits && Value(bits) < Shl(1, |bits|)
  {
    if bits != [] {
      LowBitsOfValue(bits[1..]);
      assert bits == [bits[0]] + bits[1..];
    }
  }

  lemma {:induction false} HighValueOfHighBits(v: nat, n: nat)
    requires v < Shl(1, n)
    ensures HighValue(HighBits(v, n)) == v
  {
    if n > 0 {
      HighValueOfHighBits(v / 2, n - 1);
      assert HighBits(v, n)[..n - 1] == HighBits(v / 2, n - 1);
    }
  }

  lemma {:induction false} HighBitsOfHighValue(bits: seq<bool>)
    ensures HighBits(HighValue(bits), |bits|) == bits && HighValue(bits) < Shl(1, |bits|)
  {
    if bits != [] {
      var init := bits[..|bits| - 1];
      HighBitsOfHighValue(init);
      assert bits == init + [bits[|bits| - 1]];
    }
  }

  // ----- arithmetic of the operators on low bits -----

  lemma Powers()
    ensures Shl(1, 4) == 16 && Shl(1, 8) == 0x100 && Shl(1, 9) == 0x200 && Shl(1, 15) == 0x8000 && Shl(1, 16) == 0x1_0000
  {
    assert Shl(1, 4) == 16;
    assert Shl(1, 8) == 0x100;
    assert Shl(1, 12) == 0x1000;
  }

  /** A mask of `n` ones keeps the low bits. */
  lemma {:induction false} MaskValue(v: nat, n: nat)
    ensures Shl(1, n) >= 1
    ensures And(v, Shl(1, n) - 1) == Value(LowBits(v, n)) < Shl(1, n)
    decreases n
  {
    if n == 0 {
      AndZero(v);
    } else {
      MaskValue(v / 2, n - 1);
      var mask := Shl(1, n) - 1;
      assert mask == 2 * (Shl(1, n - 1) - 1) + 1;
      assert mask / 2 == Shl(1, n - 1) - 1 && mask % 2 == 1;
      assert And(v, mask) == v % 2 + 2 * And(v / 2, mask / 2);
      assert LowBits(v, n)[1..] == LowBits(v / 2, n - 1);
    }
  }

  lemma {:induction false} AndZero(v: nat)
    ensures And(v, 0) == 0
    decreases v
  {
    if v > 0 {
      AndZero(v / 2);
    }
  }

  /** Two words without common bits: the one above is shifted past the one below. */
  lemma {:induction false} OrShifted(low: nat, high: nat, n: nat)
    requires low < Shl(1, n)
    ensures Or(low, Shl(high, n)) == low + Shl(high, n)
    decreases n
  {
    if n == 0 {
      OrZero(high);
    } else {
      OrShifted(low / 2, high, n - 1);
    }
  }

  lemma {:induction false} OrZero(v: nat)
    ensures Or(0, v) == v
    decreases v
  {
    if v > 0 {
      OrZero(v / 2);
    }
  }

  lemma {:induction false} ShlMonotone(a: nat, b: nat, n: nat)
    requires a <= b
    ensures Shl(a, n) <= Shl(b, n)
    ensures a < b ==> Shl(a, n) + Shl(1, n) <= Shl(b, n)
    decreases n
  {
    if n > 0 {
      ShlMonotone(a, b, n - 1);
    }
  }

  lemma {:induction false} ShlShl(v: nat, m: nat, n: nat)
    ensures Shl(Shl(v, m), n) == Shl(v, m + n)
    decreases n
  {
    if n > 0 {
      ShlShl(v, m, n - 1);
    }
  }

  lemma {:induction false} ShlScales(v: nat, n: nat)
    ensures Shl(v, n) == v * Shl(1, n)
    decreases n
  {
    if n > 0 {
      ShlScales(v, n - 1);
    }
  }

  /** Joining two words joins their bits. */
  lemma {:induction false} LowBitsJoin(low: nat, m: nat, high: nat, n: nat)
    requires low < Shl(1, m) && high < Shl(1, n)
    ensures LowBits(low + Shl(high, m), m + n) == LowBits(low, m) + LowBits(high, n)
    ensures low + Shl(high, m) < Shl(1, m + n)
    decreases m
  {
    if m > 0 {
      LowBitsJoin(low / 2, m - 1, high, n);
      assert LowBits(low, m) + LowBits(high, n) == [low % 2 == 1] + (LowBits(low / 2, m - 1) + LowBits(high, n));
    }
  }

  /** Shifting right drops the low bits. */
  lemma {:induction false} ShrDrops(v: nat, m: nat, n: nat)
    requires n <= m && v < Shl(1, m)
    ensures Shr(v, n) < Shl(1, m - n)
    ensures LowBits(Shr(v, n), m - n) == LowBits(v, m)[n..]
    decreases n
  {
    if n > 0 {
      ShrDrops(v / 2, m - 1, n - 1);
      assert LowBits(v, m)[n..] == LowBits(v / 2, m - 1)[n - 1..];
    }
  }

  lemma {:induction false} LowBitsPrefix(v: nat, m: nat, n: nat)
    requires n <= m
    ensures LowBits(v, m)[..n] == LowBits(v, n)
    decreases n
  {
    if n > 0 {
      LowBitsPrefix(v / 2, m - 1, n - 1);
      assert LowBits(v, m)[..n] == [v % 2 == 1] + LowBits(v / 2, m - 1)[..n - 1];
    }
  }

  /** Numbers with the same low bits are a multiple of the next power apart. */
  lemma {:induction false} SameLowBitsApart(a: nat, b: nat, n: nat)
    requires LowBits(a, n) == LowBits(b, n) && a < b
    ensures a + Shl(1, n) <= b
    decreases n
  {
    if n > 0 {
      assert LowBits(a, n)[0] == LowBits(b, n)[0];
      assert LowBits(a, n)[1..] == LowBits(a / 2, n - 1) && LowBits(b, n)[1..] == LowBits(b / 2, n - 1);
      SameLowBitsApart(a / 2, b / 2, n - 1);
    }
  }

  lemma {:induction false} StepKeepsLowBits(v: nat, n: nat)
    ensures LowBits(v + Shl(1, n), n) == LowBits(v, n)
    decreases n
  {
    if n > 0 {
      StepKeepsLowBits(v / 2, n - 1);
    }
  }

  /** Reading most significant first, dropping bits at the end is a right shift. */
  lemma {:induction false} HighValueOfPrefix(bits: seq<bool>, n: nat)
    requires n <= |bits|
    ensures Shr(HighValue(bits), |bits| - n) == HighValue(bits[..n])
    decreases |bits| - n
  {
    if n < |bits| {
      var init := bits[..|bits| - 1];
      assert HighValue(bits) / 2 == HighValue(init);
      HighValueOfPrefix(init, n);
      assert init[..n] == bits[..n];
    } else {
      assert bits[..n] == bits;
    }
  }

  /** Comparing after a right shift is comparing before with the bound shifted left. */
  lemma {:induction false} ShrLess(v: nat, bound: nat, n: nat)
    ensures v < Shl(bound, n) <==> Shr(v, n) < bound
    decreases n
  {
    if n > 0 {
      ShrLess(v / 2, bound, n - 1);
    }
  }

  /** Complementing every bit of a 16-bit number. */
  lemma XorOnes(v: nat)
    requires v < 0x1_0000
    ensures Xor(v, 0xffff) == 0xffff - v
  {
    Powers();
    XorMask(v, 16);
  }

  lemma {:induction false} XorMask(v: nat, n: nat)
    requires v < Shl(1, n)
    ensures Xor(v, Shl(1, n) - 1) == Shl(1, n) - 1 - v
    decreases n
  {
    if n > 0 {
      XorMask(v / 2, n - 1);
      assert (Shl(1, n) - 1) / 2 == Shl(1, n - 1) - 1;
    }
  }
}
