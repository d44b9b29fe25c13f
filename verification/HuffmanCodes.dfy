/** The canonical prefix codes of section 3.2.2 of RFC 1951, given by the code lengths of the symbols. */
module HuffmanCodes {
  import opened Wrappers
  import opened Words

  const MAX_LENGTH := 15

  type Length = n: nat | n <= MAX_LENGTH

  /** The code length of every symbol; zero for a symbol without a code. */
  type Lengths = s: seq<Length> | |s| <= 288

  /** How many symbols have this length. */
  function Count(lens: seq<Length>, length: nat): (r: nat)
    ensures r <= |lens|
  {
    if lens == [] then 0
    else Count(lens[..|lens| - 1], length) + if lens[|lens| - 1] == length then 1 else 0
  }

  /** The first code of a length: twice the code after the last shorter one. */
  function First(lens: seq<Length>, length: nat): nat
    decreases length, 0
  {
    if length <= 1 then 0 else 2 * Limit(lens, length - 1)
  }

  /** The code after the last one of a length. */
  function Limit(lens: seq<Length>, length: nat): nat
    decreases length, 1
  {
    First(lens, length) + if length == 0 then 0 else Count(lens, length)
  }

  /** How many symbols have a shorter code. */
  function Before(lens: seq<Length>, length: nat): nat {
    if length <= 1 then 0 else Before(lens, length - 1) + Count(lens, length - 1)
  }

  predicate Used(lens: seq<Length>, sym: nat) { sym < |lens| && lens[sym] > 0 }

  /** The place of a symbol among those of its length. */
  function Rank(lens: seq<Length>, sym: nat): nat
    requires sym < |lens|
  {
    Count(lens[..sym], lens[sym])
  }

  function CodeValue(lens: seq<Length>, sym: nat): nat
    requires Used(lens, sym)
  {
    First(lens, lens[sym]) + Rank(lens, sym)
  }

  /** The code of a symbol in the order of the stream: most significant bit first. */
  function Code(lens: seq<Length>, sym: nat): (bits: seq<bool>)
    requires Used(lens, sym)
    ensures |bits| == lens[sym]
  {
    HighBits(CodeValue(lens, sym), lens[sym])
  }

  /** A length does not have more codes than its bits allow after the shorter codes. */
  predicate Fits(lens: seq<Length>, s: nat) { Count(lens, s) > 0 ==> Limit(lens, s) <= Shl(1, s) }

  ghost predicate Accepted(lens: seq<Length>) { forall s: nat :: 1 <= s <= MAX_LENGTH ==> Fits(lens, s) }

  ghost predicate Decodes(lens: seq<Length>, bits: seq<bool>, sym: nat) {
    Used(lens, sym) && Code(lens, sym) <= bits
  }

  // ----- counting -----

  lemma {:induction false} CountPrefix(lens: seq<Length>, n: nat, length: nat)
    requires n <= |lens|
    ensures Count(lens[..n], length) <= Count(lens, length)
    ensures n < |lens| && lens[n] == length ==> Count(lens[..n], length) < Count(lens, length)
    decreases |lens|
  {
    if n == |lens| {
      assert lens[..n] == lens;
    } else {
      var init := lens[..|lens| - 1];
      CountPrefix(init, n, length);
      assert init[..n] == lens[..n];
    }
  }

  lemma RankInjective(lens: seq<Length>, a: nat, b: nat)
    requires a < b < |lens| && lens[a] == lens[b]
    ensures Rank(lens, a) < Rank(lens, b)
  {
    CountPrefix(lens[..b], a, lens[a]);
    assert lens[..b][..a] == lens[..a];
  }

  /** Every rank below the count of a length belongs to a symbol. */
  lemma {:induction false} SymbolOfRank(lens: seq<Length>, length: nat, rank: nat) returns (sym: nat)
    requires rank < Count(lens, length)
    ensures sym < |lens| && lens[sym] == length && Rank(lens, sym) == rank
    decreases |lens|
  {
    var init := lens[..|lens| - 1];
    if rank < Count(init, length) {
      sym := SymbolOfRank(init, length, rank);
      assert init[..sym] == lens[..sym];
    } else {
      sym := |lens| - 1;
    }
  }

  lemma {:induction false} BeforeStep(lens: seq<Length>, s: nat)
    requires lens != []
    ensures Before(lens, s)
            == Before(lens[..|lens| - 1], s) + if 0 < lens[|lens| - 1] < s then 1 else 0
    decreases s
  {
    if s > 1 {
      BeforeStep(lens, s - 1);
    }
  }

  lemma {:induction false} BeforeBound(lens: seq<Length>, s: nat)
    ensures Before(lens, s) <= |lens|
    decreases |lens|
  {
    if lens == [] {
      BeforeEmpty(s);
    } else {
      BeforeBound(lens[..|lens| - 1], s);
      BeforeStep(lens, s);
    }
  }

  lemma {:induction false} BeforeEmpty(s: nat)
    ensures Before([], s) == 0
    decreases s
  {
    if s > 1 {
      BeforeEmpty(s - 1);
    }
  }

  lemma {:induction false} BeforeMonotone(lens: seq<Length>, s: nat, t: nat)
    requires 1 <= s < t
    ensures Before(lens, s) + Count(lens, s) <= Before(lens, t)
    decreases t
  {
    if s + 1 < t {
      BeforeMonotone(lens, s, t - 1);
    }
  }

  /** The place of a symbol when all are sorted by length, and then by number. */
  function Slot(lens: seq<Length>, sym: nat): nat
    requires Used(lens, sym)
  {
    Before(lens, lens[sym]) + Rank(lens, sym)
  }

  /** Slots are within the table and no two symbols share one. */
  lemma SlotsDistinct(lens: seq<Length>, a: nat, b: nat)
    requires Used(lens, a) && Used(lens, b)
    ensures Slot(lens, a) < |lens|
    ensures Slot(lens, a) == Slot(lens, b) ==> a == b
  {
    CountPrefix(lens, a, lens[a]);
    CountPrefix(lens, b, lens[b]);
    var length: nat := lens[a];
    BeforeBound(lens, length + 1);
    if lens[a] < lens[b] {
      BeforeMonotone(lens, lens[a], lens[b]);
    } else if lens[b] < lens[a] {
      BeforeMonotone(lens, lens[b], lens[a]);
    } else if a < b {
      RankInjective(lens, a, b);
    } else if b < a {
      RankInjective(lens, b, a);
    }
  }

  // ----- the codes fit and are prefix-free -----

  lemma {:induction false} LimitFits(lens: seq<Length>, s: nat)
    requires Accepted(lens) && s <= MAX_LENGTH
    ensures First(lens, s) <= Limit(lens, s) <= Shl(1, s)
    decreases s
  {
    if s > 1 {
      LimitFits(lens, s - 1);
    }
    assert s > 0 ==> Fits(lens, s);
  }

  lemma CodeValueFits(lens: seq<Length>, sym: nat)
    requires Accepted(lens) && Used(lens, sym)
    ensures First(lens, lens[sym]) <= CodeValue(lens, sym) < Limit(lens, lens[sym]) <= Shl(1, lens[sym])
    ensures HighValue(Code(lens, sym)) == CodeValue(lens, sym)
  {
    CountPrefix(lens, sym, lens[sym]);
    LimitFits(lens, lens[sym]);
    HighValueOfHighBits(CodeValue(lens, sym), lens[sym]);
  }

  /** The number in the first `s` bits. */
  function Lookahead(bits: seq<bool>, s: nat): nat
    requires s <= |bits|
  {
    HighValue(bits[..s])
  }

  lemma LookaheadStep(bits: seq<bool>, s: nat)
    requires s < |bits|
    ensures 2 * Lookahead(bits, s) <= Lookahead(bits, s + 1) <= 2 * Lookahead(bits, s) + 1
  {
    assert bits[..s + 1][..s] == bits[..s];
  }

  /** A symbol decodes exactly when the lookahead of its length is its code's value. */
  lemma DecodesByValue(lens: seq<Length>, bits: seq<bool>, sym: nat)
    requires Accepted(lens) && Used(lens, sym) && lens[sym] <= |bits|
    ensures Decodes(lens, bits, sym) <==> Lookahead(bits, lens[sym]) == CodeValue(lens, sym)
  {
    CodeValueFits(lens, sym);
    HighBitsOfHighValue(bits[..lens[sym]]);
    if Code(lens, sym) <= bits {
      assert Code(lens, sym) == bits[..lens[sym]];
    }
  }

  /** A length has a code for the lookahead exactly when it lies between the first code and the limit. */
  lemma LengthDecodes(lens: seq<Length>, bits: seq<bool>, s: nat) returns (sym: nat)
    requires Accepted(lens) && 1 <= s <= MAX_LENGTH && s <= |bits|
    requires First(lens, s) <= Lookahead(bits, s) < Limit(lens, s)
    ensures Decodes(lens, bits, sym) && lens[sym] == s && Rank(lens, sym) == Lookahead(bits, s) - First(lens, s)
  {
    sym := SymbolOfRank(lens, s, Lookahead(bits, s) - First(lens, s));
    DecodesByValue(lens, bits, sym);
  }

  lemma {:induction false} BelowLimitStaysBelow(lens: seq<Length>, bits: seq<bool>, s: nat, t: nat)
    requires s < t <= |bits| && 1 <= s && Lookahead(bits, s) < Limit(lens, s)
    ensures Lookahead(bits, t) < First(lens, t)
    decreases t
  {
    LookaheadStep(bits, t - 1);
    if s < t - 1 {
      BelowLimitStaysBelow(lens, bits, s, t - 1);
    }
  }

  /** No code starts another: at most one symbol decodes. */
  lemma PrefixFree(lens: seq<Length>, bits: seq<bool>, a: nat, b: nat)
    requires Accepted(lens) && Decodes(lens, bits, a) && Decodes(lens, bits, b)
    ensures a == b
  {
    DecodesByValue(lens, bits, a);
    DecodesByValue(lens, bits, b);
    CodeValueFits(lens, a);
    CodeValueFits(lens, b);
    if lens[a] < lens[b] {
      BelowLimitStaysBelow(lens, bits, lens[a], lens[b]);
    } else if lens[b] < lens[a] {
      BelowLimitStaysBelow(lens, bits, lens[b], lens[a]);
    } else if a < b {
      RankInjective(lens, a, b);
    } else if b < a {
      RankInjective(lens, b, a);
    }
  }

  /** Below length `s` no symbol decodes exactly when the lookahead has passed every limit so far;
      searching for the first limit above it then starts at the right length. */
  lemma {:induction false} PassedLimits(lens: seq<Length>, bits: seq<bool>, s: nat)
    requires Accepted(lens) && s <= MAX_LENGTH && s <= |bits|
    requires forall sym: nat :: Used(lens, sym) && lens[sym] <= s ==> !Decodes(lens, bits, sym)
    ensures Lookahead(bits, s) >= Limit(lens, s)
    decreases s
  {
    if s > 0 {
      PassedLimits(lens, bits, s - 1);
      LookaheadStep(bits, s - 1);
      if Lookahead(bits, s) < Limit(lens, s) {
        var sym := LengthDecodes(lens, bits, s);
      }
    }
  }

  /** A symbol that decodes has a length whose limit lies above the lookahead. */
  lemma DecodesBelowLimit(lens: seq<Length>, bits: seq<bool>, sym: nat)
    requires Accepted(lens) && Decodes(lens, bits, sym)
    ensures Lookahead(bits, lens[sym]) < Limit(lens, lens[sym])
  {
    DecodesByValue(lens, bits, sym);
    CodeValueFits(lens, sym);
  }

  // ----- which lists are accepted -----

  /** The share of all 15-bit strings that the codes of these symbols take up. */
  function Kraft(lens: seq<Length>): nat {
    if lens == [] then 0
    else
      var last := lens[|lens| - 1];
      Kraft(lens[..|lens| - 1]) + if last == 0 then 0 else Shl(1, MAX_LENGTH - last)
  }

  /** The same share up to a length, by lengths. */
  function Share(lens: seq<Length>, length: nat): nat
    requires length <= MAX_LENGTH
  {
    if length == 0 then 0 else Share(lens, length - 1) + Shl(Count(lens, length), MAX_LENGTH - length)
  }

  lemma {:induction false} ShlAdd(a: nat, b: nat, n: nat)
    ensures Shl(a + b, n) == Shl(a, n) + Shl(b, n)
    decreases n
  {
    if n > 0 {
      ShlAdd(a, b, n - 1);
    }
  }

  lemma {:induction false} ShareStep(lens: seq<Length>, length: nat)
    requires lens != [] && length <= MAX_LENGTH
    ensures var last := lens[|lens| - 1];
            Share(lens, length)
            == Share(lens[..|lens| - 1], length) + if 0 < last <= length then Shl(1, MAX_LENGTH - last) else 0
    decreases length
  {
    if length > 0 {
      ShareStep(lens, length - 1);
      ShlAdd(Count(lens[..|lens| - 1], length), 1, MAX_LENGTH - length);
    }
  }

  lemma {:induction false} ShareEmpty(length: nat)
    requires length <= MAX_LENGTH
    ensures Share([], length) == 0
    decreases length
  {
    if length > 0 {
      ShareEmpty(length - 1);
      ShlScales(0, MAX_LENGTH - length);
    }
  }

  lemma {:induction false} KraftByLengths(lens: seq<Length>)
    ensures Kraft(lens) == Share(lens, MAX_LENGTH)
  {
    if lens == [] {
      ShareEmpty(MAX_LENGTH);
    } else {
      KraftByLengths(lens[..|lens| - 1]);
      ShareStep(lens, MAX_LENGTH);
    }
  }

  lemma {:induction false} LimitIsShare(lens: seq<Length>, length: nat)
    requires length <= MAX_LENGTH
    ensures Share(lens, length) == Shl(Limit(lens, length), MAX_LENGTH - length)
    decreases length
  {
    if length == 0 {
      ShlScales(0, MAX_LENGTH);
    } else {
      LimitIsShare(lens, length - 1);
      var n := MAX_LENGTH - length;
      ShlAdd(First(lens, length), Count(lens, length), n);
      ShlShl(Limit(lens, length - 1), 1, n);
      assert Shl(Limit(lens, length - 1), 1) == 2 * Limit(lens, length - 1);
    }
  }

  lemma {:induction false} ShareMonotone(lens: seq<Length>, s: nat, t: nat)
    requires s <= t <= MAX_LENGTH
    ensures Share(lens, s) <= Share(lens, t)
    ensures (forall i: nat :: s < i <= t ==> Count(lens, i) == 0) ==> Share(lens, s) == Share(lens, t)
    decreases t
  {
    if s < t {
      ShareMonotone(lens, s, t - 1);
      if Count(lens, t) == 0 {
        ShlScales(0, MAX_LENGTH - t);
      }
    }
  }

  lemma FitsAsShare(lens: seq<Length>, s: nat)
    requires s <= MAX_LENGTH
    ensures Limit(lens, s) <= Shl(1, s) <==> Share(lens, s) <= Shl(1, MAX_LENGTH)
  {
    LimitIsShare(lens, s);
    var n := MAX_LENGTH - s;
    ShlShl(1, s, n);
    if Limit(lens, s) <= Shl(1, s) {
      ShlMonotone(Limit(lens, s), Shl(1, s), n);
    } else {
      MaskValue(0, n);
      ShlMonotone(Shl(1, s), Limit(lens, s), n);
    }
  }

  /** The longest length in use, zero if there is none. */
  lemma {:induction false} LongestUsed(lens: seq<Length>, t: nat) returns (s: nat)
    requires t <= MAX_LENGTH
    ensures s <= t && (s > 0 ==> Count(lens, s) > 0) && forall i: nat :: s < i <= t ==> Count(lens, i) == 0
    decreases t
  {
    if t == 0 || Count(lens, t) > 0 {
      s := t;
    } else {
      s := LongestUsed(lens, t - 1);
    }
  }

  /** The lists of lengths that are accepted are those that satisfy Kraft's inequality. */
  lemma AcceptedIsKraft(lens: seq<Length>)
    ensures Accepted(lens) <==> Kraft(lens) <= Shl(1, MAX_LENGTH)
  {
    KraftByLengths(lens);
    if Accepted(lens) {
      var s := LongestUsed(lens, MAX_LENGTH);
      ShareMonotone(lens, s, MAX_LENGTH);
      assert s > 0 ==> Fits(lens, s);
      FitsAsShare(lens, s);
    } else {
      var s: nat :| 1 <= s <= MAX_LENGTH && !Fits(lens, s);
      FitsAsShare(lens, s);
      ShareMonotone(lens, s, MAX_LENGTH);
    }
  }

  // ----- encoding and decoding -----

  /** The symbol whose code comes next. */
  ghost function NextSymbol(lens: seq<Length>, bits: seq<bool>): (r: Option<nat>)
    ensures r.Some? ==> Decodes(lens, bits, r.value)
  {
    if exists sym: nat :: Decodes(lens, bits, sym) then
      var sym: nat :| Decodes(lens, bits, sym);
      Some(sym)
    else None
  }

  lemma NextSymbolIs(lens: seq<Length>, bits: seq<bool>, sym: nat)
    requires Accepted(lens) && Decodes(lens, bits, sym)
    ensures NextSymbol(lens, bits) == Some(sym)
  {
    PrefixFree(lens, bits, sym, NextSymbol(lens, bits).value);
  }

  /** The code of a symbol decodes to it, whatever comes behind. */
  lemma NextSymbolOfCode(lens: seq<Length>, sym: nat, rest: seq<bool>)
    requires Accepted(lens) && Used(lens, sym)
    ensures NextSymbol(lens, Code(lens, sym) + rest) == Some(sym)
    ensures (Code(lens, sym) + rest)[lens[sym]..] == rest
  {
    NextSymbolIs(lens, Code(lens, sym) + rest, sym);
  }

  /** The codes of a sequence of symbols, one after the other. */
  function Encode(lens: seq<Length>, syms: seq<nat>): seq<bool>
    requires forall i :: 0 <= i < |syms| ==> Used(lens, syms[i])
  {
    if syms == [] then [] else Code(lens, syms[0]) + Encode(lens, syms[1..])
  }

  /** The next `n` symbols and what is left. */
  ghost function NextSymbols(lens: seq<Length>, bits: seq<bool>, n: nat): Option<(seq<nat>, seq<bool>)> {
    if n == 0 then Some(([], bits))
    else
      match NextSymbol(lens, bits)
      case None => None
      case Some(sym) =>
        match NextSymbols(lens, bits[lens[sym]..], n - 1)
        case None => None
        case Some((syms, rest)) => Some(([sym] + syms, rest))
  }

  lemma Regrouped(a: seq<bool>, b: seq<bool>, c: seq<bool>)
    ensures a + b + c == a + (b + c)
  {
  }

  /** Decoding inverts encoding, and consumes exactly the encoding. */
  lemma {:induction false} DecodingInvertsEncoding(lens: seq<Length>, syms: seq<nat>, rest: seq<bool>)
    requires Accepted(lens) && forall i :: 0 <= i < |syms| ==> Used(lens, syms[i])
    ensures NextSymbols(lens, Encode(lens, syms) + rest, |syms|) == Some((syms, rest))
  {
    if syms == [] {
      assert [] + rest == rest;
    } else {
      var code, tail := Code(lens, syms[0]), Encode(lens, syms[1..]) + rest;
      Regrouped(code, Encode(lens, syms[1..]), rest);
      NextSymbolOfCode(lens, syms[0], tail);
      DecodingInvertsEncoding(lens, syms[1..], rest);
      assert syms == [syms[0]] + syms[1..];
    }
  }

  // ----- the order of the codes -----

  lemma {:induction false} RankStep(lens: seq<Length>, a: nat, b: nat)
    requires a < b < |lens| && lens[b] == lens[a] && forall c :: a < c < b ==> lens[c] != lens[a]
    ensures Rank(lens, b) == Rank(lens, a) + 1
  {
    NoneOfLength(lens, a, b, lens[a]);
    assert lens[..a + 1][..a] == lens[..a];
  }

  lemma {:induction false} NoneOfLength(lens: seq<Length>, a: nat, b: nat, length: nat)
    requires a < b <= |lens| && forall c :: a < c < b ==> lens[c] != length
    ensures Count(lens[..b], length) == Count(lens[..a + 1], length)
    decreases b
  {
    if a + 1 < b {
      assert lens[..b][..b - 1] == lens[..b - 1];
      NoneOfLength(lens, a, b - 1, length);
    }
  }

  lemma {:induction false} FirstGrows(lens: seq<Length>, length: nat, further: nat)
    requires 0 < length < further
    ensures Shl(Limit(lens, length), further - length) <= First(lens, further)
    decreases further
  {
    if length + 1 < further {
      FirstGrows(lens, length, further - 1);
    }
  }

  /** The two rules of section 3.2.2 of RFC 1951. Codes of one length are consecutive, in the order of their symbols;
      shorter codes come before longer ones. The first of the shortest codes is zero. */
  lemma CanonicalOrder(lens: seq<Length>, a: nat, b: nat)
    requires Used(lens, a) && Used(lens, b)
    ensures a < b && lens[a] == lens[b] && (forall c :: a < c < b ==> lens[c] != lens[a]) ==>
              CodeValue(lens, b) == CodeValue(lens, a) + 1
    ensures lens[a] < lens[b] ==> Shl(CodeValue(lens, a) + 1, lens[b] - lens[a]) <= CodeValue(lens, b)
    ensures (forall c :: 0 <= c < |lens| && lens[c] > 0 ==> lens[a] < lens[c] || (lens[a] == lens[c] && a <= c)) ==>
              CodeValue(lens, a) == 0
  {
    if a < b && lens[a] == lens[b] && forall c :: a < c < b ==> lens[c] != lens[a] {
      RankStep(lens, a, b);
    }
    if lens[a] < lens[b] {
      CountPrefix(lens, a, lens[a]);
      FirstGrows(lens, lens[a], lens[b]);
      ShlMonotone(CodeValue(lens, a) + 1, Limit(lens, lens[a]), lens[b] - lens[a]);
    }
    if forall c :: 0 <= c < |lens| && lens[c] > 0 ==> lens[a] < lens[c] || (lens[a] == lens[c] && a <= c) {
      NoneShorter(lens, a);
    }
  }

  lemma {:induction false} NoCount(lens: seq<Length>, length: nat)
    requires forall c :: 0 <= c < |lens| ==> lens[c] != length
    ensures Count(lens, length) == 0
  {
    if lens != [] {
      NoCount(lens[..|lens| - 1], length);
    }
  }

  lemma {:induction false} FirstWithoutShorter(lens: seq<Length>, length: nat)
    requires forall c :: 0 <= c < |lens| ==> lens[c] == 0 || lens[c] >= length
    ensures First(lens, length) == 0
    decreases length
  {
    if length > 1 {
      FirstWithoutShorter(lens, length - 1);
      NoCount(lens, length - 1);
    }
  }

  lemma NoneShorter(lens: seq<Length>, a: nat)
    requires Used(lens, a)
    requires forall c :: 0 <= c < |lens| && lens[c] > 0 ==> lens[a] < lens[c] || (lens[a] == lens[c] && a <= c)
    ensures CodeValue(lens, a) == 0
  {
    FirstWithoutShorter(lens, lens[a]);
    NoCount(lens[..a], lens[a]);
  }
}
