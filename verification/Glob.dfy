/** gnu-efi/lib/str.c: the backtracking matcher for patterns with `*`, `?` and bracket sets. */
module Glob {
  import opened Wrappers

  type Char16 = c: nat | c < 0x1_0000

  /** A string without its terminating zero. */
  type Text = seq<Char16>

  const STAR: Char16 := 42
  const QUESTION: Char16 := 63
  const OPEN: Char16 := 91
  const CLOSE: Char16 := 93
  const DASH: Char16 := 45

  predicate NoZero(text: Text) { forall i :: 0 <= i < |text| ==> text[i] != 0 }

  /** The character that a pointer into a string reads; zero at its end. */
  function At(text: Text, i: nat): Char16
    requires i <= |text|
  {
    if i < |text| then text[i] else 0
  }

  // ----- the pattern language -----

  /** `Open` is a bracket set that is never closed, with the rest of the pattern as its body. */
  datatype Item = Star | Any | Set(body: Text) | Literal(c: Char16) | Open(body: Text)

  /** The index of the first `]`, or the length. */
  function FirstClose(p: Text): (k: nat)
    ensures k <= |p| && (k < |p| ==> p[k] == CLOSE) && forall i :: 0 <= i < k ==> p[i] != CLOSE
  {
    if p == [] || p[0] == CLOSE then 0
    else
      var k := FirstClose(p[1..]);
      assert forall i :: 1 <= i < k + 1 ==> p[i] == p[1..][i - 1];
      k + 1
  }

  /** The first item of a pattern, and the number of characters that it takes. */
  function FirstItem(p: Text): (r: (Item, nat))
    requires p != []
    ensures 1 <= r.1 <= |p|
  {
    if p[0] == OPEN then
      var k := FirstClose(p[1..]);
      if k == |p| - 1 then (Open(p[1..]), |p|) else (Set(p[1..k + 1]), k + 2)
    else
      (if p[0] == STAR then Star else if p[0] == QUESTION then Any else Literal(p[0]), 1)
  }

  function Parse(p: Text): (items: seq<Item>)
    ensures items == [] <==> p == []
    decreases |p|
  {
    if p == [] then []
    else
      var (item, n) := FirstItem(p);
      [item] + Parse(p[n..])
  }

  /** The lower end of a range whose dash is at `t`: the character before it. */
  function Lower(body: Text, t: nat): Char16
    requires t < |body|
  {
    if t == 0 then 0 else body[t - 1]
  }

  /** Position `t` of a set stands for `c`: a character for itself, a dash for the range between its
      neighbours and for the right one of them. */
  predicate Selects(body: Text, t: nat, c: Char16)
    requires t < |body|
  {
    if body[t] == DASH then t + 1 < |body| && (Lower(body, t) <= c <= body[t + 1] || c == body[t + 1])
    else c == body[t]
  }

  ghost predicate InSet(body: Text, c: Char16) { exists t :: 0 <= t < |body| && Selects(body, t, c) }

  /** The strings that a pattern stands for. */
  ghost predicate InLanguage(items: seq<Item>, text: Text)
    decreases |items|
  {
    if items == [] then text == []
    else
      match items[0]
      case Star => exists k :: 0 <= k <= |text| && InLanguage(items[1..], text[k..])
      case Any => text != [] && InLanguage(items[1..], text[1..])
      case Set(body) => text != [] && InSet(body, text[0]) && InLanguage(items[1..], text[1..])
      case Literal(c) => text != [] && text[0] == c && InLanguage(items[1..], text[1..])
      case Open(body) => false
  }

  /** The matcher leaves a set that is never closed before the end of the pattern only by way of a dash at its end. */
  ghost predicate RunsPastEnd(body: Text, c: Char16) {
    body == [] || body[|body| - 1] != DASH || InSet(body, c)
  }

  /** The matcher reads past the end of the pattern: it gets to a set that is never closed. */
  ghost predicate RunsPast(items: seq<Item>, text: Text)
    decreases |items|
  {
    if items == [] then false
    else
      match items[0]
      case Star => exists k :: 0 <= k <= |text| && RunsPast(items[1..], text[k..])
      case Any => text != [] && RunsPast(items[1..], text[1..])
      case Set(body) => text != [] && InSet(body, text[0]) && RunsPast(items[1..], text[1..])
      case Literal(c) => text != [] && text[0] == c && RunsPast(items[1..], text[1..])
      case Open(body) => text != [] && RunsPastEnd(body, text[0])
  }

  /** A string matches a pattern. */
  ghost predicate Matches(pattern: Text, text: Text) { InLanguage(Parse(pattern), text) }

  /** A pattern whose sets are all closed is never read past its end. */
  lemma {:induction false} ClosedNeverRunsPast(items: seq<Item>, text: Text)
    requires forall i :: 0 <= i < |items| ==> !items[i].Open?
    ensures !RunsPast(items, text)
    decreases |items|
  {
    if items != [] {
      forall k | 0 <= k <= |text| ensures !RunsPast(items[1..], text[k..]) {
        ClosedNeverRunsPast(items[1..], text[k..]);
      }
    }
  }

  /** A set without dashes stands for its characters. */
  lemma PlainSet(body: Text, c: Char16)
    requires DASH !in body
    ensures InSet(body, c) <==> c in body
  {
    if c in body {
      var t :| 0 <= t < |body| && body[t] == c;
      assert Selects(body, t, c);
    }
  }

  /** A range stands for the characters between its ends, and for the ends whatever their order. */
  lemma RangeSet(low: Char16, high: Char16, c: Char16)
    requires low != DASH && high != DASH
    ensures InSet([low, DASH, high], c) <==> low <= c <= high || c == low || c == high
  {
    var body: Text := [low, DASH, high];
    assert Selects(body, 0, c) <==> c == low;
    assert Selects(body, 1, c) <==> low <= c <= high || c == high;
    assert Selects(body, 2, c) <==> c == high;
  }

  /** So the pattern `[a-c]` matches exactly the strings of one character from `a` to `c`. */
  lemma RangePattern(low: Char16, high: Char16, text: Text)
    requires low !in [DASH, CLOSE] && high !in [DASH, CLOSE] && low <= high
    ensures Matches([OPEN, low, DASH, high, CLOSE], text) <==> |text| == 1 && low <= text[0] <= high
  {
    var p: Text := [OPEN, low, DASH, high, CLOSE];
    var inner: Text := [low, DASH, high, CLOSE];
    assert p[1..] == inner;
    RangeClose(low, high);
    assert p[1..4] == [low, DASH, high] && p[5..] == [];
    assert FirstItem(p) == (Set([low, DASH, high]), 5);
    var items := Parse(p);
    assert items == [Set([low, DASH, high])] && items[1..] == [];
    if text != [] {
      RangeSet(low, high, text[0]);
      assert InLanguage(items[1..], text[1..]) <==> text[1..] == [];
      assert text[1..] == [] <==> |text| == 1;
    }
  }

  lemma RangeClose(low: Char16, high: Char16)
    requires low != CLOSE && high != CLOSE
    ensures FirstClose([low, DASH, high, CLOSE]) == 3
  {
    var p: Text := [low, DASH, high, CLOSE];
    assert p[3] == CLOSE && p[0] != CLOSE && p[1] != CLOSE && p[2] != CLOSE;
  }

  // ----- the matcher -----

  /** The body of the set that starts at `start`; the rest of the pattern if it is never closed. */
  ghost function Body(pattern: Text, start: nat): Text
    requires start <= |pattern|
  {
    pattern[start..][..FirstClose(pattern[start..])]
  }

  ghost predicate Closed(pattern: Text, start: nat)
    requires start <= |pattern|
  {
    FirstClose(pattern[start..]) < |pattern| - start
  }

  /** The bracket set whose body starts at `start`: whether it stands for `c`, and if so where the
      pattern goes on. */
  method MatchSet(pattern: Text, start: nat, c: Char16) returns (matched: bool, next: nat)
    requires start <= |pattern| && NoZero(pattern) && c != 0
    requires Closed(pattern, start) || !RunsPastEnd(Body(pattern, start), c)
    ensures matched == (Closed(pattern, start) && InSet(Body(pattern, start), c))
    ensures matched ==> next == start + |Body(pattern, start)| + 1
  {
    ghost var k := FirstClose(pattern[start..]);
    ghost var body := Body(pattern, start);
    ghost var closed := Closed(pattern, start);
    assert forall i :: 0 <= i < k ==> body[i] == pattern[start + i];
    assert closed ==> pattern[start + k] == pattern[start..][k];
    var pos, l := start, 0;
    var p: Char16 := 0;
    while true
      invariant start <= pos <= start + k && (!closed ==> pos < start + k)
      invariant forall t :: 0 <= t < pos - start ==> !Selects(body, t, c)
      invariant pos < start + k && pattern[pos] == DASH ==> l == Lower(body, pos - start)
      decreases start + k - pos
    {
      p := At(pattern, pos);
      pos := pos + 1;
      if p == CLOSE {
        return false, 0;
      }
      ghost var t := pos - 1 - start;
      if p == DASH {
        p := At(pattern, pos);
        if p == 0 || p == CLOSE {
          return false, 0;
        }
        if c >= l && c <= p {
          assert Selects(body, t, c);
          break;
        }
      }
      l := p;
      if c == p {
        assert Selects(body, t, c);
        break;
      }
    }
    while p != 0 && p != CLOSE
      invariant closed && start <= pos <= start + k + 1
      invariant p != 0
      invariant if pos == start + k + 1 then p == CLOSE else p != CLOSE
      decreases start + k + 1 - pos
    {
      p := At(pattern, pos);
      pos := pos + 1;
    }
    return true, pos;
  }

  // How the meaning of a pattern follows from its first character.

  lemma HeadAndRest(head: Item, rest: seq<Item>)
    ensures ([head] + rest)[0] == head && ([head] + rest)[1..] == rest
  {
  }

  lemma ParseStep(p: Text, item: Item, n: nat)
    requires p != [] && FirstItem(p) == (item, n)
    ensures Parse(p) != [] && Parse(p)[0] == item && Parse(p)[1..] == Parse(p[n..])
    ensures n == |p| ==> Parse(p) == [item]
  {
    HeadAndRest(item, Parse(p[n..]));
  }

  lemma ParseHead(p: Text)
    requires p != [] && p[0] != OPEN
    ensures Parse(p)[0] == if p[0] == STAR then Star else if p[0] == QUESTION then Any else Literal(p[0])
    ensures Parse(p)[1..] == Parse(p[1..])
  {
    ParseStep(p, FirstItem(p).0, 1);
  }

  lemma FirstSet(p: Text, k: nat)
    requires p != [] && p[0] == OPEN && k == FirstClose(p[1..])
    ensures FirstItem(p) == if k == |p| - 1 then (Open(p[1..]), |p|) else (Set(p[1..k + 1]), k + 2)
  {
  }

  lemma ParseSet(p: Text, k: nat)
    requires p != [] && p[0] == OPEN && k == FirstClose(p[1..])
    ensures k == |p| - 1 ==> Parse(p) == [Open(p[1..])]
    ensures k < |p| - 1 ==> Parse(p)[0] == Set(p[1..k + 1]) && Parse(p)[1..] == Parse(p[k + 2..])
  {
    FirstSet(p, k);
    if k == |p| - 1 {
      ParseStep(p, Open(p[1..]), |p|);
    } else {
      ParseStep(p, Set(p[1..k + 1]), k + 2);
    }
  }

  // The same from a position in the pattern and one in the string. Inside the matcher only these steps
  // matter, not what they follow from, so the meaning is wrapped: it opens where `Shown` is mentioned.

  /** Whether a string matches a pattern; none if the pattern is read past its end. */
  ghost function Meaning(p: Text, text: Text): Option<bool> {
    var v :| forall k {:trigger Shown(k)} :: Shown(k) ==>
               v == if RunsPast(Parse(p), text) then None else Some(Matches(p, text));
    v
  }

  lemma MeaningOf(p: Text, text: Text)
    ensures Meaning(p, text) == if RunsPast(Parse(p), text) then None else Some(Matches(p, text))
  {
    assert Shown(0);
  }

  /** The same for the rest of a pattern and the rest of a string. */
  ghost function Verdict(pattern: Text, pos: nat, text: Text, s: nat): Option<bool>
    requires pos <= |pattern| && s <= |text|
  {
    var v :| forall k {:trigger Shown(k)} :: Shown(k) ==> v == Meaning(pattern[pos..], text[s..]);
    v
  }

  lemma VerdictIsMeaning(pattern: Text, pos: nat, text: Text, s: nat, rest: Text, ahead: Text)
    requires pos <= |pattern| && s <= |text| && rest == pattern[pos..] && ahead == text[s..]
    ensures Verdict(pattern, pos, text, s) == Meaning(rest, ahead)
  {
    assert Shown(0);
  }

  lemma VerdictOf(pattern: Text, pos: nat, text: Text, s: nat, rest: Text, ahead: Text)
    requires pos <= |pattern| && s <= |text| && rest == pattern[pos..] && ahead == text[s..]
    ensures Verdict(pattern, pos, text, s) == if RunsPast(Parse(rest), ahead) then None else Some(Matches(rest, ahead))
  {
    VerdictIsMeaning(pattern, pos, text, s, rest, ahead);
    MeaningOf(rest, ahead);
  }

  lemma EndRound(pattern: Text, text: Text, s: nat, r: bool)
    requires s <= |text|
    requires Verdict(pattern, |pattern|, text, s) == Some(r)
    ensures r == (s == |text|)
  {
    VerdictOf(pattern, |pattern|, text, s, [], text[s..]);
  }

  /** One suffix from `s` on matches the rest of the pattern. */
  ghost predicate SomeSuffix(pattern: Text, pos: nat, text: Text, s: nat)
    requires pos <= |pattern| && s <= |text|
  {
    exists k: nat :: s <= k <= |text| && Verdict(pattern, pos, text, k) == Some(true)
  }

  ghost predicate Decided(pattern: Text, pos: nat, text: Text, s: nat)
    requires pos <= |pattern| && s <= |text|
  {
    forall k: nat :: s <= k <= |text| ==> Verdict(pattern, pos, text, k).Some?
  }

  /** What `*` means for the suffixes of a string. */
  lemma StarSuffixes(p: Text, ahead: Text)
    requires p != [] && p[0] == STAR
    ensures RunsPast(Parse(p), ahead) <==> exists k :: 0 <= k <= |ahead| && RunsPast(Parse(p[1..]), ahead[k..])
    ensures Matches(p, ahead) <==> exists k :: 0 <= k <= |ahead| && Matches(p[1..], ahead[k..])
  {
    ParseHead(p);
    var items := Parse(p[1..]);
    assert forall k :: 0 <= k <= |ahead| ==> Matches(p[1..], ahead[k..]) == InLanguage(items, ahead[k..]);
  }

  lemma SuffixVerdict(pattern: Text, pos: nat, text: Text, s: nat, k: nat, rest: Text, ahead: Text)
    requires pos <= |pattern| && s <= k <= |text| && rest == pattern[pos..] && ahead == text[s..]
    ensures Verdict(pattern, pos, text, k)
         == if RunsPast(Parse(rest), ahead[k - s..]) then None else Some(Matches(rest, ahead[k - s..]))
  {
    assert ahead[k - s..] == text[k..];
    VerdictOf(pattern, pos, text, k, rest, text[k..]);
  }

  lemma StarRound(pattern: Text, pos: nat, text: Text, s: nat, r: bool)
    requires pos < |pattern| && s <= |text| && pattern[pos] == STAR && Verdict(pattern, pos, text, s) == Some(r)
    ensures Decided(pattern, pos + 1, text, s) && r == SomeSuffix(pattern, pos + 1, text, s)
  {
    var p, ahead, next := pattern[pos..], text[s..], pos + 1;
    var rest := pattern[next..];
    assert p[1..] == rest;
    VerdictOf(pattern, pos, text, s, p, ahead);
    StarSuffixes(p, ahead);
    forall k: nat | s <= k <= |text|
      ensures Verdict(pattern, next, text, k).Some? && Verdict(pattern, next, text, k) == Some(Matches(rest, ahead[k - s..]))
    {
      SuffixVerdict(pattern, next, text, s, k, rest, ahead);
    }
    if r {
      var k :| 0 <= k <= |ahead| && Matches(rest, ahead[k..]);
      assert Verdict(pattern, next, text, s + k) == Some(true);
    }
  }

  lemma OneRound(pattern: Text, pos: nat, text: Text, s: nat, r: bool)
    requires pos < |pattern| && s <= |text| && Verdict(pattern, pos, text, s) == Some(r)
    requires pattern[pos] != STAR && pattern[pos] != OPEN
    ensures if s < |text| && (pattern[pos] == QUESTION || text[s] == pattern[pos])
            then Verdict(pattern, pos + 1, text, s + 1) == Some(r) else !r
  {
    var p, ahead := pattern[pos..], text[s..];
    ParseHead(p);
    VerdictOf(pattern, pos, text, s, p, ahead);
    if s < |text| {
      assert p[1..] == pattern[pos + 1..] && ahead[1..] == text[s + 1..];
      VerdictOf(pattern, pos + 1, text, s + 1, p[1..], ahead[1..]);
    }
  }

  lemma SetSlices(pattern: Text, pos: nat, k: nat)
    requires pos + k + 1 < |pattern|
    ensures var p := pattern[pos..];
            p[1..] == pattern[pos + 1..] && p[1..k + 1] == pattern[pos + 1..][..k] && p[k + 2..] == pattern[pos + k + 2..]
  {
  }

  lemma SetMeaning(p: Text, ahead: Text, k: nat, body: Text, rest: Text)
    requires p != [] && p[0] == OPEN && ahead != [] && k == FirstClose(p[1..]) && k < |p| - 1
    requires body == p[1..k + 1] && rest == p[k + 2..]
    ensures RunsPast(Parse(p), ahead) <==> InSet(body, ahead[0]) && RunsPast(Parse(rest), ahead[1..])
    ensures Matches(p, ahead) <==> InSet(body, ahead[0]) && Matches(rest, ahead[1..])
  {
    ParseSet(p, k);
  }

  lemma SetVerdict(p: Text, ahead: Text, k: nat, body: Text, rest: Text, tail: Text, r: bool)
    requires p != [] && p[0] == OPEN && ahead != [] && k == FirstClose(p[1..]) && k < |p| - 1
    requires body == p[1..k + 1] && rest == p[k + 2..] && tail == ahead[1..]
    requires Meaning(p, ahead) == Some(r)
    ensures if InSet(body, ahead[0]) then Meaning(rest, tail) == Some(r) else !r
  {
    MeaningOf(p, ahead);
    MeaningOf(rest, tail);
    SetMeaning(p, ahead, k, body, rest);
  }

  lemma SetRound(pattern: Text, pos: nat, text: Text, s: nat, r: bool, k: nat)
    requires pos < |pattern| && s < |text| && pattern[pos] == OPEN && Verdict(pattern, pos, text, s) == Some(r)
    requires k == FirstClose(pattern[pos + 1..]) && pos + 1 + k < |pattern|
    ensures if InSet(pattern[pos + 1..][..k], text[s]) then Verdict(pattern, pos + k + 2, text, s + 1) == Some(r) else !r
  {
    var p, ahead := pattern[pos..], text[s..];
    var body, rest, tail := pattern[pos + 1..][..k], pattern[pos + k + 2..], text[s + 1..];
    SetSlices(pattern, pos, k);
    assert ahead[1..] == tail;
    VerdictIsMeaning(pattern, pos, text, s, p, ahead);
    VerdictIsMeaning(pattern, pos + k + 2, text, s + 1, rest, tail);
    SetVerdict(p, ahead, k, body, rest, tail, r);
  }

  lemma OpenRound(pattern: Text, pos: nat, text: Text, s: nat, r: bool)
    requires pos < |pattern| && s <= |text| && pattern[pos] == OPEN && Verdict(pattern, pos, text, s) == Some(r)
    ensures s == |text| ==> !r
    ensures s < |text| && !Closed(pattern, pos + 1) ==> !r && !RunsPastEnd(Body(pattern, pos + 1), text[s])
  {
    var p, ahead := pattern[pos..], text[s..];
    assert p[1..] == pattern[pos + 1..];
    ParseSet(p, FirstClose(p[1..]));
    VerdictOf(pattern, pos, text, s, p, ahead);
    if !Closed(pattern, pos + 1) {
      assert Body(pattern, pos + 1) == p[1..];
    }
  }

  /** `*`: zero or more characters are skipped, as few as possible. */
  method MatchStar(text: Text, from: nat, pattern: Text, start: nat) returns (r: bool)
    requires from <= |text| && start <= |pattern| && NoZero(text) && NoZero(pattern)
    requires Decided(pattern, start, text, from)
    ensures r == SomeSuffix(pattern, start, text, from)
    decreases |pattern| - start, 1
  {
    var s := from;
    while At(text, s) != 0
      invariant from <= s <= |text|
      invariant forall k: nat :: from <= k < s ==> Verdict(pattern, start, text, k) != Some(true)
      decreases |text| - s
    {
      r := MatchFrom(text, s, pattern, start);
      if r {
        return true;
      }
      s := s + 1;
    }
    r := MatchFrom(text, s, pattern, start);
  }

  /** `MetaMatch`: true exactly if the string is in the language of the pattern, wherever the source does not read past
      the end of the pattern. */
  method MetaMatch(text: Text, pattern: Text) returns (r: bool)
    requires NoZero(text) && NoZero(pattern) && !RunsPast(Parse(pattern), text)
    ensures r == Matches(pattern, text)
  {
    VerdictOf(pattern, 0, text, 0, pattern, text);
    r := MatchFrom(text, 0, pattern, 0);
  }

  /** The same for the rest of a string and the rest of a pattern. */
  method MatchFrom(text: Text, from: nat, pattern: Text, start: nat) returns (r: bool)
    requires from <= |text| && start <= |pattern| && NoZero(text) && NoZero(pattern)
    requires Verdict(pattern, start, text, from).Some?
    ensures Verdict(pattern, start, text, from) == Some(r)
    decreases |pattern| - start, 0
  {
    ghost var verdict := Verdict(pattern, start, text, from).value;
    var s, pos := from, start;
    while true
      invariant from <= s <= |text| && start <= pos <= |pattern|
      invariant Verdict(pattern, pos, text, s) == Some(verdict)
      decreases |pattern| - pos
    {
      var p := At(pattern, pos);
      if p == 0 {
        EndRound(pattern, text, s, verdict);
        return s == |text|;
      }
      pos := pos + 1;
      if p == STAR {
        StarRound(pattern, pos - 1, text, s, verdict);
        r := MatchStar(text, s, pattern, pos);
        return;
      } else if p == QUESTION {
        OneRound(pattern, pos - 1, text, s, verdict);
        if At(text, s) == 0 {
          return false;
        }
        s := s + 1;
      } else if p == OPEN {
        OpenRound(pattern, pos - 1, text, s, verdict);
        var c := At(text, s);
        if c == 0 {
          return false;
        }
        if Closed(pattern, pos) {
          SetRound(pattern, pos - 1, text, s, verdict, FirstClose(pattern[pos..]));
        }
        var matched, next := MatchSet(pattern, pos, c);
        if !matched {
          return false;
        }
        pos := next;
        s := s + 1;
      } else {
        OneRound(pattern, pos - 1, text, s, verdict);
        var c := At(text, s);
        if c != p {
          return false;
        }
        s := s + 1;
      }
    }
  }
}
