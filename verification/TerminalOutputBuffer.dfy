/** The bounded terminal output buffer of src/shared/terminalOutputBuffer.ts.

    A JavaScript string is a sequence of UTF-16 code units; the buffer keeps the tail of
    what was written and never starts that tail in the middle of a surrogate pair. */
module TerminalOutputBuffer {

  type Unit = u: int | 0 <= u < 0x1_0000

  type Text = seq<Unit>

  const MAXIMUM_PENDING_TERMINAL_OUTPUT_CHARACTERS: nat := 512 * 1024

  datatype BoundedTerminalOutput = BoundedTerminalOutput(droppedCharacters: nat, value: Text)

  predicate IsHigh(u: Unit) { 0xd800 <= u <= 0xdbff }

  predicate IsLow(u: Unit) { 0xdc00 <= u <= 0xdfff }

  /** Position i falls between the two halves of a surrogate pair of s. */
  predicate SplitsPair(s: Text, i: int) {
    0 < i < |s| && IsLow(s[i]) && IsHigh(s[i - 1])
  }

  /** No lone surrogate: every text that comes from a Rust string satisfies this. */
  predicate WellFormed(s: Text) {
    && (forall i :: 0 <= i < |s| && IsLow(s[i]) ==> 0 < i && IsHigh(s[i - 1]))
    && (forall i :: 0 <= i < |s| && IsHigh(s[i]) ==> i + 1 < |s| && IsLow(s[i + 1]))
  }

  // ----- Where texts come from -----

  /** UTF-16, section 2.1 of RFC 2781. */
  function Utf16Char(c: char): Text {
    var n := c as int;
    if n < 0x1_0000 then [n] else [0xD800 + (n - 0x1_0000) / 1024, 0xDC00 + (n - 0x1_0000) % 1024]
  }

  function Utf16(s: string): Text {
    if s == "" then [] else Utf16(s[..|s| - 1]) + Utf16Char(s[|s| - 1])
  }

  lemma CharUnits(c: char)
    ensures var u := Utf16Char(c);
            && 1 <= |u| <= 2 && !IsLow(u[0]) && !IsHigh(u[|u| - 1])
            && (|u| == 2 ==> IsHigh(u[0]) && IsLow(u[1]))
            && (|u| == 2 <==> c as int >= 0x1_0000)
  {
  }

  lemma WellFormedConcat(a: Text, b: Text)
    requires WellFormed(a) && WellFormed(b)
    ensures WellFormed(a + b) && !SplitsPair(a + b, |a|)
  {
  }

  /** The text of a Rust string has no lone surrogate. */
  lemma {:induction false} RustTextIsWellFormed(s: string)
    ensures WellFormed(Utf16(s))
  {
    if s != "" {
      RustTextIsWellFormed(s[..|s| - 1]);
      CharIsWellFormed(s[|s| - 1]);
      WellFormedConcat(Utf16(s[..|s| - 1]), Utf16Char(s[|s| - 1]));
    }
  }

  /** The cuts inside a surrogate pair are those inside a character. */
  lemma PairsAreCharacters(a: string, c: char, b: string)
    ensures var s, i := Utf16(a) + Utf16Char(c) + Utf16(b), |Utf16(a)|;
            !SplitsPair(s, i) && (SplitsPair(s, i + 1) <==> c as int >= 0x1_0000)
  {
    hide SplitsPair, WellFormed, Utf16, Utf16Char, IsHigh, IsLow;
    var x, y, z := Utf16(a), Utf16Char(c), Utf16(b);
    RustTextIsWellFormed(a);
    RustTextIsWellFormed(b);
    CharIsWellFormed(c);
    CharUnits(c);
    WellFormedConcat(y, z);
    WellFormedConcat(x, y + z);
    WellFormedConcat(x, y);
    WellFormedConcat(x + y, z);
    assert x + (y + z) == x + y + z;
    if |y| == 2 {
      assert (x + y + z)[|x|] == y[0] && (x + y + z)[|x| + 1] == y[1];
      PairAt(x + y + z, |x|);
    } else {
      assert |x + y| == |x| + 1;
    }
  }

  lemma CharIsWellFormed(c: char)
    ensures WellFormed(Utf16Char(c))
  {
  }

  lemma PairAt(s: Text, i: nat)
    requires i + 1 < |s| && IsHigh(s[i]) && IsLow(s[i + 1])
    ensures SplitsPair(s, i + 1)
  {
  }

  function SafeTailStart(value: Text, requestedStart: int): (start: nat)
    ensures start <= |value|
  {
    var clamped := if requestedStart < 0 then 0
                   else if requestedStart > |value| then |value|
                   else requestedStart;
    if SplitsPair(value, clamped) then clamped + 1 else clamped
  }

  /** `maximumCharacters` is the floor of the source's number, which may be negative. */
  function AppendBounded(current: Text, incoming: Text, maximumCharacters: int): (r: BoundedTerminalOutput)
    ensures |r.value| <= if maximumCharacters < 0 then 0 else maximumCharacters
    ensures r.droppedCharacters + |r.value| == |current| + |incoming|
    ensures r.value == (current + incoming)[r.droppedCharacters..]
  {
    var limit := if maximumCharacters < 0 then 0 else maximumCharacters;
    if limit == 0 then
      BoundedTerminalOutput(|current| + |incoming|, [])
    else if |current| + |incoming| <= limit then
      BoundedTerminalOutput(0, current + incoming)
    else if |incoming| >= limit then
      var start := SafeTailStart(incoming, |incoming| - limit);
      BoundedTerminalOutput(|current| + start, incoming[start..])
    else
      var start := SafeTailStart(current, |current| - (limit - |incoming|));
      BoundedTerminalOutput(start, current[start..] + incoming)
  }

  // ----- What the buffer is for: the longest tail that fits and splits no pair -----

  predicate IsTailAt(s: Text, limit: nat, start: nat) {
    && start <= |s|
    && |s| - start <= limit
    && !SplitsPair(s, start)
  }

  predicate IsLongestTailAt(s: Text, limit: nat, start: nat) {
    && IsTailAt(s, limit, start)
    && forall other: nat :: IsTailAt(s, limit, other) ==> start <= other
  }

  lemma PairsInSuffix(s: Text, start: nat, i: nat)
    requires start < i <= |s|
    ensures SplitsPair(s[start..], i - start) <==> SplitsPair(s, i)
  {
  }

  lemma PairsInPrefix(s: Text, t: Text, i: nat)
    requires i < |s|
    ensures SplitsPair(s + t, i) <==> SplitsPair(s, i)
  {
  }

  lemma NoPairAtStart(s: Text)
    ensures !SplitsPair(s, 0)
  {
  }

  /** Where an append cuts: at the limit, or one unit later if that would split a pair. */
  lemma DroppedUnits(current: Text, incoming: Text, limit: nat)
    ensures var s, cut := current + incoming, |current| + |incoming| - limit;
            AppendBounded(current, incoming, limit).droppedCharacters
            == if limit == 0 then |s| else if cut <= 0 then 0
               else if SplitsPair(s, cut) && |incoming| != limit then cut + 1 else cut
  {
    hide SplitsPair;
    var s, cut := current + incoming, |current| + |incoming| - limit;
    if limit > 0 && cut > 0 {
      if |incoming| > limit {
        assert s[|current|..] == incoming;
        PairsInSuffix(s, |current|, cut);
      } else if |incoming| == limit {
        NoPairAtStart(incoming);
      } else {
        PairsInPrefix(current, incoming, cut);
      }
    }
  }

  lemma EmptyTail(s: Text)
    ensures IsLongestTailAt(s, 0, |s|)
  {
  }

  lemma WholeTail(s: Text, limit: nat)
    requires |s| <= limit
    ensures IsLongestTailAt(s, limit, 0)
  {
  }

  lemma SplitIsNoTail(s: Text, limit: nat, start: nat)
    requires SplitsPair(s, start)
    ensures !IsLongestTailAt(s, limit, start)
  {
  }

  lemma CutTail(s: Text, limit: nat, cut: nat)
    requires limit > 0 && cut == |s| - limit
    ensures IsLongestTailAt(s, limit, if SplitsPair(s, cut) then cut + 1 else cut)
  {
  }

  /** One append keeps exactly the longest admissible tail of everything seen, unless the
      boundary between the two arguments falls inside a surrogate pair and the incoming
      text is exactly as long as the limit. */
  lemma AppendKeepsLongestTail(current: Text, incoming: Text, limit: nat)
    ensures IsLongestTailAt(current + incoming, limit, AppendBounded(current, incoming, limit).droppedCharacters)
            <==> !(|incoming| == limit && limit > 0 && SplitsPair(current + incoming, |current|))
  {
    hide SplitsPair, AppendBounded, IsLongestTailAt;
    var s := current + incoming;
    var cut := |s| - limit;
    DroppedUnits(current, incoming, limit);
    if limit == 0 {
      EmptyTail(s);
    } else if cut <= 0 {
      WholeTail(s, limit);
      NoPairAtStart(s);
    } else if |incoming| == limit && SplitsPair(s, cut) {
      SplitIsNoTail(s, limit, cut);
    } else {
      CutTail(s, limit, cut);
    }
  }

  lemma LongestTailIsUnique(s: Text, limit: nat, a: nat, b: nat)
    requires IsLongestTailAt(s, limit, a) && IsLongestTailAt(s, limit, b)
    ensures a == b
  {
  }

  // ----- Independence from chunking -----

  function Concat(chunks: seq<Text>): Text {
    if chunks == [] then [] else Concat(chunks[..|chunks| - 1]) + chunks[|chunks| - 1]
  }

  /** Appending the chunks one after the other, adding up what was dropped. */
  function AppendAll(chunks: seq<Text>, limit: nat): (r: BoundedTerminalOutput)
    ensures |r.value| <= limit
    ensures r.droppedCharacters + |r.value| == |Concat(chunks)|
  {
    if chunks == [] then
      BoundedTerminalOutput(0, [])
    else
      var before := AppendAll(chunks[..|chunks| - 1], limit);
      var step := AppendBounded(before.value, chunks[|chunks| - 1], limit);
      BoundedTerminalOutput(before.droppedCharacters + step.droppedCharacters, step.value)
  }

  lemma ConcatPairIsWellFormed(a: Text, b: Text)
    requires WellFormed(a) && WellFormed(b)
    ensures WellFormed(a + b)
    ensures !SplitsPair(a + b, |a|)
  {
  }

  lemma {:induction false} ConcatIsWellFormed(chunks: seq<Text>)
    requires forall c :: c in chunks ==> WellFormed(c)
    ensures WellFormed(Concat(chunks))
  {
    if chunks != [] {
      ConcatIsWellFormed(chunks[..|chunks| - 1]);
      ConcatPairIsWellFormed(Concat(chunks[..|chunks| - 1]), chunks[|chunks| - 1]);
    }
  }

  lemma TailInPrefix(s: Text, t: Text, limit: nat, start: nat)
    requires start < |s| && IsTailAt(s + t, limit, start)
    ensures IsTailAt(s, limit, start)
  {
  }

  lemma TailBeforePair(s: Text, incoming: Text, limit: nat, start: nat)
    requires IsLongestTailAt(s, limit, start) && SplitsPair(s + incoming, |s|)
    ensures |incoming| > 0 && (start < |s| || limit == 0)
  {
    if limit > 0 {
      assert IsTailAt(s, limit, |s| - 1);
    }
  }

  /** The tail of a tail: dropping a first part early never changes the final tail. */
  lemma AppendToTail(s: Text, start: nat, incoming: Text, limit: nat)
    requires !(|incoming| == limit > 0 && SplitsPair(s + incoming, |s|))
    requires IsLongestTailAt(s, limit, start)
    ensures var r := AppendBounded(s[start..], incoming, limit);
            IsLongestTailAt(s + incoming, limit, start + r.droppedCharacters)
            && r.value == (s + incoming)[start + r.droppedCharacters..]
  {
    hide SplitsPair, IsLongestTailAt, AppendBounded;
    LongestIsTail(s, limit, start);
    var kept, whole := s[start..], s + incoming;
    var dropped := AppendBounded(kept, incoming, limit).droppedCharacters;
    assert kept + incoming == whole[start..];
    assert SplitsPair(whole[start..], |kept|) ==> SplitsPair(whole, |s|) by {
      if |kept| > 0 { PairsInSuffix(whole, start, |s|); } else { NoPairAtStart(whole[start..]); }
    }
    AppendKeepsLongestTail(kept, incoming, limit);
    if SplitsPair(whole, |s|) {
      TailBeforePair(s, incoming, limit, start);
    }
    if start < |s| {
      PairsInPrefix(s, incoming, start);
    }
    assert dropped == 0 ==> !SplitsPair(whole, start);
    TailOfTail(s, incoming, start, limit, dropped);
  }

  lemma LongestIsTail(s: Text, limit: nat, start: nat)
    requires IsLongestTailAt(s, limit, start)
    ensures IsTailAt(s, limit, start)
  {
  }

  lemma TailOfTail(s: Text, incoming: Text, start: nat, limit: nat, dropped: nat)
    requires start <= |s| && IsLongestTailAt(s, limit, start)
    requires IsLongestTailAt((s + incoming)[start..], limit, dropped)
    requires dropped == 0 ==> !SplitsPair(s + incoming, start)
    ensures IsLongestTailAt(s + incoming, limit, start + dropped)
  {
    hide SplitsPair;
    var whole := s + incoming;
    if dropped > 0 {
      PairsInSuffix(whole, start, start + dropped);
    }
    forall other: nat | IsTailAt(whole, limit, other)
      ensures start + dropped <= other
    {
      if other < start {
        TailInPrefix(s, incoming, limit, other);
      } else {
        if other > start { PairsInSuffix(whole, start, other); } else { NoPairAtStart(whole[start..]); }
        assert IsTailAt(whole[start..], limit, other - start);
      }
    }
  }

  lemma OneAppendIsLongestTail(s: Text, limit: nat)
    ensures IsLongestTailAt(s, limit, AppendBounded([], s, limit).droppedCharacters)
    ensures AppendBounded([], s, limit).value == s[AppendBounded([], s, limit).droppedCharacters..]
  {
  }

  lemma NoTextHasNoTail(limit: nat)
    ensures IsLongestTailAt([], limit, 0)
  {
  }

  /** Main result: any well-formed chunking of a text leaves the same buffer, namely the
      longest tail of the whole text within the limit, and the same count of dropped units. */
  lemma {:induction false} ChunkingIndependent(chunks: seq<Text>, limit: nat)
    requires forall c :: c in chunks ==> WellFormed(c)
    ensures AppendAll(chunks, limit) == AppendBounded([], Concat(chunks), limit)
    ensures IsLongestTailAt(Concat(chunks), limit, AppendAll(chunks, limit).droppedCharacters)
    ensures AppendAll(chunks, limit).value == Concat(chunks)[AppendAll(chunks, limit).droppedCharacters..]
  {
    hide SplitsPair, WellFormed, IsTailAt, IsLongestTailAt, AppendBounded;
    var whole := Concat(chunks);
    if chunks == [] {
      NoTextHasNoTail(limit);
    } else {
      var init, last := chunks[..|chunks| - 1], chunks[|chunks| - 1];
      ChunkingIndependent(init, limit);
      ConcatIsWellFormed(init);
      ConcatPairIsWellFormed(Concat(init), last);
      AppendToTail(Concat(init), AppendAll(init, limit).droppedCharacters, last, limit);
    }
    OneAppendIsLongestTail(whole, limit);
    LongestTailIsUnique(whole, limit, AppendAll(chunks, limit).droppedCharacters,
                        AppendBounded([], whole, limit).droppedCharacters);
  }

  /** Two chunks need not be well formed one by one: they are kept like their
      concatenation unless the second is as long as the limit and starts inside a pair. */
  lemma TwoChunks(a: Text, b: Text, limit: nat)
    ensures AppendAll([a, b], limit) == AppendBounded([], a + b, limit)
            <==> !(|b| == limit > 0 && SplitsPair(a + b, |a|))
  {
    hide SplitsPair, IsLongestTailAt, IsTailAt, AppendBounded;
    var first, joined := AppendBounded([], a, limit), AppendBounded([], a + b, limit);
    var all := AppendAll([a, b], limit);
    OneChunk(a, limit);
    assert [a, b][..1] == [a];
    OneAppendIsLongestTail(a, limit);
    OneAppendIsLongestTail(a + b, limit);
    if |b| == limit > 0 && SplitsPair(a + b, |a|) {
      CutAtLimit(a, b, limit);
    } else {
      AppendToTail(a, first.droppedCharacters, b, limit);
      LongestTailIsUnique(a + b, limit, all.droppedCharacters, joined.droppedCharacters);
    }
  }

  lemma OneChunk(a: Text, limit: nat)
    ensures AppendAll([a], limit) == AppendBounded([], a, limit)
  {
    assert [a][..0] == [];
  }

  /** A second chunk that fills the limit is kept whole, but not the lone half of a pair. */
  lemma CutAtLimit(a: Text, b: Text, limit: nat)
    requires |b| == limit > 0 && SplitsPair(a + b, |a|)
    ensures AppendAll([a, b], limit).value != AppendBounded([], a + b, limit).value
  {
    OneChunk(a, limit);
    assert [a, b][..1] == [a];
    OneAppendIsLongestTail(a + b, limit);
    assert |AppendBounded([], a + b, limit).value| < limit;
    var current := AppendBounded([], a, limit).value;
    assert |AppendBounded(current, b, limit).value| == limit;
  }

  /** A pair cut in two by the writer is the failing case. */
  lemma CutPairBreaksChunking()
    ensures AppendAll([[0xd83d], [0xde00]], 1) != AppendBounded([], [0xd83d, 0xde00], 1)
  {
  }
}
