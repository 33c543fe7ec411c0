/** The log filter matcher of src/logging.rs. */
module Wildcard {
  import opened Prelude

  const STAR: Byte := 42
  const QUESTION: Byte := 63

  // ----- what a pattern means

  /** The byte strings that one pattern byte stands for. */
  predicate Fits(piece: seq<Byte>, p: Byte) {
    if p == STAR then true
    else if p == QUESTION then |piece| == 1
    else piece == [p]
  }

  /** `pieces` cuts `text` into one fitting piece for every pattern byte. */
  ghost predicate Cuts(text: seq<Byte>, pattern: seq<Byte>, pieces: seq<seq<Byte>>) {
    && |pieces| == |pattern|
    && Flatten(pieces) == text
    && forall i :: 0 <= i < |pattern| ==> Fits(pieces[i], pattern[i])
  }

  ghost predicate Matches(text: seq<Byte>, pattern: seq<Byte>) {
    exists pieces :: Cuts(text, pattern, pieces)
  }

  ghost predicate MatchesPrefix(text: seq<Byte>, pattern: seq<Byte>) {
    exists end :: 0 <= end <= |text| && Matches(text[..end], pattern)
  }

  ghost predicate MatchesSubstring(text: seq<Byte>, pattern: seq<Byte>) {
    exists start, end :: 0 <= start <= end <= |text| && Matches(text[start..end], pattern)
  }

  // ----- the same meaning, read off the pattern from the left

  predicate Accepts(p: Byte, b: Byte) {
    p == QUESTION || p == b
  }

  ghost predicate Prefix(text: seq<Byte>, pattern: seq<Byte>)
    decreases |pattern|
  {
    if pattern == [] then true
    else if pattern[0] == STAR then exists k :: 0 <= k <= |text| && Prefix(text[k..], pattern[1..])
    else text != [] && Accepts(pattern[0], text[0]) && Prefix(text[1..], pattern[1..])
  }

  lemma {:induction false} PrefixHasCuts(text: seq<Byte>, pattern: seq<Byte>)
    requires Prefix(text, pattern)
    ensures MatchesPrefix(text, pattern)
    decreases |pattern|
  {
    if pattern == [] {
      assert Cuts(text[..0], pattern, []);
    } else {
      var k := 1;
      if pattern[0] == STAR {
        k :| 0 <= k <= |text| && Prefix(text[k..], pattern[1..]);
      }
      PrefixHasCuts(text[k..], pattern[1..]);
      var end :| 0 <= end <= |text[k..]| && Matches(text[k..][..end], pattern[1..]);
      var pieces :| Cuts(text[k..][..end], pattern[1..], pieces);
      var all := [text[..k]] + pieces;
      assert all[1..] == pieces;
      assert text[..k] + text[k..][..end] == text[..k + end];
      assert Cuts(text[..k + end], pattern, all);
    }
  }

  lemma {:induction false} CutsArePrefix(text: seq<Byte>, pattern: seq<Byte>, pieces: seq<seq<Byte>>, rest: seq<Byte>)
    requires Cuts(text, pattern, pieces)
    ensures Prefix(text + rest, pattern)
    decreases |pattern|
  {
    if pattern != [] {
      var k := |pieces[0]|;
      var tail := Flatten(pieces[1..]);
      assert text == pieces[0] + tail;
      CutsArePrefix(tail, pattern[1..], pieces[1..], rest);
      assert (text + rest)[k..] == tail + rest;
      assert Fits(pieces[0], pattern[0]);
    }
  }

  lemma PrefixIsMatchesPrefix(text: seq<Byte>, pattern: seq<Byte>)
    ensures Prefix(text, pattern) <==> MatchesPrefix(text, pattern)
  {
    if Prefix(text, pattern) {
      PrefixHasCuts(text, pattern);
    }
    if MatchesPrefix(text, pattern) {
      var end :| 0 <= end <= |text| && Matches(text[..end], pattern);
      var pieces :| Cuts(text[..end], pattern, pieces);
      CutsArePrefix(text[..end], pattern, pieces, text[end..]);
      assert text[..end] + text[end..] == text;
    }
  }

  // ----- the matcher, which remembers only the last star

  /** Star-free pattern bytes accept the text at `at` one for one. */
  ghost predicate Literal(text: seq<Byte>, segment: seq<Byte>) {
    |segment| <= |text| && forall m :: 0 <= m < |segment| ==> segment[m] != STAR && Accepts(segment[m], text[m])
  }

  ghost predicate PrefixFrom(text: seq<Byte>, start: nat, pattern: seq<Byte>) {
    exists k :: start <= k <= |text| && Prefix(text[k..], pattern)
  }

  lemma {:induction false} SkipLiteral(text: seq<Byte>, segment: seq<Byte>, pattern: seq<Byte>)
    requires Literal(text, segment)
    ensures Prefix(text, segment + pattern) <==> Prefix(text[|segment|..], pattern)
    decreases |segment|
  {
    if segment == [] {
      assert segment + pattern == pattern;
    } else {
      var whole := segment + pattern;
      assert whole[0] == segment[0] && whole[1..] == segment[1..] + pattern;
      SkipLiteral(text[1..], segment[1..], pattern);
      assert text[1..][|segment[1..]|..] == text[|segment|..];
    }
  }

  lemma {:induction false} StarFreeConsumes(text: seq<Byte>, segment: seq<Byte>, pattern: seq<Byte>)
    requires forall m :: 0 <= m < |segment| ==> segment[m] != STAR
    requires Prefix(text, segment + pattern)
    ensures |segment| <= |text| && Prefix(text[|segment|..], pattern)
    decreases |segment|
  {
    if segment == [] {
      assert segment + pattern == pattern;
    } else {
      var whole := segment + pattern;
      assert whole[0] == segment[0] && whole[1..] == segment[1..] + pattern;
      StarFreeConsumes(text[1..], segment[1..], pattern);
      assert text[1..][|segment[1..]|..] == text[|segment|..];
    }
  }

  /** A later star makes every earlier choice irrelevant: the leftmost fit of the segment is as good as any other. */
  lemma NextStarSubsumes(text: seq<Byte>, start: nat, segment: seq<Byte>, pattern: seq<Byte>)
    requires start <= |text| && Literal(text[start..], segment)
    requires pattern != [] && pattern[0] == STAR
    ensures PrefixFrom(text, start, segment + pattern) <==> PrefixFrom(text, start + |segment|, pattern[1..])
  {
    var at := start + |segment|;
    SkipLiteral(text[start..], segment, pattern);
    assert text[start..][|segment|..] == text[at..];
    if PrefixFrom(text, start, segment + pattern) {
      var k :| start <= k <= |text| && Prefix(text[k..], segment + pattern);
      StarFreeConsumes(text[k..], segment, pattern);
      assert text[k..][|segment|..] == text[k + |segment|..];
      var n :| 0 <= n <= |text[k + |segment|..]| && Prefix(text[k + |segment|..][n..], pattern[1..]);
      assert text[k + |segment|..][n..] == text[k + |segment| + n..];
    }
    if PrefixFrom(text, at, pattern[1..]) {
      var k :| at <= k <= |text| && Prefix(text[k..], pattern[1..]);
      assert text[at..][k - at..] == text[k..];
      assert Prefix(text[at..], pattern);
    }
  }

  lemma StarAbsorbs(text: seq<Byte>, start: nat, pattern: seq<Byte>)
    requires start <= |text| && pattern != [] && pattern[0] == STAR
    ensures Prefix(text[start..], pattern) <==> PrefixFrom(text, start, pattern[1..])
  {
    if Prefix(text[start..], pattern) {
      var k :| 0 <= k <= |text[start..]| && Prefix(text[start..][k..], pattern[1..]);
      assert text[start..][k..] == text[start + k..];
    }
    if PrefixFrom(text, start, pattern[1..]) {
      var k :| start <= k <= |text| && Prefix(text[k..], pattern[1..]);
      assert text[start..][k - start..] == text[k..];
    }
  }

  /** What the matcher knows: the text before `starTextIndex` is spent, and the segment since the last star fits. */
  ghost predicate Known(text: seq<Byte>, pattern: seq<Byte>, textIndex: int, patternIndex: int,
                        lastStar: Option<nat>, starTextIndex: int)
  {
    && 0 <= starTextIndex <= textIndex <= |text|
    && 0 <= patternIndex <= |pattern|
    && match lastStar
       case None => Prefix(text, pattern) <==> Prefix(text[textIndex..], pattern[patternIndex..])
       case Some(star) =>
         && star < patternIndex
         && textIndex - starTextIndex == patternIndex - star - 1
         && Literal(text[starTextIndex..], pattern[star + 1..patternIndex])
         && (Prefix(text, pattern) <==> PrefixFrom(text, starTextIndex, pattern[star + 1..]))
  }

  lemma KnownAtFirst(text: seq<Byte>, pattern: seq<Byte>)
    ensures Known(text, pattern, 0, 0, None, 0)
  {
    assert text[0..] == text && pattern[0..] == pattern;
  }

  lemma KnownHere(text: seq<Byte>, pattern: seq<Byte>, textIndex: int, patternIndex: int,
                  star: nat, starTextIndex: int)
    requires Known(text, pattern, textIndex, patternIndex, Some(star), starTextIndex)
    ensures Prefix(text[starTextIndex..], pattern[star + 1..]) <==> Prefix(text[textIndex..], pattern[patternIndex..])
  {
    var segment := pattern[star + 1..patternIndex];
    assert segment + pattern[patternIndex..] == pattern[star + 1..];
    SkipLiteral(text[starTextIndex..], segment, pattern[patternIndex..]);
    assert text[starTextIndex..][|segment|..] == text[textIndex..];
  }

  lemma EndOfPattern(text: seq<Byte>, pattern: seq<Byte>, textIndex: int, patternIndex: int,
                     lastStar: Option<nat>, starTextIndex: int)
    requires Known(text, pattern, textIndex, patternIndex, lastStar, starTextIndex)
    requires patternIndex == |pattern|
    ensures Prefix(text, pattern)
  {
    assert Prefix(text[textIndex..], pattern[patternIndex..]);
    if lastStar.Some? {
      KnownHere(text, pattern, textIndex, patternIndex, lastStar.value, starTextIndex);
    }
  }

  lemma OnStar(text: seq<Byte>, pattern: seq<Byte>, textIndex: int, patternIndex: int,
               lastStar: Option<nat>, starTextIndex: int)
    requires Known(text, pattern, textIndex, patternIndex, lastStar, starTextIndex)
    requires patternIndex < |pattern| && pattern[patternIndex] == STAR
    ensures Known(text, pattern, textIndex, patternIndex + 1, Some(patternIndex), textIndex)
  {
    var rest := pattern[patternIndex..];
    assert rest[1..] == pattern[patternIndex + 1..];
    if lastStar.Some? {
      var segment := pattern[lastStar.value + 1..patternIndex];
      assert segment + rest == pattern[lastStar.value + 1..];
      NextStarSubsumes(text, starTextIndex, segment, rest);
    } else {
      StarAbsorbs(text, textIndex, rest);
    }
    assert pattern[patternIndex + 1..patternIndex + 1] == [];
    assert Literal(text[textIndex..], []);
  }

  lemma OnAccept(text: seq<Byte>, pattern: seq<Byte>, textIndex: int, patternIndex: int,
                 lastStar: Option<nat>, starTextIndex: int)
    requires Known(text, pattern, textIndex, patternIndex, lastStar, starTextIndex)
    requires patternIndex < |pattern| && pattern[patternIndex] != STAR
    requires textIndex < |text| && Accepts(pattern[patternIndex], text[textIndex])
    ensures Known(text, pattern, textIndex + 1, patternIndex + 1, lastStar, starTextIndex)
  {
    if lastStar.None? {
      assert pattern[patternIndex..][1..] == pattern[patternIndex + 1..];
      assert text[textIndex..][1..] == text[textIndex + 1..];
    } else {
      var star := lastStar.value;
      assert pattern[star + 1..patternIndex + 1] == pattern[star + 1..patternIndex] + [pattern[patternIndex]];
      LongerLiteral(text[starTextIndex..], pattern[star + 1..patternIndex], pattern[patternIndex]);
    }
  }

  lemma LongerLiteral(text: seq<Byte>, segment: seq<Byte>, p: Byte)
    requires Literal(text, segment) && |segment| < |text| && p != STAR && Accepts(p, text[|segment|])
    ensures Literal(text, segment + [p])
  {
  }

  /** A mismatch rules out the current place for the segment since the last star, and no other. */
  lemma OnMismatch(text: seq<Byte>, pattern: seq<Byte>, textIndex: int, patternIndex: int,
                   lastStar: Option<nat>, starTextIndex: int)
    requires Known(text, pattern, textIndex, patternIndex, lastStar, starTextIndex)
    requires patternIndex < |pattern| && pattern[patternIndex] != STAR
    requires textIndex < |text| ==> !Accepts(pattern[patternIndex], text[textIndex])
    ensures lastStar.None? || starTextIndex == |text| ==> !Prefix(text, pattern)
    ensures lastStar.Some? && starTextIndex < |text| ==>
              Known(text, pattern, starTextIndex + 1, lastStar.value + 1, lastStar, starTextIndex + 1)
  {
    assert !Prefix(text[textIndex..], pattern[patternIndex..]);
    if lastStar.Some? {
      var star := lastStar.value;
      KnownHere(text, pattern, textIndex, patternIndex, star, starTextIndex);
      assert !Prefix(text[starTextIndex..], pattern[star + 1..]);
      assert pattern[star + 1..star + 1] == [];
      assert Literal(text[starTextIndex..], []);
      if starTextIndex < |text| {
        NotHere(text, starTextIndex, pattern[star + 1..]);
        assert Literal(text[starTextIndex + 1..], pattern[star + 1..star + 1]);
      }
    }
  }

  lemma NotHere(text: seq<Byte>, start: nat, pattern: seq<Byte>)
    requires start < |text| && !Prefix(text[start..], pattern)
    ensures PrefixFrom(text, start, pattern) <==> PrefixFrom(text, start + 1, pattern)
  {
  }

  method MatchesPrefixGreedily(text: seq<Byte>, pattern: seq<Byte>) returns (matched: bool)
    ensures matched <==> MatchesPrefix(text, pattern)
  {
    hide Known, Prefix, PrefixFrom, Literal, MatchesPrefix;
    PrefixIsMatchesPrefix(text, pattern);
    KnownAtFirst(text, pattern);
    var textIndex, patternIndex := 0, 0;
    var lastStar: Option<nat> := None;
    var starTextIndex := 0;
    while true
      invariant Known(text, pattern, textIndex, patternIndex, lastStar, starTextIndex)
      invariant 0 <= starTextIndex <= textIndex <= |text| && 0 <= patternIndex <= |pattern|
      invariant lastStar.Some? ==> lastStar.value < patternIndex
      decreases if lastStar.None? then |pattern| + 1 else |pattern| - lastStar.value,
                |text| - starTextIndex, |pattern| - patternIndex
    {
      if patternIndex == |pattern| {
        EndOfPattern(text, pattern, textIndex, patternIndex, lastStar, starTextIndex);
        return true;
      }
      if pattern[patternIndex] == STAR {
        OnStar(text, pattern, textIndex, patternIndex, lastStar, starTextIndex);
        lastStar := Some(patternIndex);
        patternIndex := patternIndex + 1;
        starTextIndex := textIndex;
        continue;
      }
      if textIndex < |text| && (pattern[patternIndex] == QUESTION || pattern[patternIndex] == text[textIndex]) {
        OnAccept(text, pattern, textIndex, patternIndex, lastStar, starTextIndex);
        patternIndex := patternIndex + 1;
        textIndex := textIndex + 1;
        continue;
      }
      OnMismatch(text, pattern, textIndex, patternIndex, lastStar, starTextIndex);
      if lastStar.None? {
        return false;
      }
      if starTextIndex == |text| {
        return false;
      }
      starTextIndex := starTextIndex + 1;
      textIndex := starTextIndex;
      patternIndex := lastStar.value + 1;
    }
  }
}
