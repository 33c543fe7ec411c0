/** How the output of a JVM is cut into lines: `spawn_reader` in src/supervisor.rs. */
module OutputSplitter {
  import opened Prelude

  const MAX_OUTPUT_LINE: nat := 64 * 1024

  /** What one read of the pipe brings; after the last one the pipe is at its end. */
  datatype PipeRead = Data(bytes: seq<Byte>) | Interrupted | Failed

  /** Everything that is read before the pipe ends or fails. */
  function Stream(pipe: seq<PipeRead>): seq<Byte> {
    if pipe == [] || pipe[0].Failed? || pipe[0] == Data([]) then []
    else (if pipe[0].Data? then pipe[0].bytes else []) + Stream(pipe[1..])
  }

  // ----- what a stream is cut into

  /** How a line ends: not at all, or with a line feed that may have a carriage return before it. */
  datatype Ending = Unended | Lf | CrLf {
    function Bytes(): seq<Byte> {
      match this
      case Unended => []
      case Lf => [LF]
      case CrLf => [CR, LF]
    }
  }

  datatype Line = Line(content: seq<Byte>, ending: Ending) {
    function Bytes(): seq<Byte> {
      content + ending.Bytes()
    }

    /**
     * The first line of something longer, or, if `last`, of nothing longer: it holds no line feed, takes its line end
     * whole, exceeds the limit in no case, and goes without a line end only when it is full or the output ends.
     */
    predicate Fits(last: bool) {
      && LF !in content && 0 < |Bytes()| <= MAX_OUTPUT_LINE
      && (ending == Lf ==> content == [] || content[|content| - 1] != CR)
      && (ending == Unended ==> last || |content| == MAX_OUTPUT_LINE)
    }
  }

  predicate AllFit(lines: seq<Line>) {
    forall i :: 0 <= i < |lines| ==> lines[i].Fits(i == |lines| - 1)
  }

  function Joined(lines: seq<Line>): seq<Byte> {
    if lines == [] then [] else lines[0].Bytes() + Joined(lines[1..])
  }

  function Contents(lines: seq<Line>): seq<seq<Byte>> {
    if lines == [] then [] else [lines[0].content] + Contents(lines[1..])
  }

  /** Where the first line feed is, or the length of `s`. */
  function Newline(s: seq<Byte>): (at: nat)
    ensures at <= |s| && LF !in s[..at] && (at < |s| ==> s[at] == LF)
  {
    if s == [] || s[0] == LF then 0
    else
      var at := 1 + Newline(s[1..]);
      assert s[..at] == [s[0]] + s[1..][..at - 1];
      at
  }

  /** How many bytes of `s` its first line takes, its line end included. */
  function FirstLength(s: seq<Byte>): (n: nat)
    ensures n <= |s| && (s != [] ==> n > 0)
  {
    Min(Min(Newline(s) + 1, |s|), MAX_OUTPUT_LINE)
  }

  /** Bytes of which at most the last is a line feed, as a line. */
  function Stripped(bytes: seq<Byte>): Line {
    if bytes == [] || bytes[|bytes| - 1] != LF then Line(bytes, Unended)
    else if |bytes| > 1 && bytes[|bytes| - 2] == CR then Line(bytes[..|bytes| - 2], CrLf)
    else Line(bytes[..|bytes| - 1], Lf)
  }

  function Lines(s: seq<Byte>): seq<Line> {
    if s == [] then [] else [Stripped(s[..FirstLength(s)])] + Lines(s[FirstLength(s)..])
  }

  // ----- the reader

  lemma FirstLineWhole(s: seq<Byte>, n: nat)
    requires 0 < n <= |s| && n <= MAX_OUTPUT_LINE && LF !in s[..n - 1]
    requires s[n - 1] == LF || n == MAX_OUTPUT_LINE || n == |s|
    ensures FirstLength(s) == n && Contents(Lines(s)) == [Stripped(s[..n]).content] + Contents(Lines(s[n..]))
  {
    var at := Newline(s);
    assert forall i :: 0 <= i < n - 1 ==> s[i] == s[..n - 1][i];
    assert forall i :: 0 <= i < at ==> s[i] == s[..at][i];
    hide Newline, Stripped;
    assert ([Stripped(s[..n])] + Lines(s[n..]))[1..] == Lines(s[n..]);
  }

  lemma NextRead(pipe: seq<PipeRead>, next: nat)
    requires next <= |pipe|
    ensures Stream(pipe[next..]) ==
            if next == |pipe| || pipe[next].Failed? || pipe[next] == Data([]) then []
            else if pipe[next].Data? then pipe[next].bytes + Stream(pipe[next + 1..]) else Stream(pipe[next + 1..])
  {
    if next < |pipe| {
      assert pipe[next..][1..] == pipe[next + 1..];
      assert [] + Stream(pipe[next + 1..]) == Stream(pipe[next + 1..]);
    }
  }

  /** The accumulated line and what is still to come, before and after `take` more bytes of the buffer. */
  lemma Taken(line: seq<Byte>, buffer: seq<Byte>, more: seq<Byte>, take: nat)
    requires 0 < take <= |buffer| && LF !in line && take <= Newline(buffer) + 1
    ensures var now := line + buffer[..take];
            && line + (buffer + more) == now + (buffer[take..] + more)
            && LF !in now[..|now| - 1]
            && (now[|now| - 1] == LF <==> take == Newline(buffer) + 1)
  {
    var newline := Newline(buffer);
    var now := line + buffer[..take];
    assert buffer == buffer[..take] + buffer[take..];
    assert now[..|now| - 1] == line + buffer[..take - 1];
    assert buffer[..take - 1] <= buffer[..newline];
    if take < newline + 1 {
      assert buffer[..newline][take - 1] != LF;
    }
  }

  lemma NoEndYet(line: seq<Byte>)
    requires line != [] && LF !in line[..|line| - 1] && line[|line| - 1] != LF
    ensures LF !in line
  {
    assert line == line[..|line| - 1] + [line[|line| - 1]];
  }

  lemma FirstContent(line: seq<Byte>, more: seq<Byte>)
    requires 0 < |line| <= MAX_OUTPUT_LINE && LF !in line[..|line| - 1]
    requires line[|line| - 1] == LF || |line| == MAX_OUTPUT_LINE || more == []
    ensures Contents(Lines(line + more)) == [Stripped(line).content] + Contents(Lines(more))
  {
    var whole := line + more;
    assert whole[..|line|] == line && whole[|line|..] == more && whole[..|line| - 1] == line[..|line| - 1];
    FirstLineWhole(whole, |line|);
  }

  lemma OneLineSent(all: seq<seq<Byte>>, lines: seq<seq<Byte>>, line: seq<Byte>, more: seq<Byte>)
    requires 0 < |line| <= MAX_OUTPUT_LINE && LF !in line[..|line| - 1]
    requires line[|line| - 1] == LF || |line| == MAX_OUTPUT_LINE || more == []
    requires all == lines + Contents(Lines(line + more))
    ensures lines < all && all == lines + [Stripped(line).content] + Contents(Lines([] + more))
  {
    FirstContent(line, more);
    hide *;
    Assoc(lines, [Stripped(line).content], Contents(Lines(more)));
    assert [] + more == more;
  }

  lemma NoLines()
    ensures Lines([]) == [] && Contents([]) == []
  {
  }

  /**
   * Cuts whatever the pipe brings into lines and sends them on, until the pipe ends or nobody receives any more, which
   * is after `wanted` lines. How the bytes were spread over the reads makes no difference.
   */
  method ReadLines(pipe: seq<PipeRead>, wanted: nat) returns (lines: seq<seq<Byte>>, receiverGone: bool)
    ensures !receiverGone ==> lines == Contents(Lines(Stream(pipe))) && |lines| <= wanted
    ensures receiverGone ==> lines < Contents(Lines(Stream(pipe))) && |lines| == wanted
  {
    hide Stream, Lines, Contents, Newline, Stripped;
    lines, receiverGone := [], false;
    var next := 0;
    var buffer: seq<Byte> := [];
    var line: seq<Byte> := [];
    assert pipe[0..] == pipe && [] + ([] + Stream(pipe)) == Stream(pipe);
    NoLines();
    ghost var all := Contents(Lines(Stream(pipe)));
    ghost var more := Stream(pipe);
    while true
      invariant 0 <= next <= |pipe| && more == Stream(pipe[next..])
      invariant |line| < MAX_OUTPUT_LINE && LF !in line && |lines| <= wanted
      invariant all == lines + Contents(Lines(line + (buffer + more)))
      decreases |pipe| - next, |buffer|
    {
      if buffer == [] {
        NextRead(pipe, next);
        assert [] + more == more;
        if next == |pipe| {
          break;
        }
        match pipe[next] {
          case Failed => break;
          case Interrupted =>
            next := next + 1;
            continue;
          case Data(bytes) =>
            if bytes == [] {
              break;
            }
            buffer := bytes;
            next := next + 1;
            more := Stream(pipe[next..]);
        }
      }
      var newline := Newline(buffer);
      var take := if newline < |buffer| then newline + 1 else |buffer|;
      take := Min(take, Max(MAX_OUTPUT_LINE - |line|, 1));
      Taken(line, buffer, more, take);
      line := line + buffer[..take];
      buffer := buffer[take..];
      var complete := line[|line| - 1] == LF;
      if complete || |line| >= MAX_OUTPUT_LINE {
        OneLineSent(all, lines, line, buffer + more);
        var content := WithoutLineEnd(line, complete);
        if |lines| == wanted {
          return lines, true;
        }
        lines := lines + [content];
        line := [];
      } else {
        NoEndYet(line);
      }
    }
    assert more == [] && line + ([] + []) == line;
    if line != [] {
      OneLineSent(all, lines, line, []);
      UnendedContent(line);
      if |lines| == wanted {
        return lines, true;
      }
      lines := lines + [line];
    }
  }

  method WithoutLineEnd(bytes: seq<Byte>, complete: bool) returns (line: seq<Byte>)
    requires bytes != [] && (complete <==> bytes[|bytes| - 1] == LF)
    ensures line == Stripped(bytes).content
  {
    line := bytes;
    if complete {
      line := line[..|line| - 1];
      if line != [] && line[|line| - 1] == CR {
        line := line[..|line| - 1];
      }
    }
  }

  // ----- nothing else could have been sent

  lemma StrippedFits(bytes: seq<Byte>, last: bool)
    requires 0 < |bytes| <= MAX_OUTPUT_LINE && LF !in bytes[..|bytes| - 1]
    requires bytes[|bytes| - 1] == LF || |bytes| == MAX_OUTPUT_LINE || last
    ensures Stripped(bytes).Fits(last) && Stripped(bytes).Bytes() == bytes
  {
    var line := Stripped(bytes);
    assert line.Bytes() == bytes;
    if line.ending == Unended {
      NoEndYet(bytes);
    } else {
      assert line.content <= bytes[..|bytes| - 1];
    }
  }

  lemma FirstFits(s: seq<Byte>)
    requires s != []
    ensures var n := FirstLength(s); Stripped(s[..n]).Fits(n == |s|) && Stripped(s[..n]).Bytes() == s[..n]
  {
    var n := FirstLength(s);
    assert s[..n][..n - 1] == s[..n - 1] <= s[..Newline(s)];
    StrippedFits(s[..n], n == |s|);
  }

  lemma LinesUnfold(s: seq<Byte>)
    requires s != []
    ensures var n := FirstLength(s); Lines(s) == [Stripped(s[..n])] + Lines(s[n..]) && s == s[..n] + s[n..]
  {
    hide Stripped, FirstLength;
    Halves(s, FirstLength(s));
  }

  lemma Halves<T>(s: seq<T>, n: nat)
    requires n <= |s|
    ensures s == s[..n] + s[n..]
  {
  }

  lemma {:induction false} LinesFit(s: seq<Byte>)
    ensures AllFit(Lines(s)) && Joined(Lines(s)) == s && (Lines(s) == [] <==> s == [])
    decreases |s|
  {
    hide Lines, Stripped, FirstLength, AllFit;
    if s == [] {
      NoLines();
      NothingFits();
    } else {
      hide Joined;
      var n := FirstLength(s);
      LinesUnfold(s);
      FirstFits(s);
      LinesFit(s[n..]);
      OneMoreFits(Stripped(s[..n]), Lines(s[n..]));
    }
  }

  lemma NothingFits()
    ensures AllFit([]) && Joined([]) == []
  {
  }

  lemma OneMoreFits(first: Line, rest: seq<Line>)
    requires first.Fits(rest == []) && AllFit(rest)
    ensures AllFit([first] + rest) && Joined([first] + rest) == first.Bytes() + Joined(rest)
  {
    hide Line.Fits;
    assert ([first] + rest)[1..] == rest;
  }

  lemma OneWayToFit(line: Line, rest: seq<Byte>)
    requires line.Fits(rest == [])
    ensures FirstLength(line.Bytes() + rest) == |line.Bytes()| && Stripped(line.Bytes()) == line
  {
    hide Newline, FirstLength;
    var bytes := line.Bytes();
    var n := |bytes|;
    var whole := bytes + rest;
    if line.ending == Unended {
      assert bytes == line.content;
      assert LF !in whole[..n - 1] by { assert whole[..n - 1] <= line.content; }
    } else {
      assert bytes[n - 1] == LF;
      assert LF !in whole[..n - 1] by {
        assert whole[..n - 1] == bytes[..n - 1];
        assert bytes[..n - 1] == line.content + if line.ending == CrLf then [CR] else [];
      }
    }
    FirstLineWhole(whole, n);
  }

  lemma {:induction false} LinesAreUnique(lines: seq<Line>)
    requires AllFit(lines)
    ensures Lines(Joined(lines)) == lines && (Joined(lines) == [] <==> lines == [])
  {
    hide Lines, Stripped, FirstLength;
    if lines == [] {
      NoLines();
    } else {
      var first, rest := lines[0], lines[1..];
      assert forall i :: 0 <= i < |rest| ==> rest[i] == lines[i + 1];
      assert first.Fits(rest == []) && AllFit(rest);
      LinesAreUnique(rest);
      hide AllFit, Line.Bytes;
      FirstThenRest(first, Joined(rest));
    }
  }

  lemma FirstThenRest(first: Line, rest: seq<Byte>)
    requires first.Fits(rest == [])
    ensures first.Bytes() + rest != [] && Lines(first.Bytes() + rest) == [first] + Lines(rest)
  {
    hide Lines, Stripped, FirstLength;
    var bytes := first.Bytes();
    OneWayToFit(first, rest);
    assert bytes != [];
    hide Line.Bytes, Line.Fits;
    LinesUnfold(bytes + rest);
    assert (bytes + rest)[..|bytes|] == bytes && (bytes + rest)[|bytes|..] == rest;
  }

  /**
   * Every stream is cut in exactly one way into lines that fit: nothing is lost but line ends, no line is longer than
   * the limit, and a line is broken up only when it is full.
   */
  lemma CutInOneWay(s: seq<Byte>, lines: seq<Line>)
    ensures AllFit(lines) && Joined(lines) == s <==> lines == Lines(s)
  {
    LinesFit(s);
    if AllFit(lines) && Joined(lines) == s {
      LinesAreUnique(lines);
    }
  }

  // ----- byte by byte

  /** Reading one byte at a time, with `line` accumulated so far. */
  function ByteByByte(line: seq<Byte>, s: seq<Byte>): seq<seq<Byte>>
    decreases |s|
  {
    if s == [] then if line == [] then [] else [line]
    else
      var now := line + [s[0]];
      if s[0] == LF || |now| == MAX_OUTPUT_LINE then [Stripped(now).content] + ByteByByte([], s[1..])
      else ByteByByte(now, s[1..])
  }

  lemma {:induction false} SameByteByByte(line: seq<Byte>, s: seq<Byte>)
    requires |line| < MAX_OUTPUT_LINE && LF !in line
    ensures ByteByByte(line, s) == Contents(Lines(line + s))
    decreases |s|
  {
    hide Lines, Contents, Stripped;
    NoLines();
    if s == [] {
      assert line + s == line;
      if line != [] {
        FirstContent(line, []);
        UnendedContent(line);
      }
    } else {
      var now := line + [s[0]];
      assert now[..|now| - 1] == line && line + s == now + s[1..];
      if s[0] == LF || |now| == MAX_OUTPUT_LINE {
        FirstContent(now, s[1..]);
        SameByteByByte([], s[1..]);
        assert [] + s[1..] == s[1..];
      } else {
        NoEndYet(now);
        SameByteByByte(now, s[1..]);
      }
    }
  }

  lemma UnendedContent(line: seq<Byte>)
    requires LF !in line
    ensures Stripped(line).content == line
  {
  }

  /** A full line that is followed by a line feed is sent as that line and an empty one. */
  lemma FullLineThenNewline(line: seq<Byte>)
    requires |line| == 65536 && LF !in line
    ensures Contents(Lines(line + [LF])) == [line, []]
  {
    FirstContent(line, [LF]);
    FirstContent([LF], []);
    UnendedContent(line);
    NoLines();
    assert [LF] + [] == [LF];
  }

  // ----- lines as line feeds separate them

  /** How many bytes of `s` go up to and including its first line feed, or all of them. */
  function SegmentLength(s: seq<Byte>): (n: nat)
    ensures n <= |s| && (s != [] ==> n > 0)
  {
    Min(Newline(s) + 1, |s|)
  }

  /** The lines there would be without a limit. */
  function UnlimitedLines(s: seq<Byte>): seq<Line> {
    if s == [] then [] else [Stripped(s[..SegmentLength(s)])] + UnlimitedLines(s[SegmentLength(s)..])
  }

  /** Everything up to each line feed, the line feed included, is short enough; so is what follows the last one. */
  predicate AllShort(s: seq<Byte>) {
    s == [] || (SegmentLength(s) <= 65536 && AllShort(s[SegmentLength(s)..]))
  }

  lemma ShorterRest(s: seq<Byte>, n: nat)
    requires 0 < n < SegmentLength(s)
    ensures SegmentLength(s[n..]) == SegmentLength(s) - n
    ensures s[n..][SegmentLength(s[n..])..] == s[SegmentLength(s)..]
  {
    var at, rest := Newline(s), s[n..];
    assert forall i :: 0 <= i < at ==> s[i] == s[..at][i];
    assert forall i :: 0 <= i < |rest| ==> rest[i] == s[n + i];
    assert forall i :: 0 <= i < Newline(rest) ==> rest[i] == rest[..Newline(rest)][i];
  }

  /** The limit only ever adds lines, and adds at least one where a segment is too long. */
  lemma {:induction false} TheLimitAddsLines(s: seq<Byte>)
    ensures |Lines(s)| >= |UnlimitedLines(s)| && (!AllShort(s) ==> |Lines(s)| > |UnlimitedLines(s)|)
    decreases |s|
  {
    hide Stripped, Newline;
    if s != [] {
      var n, m := FirstLength(s), SegmentLength(s);
      TheLimitAddsLines(s[n..]);
      if n < m {
        ShorterRest(s, n);
        assert UnlimitedLines(s[n..])[1..] == UnlimitedLines(s[m..]);
        assert |UnlimitedLines(s[n..])| == 1 + |UnlimitedLines(s[m..])| == |UnlimitedLines(s)|;
      }
    }
  }

  lemma {:induction false} ShortSegmentsAreLines(s: seq<Byte>)
    requires AllShort(s)
    ensures Lines(s) == UnlimitedLines(s)
    decreases |s|
  {
    hide Stripped, Newline;
    if s != [] {
      ShortSegmentsAreLines(s[SegmentLength(s)..]);
    }
  }

  lemma {:induction false} ContentsLength(lines: seq<Line>)
    ensures |Contents(lines)| == |lines|
  {
    if lines != [] {
      ContentsLength(lines[1..]);
    }
  }

  /**
   * The lines sent are those that line feeds separate if and only if every one of them, its line end included, is
   * within the limit.
   */
  lemma LinesAreSegmentsIff(s: seq<Byte>)
    ensures Contents(Lines(s)) == Contents(UnlimitedLines(s)) <==> AllShort(s)
  {
    ContentsLength(Lines(s));
    ContentsLength(UnlimitedLines(s));
    TheLimitAddsLines(s);
    if AllShort(s) {
      ShortSegmentsAreLines(s);
    }
  }
}
