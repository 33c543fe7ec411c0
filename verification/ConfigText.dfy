/** The small languages inside a configuration file: continued lines, comments and variables (src/config.rs). */
module ConfigText {
  import opened Prelude
  import opened Text

  // ----- continued lines

  function TrimCr(s: string): string {
    if s != [] && s[|s| - 1] == '\r' then TrimCr(s[..|s| - 1]) else s
  }

  function PhysicalLines(text: string): seq<string> {
    if text == [] then []
    else
      var at := IndexOf(text, '\n');
      [TrimCr(text[..at])] + if at == |text| then [] else PhysicalLines(text[at + 1..])
  }

  /** The given pieces, each followed by a line feed. */
  function Terminated(pieces: seq<string>): string {
    if pieces == [] then [] else pieces[0] + (['\n'] + Terminated(pieces[1..]))
  }

  /** The pieces of a text between its line feeds: the last piece needs none behind it, unless that piece is empty. */
  ghost predicate IsCut(text: string, pieces: seq<string>) {
    && (forall i :: 0 <= i < |pieces| ==> '\n' !in pieces[i])
    && (text == Terminated(pieces)
        || (pieces != [] && pieces[|pieces| - 1] != [] && text + ['\n'] == Terminated(pieces)))
  }

  /** `line` is `piece` without the carriage returns at its end. */
  ghost predicate LosesCrs(line: string, piece: string) {
    && line <= piece && (line != [] ==> line[|line| - 1] != '\r')
    && forall i :: |line| <= i < |piece| ==> piece[i] == '\r'
  }

  ghost predicate LoseCrs(lines: seq<string>, pieces: seq<string>) {
    |lines| == |pieces| && forall i :: 0 <= i < |lines| ==> LosesCrs(lines[i], pieces[i])
  }

  lemma {:induction false} CrsAreLost(piece: string)
    ensures LosesCrs(TrimCr(piece), piece)
  {
    if piece != [] && piece[|piece| - 1] == '\r' {
      CrsAreLost(piece[..|piece| - 1]);
    }
  }

  lemma {:induction false} FirstPieceEnds(text: string, pieces: seq<string>)
    requires text != [] && IsCut(text, pieces)
    ensures pieces != [] && IndexOf(text, '\n') == |pieces[0]| && text[..|pieces[0]|] == pieces[0]
    ensures |pieces[0]| < |text| ==> IsCut(text[|pieces[0]| + 1..], pieces[1..])
    ensures |pieces[0]| == |text| ==> |pieces| == 1
  {
    var first, rest := pieces[0], Terminated(pieces[1..]);
    assert Terminated(pieces) == first + (['\n'] + rest);
    if text == Terminated(pieces) {
      IndexOfIsFirst(first, '\n', rest);
      Assoc(first, ['\n'], rest);
      assert text[|first| + 1..] == rest;
    } else {
      if |pieces| == 1 {
        assert text + ['\n'] == first + ['\n'];
        assert text == first;
      } else {
        assert rest == pieces[1] + (['\n'] + Terminated(pieces[2..]));
        var shorter := rest[..|rest| - 1];
        assert (text + ['\n'])[..|text|] == text;
        assert text == first + ['\n'] + shorter;
        IndexOfIsFirst(first, '\n', shorter);
        assert text[|first| + 1..] + ['\n'] == rest;
        assert pieces[1..][|pieces| - 2] == pieces[|pieces| - 1];
      }
    }
  }

  /** A text is cut in one way, and its lines are the pieces without the carriage returns at their ends. */
  lemma {:induction false} LinesArePieces(text: string, pieces: seq<string>)
    requires IsCut(text, pieces)
    ensures LoseCrs(PhysicalLines(text), pieces)
    decreases |text|
  {
    hide IsCut, IndexOf, LoseCrs, TrimCr;
    if text == [] {
      NoPieces(pieces);
      NothingLost();
    } else {
      FirstPieceEnds(text, pieces);
      CrsAreLost(pieces[0]);
      hide LosesCrs;
      if |pieces[0]| < |text| {
        var rest := text[|pieces[0]| + 1..];
        LinesArePieces(rest, pieces[1..]);
        OneMoreLine(TrimCr(pieces[0]), PhysicalLines(rest), pieces);
      } else {
        NothingLost();
        assert pieces[1..] == [];
        OneMoreLine(TrimCr(pieces[0]), [], pieces);
        assert [TrimCr(pieces[0])] + [] == [TrimCr(pieces[0])];
      }
    }
  }

  lemma NothingLost()
    ensures LoseCrs([], [])
  {
  }

  lemma OneMoreLine(line: string, lines: seq<string>, pieces: seq<string>)
    requires pieces != [] && LosesCrs(line, pieces[0]) && LoseCrs(lines, pieces[1..])
    ensures LoseCrs([line] + lines, pieces)
  {
    hide LosesCrs;
    forall i | 0 <= i < |pieces|
      ensures LosesCrs(([line] + lines)[i], pieces[i])
    {
      if i > 0 {
        assert LosesCrs(lines[i - 1], pieces[1..][i - 1]);
      }
    }
  }

  lemma NoPieces(pieces: seq<string>)
    requires IsCut([], pieces)
    ensures pieces == []
  {
    PiecesTakeRoom(pieces);
  }

  lemma {:induction false} PiecesTakeRoom(pieces: seq<string>)
    ensures |Terminated(pieces)| >= |pieces|
    ensures pieces != [] ==> |Terminated(pieces)| >= |pieces| + |pieces[|pieces| - 1]|
  {
    if pieces != [] {
      PiecesTakeRoom(pieces[1..]);
    }
  }

  /** Every text can be cut. */
  lemma {:induction false} EveryTextIsCut(text: string) returns (pieces: seq<string>)
    ensures IsCut(text, pieces)
    decreases |text|
  {
    if text == [] {
      pieces := [];
    } else {
      var at := IndexOf(text, '\n');
      if at == |text| {
        pieces := [text];
        assert Terminated([text]) == text + (['\n'] + Terminated([]));
      } else {
        var rest := text[at + 1..];
        var others := EveryTextIsCut(rest);
        pieces := [text[..at]] + others;
        assert pieces[1..] == others;
        assert text == text[..at] + (['\n'] + rest);
        assert text + ['\n'] == text[..at] + (['\n'] + (rest + ['\n']));
      }
    }
  }

  /** Carriage returns at the end are lost in one way only. */
  lemma LostInOneWay(a: string, b: string, piece: string)
    requires LosesCrs(a, piece) && LosesCrs(b, piece)
    ensures a == b
  {
    assert a == piece[..|a|] && b == piece[..|b|];
    assert a != [] ==> piece[|a| - 1] != '\r';
    assert b != [] ==> piece[|b| - 1] != '\r';
  }

  /** An odd number of backslashes at its end continues a line on the next one. */
  predicate Continues(line: string) {
    TrailingSlashes(line) % 2 == 1
  }

  function WithoutContinuation(line: string): string {
    if Continues(line) then line[..|line| - 1] else line
  }

  function Backslashes(n: nat): string {
    seq(n, i requires 0 <= i < n => '\\')
  }

  /** A line is continued by an odd number of backslashes at its end, and the last of them is the mark. */
  lemma {:induction false} OddBackslashesContinue(body: string, n: nat)
    requires body != [] ==> body[|body| - 1] != '\\'
    ensures TrailingSlashes(body + Backslashes(n)) == n
    ensures WithoutContinuation(body + Backslashes(n)) == body + Backslashes(if n % 2 == 1 then n - 1 else n)
  {
    if n == 0 {
      assert body + Backslashes(0) == body;
    } else {
      assert (body + Backslashes(n))[..|body| + n - 1] == body + Backslashes(n - 1);
      OddBackslashesContinue(body, n - 1);
    }
  }

  function Joined(physical: seq<string>, pending: string): seq<string> {
    if physical == [] then if pending == [] then [] else [pending]
    else if Continues(physical[0]) then Joined(physical[1..], pending + WithoutContinuation(physical[0]))
    else [pending + physical[0]] + Joined(physical[1..], [])
  }

  function Unescaped(physical: seq<string>): seq<string> {
    if physical == [] then [] else [WithoutContinuation(physical[0])] + Unescaped(physical[1..])
  }

  function Finished(physical: seq<string>): nat {
    if physical == [] then 0 else (if Continues(physical[0]) then 0 else 1) + Finished(physical[1..])
  }

  /**
   * Joining lines loses nothing but the continuation marks, and every line without one ends exactly one logical line;
   * only a file that ends in a continued line has one more.
   */
  lemma {:induction false} JoiningKeepsTheText(physical: seq<string>, pending: string)
    ensures Flatten(Joined(physical, pending)) == pending + Flatten(Unescaped(physical))
    ensures Finished(physical) <= |Joined(physical, pending)| <= Finished(physical) + 1
    ensures physical != [] && !Continues(physical[|physical| - 1]) ==> |Joined(physical, pending)| == Finished(physical)
  {
    hide Continues;
    if physical == [] {
      FlattenOne(pending);
      assert pending + [] == pending;
    } else {
      var first, rest := physical[0], physical[1..];
      var tail := Flatten(Unescaped(rest));
      assert Flatten(Unescaped(physical)) == WithoutContinuation(first) + tail;
      if Continues(first) {
        JoiningKeepsTheText(rest, pending + WithoutContinuation(first));
        Assoc(pending, WithoutContinuation(first), tail);
      } else {
        JoiningKeepsTheText(rest, []);
        var joined := Joined(rest, []);
        assert Joined(physical, pending) == [pending + first] + joined;
        assert Flatten([pending + first] + joined) == pending + first + Flatten(joined);
        assert [] + tail == tail;
        Assoc(pending, first, tail);
        if rest == [] {
          assert joined == [];
        }
      }
    }
  }

  /** Lines that are written as one: all but the last are continued, and the last of them only at the end of the file. */
  ghost predicate IsGroup(group: seq<string>, atEnd: bool) {
    && group != []
    && (forall i :: 0 <= i < |group| - 1 ==> Continues(group[i]))
    && (!atEnd ==> !Continues(group[|group| - 1]))
  }

  ghost predicate AreGroups(groups: seq<seq<string>>) {
    forall i :: 0 <= i < |groups| ==> IsGroup(groups[i], i == |groups| - 1)
  }

  /** One logical line for each group; only a continued group at the end of the file has none, if it spells nothing. */
  function Spelled(groups: seq<seq<string>>): seq<string> {
    if groups == [] then []
    else
      var text := Flatten(Unescaped(groups[0]));
      (if text == [] && Continues(Last(groups[0])) then [] else [text]) + Spelled(groups[1..])
  }

  function Last(group: seq<string>): string {
    if group == [] then [] else group[|group| - 1]
  }

  /** Joining goes through the lines group by group. */
  lemma {:induction false} FirstGroup(group: seq<string>, rest: seq<string>, pending: string)
    requires IsGroup(group, rest == [])
    ensures var text := pending + Flatten(Unescaped(group));
            Joined(group + rest, pending) ==
            (if text == [] && Continues(Last(group)) then [] else [text]) + Joined(rest, [])
    decreases |group|
  {
    hide Continues;
    var first, others := group[0], group[1..];
    var line := WithoutContinuation(first);
    assert (group + rest)[0] == first && (group + rest)[1..] == others + rest;
    assert Unescaped(group) == [line] + Unescaped(others);
    assert Flatten(Unescaped(group)) == line + Flatten(Unescaped(others));
    if others == [] {
      assert others + rest == rest && line + [] == line && pending + line + [] == pending + line;
      if Continues(first) {
        assert rest == [];
      }
    } else {
      assert IsGroup(others, rest == []);
      FirstGroup(others, rest, pending + line);
      Assoc(pending, line, Flatten(Unescaped(others)));
    }
  }

  lemma {:induction false} GroupByGroup(groups: seq<seq<string>>)
    requires AreGroups(groups)
    ensures Joined(Flatten(groups), []) == Spelled(groups)
  {
    hide IsGroup, Joined, Continues;
    if groups == [] {
      assert Joined([], []) == [] by { NothingJoined(); }
    } else {
      var rest := groups[1..];
      assert forall i :: 0 <= i < |rest| ==> rest[i] == groups[i + 1];
      GroupByGroup(rest);
      if rest != [] {
        GroupsAreNotEmpty(rest);
      }
      assert Flatten(rest) == [] <==> rest == [];
      FirstGroup(groups[0], Flatten(rest), []);
      assert [] + Flatten(Unescaped(groups[0])) == Flatten(Unescaped(groups[0]));
    }
  }

  lemma NothingJoined()
    ensures Joined([], []) == []
  {
  }

  lemma GroupsAreNotEmpty(groups: seq<seq<string>>)
    requires AreGroups(groups) && groups != []
    ensures Flatten(groups) != []
  {
    assert IsGroup(groups[0], 0 == |groups| - 1);
  }

  lemma {:induction false} EveryFileHasGroups(lines: seq<string>) returns (groups: seq<seq<string>>)
    ensures AreGroups(groups) && Flatten(groups) == lines
  {
    hide Continues;
    if lines == [] {
      groups := [];
    } else {
      var others := EveryFileHasGroups(lines[1..]);
      assert lines == [lines[0]] + lines[1..];
      if Continues(lines[0]) && others != [] {
        var first := [lines[0]] + others[0];
        groups := [first] + others[1..];
        assert groups[1..] == others[1..];
        assert others == [others[0]] + others[1..];
        Assoc([lines[0]], others[0], Flatten(others[1..]));
        assert forall i :: 0 < i < |groups| ==> groups[i] == others[i];
        assert IsGroup(others[0], 0 == |others| - 1);
        assert IsGroup(first, 0 == |groups| - 1);
      } else {
        groups := [[lines[0]]] + others;
        assert groups[1..] == others;
        assert forall i :: 0 < i < |groups| ==> groups[i] == others[i - 1];
        FlattenOne([lines[0]]);
        if Continues(lines[0]) {
          assert lines[1..] == [];
        }
      }
    }
  }

  /**
   * The logical lines of a text: it is cut at its line feeds, the pieces lose the carriage returns at their ends, and
   * continued lines are put together.
   */
  ghost predicate AreLogicalLines(text: string, output: seq<string>) {
    exists pieces, groups ::
      IsCut(text, pieces) && AreGroups(groups) && LoseCrs(Flatten(groups), pieces) && output == Spelled(groups)
  }

  /** These words fix the logical lines of every text. */
  lemma LogicalLinesAreFixed(text: string, output: seq<string>)
    ensures AreLogicalLines(text, output) <==> output == Joined(PhysicalLines(text), [])
  {
    hide IsCut, AreGroups, Joined, PhysicalLines, Spelled, LoseCrs, Flatten;
    if AreLogicalLines(text, output) {
      var pieces, groups :| IsCut(text, pieces) && AreGroups(groups) && LoseCrs(Flatten(groups), pieces)
                            && output == Spelled(groups);
      LinesArePieces(text, pieces);
      LostOnce(Flatten(groups), PhysicalLines(text), pieces);
      GroupByGroup(groups);
    }
    var pieces := EveryTextIsCut(text);
    var groups := EveryFileHasGroups(PhysicalLines(text));
    LinesArePieces(text, pieces);
    GroupByGroup(groups);
  }

  lemma LostOnce(a: seq<string>, b: seq<string>, pieces: seq<string>)
    requires LoseCrs(a, pieces) && LoseCrs(b, pieces)
    ensures a == b
  {
    hide LosesCrs;
    forall i | 0 <= i < |a|
      ensures a[i] == b[i]
    {
      LostInOneWay(a[i], b[i], pieces[i]);
    }
  }

  method LogicalLines(text: string) returns (output: seq<string>)
    ensures AreLogicalLines(text, output)
    ensures output == Joined(PhysicalLines(text), [])
  {
    hide PhysicalLines, Continues, AreLogicalLines;
    LogicalLinesAreFixed(text, Joined(PhysicalLines(text), []));
    var physical := PhysicalLines(text);
    output := [];
    var pending: string := [];
    assert physical[0..] == physical;
    for i := 0 to |physical|
      invariant output + Joined(physical[i..], pending) == Joined(physical, [])
    {
      var line := physical[i];
      assert physical[i..][1..] == physical[i + 1..];
      Assoc(output, [pending + line], Joined(physical[i + 1..], []));
      if Continues(line) {
        pending := pending + WithoutContinuation(line);
      } else if pending == [] {
        assert pending + line == line;
        output := output + [line];
      } else {
        pending := pending + line;
        output := output + [pending];
        pending := [];
      }
    }
    assert output + [] == output;
    if pending != [] {
      output := output + [pending];
    }
  }

  // ----- comments

  /** `##` is a hash, and a single one begins a comment. */
  function Uncommented(s: string): string {
    if s == [] then []
    else if s[0] != '#' then [s[0]] + Uncommented(s[1..])
    else if |s| > 1 && s[1] == '#' then ['#'] + Uncommented(s[2..])
    else []
  }

  method DecodeHashComments(value: string) returns (output: string)
    ensures output == Uncommented(value)
  {
    output := [];
    var i := 0;
    assert value[0..] == value;
    while i < |value|
      invariant 0 <= i <= |value|
      invariant output + Uncommented(value[i..]) == Uncommented(value)
    {
      var character := value[i];
      ghost var rest := value[i..];
      assert rest[1..] == value[i + 1..];
      i := i + 1;
      if character != '#' {
        Assoc(output, [character], Uncommented(value[i..]));
        output := output + [character];
        continue;
      }
      if i < |value| && value[i] == '#' {
        assert rest[2..] == value[i + 1..];
        i := i + 1;
        Assoc(output, ['#'], Uncommented(value[i..]));
        output := output + ['#'];
      } else {
        assert Uncommented(rest) == [];
        break;
      }
    }
    assert output + [] == output;
  }

  function HashDoubled(s: string): string {
    if s == [] then [] else (if s[0] == '#' then "##" else [s[0]]) + HashDoubled(s[1..])
  }

  lemma {:induction false} DoublingKeepsTheEnds(s: string)
    ensures s == [] <==> HashDoubled(s) == []
    ensures s != [] ==> HashDoubled(s)[0] == s[0] && HashDoubled(s)[|HashDoubled(s)| - 1] == s[|s| - 1]
  {
    if |s| > 1 {
      DoublingKeepsTheEnds(s[1..]);
    }
  }

  /** Any value can be written: its hashes doubled, and followed by any comment. */
  lemma {:induction false} WrittenValueIsRead(value: string, comment: string)
    requires comment == [] || (comment[0] == '#' && (|comment| == 1 || comment[1] != '#'))
    ensures Uncommented(HashDoubled(value) + comment) == value
  {
    if value == [] {
      assert HashDoubled(value) + comment == comment;
    } else {
      var mark := if value[0] == '#' then "##" else [value[0]];
      var rest := HashDoubled(value[1..]) + comment;
      assert HashDoubled(value) + comment == mark + rest;
      assert (mark + rest)[|mark|..] == rest;
      WrittenValueIsRead(value[1..], comment);
      assert [value[0]] + value[1..] == value;
    }
  }

  // ----- variables

  type Environment = map<string, string>

  function Substituted(name: string, environment: Environment, upper: string -> string): string {
    if upper(name) in environment then environment[upper(name)] else ['%'] + name + ['%']
  }

  /** The first `%name%` in a value, with what is before and behind it. */
  datatype Occurrence = Occurrence(before: string, name: string, rest: string)

  function NextVariable(value: string): (r: Option<Occurrence>)
    ensures r.Some? ==>
              |r.value.rest| < |value| && value == r.value.before + (['%'] + r.value.name + ['%']) + r.value.rest
  {
    var at := IndexOf(value, '%');
    if at == |value| then None
    else
      var after := value[at + 1..];
      var end := IndexOf(after, '%');
      if end == |after| then None
      else
        TakenApart(value, at, end);
        Some(Occurrence(value[..at], after[..end], after[end + 1..]))
  }

  lemma TakenApart(value: string, at: nat, end: nat)
    requires at < |value| && value[at] == '%' && end < |value[at + 1..]| && value[at + 1..][end] == '%'
    ensures var after := value[at + 1..];
            value == value[..at] + (['%'] + after[..end] + ['%']) + after[end + 1..]
  {
    var after := value[at + 1..];
    assert after == after[..end] + ['%'] + after[end + 1..];
    assert value == value[..at] + ['%'] + after;
    Assoc(value[..at], ['%'], after);
    Assoc(['%'], after[..end] + ['%'], after[end + 1..]);
    Assoc(['%'], after[..end], ['%']);
    Assoc(value[..at], ['%'] + after[..end] + ['%'], after[end + 1..]);
  }

  /** Replaces every `%name%` of a known variable, from left to right and without looking at what was put in. */
  function Expanded(value: string, environment: Environment, upper: string -> string): string
    decreases |value|
  {
    match NextVariable(value)
    case None => value
    case Some(v) => v.before + Substituted(v.name, environment, upper) + Expanded(v.rest, environment, upper)
  }

  method ExpandEnvironment(value: string, environment: Environment, upper: string -> string) returns (output: string)
    ensures output == Expanded(value, environment, upper)
  {
    hide Substituted, Expanded, NextVariable, IndexOf;
    output := [];
    var remaining := value;
    assert output + Expanded(value, environment, upper) == Expanded(value, environment, upper);
    while true
      invariant output + Expanded(remaining, environment, upper) == Expanded(value, environment, upper)
      decreases |remaining|
    {
      OneStep(output, remaining, environment, upper);
      var start := IndexOf(remaining, '%');
      if start == |remaining| {
        NoVariable(remaining);
        return output + remaining;
      }
      ghost var before := output;
      output := output + remaining[..start];
      var afterStart := remaining[start + 1..];
      var end := IndexOf(afterStart, '%');
      if end == |afterStart| {
        NoVariable(remaining);
        BothHalves(before, remaining, start);
        return output + remaining[start..];
      }
      VariableFound(remaining);
      output := output + Substituted(afterStart[..end], environment, upper);
      remaining := afterStart[end + 1..];
    }
  }

  lemma BothHalves(before: string, s: string, at: nat)
    requires at <= |s|
    ensures before + s[..at] + s[at..] == before + s
  {
    Assoc(before, s[..at], s[at..]);
    assert s[..at] + s[at..] == s;
  }

  lemma NoVariable(value: string)
    requires var at := IndexOf(value, '%');
             at == |value| || IndexOf(value[at + 1..], '%') == |value[at + 1..]|
    ensures NextVariable(value).None?
  {
  }

  lemma VariableFound(value: string)
    requires var at := IndexOf(value, '%');
             at < |value| && IndexOf(value[at + 1..], '%') < |value[at + 1..]|
    ensures var at := IndexOf(value, '%');
            var after := value[at + 1..];
            var end := IndexOf(after, '%');
            NextVariable(value) == Some(Occurrence(value[..at], after[..end], after[end + 1..]))
  {
  }

  lemma OneStep(output: string, value: string, environment: Environment, upper: string -> string)
    ensures output + Expanded(value, environment, upper) ==
            match NextVariable(value)
            case None => output + value
            case Some(v) =>
              output + v.before + Substituted(v.name, environment, upper) + Expanded(v.rest, environment, upper)
  {
    hide Substituted;
    match NextVariable(value) {
      case None =>
      case Some(v) =>
        var middle, rest := Substituted(v.name, environment, upper), Expanded(v.rest, environment, upper);
        assert Expanded(value, environment, upper) == v.before + middle + rest;
        hide *;
        Assoc(output, v.before + middle, rest);
        Assoc(output, v.before, middle);
    }
  }

  /**
   * Text around a variable is kept, and the expansion goes on behind it: a known variable gives way to its value, and
   * what is not known stays as written.
   */
  lemma VariableIsReplaced(before: string, name: string, rest: string, environment: Environment, upper: string -> string)
    requires '%' !in before && '%' !in name
    ensures Expanded(before + ['%'] + (name + ['%'] + rest), environment, upper) ==
            before + (if upper(name) in environment then environment[upper(name)] else ['%'] + name + ['%'])
            + Expanded(rest, environment, upper)
  {
    var after := name + ['%'] + rest;
    var value := before + ['%'] + after;
    IndexOfIsFirst(before, '%', after);
    IndexOfIsFirst(name, '%', rest);
    assert value[..|before|] == before && value[|before| + 1..] == after;
    assert after[..|name|] == name && after[|name| + 1..] == rest;
  }

  /** A single percent sign begins nothing. */
  lemma ALonePercentIsKept(before: string, after: string, environment: Environment, upper: string -> string)
    requires '%' !in before && '%' !in after
    ensures Expanded(before, environment, upper) == before
    ensures Expanded(before + ['%'] + after, environment, upper) == before + ['%'] + after
  {
    IndexOfIsFirst(before, '%', after);
    assert (before + ['%'] + after)[|before| + 1..] == after;
  }

  /** No variable that occurs in `value` is known. */
  predicate NothingKnown(value: string, environment: Environment, upper: string -> string)
    decreases |value|
  {
    match NextVariable(value)
    case None => true
    case Some(v) => upper(v.name) !in environment && NothingKnown(v.rest, environment, upper)
  }

  /** A value in which no known variable occurs is kept as it is, its percent signs included. */
  lemma {:induction false} UnknownVariablesAreKept(value: string, environment: Environment, upper: string -> string)
    requires NothingKnown(value, environment, upper)
    ensures Expanded(value, environment, upper) == value
    decreases |value|
  {
    hide NextVariable;
    match NextVariable(value) {
      case None =>
      case Some(v) => UnknownVariablesAreKept(v.rest, environment, upper);
    }
  }

  // ----- includes

  datatype Directive = Include | IncludeRequired | IncludeDebug {
    function Keyword(): string {
      match this
      case Include => "#include"
      case IncludeRequired => "#include.required"
      case IncludeDebug => "#include.debug"
    }
  }

  function SkipSeparators(s: string): string {
    if s != [] && (s[0] == ' ' || s[0] == '\t' || s[0] == '=') then SkipSeparators(s[1..]) else s
  }

  /** The argument of a directive, if the line is that directive. */
  function ArgumentOf(line: string, directive: Directive): Option<string> {
    if !(directive.Keyword() <= line) then None
    else
      var rest := line[|directive.Keyword()|..];
      if rest == [] then Some([])
      else if IsWhitespace(rest[0]) || rest[0] == '=' then Some(SkipSeparators(rest))
      else None
  }

  function ParseInclude(line: string): Option<(Directive, string)> {
    if ArgumentOf(line, IncludeRequired).Some? then Some((IncludeRequired, ArgumentOf(line, IncludeRequired).value))
    else if ArgumentOf(line, IncludeDebug).Some? then Some((IncludeDebug, ArgumentOf(line, IncludeDebug).value))
    else if ArgumentOf(line, Include).Some? then Some((Include, ArgumentOf(line, Include).value))
    else None
  }

  predicate IsSeparator(c: char) {
    c == ' ' || c == '\t' || c == '='
  }

  lemma {:induction false} SeparatorsAreSkipped(separators: string, argument: string)
    requires forall i :: 0 <= i < |separators| ==> IsSeparator(separators[i])
    requires argument != [] ==> !IsSeparator(argument[0])
    ensures SkipSeparators(separators + argument) == argument
  {
    if separators == [] {
      assert separators + argument == argument;
    } else {
      assert (separators + argument)[1..] == separators[1..] + argument;
      SeparatorsAreSkipped(separators[1..], argument);
    }
  }

  lemma ArgumentIsFound(directive: Directive, separators: string, argument: string)
    requires separators != [] && forall i :: 0 <= i < |separators| ==> IsSeparator(separators[i])
    requires argument != [] ==> !IsSeparator(argument[0])
    ensures ArgumentOf(directive.Keyword() + separators + argument, directive) == Some(argument)
  {
    var keyword := directive.Keyword();
    var line := keyword + separators + argument;
    SeparatorsAreSkipped(separators, argument);
    assert line[|keyword|..] == separators + argument;
    assert IsSeparator(separators[0]);
  }

  /** The three include directives, with spaces, tabs or equals signs before their argument. */
  lemma DirectivesAreRecognised(separators: string, argument: string)
    requires separators != [] && forall i :: 0 <= i < |separators| ==> IsSeparator(separators[i])
    requires argument != [] ==> !IsSeparator(argument[0])
    ensures ParseInclude("#include" + separators + argument) == Some((Include, argument))
    ensures ParseInclude("#include.required" + separators + argument) == Some((IncludeRequired, argument))
    ensures ParseInclude("#include.debug" + separators + argument) == Some((IncludeDebug, argument))
  {
    ArgumentIsFound(Include, separators, argument);
    ArgumentIsFound(IncludeRequired, separators, argument);
    ArgumentIsFound(IncludeDebug, separators, argument);
    assert IsSeparator(separators[0]);
    var plain, debug := "#include" + separators + argument, "#include.debug" + separators + argument;
    assert plain[8] == separators[0];
    assert !(IncludeRequired.Keyword() <= plain) && !(IncludeDebug.Keyword() <= plain);
    assert debug[9] == 'd';
    assert !(IncludeRequired.Keyword() <= debug);
  }

  /** No other line is an include directive. */
  lemma OnlyDirectivesInclude(line: string)
    requires ParseInclude(line).Some?
    ensures exists keyword :: keyword in {"#include", "#include.required", "#include.debug"} && keyword <= line
                           && (line == keyword || IsWhitespace(line[|keyword|]) || line[|keyword|] == '=')
  {
    hide IsWhitespace;
    var keyword := ParseInclude(line).value.0.Keyword();
    assert keyword in {"#include", "#include.required", "#include.debug"};
    assert keyword <= line;
    if line[|keyword|..] == [] {
      assert line == keyword;
    }
  }

  function RemoveGroupingQuotes(value: string): string {
    var n := |value|;
    if n >= 2 && value[0] == value[n - 1] && (value[0] == '"' || value[0] == '\'') then value[1..n - 1] else value
  }
}
