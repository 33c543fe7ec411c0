/** Loading the configuration: files that include files, environment definitions and overrides (src/config.rs). */
module IncludeLoader {
  import opened Prelude
  import opened Text
  import opened ConfigText

  const MAX_INCLUDE_DEPTH: nat := 10

  // ----- what a sequence of assignments means

  datatype Assignment = Assignment(name: string, value: string)

  const SET: string := "set."
  const SET_DEFAULT: string := "set.default."

  function PropertiesAfter(applied: seq<Assignment>): map<string, string> {
    if applied == [] then map[]
    else
      var last := applied[|applied| - 1];
      PropertiesAfter(applied[..|applied| - 1])[last.name := last.value]
  }

  /** A locked variable never changes, and a default never replaces a value. */
  function WithAssignment(environment: Environment, locked: set<string>, a: Assignment, upper: string -> string)
    : Environment
  {
    if SET_DEFAULT <= a.name then
      var n := upper(a.name[|SET_DEFAULT|..]);
      if n in locked || n in environment then environment else environment[n := a.value]
    else if SET <= a.name then
      var n := upper(a.name[|SET|..]);
      if n in locked then environment else environment[n := a.value]
    else environment
  }

  /** `set.` defines a variable and `set.default.` one that has no value; nothing happens to a locked one, or else. */
  lemma WhatAssignmentsDefine(
    environment: Environment, locked: set<string>, n: string, value: string, upper: string -> string)
    ensures !("default." <= n) ==>
              WithAssignment(environment, locked, Assignment("set." + n, value), upper) ==
              if upper(n) in locked then environment else environment[upper(n) := value]
    ensures WithAssignment(environment, locked, Assignment("set.default." + n, value), upper) ==
            if upper(n) in locked || upper(n) in environment then environment else environment[upper(n) := value]
    ensures !("set." <= n) ==> WithAssignment(environment, locked, Assignment(n, value), upper) == environment
  {
    var plain, default := "set." + n, "set.default." + n;
    assert plain[4..] == n && default[12..] == n;
    assert SET_DEFAULT <= default && SET <= plain;
    if SET_DEFAULT <= plain {
      assert plain[4..12] == "default." && n[..8] == plain[4..12];
    }
    if SET_DEFAULT <= n {
      assert n[..4] == "set.";
    }
  }

  /** Which variable an assignment is about, and whether it is only a default. */
  function VariableOf(name: string, upper: string -> string): Option<string> {
    if SET_DEFAULT <= name then Some(upper(name[|SET_DEFAULT|..]))
    else if SET <= name then Some(upper(name[|SET|..]))
    else None
  }

  /** `n` takes the assigned value: it is what the assignment is about, not locked, and has no value that a default spares. */
  predicate Affects(a: Assignment, n: string, environment: Environment, locked: set<string>, upper: string -> string) {
    && VariableOf(a.name, upper) == Some(n) && n !in locked
    && (n !in environment || !(SET_DEFAULT <= a.name))
  }

  /** From `environment` to `now` a variable has changed only if the assignment affects it; none has gone. */
  ghost predicate ChangesOneVariable(
    environment: Environment, now: Environment, locked: set<string>, a: Assignment, upper: string -> string)
  {
    forall n ::
      if Affects(a, n, environment, locked, upper) then n in now && now[n] == a.value
      else (n in now <==> n in environment) && (n in environment ==> now[n] == environment[n])
  }

  /** What an assignment may change is exactly what it does change. */
  lemma AnAssignmentChangesOneVariable(
    environment: Environment, now: Environment, locked: set<string>, a: Assignment, upper: string -> string)
    ensures ChangesOneVariable(environment, now, locked, a, upper) <==> now == WithAssignment(environment, locked, a, upper)
  {
    var expected := WithAssignment(environment, locked, a, upper);
    if ChangesOneVariable(environment, now, locked, a, upper) {
      forall n
        ensures n in now <==> n in expected
        ensures n in now ==> now[n] == expected[n]
      {
        assert Affects(a, n, environment, locked, upper) || !Affects(a, n, environment, locked, upper);
      }
    }
  }

  function EnvironmentAfter(initial: Environment, locked: set<string>, applied: seq<Assignment>, upper: string -> string)
    : Environment
  {
    if applied == [] then initial
    else
      var last := |applied| - 1;
      WithAssignment(EnvironmentAfter(initial, locked, applied[..last], upper), locked, applied[last], upper)
  }

  lemma OneMoreAssignment(
    initial: Environment, locked: set<string>, applied: seq<Assignment>, a: Assignment, upper: string -> string)
    ensures PropertiesAfter(applied + [a]) == PropertiesAfter(applied)[a.name := a.value]
    ensures EnvironmentAfter(initial, locked, applied + [a], upper) ==
            WithAssignment(EnvironmentAfter(initial, locked, applied, upper), locked, a, upper)
  {
    hide WithAssignment;
    assert (applied + [a])[..|applied|] == applied;
  }

  lemma {:induction false} LockedNamesKeepTheirValue(
    initial: Environment, locked: set<string>, applied: seq<Assignment>, upper: string -> string, n: string)
    requires n in locked && n in initial
    ensures n in EnvironmentAfter(initial, locked, applied, upper)
    ensures EnvironmentAfter(initial, locked, applied, upper)[n] == initial[n]
  {
    if applied != [] {
      LockedNamesKeepTheirValue(initial, locked, applied[..|applied| - 1], upper, n);
    }
  }

  /** What is already defined stays defined, and only a `set.` of its own name changes it. */
  lemma {:induction false} OnlyItsOwnSetChangesAVariable(
    initial: Environment, locked: set<string>, applied: seq<Assignment>, upper: string -> string, n: string)
    requires n in initial
    requires forall a :: a in applied && SET <= a.name && !(SET_DEFAULT <= a.name) ==> upper(a.name[|SET|..]) != n
    ensures n in EnvironmentAfter(initial, locked, applied, upper)
    ensures EnvironmentAfter(initial, locked, applied, upper)[n] == initial[n]
  {
    if applied != [] {
      var last := |applied| - 1;
      assert forall a :: a in applied[..last] ==> a in applied;
      OnlyItsOwnSetChangesAVariable(initial, locked, applied[..last], upper, n);
      assert applied[last] in applied;
    }
  }

  lemma {:induction false} TheLastAssignmentCounts(applied: seq<Assignment>, i: nat)
    requires i < |applied| && forall j :: i < j < |applied| ==> applied[j].name != applied[i].name
    ensures applied[i].name in PropertiesAfter(applied)
    ensures PropertiesAfter(applied)[applied[i].name] == applied[i].value
  {
    if i < |applied| - 1 {
      TheLastAssignmentCounts(applied[..|applied| - 1], i);
    }
  }

  lemma {:induction false} OnlyAssignedNames(applied: seq<Assignment>, n: string)
    requires n in PropertiesAfter(applied)
    ensures exists a :: a in applied && a.name == n
  {
    var last := |applied| - 1;
    if applied[last].name == n {
      assert applied[last] in applied;
    } else {
      OnlyAssignedNames(applied[..last], n);
      var a :| a in applied[..last] && a.name == n;
      assert a in applied;
    }
  }

  // ----- overrides

  /** The variable that an override defines and locks, if any. */
  function LockedBy(line: string, upper: string -> string): Option<Assignment> {
    match SplitProperty(line)
    case None => None
    case Some((name, value)) => if SET <= name then Some(Assignment(upper(name[|SET|..]), value)) else None
  }

  function Seeded(inherited: Environment, overrides: seq<string>, upper: string -> string): Environment {
    if overrides == [] then inherited
    else
      var last := |overrides| - 1;
      var before := Seeded(inherited, overrides[..last], upper);
      match LockedBy(overrides[last], upper)
      case None => before
      case Some(a) => before[a.name := a.value]
  }

  function Locked(overrides: seq<string>, upper: string -> string): set<string> {
    if overrides == [] then {}
    else
      var last := |overrides| - 1;
      var before := Locked(overrides[..last], upper);
      match LockedBy(overrides[last], upper)
      case None => before
      case Some(a) => before + {a.name}
  }

  lemma NoSeeds(inherited: Environment, upper: string -> string)
    ensures Seeded(inherited, [], upper) == inherited && Locked([], upper) == {}
  {
  }

  lemma OneMoreSeed(inherited: Environment, overrides: seq<string>, i: nat, upper: string -> string)
    requires i < |overrides|
    ensures LockedBy(overrides[i], upper).None? ==>
              && Seeded(inherited, overrides[..i + 1], upper) == Seeded(inherited, overrides[..i], upper)
              && Locked(overrides[..i + 1], upper) == Locked(overrides[..i], upper)
    ensures LockedBy(overrides[i], upper).Some? ==>
              var a := LockedBy(overrides[i], upper).value;
              && Seeded(inherited, overrides[..i + 1], upper) == Seeded(inherited, overrides[..i], upper)[a.name := a.value]
              && Locked(overrides[..i + 1], upper) == Locked(overrides[..i], upper) + {a.name}
  {
    hide LockedBy;
    assert overrides[..i + 1][..i] == overrides[..i];
  }

  lemma {:induction false} TheLastOverrideIsLocked(
    inherited: Environment, overrides: seq<string>, upper: string -> string, i: nat)
    requires i < |overrides| && LockedBy(overrides[i], upper).Some?
    requires forall j :: i < j < |overrides| && LockedBy(overrides[j], upper).Some? ==>
               LockedBy(overrides[j], upper).value.name != LockedBy(overrides[i], upper).value.name
    ensures var a := LockedBy(overrides[i], upper).value;
            && a.name in Locked(overrides, upper) && a.name in Seeded(inherited, overrides, upper)
            && Seeded(inherited, overrides, upper)[a.name] == a.value
  {
    hide LockedBy;
    if i < |overrides| - 1 {
      TheLastOverrideIsLocked(inherited, overrides[..|overrides| - 1], upper, i);
    }
  }

  // ----- what a file amounts to

  datatype Resolution = Found(path: string) | NotFound | Denied

  datatype LoadProblem =
    | InvalidOverride(text: string) | TooDeep | Cycle(path: string) | Unreadable(path: string) | NoName(line: string)

  datatype LoadOutcome = Fine | Failed(problem: LoadProblem) {
    predicate IsFailure() { Failed? }
    function PropagateFailure(): LoadOutcome requires Failed? { this }
  }

  /** The file system while a configuration is loaded: where a path leads, and the decoded text found there. */
  datatype Disk = Disk(resolve: string -> Resolution, read: string -> Option<string>)

  datatype Warning = Warning(text: string)

  /** What stays the same while a configuration is loaded. */
  datatype Setup = Setup(disk: Disk, upper: string -> string, locked: set<string>) {
    function After(environment: Environment, made: seq<Assignment>): Environment {
      EnvironmentAfter(environment, locked, made, upper)
    }
  }

  /** The assignments that loading something makes, all of them or those before its failure. */
  datatype Effect = Effect(made: seq<Assignment>, outcome: LoadOutcome)

  function TextOf(text: string): seq<string> {
    Joined(PhysicalLines(text), [])
  }

  /** Loading the file at `path` while the files in `stack` are open. */
  function FileEffect(setup: Setup, path: string, required: bool, stack: seq<string>, environment: Environment): Effect
    decreases MAX_INCLUDE_DEPTH + 1 - |stack|, 0, 0
  {
    if |stack| > MAX_INCLUDE_DEPTH then Effect([], Failed(TooDeep))
    else match setup.disk.resolve(path)
         case NotFound => Effect([], if required then Failed(Unreadable(path)) else Fine)
         case Denied => Effect([], Failed(Unreadable(path)))
         case Found(canonical) =>
           if canonical in stack then Effect([], Failed(Cycle(canonical)))
           else match setup.disk.read(canonical)
                case None => Effect([], Failed(Unreadable(canonical)))
                case Some(text) => LinesEffect(setup, TextOf(text), stack + [canonical], environment)
  }

  /** Up to ten files may be open when another is read; a missing one is an error only where it is required. */
  lemma TheFileDecides(setup: Setup, path: string, required: bool, stack: seq<string>, environment: Environment)
    ensures var found := setup.disk.resolve(path);
            var effect := FileEffect(setup, path, required, stack, environment);
            if |stack| > 10 then effect == Effect([], Failed(TooDeep))
            else if found.NotFound? then effect == Effect([], if required then Failed(Unreadable(path)) else Fine)
            else if found.Denied? then effect == Effect([], Failed(Unreadable(path)))
            else if found.path in stack then effect == Effect([], Failed(Cycle(found.path)))
            else if setup.disk.read(found.path).None? then effect == Effect([], Failed(Unreadable(found.path)))
            else
              forall lines :: AreLogicalLines(setup.disk.read(found.path).value, lines) ==>
                effect == LinesEffect(setup, lines, stack + [found.path], environment)
  {
    hide LinesEffect, AreLogicalLines, Joined, PhysicalLines;
    var found := setup.disk.resolve(path);
    if found.Found? && setup.disk.read(found.path).Some? {
      var text := setup.disk.read(found.path).value;
      forall lines | AreLogicalLines(text, lines)
        ensures lines == TextOf(text)
      {
        LogicalLinesAreFixed(text, lines);
      }
    }
  }

  /** The path that an include directive names. */
  function IncludedPath(argument: string, environment: Environment, upper: string -> string): string {
    RemoveGroupingQuotes(Trim(Expanded(argument, environment, upper)))
  }

  function LineEffect(setup: Setup, raw: string, stack: seq<string>, environment: Environment): Effect
    decreases MAX_INCLUDE_DEPTH + 1 - |stack|, 1, 0
  {
    var trimmed := Trim(raw);
    if trimmed == [] || trimmed[0] == '!' then Effect([], Fine)
    else match ParseInclude(trimmed)
         case Some((directive, argument)) =>
           var path := IncludedPath(argument, environment, setup.upper);
           FileEffect(setup, path, directive == IncludeRequired, stack, environment)
         case None => if trimmed[0] == '#' then Effect([], Fine) else PropertyEffect(setup, trimmed, environment)
  }

  function PropertyEffect(setup: Setup, trimmed: string, environment: Environment): Effect {
    match SplitProperty(trimmed)
    case None => Effect([], Fine)
    case Some((name, raw)) =>
      if name == [] then Effect([], Failed(NoName(trimmed)))
      else Effect([Assignment(name, Expanded(Trim(Uncommented(raw)), environment, setup.upper))], Fine)
  }

  /** A single hash, and whatever stands behind it. */
  predicate IsComment(s: string) {
    s != [] && s[0] == '#' && (|s| == 1 || s[1] != '#')
  }

  /** How a property may be laid out: whitespace before and behind it, and on both sides of its name and of its value. */
  datatype Layout = Layout(indent: string, gap: string, left: string, right: string, trail: string) {
    predicate IsBlank() {
      AllWhitespace(indent) && AllWhitespace(gap) && AllWhitespace(left) && AllWhitespace(right) && AllWhitespace(trail)
    }

    function Line(name: string, value: string, comment: string): string {
      indent + (name + gap + ['='] + (HashDoubled(left + value + right) + comment)) + trail
    }
  }

  /** A property as it is written by hand, its hashes doubled and perhaps with a comment behind it. */
  lemma AWrittenPropertyIsRead(
    setup: Setup, layout: Layout, name: string, value: string, comment: string, stack: seq<string>, environment: Environment)
    requires layout.IsBlank() && IsTrimmed(name) && IsTrimmed(value) && IsTrimmed(comment)
    requires name != [] && '=' !in name && name[0] != '#' && name[0] != '!'
    requires if comment == [] then layout.right == [] && (value == [] ==> layout.left == []) else IsComment(comment)
    ensures LineEffect(setup, layout.Line(name, value, comment), stack, environment) ==
            Effect([Assignment(name, Expanded(value, environment, setup.upper))], Fine)
    ensures '%' !in value ==> Expanded(value, environment, setup.upper) == value
  {
    hide IsWhitespace, Expanded, Trim, LineEffect, SplitProperty, Uncommented;
    var inner := layout.left + value + layout.right;
    var written := HashDoubled(inner) + comment;
    var line := name + layout.gap + ['='] + written;
    DoublingKeepsTheEnds(inner);
    assert line[0] == name[0];
    assert written != [] ==> written[|written| - 1] == line[|line| - 1];
    assert comment == [] && value != [] ==> inner[|inner| - 1] == value[|value| - 1];
    assert comment != [] ==> written[|written| - 1] == comment[|comment| - 1];
    NotWhitespace();
    TrimmingTakesTheSides(layout.indent, line, layout.trail);
    LineIsProperty(setup, layout.Line(name, value, comment), line, stack, environment);
    BlanksHoldNoEquals(layout.gap);
    PropertyIsSplit(name + layout.gap, written);
    WrittenValueIsRead(inner, comment);
    TrimmingTakesTheSides([], name, layout.gap);
    TrimmingTakesTheSides(layout.left, value, layout.right);
    assert [] + name + layout.gap == name + layout.gap;
    if '%' !in value {
      ALonePercentIsKept(value, [], environment, setup.upper);
    }
  }

  lemma BlanksHoldNoEquals(gap: string)
    requires AllWhitespace(gap)
    ensures '=' !in gap
  {
    hide IsWhitespace;
    NotWhitespace();
  }

  lemma LineIsProperty(setup: Setup, raw: string, line: string, stack: seq<string>, environment: Environment)
    requires Trim(raw) == line && line != [] && line[0] != '!' && line[0] != '#'
    ensures LineEffect(setup, raw, stack, environment) == PropertyEffect(setup, line, environment)
  {
    hide FileEffect, Trim, PropertyEffect, IncludedPath;
    if ParseInclude(line).Some? {
      OnlyDirectivesInclude(line);
    }
  }

  lemma NotWhitespace()
    ensures !IsWhitespace('=') && !IsWhitespace('#') && !IsWhitespace('"') && !IsWhitespace('\'') && IsWhitespace(' ')
  {
  }

  /** Empty lines, comments, and lines without `=` do nothing, and a property without a name is an error. */
  lemma OtherLines(
    setup: Setup, indent: string, line: string, trail: string, stack: seq<string>, environment: Environment)
    requires AllWhitespace(indent) && AllWhitespace(trail) && IsTrimmed(line) && !("#include" <= line)
    ensures line == [] || line[0] == '!' || line[0] == '#' || '=' !in line ==>
              LineEffect(setup, indent + line + trail, stack, environment) == Effect([], Fine)
    ensures line != [] && line[0] == '=' ==>
              LineEffect(setup, indent + line + trail, stack, environment) == Effect([], Failed(NoName(line)))
  {
    hide IsWhitespace, Trim, LineEffect, SplitProperty, Expanded, Uncommented;
    TrimmingTakesTheSides(indent, line, trail);
    var raw := indent + line + trail;
    if line == [] || line[0] == '!' || line[0] == '#' {
      LineIsIgnored(setup, raw, line, stack, environment);
    } else {
      LineIsProperty(setup, raw, line, stack, environment);
      if '=' !in line {
        PropertyIsSplit(line, []);
      }
      if line[0] == '=' {
        TrimmingTakesTheSides([], [], []);
        PropertyIsSplit([], line[1..]);
        assert [] + ['='] + line[1..] == line;
        var none: string := [];
        assert none + none + none == none;
      }
    }
  }

  lemma LineIsIgnored(setup: Setup, raw: string, line: string, stack: seq<string>, environment: Environment)
    requires Trim(raw) == line && !("#include" <= line)
    requires line == [] || line[0] == '!' || line[0] == '#'
    ensures LineEffect(setup, raw, stack, environment) == Effect([], Fine)
  {
    hide FileEffect, Trim, PropertyEffect, IncludedPath;
    if ParseInclude(line).Some? {
      OnlyDirectivesInclude(line);
    }
  }

  /** An include names its file with or without quotes; only the directive that says so requires the file. */
  lemma AnIncludeLoadsItsFile(setup: Setup, mark: char, path: string, stack: seq<string>, environment: Environment)
    requires (mark == '"' || mark == '\'') && path != [] && IsTrimmed(path) && !IsSeparator(path[0]) && '%' !in path
    ensures var quoted := [mark] + path + [mark];
            && LineEffect(setup, "#include" + " " + quoted, stack, environment) ==
               FileEffect(setup, path, false, stack, environment)
            && LineEffect(setup, "#include.debug" + " " + quoted, stack, environment) ==
               FileEffect(setup, path, false, stack, environment)
            && LineEffect(setup, "#include.required" + " " + quoted, stack, environment) ==
               FileEffect(setup, path, true, stack, environment)
    ensures path[0] != '"' && path[0] != '\'' ==>
              && LineEffect(setup, "#include" + " " + path, stack, environment) ==
                 FileEffect(setup, path, false, stack, environment)
              && LineEffect(setup, "#include.debug" + " " + path, stack, environment) ==
                 FileEffect(setup, path, false, stack, environment)
              && LineEffect(setup, "#include.required" + " " + path, stack, environment) ==
                 FileEffect(setup, path, true, stack, environment)
  {
    hide IsWhitespace, FileEffect, Trim, Expanded;
    NotWhitespace();
    var quoted := [mark] + path + [mark];
    assert quoted[0] == mark && quoted[|quoted| - 1] == mark && quoted[1..|quoted| - 1] == path;
    AnArgumentNamesItsPath(setup, quoted, path, stack, environment);
    if path[0] != '"' && path[0] != '\'' {
      AnArgumentNamesItsPath(setup, path, path, stack, environment);
    }
  }

  lemma AnArgumentNamesItsPath(
    setup: Setup, argument: string, path: string, stack: seq<string>, environment: Environment)
    requires argument != [] && IsTrimmed(argument) && !IsSeparator(argument[0]) && '%' !in argument
    requires RemoveGroupingQuotes(argument) == path
    ensures LineEffect(setup, "#include" + " " + argument, stack, environment) ==
            FileEffect(setup, path, false, stack, environment)
    ensures LineEffect(setup, "#include.debug" + " " + argument, stack, environment) ==
            FileEffect(setup, path, false, stack, environment)
    ensures LineEffect(setup, "#include.required" + " " + argument, stack, environment) ==
            FileEffect(setup, path, true, stack, environment)
  {
    hide IsWhitespace, FileEffect, Trim, Expanded, ParseInclude;
    NotWhitespace();
    DirectivesAreRecognised(" ", argument);
    ALonePercentIsKept(argument, [], environment, setup.upper);
    TrimmingTakesTheSides([], argument, []);
    assert [] + argument + [] == argument;
    ADirectiveIsTrimmed("#include", argument);
    ADirectiveIsTrimmed("#include.debug", argument);
    ADirectiveIsTrimmed("#include.required", argument);
  }

  lemma ADirectiveIsTrimmed(keyword: string, argument: string)
    requires keyword != [] && keyword[0] == '#' && argument != [] && IsTrimmed(argument)
    ensures var line := keyword + " " + argument;
            Trim(line) == line && line[0] == '#'
  {
    hide IsWhitespace, Trim;
    NotWhitespace();
    var line := keyword + " " + argument;
    assert line[|line| - 1] == argument[|argument| - 1];
    TrimmingTakesTheSides([], line, []);
    assert [] + line + [] == line;
  }

  /** Lines take effect one after the other, up to the first that fails. */
  function LinesEffect(setup: Setup, lines: seq<string>, stack: seq<string>, environment: Environment): Effect
    decreases MAX_INCLUDE_DEPTH + 1 - |stack|, 2, |lines|
  {
    if lines == [] then Effect([], Fine)
    else
      var first := LineEffect(setup, lines[0], stack, environment);
      if first.outcome.Failed? then first
      else
        var rest := LinesEffect(setup, lines[1..], stack, setup.After(environment, first.made));
        Effect(first.made + rest.made, rest.outcome)
  }

  lemma {:induction false} EnvironmentInTwoSteps(
    setup: Setup, environment: Environment, a: seq<Assignment>, b: seq<Assignment>)
    ensures setup.After(environment, a + b) == setup.After(setup.After(environment, a), b)
  {
    hide WithAssignment;
    if b == [] {
      assert a + b == a;
    } else {
      var last := |b| - 1;
      EnvironmentInTwoSteps(setup, environment, a, b[..last]);
      assert (a + b)[..|a + b| - 1] == a + b[..last];
    }
  }

  /** Text in two parts: the second sees the environment that the first leaves, unless the first fails. */
  lemma {:induction false} LinesInTwoSteps(
    setup: Setup, a: seq<string>, b: seq<string>, stack: seq<string>, environment: Environment)
    ensures var first := LinesEffect(setup, a, stack, environment);
            var rest := LinesEffect(setup, b, stack, setup.After(environment, first.made));
            LinesEffect(setup, a + b, stack, environment) ==
            if first.outcome.Failed? then first else Effect(first.made + rest.made, rest.outcome)
    decreases |a|
  {
    hide LineEffect, Setup.After;
    if a == [] {
      assert a + b == b;
      NothingMade(setup, environment);
      assert [] + LinesEffect(setup, b, stack, environment).made == LinesEffect(setup, b, stack, environment).made;
    } else {
      assert (a + b)[0] == a[0] && (a + b)[1..] == a[1..] + b;
      var first := LineEffect(setup, a[0], stack, environment);
      if !first.outcome.Failed? {
        var now := setup.After(environment, first.made);
        LinesInTwoSteps(setup, a[1..], b, stack, now);
        var middle := LinesEffect(setup, a[1..], stack, now);
        EnvironmentInTwoSteps(setup, environment, first.made, middle.made);
        Assoc(first.made, middle.made, LinesEffect(setup, b, stack, setup.After(now, middle.made)).made);
      }
    }
  }

  lemma NothingMade(setup: Setup, environment: Environment)
    ensures setup.After(environment, []) == environment
  {
  }

  /** `fewer` can be had from `stack` by closing some files. */
  predicate Fewer(fewer: seq<string>, stack: seq<string>) {
    |fewer| <= |stack| && forall f :: f in fewer ==> f in stack
  }

  /** The open files can make loading fail, but never make it mean something else. */
  lemma {:induction false} OpenFilesOnlyForbid(
    setup: Setup, path: string, required: bool, stack: seq<string>, fewer: seq<string>, environment: Environment)
    requires Fewer(fewer, stack) && FileEffect(setup, path, required, stack, environment).outcome.Fine?
    ensures FileEffect(setup, path, required, fewer, environment) == FileEffect(setup, path, required, stack, environment)
    decreases MAX_INCLUDE_DEPTH + 1 - |stack|, 0, 0
  {
    hide LinesEffect, TextOf;
    var resolution := setup.disk.resolve(path);
    if resolution.Found? && setup.disk.read(resolution.path).Some? {
      var lines := TextOf(setup.disk.read(resolution.path).value);
      OpenFilesOnlyForbidLines(setup, lines, stack + [resolution.path], fewer + [resolution.path], environment);
    }
  }

  lemma {:induction false} OpenFilesOnlyForbidLines(
    setup: Setup, lines: seq<string>, stack: seq<string>, fewer: seq<string>, environment: Environment)
    requires Fewer(fewer, stack) && LinesEffect(setup, lines, stack, environment).outcome.Fine?
    ensures LinesEffect(setup, lines, fewer, environment) == LinesEffect(setup, lines, stack, environment)
    decreases MAX_INCLUDE_DEPTH + 1 - |stack|, 2, |lines|
  {
    hide LineEffect, FileEffect, Setup.After;
    if lines != [] {
      var first := LineEffect(setup, lines[0], stack, environment);
      OpenFilesOnlyForbidLine(setup, lines[0], stack, fewer, environment);
      OpenFilesOnlyForbidLines(setup, lines[1..], stack, fewer, setup.After(environment, first.made));
    }
  }

  lemma {:induction false} OpenFilesOnlyForbidLine(
    setup: Setup, raw: string, stack: seq<string>, fewer: seq<string>, environment: Environment)
    requires Fewer(fewer, stack) && LineEffect(setup, raw, stack, environment).outcome.Fine?
    ensures LineEffect(setup, raw, fewer, environment) == LineEffect(setup, raw, stack, environment)
    decreases MAX_INCLUDE_DEPTH + 1 - |stack|, 1, 0
  {
    hide FileEffect, PropertyEffect, Trim, ParseInclude, IncludedPath;
    var trimmed := Trim(raw);
    if trimmed != [] && trimmed[0] != '!' && ParseInclude(trimmed).Some? {
      var (directive, argument) := ParseInclude(trimmed).value;
      var path := IncludedPath(argument, environment, setup.upper);
      OpenFilesOnlyForbid(setup, path, directive == IncludeRequired, stack, fewer, environment);
    }
  }

  /**
   * An include is textual: where it does not fail, putting the lines of the included file in its place changes
   * neither the assignments nor the outcome.
   */
  lemma IncludedLinesMayStandInPlace(
    setup: Setup, raw: string, path: string, text: string, after: seq<string>, stack: seq<string>, environment: Environment)
    requires var t := Trim(raw);
             && t != [] && t[0] != '!' && ParseInclude(t).Some?
             && IncludedPath(ParseInclude(t).value.1, environment, setup.upper) == path
    requires setup.disk.resolve(path).Found? && setup.disk.read(setup.disk.resolve(path).path) == Some(text)
    requires LineEffect(setup, raw, stack, environment).outcome.Fine?
    ensures LinesEffect(setup, [raw] + after, stack, environment) ==
            LinesEffect(setup, TextOf(text) + after, stack, environment)
  {
    hide LinesEffect, TextOf, Trim, ParseInclude, IncludedPath, Setup.After;
    var canonical := setup.disk.resolve(path).path;
    var lines := TextOf(text);
    IncludeOpensTheFile(setup, raw, path, text, stack, environment);
    OpenFilesOnlyForbidLines(setup, lines, stack + [canonical], stack, environment);
    LinesInTwoSteps(setup, lines, after, stack, environment);
    OneLineFirst(setup, raw, after, stack, environment);
  }

  lemma IncludeOpensTheFile(
    setup: Setup, raw: string, path: string, text: string, stack: seq<string>, environment: Environment)
    requires var t := Trim(raw);
             && t != [] && t[0] != '!' && ParseInclude(t).Some?
             && IncludedPath(ParseInclude(t).value.1, environment, setup.upper) == path
    requires setup.disk.resolve(path).Found? && setup.disk.read(setup.disk.resolve(path).path) == Some(text)
    requires LineEffect(setup, raw, stack, environment).outcome.Fine?
    ensures LineEffect(setup, raw, stack, environment) ==
            LinesEffect(setup, TextOf(text), stack + [setup.disk.resolve(path).path], environment)
  {
    hide LinesEffect, TextOf, Trim, ParseInclude, IncludedPath;
  }

  lemma OneLineFirst(setup: Setup, raw: string, after: seq<string>, stack: seq<string>, environment: Environment)
    ensures var first := LineEffect(setup, raw, stack, environment);
            LinesEffect(setup, [raw] + after, stack, environment) ==
            if first.outcome.Failed? then first
            else
              var rest := LinesEffect(setup, after, stack, setup.After(environment, first.made));
              Effect(first.made + rest.made, rest.outcome)
  {
    hide LineEffect, Setup.After;
    assert ([raw] + after)[0] == raw && ([raw] + after)[1..] == after;
  }

  // ----- the loader

  predicate NoRepeats(paths: seq<string>) {
    forall i, j :: 0 <= i < j < |paths| ==> paths[i] != paths[j]
  }

  class Loader {
    const disk: Disk
    const upper: string -> string
    const overrides: seq<string>
    const lockedEnvironment: set<string>
    var properties: map<string, string>
    var environment: Environment
    var includeStack: seq<string>
    var warnings: seq<Warning>
    /** The environment at first, and every assignment since, in order. */
    ghost const initial: Environment
    ghost var applied: seq<Assignment>

    ghost predicate Valid()
      reads this
    {
      && NoRepeats(includeStack) && |includeStack| <= MAX_INCLUDE_DEPTH + 1
      && properties == PropertiesAfter(applied)
      && environment == EnvironmentAfter(initial, lockedEnvironment, applied, upper)
      && forall i :: 0 <= i < |applied| ==> CleanName(applied[i].name)
    }

    constructor (disk: Disk, upper: string -> string, overrides: seq<string>, environment: Environment, locked: set<string>)
      ensures Valid() && this.disk == disk && this.upper == upper && this.overrides == overrides
      ensures initial == environment && lockedEnvironment == locked && applied == [] && includeStack == []
    {
      this.disk, this.upper, this.overrides, lockedEnvironment := disk, upper, overrides, locked;
      this.environment, properties, includeStack, warnings := environment, map[], [], [];
      initial, applied := environment, [];
    }

    /** Every `set.` override defines its variable and locks it, the last one for a name deciding. */
    static method New(disk: Disk, upper: string -> string, overrides: seq<string>, inherited: Environment)
      returns (r: LoadOutcome, loader: Loader?)
      ensures r.Fine? <==> forall i :: 0 <= i < |overrides| ==> SplitProperty(overrides[i]).Some?
      ensures r.Fine? ==>
                && loader != null && fresh(loader) && loader.Valid()
                && loader.disk == disk && loader.upper == upper && loader.overrides == overrides
                && loader.initial == Seeded(inherited, overrides, upper)
                && loader.lockedEnvironment == Locked(overrides, upper)
                && loader.applied == [] && loader.includeStack == []
    {
      hide Seeded, Locked, SplitProperty;
      loader := null;
      NoSeeds(inherited, upper);
      var environment, locked := inherited, {};
      for i := 0 to |overrides|
        invariant environment == Seeded(inherited, overrides[..i], upper)
        invariant locked == Locked(overrides[..i], upper)
        invariant forall k :: 0 <= k < i ==> SplitProperty(overrides[k]).Some?
      {
        OneMoreSeed(inherited, overrides, i, upper);
        var split := SplitProperty(overrides[i]);
        if split.None? {
          return Failed(InvalidOverride(overrides[i])), null;
        }
        var (name, value) := split.value;
        if SET <= name {
          var normalized := upper(name[|SET|..]);
          environment := environment[normalized := value];
          locked := locked + {normalized};
        }
      }
      assert overrides[..|overrides|] == overrides;
      loader := new Loader(disk, upper, overrides, environment, locked);
      r := Fine;
    }

    method Warn(text: string)
      modifies this`warnings
    {
      warnings := warnings + [Warning(text)];
    }

    /** Defines or redefines a property, and with it perhaps a variable. */
    method Assign(name: string, value: string)
      requires Valid() && CleanName(name)
      modifies this`properties, this`environment, this`applied
      ensures Valid() && applied == old(applied) + [Assignment(name, value)]
    {
      hide CleanName, NoRepeats, PropertiesAfter, EnvironmentAfter, WithAssignment, ChangesOneVariable;
      ghost var a := Assignment(name, value);
      OneMoreAssignment(initial, lockedEnvironment, applied, a, upper);
      properties := properties[name := value];
      ApplyEnvironmentProperty(name, value);
      AnAssignmentChangesOneVariable(old(environment), environment, lockedEnvironment, a, upper);
      applied := applied + [a];
    }

    /**
     * Changes at most the variable that the property is about: not a locked one, and a default only one without a
     * value. Nothing is ever undefined.
     */
    method ApplyEnvironmentProperty(name: string, value: string)
      modifies this`environment
      ensures ChangesOneVariable(old(environment), environment, lockedEnvironment, Assignment(name, value), upper)
    {
      if SET_DEFAULT <= name {
        var normalized := upper(name[|SET_DEFAULT|..]);
        if normalized !in lockedEnvironment {
          if normalized !in environment {
            environment := environment[normalized := value];
          }
        }
      } else if SET <= name {
        var normalized := upper(name[|SET|..]);
        if normalized !in lockedEnvironment {
          environment := environment[normalized := value];
        }
      }
    }

    /** A line may define one property, include a file, or do nothing; it leaves the include stack as it was. */
    method ParseLine(raw: string, depth: nat) returns (r: LoadOutcome)
      requires Valid() && |includeStack| == depth + 1 && depth <= MAX_INCLUDE_DEPTH
      modifies this
      ensures Valid() && (r.Fine? ==> includeStack == old(includeStack))
      ensures Does(LineEffect(ThisSetup(), raw, old(includeStack), old(environment)), old(applied), r)
      decreases MAX_INCLUDE_DEPTH + 1 - depth, 0
    {
      hide Trim, Uncommented, Expanded, ParseInclude, RemoveGroupingQuotes, NoRepeats, FileEffect;
      var trimmed := Trim(raw);
      assert applied + [] == applied;
      if trimmed == [] || trimmed[0] == '!' {
        return Fine;
      }
      var inclusion := ParseInclude(trimmed);
      if inclusion.Some? {
        var (directive, argument) := inclusion.value;
        var expanded := ExpandEnvironment(argument, environment, upper);
        var path := RemoveGroupingQuotes(Trim(expanded));
        if directive == IncludeDebug {
          Warn(path);
        }
        r := LoadFile(path, depth + 1, directive == IncludeRequired);
        return r;
      }
      if trimmed[0] == '#' {
        return Fine;
      }
      var split := SplitProperty(trimmed);
      if split.None? {
        Warn(trimmed);
        return Fine;
      }
      SplitNamesAreClean(trimmed);
      var (name, rawValue) := split.value;
      if name == [] {
        return Failed(NoName(trimmed));
      }
      var uncommented := DecodeHashComments(rawValue);
      var value := ExpandEnvironment(Trim(uncommented), environment, upper);
      Assign(name, value);
      return Fine;
    }

    /**
     * Reads one file and all it includes. Whatever the files include, this ends: each level is one file deeper, no
     * file is on the stack twice, and beyond the limit nothing is read.
     */
    method LoadFile(path: string, depth: nat, required: bool) returns (r: LoadOutcome)
      requires Valid() && |includeStack| == depth && depth <= MAX_INCLUDE_DEPTH + 1
      modifies this
      ensures Valid() && (r.Fine? ==> includeStack == old(includeStack))
      ensures Does(FileEffect(ThisSetup(), path, required, old(includeStack), old(environment)), old(applied), r)
      decreases MAX_INCLUDE_DEPTH + 1 - depth, 1
    {
      hide NoRepeats, CleanName, LineEffect, LinesEffect, EnvironmentAfter, PropertiesAfter, Joined, PhysicalLines,
        AreLogicalLines;
      assert applied + [] == applied;
      if depth > MAX_INCLUDE_DEPTH {
        return Failed(TooDeep);
      }
      var resolution := disk.resolve(path);
      if resolution.NotFound? && !required {
        Warn(path);
        return Fine;
      }
      if !resolution.Found? {
        return Failed(Unreadable(path));
      }
      var canonical := resolution.path;
      if canonical in includeStack {
        return Failed(Cycle(canonical));
      }
      var text := disk.read(canonical);
      if text.None? {
        return Failed(Unreadable(canonical));
      }
      ghost var before, start, outside := includeStack, applied, environment;
      OneFileDeeper(before, canonical);
      includeStack := includeStack + [canonical];
      var lines := LogicalLines(text.value);
      NoneLeft(ThisSetup(), lines, includeStack, environment);
      for i := 0 to |lines|
        invariant Valid() && includeStack == before + [canonical]
        invariant LeadsTo(LinesEffect(ThisSetup(), lines, includeStack, outside), start,
                          LinesEffect(ThisSetup(), lines[i..], includeStack, environment))
      {
        OneLineOfMany(ThisSetup(), lines, i, includeStack, environment);
        ghost var made, now := applied, environment;
        :- ParseLine(lines[i], depth);
        ContinuesAfter(ThisSetup(), initial, made, applied[|made|..]);
        assert made + applied[|made|..] == applied;
      }
      NoneLeft(ThisSetup(), lines, includeStack, environment);
      assert applied + [] == applied;
      includeStack := includeStack[..|includeStack| - 1];
      FileDone(before, canonical);
      return Fine;
    }

    ghost function ThisSetup(): Setup {
      Setup(disk, upper, lockedEnvironment)
    }

    /** The loader has gone through exactly this effect. */
    ghost predicate Does(effect: Effect, before: seq<Assignment>, r: LoadOutcome)
      reads this`applied
    {
      applied == before + effect.made && r == effect.outcome
    }

    /** What was applied since `start`, followed by `remaining`, is the whole effect. */
    ghost predicate LeadsTo(whole: Effect, start: seq<Assignment>, remaining: Effect)
      reads this`applied
    {
      start + whole.made == applied + remaining.made && whole.outcome == remaining.outcome
    }

    /** The overrides are applied last, each with the environment as the ones before it left it. */
    method ApplyOverrides() returns (r: LoadOutcome)
      requires Valid()
      modifies this
      ensures Valid() && old(applied) <= applied && includeStack == old(includeStack)
      ensures r.Fine? ==> Overridden(applied, |old(applied)|, |overrides|)
      ensures r.Fine? <==> forall i :: 0 <= i < |overrides| ==> SplitProperty(overrides[i]).Some?
    {
      hide Expanded, Trim, NoRepeats;
      ghost var start := |applied|;
      for i := 0 to |overrides|
        invariant Valid() && old(applied) <= applied && includeStack == old(includeStack)
        invariant Overridden(applied, start, i)
        invariant forall k :: 0 <= k < i ==> SplitProperty(overrides[k]).Some?
      {
        var split := SplitProperty(overrides[i]);
        if split.None? {
          return Failed(InvalidOverride(overrides[i]));
        }
        SplitNamesAreClean(overrides[i]);
        var (name, rawValue) := split.value;
        var value := ExpandEnvironment(rawValue, environment, upper);
        ghost var before := applied;
        Assign(name, value);
        OneMoreOverride(before, Assignment(name, value), start, i);
      }
      return Fine;
    }

    /** From `start` on, the assignments are those of the first `n` overrides. */
    ghost predicate Overridden(applied: seq<Assignment>, start: nat, n: nat) {
      && n <= |overrides| && |applied| == start + n
      && forall k :: 0 <= k < n ==> IsOverride(applied, start + k, overrides[k])
    }

    ghost predicate IsOverride(applied: seq<Assignment>, at: nat, line: string) {
      && at < |applied| && SplitProperty(line).Some?
      && var (name, raw) := SplitProperty(line).value;
         applied[at] ==
         Assignment(name, Expanded(raw, EnvironmentAfter(initial, lockedEnvironment, applied[..at], upper), upper))
    }

    lemma OneMoreOverride(before: seq<Assignment>, a: Assignment, start: nat, i: nat)
      requires i < |overrides| && Overridden(before, start, i) && IsOverride(before + [a], |before|, overrides[i])
      ensures Overridden(before + [a], start, i + 1)
    {
      forall k | 0 <= k < i
        ensures IsOverride(before + [a], start + k, overrides[k])
      {
        assert (before + [a])[..start + k] == before[..start + k];
      }
    }

    /** Loads the configuration file `root`, with everything it includes, and then the overrides. */
    static method Load(disk: Disk, upper: string -> string, root: string, overrides: seq<string>, inherited: Environment)
      returns (r: LoadOutcome, loader: Loader?)
      ensures r.Fine? ==>
                && loader != null && loader.Valid() && loader.disk == disk
                && loader.overrides == overrides && loader.upper == upper
                && loader.initial == Seeded(inherited, overrides, upper)
                && loader.lockedEnvironment == Locked(overrides, upper)
                && loader.includeStack == []
                && |overrides| <= |loader.applied|
                && loader.Overridden(loader.applied, |loader.applied| - |overrides|, |overrides|)
                && FileEffect(loader.ThisSetup(), root, true, [], loader.initial) ==
                   Effect(loader.applied[..|loader.applied| - |overrides|], Fine)
      ensures var setup := Setup(disk, upper, Locked(overrides, upper));
              r.Fine? <==>
              && (forall i :: 0 <= i < |overrides| ==> SplitProperty(overrides[i]).Some?)
              && FileEffect(setup, root, true, [], Seeded(inherited, overrides, upper)).outcome.Fine?
    {
      hide SplitProperty;
      r, loader := New(disk, upper, overrides, inherited);
      if r.Failed? {
        return r, null;
      }
      NothingMade(loader.ThisSetup(), loader.initial);
      hide FileEffect, EnvironmentAfter;
      r := loader.LoadFile(root, 0, true);
      if r.Failed? {
        return r, null;
      }
      ghost var made := loader.applied;
      assert [] + FileEffect(loader.ThisSetup(), root, true, [], loader.initial).made == made;
      r := loader.ApplyOverrides();
      assert r.Fine? ==> loader.applied[..|made|] == made;
    }
  }

  lemma NoneLeft(setup: Setup, lines: seq<string>, stack: seq<string>, environment: Environment)
    ensures lines[0..] == lines && LinesEffect(setup, lines[|lines|..], stack, environment) == Effect([], Fine)
  {
  }

  lemma OneLineOfMany(setup: Setup, lines: seq<string>, i: nat, stack: seq<string>, environment: Environment)
    requires i < |lines|
    ensures var first := LineEffect(setup, lines[i], stack, environment);
            LinesEffect(setup, lines[i..], stack, environment) ==
            if first.outcome.Failed? then first
            else
              var rest := LinesEffect(setup, lines[i + 1..], stack, setup.After(environment, first.made));
              Effect(first.made + rest.made, rest.outcome)
  {
    hide LineEffect, Setup.After;
    assert lines[i..][1..] == lines[i + 1..];
  }

  lemma ContinuesAfter(setup: Setup, initial: Environment, made: seq<Assignment>, more: seq<Assignment>)
    ensures EnvironmentAfter(initial, setup.locked, made + more, setup.upper) ==
            setup.After(EnvironmentAfter(initial, setup.locked, made, setup.upper), more)
  {
    EnvironmentInTwoSteps(setup, initial, made, more);
  }

  lemma OneFileDeeper(stack: seq<string>, path: string)
    requires NoRepeats(stack) && path !in stack
    ensures NoRepeats(stack + [path])
  {
  }

  lemma FileDone(stack: seq<string>, path: string)
    requires NoRepeats(stack + [path])
    ensures NoRepeats(stack) && (stack + [path])[..|stack|] == stack
  {
    assert forall i :: 0 <= i < |stack| ==> (stack + [path])[i] == stack[i];
  }

  // ----- what a loaded configuration promises

  /** Override `i` locks a variable that no later override locks again. */
  ghost predicate LocksLast(overrides: seq<string>, upper: string -> string, i: nat) {
    && i < |overrides| && LockedBy(overrides[i], upper).Some?
    && forall j :: i < j < |overrides| && LockedBy(overrides[j], upper).Some? ==>
         LockedBy(overrides[j], upper).value.name != LockedBy(overrides[i], upper).value.name
  }

  /** A variable defined on the command line has the value last written there, whatever the files and overrides say. */
  lemma LockedVariablesKeepTheirOverride(loader: Loader, inherited: Environment, i: nat)
    requires loader.Valid() && LocksLast(loader.overrides, loader.upper, i)
    requires loader.initial == Seeded(inherited, loader.overrides, loader.upper)
    requires loader.lockedEnvironment == Locked(loader.overrides, loader.upper)
    ensures var a := LockedBy(loader.overrides[i], loader.upper).value;
            a.name in loader.environment && loader.environment[a.name] == a.value
  {
    hide LockedBy;
    var a := LockedBy(loader.overrides[i], loader.upper).value;
    TheLastOverrideIsLocked(inherited, loader.overrides, loader.upper, i);
    LockedNamesKeepTheirValue(loader.initial, loader.lockedEnvironment, loader.applied, loader.upper, a.name);
  }

  /** A property given on the command line has the value of its last override, whatever the files say. */
  lemma OverridesBeatFiles(loader: Loader, i: nat)
    requires loader.Valid() && i < |loader.overrides| <= |loader.applied|
    requires loader.Overridden(loader.applied, |loader.applied| - |loader.overrides|, |loader.overrides|)
    requires forall j :: i < j < |loader.overrides| ==>
               SplitProperty(loader.overrides[j]).value.0 != SplitProperty(loader.overrides[i]).value.0
    ensures var (name, raw) := SplitProperty(loader.overrides[i]).value;
            var before := loader.applied[..|loader.applied| - |loader.overrides| + i];
            var environment := EnvironmentAfter(loader.initial, loader.lockedEnvironment, before, loader.upper);
            name in loader.properties && loader.properties[name] == Expanded(raw, environment, loader.upper)
  {
    hide SplitProperty, Expanded, EnvironmentAfter, PropertiesAfter;
    var start := |loader.applied| - |loader.overrides|;
    var at := start + i;
    assert loader.IsOverride(loader.applied, start + i, loader.overrides[i]);
    forall j | at < j < |loader.applied|
      ensures loader.applied[j].name != loader.applied[at].name
    {
      assert loader.IsOverride(loader.applied, start + (j - start), loader.overrides[j - start]);
    }
    TheLastAssignmentCounts(loader.applied, at);
  }

  /** The environment in which override `i` was expanded. */
  ghost function Before(loader: Loader, i: nat): Environment
    reads loader
    requires i < |loader.overrides| <= |loader.applied|
  {
    var before := loader.applied[..|loader.applied| - |loader.overrides| + i];
    EnvironmentAfter(loader.initial, loader.lockedEnvironment, before, loader.upper)
  }

  lemma LastLockIsLastOverride(overrides: seq<string>, upper: string -> string, i: nat, j: nat)
    requires LocksLast(overrides, upper, i) && i < j < |overrides| && SplitProperty(overrides[j]).Some?
    ensures SplitProperty(overrides[j]).value.0 != SplitProperty(overrides[i]).value.0
  {
    hide SplitProperty;
    assert LockedBy(overrides[i], upper).Some?;
  }

  /**
   * An override that defines a variable gives the property its expanded text and the variable the text as written:
   * they agree if and only if expanding changes nothing, and so whenever no known variable occurs in the text.
   */
  lemma PropertyAndVariableAgreeIff(loader: Loader, inherited: Environment, i: nat)
    requires loader.Valid() && i < |loader.overrides| <= |loader.applied| && LocksLast(loader.overrides, loader.upper, i)
    requires loader.initial == Seeded(inherited, loader.overrides, loader.upper)
    requires loader.lockedEnvironment == Locked(loader.overrides, loader.upper)
    requires loader.Overridden(loader.applied, |loader.applied| - |loader.overrides|, |loader.overrides|)
    ensures var (name, raw) := SplitProperty(loader.overrides[i]).value;
            var variable := LockedBy(loader.overrides[i], loader.upper).value.name;
            && name in loader.properties && loader.properties[name] == Expanded(raw, Before(loader, i), loader.upper)
            && variable in loader.environment && loader.environment[variable] == raw
            && (loader.properties[name] == loader.environment[variable] <==>
                  Expanded(raw, Before(loader, i), loader.upper) == raw)
            && (NothingKnown(raw, Before(loader, i), loader.upper) ==>
                  loader.properties[name] == loader.environment[variable])
  {
    hide SplitProperty, Expanded, EnvironmentAfter, PropertiesAfter, NothingKnown;
    var start := |loader.applied| - |loader.overrides|;
    forall j | i < j < |loader.overrides|
      ensures SplitProperty(loader.overrides[j]).value.0 != SplitProperty(loader.overrides[i]).value.0
    {
      assert loader.IsOverride(loader.applied, start + j, loader.overrides[j]);
      LastLockIsLastOverride(loader.overrides, loader.upper, i, j);
    }
    OverridesBeatFiles(loader, i);
    LockedVariablesKeepTheirOverride(loader, inherited, i);
    var raw := SplitProperty(loader.overrides[i]).value.1;
    if NothingKnown(raw, Before(loader, i), loader.upper) {
      UnknownVariablesAreKept(raw, Before(loader, i), loader.upper);
    }
  }

  /** A value without percent signs holds no variable, whatever is defined. */
  lemma NoPercentNothingKnown(value: string, environment: Environment, upper: string -> string)
    requires '%' !in value
    ensures NothingKnown(value, environment, upper)
  {
  }

  lemma SplitAtEquals(name: string, value: string)
    requires '=' !in name && name != [] && !IsWhitespace(name[0]) && !IsWhitespace(name[|name| - 1])
    ensures SplitProperty(name + ['='] + value) == Some((name, value))
  {
    var line := name + ['='] + value;
    IndexOfIsFirst(name, '=', value);
    assert line[..|name|] == name && line[|name| + 1..] == value;
    assert Leading(name) == 0 && End(name) == |name|;
    assert name[0..] == name && name[..|name|] == name;
  }

  /** With Y defined as 1, `set.X=%Y%` makes the property 1 and the variable `%Y%`. */
  method AnExpandedOverride() returns (property: string, variable: string)
    ensures property == "1" && variable == "%Y%"
  {
    var upper := s => AsciiUpper(s);
    var disk := Disk(path => Found(path), path => Some([]));
    var overrides := ["set.X=%Y%"];
    var inherited := map["Y" := "1"];
    OneOverride(disk, upper, inherited);
    var r, loader := Loader.Load(disk, upper, "wrapper.conf", overrides, inherited);
    hide *;
    LoadedOverride(loader, disk, upper, inherited);
    return loader.properties["set.X"], loader.environment["X"];
  }

  lemma SetXIsSplit()
    ensures SplitProperty("set.X=%Y%") == Some(("set.X", "%Y%"))
  {
    assert "set.X=%Y%" == "set.X" + ['='] + "%Y%";
    SplitAtEquals("set.X", "%Y%");
  }

  lemma UpperX(upper: string -> string)
    requires forall s :: upper(s) == AsciiUpper(s)
    ensures upper("X") == "X" && upper("Y") == "Y"
    ensures LockedBy("set.X=%Y%", upper) == Some(Assignment("X", "%Y%"))
  {
    SetXIsSplit();
    assert AsciiUpper("X") == "X" && AsciiUpper("Y") == "Y";
    assert "set.X"[|SET|..] == "X";
  }

  lemma OneOverride(disk: Disk, upper: string -> string, inherited: Environment)
    requires forall path :: disk.resolve(path) == Found(path) && disk.read(path) == Some([])
    requires forall s :: upper(s) == AsciiUpper(s)
    ensures var overrides := ["set.X=%Y%"];
            && SplitProperty(overrides[0]).Some?
            && FileEffect(Setup(disk, upper, Locked(overrides, upper)), "wrapper.conf", true, [],
                          Seeded(inherited, overrides, upper)) == Effect([], Fine)
  {
    hide SplitProperty, Seeded, Locked, FileEffect;
    SetXIsSplit();
    var overrides := ["set.X=%Y%"];
    EmptyFile(Setup(disk, upper, Locked(overrides, upper)), "wrapper.conf", Seeded(inherited, overrides, upper));
  }

  lemma EmptyFile(setup: Setup, path: string, environment: Environment)
    requires setup.disk.resolve(path) == Found(path) && setup.disk.read(path) == Some([])
    ensures FileEffect(setup, path, true, [], environment) == Effect([], Fine)
  {
    assert TextOf([]) == [];
    hide TextOf;
  }

  lemma LoadedOverride(loader: Loader, disk: Disk, upper: string -> string, inherited: Environment)
    requires inherited == map["Y" := "1"] && loader.Valid() && loader.overrides == ["set.X=%Y%"] && loader.upper == upper
    requires forall s :: upper(s) == AsciiUpper(s)
    requires loader.initial == Seeded(inherited, loader.overrides, upper)
    requires loader.lockedEnvironment == Locked(loader.overrides, upper)
    requires |loader.applied| == 1 && loader.Overridden(loader.applied, 0, 1)
    ensures "set.X" in loader.properties && loader.properties["set.X"] == "1"
    ensures "X" in loader.environment && loader.environment["X"] == "%Y%"
  {
    hide SplitProperty, LockedBy, Expanded, Seeded, Locked, EnvironmentAfter, PropertiesAfter, CleanName, NoRepeats;
    UpperX(upper);
    SetXIsSplit();
    SeededX(inherited, upper);
    assert loader.applied[..0] == [];
    NothingMade(loader.ThisSetup(), loader.initial);
    YExpands(loader.initial, upper);
    PropertyAndVariableAgreeIff(loader, inherited, 0);
  }

  lemma SeededX(inherited: Environment, upper: string -> string)
    requires LockedBy("set.X=%Y%", upper) == Some(Assignment("X", "%Y%"))
    ensures Seeded(inherited, ["set.X=%Y%"], upper) == inherited["X" := "%Y%"]
  {
    hide LockedBy;
    NoSeeds(inherited, upper);
    OneMoreSeed(inherited, ["set.X=%Y%"], 0, upper);
    assert ["set.X=%Y%"][..0] == [] && ["set.X=%Y%"][..1] == ["set.X=%Y%"];
  }

  lemma YExpands(environment: Environment, upper: string -> string)
    requires upper("Y") == "Y" && "Y" in environment && environment["Y"] == "1"
    ensures Expanded("%Y%", environment, upper) == "1"
  {
    VariableIsReplaced([], "Y", [], environment, upper);
    assert [] + ['%'] + ("Y" + ['%'] + []) == "%Y%";
    assert Expanded([], environment, upper) == [];
    assert [] + "1" + [] == "1";
  }

  /** An override `set.NAME=value` defines and locks the variable with the upper-case name, and no other override does. */
  lemma AnOverrideLocksItsVariable(n: string, value: string, upper: string -> string)
    requires '=' !in n && n != [] && !IsWhitespace(n[|n| - 1])
    ensures LockedBy("set." + n + "=" + value, upper) == Some(Assignment(upper(n), value))
    ensures !IsWhitespace(n[0]) && !("set." <= n) ==> LockedBy(n + "=" + value, upper).None?
  {
    SplitAtEquals("set." + n, value);
    assert ("set." + n)[|SET|..] == n;
    assert SET <= "set." + n;
    if !IsWhitespace(n[0]) {
      SplitAtEquals(n, value);
    }
  }

  /** An override of a default locks a variable whose name begins like the upper-case form of `default.`. */
  lemma DefaultsLockAnotherName(n: string, value: string, upper: string -> string)
    requires '=' !in n && n != [] && !IsWhitespace(n[|n| - 1])
    ensures LockedBy(SET_DEFAULT + n + ['='] + value, upper) == Some(Assignment(upper("default." + n), value))
  {
    AnOverrideLocksItsVariable("default." + n, value, upper);
    hide *;
    TheSameOverride(n, value);
  }

  lemma TheSameOverride(n: string, value: string)
    ensures "set." + ("default." + n) + "=" + value == SET_DEFAULT + n + ['='] + value
  {
    assert SET_DEFAULT == "set." + "default.";
    Assoc("set.", "default.", n);
  }

  lemma DefaultXIsLocked(upper: string -> string)
    requires forall s :: upper(s) == AsciiUpper(s)
    ensures LockedBy("set.default.X=v", upper) == Some(Assignment("DEFAULT.X", "v"))
  {
    DefaultXIsWritten();
    hide *;
    DefaultsLockAnotherName("X", "v", upper);
  }

  lemma DefaultXIsWritten()
    ensures "set.default.X=v" == SET_DEFAULT + "X" + ['='] + "v"
    ensures AsciiUpper("default." + "X") == "DEFAULT.X"
    ensures '=' !in "X" && !IsWhitespace("X"[|"X"| - 1])
  {
    assert "default." + "X" == "default.X";
  }

  lemma EveryNameIsClean(loader: Loader, n: string)
    requires loader.Valid() && n in loader.properties
    ensures CleanName(n)
  {
    OnlyAssignedNames(loader.applied, n);
  }
}
