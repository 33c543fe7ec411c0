/** The command line (src/cli.rs) and the one that an installed service is registered with (src/service.rs). */
module CommandLines {
  import opened Prelude
  import opened Text

  /** An argument of the operating system, which need not be Unicode; `lossy` is what it is shown as. */
  datatype Argument = Unicode(text: string) | Broken(lossy: string) {
    function Lossy(): string {
      if Unicode? then text else lossy
    }
  }

  datatype Command =
    | Console | Service | Start | Pause | Resume | Stop | Install | InstallStart | Remove
    | ControlCode(code: nat) | Dump | HeapDump | Query(silent: bool) | Version | Help
  {
    predicate NeedsConfiguration() {
      !Version? && !Help?
    }
  }

  datatype Cli = Cli(command: Command, configuration: Argument, overrides: seq<string>, applicationArgs: seq<Argument>)

  datatype Problem =
    | InvalidControlCode(code: string) | UnknownCommand(command: string) | MissingConfiguration
    | NotUnicode | NotAProperty(text: string)

  const SEPARATOR: Argument := Unicode("--")
  const DEFAULT_CONFIGURATION: Argument := Unicode("wrapper.conf")

  // ----- commands

  function DigitsValue(s: string): Option<nat> {
    if s == [] then None
    else if !('0' <= s[|s| - 1] <= '9') then None
    else
      var digit := s[|s| - 1] as int - '0' as int;
      if |s| == 1 then Some(digit)
      else match DigitsValue(s[..|s| - 1])
           case None => None
           case Some(n) => Some(10 * n + digit)
  }

  /** `str::parse::<u32>`, which allows a plus sign. */
  function ParseU32(s: string): Option<nat> {
    match DigitsValue(if s != [] && s[0] == '+' then s[1..] else s)
    case Some(n) => if n <= U32_MAX then Some(n) else None
    case None => None
  }

  /** A number in decimal digits, without leading zeros. */
  function Decimal(n: nat): string {
    var digit := ['0' + (n % 10) as char];
    if n < 10 then digit else Decimal(n / 10) + digit
  }

  function Zeros(n: nat): string {
    seq(n, _ => '0')
  }

  lemma {:induction false} ZerosCountNothing(zeros: nat, n: nat)
    ensures DigitsValue(Zeros(zeros) + Decimal(n)) == Some(n)
  {
    var s := Zeros(zeros) + Decimal(n);
    var digit := ['0' + (n % 10) as char];
    if n >= 10 {
      ZerosCountNothing(zeros, n / 10);
      assert s[..|s| - 1] == Zeros(zeros) + Decimal(n / 10);
    } else if zeros > 0 {
      OnlyZeros(zeros);
      assert s[..|s| - 1] == Zeros(zeros);
    } else {
      assert s == digit;
    }
  }

  lemma {:induction false} OnlyZeros(n: nat)
    requires n > 0
    ensures DigitsValue(Zeros(n)) == Some(0)
  {
    if n > 1 {
      OnlyZeros(n - 1);
      assert Zeros(n)[..n - 1] == Zeros(n - 1);
    }
  }

  lemma {:induction false} OnlyDigitsCount(s: string, i: nat)
    requires i < |s| && !('0' <= s[i] <= '9')
    ensures DigitsValue(s).None?
  {
    if i < |s| - 1 {
      OnlyDigitsCount(s[..|s| - 1], i);
    }
  }

  /** A number up to 2^32 - 1 is read from its digits, with leading zeros or a plus sign. */
  lemma NumbersAreRead(zeros: nat, n: nat)
    ensures var digits := Zeros(zeros) + Decimal(n);
            ParseU32(digits) == ParseU32("+" + digits) == if n <= 4294967295 then Some(n) else None
  {
    hide DigitsValue, Decimal;
    var digits := Zeros(zeros) + Decimal(n);
    ZerosCountNothing(zeros, n);
    FirstIsDigit(zeros, n);
    assert ("+" + digits)[1..] == digits;
  }

  /** Nothing but digits, perhaps behind a plus sign, is a number. */
  lemma OnlyNumbersAreRead(s: string)
    ensures s == [] || s == "+" || (exists i :: 1 <= i < |s| && !('0' <= s[i] <= '9')) ==> ParseU32(s).None?
    ensures s != [] && s[0] != '+' && !('0' <= s[0] <= '9') ==> ParseU32(s).None?
  {
    if s != [] && s[0] != '+' && !('0' <= s[0] <= '9') {
      OnlyDigitsCount(s, 0);
    }
    if i :| 1 <= i < |s| && !('0' <= s[i] <= '9') {
      if s[0] == '+' {
        OnlyDigitsCount(s[1..], i - 1);
      } else {
        OnlyDigitsCount(s, i);
      }
    }
  }

  lemma {:induction false} FirstIsDigit(zeros: nat, n: nat)
    ensures var digits := Zeros(zeros) + Decimal(n); digits != [] && digits[0] != '+'
  {
    if zeros == 0 {
      assert Zeros(0) + Decimal(n) == Decimal(n);
      if n >= 10 {
        FirstIsDigit(0, n / 10);
        assert Zeros(0) + Decimal(n / 10) == Decimal(n / 10);
      }
    }
  }

  function ParseCode(text: string): Result<Option<Command>, Problem> {
    match ParseU32(text)
    case Some(code) => Success(Some(ControlCode(code)))
    case None => Failure(InvalidControlCode(text))
  }

  function CommandCalled(lower: string): Option<Command> {
    if lower == "-c" || lower == "--console" then Some(Console)
    else if lower == "-s" || lower == "--service" then Some(Service)
    else if lower == "-t" || lower == "--start" then Some(Start)
    else if lower == "-a" || lower == "--pause" then Some(Pause)
    else if lower == "-e" || lower == "--resume" then Some(Resume)
    else if lower == "-p" || lower == "--stop" then Some(Stop)
    else if lower == "-i" || lower == "--install" then Some(Install)
    else if lower == "-it" || lower == "--installstart" then Some(InstallStart)
    else if lower == "-r" || lower == "--remove" then Some(Remove)
    else if lower == "-d" || lower == "--dump" then Some(Dump)
    else if lower == "--heapdump" then Some(HeapDump)
    else if lower == "-q" || lower == "--query" then Some(Query(false))
    else if lower == "-qs" || lower == "--querysilent" then Some(Query(true))
    else if lower == "-v" || lower == "--version" then Some(Version)
    else if lower == "-?" || lower == "--help" || lower == "-h" then Some(Help)
    else None
  }

  function ParseCommand(argument: Argument): Result<Option<Command>, Problem> {
    var lower := AsciiLower(argument.Lossy());
    match CommandCalled(lower)
    case Some(command) => Success(Some(command))
    case None =>
      if "-l=" <= lower then ParseCode(lower[|"-l="|..])
      else if "--controlcode=" <= lower then ParseCode(lower[|"--controlcode="|..])
      else Success(None)
  }

  /** How a command is called, capitals aside. */
  function Names(command: Command): set<string> {
    match command
    case Console => {"-c", "--console"}
    case Service => {"-s", "--service"}
    case Start => {"-t", "--start"}
    case Pause => {"-a", "--pause"}
    case Resume => {"-e", "--resume"}
    case Stop => {"-p", "--stop"}
    case Install => {"-i", "--install"}
    case InstallStart => {"-it", "--installstart"}
    case Remove => {"-r", "--remove"}
    case ControlCode(_) => {}
    case Dump => {"-d", "--dump"}
    case HeapDump => {"--heapdump"}
    case Query(silent) => if silent then {"-qs", "--querysilent"} else {"-q", "--query"}
    case Version => {"-v", "--version"}
    case Help => {"-?", "--help", "-h"}
  }

  /** The number of a control code stands behind the option. */
  predicate NamesCode(name: string, code: nat) {
    || ("-l=" <= name && ParseU32(name[3..]) == Some(code))
    || ("--controlcode=" <= name && ParseU32(name[14..]) == Some(code))
  }

  lemma CalledByItsName(name: string, command: Command)
    ensures CommandCalled(name) == Some(command) <==> name in Names(command)
  {
    if CommandCalled(name).Some? {
      var called := CommandCalled(name).value;
      assert name in Names(called);
      hide CommandCalled;
      if name in Names(command) {
        NamesDiffer(name, called, command);
      }
    } else {
      CalledByNone(name, command);
    }
  }

  lemma CalledByNone(name: string, command: Command)
    requires CommandCalled(name).None?
    ensures name !in Names(command)
  {
  }

  /** What tells the names apart: the length and two letters. */
  function Mark(name: string): (nat, char, char) {
    (|name|, if |name| > 2 then name[2] else if |name| > 1 then name[1] else ' ', if |name| > 4 then name[4] else '-')
  }

  function Marked(mark: (nat, char, char)): Option<Command> {
    var (length, second, fourth) := mark;
    if length == 2 then
      (match second
       case 'c' => Some(Console) case 's' => Some(Service) case 't' => Some(Start) case 'a' => Some(Pause)
       case 'e' => Some(Resume) case 'p' => Some(Stop) case 'i' => Some(Install) case 'r' => Some(Remove)
       case 'd' => Some(Dump) case 'q' => Some(Query(false)) case 'v' => Some(Version)
       case '?' => Some(Help) case 'h' => Some(Help) case _ => None)
    else if length == 3 then
      (match second case 't' => Some(InstallStart) case 's' => Some(Query(true)) case _ => None)
    else if length == 6 then
      (match second case 's' => Some(Stop) case 'd' => Some(Dump) case 'h' => Some(Help) case _ => None)
    else if length == 7 then
      (match second case 's' => Some(Start) case 'p' => Some(Pause) case 'q' => Some(Query(false)) case _ => None)
    else if length == 8 && second == 'r' then if fourth == 's' then Some(Resume) else Some(Remove)
    else if length == 9 then
      (match second
       case 'c' => Some(Console) case 's' => Some(Service) case 'i' => Some(Install) case 'v' => Some(Version)
       case _ => None)
    else if length == 10 && second == 'h' then Some(HeapDump)
    else if length == 13 && second == 'q' then Some(Query(true))
    else if length == 14 && second == 'i' then Some(InstallStart)
    else None
  }

  lemma TheMarkOf(name: string, command: Command)
    ensures name in Names(command) ==> Marked(Mark(name)) == Some(command)
    ensures name in Names(command) ==> |name| > 1 && !("-l=" <= name) && !("--controlcode=" <= name)
  {
    if name in Names(command) {
      hide CommandCalled;
      match command
      case _ =>
    }
  }

  lemma NamesDiffer(name: string, a: Command, b: Command)
    requires name in Names(a) && name in Names(b)
    ensures a == b
  {
    hide Names, Mark, Marked;
    TheMarkOf(name, a);
    TheMarkOf(name, b);
  }

  /** An argument is a command exactly when it is one of its names, in capitals or not. */
  lemma CommandsAreNamed(argument: Argument, command: Command)
    ensures var name := AsciiLower(argument.Lossy());
            ParseCommand(argument) == Success(Some(command)) <==>
            name in Names(command) || (command.ControlCode? && NamesCode(name, command.code))
  {
    hide AsciiLower, ParseU32, CommandCalled;
    var name := AsciiLower(argument.Lossy());
    CalledByItsName(name, command);
    match CommandCalled(name) {
      case Some(called) =>
        CalledByItsName(name, called);
        TheMarkOf(name, called);
      case None =>
        assert "-l=" <= name ==> name[1] == 'l';
        assert "--controlcode=" <= name ==> name[1] == '-';
    }
  }

  predicate LooksLikeOverride(argument: Argument) {
    '=' in argument.Lossy()
  }

  predicate LooksLikeCommand(argument: Argument) {
    argument.Lossy() != [] && argument.Lossy()[0] == '-'
  }

  // ----- parsing

  function ParsedOverrides(arguments: seq<Argument>): Result<seq<string>, Problem> {
    if arguments == [] then Success([])
    else if arguments[0].Broken? then Failure(NotUnicode)
    else if '=' !in arguments[0].text then Failure(NotAProperty(arguments[0].text))
    else
      var rest :- ParsedOverrides(arguments[1..]);
      Success([arguments[0].text] + rest)
  }

  function WithOverrides(command: Command, configuration: Argument, rest: seq<Argument>, application: seq<Argument>)
    : Result<Cli, Problem>
  {
    var overrides :- ParsedOverrides(rest);
    Success(Cli(command, configuration, overrides, application))
  }

  function WithConfiguration(command: Command, explicit: bool, rest: seq<Argument>, application: seq<Argument>)
    : Result<Cli, Problem>
  {
    if command.NeedsConfiguration() && rest != [] then
      if !LooksLikeOverride(rest[0]) then WithOverrides(command, rest[0], rest[1..], application)
      else if !explicit then Failure(MissingConfiguration)
      else WithOverrides(command, DEFAULT_CONFIGURATION, rest, application)
    else WithOverrides(command, DEFAULT_CONFIGURATION, rest, application)
  }

  function WithCommand(wrapper: seq<Argument>, application: seq<Argument>): Result<Cli, Problem> {
    if wrapper == [] then WithConfiguration(Console, false, wrapper, application)
    else
      var command :- ParseCommand(wrapper[0]);
      match command
      case Some(c) => WithConfiguration(c, true, wrapper[1..], application)
      case None =>
        if LooksLikeCommand(wrapper[0]) then Failure(UnknownCommand(wrapper[0].Lossy()))
        else WithConfiguration(Console, false, wrapper, application)
  }

  /** Where the first `--` is, or the number of arguments. */
  function Separator(arguments: seq<Argument>): (at: nat)
    ensures at <= |arguments| && SEPARATOR !in arguments[..at] && (at < |arguments| ==> arguments[at] == SEPARATOR)
  {
    if arguments == [] || arguments[0] == SEPARATOR then 0
    else
      var at := 1 + Separator(arguments[1..]);
      assert arguments[..at] == [arguments[0]] + arguments[1..][..at - 1];
      at
  }

  function Parsed(arguments: seq<Argument>): Result<Cli, Problem> {
    var at := Separator(arguments);
    WithCommand(arguments[..at], if at < |arguments| then arguments[at + 1..] else [])
  }

  lemma {:induction false} OverridesSoFar(arguments: seq<Argument>, done: nat, overrides: seq<string>)
    requires done <= |arguments| && |overrides| == done
    requires forall i :: 0 <= i < done ==> arguments[i] == Unicode(overrides[i]) && '=' in overrides[i]
    ensures ParsedOverrides(arguments) ==
            match ParsedOverrides(arguments[done..])
            case Success(rest) => Success(overrides + rest)
            case Failure(problem) => Failure(problem)
  {
    if done == 0 {
      assert arguments[0..] == arguments;
      assert forall rest: seq<string> :: overrides + rest == rest;
    } else {
      OverridesSoFar(arguments[1..], done - 1, overrides[1..]);
      assert arguments[1..][done - 1..] == arguments[done..];
      assert overrides == [overrides[0]] + overrides[1..];
      assert forall rest :: [overrides[0]] + (overrides[1..] + rest) == overrides + rest;
    }
  }

  method Parse(arguments: seq<Argument>) returns (r: Result<Cli, Problem>)
    ensures r == Parsed(arguments)
  {
    hide ParseCommand, ParsedOverrides;
    var separator := Separator(arguments);
    var wrapperArgs, applicationArgs := arguments[..separator], [];
    if separator < |arguments| {
      applicationArgs := arguments[separator + 1..];
    }
    var cursor := 0;
    var explicitCommand := false;
    var command := Console;
    if wrapperArgs != [] {
      var parsed :- ParseCommand(wrapperArgs[0]);
      if parsed.Some? {
        cursor := 1;
        explicitCommand := true;
        command := parsed.value;
      } else if LooksLikeCommand(wrapperArgs[0]) {
        return Failure(UnknownCommand(wrapperArgs[0].Lossy()));
      }
    }
    ghost var rest := wrapperArgs[cursor..];
    assert Parsed(arguments) == WithConfiguration(command, explicitCommand, rest, applicationArgs);
    var configuration := DEFAULT_CONFIGURATION;
    if command.NeedsConfiguration() && cursor < |wrapperArgs| {
      var candidate := wrapperArgs[cursor];
      if !LooksLikeOverride(candidate) {
        configuration := candidate;
        cursor := cursor + 1;
      } else if !explicitCommand {
        return Failure(MissingConfiguration);
      }
    }
    assert wrapperArgs[cursor..] == if |wrapperArgs| - cursor == |rest| then rest else rest[1..];
    assert Parsed(arguments) == WithOverrides(command, configuration, wrapperArgs[cursor..], applicationArgs);
    var overrides :- ParseOverrides(wrapperArgs[cursor..]);
    return Success(Cli(command, configuration, overrides, applicationArgs));
  }

  method ParseOverrides(arguments: seq<Argument>) returns (r: Result<seq<string>, Problem>)
    ensures r == ParsedOverrides(arguments)
  {
    var overrides := [];
    for i := 0 to |arguments|
      invariant |overrides| == i
      invariant forall k :: 0 <= k < i ==> arguments[k] == Unicode(overrides[k]) && '=' in overrides[k]
    {
      OverridesSoFar(arguments, i, overrides);
      if arguments[i].Broken? {
        return Failure(NotUnicode);
      }
      var text := arguments[i].text;
      if '=' !in text {
        return Failure(NotAProperty(text));
      }
      overrides := overrides + [text];
    }
    OverridesSoFar(arguments, |arguments|, overrides);
    assert overrides + [] == overrides;
    return Success(overrides);
  }

  // ----- the grammar

  function AsArguments(overrides: seq<string>): seq<Argument> {
    seq(|overrides|, i requires 0 <= i < |overrides| => Unicode(overrides[i]))
  }

  /** How a command line is written: an optional command, an optional configuration, overrides, and the rest after `--`. */
  datatype Style = Style(command: Option<Argument>, configured: bool, separated: bool)

  function WrapperPart(style: Style, cli: Cli): seq<Argument> {
    (if style.command.Some? then [style.command.value] else [])
    + (if style.configured then [cli.configuration] else [])
    + AsArguments(cli.overrides)
  }

  function Written(style: Style, cli: Cli): seq<Argument> {
    WrapperPart(style, cli) + if style.separated then [Unicode("--")] + cli.applicationArgs else []
  }

  predicate Proper(style: Style, cli: Cli) {
    && (match style.command
        case Some(argument) => argument != Unicode("--") && ParseCommand(argument) == Success(Some(cli.command))
        case None =>
          && cli.command == Console && (!style.configured ==> cli.overrides == [])
          && (style.configured ==>
                ParseCommand(cli.configuration) == Success(None)
                && (cli.configuration.Lossy() != [] ==> cli.configuration.Lossy()[0] != '-')))
    && (if style.configured then
          && cli.command != Version && cli.command != Help
          && '=' !in cli.configuration.Lossy() && cli.configuration != Unicode("--")
        else cli.configuration == Unicode("wrapper.conf"))
    && (forall i :: 0 <= i < |cli.overrides| ==> '=' in cli.overrides[i])
    && (!style.separated ==> cli.applicationArgs == [])
  }

  /** A well-formed command line for `cli`. */
  ghost predicate Spells(arguments: seq<Argument>, cli: Cli) {
    exists style :: Proper(style, cli) && arguments == Written(style, cli)
  }

  lemma {:induction false} OverridesAreParsed(overrides: seq<string>)
    requires forall i :: 0 <= i < |overrides| ==> '=' in overrides[i]
    ensures ParsedOverrides(AsArguments(overrides)) == Success(overrides)
  {
    OverridesSoFar(AsArguments(overrides), |overrides|, overrides);
    assert AsArguments(overrides)[|overrides|..] == [];
    assert overrides + [] == overrides;
  }

  lemma {:induction false} ParsedAreOverrides(arguments: seq<Argument>)
    requires ParsedOverrides(arguments).Success?
    ensures var overrides := ParsedOverrides(arguments).value;
            arguments == AsArguments(overrides) && forall i :: 0 <= i < |overrides| ==> '=' in overrides[i]
  {
    if arguments != [] {
      ParsedAreOverrides(arguments[1..]);
      var overrides := ParsedOverrides(arguments).value;
      assert AsArguments(overrides) == [arguments[0]] + AsArguments(overrides[1..]);
    }
  }

  lemma {:induction false} SeparatorIs(before: seq<Argument>, after: seq<Argument>)
    requires SEPARATOR !in before && (after == [] || after[0] == SEPARATOR)
    ensures Separator(before + after) == |before|
  {
    if before == [] {
      assert before + after == after;
    } else {
      assert (before + after)[0] == before[0] && (before + after)[1..] == before[1..] + after;
      SeparatorIs(before[1..], after);
    }
  }

  lemma WrittenIsParsed(style: Style, cli: Cli)
    requires Proper(style, cli)
    ensures Parsed(Written(style, cli)) == Success(cli)
  {
    hide ParseCommand, ParsedOverrides, Separator;
    var wrapper := WrapperPart(style, cli);
    var tail := if style.separated then [SEPARATOR] + cli.applicationArgs else [];
    assert SEPARATOR !in AsArguments(cli.overrides) by {
      assert forall i :: 0 <= i < |cli.overrides| ==> cli.overrides[i] != "--";
    }
    SeparatorIs(wrapper, tail);
    assert (wrapper + tail)[..|wrapper|] == wrapper;
    assert style.separated ==> (wrapper + tail)[|wrapper| + 1..] == cli.applicationArgs;
    WrapperIsParsed(style, cli);
  }

  lemma WrapperIsParsed(style: Style, cli: Cli)
    requires Proper(style, cli)
    ensures WithCommand(WrapperPart(style, cli), cli.applicationArgs) == Success(cli)
  {
    hide ParseCommand, ParsedOverrides, AsArguments;
    OverridesAreParsed(cli.overrides);
    var overrides := AsArguments(cli.overrides);
    assert overrides == [] || (overrides[0].Unicode? && LooksLikeOverride(overrides[0])) by {
      FirstOverride(cli.overrides);
    }
    assert cli.overrides == [] ==> overrides == [] by { NoOverrides(cli.overrides); }
    var rest := (if style.configured then [cli.configuration] else []) + overrides;
    assert rest == if style.configured then [cli.configuration] + overrides else overrides;
    if style.command.Some? {
      assert WrapperPart(style, cli) == [style.command.value] + rest;
    } else {
      assert WrapperPart(style, cli) == rest;
    }
    assert WithConfiguration(cli.command, style.command.Some?, rest, cli.applicationArgs) == Success(cli);
  }

  lemma FirstOverride(overrides: seq<string>)
    requires forall i :: 0 <= i < |overrides| ==> '=' in overrides[i]
    ensures var arguments := AsArguments(overrides);
            arguments == [] || (arguments[0].Unicode? && LooksLikeOverride(arguments[0]))
  {
  }

  lemma OverridesAreWritten(command: Command, configuration: Argument, rest: seq<Argument>, application: seq<Argument>)
    requires WithOverrides(command, configuration, rest, application).Success?
    ensures var cli := WithOverrides(command, configuration, rest, application).value;
            && cli.command == command && cli.configuration == configuration && cli.applicationArgs == application
            && rest == AsArguments(cli.overrides) && forall i :: 0 <= i < |cli.overrides| ==> '=' in cli.overrides[i]
  {
    ParsedAreOverrides(rest);
  }

  /** Everything after the command: whether it begins with a configuration, and what that and the rest are. */
  lemma ConfigurationIsWritten(command: Command, explicit: bool, rest: seq<Argument>, application: seq<Argument>)
    requires WithConfiguration(command, explicit, rest, application).Success?
    ensures var cli := WithConfiguration(command, explicit, rest, application).value;
            var configured := command.NeedsConfiguration() && rest != [] && !LooksLikeOverride(rest[0]);
            && cli.command == command && cli.applicationArgs == application
            && rest == (if configured then [cli.configuration] else []) + AsArguments(cli.overrides)
            && (!configured ==> cli.configuration == DEFAULT_CONFIGURATION)
            && (!configured && !explicit && command.NeedsConfiguration() ==> rest == [] && cli.overrides == [])
            && forall i :: 0 <= i < |cli.overrides| ==> '=' in cli.overrides[i]
  {
    hide WithOverrides, AsArguments;
    var configured := command.NeedsConfiguration() && rest != [] && !LooksLikeOverride(rest[0]);
    if configured {
      assert rest == [rest[0]] + rest[1..];
      OverridesAreWritten(command, rest[0], rest[1..], application);
    } else {
      assert [] + rest == rest;
      OverridesAreWritten(command, DEFAULT_CONFIGURATION, rest, application);
      if rest == [] {
        var cli := WithConfiguration(command, explicit, rest, application).value;
        NoOverrides(cli.overrides);
      }
    }
  }

  lemma NoOverrides(overrides: seq<string>)
    ensures AsArguments(overrides) == [] <==> overrides == []
  {
    assert |AsArguments(overrides)| == |overrides|;
  }

  lemma WrapperIsWritten(wrapper: seq<Argument>, application: seq<Argument>, separated: bool) returns (style: Style)
    requires WithCommand(wrapper, application).Success? && SEPARATOR !in wrapper && (!separated ==> application == [])
    ensures var cli := WithCommand(wrapper, application).value;
            && Proper(style, cli) && wrapper == WrapperPart(style, cli)
            && cli.applicationArgs == application && style.separated == separated
  {
    hide ParseCommand, WithConfiguration, AsArguments;
    var cli := WithCommand(wrapper, application).value;
    if wrapper != [] && ParseCommand(wrapper[0]).value.Some? {
      var rest := wrapper[1..];
      assert wrapper == [wrapper[0]] + rest;
      ConfigurationIsWritten(ParseCommand(wrapper[0]).value.value, true, rest, application);
      var configured := cli.command.NeedsConfiguration() && rest != [] && !LooksLikeOverride(rest[0]);
      style := Style(Some(wrapper[0]), configured, separated);
      Assoc([wrapper[0]], if configured then [cli.configuration] else [], AsArguments(cli.overrides));
      assert wrapper == WrapperPart(style, cli);
      hide WithCommand;
    } else {
      ConfigurationIsWritten(Console, false, wrapper, application);
      var configured := wrapper != [] && !LooksLikeOverride(wrapper[0]);
      style := Style(None, configured, separated);
      assert configured ==> cli.configuration == wrapper[0];
      assert [] + (if configured then [cli.configuration] else []) == if configured then [cli.configuration] else [];
    }
  }

  lemma ParsedIsWritten(arguments: seq<Argument>)
    requires Parsed(arguments).Success?
    ensures Spells(arguments, Parsed(arguments).value)
  {
    hide WithCommand, Proper, WrapperPart, Separator;
    var at := Separator(arguments);
    var style := WrapperIsWritten(arguments[..at], if at < |arguments| then arguments[at + 1..] else [], at < |arguments|);
    assert arguments == arguments[..at] + arguments[at..];
    assert at < |arguments| ==> arguments[at..] == [SEPARATOR] + arguments[at + 1..];
    assert arguments == Written(style, Parsed(arguments).value);
  }

  /** The parser accepts exactly the well-formed command lines, and each of them means one thing. */
  lemma ParsedIffSpelled(arguments: seq<Argument>, cli: Cli)
    ensures Parsed(arguments) == Success(cli) <==> Spells(arguments, cli)
  {
    if Parsed(arguments) == Success(cli) {
      ParsedIsWritten(arguments);
    }
    if Spells(arguments, cli) {
      var style :| Proper(style, cli) && arguments == Written(style, cli);
      WrittenIsParsed(style, cli);
    }
  }

  // ----- the registered command line

  const PASSWORD: string := "wrapper.ntservice.password="

  function WithoutPassword(overrides: seq<string>): seq<string> {
    if overrides == [] then []
    else (if PASSWORD <= overrides[0] then [] else [overrides[0]]) + WithoutPassword(overrides[1..])
  }

  lemma {:induction false} WithoutPasswordGrows(overrides: seq<string>, text: string)
    ensures WithoutPassword(overrides + [text]) ==
            if PASSWORD <= text then WithoutPassword(overrides) else WithoutPassword(overrides) + [text]
  {
    if overrides == [] {
      assert WithoutPassword([]) == [];
    } else {
      WithoutPasswordGrows(overrides[1..], text);
      assert (overrides + [text])[1..] == overrides[1..] + [text];
    }
  }

  lemma {:induction false} WithoutPasswordKeeps(overrides: seq<string>)
    ensures forall text :: text in WithoutPassword(overrides) <==> text in overrides && !(PASSWORD <= text)
  {
    if overrides != [] {
      WithoutPasswordKeeps(overrides[1..]);
      assert overrides == [overrides[0]] + overrides[1..];
    }
  }

  /** What an installed service is started with. */
  function AsService(cli: Cli): Cli {
    cli.(command := Service, overrides := WithoutPassword(cli.overrides))
  }

  function ServiceStyle(cli: Cli): Style {
    Style(Some(Unicode("-s")), true, cli.applicationArgs != [])
  }

  method InstalledLaunchArguments(cli: Cli) returns (arguments: seq<Argument>)
    ensures arguments == Written(ServiceStyle(cli), AsService(cli))
    ensures arguments ==
            [Unicode("-s"), cli.configuration] + AsArguments(WithoutPassword(cli.overrides))
            + if cli.applicationArgs == [] then [] else [Unicode("--")] + cli.applicationArgs
  {
    hide AsArguments, WithoutPassword;
    ghost var first := [Unicode("-s"), cli.configuration];
    arguments := [Unicode("-s"), cli.configuration];
    NoPassword(first);
    for i := 0 to |cli.overrides|
      invariant arguments == first + AsArguments(WithoutPassword(cli.overrides[..i]))
    {
      var text := cli.overrides[i];
      assert cli.overrides[..i + 1] == cli.overrides[..i] + [text];
      WithoutPasswordGrows(cli.overrides[..i], text);
      if !(PASSWORD <= text) {
        arguments := arguments + [Unicode(text)];
        OneMoreArgument(first, WithoutPassword(cli.overrides[..i]), text);
      }
    }
    assert cli.overrides[..|cli.overrides|] == cli.overrides;
    assert [Unicode("-s")] + [cli.configuration] == first;
    ghost var wrapper := arguments;
    if cli.applicationArgs != [] {
      arguments := arguments + [SEPARATOR];
      arguments := arguments + cli.applicationArgs;
      Assoc(wrapper, [SEPARATOR], cli.applicationArgs);
    } else {
      assert wrapper + [] == wrapper;
    }
  }

  lemma NoPassword(first: seq<Argument>)
    ensures first + AsArguments(WithoutPassword([])) == first
  {
  }

  lemma OneMoreArgument(first: seq<Argument>, overrides: seq<string>, text: string)
    ensures first + AsArguments(overrides) + [Unicode(text)] == first + AsArguments(overrides + [text])
  {
    assert AsArguments(overrides + [text]) == AsArguments(overrides) + [Unicode(text)];
    hide AsArguments;
    Assoc(first, AsArguments(overrides), [Unicode(text)]);
  }

  /**
   * Whatever command line the service was installed with, the registered one is parsed as the Service command with
   * the same configuration and application arguments, and the same overrides except the account's password.
   */
  lemma InstalledArgumentsAreReparsed(arguments: seq<Argument>, cli: Cli)
    requires Parsed(arguments) == Success(cli)
    ensures Parsed(Written(ServiceStyle(cli), AsService(cli))) ==
            Success(Cli(Service, cli.configuration, WithoutPassword(cli.overrides), cli.applicationArgs))
    ensures forall text :: text in AsService(cli).overrides <==> text in cli.overrides && !(PASSWORD <= text)
  {
    hide ParseCommand, Parsed, Written;
    ParsedIsWritten(arguments);
    WithoutPasswordKeeps(cli.overrides);
    DashSIsService();
    var service := AsService(cli);
    var style :| Proper(style, cli) && arguments == Written(style, cli);
    forall i | 0 <= i < |service.overrides|
      ensures '=' in service.overrides[i]
    {
      assert service.overrides[i] in cli.overrides;
    }
    assert '=' !in DEFAULT_CONFIGURATION.Lossy();
    WrittenIsParsed(ServiceStyle(cli), service);
  }

  lemma DashSIsService()
    ensures ParseCommand(Unicode("-s")) == Success(Some(Service)) && Unicode("-s") != SEPARATOR
  {
    assert AsciiLower("-s") == "-s";
    assert "-s"[1] != SEPARATOR.text[1];
  }
}
