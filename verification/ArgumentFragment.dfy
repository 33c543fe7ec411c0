/** Configured argument fragments, split and unquoted as a Windows command line: src/jvm.rs. */
module ArgumentFragment {
  import opened Prelude
  import opened Text

  const BACKSLASH: char := '\\'
  const QUOTE: char := '"'

  /** How many backslashes `s` begins with. */
  function Slashes(s: string): (n: nat)
    ensures n <= |s| && (forall i :: 0 <= i < n ==> s[i] == BACKSLASH) && (n < |s| ==> s[n] != BACKSLASH)
  {
    if s == [] || s[0] != BACKSLASH then 0 else 1 + Slashes(s[1..])
  }

  function Repeated(n: nat): string {
    seq(n, i => BACKSLASH)
  }

  lemma SlashesAre(s: string, n: nat)
    requires n <= |s| && (forall i :: 0 <= i < n ==> s[i] == BACKSLASH) && (n < |s| ==> s[n] != BACKSLASH)
    ensures Slashes(s) == n
  {
  }

  // ----- the parser

  /** What is left to parse between two arguments. */
  function Arguments(s: string): seq<string>
    decreases |s|, 1
  {
    if s == [] then []
    else if IsWhitespace(s[0]) then Arguments(s[1..])
    else Token(s, [], false, false)
  }

  /** What is left to parse inside an argument. */
  function Token(s: string, argument: string, quoted: bool, sawToken: bool): seq<string>
    decreases |s|, 0
  {
    if s == [] then Emitted(argument, sawToken)
    else if !quoted && IsWhitespace(s[0]) then Emitted(argument, sawToken) + Arguments(s[1..])
    else if s[0] == BACKSLASH then
      var n := Slashes(s);
      if n < |s| && s[n] == QUOTE then
        Token(s[n + 1..], argument + BeforeQuote(n), Toggled(n, quoted), true)
      else
        Token(s[n..], argument + Repeated(n), quoted, sawToken)
    else if s[0] == QUOTE then Token(s[1..], argument, !quoted, true)
    else Token(s[1..], argument + [s[0]], quoted, true)
  }

  function Emitted(argument: string, sawToken: bool): seq<string> {
    if sawToken then [argument] else []
  }

  /** Whether the text after `n` backslashes and a quote is quoted. */
  function Toggled(n: nat, quoted: bool): bool {
    if n % 2 == 0 then !quoted else quoted
  }

  /** What `n` backslashes and a quote stand for. */
  function BeforeQuote(n: nat): string {
    Repeated(n / 2) + if n % 2 == 0 then [] else [QUOTE]
  }

  lemma WhitespaceSeparates(s: string)
    requires s != [] && IsWhitespace(s[0])
    ensures Arguments(s) == Arguments(s[1..])
  {
  }

  lemma Unfolded(s: string, at: nat, argument: string, quoted: bool, sawToken: bool)
    requires at < |s|
    ensures var rest := s[at..];
            Token(rest, argument, quoted, sawToken) ==
            if !quoted && IsWhitespace(s[at]) then Emitted(argument, sawToken) + Arguments(rest)
            else if s[at] == BACKSLASH then
              var n := at + Slashes(rest);
              if n < |s| && s[n] == QUOTE then
                Token(s[n + 1..], argument + BeforeQuote(n - at), Toggled(n - at, quoted), true)
              else
                Token(s[n..], argument + Repeated(n - at), quoted, sawToken)
            else if s[at] == QUOTE then Token(s[at + 1..], argument, !quoted, true)
            else Token(s[at + 1..], argument + [s[at]], quoted, true)
  {
    hide IsWhitespace;
    var rest := s[at..];
    assert forall k :: 0 <= k <= |rest| ==> rest[k..] == s[at + k..];
  }

  lemma ArgumentsSkip(s: string, at: nat)
    requires at < |s|
    ensures Arguments(s[at..]) ==
            if IsWhitespace(s[at]) then Arguments(s[at + 1..]) else Token(s[at..], [], false, false)
  {
    assert s[at..][1..] == s[at + 1..];
  }

  lemma NothingToParse(argument: string, quoted: bool, sawToken: bool)
    ensures Arguments([]) == [] && Token([], argument, quoted, sawToken) == Emitted(argument, sawToken)
  {
  }

  lemma BeforeQuoteInTwoSteps(argument: string, n: nat)
    ensures argument + BeforeQuote(n) ==
            if n % 2 == 0 then argument + Repeated(n / 2) else argument + Repeated(n / 2) + [QUOTE]
  {
    Assoc(argument, Repeated(n / 2), [QUOTE]);
    assert Repeated(n / 2) + [] == Repeated(n / 2);
  }

  method ParseLegacyWindowsFragment(fragment: string) returns (arguments: seq<string>)
    ensures arguments == Arguments(fragment)
  {
    hide IsWhitespace, Arguments, Token;
    arguments := [];
    var cursor := 0;
    assert fragment[0..] == fragment;
    NothingToParse([], false, false);
    while cursor < |fragment|
      invariant 0 <= cursor <= |fragment|
      invariant arguments + Arguments(fragment[cursor..]) == Arguments(fragment)
    {
      ghost var from := cursor;
      while cursor < |fragment| && IsWhitespace(fragment[cursor])
        invariant from <= cursor <= |fragment|
        invariant Arguments(fragment[cursor..]) == Arguments(fragment[from..])
      {
        ArgumentsSkip(fragment, cursor);
        cursor := cursor + 1;
      }
      if cursor == |fragment| {
        break;
      }
      var argument, sawToken, next := ParseToken(fragment, cursor);
      Assoc(arguments, Emitted(argument, sawToken), Arguments(fragment[next..]));
      cursor := next;
      if sawToken {
        arguments := arguments + [argument];
      } else {
        assert arguments + Emitted(argument, sawToken) == arguments;
      }
    }
    assert fragment[cursor..] == [];
    assert arguments + [] == arguments;
  }

  /** `argument` is what the token is worth up to `cursor`, and the rest of it is still to come. */
  ghost predicate ReadSoFar(s: string, from: nat, cursor: nat, argument: string, quoted: bool, sawToken: bool) {
    && from <= cursor <= |s|
    && var m := TokenLength(s[cursor..], quoted);
    && TokenLength(s[from..], false) == cursor - from + m
    && Value(s[from..cursor + m]) == argument + Value(s[cursor..][..m])
    && (OnlySlashes(s[from..cursor + m]) <==> !sawToken && OnlySlashes(s[cursor..][..m]))
  }

  lemma TokenBegins(s: string, from: nat)
    requires from <= |s|
    ensures ReadSoFar(s, from, from, [], false, false)
  {
    hide TokenLength, Value, OnlySlashes;
    var m := TokenLength(s[from..], false);
    assert s[from..from + m] == s[from..][..m] && [] + Value(s[from..][..m]) == Value(s[from..][..m]);
  }

  /** A step of the parser keeps the account, whichever branch it takes. */
  lemma ReadOn(s: string, from: nat, at: nat, argument: string, quoted: bool, sawToken: bool,
               u: nat, v: string, q: bool, saw: bool)
    requires at <= |s| && ReadSoFar(s, from, at, argument, quoted, sawToken)
    requires StepsOver(s[at..], argument, quoted, sawToken, u, v, q, saw)
    ensures ReadSoFar(s, from, at + u, argument + v, q, saw || sawToken)
  {
    hide TokenLength, Value, OnlySlashes, Token;
    var m := TokenLength(s[at..][u..], q);
    assert s[at..][u..] == s[at + u..];
    Assoc(argument, v, Value(s[at + u..][..m]));
  }

  lemma ReadMore(s: string, from: nat, at: nat, argument: string, quoted: bool, sawToken: bool)
    requires at < |s| && (quoted || !IsWhitespace(s[at])) && ReadSoFar(s, from, at, argument, quoted, sawToken)
    ensures if s[at] == BACKSLASH then
              var n := Slashes(s[at..]);
              if at + n < |s| && s[at + n] == QUOTE then
                ReadSoFar(s, from, at + n + 1, argument + BeforeQuote(n), Toggled(n, quoted), true)
              else ReadSoFar(s, from, at + n, argument + Repeated(n), quoted, sawToken)
            else if s[at] == QUOTE then ReadSoFar(s, from, at + 1, argument, !quoted, true)
            else ReadSoFar(s, from, at + 1, argument + [s[at]], quoted, true)
  {
    hide IsWhitespace, StepsOver, ReadSoFar, Slashes, BeforeQuote, Repeated, Toggled;
    var t := s[at..];
    if s[at] == BACKSLASH {
      var n := Slashes(t);
      if n < |t| && t[n] == QUOTE {
        StepOverSlashesAndQuote(t, argument, quoted, sawToken, n);
        ReadOn(s, from, at, argument, quoted, sawToken, n + 1, BeforeQuote(n), Toggled(n, quoted), true);
      } else {
        StepOverSlashes(t, argument, quoted, sawToken, n);
        ReadOn(s, from, at, argument, quoted, sawToken, n, Repeated(n), quoted, false);
      }
    } else {
      StepOverCharacter(t, argument, quoted, sawToken);
      var v, q := if s[at] == QUOTE then [] else [s[at]], if s[at] == QUOTE then !quoted else quoted;
      ReadOn(s, from, at, argument, quoted, sawToken, 1, v, q, true);
      assert argument + [] == argument;
    }
  }

  lemma TokenEnds(s: string, from: nat, at: nat, argument: string, quoted: bool, sawToken: bool)
    requires at <= |s| && (at < |s| ==> !quoted && IsWhitespace(s[at])) && ReadSoFar(s, from, at, argument, quoted, sawToken)
    ensures TokenLength(s[from..], false) == at - from && argument == Value(s[from..at])
    ensures sawToken <==> exists i :: from <= i < at && s[i] != BACKSLASH
  {
    assert Value([]) == [] && OnlySlashes([]);
    hide IsWhitespace, Token, Value, TokenLength, OnlySlashes;
    EndOfToken(s[at..], argument, quoted, sawToken);
    assert s[at..][..0] == [] && argument + [] == argument;
    SlashesOnly(s[from..at]);
    assert forall i :: from <= i < at ==> s[i] == s[from..at][i - from];
  }

  lemma SlashesOnly(t: string)
    ensures OnlySlashes(t) <==> forall i :: 0 <= i < |t| ==> t[i] == BACKSLASH
  {
  }

  // ----- quoting, seen from the end

  /** Whether the text behind `t` is quoted: a quote behind an even number of backslashes switches that on and off. */
  predicate IsQuoted(t: string) {
    if t == [] then false
    else
      var before := t[..|t| - 1];
      if t[|t| - 1] == '"' && TrailingSlashes(before) % 2 == 0 then !IsQuoted(before) else IsQuoted(before)
  }

  /** What `t` stands for: a quote is kept behind an odd number of backslashes, and halves their number in any case. */
  function Meaning(t: string): string
    decreases |t|
  {
    if t == [] then []
    else
      var before := t[..|t| - 1];
      if t[|t| - 1] != '"' then Meaning(before) + [t[|t| - 1]]
      else
        var n := TrailingSlashes(before);
        Meaning(before[..|before| - n]) + (Repeated(n / 2) + if n % 2 == 1 then ['"'] else [])
  }

  lemma {:induction false} ASlashRunIsNeutral(t: string, n: nat)
    ensures TrailingSlashes(t + Repeated(n)) == TrailingSlashes(t) + n
    ensures IsQuoted(t + Repeated(n)) == IsQuoted(t) && Meaning(t + Repeated(n)) == Meaning(t) + Repeated(n)
  {
    if n == 0 {
      assert t + Repeated(0) == t && Meaning(t) + Repeated(0) == Meaning(t);
    } else {
      var longer := t + Repeated(n);
      assert longer[..|longer| - 1] == t + Repeated(n - 1);
      ASlashRunIsNeutral(t, n - 1);
      Assoc(Meaning(t), Repeated(n - 1), [BACKSLASH]);
      assert Repeated(n - 1) + [BACKSLASH] == Repeated(n);
    }
  }

  lemma ACharacterIsKept(t: string, c: char)
    requires c != QUOTE && c != BACKSLASH
    ensures TrailingSlashes(t + [c]) == 0 && IsQuoted(t + [c]) == IsQuoted(t) && Meaning(t + [c]) == Meaning(t) + [c]
  {
    assert (t + [c])[..|t|] == t;
  }

  lemma AQuoteToggles(t: string, n: nat)
    requires TrailingSlashes(t) == 0
    ensures var longer := t + Repeated(n) + [QUOTE];
            && TrailingSlashes(longer) == 0 && IsQuoted(longer) == Toggled(n, IsQuoted(t))
            && Meaning(longer) == Meaning(t) + BeforeQuote(n)
  {
    ASlashRunIsNeutral(t, n);
    hide Repeated;
    assert |Repeated(n)| == n by { RunLength(n); }
    var before := t + Repeated(n);
    assert before[..|before| - n] == t;
    assert (before + [QUOTE])[..|before|] == before;
  }

  lemma RunLength(n: nat)
    ensures |Repeated(n)| == n
  {
  }

  /** A new character begins no run of backslashes that is not its own. */
  predicate RunsBegin(p: string, s: string) {
    s != [] && (s[0] == BACKSLASH || s[0] == QUOTE) ==> TrailingSlashes(p) == 0
  }

  /** A token ends at the first whitespace that is not quoted, and is worth what it means. */
  ghost predicate EndsAt(p: string, s: string, n: nat) {
    && n <= |s|
    && (forall i :: 0 <= i < n && IsWhitespace(s[i]) ==> IsQuoted(p + s[..i]))
    && (n < |s| ==> IsWhitespace(s[n]) && !IsQuoted(p + s[..n]))
    && Meaning(p + s[..n]) == Meaning(p) + Value(s[..n])
  }

  lemma {:induction false} TokensEndUnquoted(p: string, s: string)
    requires RunsBegin(p, s)
    ensures EndsAt(p, s, TokenLength(s, IsQuoted(p)))
    decreases |s|
  {
    hide IsWhitespace, Token, TokenLength, Value, IsQuoted, Meaning, EndsAt;
    var quoted := IsQuoted(p);
    if s == [] || (!quoted && IsWhitespace(s[0])) {
      NothingMore(p, s);
    } else {
      var n := Slashes(s);
      WhitespaceIsPlain();
      assert forall i :: 0 < i < n ==> !IsWhitespace(s[i]);
      if s[0] != BACKSLASH {
        if s[0] == QUOTE {
          AQuoteToggles(p, 0);
          assert p + Repeated(0) + [QUOTE] == p + s[..1] && BeforeQuote(0) == [];
        } else {
          ACharacterIsKept(p, s[0]);
          assert s[..1] == [s[0]];
        }
        StepOverCharacter(s, [], quoted, false);
        TokensEndUnquoted(p + s[..1], s[1..]);
        OneStepFurther(p, s, quoted, 1, if s[0] == QUOTE then [] else [s[0]],
                       if s[0] == QUOTE then !quoted else quoted, true);
      } else if n < |s| && s[n] == QUOTE {
        assert s[..n] == Repeated(n) && s[..n + 1] == Repeated(n) + [QUOTE];
        Assoc(p, Repeated(n), [QUOTE]);
        AQuoteToggles(p, n);
        StepOverSlashesAndQuote(s, [], quoted, false, n);
        TokensEndUnquoted(p + s[..n + 1], s[n + 1..]);
        OneStepFurther(p, s, quoted, n + 1, BeforeQuote(n), Toggled(n, quoted), true);
      } else {
        assert s[..n] == Repeated(n);
        ASlashRunIsNeutral(p, n);
        StepOverSlashes(s, [], quoted, false, n);
        TokensEndUnquoted(p + s[..n], s[n..]);
        OneStepFurther(p, s, quoted, n, Repeated(n), quoted, false);
      }
    }
  }

  lemma NothingMore(p: string, s: string)
    requires s == [] || (!IsQuoted(p) && IsWhitespace(s[0]))
    ensures TokenLength(s, IsQuoted(p)) == 0 && EndsAt(p, s, 0)
  {
    assert p + s[..0] == p && Meaning(p) + [] == Meaning(p);
  }

  lemma OneStepFurther(p: string, s: string, quoted: bool, u: nat, v: string, q: bool, saw: bool)
    requires StepsOver(s, [], quoted, false, u, v, q, saw)
    requires quoted == IsQuoted(p) && q == IsQuoted(p + s[..u]) && Meaning(p + s[..u]) == Meaning(p) + v
    requires forall i :: 0 < i < u ==> !IsWhitespace(s[i])
    requires quoted || !IsWhitespace(s[0])
    requires EndsAt(p + s[..u], s[u..], TokenLength(s[u..], q))
    ensures EndsAt(p, s, TokenLength(s, quoted))
  {
    hide IsWhitespace, Token, TokenLength, Value, IsQuoted, Meaning;
    var m := TokenLength(s[u..], q);
    assert forall i :: 0 <= i <= m ==> p + s[..u + i] == p + s[..u] + s[u..][..i];
    forall i | 0 <= i < u + m && IsWhitespace(s[i])
      ensures IsQuoted(p + s[..i])
    {
      if i == 0 {
        assert p + s[..0] == p;
      } else {
        assert i >= u && s[i] == s[u..][i - u];
        assert p + s[..i] == p + s[..u] + s[u..][..i - u];
      }
    }
    Assoc(Meaning(p), v, Value(s[u..][..m]));
  }

  /** From `from` to `end` all whitespace is quoted, and what comes next is whitespace that is not, or nothing. */
  ghost predicate IsToken(s: string, from: nat, end: nat) {
    && from <= end <= |s|
    && (forall i :: from <= i < end && IsWhitespace(s[i]) ==> IsQuoted(s[from..i]))
    && (end < |s| ==> IsWhitespace(s[end]) && !IsQuoted(s[from..end]))
  }

  lemma TheFirstToken(s: string)
    ensures var n := TokenLength(s, false); IsToken(s, 0, n) && Meaning(s[..n]) == Value(s[..n])
  {
    assert !IsQuoted([]) && Meaning([]) == [];
    hide IsWhitespace, TokenLength, Value, IsQuoted, Meaning;
    var n := TokenLength(s, false);
    TokensEndUnquoted([], s);
    assert forall i :: 0 <= i <= n ==> [] + s[..i] == s[..i] == s[0..i];
    assert [] + Value(s[..n]) == Value(s[..n]);
  }

  lemma WhereItEnds(s: string, from: nat)
    requires from <= |s|
    ensures var end := from + TokenLength(s[from..], false);
            IsToken(s, from, end) && Meaning(s[from..end]) == Value(s[from..end])
  {
    hide IsWhitespace, TokenLength, Value, IsQuoted, Meaning;
    var rest := s[from..];
    var n := TokenLength(rest, false);
    TheFirstToken(rest);
    assert forall i :: 0 <= i <= n ==> rest[0..i] == s[from..from + i];
    assert rest[..n] == s[from..from + n];
    forall i | from <= i < from + n && IsWhitespace(s[i])
      ensures IsQuoted(s[from..i])
    {
      assert rest[i - from] == s[i] && rest[0..i - from] == s[from..i];
    }
  }

  /**
   * A stretch that begins with no whitespace, holds none outside quotes and is followed by some outside quotes is one
   * argument, unless it is nothing but backslashes.
   */
  lemma AnArgumentAndTheRest(t: string, space: char, rest: string)
    requires t != [] && !IsWhitespace(t[0]) && IsWhitespace(space) && !IsQuoted(t)
    requires forall i :: 0 <= i < |t| && IsWhitespace(t[i]) ==> IsQuoted(t[..i])
    ensures Arguments(t + [space] + rest) ==
            (if exists i :: 0 <= i < |t| && t[i] != '\\' then [Meaning(t)] else []) + Arguments(rest)
  {
    hide IsWhitespace, Token, TokenLength, Value, IsQuoted, Meaning, Arguments, OnlySlashes;
    var s := t + [space] + rest;
    TheTokenIs(t, space, rest);
    ArgumentsSkip(s, 0);
    assert s[0..] == s;
    TokenThenRest(s, [], false, false);
    assert [] + Value(t) == Value(t);
    SlashesOnly(t);
    WhitespaceSeparates([space] + rest);
    assert ([space] + rest)[1..] == rest;
  }

  lemma TheTokenIs(t: string, space: char, rest: string)
    requires IsWhitespace(space) && !IsQuoted(t)
    requires forall i :: 0 <= i < |t| && IsWhitespace(t[i]) ==> IsQuoted(t[..i])
    ensures var s := t + [space] + rest;
            && TokenLength(s, false) == |t| && Value(t) == Meaning(t)
            && s[..|t|] == t && s[|t|..] == [space] + rest
  {
    hide IsWhitespace, TokenLength, Value, IsQuoted, Meaning;
    var s := t + [space] + rest;
    TheFirstToken(s);
    assert forall i :: 0 <= i <= |t| ==> s[0..i] == t[..i];
    assert t[..|t|] == t && s[..|t|] == t && s[|t|] == space;
    assert forall i :: 0 <= i < |t| ==> s[i] == t[i];
    assert s[|t|..] == [space] + rest;
  }

  predicate IsPlain(s: string) {
    forall i :: 0 <= i < |s| ==> !IsWhitespace(s[i]) && s[i] != '"' && s[i] != '\\'
  }

  lemma {:induction false} PlainTextIsKept(t: string, s: string)
    requires IsPlain(s)
    ensures IsQuoted(t + s) == IsQuoted(t) && Meaning(t + s) == Meaning(t) + s
    ensures s != [] || TrailingSlashes(t) == 0 ==> TrailingSlashes(t + s) == 0
  {
    hide IsWhitespace;
    if s == [] {
      assert t + s == t && Meaning(t) + s == Meaning(t);
    } else {
      var last := s[..|s| - 1];
      PlainTextIsKept(t, last);
      ACharacterIsKept(t + last, s[|s| - 1]);
      assert s == last + [s[|s| - 1]];
      Assoc(t, last, [s[|s| - 1]]);
      Assoc(Meaning(t), last, [s[|s| - 1]]);
    }
  }

  /** An escaped quote outside quotes is kept and quotes nothing. */
  lemma AnEscapedQuoteIsKept(a: string, b: string, rest: string)
    requires a != [] && IsPlain(a) && IsPlain(b)
    ensures Arguments(a + "\\\"" + b + " " + rest) == [a + "\"" + b] + Arguments(rest)
  {
    hide IsWhitespace, Arguments, IsQuoted, Meaning;
    WhitespaceIsPlain();
    PlainIsWorthItself(a);
    assert "\\\"" == Repeated(1) + [QUOTE];
    var marked := a + "\\\"";
    assert marked == a + Repeated(1) + [QUOTE];
    AQuoteToggles(a, 1);
    assert BeforeQuote(1) == [QUOTE];
    PlainTextIsKept(marked, b);
    var t := marked + b;
    assert t[0] == a[0] && t[|a|] == BACKSLASH && t[|a| + 1] == QUOTE;
    assert forall i :: |a| + 2 <= i < |t| ==> t[i] == b[i - |a| - 2];
    ASpaceSeparates();
    AnArgumentAndTheRest(t, ' ', rest);
  }

  lemma PlainIsWorthItself(a: string)
    requires IsPlain(a)
    ensures !IsQuoted(a) && Meaning(a) == a && TrailingSlashes(a) == 0
  {
    PlainTextIsKept([], a);
    assert [] + a == a;
  }

  lemma ASpaceSeparates()
    ensures IsWhitespace(' ')
  {
  }

  /** Everything up to the next unquoted whitespace or the end; it counts as an argument unless it is only backslashes. */
  method ParseToken(fragment: string, from: nat) returns (argument: string, sawToken: bool, cursor: nat)
    requires from < |fragment| && !IsWhitespace(fragment[from])
    ensures from < cursor <= |fragment|
    ensures Arguments(fragment[from..]) == Emitted(argument, sawToken) + Arguments(fragment[cursor..])
    ensures IsToken(fragment, from, cursor) && argument == Meaning(fragment[from..cursor])
    ensures sawToken <==> exists i :: from <= i < cursor && fragment[i] != BACKSLASH
  {
    hide IsWhitespace, Arguments, Token, TokenLength, Value, OnlySlashes, ReadSoFar, IsQuoted, Meaning, IsToken;
    WhereItEnds(fragment, from);
    argument, sawToken, cursor := [], false, from;
    var quoted := false;
    ArgumentsSkip(fragment, from);
    NothingToParse(argument, quoted, sawToken);
    TokenBegins(fragment, from);
    while cursor < |fragment|
      invariant from <= cursor <= |fragment|
      invariant Arguments(fragment[from..]) == Token(fragment[cursor..], argument, quoted, sawToken)
      invariant ReadSoFar(fragment, from, cursor, argument, quoted, sawToken)
      decreases |fragment| - cursor
    {
      Unfolded(fragment, cursor, argument, quoted, sawToken);
      if !quoted && IsWhitespace(fragment[cursor]) {
        TokenEnds(fragment, from, cursor, argument, quoted, sawToken);
        return;
      }
      ReadMore(fragment, from, cursor, argument, quoted, sawToken);
      if fragment[cursor] == BACKSLASH {
        var start := cursor;
        while cursor < |fragment| && fragment[cursor] == BACKSLASH
          invariant start <= cursor <= |fragment|
          invariant forall i :: start <= i < cursor ==> fragment[i] == BACKSLASH
        {
          cursor := cursor + 1;
        }
        var slashCount := cursor - start;
        SlashesAre(fragment[start..], slashCount);
        if cursor < |fragment| && fragment[cursor] == QUOTE {
          BeforeQuoteInTwoSteps(argument, slashCount);
          argument := argument + Repeated(slashCount / 2);
          if slashCount % 2 == 0 {
            quoted := !quoted;
          } else {
            argument := argument + [QUOTE];
          }
          sawToken := true;
          cursor := cursor + 1;
        } else {
          argument := argument + Repeated(slashCount);
        }
        continue;
      }
      if fragment[cursor] == QUOTE {
        quoted := !quoted;
        sawToken := true;
        cursor := cursor + 1;
        continue;
      }
      argument := argument + [fragment[cursor]];
      sawToken := true;
      cursor := cursor + 1;
    }
    assert fragment[cursor..] == [];
    TokenEnds(fragment, from, cursor, argument, quoted, sawToken);
    NothingToParse(argument, quoted, sawToken);
    assert Emitted(argument, sawToken) + [] == Emitted(argument, sawToken);
  }

  // ----- arguments survive quoting

  /** Backslash runs are doubled before a quote and at the end; a quote gets a backslash of its own. */
  function Escaped(s: string): string
    decreases |s|
  {
    var n := Slashes(s);
    if n == |s| then Repeated(2 * n)
    else Run(n, s[n]) + ([s[n]] + Escaped(s[n + 1..]))
  }

  /** What `n` backslashes before `next` become. */
  function Run(n: nat, next: char): string {
    if next == QUOTE then Repeated(2 * n + 1) else Repeated(n)
  }

  function Quoted(argument: string): string {
    [QUOTE] + Escaped(argument) + [QUOTE]
  }

  /** The arguments quoted, each followed by a space but the last. */
  function CommandLine(arguments: seq<string>): string {
    if arguments == [] then []
    else if |arguments| == 1 then Quoted(arguments[0])
    else Quoted(arguments[0]) + " " + CommandLine(arguments[1..])
  }

  lemma SlashRun(n: nat, rest: string, argument: string, quoted: bool, sawToken: bool)
    requires rest != [] ==> rest[0] != BACKSLASH
    ensures Token(Repeated(n) + rest, argument, quoted, sawToken) ==
            if rest != [] && rest[0] == QUOTE then
              Token(rest[1..], argument + BeforeQuote(n), Toggled(n, quoted), true)
            else
              Token(rest, argument + Repeated(n), quoted, sawToken)
  {
    if n == 0 {
      NoSlashRun(rest, argument, quoted, sawToken);
    } else {
      var s := Repeated(n) + rest;
      SlashesAre(s, n);
      assert s[n..] == rest && (rest != [] ==> s[n] == rest[0] && s[n + 1..] == rest[1..]);
      WhitespaceIsPlain();
      hide *;
      TokenUnfolded(s, argument, quoted, sawToken);
    }
  }

  lemma NoSlashRun(rest: string, argument: string, quoted: bool, sawToken: bool)
    requires rest != [] ==> rest[0] != BACKSLASH
    ensures Token(Repeated(0) + rest, argument, quoted, sawToken) ==
            if rest != [] && rest[0] == QUOTE then
              Token(rest[1..], argument + BeforeQuote(0), Toggled(0, quoted), true)
            else
              Token(rest, argument + Repeated(0), quoted, sawToken)
  {
    hide IsWhitespace;
    WhitespaceIsPlain();
    assert Repeated(0) + rest == rest && argument + Repeated(0) == argument && BeforeQuote(0) == [];
    assert argument + [] == argument;
  }

  lemma OneMore(c: char, rest: string, argument: string, sawToken: bool)
    requires c != BACKSLASH && c != QUOTE
    ensures Token([c] + rest, argument, true, sawToken) == Token(rest, argument + [c], true, true)
  {
    assert ([c] + rest)[1..] == rest;
  }

  /** Inside quotes, an escaped argument and the closing quote are read as that argument. */
  lemma {:induction false} EscapedIsRead(s: string, rest: string, argument: string, sawToken: bool)
    ensures Token(Escaped(s) + [QUOTE] + rest, argument, true, sawToken) == Token(rest, argument + s, false, true)
    decreases |s|
  {
    hide IsWhitespace, Token, Escaped;
    var n := Slashes(s);
    if n == |s| {
      EscapedEnds(s, rest);
      SlashRun(2 * n, [QUOTE] + rest, argument, true, sawToken);
      assert ([QUOTE] + rest)[1..] == rest;
      assert BeforeQuote(2 * n) == Repeated(n) == s;
    } else {
      EscapedGoesOn(s, n, rest);
      var more := Escaped(s[n + 1..]) + [QUOTE] + rest;
      var next := argument + Repeated(n) + [s[n]];
      if s[n] == QUOTE {
        SlashRun(2 * n + 1, [QUOTE] + more, argument, true, sawToken);
        assert ([QUOTE] + more)[1..] == more;
        BeforeQuoteInTwoSteps(argument, 2 * n + 1);
      } else {
        SlashRun(n, [s[n]] + more, argument, true, sawToken);
        OneMore(s[n], more, argument + Repeated(n), sawToken);
      }
      EscapedIsRead(s[n + 1..], rest, next, true);
      AroundSlashes(s, argument);
    }
  }

  lemma EscapedEnds(s: string, rest: string)
    requires Slashes(s) == |s|
    ensures Escaped(s) + [QUOTE] + rest == Repeated(2 * |s|) + ([QUOTE] + rest)
  {
    hide Slashes, Repeated;
    Assoc(Repeated(2 * |s|), [QUOTE], rest);
  }

  lemma EscapedGoesOn(s: string, n: nat, rest: string)
    requires Slashes(s) == n < |s|
    ensures Escaped(s) + [QUOTE] + rest ==
            Run(n, s[n]) + ([s[n]] + (Escaped(s[n + 1..]) + [QUOTE] + rest))
  {
    hide *;
    EscapedIs(s, n);
    Regrouped(Run(n, s[n]), [s[n]], Escaped(s[n + 1..]), [QUOTE], rest);
  }

  lemma EscapedIs(s: string, n: nat)
    requires Slashes(s) == n < |s|
    ensures Escaped(s) == Run(n, s[n]) + ([s[n]] + Escaped(s[n + 1..]))
  {
    hide Slashes, Run, Repeated;
  }

  lemma Regrouped<T>(a: seq<T>, b: seq<T>, c: seq<T>, d: seq<T>, e: seq<T>)
    ensures a + (b + c) + d + e == a + (b + (c + d + e))
  {
  }

  lemma AroundSlashes(s: string, argument: string)
    requires Slashes(s) < |s|
    ensures var n := Slashes(s);
            argument + Repeated(n) + [s[n]] + s[n + 1..] == argument + s
  {
    hide Slashes;
    var n := Slashes(s);
    assert s[..n] == Repeated(n);
    Parted(s, n);
    Assoc(argument, Repeated(n), [s[n]]);
    Assoc(argument, Repeated(n) + [s[n]], s[n + 1..]);
  }

  lemma Parted<T>(s: seq<T>, n: nat)
    requires n < |s|
    ensures s == s[..n] + [s[n]] + s[n + 1..]
  {
  }

  lemma QuotedIsRead(argument: string, rest: string)
    requires rest == [] || IsWhitespace(rest[0])
    ensures Arguments(Quoted(argument) + rest) == [argument] + Arguments(rest)
  {
    var s := Quoted(argument) + rest;
    assert s[0] == QUOTE && s[1..] == Escaped(argument) + [QUOTE] + rest;
    assert !IsWhitespace(QUOTE);
    EscapedIsRead(argument, rest, [], true);
    assert [] + argument == argument;
  }

  /** Any arguments, quoted and joined by spaces, are read back as themselves: empty ones and trailing backslashes too. */
  lemma {:induction false} RoundTrip(arguments: seq<string>)
    ensures Arguments(CommandLine(arguments)) == arguments
  {
    if arguments == [] {
    } else if |arguments| == 1 {
      QuotedIsRead(arguments[0], []);
      assert Quoted(arguments[0]) + [] == Quoted(arguments[0]);
      assert arguments == [arguments[0]] + [];
    } else {
      var rest := CommandLine(arguments[1..]);
      assert CommandLine(arguments) == Quoted(arguments[0]) + (" " + rest);
      QuotedIsRead(arguments[0], " " + rest);
      assert (" " + rest)[1..] == rest;
      WhitespaceSeparates(" " + rest);
      RoundTrip(arguments[1..]);
    }
  }

  // ----- splitting and unquoting as two passes

  /** How far the token that `s` begins with reaches: up to whitespace outside quotes. */
  function TokenLength(s: string, quoted: bool): (n: nat)
    ensures n <= |s|
  {
    if s == [] || (!quoted && IsWhitespace(s[0])) then 0
    else if s[0] == BACKSLASH then
      var n := Slashes(s);
      if n < |s| && s[n] == QUOTE then n + 1 + TokenLength(s[n + 1..], Toggled(n, quoted))
      else n + TokenLength(s[n..], quoted)
    else 1 + TokenLength(s[1..], if s[0] == QUOTE then !quoted else quoted)
  }

  function Tokens(s: string): seq<string> {
    if s == [] then []
    else if IsWhitespace(s[0]) then Tokens(s[1..])
    else
      var n := Max(TokenLength(s, false), 1);
      [s[..n]] + Tokens(s[n..])
  }

  /** A token without its grouping quotes and escapes. */
  function Value(token: string): string {
    if token == [] then []
    else if token[0] == BACKSLASH then
      var n := Slashes(token);
      if n < |token| && token[n] == QUOTE then BeforeQuote(n) + Value(token[n + 1..])
      else Repeated(n) + Value(token[n..])
    else if token[0] == QUOTE then Value(token[1..])
    else [token[0]] + Value(token[1..])
  }

  function Values(tokens: seq<string>): seq<string> {
    if tokens == [] then [] else [Value(tokens[0])] + Values(tokens[1..])
  }

  predicate OnlySlashes(token: string) {
    Slashes(token) == |token|
  }

  function WithoutSlashTokens(tokens: seq<string>): (kept: seq<string>)
    ensures |kept| <= |tokens|
    ensures |kept| == |tokens| ==> kept == tokens && forall i :: 0 <= i < |tokens| ==> !OnlySlashes(tokens[i])
  {
    if tokens == [] then []
    else (if OnlySlashes(tokens[0]) then [] else [tokens[0]]) + WithoutSlashTokens(tokens[1..])
  }

  lemma ValuesLength(tokens: seq<string>)
    ensures |Values(tokens)| == |tokens|
  {
  }

  /** One step of `u` characters inside a token, seen by the parser, by the splitting and by the unquoting. */
  ghost predicate StepsOver(s: string, argument: string, quoted: bool, sawToken: bool, u: nat, v: string, q: bool, saw: bool)
  {
    && 0 < u <= |s|
    && var m := TokenLength(s[u..], q);
    && Token(s, argument, quoted, sawToken) == Token(s[u..], argument + v, q, saw || sawToken)
    && TokenLength(s, quoted) == u + m
    && Value(s[..u + m]) == v + Value(s[u..][..m])
    && (OnlySlashes(s[..u + m]) <==> !saw && OnlySlashes(s[u..][..m]))
  }

  lemma ValueUnfolded(t: string, n: nat)
    requires 0 < n == Slashes(t)
    ensures Value(t) ==
            if n < |t| && t[n] == QUOTE then BeforeQuote(n) + Value(t[n + 1..]) else Repeated(n) + Value(t[n..])
  {
    hide Slashes, BeforeQuote, Repeated;
    assert t[0] == BACKSLASH;
  }

  lemma TextAfterQuote(s: string, n: nat, m: nat)
    requires 0 < n == Slashes(s) && n + 1 + m <= |s| && s[n] == QUOTE
    ensures Value(s[..n + 1 + m]) == BeforeQuote(n) + Value(s[n + 1..][..m]) && !OnlySlashes(s[..n + 1 + m])
  {
    hide Slashes, Value, BeforeQuote, Repeated;
    var t := s[..n + 1 + m];
    SlashesAre(t, n);
    ValueUnfolded(t, n);
    assert t[n + 1..] == s[n + 1..][..m];
  }

  lemma TextAfterSlashes(s: string, n: nat, m: nat)
    requires 0 < n == Slashes(s) && n + m <= |s| && (n < |s| ==> s[n] != QUOTE)
    ensures Value(s[..n + m]) == Repeated(n) + Value(s[n..][..m])
    ensures OnlySlashes(s[..n + m]) <==> OnlySlashes(s[n..][..m])
  {
    hide Slashes, Value, BeforeQuote, Repeated;
    var t, u := s[..n + m], s[n..][..m];
    SlashesAre(t, n);
    SlashesAre(u, 0);
    ValueUnfolded(t, n);
    assert t[n..] == u;
  }

  lemma StepOverSlashesAndQuote(s: string, argument: string, quoted: bool, sawToken: bool, n: nat)
    requires s != [] && s[0] == BACKSLASH && n == Slashes(s) < |s| && s[n] == QUOTE
    ensures StepsOver(s, argument, quoted, sawToken, n + 1, BeforeQuote(n), Toggled(n, quoted), true)
  {
    hide IsWhitespace, Token, TokenLength, Slashes, Value, BeforeQuote, Repeated, OnlySlashes, Arguments,
      Toggled;
    WhitespaceIsPlain();
    TokenUnfolded(s, argument, quoted, sawToken);
    LengthUnfolded(s, quoted);
    TextAfterQuote(s, n, TokenLength(s[n + 1..], Toggled(n, quoted)));
  }

  lemma StepOverSlashes(s: string, argument: string, quoted: bool, sawToken: bool, n: nat)
    requires s != [] && s[0] == BACKSLASH && n == Slashes(s) && (n < |s| ==> s[n] != QUOTE)
    ensures StepsOver(s, argument, quoted, sawToken, n, Repeated(n), quoted, false)
  {
    hide IsWhitespace, Token, TokenLength, Slashes, Value, BeforeQuote, Repeated, OnlySlashes, Arguments,
      Toggled;
    WhitespaceIsPlain();
    TokenUnfolded(s, argument, quoted, sawToken);
    LengthUnfolded(s, quoted);
    TextAfterSlashes(s, n, TokenLength(s[n..], quoted));
  }

  lemma StepOverCharacter(s: string, argument: string, quoted: bool, sawToken: bool)
    requires s != [] && s[0] != BACKSLASH && (quoted || !IsWhitespace(s[0]))
    ensures StepsOver(s, argument, quoted, sawToken, 1, if s[0] == QUOTE then [] else [s[0]],
                      if s[0] == QUOTE then !quoted else quoted, true)
  {
    hide IsWhitespace, Token, TokenLength, Slashes;
    TokenUnfolded(s, argument, quoted, sawToken);
    assert argument + [] == argument;
    LengthUnfolded(s, quoted);
    var m := TokenLength(s[1..], if s[0] == QUOTE then !quoted else quoted);
    var t := s[..1 + m];
    SlashesAre(t, 0);
    assert t[1..] == s[1..][..m];
  }

  lemma WhitespaceIsPlain()
    ensures !IsWhitespace(BACKSLASH) && !IsWhitespace(QUOTE)
  {
  }

  lemma TokenUnfolded(s: string, argument: string, quoted: bool, sawToken: bool)
    requires s != [] && (quoted || !IsWhitespace(s[0]))
    ensures var n := Slashes(s);
            Token(s, argument, quoted, sawToken) ==
            if s[0] == BACKSLASH then
              if n < |s| && s[n] == QUOTE then
                Token(s[n + 1..], argument + BeforeQuote(n), Toggled(n, quoted), true)
              else Token(s[n..], argument + Repeated(n), quoted, sawToken)
            else if s[0] == QUOTE then Token(s[1..], argument, !quoted, true)
            else Token(s[1..], argument + [s[0]], quoted, true)
  {
  }

  lemma LengthUnfolded(s: string, quoted: bool)
    requires s != [] && (quoted || !IsWhitespace(s[0]))
    ensures var n := Slashes(s);
            TokenLength(s, quoted) ==
            if s[0] == BACKSLASH then
              if n < |s| && s[n] == QUOTE then n + 1 + TokenLength(s[n + 1..], Toggled(n, quoted))
              else n + TokenLength(s[n..], quoted)
            else 1 + TokenLength(s[1..], if s[0] == QUOTE then !quoted else quoted)
  {
  }

  lemma EndOfToken(s: string, argument: string, quoted: bool, sawToken: bool)
    requires s == [] || (!quoted && IsWhitespace(s[0]))
    ensures TokenLength(s, quoted) == 0 && Token(s, argument, quoted, sawToken) == Emitted(argument, sawToken) + Arguments(s)
  {
    assert s == [] ==> Emitted(argument, sawToken) + [] == Emitted(argument, sawToken);
  }

  /** Unquoting while splitting gives the unquoted value of the first token, unless it is only backslashes. */
  lemma {:induction false} TokenThenRest(s: string, argument: string, quoted: bool, sawToken: bool)
    ensures var n := TokenLength(s, quoted);
            Token(s, argument, quoted, sawToken) ==
            Emitted(argument + Value(s[..n]), sawToken || !OnlySlashes(s[..n])) + Arguments(s[n..])
    decreases |s|
  {
    hide IsWhitespace, Token, TokenLength, Arguments;
    if s == [] || (!quoted && IsWhitespace(s[0])) {
      EndOfToken(s, argument, quoted, sawToken);
      assert s[..0] == [] && s[0..] == s && argument + [] == argument;
    } else {
      var n := Slashes(s);
      if s[0] != BACKSLASH {
        StepOverCharacter(s, argument, quoted, sawToken);
        var q := if s[0] == QUOTE then !quoted else quoted;
        ThenTheRest(s, argument, quoted, sawToken, 1, if s[0] == QUOTE then [] else [s[0]], q, true);
      } else if n < |s| && s[n] == QUOTE {
        StepOverSlashesAndQuote(s, argument, quoted, sawToken, n);
        ThenTheRest(s, argument, quoted, sawToken, n + 1, BeforeQuote(n), Toggled(n, quoted), true);
      } else {
        StepOverSlashes(s, argument, quoted, sawToken, n);
        ThenTheRest(s, argument, quoted, sawToken, n, Repeated(n), quoted, false);
      }
    }
  }

  lemma {:induction false} ThenTheRest(s: string, argument: string, quoted: bool, sawToken: bool,
                                       u: nat, v: string, q: bool, saw: bool)
    requires StepsOver(s, argument, quoted, sawToken, u, v, q, saw)
    ensures var n := TokenLength(s, quoted);
            Token(s, argument, quoted, sawToken) ==
            Emitted(argument + Value(s[..n]), sawToken || !OnlySlashes(s[..n])) + Arguments(s[n..])
    decreases |s|, 0
  {
    hide IsWhitespace, Token, TokenLength, Arguments, Value, OnlySlashes, Emitted;
    var rest := s[u..];
    var m := TokenLength(rest, q);
    TokenThenRest(rest, argument + v, q, saw || sawToken);
    Assoc(argument, v, Value(rest[..m]));
    assert rest[m..] == s[u + m..];
  }

  lemma TokensAreNotEmpty(s: string)
    requires s != [] && !IsWhitespace(s[0])
    ensures TokenLength(s, false) > 0
  {
  }

  /** The parser gives the unquoted values of the tokens, but loses the tokens made of nothing but backslashes. */
  lemma {:induction false} TokenByToken(s: string)
    ensures Arguments(s) == Values(WithoutSlashTokens(Tokens(s)))
    decreases |s|
  {
    hide IsWhitespace, Token, TokenLength, Value, OnlySlashes;
    if s != [] {
      if IsWhitespace(s[0]) {
        TokenByToken(s[1..]);
      } else {
        TokensAreNotEmpty(s);
        var n := TokenLength(s, false);
        TokenThenRest(s, [], false, false);
        TokenByToken(s[n..]);
        assert [] + Value(s[..n]) == Value(s[..n]);
        var kept := WithoutSlashTokens(Tokens(s[n..]));
        assert WithoutSlashTokens(Tokens(s)) == (if OnlySlashes(s[..n]) then [] else [s[..n]]) + kept;
        assert ([s[..n]] + kept)[1..] == kept && [] + kept == kept;
      }
    }
  }

  /** So every token becomes an argument exactly when none is made of nothing but backslashes. */
  lemma EveryTokenCounts(s: string)
    ensures Arguments(s) == Values(Tokens(s)) <==> forall i :: 0 <= i < |Tokens(s)| ==> !OnlySlashes(Tokens(s)[i])
  {
    hide Arguments, Tokens, OnlySlashes;
    TokenByToken(s);
    var tokens := Tokens(s);
    ValuesLength(tokens);
    ValuesLength(WithoutSlashTokens(tokens));
    if forall i :: 0 <= i < |tokens| ==> !OnlySlashes(tokens[i]) {
      NoSlashTokens(tokens);
    }
  }

  lemma {:induction false} NoSlashTokens(tokens: seq<string>)
    requires forall i :: 0 <= i < |tokens| ==> !OnlySlashes(tokens[i])
    ensures WithoutSlashTokens(tokens) == tokens
  {
    hide OnlySlashes;
    if tokens != [] {
      NoSlashTokens(tokens[1..]);
    }
  }

  /** A fragment that is a single backslash gives no argument at all. */
  lemma ABackslashIsLost()
    ensures Tokens([BACKSLASH]) == [[BACKSLASH]] && Arguments([BACKSLASH]) == []
  {
    var s := [BACKSLASH];
    SlashesAre(s, 1);
    WhitespaceIsPlain();
    assert s[1..] == [] && s[..1] == s;
    LengthUnfolded(s, false);
    TokenByToken(s);
  }
}
