/** Strings as the configuration code of src/config.rs and src/cli.rs sees them: sequences of Unicode characters. */
module Text {
  import opened Prelude

  /** Unicode White_Space, what `char::is_whitespace` tests. */
  predicate IsWhitespace(c: char) {
    || '\t' <= c <= '\r' || c == ' ' || c == '\U{0085}' || c == '\U{00A0}' || c == '\U{1680}'
    || '\U{2000}' <= c <= '\U{200A}' || c == '\U{2028}' || c == '\U{2029}' || c == '\U{202F}' || c == '\U{205F}'
    || c == '\U{3000}'
  }

  /** How many whitespace characters `s` begins with. */
  function Leading(s: string): (n: nat)
    ensures n <= |s| && (forall i :: 0 <= i < n ==> IsWhitespace(s[i])) && (n < |s| ==> !IsWhitespace(s[n]))
  {
    if s == [] || !IsWhitespace(s[0]) then 0 else 1 + Leading(s[1..])
  }

  /** Where the whitespace at the end of `s` begins. */
  function End(s: string): (n: nat)
    ensures n <= |s| && (forall i :: n <= i < |s| ==> IsWhitespace(s[i])) && (n > 0 ==> !IsWhitespace(s[n - 1]))
  {
    if s == [] || !IsWhitespace(s[|s| - 1]) then |s| else End(s[..|s| - 1])
  }

  function TrimEnd(s: string): string {
    s[..End(s)]
  }

  function Trim(s: string): string {
    TrimEnd(s[Leading(s)..])
  }

  lemma TrimmedStartsClean(s: string)
    ensures var r := Trim(s);
            (r == [] || !IsWhitespace(r[0])) && forall c :: c in r ==> c in s
  {
    hide IsWhitespace;
    var start := s[Leading(s)..];
    assert Trim(s) == start[..End(start)];
    assert forall c :: c in start[..End(start)] ==> c in start;
    assert forall c :: c in start ==> c in s;
  }

  predicate AllWhitespace(s: string) {
    forall i :: 0 <= i < |s| ==> IsWhitespace(s[i])
  }

  /** Neither begins nor ends with whitespace. */
  predicate IsTrimmed(s: string) {
    s != [] ==> !IsWhitespace(s[0]) && !IsWhitespace(s[|s| - 1])
  }

  /** Trimming takes away the whitespace on both sides and nothing else. */
  lemma TrimmingTakesTheSides(before: string, core: string, after: string)
    requires AllWhitespace(before) && AllWhitespace(after) && IsTrimmed(core)
    ensures Trim(before + core + after) == core
  {
    hide IsWhitespace;
    var s := before + core + after;
    if core == [] {
      assert forall i :: 0 <= i < |s| ==> IsWhitespace(s[i]);
      assert Leading(s) == |s|;
    } else {
      assert s[|before|] == core[0] && s[|before| + |core| - 1] == core[|core| - 1];
      assert forall i :: 0 <= i < |before| ==> s[i] == before[i];
      assert Leading(s) == |before|;
      var rest := s[|before|..];
      assert rest == core + after;
      assert forall i :: |core| <= i < |rest| ==> rest[i] == after[i - |core|];
      assert rest[|core| - 1] == core[|core| - 1];
      assert End(rest) == |core|;
    }
  }

  /** How many backslashes `s` ends in. */
  function TrailingSlashes(s: string): (n: nat)
    ensures n <= |s|
  {
    if s == [] || s[|s| - 1] != '\\' then 0 else 1 + TrailingSlashes(s[..|s| - 1])
  }

  /** Where `c` occurs first, or the length of `s`. */
  function IndexOf(s: string, c: char): (at: nat)
    ensures at <= |s| && c !in s[..at] && (at < |s| ==> s[at] == c)
  {
    if s == [] || s[0] == c then 0
    else
      var at := 1 + IndexOf(s[1..], c);
      assert s[..at] == [s[0]] + s[1..][..at - 1];
      at
  }

  lemma {:induction false} IndexOfIsFirst(before: string, c: char, after: string)
    requires c !in before
    ensures IndexOf(before + [c] + after, c) == |before|
  {
    var s := before + [c] + after;
    if before != [] {
      assert s[1..] == before[1..] + [c] + after;
      IndexOfIsFirst(before[1..], c, after);
    }
  }

  predicate OccursAt(s: string, needle: string, at: nat) {
    at <= |s| && needle <= s[at..]
  }

  predicate Contains(s: string, needle: string) {
    exists at: nat :: at <= |s| && OccursAt(s, needle, at)
  }

  function AsciiLower(s: string): string {
    seq(|s|, i requires 0 <= i < |s| => if 'A' <= s[i] <= 'Z' then (s[i] as int + 32) as char else s[i])
  }

  function AsciiUpper(s: string): string {
    seq(|s|, i requires 0 <= i < |s| => if 'a' <= s[i] <= 'z' then (s[i] as int - 32) as char else s[i])
  }

  const CAPITALS: string := "ABCDEFGHIJKLMNOPQRSTUVWXYZ"
  const SMALL: string := "abcdefghijklmnopqrstuvwxyz"

  /** Lower case goes letter by letter, and concerns the 26 capital letters alone. */
  lemma LettersAreLowered(a: string, b: string)
    ensures AsciiLower(CAPITALS) == SMALL && AsciiLower(a + b) == AsciiLower(a) + AsciiLower(b)
    ensures (forall c :: c in a ==> c !in CAPITALS) ==> AsciiLower(a) == a
  {
    forall i | 0 <= i < 26
      ensures CAPITALS[i] as int == 'A' as int + i && SMALL[i] as int == 'a' as int + i
    {
    }
    assert |AsciiLower(CAPITALS)| == |SMALL|;
    if forall c :: c in a ==> c !in CAPITALS {
      forall i | 0 <= i < |a|
        ensures AsciiLower(a)[i] == a[i]
      {
        IsCapital(a[i]);
      }
    }
  }

  lemma IsCapital(c: char)
    ensures 'A' <= c <= 'Z' <==> c in CAPITALS
  {
    if 'A' <= c <= 'Z' {
      assert CAPITALS[c as int - 'A' as int] == c;
    }
  }

  /** `name=value`: the name is trimmed, the value is everything after the first `=`. */
  function SplitProperty(line: string): Option<(string, string)> {
    var at := IndexOf(line, '=');
    if at == |line| then None else Some((Trim(line[..at]), line[at + 1..]))
  }

  /** A line is split at its first `=`, and only its name is trimmed; without one it is no property. */
  lemma PropertyIsSplit(name: string, value: string)
    requires '=' !in name
    ensures SplitProperty(name).None?
    ensures SplitProperty(name + ['='] + value) == Some((Trim(name), value))
  {
    hide Trim;
    var line := name + ['='] + value;
    IndexOfIsFirst(name, '=', value);
    assert line[..|name|] == name && line[|name| + 1..] == value;
  }

  predicate StartsWithTab(s: string) {
    s != [] && s[0] == '\t'
  }

  /** A property name that survives the trip to the JVM. */
  predicate CleanName(name: string) {
    '=' !in name && !StartsWithTab(name)
  }

  lemma SplitNamesAreClean(line: string)
    requires SplitProperty(line).Some?
    ensures CleanName(SplitProperty(line).value.0)
  {
    TrimmedStartsClean(line[..IndexOf(line, '=')]);
  }
}
