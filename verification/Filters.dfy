/** Output filters of src/logging.rs: which configured trigger a JVM output line sets off. */
module Filters {
  import opened Prelude
  import opened Wildcard

  datatype FilterAction = NoAction | Debug | Dump | Gc | Restart | Shutdown | Pause | Resume

  datatype Filter = Filter(index: nat, trigger: seq<Byte>, allowWildcards: bool,
                           actions: seq<FilterAction>, message: string)

  datatype FilterMatch = FilterMatch(index: nat, actions: seq<FilterAction>, message: string)

  /** An output line as a trigger sees it; `decoded` is its windows-1252 reading. */
  datatype Line = Line(bytes: seq<Byte>, isUtf8: bool, decoded: seq<Byte>)

  predicate IsAscii(bytes: seq<Byte>) {
    forall i :: 0 <= i < |bytes| ==> bytes[i] < 0x80
  }

  /** The bytes a trigger is searched in. */
  function Subject(line: Line, trigger: seq<Byte>): seq<Byte> {
    if IsAscii(trigger) || line.isUtf8 then line.bytes else line.decoded
  }

  predicate OccursAt(text: seq<Byte>, needle: seq<Byte>, start: nat) {
    start + |needle| <= |text| && text[start..start + |needle|] == needle
  }

  ghost predicate Occurs(text: seq<Byte>, needle: seq<Byte>) {
    exists start :: OccursAt(text, needle, start)
  }

  ghost predicate Triggers(filter: Filter, line: Line) {
    && filter.trigger != []
    && var subject := Subject(line, filter.trigger);
       if filter.allowWildcards then MatchesSubstring(subject, filter.trigger) else Occurs(subject, filter.trigger)
  }

  /** Searching at every start, the end of the text included, finds exactly the matching substrings. */
  method WildcardContains(text: seq<Byte>, pattern: seq<Byte>) returns (found: bool)
    ensures found <==> MatchesSubstring(text, pattern)
  {
    for start := 0 to |text| + 1
      invariant forall from, end :: 0 <= from < start && from <= end <= |text| ==> !Matches(text[from..end], pattern)
    {
      var matched := MatchesPrefixGreedily(text[start..], pattern);
      if matched {
        ghost var length :| 0 <= length <= |text[start..]| && Matches(text[start..][..length], pattern);
        assert text[start..][..length] == text[start..start + length];
        return true;
      }
      forall end | start <= end <= |text|
        ensures !Matches(text[start..end], pattern)
      {
        assert text[start..][..end - start] == text[start..end];
      }
    }
    return false;
  }

  method PlainContains(text: seq<Byte>, needle: seq<Byte>) returns (found: bool)
    requires needle != []
    ensures found <==> Occurs(text, needle)
  {
    for start := 0 to Max(|text| - |needle| + 1, 0)
      invariant forall from :: 0 <= from < start ==> !OccursAt(text, needle, from)
    {
      if text[start..start + |needle|] == needle {
        assert OccursAt(text, needle, start);
        return true;
      }
    }
    return false;
  }

  /** An ASCII trigger is searched in the bytes of any line; another only in those of a UTF-8 one, else in their reading. */
  method TriggerMatches(filter: Filter, line: Line) returns (matched: bool)
    ensures matched <==> Triggers(filter, line)
    ensures matched <==>
            && filter.trigger != []
            && var ascii := forall i :: 0 <= i < |filter.trigger| ==> filter.trigger[i] < 128;
               var subject := if ascii || line.isUtf8 then line.bytes else line.decoded;
               if filter.allowWildcards then MatchesSubstring(subject, filter.trigger)
               else Occurs(subject, filter.trigger)
  {
    if filter.trigger == [] {
      return false;
    }
    var subject := Subject(line, filter.trigger);
    if filter.allowWildcards {
      matched := WildcardContains(subject, filter.trigger);
    } else {
      matched := PlainContains(subject, filter.trigger);
    }
  }

  /** At most one filter reports a line: the first one, in configured order, whose trigger is found. */
  method InspectBytes(entries: seq<Filter>, line: Line) returns (matches: seq<FilterMatch>)
    ensures matches == [] <==> forall k :: 0 <= k < |entries| ==> !Triggers(entries[k], line)
    ensures matches != [] ==>
              exists k :: 0 <= k < |entries| && Triggers(entries[k], line)
                       && (forall j :: 0 <= j < k ==> !Triggers(entries[j], line))
                       && matches == [FilterMatch(entries[k].index, entries[k].actions, entries[k].message)]
  {
    for k := 0 to |entries|
      invariant forall j :: 0 <= j < k ==> !Triggers(entries[j], line)
    {
      var matched := TriggerMatches(entries[k], line);
      if matched {
        return [FilterMatch(entries[k].index, entries[k].actions, entries[k].message)];
      }
    }
    return [];
  }

  // ----- wildcards switched on for a pattern that has none

  predicate WildcardFree(pattern: seq<Byte>) {
    STAR !in pattern && QUESTION !in pattern
  }

  lemma {:induction false} WildcardFreeMatchesItself(text: seq<Byte>, pattern: seq<Byte>)
    requires WildcardFree(pattern)
    ensures Matches(text, pattern) <==> text == pattern
    decreases |pattern|
  {
    if pattern == [] {
      assert Cuts([], pattern, []);
    } else {
      var rest := pattern[1..];
      if Matches(text, pattern) {
        var pieces :| Cuts(text, pattern, pieces);
        assert Fits(pieces[0], pattern[0]);
        assert Cuts(Flatten(pieces[1..]), rest, pieces[1..]);
        WildcardFreeMatchesItself(Flatten(pieces[1..]), rest);
      }
      WildcardFreeMatchesItself(rest, rest);
      var pieces :| Cuts(rest, rest, pieces);
      var all := [[pattern[0]]] + pieces;
      assert all[1..] == pieces;
      assert Cuts(pattern, pattern, all);
    }
  }

  /** Allowing wildcards changes nothing for a trigger without `*` and `?`. */
  lemma WildcardFreeIsPlainSearch(filter: Filter, line: Line)
    requires WildcardFree(filter.trigger)
    ensures Triggers(filter.(allowWildcards := true), line) <==> Triggers(filter.(allowWildcards := false), line)
  {
    var pattern := filter.trigger;
    var text := Subject(line, pattern);
    if MatchesSubstring(text, pattern) {
      var start, end :| 0 <= start <= end <= |text| && Matches(text[start..end], pattern);
      WildcardFreeMatchesItself(text[start..end], pattern);
      assert OccursAt(text, pattern, start);
    }
    if Occurs(text, pattern) {
      var start: nat :| OccursAt(text, pattern, start);
      WildcardFreeMatchesItself(pattern, pattern);
      assert Matches(text[start..start + |pattern|], pattern);
    }
  }
}
