/** The rotating log writer of src/logging.rs: what every sequence of writes and rolls leaves on disk. */
module RotatingLog {
  import opened Prelude
  import opened Rotation

  type Record = seq<Byte>

  datatype LogLevel = Debug | Info | Status | Warn | Error | Fatal | Advice | Notice | Silent {
    function Rank(): nat {
      match this
      case Debug => 1 case Info => 2 case Status => 3 case Warn => 4 case Error => 5
      case Fatal => 6 case Advice => 7 case Notice => 8 case Silent => 9
    }

    /** Whether a message of this level passes a configured threshold. */
    predicate Passes(threshold: LogLevel) {
      Rank() >= threshold.Rank() && threshold != Silent
    }
  }

  datatype RollMode = RollNone | RollSize | RollWrapper | RollJvm | RollSizeOrWrapper | RollSizeOrJvm {
    predicate BySize() { this in {RollSize, RollSizeOrWrapper, RollSizeOrJvm} }
    predicate AtStart() { this in {RollWrapper, RollJvm, RollSizeOrWrapper, RollSizeOrJvm} }
    predicate AtJvmRestart() { this in {RollJvm, RollSizeOrJvm} }
  }

  const LEVELS: seq<LogLevel> := [Debug, Info, Status, Warn, Error, Fatal, Advice, Notice, Silent]

  /** A message passes a threshold that is not above it; the highest threshold lets nothing pass. */
  lemma LevelsAreOrdered(i: nat, j: nat)
    requires i < 9 && j < 9
    ensures LEVELS[i].Passes(LEVELS[j]) <==> j <= i && j < 8
  {
    assert LEVELS[i].Rank() == i + 1 && LEVELS[j].Rank() == j + 1;
  }

  // ----- how the files on disk relate to everything ever written

  /** With no archive limit every segment is kept, otherwise the last `maxFiles + 1`. */
  function Kept(segments: seq<seq<Record>>, maxFiles: nat): (count: nat)
    ensures count <= |segments|
  {
    if maxFiles == 0 then |segments| else Min(|segments|, maxFiles + 1)
  }

  /** No number is skipped, and file `i` holds exactly the records of the `i`-th newest of `count` segments. */
  ghost predicate Holds(files: Files, segments: seq<seq<Record>>, count: nat) {
    && 0 < count <= |segments|
    && (forall i :: i in files <==> 0 <= i < count)
    && forall i :: 0 <= i < count ==> files[i] == Flatten(segments[|segments| - 1 - i])
  }

  function Contents(segments: seq<seq<Record>>): seq<seq<Byte>> {
    if segments == [] then [] else [Flatten(segments[0])] + Contents(segments[1..])
  }

  lemma {:induction false} ChronicleOfSegments(files: Files, segments: seq<seq<Record>>, count: nat, top: nat)
    requires Holds(files, segments, count) && top < count
    ensures Chronicle(files, top) == Contents(segments[|segments| - 1 - top..])
    decreases top
  {
    hide Chronicle, Contents, Flatten, Holds;
    HoldsAt(files, segments, count, top);
    var last := segments[|segments| - 1 - top..];
    ContentsBegin(last);
    if top == 0 {
      ChronicleBegins(files);
      assert last[1..] == [];
    } else {
      ChronicleOfSegments(files, segments, count, top - 1);
      ChronicleStep(files, top);
      assert last[1..] == segments[|segments| - top..];
    }
  }

  lemma HoldsAt(files: Files, segments: seq<seq<Record>>, count: nat, i: nat)
    requires Holds(files, segments, count) && i < count
    ensures i < |segments| && i in files && files[i] == Flatten(segments[|segments| - 1 - i])
  {
  }

  lemma ContentsBegin(segments: seq<seq<Record>>)
    requires segments != []
    ensures Contents(segments) == [Flatten(segments[0])] + Contents(segments[1..]) && Contents([]) == []
  {
  }

  lemma {:induction false} FlattenContents(segments: seq<seq<Record>>)
    ensures Flatten(Contents(segments)) == Flatten(Flatten(segments))
  {
    if segments != [] {
      FlattenContents(segments[1..]);
      FlattenConcat(segments[0], Flatten(segments[1..]));
    }
  }

  /** Reading the archives from the highest number down and then the active file gives the last segments, in order. */
  lemma ReadingBack(files: Files, segments: seq<seq<Record>>, count: nat)
    requires Numbered(files) && Holds(files, segments, count)
    ensures History(files) == Contents(segments[|segments| - count..])
  {
    hide Chronicle, Contents, Flatten;
    assert count - 1 in files;
    ChronicleSkipsAbsent(files, count - 1, U32_MAX);
    ChronicleOfSegments(files, segments, count, count - 1);
  }

  /** With no archive limit, the files read in order hold every record ever written, in order and nothing else. */
  lemma UnlimitedLogLosesNothing(files: Files, segments: seq<seq<Record>>)
    requires Numbered(files) && Holds(files, segments, Kept(segments, 0))
    ensures Flatten(History(files)) == Flatten(Flatten(segments))
  {
    ReadingBack(files, segments, |segments|);
    FlattenContents(segments);
    assert segments[0..] == segments;
  }

  // ----- one rotation seen from the writer

  function WithEmptyActive(files: Files): Files {
    files[0 := []]
  }

  /** Archives `1..top` hold what was one number lower. */
  ghost predicate Renumbered(files: Files, now: Files, top: nat) {
    && (forall i :: i in now <==> 0 < i <= top)
    && forall i :: 0 < i <= top ==> i - 1 in files && now[i] == files[i - 1]
  }

  lemma FilesAfterRotation(files: Files, now: Files, count: nat, maxFiles: nat)
    requires Numbered(files) && maxFiles <= U32_MAX
    requires 0 < count && forall i :: i in files <==> 0 <= i < count
    requires maxFiles > 0 ==> count <= maxFiles + 1
    requires LeftAt(files, now, maxFiles, 0)
    ensures Numbered(now) && Renumbered(files, now, if maxFiles > 0 then Min(count, maxFiles) else count)
  {
    var limit :| IsLimit(files, maxFiles, limit) && 0 <= limit && now == Shift(Trim(files, maxFiles), 0, limit);
    assert 0 in files && count - 1 in files;
    var trimmed := Trim(files, maxFiles);
    forall i: nat
      ensures i in now <==> 0 < i <= (if maxFiles > 0 then Min(count, maxFiles) else count)
    {
      assert i in now <==> i <= U32_MAX && Occupied(trimmed, 0, limit, i);
    }
  }

  lemma NewSegmentAfterRenumbering(files: Files, now: Files, segments: seq<seq<Record>>, count: nat, top: nat)
    requires Holds(files, segments, count) && Renumbered(files, now, top) && top <= count
    ensures Holds(WithEmptyActive(now), segments + [[]], top + 1)
  {
    var more := segments + [[]];
    var active := WithEmptyActive(now);
    assert active[0] == Flatten(more[|more| - 1]);
    forall i | 0 < i < top + 1
      ensures active[i] == Flatten(more[|more| - 1 - i])
    {
      assert active[i] == files[i - 1];
      assert more[|more| - 1 - i] == segments[|segments| - 1 - (i - 1)];
    }
  }

  /** A finished rotation followed by a new active file starts a segment and drops at most the oldest one kept. */
  lemma RotationStartsSegment(files: Files, now: Files, segments: seq<seq<Record>>, maxFiles: nat)
    requires Numbered(files) && maxFiles <= U32_MAX
    requires Holds(files, segments, Kept(segments, maxFiles))
    requires LeftAt(files, now, maxFiles, 0)
    ensures Numbered(now) && Holds(WithEmptyActive(now), segments + [[]], Kept(segments + [[]], maxFiles))
  {
    var count := Kept(segments, maxFiles);
    var top := if maxFiles > 0 then Min(count, maxFiles) else count;
    FilesAfterRotation(files, now, count, maxFiles);
    NewSegmentAfterRenumbering(files, now, segments, count, top);
    assert Kept(segments + [[]], maxFiles) == top + 1;
  }

  lemma AppendingFillsTheLastSegment(files: Files, segments: seq<seq<Record>>, count: nat, record: Record)
    requires Holds(files, segments, count)
    ensures Holds(files[0 := files[0] + record], Extended(segments, record), count)
  {
    var last := |segments| - 1;
    FlattenConcat(segments[last], [record]);
    FlattenOne(record);
    assert Extended(segments, record)[last] == segments[last] + [record];
  }

  /** The last segment with one more record. */
  function Extended(segments: seq<seq<Record>>, record: Record): seq<seq<Record>>
    requires segments != []
  {
    segments[|segments| - 1 := segments[|segments| - 1] + [record]]
  }

  /** The size the writer goes by while the last segment is in the active file. */
  function ActiveSize(segments: seq<seq<Record>>): nat
    requires segments != []
  {
    Min(|Flatten(segments[|segments| - 1])|, U64_MAX)
  }

  /** A record joins the last segment, or begins one when that segment has reached the size limit. */
  function Written(segments: seq<seq<Record>>, record: Record, maxSize: nat): (r: seq<seq<Record>>)
    requires segments != []
    ensures r != []
  {
    Extended(if 0 < maxSize <= ActiveSize(segments) then segments + [[]] else segments, record)
  }

  lemma FlattenExtended(segments: seq<seq<Record>>, record: Record)
    requires segments != []
    ensures Flatten(Extended(segments, record)) == Flatten(segments) + [record]
  {
    var last := |segments| - 1;
    var init, end := segments[..last], segments[last];
    assert segments == init + [end];
    assert Extended(segments, record) == init + [end + [record]];
    hide Flatten;
    FlattenConcat(init, [end]);
    FlattenConcat(init, [end + [record]]);
    FlattenOne(end);
    FlattenOne(end + [record]);
    assert Flatten(init) + (end + [record]) == Flatten(init) + end + [record];
  }

  lemma FlattenNewSegment(segments: seq<seq<Record>>)
    ensures Flatten(segments + [[]]) == Flatten(segments)
  {
    FlattenConcat(segments, [[]]);
    FlattenOne<Record>([]);
  }

  // ----- the writer

  class LogWriter {
    const directory: LogDirectory
    var currentSize: nat
    const maxSize: nat
    const maxFiles: nat
    const rollOnJvmRestart: bool
    const threshold: LogLevel
    /** The lowest level that is copied to the console, if any is, and everything the console has been sent. */
    const consoleThreshold: Option<LogLevel>
    var console: seq<Byte>
    /** Every segment since the log was opened, oldest first; the files found at that time come first. */
    ghost var segments: seq<seq<Record>>

    /** There is an active file, and its size is known. */
    ghost predicate Usable()
      reads this`currentSize, directory
    {
      && directory.Valid() && maxFiles <= U32_MAX && 0 in directory.files
      && currentSize == Min(|directory.files[0]|, U64_MAX)
    }

    /** Besides, no number is skipped, and the files hold the last segments. */
    ghost predicate Valid()
      reads this`currentSize, this`segments, directory
    {
      && directory.Valid() && maxFiles <= U32_MAX
      && Holds(directory.files, segments, Kept(segments, maxFiles))
      && currentSize == Min(|directory.files[0]|, U64_MAX)
    }

    constructor (directory: LogDirectory, mode: RollMode, configuredMaxSize: nat, maxFiles: nat, threshold: LogLevel,
                 consoleThreshold: Option<LogLevel>, ghost found: seq<seq<Record>>)
      requires directory.Valid() && maxFiles <= U32_MAX && 0 in directory.files
      ensures Usable() && this.directory == directory && segments == found
      ensures Holds(directory.files, found, Kept(found, maxFiles)) ==> Valid()
      ensures maxSize == if mode.BySize() then configuredMaxSize else 0
      ensures this.maxFiles == maxFiles && rollOnJvmRestart == mode.AtJvmRestart() && this.threshold == threshold
      ensures this.consoleThreshold == consoleThreshold && console == []
    {
      this.directory, this.consoleThreshold, console := directory, consoleThreshold, [];
      currentSize := Min(|directory.files[0]|, U64_MAX);
      maxSize := if mode.BySize() then configuredMaxSize else 0;
      this.maxFiles, this.threshold, rollOnJvmRestart := maxFiles, threshold, mode.AtJvmRestart();
      segments := found;
    }

    /** The directory holds the last of the segments `found`, without gaps. */
    static ghost predicate Orderly(files: Files, found: seq<seq<Record>>, maxFiles: nat) {
      if 0 in files then Holds(files, found, Kept(found, maxFiles))
      else Holds(WithEmptyActive(files), found + [[]], Kept(found + [[]], maxFiles))
    }

    /** What the files are once the log is open: some roll modes rotate first, and there is an active file. */
    static ghost predicate Opened(before: Files, now: Files, rotates: bool, maxFiles: nat)
      requires Numbered(before) && maxFiles <= U32_MAX
    {
      if 0 !in before then now == WithEmptyActive(before)
      else if rotates then exists rotated :: LeftAt(before, rotated, maxFiles, 0) && now == WithEmptyActive(rotated)
      else now == before
    }

    /** Opens the log in any directory; the active file is appended to. In an orderly one the writer starts out valid. */
    static method Open(directory: LogDirectory, mode: RollMode, configuredMaxSize: nat, maxFiles: nat,
                       threshold: LogLevel, consoleThreshold: Option<LogLevel>, ghost found: seq<seq<Record>>)
      returns (r: Outcome, writer: LogWriter?)
      requires directory.Valid() && maxFiles <= U32_MAX
      modifies directory
      ensures r.Done? ==>
                && writer != null && fresh(writer) && writer.Usable()
                && writer.directory == directory && writer.maxFiles == maxFiles && writer.threshold == threshold
                && writer.maxSize == (if mode in {RollSize, RollSizeOrWrapper, RollSizeOrJvm} then configuredMaxSize else 0)
                && writer.rollOnJvmRestart == (mode in {RollJvm, RollSizeOrJvm})
                && writer.consoleThreshold == consoleThreshold
                && Opened(old(directory.files), directory.files,
                          mode in {RollWrapper, RollJvm, RollSizeOrWrapper, RollSizeOrJvm}, maxFiles)
      ensures r.Done? && Orderly(old(directory.files), found, maxFiles) ==>
                && writer.Valid()
                && writer.segments == if 0 in old(directory.files) && !mode.AtStart() then found else found + [[]]
      ensures r.Refused? ==> Interrupted(old(directory.files), directory.files, maxFiles)
      ensures directory.sound && r.Refused? ==> old(directory.Exhausted(maxFiles))
    {
      hide LeftAt, Holds, Kept, Interrupted;
      writer := null;
      ghost var segments := found;
      ghost var before := directory.files;
      NothingInterrupted(before, maxFiles);
      if mode.AtStart() && 0 in directory.files {
        :- directory.Rotate(maxFiles);
        AfterTheFirstRotation(before, directory.files, found, maxFiles);
      }
      var refused := directory.Refuses();
      if refused {
        return Refused, null;
      }
      if 0 !in directory.files {
        directory.files := WithEmptyActive(directory.files);
        segments := segments + [[]];
      }
      writer := new LogWriter(directory, mode, configuredMaxSize, maxFiles, threshold, consoleThreshold, segments);
      return Done, writer;
    }

    static lemma NothingInterrupted(files: Files, maxFiles: nat)
      requires Numbered(files) && maxFiles <= U32_MAX
      ensures Interrupted(files, files, maxFiles)
    {
    }

    static lemma AfterTheFirstRotation(before: Files, rotated: Files, found: seq<seq<Record>>, maxFiles: nat)
      requires Numbered(before) && maxFiles <= U32_MAX && 0 in before && LeftAt(before, rotated, maxFiles, 0)
      ensures Interrupted(before, rotated, maxFiles) && Numbered(rotated) && 0 !in rotated
      ensures Orderly(before, found, maxFiles) ==> Orderly(rotated, found, maxFiles)
    {
      if Orderly(before, found, maxFiles) {
        RotationStartsSegment(before, rotated, found, maxFiles);
      }
    }

    lemma EmptyFileRenews(before: Files, rotated: Files)
      requires Numbered(before) && maxFiles <= U32_MAX && LeftAt(before, rotated, maxFiles, 0)
      ensures Renewed(before, WithEmptyActive(rotated))
    {
    }

    lemma RotatedIsInterrupted(before: Files, rotated: Files)
      requires Numbered(before) && maxFiles <= U32_MAX && LeftAt(before, rotated, maxFiles, 0)
      ensures Interrupted(before, rotated, maxFiles)
    {
    }

    method StartNewFile() returns (r: Outcome)
      requires Valid()
      modifies this, directory
      ensures console == old(console)
      ensures r.Done? ==> Valid() && segments == old(segments) + [[]] && currentSize == 0
      ensures r.Done? ==> Renewed(old(directory.files), directory.files)
      ensures r.Refused? ==> segments == old(segments) && Interrupted(old(directory.files), directory.files, maxFiles)
      ensures directory.sound ==> (r.Refused? <==> old(directory.Exhausted(maxFiles)))
    {
      hide LeftAt, Interrupted, Renewed, Holds, Kept;
      ghost var before := directory.files;
      :- directory.Rotate(maxFiles);
      RotationStartsSegment(before, directory.files, segments, maxFiles);
      EmptyFileRenews(before, directory.files);
      RotatedIsInterrupted(before, directory.files);
      var refused := directory.Refuses();
      if refused {
        return Refused;
      }
      directory.files := WithEmptyActive(directory.files);
      currentSize := 0;
      segments := segments + [[]];
      return Done;
    }

    /** The files after a finished rotation and the start of an empty active file. */
    ghost predicate Renewed(before: Files, now: Files)
      requires Numbered(before) && maxFiles <= U32_MAX
    {
      exists rotated :: LeftAt(before, rotated, maxFiles, 0) && now == WithEmptyActive(rotated)
    }

    /** The active file ends in part of a record; nothing else has changed. */
    ghost predicate Torn(before: Files, now: Files, record: Record) {
      0 in before && exists part: Record :: part <= record && now == before[0 := before[0] + part]
    }

    /** What a refused write leaves: an interrupted rotation, or a torn record in the old active file or in a new one. */
    ghost predicate Abandoned(before: Files, now: Files, record: Record)
      requires Numbered(before) && maxFiles <= U32_MAX
    {
      || Interrupted(before, now, maxFiles)
      || Torn(before, now, record)
      || exists renewed: Files :: Renewed(before, renewed) && Torn(renewed, now, record)
    }

    predicate Shows(level: LogLevel) {
      consoleThreshold.Some? && level.Passes(consoleThreshold.value)
    }

    method RollForJvmRestart() returns (r: Outcome)
      requires Valid()
      modifies this, directory
      ensures console == old(console)
      ensures r.Done? ==> Valid() && segments == if rollOnJvmRestart then old(segments) + [[]] else old(segments)
      ensures directory.sound && r.Refused? ==> old(directory.Exhausted(maxFiles))
      ensures !rollOnJvmRestart ==> r.Done? && directory.files == old(directory.files)
      ensures r.Refused? ==> segments == old(segments) && Interrupted(old(directory.files), directory.files, maxFiles)
    {
      if !rollOnJvmRestart {
        return Done;
      }
      r := StartNewFile();
    }

    /**
     * Copies one rendered message to the console, and appends the record to the active file, or to a new one when that
     * file is full. A write that fails leaves the earlier contents as they were, with at most part of the record.
     */
    method WriteBytes(level: LogLevel, rendered: seq<Byte>, shown: seq<Byte>) returns (r: Outcome)
      requires Valid()
      modifies this, directory
      ensures r.Done? ==> Valid()
      ensures r.Done? ==> console == old(console) + if Shows(level) then shown + [CR, LF] else []
      ensures r.Done? && level.Passes(threshold) ==> Flatten(segments) == old(Flatten(segments)) + [rendered + [CR, LF]]
      ensures r.Done? && level.Passes(threshold) ==>
                old(segments) != [] && segments == Written(old(segments), rendered + [CR, LF], maxSize)
      ensures !level.Passes(threshold) ==> segments == old(segments) && directory.files == old(directory.files)
      ensures !level.Passes(threshold) && !Shows(level) ==> r.Done?
      ensures directory.sound && r.Refused? ==> old(directory.Exhausted(maxFiles))
      ensures r.Refused? ==> old(segments) <= segments && old(console) <= console
      ensures r.Refused? ==> Abandoned(old(directory.files), directory.files, rendered + [CR, LF])
    {
      hide Valid, Flatten, Interrupted, Renewed, Torn;
      ValidMeansNumbered();
      SizeIsTheLastSegments();
      NothingAbandoned(directory.files, rendered + [CR, LF]);
      assert console + [] == console;
      if Shows(level) {
        :- WriteConsole(shown + [CR, LF]);
      }
      if !level.Passes(threshold) {
        return Done;
      }
      if maxSize > 0 && currentSize >= maxSize {
        :- StartNewFile();
        FlattenNewSegment(old(segments));
      }
      r := Append(rendered + [CR, LF]);
    }

    lemma ValidMeansNumbered()
      requires Valid()
      ensures Numbered(directory.files) && maxFiles <= U32_MAX
    {
    }

    lemma SizeIsTheLastSegments()
      requires Valid()
      ensures segments != [] && currentSize == ActiveSize(segments)
    {
    }

    lemma NothingAbandoned(files: Files, record: Record)
      requires Numbered(files) && maxFiles <= U32_MAX
      ensures Abandoned(files, files, record)
    {
    }

    method WriteConsole(text: seq<Byte>) returns (r: Outcome)
      modifies this`console
      ensures directory.sound ==> r.Done?
      ensures r.Done? ==> console == old(console) + text
      ensures r.Refused? ==> old(console) <= console <= old(console) + text
    {
      var refused := directory.Refuses();
      var taken: int := *;
      if refused && 0 <= taken < |text| {
        assert console + text[..taken] <= console + text;
        console := console + text[..taken];
        return Refused;
      }
      console := console + text;
      return Done;
    }

    method Append(record: Record) returns (r: Outcome)
      requires Valid()
      modifies this, directory
      ensures console == old(console) && (directory.sound ==> r.Done?)
      ensures r.Done? ==> Valid() && old(segments) != [] && segments == Extended(old(segments), record)
      ensures r.Done? ==> Flatten(segments) == old(Flatten(segments)) + [record]
      ensures r.Done? ==> directory.files == old(directory.files)[0 := old(directory.files)[0] + record]
      ensures r.Refused? ==> segments == old(segments) && Torn(old(directory.files), directory.files, record)
    {
      AppendingFillsTheLastSegment(directory.files, segments, Kept(segments, maxFiles), record);
      FlattenExtended(segments, record);
      hide Flatten;
      var refused := directory.Refuses();
      var taken: int := *;
      if refused && 0 <= taken < |record| {
        directory.files := directory.files[0 := directory.files[0] + record[..taken]];
        return Refused;
      }
      segments := Extended(segments, record);
      directory.files := directory.files[0 := directory.files[0] + record];
      currentSize := Min(currentSize + |record|, U64_MAX);
      return Done;
    }
  }

  // ----- whole runs

  datatype LogCall = Write(level: LogLevel, rendered: seq<Byte>, shown: seq<Byte>) | Roll

  function RecordOf(call: LogCall, threshold: LogLevel): seq<Record> {
    if call.Write? && call.level.Passes(threshold) then [call.rendered + [CR, LF]] else []
  }

  function Recorded(calls: seq<LogCall>, threshold: LogLevel): seq<Record> {
    if calls == [] then []
    else Recorded(calls[..|calls| - 1], threshold) + RecordOf(calls[|calls| - 1], threshold)
  }

  function SegmentsAfter(segments: seq<seq<Record>>, call: LogCall, threshold: LogLevel, maxSize: nat, rolls: bool)
    : (r: seq<seq<Record>>)
    requires segments != []
    ensures r != []
  {
    match call
    case Write(level, rendered, _) =>
      if level.Passes(threshold) then Written(segments, rendered + [CR, LF], maxSize) else segments
    case Roll => if rolls then segments + [[]] else segments
  }

  /** Where the records go: the segments that a run of calls makes of those there were. */
  function SegmentsAfterAll(segments: seq<seq<Record>>, calls: seq<LogCall>, threshold: LogLevel, maxSize: nat, rolls: bool)
    : (r: seq<seq<Record>>)
    requires segments != []
    ensures r != []
  {
    if calls == [] then segments
    else
      var last := |calls| - 1;
      SegmentsAfter(SegmentsAfterAll(segments, calls[..last], threshold, maxSize, rolls), calls[last], threshold, maxSize, rolls)
  }

  lemma OneMoreCall(segments: seq<seq<Record>>, calls: seq<LogCall>, done: nat, threshold: LogLevel, maxSize: nat, rolls: bool)
    requires segments != [] && done <= |calls|
    ensures SegmentsAfterAll(segments, calls[..0], threshold, maxSize, rolls) == segments
    ensures done < |calls| ==>
              SegmentsAfterAll(segments, calls[..done + 1], threshold, maxSize, rolls) ==
              SegmentsAfter(SegmentsAfterAll(segments, calls[..done], threshold, maxSize, rolls), calls[done],
                            threshold, maxSize, rolls)
  {
    hide SegmentsAfter;
    if done < |calls| {
      assert calls[..done + 1][..done] == calls[..done];
    }
  }

  /**
   * Where no roll is asked for, a segment is closed only when it has reached the limit, and none without a limit; and a
   * segment that has reached the limit takes in no other record.
   */
  lemma {:induction false} OnlyFullSegmentsAreClosed(
    segments: seq<seq<Record>>, calls: seq<LogCall>, threshold: LogLevel, maxSize: nat)
    requires segments != []
    ensures var after := SegmentsAfterAll(segments, calls, threshold, maxSize, false);
            && |segments| <= |after| && (maxSize == 0 ==> |after| == |segments|)
            && (forall i :: |segments| - 1 <= i < |after| - 1 ==> |Flatten(after[i])| >= maxSize)
            && (0 < maxSize <= U64_MAX ==>
                  forall i :: |segments| <= i < |after| ==>
                    after[i] != [] && |Flatten(after[i][..|after[i]| - 1])| < maxSize)
  {
    if calls != [] {
      var last := |calls| - 1;
      var before := SegmentsAfterAll(segments, calls[..last], threshold, maxSize, false);
      OnlyFullSegmentsAreClosed(segments, calls[..last], threshold, maxSize);
      OneCallClosesAtMostAFullSegment(before, calls[last], threshold, maxSize);
    }
  }

  lemma OneCallClosesAtMostAFullSegment(before: seq<seq<Record>>, call: LogCall, threshold: LogLevel, maxSize: nat)
    requires before != []
    ensures var after := SegmentsAfter(before, call, threshold, maxSize, false);
            && |before| <= |after| <= |before| + 1 && (maxSize == 0 ==> |after| == |before|)
            && (forall i :: 0 <= i < |before| - 1 ==> after[i] == before[i])
            && (|after| > |before| ==>
                  && after[|before| - 1] == before[|before| - 1] && |Flatten(before[|before| - 1])| >= maxSize
                  && |after[|before|]| == 1 && |Flatten(after[|before|][..0])| == 0)
            && var (was, now) := (before[|before| - 1], after[|before| - 1]);
               && (now == was || (|now| == |was| + 1 && now[..|was|] == was))
               && |Flatten(was)| <= |Flatten(now)|
               && (0 < maxSize <= U64_MAX && now != was ==> |Flatten(was)| < maxSize)
  {
    var after := SegmentsAfter(before, call, threshold, maxSize, false);
    var was := before[|before| - 1];
    var now := after[|before| - 1];
    assert Flatten<Byte>([]) == [];
    if now != was {
      var record := call.rendered + [CR, LF];
      FlattenConcat(was, [record]);
      assert now == was + [record];
    }
  }

  /** Any run of writes and rolls, from any directory without gaps, leaves every record in order when there is no limit. */
  method Perform(writer: LogWriter, calls: seq<LogCall>) returns (r: Outcome)
    requires writer.Valid()
    modifies writer, writer.directory
    ensures writer.directory.sound && writer.maxFiles > 0 ==> r.Done?
    ensures r.Done? ==> writer.Valid() && old(writer.segments) != []
    ensures r.Done? ==>
              writer.segments == SegmentsAfterAll(old(writer.segments), calls, writer.threshold, writer.maxSize,
                                                  writer.rollOnJvmRestart)
    ensures r.Done? ==> Flatten(writer.segments) == old(Flatten(writer.segments)) + Recorded(calls, writer.threshold)
    ensures r.Done? && writer.maxFiles == 0 ==>
              Flatten(History(writer.directory.files)) ==
              Flatten(old(Flatten(writer.segments)) + Recorded(calls, writer.threshold))
    ensures r.Done? && writer.maxFiles > 0 ==>
              History(writer.directory.files) ==
              Contents(writer.segments[|writer.segments| - Kept(writer.segments, writer.maxFiles)..])
  {
    hide LogWriter.Valid, Flatten, History, Contents, Kept, Recorded, SegmentsAfter, SegmentsAfterAll;
    ghost var start := writer.segments;
    writer.SizeIsTheLastSegments();
    RecordedSoFar(calls, 0, writer.threshold);
    OneMoreCall(start, calls, 0, writer.threshold, writer.maxSize, writer.rollOnJvmRestart);
    for done := 0 to |calls|
      invariant writer.Valid()
      invariant writer.segments == SegmentsAfterAll(start, calls[..done], writer.threshold, writer.maxSize,
                                                    writer.rollOnJvmRestart)
      invariant Flatten(writer.segments) == old(Flatten(writer.segments)) + Recorded(calls[..done], writer.threshold)
    {
      :- PerformOne(writer, calls[done]);
      RecordedSoFar(calls, done, writer.threshold);
      OneMoreCall(start, calls, done, writer.threshold, writer.maxSize, writer.rollOnJvmRestart);
    }
    assert calls[..|calls|] == calls;
    WhatIsOnDisk(writer);
    return Done;
  }

  lemma RecordedSoFar(calls: seq<LogCall>, done: nat, threshold: LogLevel)
    requires done <= |calls|
    ensures Recorded(calls[..0], threshold) == []
    ensures done < |calls| ==>
              Recorded(calls[..done + 1], threshold) ==
              Recorded(calls[..done], threshold) + RecordOf(calls[done], threshold)
  {
    if done < |calls| {
      assert calls[..done + 1][..done] == calls[..done];
    }
  }

  /** What a reader of the files finds: every record when archives are kept for ever, else the last segments. */
  lemma WhatIsOnDisk(writer: LogWriter)
    requires writer.Valid()
    ensures writer.maxFiles == 0 ==>
              Flatten(History(writer.directory.files)) == Flatten(Flatten(writer.segments))
    ensures writer.maxFiles > 0 ==>
              History(writer.directory.files) ==
              Contents(writer.segments[|writer.segments| - Kept(writer.segments, writer.maxFiles)..])
  {
    hide Flatten, History, Contents;
    ReadingBack(writer.directory.files, writer.segments, Kept(writer.segments, writer.maxFiles));
    if writer.maxFiles == 0 {
      UnlimitedLogLosesNothing(writer.directory.files, writer.segments);
    }
  }

  method PerformOne(writer: LogWriter, call: LogCall) returns (r: Outcome)
    requires writer.Valid()
    modifies writer, writer.directory
    ensures writer.directory.sound && writer.maxFiles > 0 ==> r.Done?
    ensures r.Done? ==>
              && writer.Valid() && old(writer.segments) != []
              && writer.segments == SegmentsAfter(old(writer.segments), call, writer.threshold, writer.maxSize,
                                                  writer.rollOnJvmRestart)
              && Flatten(writer.segments) == old(Flatten(writer.segments)) + RecordOf(call, writer.threshold)
  {
    hide LogWriter.Valid, Flatten, Written;
    writer.SizeIsTheLastSegments();
    assert Flatten(writer.segments) + [] == Flatten(writer.segments);
    match call {
      case Write(level, rendered, shown) =>
        r := writer.WriteBytes(level, rendered, shown);
      case Roll =>
        FlattenNewSegment(writer.segments);
        r := writer.RollForJvmRestart();
    }
  }
}
