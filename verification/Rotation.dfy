/** Shifting log archives, src/logging.rs: what one rotation does to the files, and what an interrupted one leaves. */
module Rotation {
  import opened Prelude

  /** File contents by archive number; number 0 is the active log. */
  type Files = map<nat, seq<Byte>>

  predicate Numbered(files: Files) {
    forall i :: i in files ==> i <= U32_MAX
  }

  // ----- reading the log back

  /** Contents in reading order: archive `top` first, down to the active file. */
  function Chronicle(files: Files, top: nat): seq<seq<Byte>> {
    (if top in files then [files[top]] else []) + (if top == 0 then [] else Chronicle(files, top - 1))
  }

  function History(files: Files): seq<seq<Byte>> {
    Chronicle(files, U32_MAX)
  }

  lemma {:induction false} ChronicleDependsOnlyOnItsRange(a: Files, b: Files, top: nat)
    requires forall i :: i <= top ==> (i in a <==> i in b) && (i in a ==> a[i] == b[i])
    ensures Chronicle(a, top) == Chronicle(b, top)
  {
    if top > 0 {
      ChronicleDependsOnlyOnItsRange(a, b, top - 1);
    }
  }

  lemma ChronicleStep(files: Files, top: nat)
    requires top > 0
    ensures Chronicle(files, top) ==
            if top in files then [files[top]] + Chronicle(files, top - 1) else Chronicle(files, top - 1)
  {
    assert [] + Chronicle(files, top - 1) == Chronicle(files, top - 1);
  }

  lemma ChronicleBegins(files: Files)
    ensures Chronicle(files, 0) == if 0 in files then [files[0]] else []
  {
  }

  lemma {:induction false} ChronicleSkipsAbsent(files: Files, low: nat, top: nat)
    requires low <= top
    requires forall i :: low < i <= top ==> i !in files
    ensures Chronicle(files, top) == Chronicle(files, low)
    decreases top
  {
    if low < top {
      ChronicleSkipsAbsent(files, low, top - 1);
    }
  }

  // ----- one rotation

  /** Whether number `i` names a file once everything in `from..limit` has moved up by one. */
  predicate Occupied(files: Files, from: nat, limit: nat, i: nat) {
    if i < from || limit < i then i in files else from < i && i - 1 in files
  }

  /** The files once everything in `from..limit` has moved up by one. */
  ghost function Shift(files: Files, from: nat, limit: nat): Files
    requires Numbered(files) && limit !in files && limit <= U32_MAX
  {
    map i: nat | i <= U32_MAX && Occupied(files, from, limit, i) ::
      files[if from < i <= limit then i - 1 else i]
  }

  /** The files after the oldest permitted archive has been deleted. */
  function Trim(files: Files, maxFiles: nat): Files {
    if maxFiles == 0 then files else map i | i in files && i != maxFiles :: files[i]
  }

  /** `limit` bounds the shift: the archive limit, or a number above every archive when there is none. */
  ghost predicate IsLimit(files: Files, maxFiles: nat, limit: nat) {
    if maxFiles == 0 then 0 < limit <= U32_MAX && forall i :: i in files ==> i < limit else limit == maxFiles
  }

  /** What a rotation may leave when it stops between two file operations; `from == 0` is the finished one. */
  ghost predicate LeftAt(before: Files, now: Files, maxFiles: nat, from: nat)
    requires Numbered(before) && maxFiles <= U32_MAX
  {
    exists limit :: IsLimit(before, maxFiles, limit) && from <= limit && now == Shift(Trim(before, maxFiles), from, limit)
  }

  ghost predicate Interrupted(before: Files, now: Files, maxFiles: nat)
    requires Numbered(before) && maxFiles <= U32_MAX
  {
    now == before || exists from :: LeftAt(before, now, maxFiles, from)
  }

  lemma ShiftOfNothing(files: Files, limit: nat)
    requires Numbered(files) && limit !in files && limit <= U32_MAX
    ensures Shift(files, limit, limit) == files
  {
  }

  /** Widening the shift by one number is one rename, onto a free name. */
  lemma ShiftOneMore(files: Files, index: nat, limit: nat)
    requires Numbered(files) && limit !in files && index < limit <= U32_MAX
    ensures var now: Files := Shift(files, index + 1, limit);
            && index + 1 !in now
            && Shift(files, index, limit) ==
               if index in now then (now - {index})[index + 1 := now[index]] else now
  {
    var now: Files := Shift(files, index + 1, limit);
    var next: Files := Shift(files, index, limit);
    var renamed: Files := if index in now then (now - {index})[index + 1 := now[index]] else now;
    forall i
      ensures i in next <==> i in renamed
      ensures i in next ==> next[i] == renamed[i]
    {
    }
  }

  lemma {:induction false} ShiftedChronicle(files: Files, from: nat, limit: nat, top: nat)
    requires Numbered(files) && limit !in files && from <= limit <= U32_MAX
    ensures top < from ==> Chronicle(Shift(files, from, limit), top) == Chronicle(files, top)
    ensures from <= top <= limit && from < limit ==>
              Chronicle(Shift(files, from, limit), top) == if top == 0 then [] else Chronicle(files, top - 1)
    ensures limit <= top ==> Chronicle(Shift(files, from, limit), top) == Chronicle(files, top)
    decreases top
  {
    var shifted := Shift(files, from, limit);
    ChronicleBegins(shifted);
    ChronicleBegins(files);
    if from == limit {
      ShiftOfNothing(files, limit);
    } else if top > 0 {
      ShiftedChronicle(files, from, limit, top - 1);
      hide Chronicle;
      ChronicleStep(shifted, top);
      ChronicleStep(files, top);
      if top > 1 {
        ChronicleStep(files, top - 1);
      }
    }
  }

  /** Stopping at any point of the shift loses no file and keeps every file on its side of every other. */
  lemma ShiftKeepsHistory(files: Files, from: nat, limit: nat)
    requires Numbered(files) && limit !in files && from <= limit <= U32_MAX
    ensures History(Shift(files, from, limit)) == History(files)
  {
    ShiftedChronicle(files, from, limit, U32_MAX);
  }

  /** Contents in reading order from archive `top` down to, but without, archive `low`. */
  function Older(files: Files, low: nat, top: nat): seq<seq<Byte>> {
    if top <= low then [] else (if top in files then [files[top]] else []) + Older(files, low, top - 1)
  }

  lemma {:induction false} ChronicleSplits(files: Files, low: nat, top: nat)
    requires low <= top
    ensures Chronicle(files, top) == Older(files, low, top) + Chronicle(files, low)
    decreases top
  {
    if low < top {
      ChronicleSplits(files, low, top - 1);
      Assoc(if top in files then [files[top]] else [], Older(files, low, top - 1), Chronicle(files, low));
    } else {
      assert [] + Chronicle(files, low) == Chronicle(files, low);
    }
  }

  lemma {:induction false} OlderDependsOnlyOnItsRange(a: Files, b: Files, low: nat, top: nat)
    requires forall i :: low < i <= top ==> (i in a <==> i in b) && (i in a ==> a[i] == b[i])
    ensures Older(a, low, top) == Older(b, low, top)
  {
    if low < top {
      OlderDependsOnlyOnItsRange(a, b, low, top - 1);
    }
  }

  lemma {:induction false} OlderHolds(files: Files, low: nat, top: nat)
    ensures forall x :: x in Older(files, low, top) ==> exists i :: low < i <= top && i in files && files[i] == x
    ensures Older(files, low, top) == [] <==> forall i :: low < i <= top ==> i !in files
  {
    if low < top {
      OlderHolds(files, low, top - 1);
    }
  }

  /** Deleting the archive at the limit takes one entry out of the history, between the older and the newer ones. */
  lemma TrimTakesOneFile(files: Files, maxFiles: nat)
    requires Numbered(files) && 0 < maxFiles <= U32_MAX && maxFiles in files
    ensures var older, newer := Older(files, maxFiles, U32_MAX), Chronicle(files, maxFiles - 1);
            && History(files) == older + [files[maxFiles]] + newer
            && History(Trim(files, maxFiles)) == older + newer
  {
    hide Chronicle, Older;
    var trimmed := Trim(files, maxFiles);
    var older, newer := Older(files, maxFiles, U32_MAX), Chronicle(files, maxFiles - 1);
    ChronicleStep(files, maxFiles);
    ChronicleStep(trimmed, maxFiles);
    ChronicleSplits(files, maxFiles, U32_MAX);
    ChronicleSplits(trimmed, maxFiles, U32_MAX);
    OlderDependsOnlyOnItsRange(files, trimmed, maxFiles, U32_MAX);
    ChronicleDependsOnlyOnItsRange(files, trimmed, maxFiles - 1);
    hide Trim;
    Assoc(older, [files[maxFiles]], newer);
  }

  /**
   * Wherever a rotation stops, it has cost at most the file at the limit, and kept all others in order; the active
   * content is never lost.
   */
  lemma InterruptionKeepsHistory(files: Files, now: Files, maxFiles: nat)
    requires Numbered(files) && maxFiles <= U32_MAX
    requires Interrupted(files, now, maxFiles)
    ensures History(now) == if now == files then History(files) else History(Trim(files, maxFiles))
    ensures maxFiles == 0 || maxFiles !in files ==> History(now) == History(files)
    ensures (forall i :: i in files ==> i <= maxFiles) ==>
              History(now) == History(files) || (History(files) != [] && History(now) == History(files)[1..])
    ensures 0 in files ==> (0 in now && now[0] == files[0]) || (1 in now && now[1] == files[0])
  {
    hide History, Trim, LeftAt;
    if now != files {
      var from :| LeftAt(files, now, maxFiles, from);
      ReachedHistory(files, now, maxFiles, from);
    }
    TrimCostsOneFile(files, maxFiles);
  }

  lemma ReachedHistory(files: Files, now: Files, maxFiles: nat, from: nat)
    requires Numbered(files) && maxFiles <= U32_MAX && LeftAt(files, now, maxFiles, from)
    ensures History(now) == History(Trim(files, maxFiles))
    ensures 0 in files ==> (0 in now && now[0] == files[0]) || (1 in now && now[1] == files[0])
  {
    var limit :| IsLimit(files, maxFiles, limit) && from <= limit && now == Shift(Trim(files, maxFiles), from, limit);
    ShiftKeepsHistory(Trim(files, maxFiles), from, limit);
  }

  lemma TrimCostsOneFile(files: Files, maxFiles: nat)
    requires Numbered(files) && maxFiles <= U32_MAX
    ensures maxFiles == 0 || maxFiles !in files ==> Trim(files, maxFiles) == files
    ensures (forall i :: i in files ==> i <= maxFiles) ==>
              || History(Trim(files, maxFiles)) == History(files)
              || (History(files) != [] && History(Trim(files, maxFiles)) == History(files)[1..])
  {
    if maxFiles > 0 && maxFiles in files {
      TrimTakesOneFile(files, maxFiles);
      OlderHolds(files, maxFiles, U32_MAX);
      hide History, Chronicle, Older, Trim;
      var newer := Chronicle(files, maxFiles - 1);
      assert ([] + [files[maxFiles]] + newer)[1..] == [] + newer;
    } else {
      assert Trim(files, maxFiles) == files;
    }
  }

  predicate DistinctContents(files: Files) {
    forall i, j :: i in files && j in files && i != j ==> files[i] != files[j]
  }

  /** The deleted file is the oldest one if and only if no archive lies above the limit. */
  lemma TheOldestGoesIff(files: Files, now: Files, maxFiles: nat, from: nat)
    requires Numbered(files) && DistinctContents(files)
    requires 0 < maxFiles <= U32_MAX && maxFiles in files && LeftAt(files, now, maxFiles, from)
    ensures History(files) != []
    ensures History(now) == History(files)[1..] <==> forall i :: i in files ==> i <= maxFiles
  {
    var older, newer := Older(files, maxFiles, U32_MAX), Chronicle(files, maxFiles - 1);
    TrimTakesOneFile(files, maxFiles);
    ReachedHistory(files, now, maxFiles, from);
    OlderHolds(files, maxFiles, U32_MAX);
    hide History, Chronicle, Older, Shift, Trim, LeftAt;
    assert files[maxFiles] !in older;
    FirstGoesIff(older, files[maxFiles], newer);
  }

  lemma FirstGoesIff<T>(a: seq<T>, x: T, b: seq<T>)
    requires x !in a
    ensures a + b == (a + [x] + b)[1..] <==> a == []
  {
    var whole, left := a + [x] + b, a + b;
    assert whole[|a|] == x;
    if a == [] {
      assert whole[1..] == b && left == b;
    } else {
      var last := |a| - 1;
      assert left[last] == a[last] && a[last] in a;
      assert whole[1..][last] == x;
    }
  }

  /** A rotation costs a file, and exactly one, if and only if there is one at the limit, whether or not there is room. */
  lemma LosesAFileIff(files: Files, now: Files, maxFiles: nat, from: nat)
    requires Numbered(files) && 0 < maxFiles <= U32_MAX && LeftAt(files, now, maxFiles, from)
    ensures History(now) != History(files) <==> maxFiles in files
    ensures maxFiles in files ==> |History(now)| == |History(files)| - 1
  {
    if maxFiles in files {
      TrimTakesOneFile(files, maxFiles);
      ReachedHistory(files, now, maxFiles, from);
    } else {
      InterruptionKeepsHistory(files, now, maxFiles);
    }
  }

  /** When archives lie above the limit, the deleted file is not the oldest: a newer one goes and older ones stay. */
  lemma LoweredLimitDropsFromTheMiddle(a: seq<Byte>, b: seq<Byte>, c: seq<Byte>)
    ensures var files: Files := map[0 := a, 1 := b, 2 := c];
            Shift(Trim(files, 1), 0, 1) == map[1 := a, 2 := c]
  {
  }

  /** After an interruption the next rotation deletes number `maxFiles` again, although a lower number is free. */
  lemma GapIsNotReused(a: seq<Byte>, b: seq<Byte>, c: seq<Byte>)
    ensures var files: Files := map[0 := a, 1 := b, 2 := c];
            var gap: Files := map[0 := a, 2 := b];
            && LeftAt(files, gap, 2, 1)
            && LeftAt(gap, map[1 := a], 2, 0)
  {
    var files: Files := map[0 := a, 1 := b, 2 := c];
    var gap: Files := map[0 := a, 2 := b];
    assert IsLimit(files, 2, 2) && IsLimit(gap, 2, 2);
    assert Trim(files, 2) == map[0 := a, 1 := b];
    assert Shift(Trim(files, 2), 1, 2) == gap;
    assert Trim(gap, 2) == map[0 := a];
    assert Shift(Trim(gap, 2), 0, 2) == map[1 := a];
  }

  lemma ShiftedIsNumbered(files: Files, from: nat, limit: nat)
    requires Numbered(files) && limit !in files && limit <= U32_MAX
    ensures Numbered(Shift(files, from, limit))
  {
  }

  // ----- the directory

  class LogDirectory {
    var files: Files
    /** Numbers in names such as `wrapper.log.007`, which count for the highest number but are never renamed. */
    const strays: set<nat>
    /** Whether the file system refuses nothing. */
    const sound: bool
    /** Contents that no name reaches any more. */
    ghost var lost: seq<seq<Byte>>

    ghost predicate Valid()
      reads this
    {
      Numbered(files) && forall i :: i in strays ==> i <= U32_MAX
    }

    constructor (files: Files, strays: set<nat>, sound: bool)
      requires Numbered(files) && forall i :: i in strays ==> i <= U32_MAX
      ensures Valid() && this.files == files && this.strays == strays && this.sound == sound && lost == []
    {
      this.files, this.strays, this.sound, lost := files, strays, sound, [];
    }

    /** Whether the file system refuses what it is asked for. */
    method Refuses() returns (refused: bool)
      ensures refused ==> !sound
    {
      var whim: bool := *;
      refused := !sound && whim;
    }

    /** Whether there is no number left for another archive that is to be kept for ever. */
    predicate Exhausted(maxFiles: nat)
      reads this`files
    {
      maxFiles == 0 && (0xFFFF_FFFF in files || 0xFFFF_FFFF in strays)
    }

    method Remove(index: nat) returns (r: Outcome)
      requires index in files
      modifies this
      ensures sound ==> r.Done?
      ensures r.Done? ==> files == old(files) - {index} && lost == old(lost) + [old(files)[index]]
      ensures r.Refused? ==> files == old(files) && lost == old(lost)
    {
      var refused := Refuses();
      if refused {
        return Refused;
      }
      lost := lost + [files[index]];
      files := files - {index};
      return Done;
    }

    /** Renaming replaces a file that already has the new name. */
    method Rename(source: nat, target: nat) returns (r: Outcome)
      requires source in files && source != target
      modifies this
      ensures sound ==> r.Done?
      ensures r.Done? ==> files == (old(files) - {source})[target := old(files)[source]]
      ensures r.Done? ==> lost == old(lost) + if target in old(files) then [old(files)[target]] else []
      ensures r.Refused? ==> files == old(files) && lost == old(lost)
    {
      var refused := Refuses();
      if refused {
        return Refused;
      }
      if target in files {
        lost := lost + [files[target]];
      }
      files := (files - {source})[target := files[source]];
      return Done;
    }

    method HighestRolledIndex() returns (highest: nat)
      ensures forall i :: i in files || i in strays ==> i <= highest
      ensures highest == 0 || highest in files || highest in strays
    {
      highest := 0;
      var names := files.Keys + strays;
      while names != {}
        invariant names <= files.Keys + strays
        invariant forall i :: i in files.Keys + strays && i !in names ==> i <= highest
        invariant highest == 0 || highest in files || highest in strays
        decreases names
      {
        var name :| name in names;
        highest := Max(highest, name);
        names := names - {name};
      }
    }

    /** One rename widens the shift by one number, if there is anything to rename. */
    method MoveUp(ghost base: Files, index: nat, ghost limit: nat) returns (r: Outcome)
      requires Numbered(base) && limit !in base && index < limit <= U32_MAX && files == Shift(base, index + 1, limit)
      modifies this
      ensures r.Done? ==> files == Shift(base, index, limit)
      ensures r.Refused? ==> files == old(files) && !sound
      ensures lost == old(lost)
    {
      ShiftOneMore(base, index, limit);
      hide Shift;
      if index in files {
        r := Rename(index, index + 1);
        return r;
      }
      return Done;
    }

    /** The renaming loop of a rotation, from the top down; no rename lands on an existing file. */
    method ShiftUp(limit: nat) returns (r: Outcome, ghost from: nat)
      requires Valid() && limit !in files && 0 < limit <= U32_MAX
      modifies this
      ensures from <= limit && files == Shift(old(files), from, limit)
      ensures r.Done? ==> from == 0
      ensures sound ==> r.Done?
      ensures lost == old(lost) && Valid()
    {
      hide Shift, Occupied, Numbered;
      ghost var base := files;
      ShiftOfNothing(base, limit);
      var index := limit;
      while index > 1
        invariant 1 <= index <= limit
        invariant files == Shift(base, index, limit)
        invariant lost == old(lost)
      {
        r := MoveUp(base, index - 1, limit);
        if r.Refused? {
          ShiftedIsNumbered(base, index, limit);
          return r, index;
        }
        index := index - 1;
      }
      r := MoveUp(base, 0, limit);
      from := if r.Done? then 0 else 1;
      ShiftedIsNumbered(base, from, limit);
    }

    /** A rotation is a pure shift: only the archive at the limit goes. It fails only if refused, or out of numbers. */
    method Rotate(maxFiles: nat) returns (r: Outcome)
      requires Valid() && maxFiles <= U32_MAX
      modifies this
      ensures Valid()
      ensures r.Done? ==> LeftAt(old(files), files, maxFiles, 0)
      ensures r.Refused? ==> Interrupted(old(files), files, maxFiles)
      ensures sound ==> (r.Refused? <==> old(Exhausted(maxFiles)))
      ensures lost == old(lost) || (maxFiles in old(files) && maxFiles > 0 && lost == old(lost) + [old(files)[maxFiles]])
      ensures r.Done? && maxFiles > 0 && maxFiles in old(files) ==> lost != old(lost)
    {
      hide Shift, Trim, Occupied;
      ghost var before := files;
      NothingInterrupted(maxFiles);
      var limit;
      r, limit := MakeRoom(maxFiles);
      if r.Refused? {
        return r;
      }
      ghost var from;
      r, from := ShiftUp(limit);
      assert LeftAt(before, files, maxFiles, from);
    }

    lemma NothingInterrupted(maxFiles: nat)
      requires Valid() && maxFiles <= U32_MAX
      ensures Interrupted(files, files, maxFiles)
    {
    }

    /** The number up to which the files are to be shifted is free: the archive that has it now is deleted. */
    method MakeRoom(maxFiles: nat) returns (r: Outcome, limit: nat)
      requires Valid() && maxFiles <= U32_MAX
      modifies this
      ensures r.Refused? ==> files == old(files) && lost == old(lost)
      ensures sound ==> (r.Refused? <==> old(Exhausted(maxFiles)))
      ensures r.Done? ==>
                && Valid() && files == Trim(old(files), maxFiles) && IsLimit(old(files), maxFiles, limit)
                && limit !in files && 0 < limit <= U32_MAX
                && lost == old(lost) + if maxFiles > 0 && maxFiles in old(files) then [old(files)[maxFiles]] else []
    {
      limit := maxFiles;
      if maxFiles == 0 {
        var highest := HighestRolledIndex();
        if highest == U32_MAX {
          return Refused, limit;
        }
        limit := highest + 1;
      } else if maxFiles in files {
        r := Remove(maxFiles);
        if r.Refused? {
          return r, limit;
        }
      }
      return Done, limit;
    }
  }
}
