/** What the rules of the supervisor's journal add up to within a run: wakeups, the watchdog, packets and exit codes. */
module Watchdogs {
  import opened Prelude
  import opened Journals
  import opened Lifecycle
  import Filters

  // ----- wakeups

  /** Between `p` and `j` the event loop was not woken, and no run began or ended. */
  ghost predicate StillAwake(j: Journal, p: Journal) {
    j == p || (j.After? && !j.entry.Woke? && !j.entry.Launching? && !j.entry.Launched? && !j.entry.Ended?
               && StillAwake(j.past, p))
  }

  /** The lines looked at between `p` and `j`, in order. */
  ghost function LinesRead(j: Journal, p: Journal): seq<Filters.Line> {
    if j == p || j.Empty? then [] else LinesRead(j.past, p) + if j.entry.Read? then [j.entry.line] else []
  }

  /** The actions those lines trigger, and the actions carried out. */
  ghost function ActionsTriggered(j: Journal, p: Journal): seq<Filters.FilterAction> {
    if j == p || j.Empty? then [] else ActionsTriggered(j.past, p) + if j.entry.Read? then j.entry.actions else []
  }

  ghost function ActionsDone(j: Journal, p: Journal): seq<Filters.FilterAction> {
    if j == p || j.Empty? then [] else ActionsDone(j.past, p) + if j.entry.Acted? then [j.entry.action] else []
  }

  /** A step between `p` and `j` sees to what `wakeup` calls for. */
  ghost predicate SeenTo(wakeup: Wakeup, j: Journal, p: Journal) {
    j != p && j.After? && (Answers(wakeup, j.entry) || SeenTo(wakeup, j.past, p))
  }

  predicate Answers(wakeup: Wakeup, e: Entry) {
    match wakeup
    case ControlArrived => e.Took?
    case ControlChannelClosed => e.ControlsClosed?
    case Protocol(Packet(code, number)) => e.Heard? && e.code == code && e.number == number
    case Protocol(_) => e.Lost?
    case Tick => e.Ticked? || e.Expired?
    case _ => false
  }

  /** What is left to do since a wakeup. */
  ghost predicate Left(wakeup: Wakeup, j: Journal, p: Journal, due: Due) {
    match wakeup
    case Output(lines) =>
      && due.DueLines? && LinesRead(j, p) + due.lines == lines
      && ActionsTriggered(j, p) == ActionsDone(j, p) + due.actions
    case OutputClosed => due == NothingDue
    case ControlArrived => due == if SeenTo(wakeup, j, p) then NothingDue else DueControl
    case ControlChannelClosed => due == if SeenTo(wakeup, j, p) then NothingDue else DueHangup
    case Protocol(Packet(code, number)) => due == if SeenTo(wakeup, j, p) then NothingDue else DuePacket(code, number)
    case Protocol(_) => due == if SeenTo(wakeup, j, p) then NothingDue else DueLoss
    case Tick => if SeenTo(wakeup, j, p) then due == NothingDue else due.DueTick?
  }

  lemma {:induction false} WhatIsLeft(s: Settings, j: Journal, p: Journal)
    requires Accepted(s, j) && p.After? && p.entry.Woke? && StillAwake(j, p)
    ensures Left(p.entry.wakeup, j, p, Look(s, j).due) && Look(s, j).overall.inRun
  {
    if j == p {
      hide LinesRead, Left;
      JustWoken(s, p);
    } else {
      WhatIsLeft(s, j.past, p);
      hide Look;
      LookIs(s, j);
      OneLess(s, Look(s, j.past), p.entry.wakeup, j, p);
    }
  }

  lemma JustWoken(s: Settings, p: Journal)
    requires Accepted(s, p) && p.After? && p.entry.Woke?
    ensures Left(p.entry.wakeup, p, p, Look(s, p).due) && Look(s, p).overall.inRun
  {
  }

  /** A step takes away at most the first of what is left. */
  lemma OneLess(s: Settings, v: View, wakeup: Wakeup, j: Journal, p: Journal)
    requires j != p && j.After? && !j.entry.Woke? && !j.entry.Launching? && !j.entry.Launched? && !j.entry.Ended?
    requires Permitted(s, v, j.entry) && v.overall.inRun && Left(wakeup, j.past, p, v.due)
    ensures Left(wakeup, j, p, NextDue(v.current, v.due, j.entry))
  {
    if wakeup.Output? {
      OneLineLess(s, v, wakeup.lines, j, p);
    } else {
      hide LinesRead, ActionsDone, ActionsTriggered;
      InTurn(s, v, j.entry);
      hide Permitted;
    }
  }

  /** Controls and packets are taken only when they are due, and a deadline is judged only in a tick. */
  lemma InTurn(s: Settings, v: View, e: Entry)
    requires Permitted(s, v, e) && v.overall.inRun
    ensures e.Took? ==> v.due.DueControl?
    ensures e.ControlsClosed? ==> v.due.DueHangup?
    ensures e.Heard? ==> v.due == DuePacket(e.code, e.number)
    ensures e.Ticked? || e.Expired? ==> v.due.DueTick?
  {
    hide BetweenRunsPermitted, QueuePermitted, WithinWindow, IsTriggered, CanWake;
  }

  lemma LinesInTurn(s: Settings, v: View, e: Entry)
    requires Permitted(s, v, e)
    ensures e.Read? ==> v.due.DueLines? && v.due.actions == [] && v.due.lines != [] && v.due.lines[0] == e.line
    ensures e.Acted? ==> v.due.DueLines? && v.due.actions != [] && v.due.actions[0] == e.action
  {
    hide BetweenRunsPermitted, QueuePermitted, InRunPermitted, PacketPermitted, IsTriggered, CanWake;
  }

  lemma OneLineLess(s: Settings, v: View, lines: seq<Filters.Line>, j: Journal, p: Journal)
    requires j != p && j.After? && !j.entry.Woke? && !j.entry.Launching? && !j.entry.Launched? && !j.entry.Ended?
    requires Permitted(s, v, j.entry) && v.overall.inRun && Left(Output(lines), j.past, p, v.due)
    ensures Left(Output(lines), j, p, NextDue(v.current, v.due, j.entry))
  {
    InTurn(s, v, j.entry);
    LinesInTurn(s, v, j.entry);
    hide Permitted;
    if j.entry.Read? {
      assert v.due.lines == [j.entry.line] + v.due.lines[1..];
      Assoc(LinesRead(j.past, p), [j.entry.line], v.due.lines[1..]);
      assert ActionsDone(j.past, p) + [] == ActionsDone(j.past, p);
    } else if j.entry.Acted? {
      assert v.due.actions == [j.entry.action] + v.due.actions[1..];
      Assoc(ActionsDone(j.past, p), [j.entry.action], v.due.actions[1..]);
      assert LinesRead(j.past, p) + [] == LinesRead(j.past, p);
      assert ActionsTriggered(j.past, p) + [] == ActionsTriggered(j.past, p);
    } else {
      assert LinesRead(j.past, p) + [] == LinesRead(j.past, p);
      assert ActionsTriggered(j.past, p) + [] == ActionsTriggered(j.past, p);
      assert ActionsDone(j.past, p) + [] == ActionsDone(j.past, p);
    }
  }

  /**
   * The event loop sees to every wakeup before it waits for the next: it takes the control, hears the packet, or drops
   * the channel; of a batch of output it looks at every line and carries out every action of the filters that match; a
   * tick judges the deadlines. Nobody waits for more once the queue is closed.
   */
  lemma EveryWakeupIsSeenTo(s: Settings, j: Journal, p: Journal, next: Wakeup)
    requires Accepted(s, After(j, Woke(next))) && p.After? && p.entry.Woke? && StillAwake(j, p)
    ensures match p.entry.wakeup
            case Output(lines) => LinesRead(j, p) == lines && ActionsTriggered(j, p) == ActionsDone(j, p)
            case OutputClosed => !next.Output? && !next.OutputClosed?
            case wakeup => SeenTo(wakeup, j, p)
  {
    WhatIsLeft(s, j, p);
    if p.entry.wakeup.Output? {
      assert LinesRead(j, p) + [] == LinesRead(j, p) && ActionsDone(j, p) + [] == ActionsDone(j, p);
    }
    if p.entry.wakeup.OutputClosed? {
      ClosedStaysClosed(s, j, p);
    }
  }

  lemma {:induction false} ClosedStaysClosed(s: Settings, j: Journal, p: Journal)
    requires p.After? && p.entry == Woke(OutputClosed) && StillAwake(j, p)
    ensures !Look(s, j).current.outputOpen
  {
    LookUnfolds(s, j);
    hide Look;
    if j != p {
      ClosedStaysClosed(s, j.past, p);
    }
  }

  /** A line is answered with the actions of the first filter, in configured order, whose trigger is found in it. */
  lemma LinesTriggerTheirActions(s: Settings, j: Journal, line: Filters.Line, actions: seq<Filters.FilterAction>)
    requires Accepted(s, After(j, Read(line, actions)))
    ensures forall k :: 0 <= k < |s.filters| && Filters.Triggers(s.filters[k], line)
                        && (forall i :: 0 <= i < k ==> !Filters.Triggers(s.filters[i], line)) ==>
              actions == s.filters[k].actions
    ensures (forall k :: 0 <= k < |s.filters| ==> !Filters.Triggers(s.filters[k], line)) ==> actions == []
  {
    hide Filters.Triggers, Look;
    assert IsTriggered(s.filters, line, actions);
  }

  // ----- why a run ends

  /** What a step of a run calls for, in words of the journal alone. */
  predicate Calls(s: Settings, e: Entry, demand: Demand) {
    match demand
    case NoDemand => false
    case ToStop => e.ControlsClosed? || e == Took(Stop) || e == Took(ConsoleInterrupt) || e == Acted(Filters.Shutdown)
    case ToRestart => (e.Heard? && e.code == 102) || e == Acted(Filters.Restart)
    case ToPause => s.pausable && s.pausableStopsJvm && (e == Took(Control.Pause) || e == Acted(Filters.Pause))
    case ToReplace => e.Expired?
  }

  /** Something in the current run has called for this. */
  predicate CalledFor(s: Settings, j: Journal, demand: Demand) {
    && j.After? && !j.entry.Launching? && !j.entry.Launched?
    && (Calls(s, j.entry, demand) || CalledFor(s, j.past, demand))
  }

  predicate LaunchedSince(j: Journal) {
    j.After? && !j.entry.Launching? && (j.entry.Launched? || LaunchedSince(j.past))
  }

  lemma {:induction false} DemandsAreCalls(s: Settings, j: Journal, demand: Demand)
    requires Accepted(s, j) && Look(s, j).overall.inRun
    ensures CalledFor(s, j, demand) <==> demand != NoDemand && Look(s, j).current.demand == demand
    ensures s.pausableStopsJvm ==> !Look(s, j).current.paused
  {
    assert j.After?;
    hide Look, Permitted, Calls;
    LookIs(s, j);
    if j.entry.Launching? || j.entry.Launched? {
      ANewLaunch(s, Look(s, j.past), j.entry);
    } else {
      StillRunning(s, Look(s, j.past), j.entry);
      DemandsAreCalls(s, j.past, demand);
      WhatPressesIsNew(s, j.past);
      OneDemand(s, Look(s, j.past), j.entry, demand);
    }
  }

  lemma ANewLaunch(s: Settings, v: View, e: Entry)
    requires e.Launching? || e.Launched?
    ensures Next(s, v, e).current.demand.NoDemand? && !Next(s, v, e).current.paused
  {
  }

  lemma StillRunning(s: Settings, v: View, e: Entry)
    requires !e.Launching? && Next(s, v, e).overall.inRun
    ensures v.overall.inRun
  {
  }

  /** What calls for an end comes when nothing has done so before. */
  lemma CallsComeAlone(s: Settings, v: View, e: Entry, demand: Demand)
    requires Permitted(s, v, e) && v.overall.inRun && Calls(s, e, demand)
    requires Pressing(v.due) || v.due.DueTick? ==> v.current.demand.NoDemand?
    ensures v.current.demand.NoDemand?
  {
    hide BetweenRunsPermitted, QueuePermitted, WithinWindow, IsTriggered, CanWake;
  }

  lemma CallsAreDemands(s: Settings, c: Current, e: Entry, demand: Demand)
    requires s.pausableStopsJvm ==> !c.paused
    ensures demand != NoDemand ==> (Demanded(s, c.paused, e) == demand <==> Calls(s, e, demand))
    ensures !Calls(s, e, NoDemand)
  {
  }

  lemma NoPausePackets(s: Settings, v: View, e: Entry)
    requires Permitted(s, v, e) && s.pausableStopsJvm && !v.current.paused && !e.Launching? && !e.Launched?
    ensures !Next(s, v, e).current.paused
  {
    hide BetweenRunsPermitted, QueuePermitted, WakeupPermitted, InRunPermitted;
  }

  lemma OneDemand(s: Settings, v: View, e: Entry, demand: Demand)
    requires Permitted(s, v, e) && v.overall.inRun && !e.Launching? && !e.Launched?
    requires Pressing(v.due) || v.due.DueTick? ==> v.current.demand.NoDemand?
    requires s.pausableStopsJvm ==> !v.current.paused
    ensures demand != NoDemand ==>
              (Next(s, v, e).current.demand == demand <==> Calls(s, e, demand) || v.current.demand == demand)
    ensures !Calls(s, e, NoDemand) && (s.pausableStopsJvm ==> !Next(s, v, e).current.paused)
  {
    hide Permitted, Calls, Demanded;
    CallsAreDemands(s, v.current, e, demand);
    if s.pausableStopsJvm {
      NoPausePackets(s, v, e);
    }
    if Calls(s, e, demand) {
      CallsComeAlone(s, v, e, demand);
    }
  }

  /**
   * A run ends as was called for: by a stop, a restart, or a pause; by a missed deadline; or by the JVM's own end. What
   * calls for an end is at most one thing, and a launch that has failed ends like a missed deadline.
   */
  lemma WhyARunEnds(s: Settings, j: Journal, outcome: RunOutcome, now: int)
    requires Accepted(s, After(j, Ended(outcome, now)))
    ensures outcome.StopRun? <==> CalledFor(s, j, ToStop)
    ensures outcome.PauseRun? <==> CalledFor(s, j, ToPause)
    ensures outcome.RestartRun? && !outcome.automatic <==> CalledFor(s, j, ToRestart)
    ensures outcome.RestartRun? && outcome.automatic <==> CalledFor(s, j, ToReplace) || !LaunchedSince(j)
    ensures match outcome
            case StopRun(code) => code == 0
            case RestartRun(_, automatic, code) => code == if automatic then 1 else 0
            case _ => true
  {
    DemandsAreCalls(s, j, ToStop);
    DemandsAreCalls(s, j, ToPause);
    DemandsAreCalls(s, j, ToRestart);
    DemandsAreCalls(s, j, ToReplace);
    LaunchesAreSeen(s, j);
    NobodyIsAskedBeforeTheLaunch(s, j);
  }

  lemma {:induction false} LaunchesAreSeen(s: Settings, j: Journal)
    ensures Look(s, j).current.launched <==> LaunchedSince(j)
  {
    LookUnfolds(s, j);
    hide Look;
    if j.After? {
      LaunchesAreSeen(s, j.past);
    }
  }

  /** Nothing is called for before the JVM is launched. */
  lemma {:induction false} NobodyIsAskedBeforeTheLaunch(s: Settings, j: Journal)
    requires Accepted(s, j)
    ensures Look(s, j).overall.inRun && !Look(s, j).current.launched ==>
              Look(s, j).current.demand.NoDemand? && Settled(Look(s, j).due)
  {
    if j.After? {
      NobodyIsAskedBeforeTheLaunch(s, j.past);
      WhatPressesIsNew(s, j.past);
    }
  }

  // ----- the watchdog

  /** A launched JVM is always under a deadline: for starting, or for answering. */
  lemma {:induction false} TheWatchdogIsArmed(s: Settings, j: Journal)
    requires Accepted(s, j)
    ensures var c := Look(s, j).current;
            && (c.started || c.connected ==> c.everConnected)
            && (c.dumping ==> c.started) && (c.started ==> c.launched)
            && (c.launched && !c.started && s.startupTimeout > 0 ==> c.deadline.Some?)
  {
    LookUnfolds(s, j);
    hide Look;
    if j.After? {
      TheWatchdogIsArmed(s, j.past);
    }
  }

  /** When the current JVM last gave a sign of life: by being launched, by connecting, or by a packet. */
  function LastSign(j: Journal): Option<int> {
    match j
    case Empty => None
    case After(past, entry) =>
      if entry.Launching? then None
      else if entry.Launched? || entry.Admitted? || entry.Heard? then Some(entry.now)
      else LastSign(past)
  }

  /**
   * When the current JVM is to have started: a configured time after its launch, or as long after its last request for
   * more time as it asked for; an unreadable request counts as one for the configured time.
   */
  function StartDeadline(s: Settings, j: Journal): Option<int> {
    match j
    case Empty => None
    case After(past, entry) =>
      if entry.Launching? then None
      else if entry.Launched? then if s.startupTimeout > 0 then Some(entry.now + s.startupTimeout * 1000) else None
      else if entry.Heard? && entry.code == 106 then None
      else if entry.Heard? && entry.code == 105 && s.startupTimeout > 0 then
        (match entry.number
         case Some(n) =>
           if 0 <= n <= 0xFFFF_FFFF_FFFF_FFFF then Some(entry.now + Max(n, 1))
           else Some(entry.now + Min(s.startupTimeout * 1000, 0xFFFF_FFFF_FFFF_FFFF))
         case None => Some(entry.now + Min(s.startupTimeout * 1000, 0xFFFF_FFFF_FFFF_FFFF)))
      else StartDeadline(s, past)
  }

  predicate EverAdmitted(j: Journal) {
    j.After? && !j.entry.Launching? && !j.entry.Launched? && (j.entry.Admitted? || EverAdmitted(j.past))
  }

  /** When the current JVM was last pinged, or launched. */
  function LastPing(j: Journal): Option<int> {
    match j
    case Empty => None
    case After(past, entry) =>
      if entry.Launching? then None
      else if entry.Launched? || entry.PingDue? then Some(entry.now)
      else LastPing(past)
  }

  lemma {:induction false} SignsAreRecorded(s: Settings, j: Journal)
    ensures var c := Look(s, j).current;
            && c.everConnected == EverAdmitted(j) && (c.launched <==> LaunchedSince(j))
            && (c.launched ==> LastSign(j) == Some(c.lastSign) && StartDeadline(s, j) == c.deadline)
            && (c.launched ==> LastPing(j).Some? && c.nextPing == LastPing(j).value + Max(s.pingInterval, 1) * 1000)
  {
    LookUnfolds(s, j);
    hide Look;
    if j.After? {
      SignsAreRecorded(s, j.past);
    }
  }

  /** How long a JVM may stay silent, in milliseconds. */
  function Window(s: Settings, dumping: bool): nat {
    s.pingTimeout * 1000 + Max(s.pingInterval, 1) * 1000 + if dumping then Max(s.heapDumpTimeout, 1) * 1000 else 0
  }

  /** The current JVM has kept to the deadline for its start, and has not been silent for longer than it may. */
  predicate InTime(s: Settings, j: Journal, now: int) {
    && (!ReportedStarted(j) && StartDeadline(s, j).Some? ==> now < StartDeadline(s, j).value)
    && (s.pingTimeout > 0 && EverAdmitted(j) && LastSign(j).Some? ==>
          now - LastSign(j).value <=
          s.pingTimeout * 1000 + (if s.pingInterval == 0 then 1000 else s.pingInterval * 1000)
          + if OpenDumps(j) == 0 then 0 else if s.heapDumpTimeout == 0 then 1000 else s.heapDumpTimeout * 1000)
  }

  /** A tick that has seen to everything else. */
  ghost predicate AboutToJudge(s: Settings, j: Journal) {
    Accepted(s, j) && Look(s, j).due == DueTick({})
  }

  /**
   * Where a tick has come to the deadlines, it replaces the JVM if and only if it is late; and it is over only once a
   * connected JVM has been pinged, if the last ping is an interval ago.
   */
  lemma TheWatchdogIsExact(s: Settings, j: Journal, now: int)
    requires AboutToJudge(s, j)
    ensures Accepted(s, After(j, Expired(now))) <==> !InTime(s, j, now)
    ensures Accepted(s, After(j, Ticked(now))) <==>
            && InTime(s, j, now)
            && (ChannelOpen(j) ==> LastPing(j).Some? && now < LastPing(j).value + Max(s.pingInterval, 1) * 1000)
  {
    SignsAreRecorded(s, j);
    OneHeapDumpAtATime(s, j);
    ChannelAndRequest(s, j);
    WhatPressesIsNew(s, j);
    NotFinishedInARun(s, j);
    hide Look;
    assert WithinWindow(s, Look(s, j).current, now) <==> InTime(s, j, now);
    JudgedBy(s, j, now);
  }

  lemma JudgedBy(s: Settings, j: Journal, now: int)
    requires AboutToJudge(s, j) && Look(s, j).overall.inRun && Look(s, j).current.launched && !Look(s, j).overall.finished
    ensures var c := Look(s, j).current;
            && (Accepted(s, After(j, Expired(now))) <==> !WithinWindow(s, c, now))
            && (Accepted(s, After(j, Ticked(now))) <==>
                WithinWindow(s, c, now) && (c.connected ==> now < c.nextPing))
  {
    hide Look, WithinWindow;
  }

  lemma {:induction false} NotFinishedInARun(s: Settings, j: Journal)
    requires Accepted(s, j)
    ensures Look(s, j).overall.inRun ==> !Look(s, j).overall.finished
  {
    if j.After? {
      NotFinishedInARun(s, j.past);
    }
  }

  /** Two pings of a JVM are an interval apart. */
  lemma PingsAreSpaced(s: Settings, j: Journal, now: int)
    requires Accepted(s, After(j, PingDue(now)))
    ensures ChannelOpen(j) && LastPing(j).Some? && now >= LastPing(j).value + Max(s.pingInterval, 1) * 1000
  {
    SignsAreRecorded(s, j);
    ChannelAndRequest(s, j);
    ConnectedMeansLaunched(s, j);
  }

  lemma {:induction false} ConnectedMeansLaunched(s: Settings, j: Journal)
    requires Accepted(s, j)
    ensures Look(s, j).current.connected ==> Look(s, j).current.launched
  {
    LookUnfolds(s, j);
    hide Look;
    if j.After? {
      ConnectedMeansLaunched(s, j.past);
    }
  }

  /** From `p` to `j` the JVM gives no sign of life, and no other is launched. */
  ghost predicate SilentSince(j: Journal, p: Journal) {
    j == p || (j.After? && !j.entry.Launching? && !j.entry.Launched? && !j.entry.Heard? && !j.entry.Admitted?
               && SilentSince(j.past, p))
  }

  ghost predicate NoDumpSince(j: Journal, p: Journal) {
    j == p || (j.After? && !j.entry.DumpStarted? && NoDumpSince(j.past, p))
  }

  lemma {:induction false} SilenceChangesNothing(s: Settings, j: Journal, p: Journal)
    requires SilentSince(j, p)
    ensures ReportedStarted(j) == ReportedStarted(p) && StartDeadline(s, j) == StartDeadline(s, p)
    ensures LastSign(j) == LastSign(p) && EverAdmitted(j) == EverAdmitted(p) && LaunchedSince(j) == LaunchedSince(p)
  {
    if j != p {
      SilenceChangesNothing(s, j.past, p);
    }
  }

  lemma {:induction false} NoDumpMeansNoExtension(s: Settings, j: Journal, p: Journal)
    requires NoDumpSince(j, p) && !Look(s, p).current.dumping
    ensures !Look(s, j).current.dumping
  {
    LookUnfolds(s, j);
    hide Look;
    if j != p {
      NoDumpMeansNoExtension(s, j.past, p);
    }
  }

  /**
   * A JVM that goes silent at `p` does not survive a tick past its window: every later tick that leaves the run
   * going comes before the start-up deadline, or within the ping window, extended only by a heap dump.
   */
  lemma SilentJvmIsReplaced(s: Settings, j: Journal, p: Journal, now: int)
    requires s.startupTimeout > 0 && s.pingTimeout > 0
    requires Accepted(s, After(j, Ticked(now))) && SilentSince(j, p)
    ensures if ReportedStarted(p) then
              LastSign(p).Some? && now <= LastSign(p).value + Window(s, !(NoDumpSince(j, p) && OpenDumps(p) == 0))
            else
              StartDeadline(s, p).Some? && now < StartDeadline(s, p).value
  {
    TheWatchdogIsArmed(s, j);
    SilenceChangesNothing(s, j, p);
    TheWatchdogIsExact(s, j, now);
    SignsAreRecorded(s, j);
    OneHeapDumpAtATime(s, j);
    if NoDumpSince(j, p) && OpenDumps(p) == 0 {
      SilentPrefix(s, j, p);
      OneHeapDumpAtATime(s, p);
      NoDumpMeansNoExtension(s, j, p);
    }
  }

  lemma {:induction false} SilentPrefix(s: Settings, j: Journal, p: Journal)
    requires Accepted(s, j) && SilentSince(j, p)
    ensures Accepted(s, p)
  {
    if j != p {
      SilentPrefix(s, j.past, p);
    }
  }

  /** A tick that begins at `p` has polled the heap dump, found the process running, and come to the deadlines. */
  function Checked(s: Settings, p: Journal, complete: bool, pid: nat): Journal {
    var checked := After(After(p, DumpPolled(complete)), StillRuns(pid));
    if ChannelOpen(p) then checked else After(checked, ListenerPolled(false))
  }

  lemma ATickGoesOn(s: Settings, p: Journal, complete: bool, pid: nat)
    requires Accepted(s, p) && p.After? && p.entry == Woke(Tick) && OpenDumps(p) > 0
    ensures AboutToJudge(s, Checked(s, p, complete, pid))
  {
    OneHeapDumpAtATime(s, p);
    ChannelAndRequest(s, p);
    NotFinishedInARun(s, p);
    AtTheTick(s, p);
    var polled := After(p, DumpPolled(complete));
    var seen := After(polled, StillRuns(pid));
    TheDumpIsPolled(s, Look(s, p), complete);
    hide Look, Permitted, Next;
    OneStep(s, p, DumpPolled(complete));
    TheProcessRuns(s, Look(s, polled), pid);
    OneStep(s, polled, StillRuns(pid));
    TheChores();
    if !ChannelOpen(p) {
      NobodyThere(s, Look(s, seen));
      OneStep(s, seen, ListenerPolled(false));
    }
  }

  /** A started JVM in a run that has come to some point of a tick. */
  ghost predicate InATick(v: View, connected: bool, chores: set<Chore>) {
    && v.overall.inRun && !v.overall.finished && v.current.launched && v.current.connected == connected
    && v.due == DueTick(chores)
  }

  lemma TheDumpIsPolled(s: Settings, v: View, complete: bool)
    requires v.due.DueTick? && InATick(v, v.current.connected, v.due.chores) && v.current.dumping
    ensures Permitted(s, v, DumpPolled(complete))
    ensures InATick(Next(s, v, DumpPolled(complete)), v.current.connected, v.due.chores - {DumpChore})
  {
  }

  lemma TheProcessRuns(s: Settings, v: View, pid: nat)
    requires v.due.DueTick? && InATick(v, v.current.connected, v.due.chores)
    ensures Permitted(s, v, StillRuns(pid))
    ensures InATick(Next(s, v, StillRuns(pid)), v.current.connected, v.due.chores - {ExitChore})
  {
  }

  lemma NobodyThere(s: Settings, v: View)
    requires v.due.DueTick? && InATick(v, false, v.due.chores)
    ensures Permitted(s, v, ListenerPolled(false))
    ensures InATick(Next(s, v, ListenerPolled(false)), false, v.due.chores - {ListenerChore})
  {
  }

  lemma AtTheTick(s: Settings, p: Journal)
    requires Accepted(s, p) && p.After? && p.entry == Woke(Tick)
    ensures var v := Look(s, p);
            && v.overall.inRun && v.current.launched
            && v.due == DueTick({ExitChore} + (if v.current.dumping then {DumpChore} else {})
                                + (if v.current.connected then {} else {ListenerChore}))
  {
  }

  lemma TheChores()
    ensures {ExitChore} + {DumpChore} + {} - {DumpChore} - {ExitChore} == {}
    ensures {ExitChore} + {DumpChore} + {ListenerChore} - {DumpChore} - {ExitChore} - {ListenerChore} == {}
  {
  }

  /**
   * A tick that sees a heap dump complete allows the JVM no more than the window without a dump; one that sees it still
   * under way allows the longer one.
   */
  lemma TheLongerWindowEndsWithTheDump(s: Settings, p: Journal, pid: nat, now: int)
    requires Accepted(s, p) && p.After? && p.entry == Woke(Tick) && OpenDumps(p) > 0 && s.pingTimeout > 0
    ensures LastSign(p).Some?
    ensures Accepted(s, After(Checked(s, p, false, pid), Expired(now))) <==> now > LastSign(p).value + Window(s, true)
    ensures Accepted(s, After(Checked(s, p, true, pid), Expired(now))) <==> now > LastSign(p).value + Window(s, false)
  {
    OneHeapDumpAtATime(s, p);
    TheWatchdogIsArmed(s, p);
    SignsAreRecorded(s, p);
    hide Look, Accepted, OpenDumps, LastSign, Window;
    JudgedAfterTheDump(s, p, false, pid, now);
    JudgedAfterTheDump(s, p, true, pid, now);
  }

  lemma JudgedAfterTheDump(s: Settings, p: Journal, complete: bool, pid: nat, now: int)
    requires Accepted(s, p) && p.After? && p.entry == Woke(Tick) && OpenDumps(p) == 1 && s.pingTimeout > 0
    requires ReportedStarted(p) && EverAdmitted(p) && LastSign(p).Some?
    ensures Accepted(s, After(Checked(s, p, complete, pid), Expired(now))) <==>
            now > LastSign(p).value + Window(s, !complete)
  {
    ATickGoesOn(s, p, complete, pid);
    TheWatchdogIsExact(s, Checked(s, p, complete, pid), now);
    NoSignInATick(s, p, complete, pid);
    hide Look, Accepted, AboutToJudge, Checked, StartDeadline, LastSign, OpenDumps, ReportedStarted, EverAdmitted;
  }

  lemma NoSignInATick(s: Settings, p: Journal, complete: bool, pid: nat)
    ensures var checked := Checked(s, p, complete, pid);
            && LastSign(checked) == LastSign(p) && ReportedStarted(checked) == ReportedStarted(p)
            && StartDeadline(s, checked) == StartDeadline(s, p) && EverAdmitted(checked) == EverAdmitted(p)
            && OpenDumps(checked) == OpenDumps(p) - if complete then 1 else 0
  {
    var polled := After(p, DumpPolled(complete));
    var seen := After(polled, StillRuns(pid));
    OneOtherStep(s, polled);
    OneOtherStep(s, seen);
    OneOtherStep(s, After(seen, ListenerPolled(false)));
  }

  lemma OneOtherStep(s: Settings, j: Journal)
    requires j.After? && (j.entry.DumpPolled? || j.entry.StillRuns? || j.entry.ListenerPolled?)
    ensures LastSign(j) == LastSign(j.past) && ReportedStarted(j) == ReportedStarted(j.past)
    ensures StartDeadline(s, j) == StartDeadline(s, j.past) && EverAdmitted(j) == EverAdmitted(j.past)
    ensures OpenDumps(j) == OpenDumps(j.past) - if j.entry == DumpPolled(true) then 1 else 0
  {
  }

  /** So a JVM that was in time with a dump under way may be replaced because the dump is complete. */
  lemma SomeAreReplacedDuringADump(s: Settings, p: Journal, pid: nat)
    requires Accepted(s, p) && p.After? && p.entry == Woke(Tick) && OpenDumps(p) > 0 && s.pingTimeout > 0
    ensures exists now ::
              && Accepted(s, After(Checked(s, p, true, pid), Expired(now)))
              && !Accepted(s, After(Checked(s, p, false, pid), Expired(now)))
  {
    TheLongerWindowEndsWithTheDump(s, p, pid, 0);
    var now := LastSign(p).value + Window(s, true);
    TheLongerWindowEndsWithTheDump(s, p, pid, now);
    assert Accepted(s, After(Checked(s, p, true, pid), Expired(now)));
  }

  /** Since the current JVM was launched, a deadline was found missed, at a step that the journal shows to be late. */
  predicate FoundLate(s: Settings, j: Journal) {
    && j.After? && !j.entry.Launching? && !j.entry.Launched?
    && ((j.entry.Expired? && !InTime(s, j.past, j.entry.now)) || FoundLate(s, j.past))
  }

  lemma {:induction false} ExpiryIsRecorded(s: Settings, j: Journal)
    requires Accepted(s, j)
    ensures CalledFor(s, j, ToReplace) ==> FoundLate(s, j)
  {
    if j.After? {
      ExpiryIsRecorded(s, j.past);
      if j.entry.Expired? {
        TheWatchdogIsExact(s, j.past, j.entry.now);
      }
    }
  }

  /** The watchdog replaces nothing that was on time: an automatic restart follows a missed deadline or a failed launch. */
  lemma OnlyTheLateAreReplaced(s: Settings, j: Journal, elapsed: int, code: int, now: int)
    requires Accepted(s, After(j, Ended(RestartRun(elapsed, true, code), now)))
    ensures code == 1 && (LaunchedSince(j) ==> FoundLate(s, j))
  {
    WhyARunEnds(s, j, RestartRun(elapsed, true, code), now);
    ExpiryIsRecorded(s, j);
  }

  // ----- pausing in place and heap dumps

  /** The pause and resume packets sent to the current JVM. */
  function PauseTrail(j: Journal): seq<nat> {
    match j
    case Empty => []
    case After(past, entry) =>
      if entry.Launching? || entry.Launched? then []
      else if entry.Sent? && (entry.code == PAUSE || entry.code == RESUME) then PauseTrail(past) + [entry.code]
      else PauseTrail(past)
  }

  /** Pause and resume alternate, beginning with a pause, and the JVM counts as paused after an odd number of them. */
  lemma {:induction false} PausesAlternate(s: Settings, j: Journal)
    requires Accepted(s, j)
    ensures var trail := PauseTrail(j);
            && (forall i :: 0 <= i < |trail| ==> trail[i] == if i % 2 == 0 then PAUSE else RESUME)
            && (Look(s, j).current.paused <==> |trail| % 2 == 1)
            && (trail != [] ==> s.pausable && !s.pausableStopsJvm)
  {
    LookUnfolds(s, j);
    hide Look;
    if j.After? {
      PausesAlternate(s, j.past);
    }
  }

  function OpenDumps(j: Journal): int {
    match j
    case Empty => 0
    case After(past, entry) =>
      if entry.Launching? || entry.Launched? then 0
      else OpenDumps(past) + (if entry.DumpStarted? then 1 else if entry == DumpPolled(true) then -1 else 0)
  }

  predicate ReportedStarted(j: Journal) {
    && j.After? && !j.entry.Launching? && !j.entry.Launched?
    && ((j.entry.Heard? && j.entry.code == STARTED) || ReportedStarted(j.past))
  }

  /** At most one heap dump is under way, and none before the application has reported that it started. */
  lemma {:induction false} OneHeapDumpAtATime(s: Settings, j: Journal)
    requires Accepted(s, j)
    ensures OpenDumps(j) == if Look(s, j).current.dumping then 1 else 0
    ensures Look(s, j).current.started <==> ReportedStarted(j)
    ensures OpenDumps(j) > 0 ==> ReportedStarted(j)
  {
    LookUnfolds(s, j);
    hide Look;
    if j.After? {
      OneHeapDumpAtATime(s, j.past);
    }
  }

  // ----- the end of a JVM that does not stop by itself

  /** Since the launch of the current JVM its control channel was opened, and not lost again. */
  predicate ChannelOpen(j: Journal) {
    && j.After? && !j.entry.Launching? && !j.entry.Launched?
    && (j.entry.Admitted? || (!j.entry.Lost? && ChannelOpen(j.past)))
  }

  /** When the current JVM was last asked to stop. */
  function AskedAt(j: Journal): Option<int> {
    match j
    case Empty => None
    case After(past, entry) =>
      if entry.Launching? || entry.Launched? then None
      else if entry.Sent? && entry.code == STOP then Some(entry.now)
      else AskedAt(past)
  }

  lemma {:induction false} ChannelAndRequest(s: Settings, j: Journal)
    ensures Look(s, j).current.connected <==> ChannelOpen(j)
    ensures Look(s, j).current.asked == AskedAt(j)
  {
    LookUnfolds(s, j);
    hide Look;
    if j.After? {
      ChannelAndRequest(s, j.past);
    }
  }

  /** No JVM is killed that could be asked to stop, nor before it has had the shutdown timeout since it was asked. */
  lemma NobodyIsKilledUnasked(s: Settings, j: Journal, now: int)
    requires Accepted(s, After(j, Killed(now)))
    ensures match AskedAt(j)
            case Some(since) => now >= since + s.shutdownTimeout * 1000
            case None => !ChannelOpen(j)
  {
    ChannelAndRequest(s, j);
  }

  /** Packets are exchanged only over an open channel; greetings alone are sent before it counts as open. */
  lemma PacketsNeedAChannel(s: Settings, j: Journal, e: Entry)
    requires Accepted(s, After(j, e))
    ensures e.Heard? ==> ChannelOpen(j)
    ensures e.Sent? && e.code in {STOP, PING, GC, SERVICE_CONTROL, PAUSE, RESUME} ==> ChannelOpen(j)
    ensures e.Admitted? ==> !ChannelOpen(j)
  {
    ChannelAndRequest(s, j);
  }

  // ----- exit codes

  /** The number in the first stop packet of the current JVM, if there is such a packet, and a number in it. */
  function FirstStop(j: Journal): Option<Option<int>> {
    match j
    case Empty => None
    case After(past, entry) =>
      if entry.Launching? || entry.Launched? then None
      else if FirstStop(past).None? && entry.Heard? && entry.code == 101 then Some(entry.number)
      else FirstStop(past)
  }

  /** The last status with which the current JVM was seen to exit. */
  function SeenStatus(j: Journal): Option<Option<int>> {
    match j
    case Empty => None
    case After(past, entry) =>
      if entry.Launching? || entry.Launched? then None
      else if entry.SawExit? then Some(entry.status)
      else SeenStatus(past)
  }

  lemma {:induction false} StopsAndStatuses(s: Settings, j: Journal)
    ensures Look(s, j).current.jvmStop == match FirstStop(j) case None => None case Some(number) => Some(ExitCode(number))
    ensures Look(s, j).current.status == SeenStatus(j)
  {
    LookUnfolds(s, j);
    hide Look;
    if j.After? {
      StopsAndStatuses(s, j.past);
    }
  }

  /**
   * The code of a JVM that ended by itself is the number in its first stop packet, or 0 where that is no 32-bit number;
   * without such a packet it is the exit status, or 1 without one.
   */
  lemma ExitCodeIsTheJvms(s: Settings, j: Journal, elapsed: int, code: int, now: int)
    requires Accepted(s, After(j, Ended(ExitedRun(elapsed, code), now)))
    ensures match (FirstStop(j), SeenStatus(j))
            case (Some(Some(n)), _) => code == if -0x8000_0000 <= n < 0x8000_0000 then n else 0
            case (Some(None), _) => code == 0
            case (None, Some(Some(status))) => code == status
            case (None, Some(None)) => code == 1
            case (None, None) => false
  {
    StopsAndStatuses(s, j);
  }

  /** A JVM that has announced its stop, or was seen to exit before anything was called for, ends by itself. */
  lemma AnnouncedStopsAreExits(s: Settings, j: Journal, outcome: RunOutcome, now: int)
    requires Accepted(s, After(j, Ended(outcome, now))) && LaunchedSince(j)
    requires forall demand :: !CalledFor(s, j, demand)
    ensures outcome.ExitedRun?
  {
    WhyARunEnds(s, j, outcome, now);
  }
}
