/** One JVM invocation of src/supervisor.rs: its event loop, handlers, watchdog and shutdown. */
module JvmRuns {
  import opened Prelude
  import opened Journals
  import opened Hosts
  import Filters

  const LOW_LOG_LEVEL: nat := 112
  const LOGFILE: nat := 134
  const PROPERTIES: nat := 115
  const START: nat := 100

  type Step = Result<Option<RunOutcome>, Cause>

  /** The actions of the filters that have matched a line, in order. */
  function ActionsOf(matches: seq<Filters.FilterMatch>): seq<Filters.FilterAction> {
    if matches == [] then [] else matches[0].actions + ActionsOf(matches[1..])
  }

  class JvmRun {
    const host: Host
    const settings: Settings
    const pid: nat
    const launchedAt: int
    var outputOpen: bool
    var connected: bool
    var everConnected: bool
    var started: bool
    var startupDeadline: Option<int>
    var nextPing: int
    var lastPingResponse: int
    var pausedInPlace: bool
    var heapDumpTask: Option<nat>

    /** The fields say what the journal says, and no process but this JVM can be alive. */
    ghost predicate Valid()
      reads this, host`journal, host`running, host`controls, host`closed
    {
      ValidWhen(outputOpen)
    }

    /** Valid, but for the output, which the journal may know to be closed already. */
    ghost predicate ValidWhen(open: bool)
      reads this, host`journal, host`running, host`controls, host`closed
    {
      && host.Valid() && settings == host.settings
      && var v := host.Now();
         && v.overall.inRun && !v.overall.finished && v.current.launched && v.alive <= {pid} && !v.inbox.looking
         && started == v.current.started && everConnected == v.current.everConnected && open == v.current.outputOpen
         && startupDeadline == v.current.deadline && lastPingResponse == v.current.lastSign
         && nextPing == v.current.nextPing
         && pausedInPlace == v.current.paused && connected == v.current.connected
         && heapDumpTask == (if v.current.dumping then Some(settings.HeapDumpMillis()) else None)
         && (connected ==> everConnected) && (v.stopTaken ==> v.current.demand.ToStop?)
    }

    /** Nobody and nothing has called for an end. */
    ghost predicate Unasked()
      reads host`journal
    {
      var v := host.Now();
      && !v.stopTaken && v.current.demand.NoDemand? && v.current.jvmStop.None? && v.current.asked.None?
      && v.current.status.None?
    }

    /** The event loop goes on. */
    ghost predicate Live()
      reads this, host`journal, host`running, host`controls, host`closed
    {
      Valid() && Unasked()
    }

    /** An end has been called for, and nothing done about it yet. */
    ghost predicate Called(demand: Demand)
      reads this, host`journal, host`running, host`controls, host`closed
    {
      Valid() && host.Now().current.demand == demand && host.Now().current.asked.None? && !Pressing(host.Now().due)
    }

    /** The JVM has exited, and `outcome` is a permitted verdict on its run. */
    ghost predicate Over(outcome: RunOutcome)
      reads this, host
    {
      && Valid() && host.Now().alive == {} && !Pressing(host.Now().due) && Earned(host.Now().current, outcome)
      && (outcome.RestartRun? || outcome.ExitedRun? ==> outcome.elapsed == host.now - launchedAt)
    }

    /** Either the loop goes on with `due` left to do, or the run is over; only the surroundings can prevent that. */
    ghost predicate Continues(r: Step, overall: Overall, horizon: nat, due: Due)
      reads this, host
    {
      && host.Valid() && host.Now().overall == overall && host.horizon <= horizon
      && match r
         case Success(None) => Live() && host.Now().due == due
         case Success(Some(outcome)) => Over(outcome)
         case Failure(cause) => host.Excuses(cause)
    }

    /** The run is over; only the surroundings can prevent that. */
    ghost predicate Ends(r: Step, overall: Overall, horizon: nat)
      reads this, host
    {
      && host.Valid() && host.Now().overall == overall && host.horizon <= horizon
      && match r
         case Success(None) => false
         case Success(Some(outcome)) => Over(outcome)
         case Failure(cause) => host.Excuses(cause)
    }

    constructor (host: Host, pid: nat, launchedAt: int)
      requires host.Valid() && host.Now().overall.inRun && !host.Now().overall.finished && host.Now().alive == {pid}
      requires !host.Now().inbox.looking
      requires host.journal.After? && host.journal.entry == Launched(pid, host.now) && !host.Now().stopTaken
      ensures Live() && !connected && this.host == host && this.launchedAt == launchedAt && this.pid == pid
      ensures host.Now().due == NothingDue
    {
      this.host, settings, this.pid, this.launchedAt := host, host.settings, pid, launchedAt;
      outputOpen, connected, everConnected, started := true, false, false, false;
      startupDeadline := if host.settings.startupTimeout > 0
      then Some(host.now + host.settings.startupTimeout * 1000) else None;
      nextPing := host.now + host.settings.PingIntervalMillis();
      lastPingResponse := host.now;
      pausedInPlace, heapDumpTask := false, None;
    }

    lemma HostIsValid(demand: Demand)
      requires if demand.NoDemand? then Live() else Called(demand)
      ensures host.Valid() && settings == host.settings
    {
    }

    // ----- the control channel

    method MarkDisconnected() returns (r: Result<(), Cause>)
      requires Valid()
      modifies this`connected, host`journal
      ensures Valid() && !connected && host.Standing() == old(host.Standing())
      ensures host.journal == if old(connected) then After(old(host.journal), Lost) else old(host.journal)
      ensures Undisturbed(old(Unasked()), old(host.Now().due))
      ensures r.Failure? ==> host.Excuses(r.error)
    {
      hide Look, ValidWhen, Host.Valid, Unasked;
      if connected {
        NoteLost();
        var _ :- host.Log();
      }
      return Success(());
    }

    method NoteLost()
      requires Valid() && connected
      modifies this`connected, host`journal
      ensures Valid() && !connected && host.Standing() == old(host.Standing())
      ensures host.Now().alive == old(host.Now().alive) && host.Now().current.asked == old(host.Now().current.asked)
      ensures host.journal == After(old(host.journal), Lost) && Undisturbed(old(Unasked()), old(host.Now().due))
    {
      hide Look;
      host.Note(Lost);
      connected := false;
    }

    /** Sending a packet or losing the channel calls for nothing, and leaves what is due between two ticks. */
    ghost predicate Undisturbed(unasked: bool, due: Due)
      reads host`journal
    {
      && (unasked ==> Unasked())
      && (due.NothingDue? || due.DueLines? ==> host.Now().due == due)
    }

    /** Sends a packet if there is a connection; a failed write loses the connection and counts as not sent. */
    method SendIfConnected(code: nat) returns (r: Result<bool, Cause>)
      requires Valid() && code != PAUSE && code != RESUME
      requires code == PING ==> host.Now().due.DueTick? && PingChore in host.Now().due.chores
      modifies this`connected, host`journal
      ensures Valid() && host.Standing() == old(host.Standing()) && host.Now().alive == old(host.Now().alive)
      ensures code != STOP ==> host.Now().current.asked == old(host.Now().current.asked)
      ensures r == Success(true) ==> connected && host.journal == After(old(host.journal), Sent(code, host.now))
      ensures r == Success(false) ==>
                !connected && host.journal == if old(connected) then After(old(host.journal), Lost) else old(host.journal)
      ensures host.reliable ==> r == Success(old(connected))
      ensures code != STOP ==> Undisturbed(old(Unasked()), old(host.Now().due))
      ensures r.Failure? ==> host.Excuses(r.error)
    {
      hide Look, Permitted, Next, Host.Valid;
      var delivered :- Transmit();
      if delivered {
        SentStep(settings, host.Now(), code, host.now);
        host.Note(Sent(code, host.now));
      }
      return Success(delivered);
    }

    method Transmit() returns (r: Result<bool, Cause>)
      requires Valid()
      modifies this`connected, host`journal
      ensures Valid() && host.Standing() == old(host.Standing()) && host.Now().alive == old(host.Now().alive)
      ensures host.Now().current.asked == old(host.Now().current.asked)
      ensures r == Success(true) ==> connected && host.journal == old(host.journal)
      ensures r == Success(false) ==>
                !connected && host.journal == if old(connected) then After(old(host.journal), Lost) else old(host.journal)
      ensures host.reliable ==> r == Success(old(connected))
      ensures Undisturbed(old(Unasked()), old(host.Now().due))
      ensures r.Failure? ==> host.Excuses(r.error)
    {
      if !connected {
        return Success(false);
      }
      var refused := host.Refuses();
      if refused {
        var _ :- host.Log();
        var _ :- MarkDisconnected();
        return Success(false);
      }
      return Success(true);
    }

    /** What a pause comes to: the end of the run, or a PAUSE packet if there is a connection. */
    ghost predicate PauseApplied(r: Step, before: Journal, wasConnected: bool)
      reads this, host
    {
      r.Success? ==>
        if settings.pausableStopsJvm then r.value == Some(PauseRun)
        else
          && r.value == None && pausedInPlace == connected && (host.reliable ==> connected == wasConnected)
          && (connected ==> host.journal == After(before, Sent(PAUSE, host.now)))
    }

    /** What a resume comes to: a RESUME packet if there is a connection. */
    ghost predicate ResumeApplied(before: Journal, wasConnected: bool)
      reads this, host
    {
      && pausedInPlace == !connected && (host.reliable ==> connected == wasConnected)
      && (connected ==> host.journal == After(before, Sent(RESUME, host.now)))
    }

    predicate MayPause(paused: bool) {
      settings.pausable && !paused
    }

    /** Pauses, either by stopping the JVM or, when configured so, by asking it to pause. */
    method PauseJvm() returns (r: Step)
      requires if settings.pausableStopsJvm then Called(ToPause) else Live() && !pausedInPlace && settings.pausable
      requires host.Now().due.NothingDue? || host.Now().due.DueLines?
      modifies this, host
      ensures Continues(r, old(host.Now().overall), old(host.horizon), old(host.Now().due))
      ensures PauseApplied(r, old(host.journal), old(connected))
    {
      hide Look, Host.Valid, Unasked;
      if settings.pausableStopsJvm {
        var _ :- ShutdownAndDrain();
        return Success(Some(PauseRun));
      }
      var sent :- Transmit();
      if sent {
        NotePause();
      }
      return Success(None);
    }

    method NotePause()
      requires Live() && connected && !pausedInPlace && settings.pausable && !settings.pausableStopsJvm
      modifies this`pausedInPlace, host`journal
      ensures Live() && pausedInPlace
      ensures host.Now().due == old(host.Now().due) && host.Now().overall == old(host.Now().overall)
      ensures host.journal == After(old(host.journal), Sent(PAUSE, host.now))
    {
      host.Note(Sent(PAUSE, host.now));
      pausedInPlace := true;
    }

    method ResumeJvm() returns (r: Result<(), Cause>)
      requires Live() && pausedInPlace
      requires host.Now().due.NothingDue? || host.Now().due.DueLines?
      modifies this, host
      ensures host.Valid() && host.Now().overall == old(host.Now().overall) && host.horizon <= old(host.horizon)
      ensures r.Success? ==> Live() && host.Now().due == old(host.Now().due)
      ensures r.Success? ==> ResumeApplied(old(host.journal), old(connected))
      ensures r.Failure? ==> host.Excuses(r.error)
    {
      var sent :- Transmit();
      if sent {
        NoteResume();
      }
      return Success(());
    }

    /** A pause asked for by a control or, with a message in the log, by a filter. */
    method PauseIfPossible(logged: bool) returns (r: Step)
      requires if settings.pausableStopsJvm && MayPause(pausedInPlace) then Called(ToPause) else Live()
      requires host.Now().due.NothingDue? || host.Now().due.DueLines?
      modifies this, host
      ensures Continues(r, old(host.Now().overall), old(host.horizon), old(host.Now().due))
      ensures r.Success? && r.value.Some? ==> r.value == Some(PauseRun)
      ensures r.Success? && !MayPause(old(pausedInPlace)) ==> r.value.None? && host.journal == old(host.journal)
      ensures MayPause(old(pausedInPlace)) ==> PauseApplied(r, old(host.journal), old(connected))
    {
      hide Look, Valid, ValidWhen, Host.Valid, Unasked, Called, Over;
      HostIsValid(if settings.pausableStopsJvm && MayPause(pausedInPlace) then ToPause else NoDemand);
      if settings.pausable && !pausedInPlace {
        if logged {
          var _ :- host.Log();
        }
        r := PauseJvm();
        return r;
      }
      return Success(None);
    }

    method ResumeIfPaused(logged: bool) returns (r: Step)
      requires Live() && (host.Now().due.NothingDue? || host.Now().due.DueLines?)
      modifies this, host
      ensures Continues(r, old(host.Now().overall), old(host.horizon), old(host.Now().due))
      ensures r.Success? ==> r.value.None?
      ensures r.Success? && !old(pausedInPlace) ==> host.journal == old(host.journal)
      ensures r.Success? && old(pausedInPlace) ==> ResumeApplied(old(host.journal), old(connected))
    {
      hide Look, Valid, ValidWhen, Host.Valid, Unasked, Over;
      HostIsValid(NoDemand);
      if pausedInPlace {
        if logged {
          var _ :- host.Log();
        }
        var _ :- ResumeJvm();
      }
      return Success(None);
    }

    method NoteResume()
      requires Live() && connected && pausedInPlace
      modifies this`pausedInPlace, host`journal
      ensures Live() && !pausedInPlace
      ensures host.Now().due == old(host.Now().due) && host.Now().overall == old(host.Now().overall)
      ensures host.journal == After(old(host.journal), Sent(RESUME, host.now))
    {
      host.Note(Sent(RESUME, host.now));
      pausedInPlace := false;
    }

    // ----- output

    method RecordOutput(line: Filters.Line) returns (r: Result<seq<Filters.FilterMatch>, Cause>)
      ensures r.Success? ==> IsTriggered(settings.filters, line, ActionsOf(r.value))
      ensures r.Failure? ==> host.Excuses(r.error)
    {
      var _ :- host.Log();
      var matches := Filters.InspectBytes(settings.filters, line);
      if matches != [] {
        assert matches[1..] == [] && matches[0].actions + [] == matches[0].actions;
      }
      return Success(matches);
    }

    /** Every line of a batch is recorded, and the actions it triggers are carried out, up to one that ends the run. */
    method HandleOutputBatch(lines: seq<Filters.Line>) returns (r: Step)
      requires Live() && host.Now().due == DueLines(lines, [])
      modifies this, host
      ensures Continues(r, old(host.Now().overall), old(host.horizon), DueLines([], []))
    {
      hide Live, Look, Host.Valid, Over;
      HostIsValid(NoDemand);
      assert lines[0..] == lines;
      for i := 0 to |lines|
        invariant host.Valid() && Live() && host.Now().overall == old(host.Now().overall)
        invariant host.horizon <= old(host.horizon) && host.Now().due == DueLines(lines[i..], [])
      {
        assert lines[i..][0] == lines[i] && lines[i..][1..] == lines[i + 1..];
        var outcome :- HandleOutputLine(lines[i], lines[i + 1..]);
        if outcome.Some? {
          return Success(outcome);
        }
      }
      assert lines[|lines|..] == [];
      return Success(None);
    }

    method HandleOutputLine(line: Filters.Line, ghost rest: seq<Filters.Line>) returns (r: Step)
      requires Live() && host.Now().due == DueLines([line] + rest, [])
      modifies this, host
      ensures Continues(r, old(host.Now().overall), old(host.horizon), DueLines(rest, []))
    {
      hide Live, Look, Host.Valid, Over;
      HostIsValid(NoDemand);
      var matches :- RecordOutput(line);
      NoteRead(line, rest, ActionsOf(matches));
      r := ApplyFilterMatches(matches, rest);
    }

    ghost method NoteRead(line: Filters.Line, rest: seq<Filters.Line>, actions: seq<Filters.FilterAction>)
      requires Live() && host.Now().due == DueLines([line] + rest, []) && IsTriggered(settings.filters, line, actions)
      modifies host`journal
      ensures Live() && host.Now().overall == old(host.Now().overall) && host.Now().due == DueLines(rest, actions)
      ensures host.journal == After(old(host.journal), Read(line, actions))
    {
      hide IsTriggered;
      assert ([line] + rest)[1..] == rest;
      host.Note(Read(line, actions));
    }

    method ApplyFilterMatches(matches: seq<Filters.FilterMatch>, ghost rest: seq<Filters.Line>) returns (r: Step)
      requires Live() && host.Now().due == DueLines(rest, ActionsOf(matches))
      modifies this, host
      ensures Continues(r, old(host.Now().overall), old(host.horizon), DueLines(rest, []))
    {
      hide Live, Look, Host.Valid, Over;
      HostIsValid(NoDemand);
      assert matches[0..] == matches;
      for i := 0 to |matches|
        invariant host.Valid() && Live() && host.Now().overall == old(host.Now().overall)
        invariant host.horizon <= old(host.horizon) && host.Now().due == DueLines(rest, ActionsOf(matches[i..]))
      {
        assert matches[i..][0] == matches[i] && matches[i..][1..] == matches[i + 1..];
        var outcome :- ApplyActions(matches[i].actions, rest, ActionsOf(matches[i + 1..]));
        if outcome.Some? {
          return Success(outcome);
        }
      }
      return Success(None);
    }

    method ApplyActions(actions: seq<Filters.FilterAction>, ghost rest: seq<Filters.Line>,
                        ghost later: seq<Filters.FilterAction>) returns (r: Step)
      requires Live() && host.Now().due == DueLines(rest, actions + later)
      modifies this, host
      ensures Continues(r, old(host.Now().overall), old(host.horizon), DueLines(rest, later))
    {
      hide Live, Look, Host.Valid, Over;
      HostIsValid(NoDemand);
      assert actions[0..] == actions;
      for k := 0 to |actions|
        invariant host.Valid() && Live() && host.Now().overall == old(host.Now().overall)
        invariant host.horizon <= old(host.horizon) && host.Now().due == DueLines(rest, actions[k..] + later)
      {
        assert actions[k..] + later == [actions[k]] + (actions[k + 1..] + later);
        var outcome :- ApplyFilterAction(actions[k], rest, actions[k + 1..] + later);
        if outcome.Some? {
          return Success(outcome);
        }
      }
      assert actions[|actions|..] + later == later;
      return Success(None);
    }

    /** Notes that an action is carried out; three of them call for the end of the run. */
    ghost method NoteActed(action: Filters.FilterAction, rest: seq<Filters.Line>, later: seq<Filters.FilterAction>)
      requires Live() && host.Now().due == DueLines(rest, [action] + later)
      modifies host`journal
      ensures host.Now().overall == old(host.Now().overall) && host.Now().due == DueLines(rest, later)
      ensures host.journal == After(old(host.journal), Acted(action))
      ensures var demand := Demanded(settings, pausedInPlace, Acted(action));
              if demand.NoDemand? then Live() else Called(demand)
    {
      assert ([action] + later)[1..] == later;
      host.Note(Acted(action));
    }

    /** Carries out one action; the three that end a run do so, and the others leave the rest to be done. */
    method ApplyFilterAction(action: Filters.FilterAction, ghost rest: seq<Filters.Line>,
                             ghost later: seq<Filters.FilterAction>) returns (r: Step)
      requires Live() && host.Now().due == DueLines(rest, [action] + later)
      modifies this, host
      ensures Continues(r, old(host.Now().overall), old(host.horizon), DueLines(rest, later))
      ensures r.Success? && action.Shutdown? ==> r.value == Some(StopRun(0))
      ensures r.Success? && action.Restart? ==> r.value == Some(RestartRun(host.now - launchedAt, false, 0))
      ensures r.Success? && r.value.Some? ==> action in {Filters.Shutdown, Filters.Restart, Filters.Pause}
      ensures r.Success? && (action.NoAction? || action.Debug?
                             || (action.Pause? && !MayPause(old(pausedInPlace)))
                             || (action.Resume? && !old(pausedInPlace))) ==>
                host.journal == After(old(host.journal), Acted(action))
      ensures r.Success? && action.Dump? ==>
                host.journal == After(After(old(host.journal), Acted(action)), ThreadDumpTried)
      ensures action.Pause? && MayPause(old(pausedInPlace)) ==>
                PauseApplied(r, After(old(host.journal), Acted(action)), old(connected))
      ensures action.Resume? && old(pausedInPlace) && r.Success? ==>
                ResumeApplied(After(old(host.journal), Acted(action)), old(connected))
      ensures r.Success? && action.Gc? && connected ==>
                host.journal == After(After(old(host.journal), Acted(action)), Sent(GC, host.now))
      ensures r.Success? && action.Gc? && host.reliable ==> connected == old(connected)
    {
      hide Look, Valid, Host.Valid;
      NoteActed(action, rest, later);
      r := CarryOut(action);
    }

    /** What is done about an action that has been noted. */
    method CarryOut(action: Filters.FilterAction) returns (r: Step)
      requires host.Now().due.DueLines?
      requires var demand := Demanded(settings, pausedInPlace, Acted(action));
               if demand.NoDemand? then Live() else Called(demand)
      modifies this, host
      ensures Continues(r, old(host.Now().overall), old(host.horizon), old(host.Now().due))
      ensures r.Success? && action.Shutdown? ==> r.value == Some(StopRun(0))
      ensures r.Success? && action.Restart? ==> r.value == Some(RestartRun(host.now - launchedAt, false, 0))
      ensures r.Success? && r.value.Some? ==> action in {Filters.Shutdown, Filters.Restart, Filters.Pause}
      ensures r.Success? && (action.NoAction? || action.Debug?
                             || (action.Pause? && !MayPause(old(pausedInPlace)))
                             || (action.Resume? && !old(pausedInPlace))) ==>
                host.journal == old(host.journal)
      ensures r.Success? && action.Dump? ==> host.journal == After(old(host.journal), ThreadDumpTried)
      ensures action.Pause? && MayPause(old(pausedInPlace)) ==> PauseApplied(r, old(host.journal), old(connected))
      ensures action.Resume? && old(pausedInPlace) && r.Success? ==> ResumeApplied(old(host.journal), old(connected))
      ensures r.Success? && action.Gc? && connected ==> host.journal == After(old(host.journal), Sent(GC, host.now))
      ensures r.Success? && action.Gc? && host.reliable ==> connected == old(connected)
    {
      hide Look, Valid, ValidWhen, Host.Valid, Unasked, Called, Over, PauseApplied, ResumeApplied, Demanded;
      WhatActionsCallFor(action);
      HostIsValid(Demanded(settings, pausedInPlace, Acted(action)));
      match action {
        case NoAction => r := Success(None);
        case Debug => r := LogAction();
        case Dump => r := DumpThreads();
        case Gc => r := RequestCollection();
        case Restart => r := LogAndRestart();
        case Shutdown => r := LogAndStop();
        case Pause => r := PauseIfPossible(true);
        case Resume => r := ResumeIfPaused(true);
      }
    }

    lemma WhatActionsCallFor(action: Filters.FilterAction)
      ensures var demand := Demanded(settings, pausedInPlace, Acted(action));
              if action.Shutdown? then demand == ToStop
              else if action.Restart? then demand == ToRestart
              else if action.Pause? && MayPause(pausedInPlace) && settings.pausableStopsJvm then demand == ToPause
              else demand == NoDemand
    {
    }

    method LogAction() returns (r: Step)
      requires Live()
      ensures Continues(r, host.Now().overall, host.horizon, host.Now().due) && (r.Success? ==> r.value.None?)
    {
      var _ :- host.Log();
      return Success(None);
    }

    method DumpThreads() returns (r: Step)
      requires Live()
      modifies this, host
      ensures Continues(r, old(host.Now().overall), old(host.horizon), old(host.Now().due))
      ensures r.Success? ==> r.value.None? && host.journal == After(old(host.journal), ThreadDumpTried)
    {
      hide Look, Valid, ValidWhen, Host.Valid, Unasked, Over;
      HostIsValid(NoDemand);
      var _ :- host.Log();
      var _ :- RequestThreadDump();
      return Success(None);
    }

    method RequestCollection() returns (r: Step)
      requires Live() && (host.Now().due.NothingDue? || host.Now().due.DueLines?)
      modifies this, host
      ensures Continues(r, old(host.Now().overall), old(host.horizon), old(host.Now().due))
      ensures r.Success? ==> r.value.None? && (host.reliable ==> connected == old(connected))
      ensures r.Success? && connected ==> host.journal == After(old(host.journal), Sent(GC, host.now))
    {
      hide Look, Valid, ValidWhen, Host.Valid, Unasked, Over;
      HostIsValid(NoDemand);
      var _ :- host.Log();
      r := SendOrLose(GC);
    }

    method LogAndRestart() returns (r: Step)
      requires Called(ToRestart)
      modifies this, host
      ensures Ends(r, old(host.Now().overall), old(host.horizon))
      ensures r.Success? ==> r.value == Some(RestartRun(host.now - launchedAt, false, 0))
    {
      var _ :- host.Log();
      r := RestartOnRequest();
    }

    method LogAndStop() returns (r: Step)
      requires Called(ToStop)
      modifies this, host
      ensures Ends(r, old(host.Now().overall), old(host.horizon))
      ensures r.Success? ==> r.value == Some(StopRun(0))
    {
      var _ :- host.Log();
      r := StopOnRequest();
    }

    /** A packet that the JVM need not get: the run goes on either way. */
    method SendOrLose(code: nat) returns (r: Step)
      requires Live() && code in {GC, SERVICE_CONTROL}
      requires host.Now().due.NothingDue? || host.Now().due.DueLines?
      modifies this, host
      ensures Continues(r, old(host.Now().overall), old(host.horizon), old(host.Now().due))
      ensures r.Success? ==> r.value.None? && (host.reliable ==> connected == old(connected))
      ensures r.Success? && connected ==> host.journal == After(old(host.journal), Sent(code, host.now))
    {
      var _ :- SendIfConnected(code);
      return Success(None);
    }

    // ----- controls

    method TakeControl() returns (control: Control)
      requires Live() && host.controls != [] && host.Now().due == DueControl
      modifies host`journal, host`controls
      ensures control == old(host.controls)[0] && host.journal == After(old(host.journal), Took(control))
      ensures host.Now().overall == old(host.Now().overall) && host.Now().due == NothingDue
      ensures var demand := Demanded(settings, pausedInPlace, Took(control));
              if demand.NoDemand? then Live() else Called(demand)
    {
      control := host.TakeControl();
    }

    /** A control that has nothing to do is taken all the same. */
    method HandleControl() returns (r: Step, control: Control)
      requires Live() && host.controls != [] && host.Now().due == DueControl
      modifies this, host
      ensures Continues(r, old(host.Now().overall), old(host.horizon), NothingDue) && control == old(host.controls)[0]
      ensures r.Success? && IsStop(control) ==> r.value == Some(StopRun(0))
      ensures r.Success? && r.value.Some? ==> IsStop(control) || (control.Pause? && r.value == Some(PauseRun))
      ensures r.Success? && HasNothingToDo(control, old(pausedInPlace)) ==>
                host.journal == After(old(host.journal), Took(control))
      ensures r.Success? && (control.ThreadDump? || control.ConsoleBreak?) ==>
                host.journal == After(After(old(host.journal), Took(control)), ThreadDumpTried)
      ensures control.Pause? && MayPause(old(pausedInPlace)) ==>
                PauseApplied(r, After(old(host.journal), Took(control)), old(connected))
      ensures control.Resume? && old(pausedInPlace) && r.Success? ==>
                ResumeApplied(After(old(host.journal), Took(control)), old(connected))
      ensures r.Success? && control.User? && connected ==>
                host.journal == After(After(old(host.journal), Took(control)), Sent(SERVICE_CONTROL, host.now))
      ensures r.Success? && control.User? && host.reliable ==> connected == old(connected)
      ensures r.Success? && control.HeapDump? && host.reliable && old(started) && old(heapDumpTask).None? ==>
                host.journal == After(After(old(host.journal), Took(control)), DumpStarted)
    {
      hide Look, Valid, ValidWhen, Host.Valid, Unasked, Called, Over, PauseApplied, ResumeApplied, Demanded;
      control := TakeControl();
      WhatControlsCallFor(control);
      if IsStop(control) {
        HostIsValid(ToStop);
        if control.ConsoleInterrupt? {
          var _ :- host.Log();
        }
        r := StopOnRequest();
        return r, control;
      }
      r := Serve(control);
    }

    lemma WhatControlsCallFor(control: Control)
      ensures var demand := Demanded(settings, pausedInPlace, Took(control));
              if IsStop(control) then demand == ToStop
              else if control.Pause? && MayPause(pausedInPlace) && settings.pausableStopsJvm then demand == ToPause
              else demand == NoDemand
    {
    }

    /** A pause or resume leaves no trace where it does not apply. */
    predicate HasNothingToDo(control: Control, paused: bool) {
      (control.Pause? && !MayPause(paused)) || (control.Resume? && !paused)
    }

    /** All controls but the two that stop. */
    method Serve(control: Control) returns (r: Step)
      requires !IsStop(control) && host.Now().due == NothingDue
      requires var demand := Demanded(settings, pausedInPlace, Took(control));
               if demand.NoDemand? then Live() else Called(demand)
      modifies this, host
      ensures Continues(r, old(host.Now().overall), old(host.horizon), NothingDue)
      ensures r.Success? && r.value.Some? ==> control.Pause? && r.value == Some(PauseRun)
      ensures r.Success? && HasNothingToDo(control, old(pausedInPlace)) ==> host.journal == old(host.journal)
      ensures r.Success? && (control.ThreadDump? || control.ConsoleBreak?) ==>
                host.journal == After(old(host.journal), ThreadDumpTried)
      ensures control.Pause? && MayPause(old(pausedInPlace)) ==> PauseApplied(r, old(host.journal), old(connected))
      ensures control.Resume? && old(pausedInPlace) && r.Success? ==> ResumeApplied(old(host.journal), old(connected))
      ensures r.Success? && control.User? && connected ==>
                host.journal == After(old(host.journal), Sent(SERVICE_CONTROL, host.now))
      ensures r.Success? && control.User? && host.reliable ==> connected == old(connected)
      ensures r.Success? && control.HeapDump? && host.reliable && old(started) && old(heapDumpTask).None? ==>
                host.journal == After(old(host.journal), DumpStarted)
    {
      hide Look, Valid, ValidWhen, Host.Valid, Unasked, Called, Over, PauseApplied, ResumeApplied, Demanded;
      WhatControlsCallFor(control);
      HostIsValid(Demanded(settings, pausedInPlace, Took(control)));
      match control {
        case Pause => r := PauseIfPossible(false);
        case Resume => r := ResumeIfPaused(false);
        case HeapDump =>
          var _ :- StartHeapDump();
          r := Success(None);
        case User(_) => r := SendOrLose(SERVICE_CONTROL);
        case ConsoleBreak => r := DumpThreads();
        case ThreadDump => r := DumpThreads();
        case _ => r := Success(None);
      }
    }

    /** Nobody can send a control any more: that counts as a stop. */
    method HandleControlsClosed() returns (r: Step)
      requires Live() && host.controls == [] && host.closed && host.Now().due == DueHangup
      modifies this, host
      ensures Continues(r, old(host.Now().overall), old(host.horizon), NothingDue)
      ensures r.Success? ==> r.value == Some(StopRun(0))
    {
      NoteControlsClosed();
      r := StopOnRequest();
    }

    ghost method NoteControlsClosed()
      requires Live() && host.controls == [] && host.closed && host.Now().due == DueHangup
      modifies host`journal
      ensures Called(ToStop) && host.Now().overall == old(host.Now().overall)
    {
      host.Note(ControlsClosed);
    }

    /** `stop_with(0)`. */
    method StopOnRequest() returns (r: Step)
      requires Called(ToStop)
      modifies this, host
      ensures Ends(r, old(host.Now().overall), old(host.horizon))
      ensures r.Success? ==> r.value == Some(StopRun(0))
    {
      hide Look, Host.Valid;
      var _ :- ShutdownAndDrain();
      return Success(Some(StopRun(0)));
    }

    // ----- packets from the JVM

    /** Every packet counts as a sign of life; a restart or a stop ends the run, the stop with the code it carries. */
    method HandleProtocol(event: ProtocolEvent) returns (r: Step)
      requires Live() && connected && host.Now().due == DueFor(host.Now().current, Protocol(event))
      modifies this, host
      ensures Continues(r, old(host.Now().overall), old(host.horizon), NothingDue)
      ensures r.Success? && event.Packet? && event.code == 102 ==>
                r.value == Some(RestartRun(host.now - launchedAt, false, 0))
      ensures r.Success? && event.Packet? && event.code == 101 ==>
                match event.number
                case Some(n) =>
                  r.value == Some(ExitedRun(host.now - launchedAt, if -0x8000_0000 <= n < 0x8000_0000 then n else 0))
                case None => r.value == Some(ExitedRun(host.now - launchedAt, 0))
      ensures r.Success? && event.Packet? && event.code != 101 && event.code != 102 ==>
                r.value.None? && host.journal == After(old(host.journal), Heard(lastPingResponse, event.code, event.number))
      ensures r.Success? && !event.Packet? ==>
                r.value.None? && !connected && host.journal == After(old(host.journal), Lost)
    {
      hide Look, Host.Valid, Valid, Unasked, Called, Announced, Over, Earned;
      if !event.Packet? {
        r := HandleLoss();
        return r;
      }
      var now := Now();
      Hear(now, event.code, event.number);
      if event.code == RESTART {
        r := RestartOnRequest();
        return r;
      }
      if event.code == STOP {
        r := StopAnnounced(ExitCode(event.number));
        return r;
      }
      var _ :- host.Log();
      return Success(None);
    }

    /** The channel is gone, and the JVM goes on without it. */
    method HandleLoss() returns (r: Step)
      requires Live() && connected && host.Now().due == DueLoss
      modifies this, host
      ensures Continues(r, old(host.Now().overall), old(host.horizon), NothingDue)
      ensures r.Success? ==> r.value.None? && !connected && host.journal == After(old(host.journal), Lost)
    {
      var _ :- MarkDisconnected();
      return Success(None);
    }

    method Now() returns (now: int)
      requires Live()
      modifies host`now
      ensures Live() && host.Now() == old(host.Now()) && now == host.now
    {
      now := host.Time();
    }

    /** What a packet says about the JVM: every one is a sign of life, and some move the start-up deadline. */
    method Hear(now: int, code: nat, number: Option<int>)
      requires Live() && connected && host.Now().due == DuePacket(code, number)
      modifies this`lastPingResponse, this`started, this`startupDeadline, host`journal
      ensures host.Valid() && host.Now().overall == old(host.Now().overall) && host.Now().due == NothingDue
      ensures lastPingResponse == now
      ensures host.journal == After(old(host.journal), Heard(now, code, number))
      ensures if code == STOP then Announced(ExitCode(number)) else if code == RESTART then Called(ToRestart) else Live()
    {
      hide Look, Valid, Host.Valid, WaitHint;
      Record(now, code, number);
    }

    method Record(now: int, code: nat, number: Option<int>)
      requires Live() && connected && host.Now().due == DuePacket(code, number)
      modifies this`lastPingResponse, this`started, this`startupDeadline, host`journal
      ensures Valid() && host.Valid() && lastPingResponse == now
      ensures host.journal == After(old(host.journal), Heard(now, code, number))
      ensures host.Now().overall == old(host.Now().overall) && host.Now().due == NothingDue && !host.Now().stopTaken
      ensures host.Now().current.demand == (if code == RESTART then ToRestart else NoDemand)
      ensures host.Now().current.jvmStop == (if code == STOP then Some(ExitCode(number)) else None)
      ensures host.Now().current.asked.None? && host.Now().current.status.None?
    {
      hide Look, Host.Valid, Permitted, Next, NextCurrent, NextDeadline;
      NoteHeard(now, code, number);
      Remember(now, code, number);
    }

    method Remember(now: int, code: nat, number: Option<int>)
      modifies this`lastPingResponse, this`started, this`startupDeadline
      ensures lastPingResponse == now && started == (old(started) || code == STARTED)
      ensures startupDeadline == NextDeadline(settings, old(startupDeadline), Heard(now, code, number))
    {
      lastPingResponse := now;
      if code == STARTED {
        started := true;
        startupDeadline := None;
      } else if code == START_PENDING {
        if settings.startupTimeout > 0 {
          var waitHint := WaitHint(settings, number);
          startupDeadline := Some(now + Max(waitHint, 1));
        }
      }
    }

    ghost method NoteHeard(now: int, code: nat, number: Option<int>)
      requires Live() && connected && host.Now().due == DuePacket(code, number)
      modifies host`journal
      ensures host.Valid() && host.journal == After(old(host.journal), Heard(now, code, number))
      ensures var (was, v) := (old(host.Now()), host.Now());
              && v.overall == was.overall && v.alive == was.alive && v.stopTaken == was.stopTaken
              && v.inbox == was.inbox && v.due == NothingDue
              && var (c, d) := (was.current, v.current);
                 && d.launched && d.outputOpen == c.outputOpen && d.everConnected == c.everConnected
                 && d.connected == c.connected && d.nextPing == c.nextPing && d.paused == c.paused
                 && d.dumping == c.dumping && d.asked.None? && d.status.None?
                 && d.started == (started || code == STARTED) && d.lastSign == now
                 && d.deadline == NextDeadline(settings, startupDeadline, Heard(now, code, number))
                 && d.demand == (if code == RESTART then ToRestart else NoDemand)
                 && d.jvmStop == (if code == STOP then Some(ExitCode(number)) else None)
    {
      hide Look;
      host.Note(Heard(now, code, number));
    }

    /** The application has announced its end, and nothing has been done about it yet. */
    ghost predicate Announced(code: int)
      reads this, host`journal, host`running, host`controls, host`closed
    {
      Called(NoDemand) && host.Now().current.jvmStop == Some(code)
    }

    /** The application announced its end: the announced code is the run's exit code. */
    method StopAnnounced(code: int) returns (r: Step)
      requires Announced(code)
      modifies this, host
      ensures Ends(r, old(host.Now().overall), old(host.horizon))
      ensures r.Success? ==> r.value == Some(ExitedRun(host.now - launchedAt, code))
    {
      hide Look, Host.Valid;
      var _ :- ShutdownAndDrain();
      var _ :- TryWaitChild();
      var _ :- host.Log();
      var elapsed := Elapsed();
      return Success(Some(ExitedRun(elapsed, code)));
    }

    /** The application or a filter asked for a restart. */
    method RestartOnRequest() returns (r: Step)
      requires Called(ToRestart)
      modifies this, host
      ensures Ends(r, old(host.Now().overall), old(host.horizon))
      ensures r.Success? ==> r.value == Some(RestartRun(host.now - launchedAt, false, 0))
    {
      hide Look, Host.Valid;
      var _ :- ShutdownAndDrain();
      var elapsed := Elapsed();
      return Success(Some(RestartRun(elapsed, false, 0)));
    }

    /** The JVM missed a deadline at `now`. */
    method RestartTheLate(ghost now: int) returns (r: Step)
      requires Live() && !OnTime(now) && host.Now().due == DueTick({})
      modifies this, host
      ensures Ends(r, old(host.Now().overall), old(host.horizon))
      ensures r.Success? ==> r.value == Some(RestartRun(host.now - launchedAt, true, 1))
    {
      hide Look, Host.Valid, WithinWindow;
      var _ :- host.Log();
      NoteExpired(now);
      var _ :- ShutdownAndDrain();
      var elapsed := Elapsed();
      return Success(Some(RestartRun(elapsed, true, 1)));
    }

    ghost method NoteExpired(now: int)
      requires Live() && !OnTime(now) && host.Now().due == DueTick({})
      modifies host`journal
      ensures Called(ToReplace) && host.Now().overall == old(host.Now().overall)
    {
      OnTimeMeansWithinWindow(now);
      host.Note(Expired(now));
    }

    // ----- the watchdog

    /** A tick sees to all there is to see to; one that does not end the run leaves a JVM that is within every deadline. */
    method HandleTick() returns (r: Step)
      requires Live() && host.Now().due == DueFor(host.Now().current, Tick)
      modifies this, host
      ensures Continues(r, old(host.Now().overall), old(host.horizon), NothingDue)
      ensures r == Success(None) ==> host.journal.After? && host.journal.entry == Ticked(host.now)
    {
      hide Look, Host.Valid;
      var _ :- PollHeapDump();
      var exited :- LookForExit();
      if exited.Some? {
        r := ExitSeen(exited.value);
        return r;
      }
      if !connected {
        var _ :- PollAuthentication();
      }
      r := CheckDeadlines();
    }

    /** The process has been found still running, or its status is known and the run is over but for the verdict. */
    method LookForExit() returns (r: Result<Option<Option<int>>, Cause>)
      requires Live() && host.Now().due == DueTick({ExitChore} + if connected then {} else {ListenerChore})
      modifies host
      ensures Valid() && host.Now().overall == old(host.Now().overall) && host.horizon == old(host.horizon)
      ensures r.Success? && r.value.None? ==> Live() && host.Now().due == DueTick(if connected then {} else {ListenerChore})
      ensures r.Success? && r.value.Some? ==>
                Called(NoDemand) && host.Now().current.jvmStop.None? && host.Now().alive == {}
                && host.Now().current.status == Some(r.value.value)
      ensures r.Failure? ==> host.Excuses(r.error)
    {
      r := host.TryWait(pid);
      if r.Success? && r.value.None? {
        assert {ExitChore} + {ListenerChore} - {ExitChore} == {ListenerChore} && {ExitChore} + {} - {ExitChore} == {};
      }
    }

    method CheckDeadlines() returns (r: Step)
      requires Live() && host.Now().due == DueTick({})
      modifies this, host
      ensures Continues(r, old(host.Now().overall), old(host.horizon), NothingDue)
      ensures r == Success(None) ==> host.journal.After? && host.journal.entry == Ticked(host.now)
      ensures r.Success? && r.value.Some? ==> r.value == Some(RestartRun(host.now - launchedAt, true, 1))
    {
      hide Look, Host.Valid;
      var now := host.Time();
      if !started && startupDeadline.Some? && now >= startupDeadline.value {
        r := RestartTheLate(now);
        return r;
      }
      var _ :- PingIfDue(now);
      if settings.pingTimeout > 0 && everConnected {
        var extra := match heapDumpTask { case Some(timeout) => timeout case None => 0 };
        var allowed := settings.pingTimeout * 1000 + settings.PingIntervalMillis() + extra;
        if now - lastPingResponse > allowed {
          r := RestartTheLate(now);
          return r;
        }
      }
      NoteTick(now);
      return Success(None);
    }

    /** No deadline has been missed at `now`. */
    predicate OnTime(now: int)
      reads this
    {
      && (!started && startupDeadline.Some? ==> now < startupDeadline.value)
      && (settings.pingTimeout > 0 && everConnected ==>
            now - lastPingResponse <= Patience(settings, heapDumpTask.Some?))
    }

    lemma OnTimeMeansWithinWindow(now: int)
      requires Valid()
      ensures OnTime(now) <==> WithinWindow(settings, host.Now().current, now)
    {
    }

    ghost method NoteTick(now: int)
      requires Live() && OnTime(now) && host.Now().due == DueTick({}) && (connected ==> now < nextPing)
      modifies host`journal
      ensures Live() && host.Now().overall == old(host.Now().overall) && host.Now().due == NothingDue
      ensures host.journal == After(old(host.journal), Ticked(now))
    {
      OnTimeMeansWithinWindow(now);
      host.Note(Ticked(now));
    }

    method ExitSeen(status: Option<int>) returns (r: Step)
      requires Called(NoDemand) && host.Now().current.jvmStop.None?
      requires host.Now().alive == {} && host.Now().current.status == Some(status)
      modifies this, host
      ensures Ends(r, old(host.Now().overall), old(host.horizon))
      ensures r.Success? ==> r.value.Some?
      ensures r.Success? ==>
                r.value == Some(ExitedRun(host.now - launchedAt, match status { case Some(code) => code case None => 1 }))
    {
      hide Look, Host.Valid;
      var _ :- DrainRemainingOutput();
      var _ :- host.Log();
      var elapsed := Elapsed();
      return Success(Some(ExitedRun(elapsed, match status { case Some(code) => code case None => 1 })));
    }

    /** Pings a connected JVM once every interval; a failed write loses the connection. */
    method PingIfDue(now: int) returns (r: Result<(), Cause>)
      requires Live() && now == host.now && host.Now().due == DueTick({})
      modifies this`connected, this`nextPing, host`journal
      ensures host.Valid() && host.Now().overall == old(host.Now().overall)
      ensures r.Success? ==> Live() && (connected ==> now < nextPing) && host.Now().due == DueTick({})
      ensures r.Success? && old(connected) && now >= old(nextPing) ==>
                && nextPing == now + Max(settings.pingInterval, 1) * 1000
                && host.journal ==
                   After(After(old(host.journal), PingDue(now)), if connected then Sent(PING, now) else Lost)
      ensures r.Success? && !(old(connected) && now >= old(nextPing)) ==>
                nextPing == old(nextPing) && host.journal == old(host.journal)
      ensures r.Failure? ==> host.Excuses(r.error)
    {
      hide Look, Valid, ValidWhen, Host.Valid, Unasked;
      HostIsValid(NoDemand);
      if connected && now >= nextPing {
        NotePingDue(now);
        r := SendPing();
        return r;
      }
      return Success(());
    }

    method SendPing() returns (r: Result<(), Cause>)
      requires Live() && connected && host.Now().due == DueTick({PingChore})
      modifies this`connected, host`journal
      ensures host.Valid() && host.Now().overall == old(host.Now().overall)
      ensures r.Success? ==> Live() && host.Now().due == DueTick({})
      ensures r.Success? ==>
                host.journal == After(old(host.journal), if connected then Sent(PING, host.now) else Lost)
      ensures r.Failure? ==> host.Excuses(r.error)
    {
      hide Host.Valid, Permitted;
      assert {PingChore} - {PingChore} == {};
      var _ :- SendIfConnected(PING);
      return Success(());
    }

    method NotePingDue(now: int)
      requires Live() && connected && now >= nextPing && host.Now().due == DueTick({})
      modifies this`nextPing, host`journal
      ensures Live() && host.Now().overall == old(host.Now().overall) && host.Now().due == DueTick({PingChore})
      ensures host.journal == After(old(host.journal), PingDue(now)) && nextPing == now + settings.PingIntervalMillis()
    {
      hide Look, Permitted, Next, Host.Valid;
      assert {} + {PingChore} == {PingChore};
      PingDueStep(settings, host.Now(), now);
      host.Note(PingDue(now));
      nextPing := now + settings.PingIntervalMillis();
    }

    /** Greets a JVM that has presented the key; a failed greeting ends the supervisor's run. */
    method PollAuthentication() returns (r: Result<(), Cause>)
      requires Live() && !connected && host.Now().due == DueTick({ListenerChore})
      modifies this, host
      ensures host.Valid() && host.Now().overall == old(host.Now().overall) && host.horizon <= old(host.horizon)
      ensures r.Success? ==> Live() && host.Now().due == DueTick({})
      ensures r.Success? ==>
                host.journal ==
                if connected then
                  After(Greeted(After(old(host.journal), ListenerPolled(true)), old(host.now)), Admitted(host.now))
                else After(old(host.journal), ListenerPolled(false))
      ensures r.Failure? ==> host.Excuses(r.error)
    {
      hide Look, Host.Valid;
      var somebody :- PollForSomebody();
      if !somebody {
        return Success(());
      }
      var _ :- Greet(LOW_LOG_LEVEL);
      var _ :- Greet(LOGFILE);
      var _ :- Greet(PROPERTIES);
      var _ :- Greet(START);
      if everConnected {
        var _ :- host.Log();
      }
      Admit();
      return Success(());
    }

    method PollForSomebody() returns (r: Result<bool, Cause>)
      requires Live() && !connected && host.Now().due == DueTick({ListenerChore})
      modifies host`journal
      ensures Live() && host.Now().overall == old(host.Now().overall)
      ensures r.Success? ==> host.journal == After(old(host.journal), ListenerPolled(r.value))
      ensures r.Success? ==> host.Now().due == DueTick(if r.value then {GreetingChore} else {})
      ensures r.Failure? ==> host.Excuses(r.error)
    {
      hide Look, Host.Valid;
      assert {ListenerChore} - {ListenerChore} == {} && {} + {GreetingChore} == {GreetingChore};
      r := host.PollListener();
    }

    /** The four packets every new connection begins with. */
    ghost function Greeted(j: Journal, now: int): Journal {
      After(After(After(After(j, Sent(112, now)), Sent(134, now)), Sent(115, now)), Sent(100, now))
    }

    method Greet(code: nat) returns (r: Result<(), Cause>)
      requires Live() && !connected && code in {LOW_LOG_LEVEL, LOGFILE, PROPERTIES, START}
      modifies host`journal
      ensures Live() && host.Now().overall == old(host.Now().overall) && host.Now().due == old(host.Now().due)
      ensures r.Success? ==> host.journal == After(old(host.journal), Sent(code, host.now))
      ensures r.Failure? ==> host.Excuses(r.error)
    {
      var refused := host.Refuses();
      if refused {
        return Failure(Io);
      }
      host.Note(Sent(code, host.now));
      return Success(());
    }

    method Admit()
      requires Live() && !connected && host.Now().due == DueTick({GreetingChore})
      modifies this`everConnected, this`lastPingResponse, this`connected, host`journal, host`now
      ensures Live() && connected && host.Now().overall == old(host.Now().overall) && host.Now().due == DueTick({})
      ensures host.journal == After(old(host.journal), Admitted(host.now))
    {
      hide Look, Permitted, Next, Host.Valid;
      assert {GreetingChore} - {GreetingChore} == {};
      var now := Now();
      AdmittedStep(settings, host.Now(), now);
      host.Note(Admitted(now));
      everConnected := true;
      lastPingResponse := now;
      connected := true;
    }

    method Elapsed() returns (elapsed: int)
      requires Valid()
      modifies host`now
      ensures Valid() && host.Now() == old(host.Now()) && host.Standing() == old(host.Standing())
      ensures elapsed == host.now - launchedAt
    {
      var now := host.Time();
      elapsed := now - launchedAt;
    }

    // ----- diagnostics

    /** Console break or `jcmd`: it takes time, may fail, and has no effect on the lifecycle. */
    method RequestThreadDump() returns (r: Result<bool, Cause>)
      requires Valid()
      modifies host`now, host`journal
      ensures Valid() && host.Valid() && host.Now() == old(host.Now()) && host.Standing() == old(host.Standing())
      ensures host.journal == After(old(host.journal), ThreadDumpTried) && host.now >= old(host.now)
      ensures host.reliable ==> r == Success(true)
      ensures old(Unasked()) ==> Unasked()
      ensures r.Failure? ==> host.Excuses(r.error)
    {
      hide Look, Host.Valid, Valid;
      NoteThreadDump();
      var _ := host.Time();
      var _ :- host.Log();
      var refused := host.Refuses();
      return Success(!refused);
    }

    ghost method NoteThreadDump()
      requires Valid()
      modifies host`journal
      ensures Valid() && host.Valid() && host.Now() == old(host.Now())
      ensures host.journal == After(old(host.journal), ThreadDumpTried)
    {
      hide Look;
      assert Permitted(settings, host.Now(), ThreadDumpTried);
      host.Note(ThreadDumpTried);
    }

    /** A heap dump begins once the application has reported that it started, unless one is under way. */
    method StartHeapDump() returns (r: Result<(), Cause>)
      requires Live()
      modifies this, host
      ensures host.journal == old(host.journal)
              || (old(started) && old(heapDumpTask).None? && host.journal == After(old(host.journal), DumpStarted))
      ensures r.Success? && host.reliable && old(started) && old(heapDumpTask).None? ==>
                host.journal == After(old(host.journal), DumpStarted)
      ensures host.Valid() && host.Now().overall == old(host.Now().overall) && host.horizon <= old(host.horizon)
      ensures r.Success? ==> Live() && host.Now().due == old(host.Now().due)
      ensures r.Failure? ==> host.Excuses(r.error)
    {
      hide Look, Permitted, Next, Host.Valid;
      HostIsValid(NoDemand);
      if !started {
        r := host.Log();
        return r;
      }
      if heapDumpTask.Some? {
        r := host.Log();
        return r;
      }
      var refused := host.Refuses();
      var _ :- host.Log();
      if !refused {
        DumpStartedStep(settings, host.Now());
        host.Note(DumpStarted);
        heapDumpTask := Some(settings.HeapDumpMillis());
      }
      return Success(());
    }

    method PollHeapDump() returns (r: Result<(), Cause>)
      requires Live() && host.Now().due == DueFor(host.Now().current, Tick)
      modifies this, host
      ensures host.Valid() && host.Now().overall == old(host.Now().overall) && host.horizon <= old(host.horizon)
      ensures r.Success? ==> Live() && connected == old(connected)
      ensures r.Success? ==> host.Now().due == DueTick({ExitChore} + if connected then {} else {ListenerChore})
      ensures r.Failure? ==> host.Excuses(r.error)
    {
      hide Look, DueFor, Permitted, Next, Host.Valid;
      HostIsValid(NoDemand);
      TheDumpIsOneChore(host.Now().current);
      if heapDumpTask.None? {
        return Success(());
      }
      DumpPolledStep(settings, host.Now(), true);
      DumpPolledStep(settings, host.Now(), false);
      var complete := host.PollDump();
      if !complete {
        return Success(());
      }
      heapDumpTask := None;
      r := host.Log();
    }

    lemma TheDumpIsOneChore(c: Current)
      ensures var rest := DueTick({ExitChore} + if c.connected then {} else {ListenerChore});
              && DueFor(c, Tick).DueTick? && Without(DueFor(c, Tick), DumpChore) == rest
              && (!c.dumping ==> DueFor(c, Tick) == rest)
    {
      var rest := {ExitChore} + if c.connected then {} else {ListenerChore};
      assert DueFor(c, Tick).chores == if c.dumping then rest + {DumpChore} else rest;
      assert rest + {DumpChore} - {DumpChore} == rest && rest - {DumpChore} == rest;
    }

    // ----- ending the process

    method TryWaitChild() returns (r: Result<Option<Option<int>>, Cause>)
      requires Valid()
      modifies host
      ensures Valid() && host.Standing() == old(host.Standing()) && host.horizon == old(host.horizon)
      ensures host.Escalation() == old(host.Escalation()) && host.now == old(host.now)
      ensures r.Success? && r.value.Some? ==>
                host.Now().alive == {} && host.Now().current.status == Some(r.value.value)
      ensures host.Now().alive <= old(host.Now().alive)
      ensures r.Failure? ==> host.Excuses(r.error)
    {
      hide Look;
      r := host.TryWait(pid);
    }

    /** Whatever branch the shutdown takes, the process has exited when it returns normally. */
    method ShutdownAndDrain() returns (r: Result<(), Cause>)
      requires Valid() && host.Now().current.asked.None?
      modifies this, host
      ensures Valid() && host.Standing() == old(host.Standing()) && host.horizon <= old(host.horizon)
      ensures r.Success? ==> host.Now().alive == {}
      ensures r.Failure? ==> host.Excuses(r.error)
    {
      hide Valid, Look, Host.Valid, Host.Standing;
      var exited :- TryWaitChild();
      if exited.Some? {
        r := DrainRemainingOutput();
        return r;
      }
      var sent :- AskToStop();
      if !sent {
        var _ :- TerminateChild();
        r := DrainRemainingOutput();
        return r;
      }
      var stopped :- WaitForExit(settings.shutdownTimeout * 1000);
      if stopped {
        return Success(());
      }
      r := EndByForce();
    }

    /** The JVM was asked to stop and has had the time to: it is killed, perhaps after a thread dump. */
    method EndByForce() returns (r: Result<(), Cause>)
      requires Valid() && MayKill(settings, host.Now().current, host.now)
      modifies this, host
      ensures Valid() && host.Standing() == old(host.Standing()) && host.horizon <= old(host.horizon)
      ensures r.Success? ==> host.Now().alive == {}
      ensures r.Failure? ==> host.Excuses(r.error)
    {
      hide Valid, Look, Host.Valid, Host.Standing;
      var _ :- host.Log();
      if settings.dumpOnFailedExit {
        var _ :- host.Log();
        var dumped :- RequestThreadDump();
        if dumped {
          var stopped :- WaitForExit(Max(settings.dumpDelay, 1) * 1000);
          if stopped {
            return Success(());
          }
        }
      }
      var _ :- host.Log();
      var _ :- TerminateChild();
      r := DrainRemainingOutput();
    }

    method AskToStop() returns (r: Result<bool, Cause>)
      requires Valid()
      modifies this`connected, host`journal
      ensures Valid() && host.Standing() == old(host.Standing()) && host.Now().alive == old(host.Now().alive)
      ensures r == Success(true) ==> host.Escalation() == (true, Some(host.now))
      ensures r == Success(false) ==> host.Escalation() == (false, old(host.Escalation()).1)
      ensures r.Failure? ==> host.Excuses(r.error)
    {
      r := SendIfConnected(STOP);
    }

    /** Kills a JVM that could not be asked to stop, or has not done so in time. */
    method TerminateChild() returns (r: Result<(), Cause>)
      requires Valid() && MayKill(settings, host.Now().current, host.now)
      modifies host
      ensures Valid() && host.Standing() == old(host.Standing()) && host.horizon == old(host.horizon)
      ensures r.Success? ==> host.Now().alive == {}
      ensures r.Failure? ==> host.Excuses(r.error)
    {
      hide Look, Valid, Host.Valid;
      var exited :- TryWaitChild();
      if exited.None? {
        var _ :- KillChild();
      }
      r := AwaitChild();
    }

    method KillChild() returns (r: Result<(), Cause>)
      requires Valid() && MayKill(settings, host.Now().current, host.now)
      modifies host`journal
      ensures Valid() && host.Standing() == old(host.Standing())
      ensures r.Failure? ==> host.Excuses(r.error)
    {
      hide Look, Host.Valid;
      r := host.Kill(pid);
    }

    method AwaitChild() returns (r: Result<(), Cause>)
      requires Valid()
      modifies host
      ensures Valid() && host.Standing() == old(host.Standing()) && host.horizon == old(host.horizon)
      ensures r.Success? ==> host.Now().alive == {}
      ensures r.Failure? ==> host.Excuses(r.error)
    {
      r := host.WaitFor(pid);
    }

    /** Logs output while waiting; true only when the process was seen to exit. */
    method WaitForExit(timeout: nat) returns (r: Result<bool, Cause>)
      requires Valid()
      modifies host
      ensures Valid() && host.Standing() == old(host.Standing()) && host.horizon <= old(host.horizon)
      ensures r == Success(true) ==> host.Now().alive == {}
      ensures r == Success(false) ==> host.now >= old(host.now) + timeout
      ensures host.Escalation() == old(host.Escalation())
      ensures r.Failure? ==> host.Excuses(r.error)
    {
      hide Look, Valid, Host.Valid;
      var start := host.Time();
      var deadline := start + timeout;
      while true
        invariant Valid() && host.Standing() == old(host.Standing()) && host.horizon <= old(host.horizon)
        invariant host.Escalation() == old(host.Escalation())
        decreases host.horizon
      {
        var exited :- TryWaitChild();
        if exited.Some? {
          var _ :- DrainRemainingOutput();
          return Success(true);
        }
        var now := host.Time();
        if now >= deadline {
          return Success(false);
        }
        var _ :- Wait();
        var lines: seq<Filters.Line> := *;
        var _ :- RecordAll(lines[..Min(|lines|, OUTPUT_BATCH + 1)]);
      }
    }

    method Wait() returns (r: Result<(), Cause>)
      requires Valid()
      modifies host`now, host`horizon, host`journal, host`controls, host`closed
      ensures Valid() && host.Core() == old(host.Core())
      ensures host.Standing() == old(host.Standing()) && host.Escalation() == old(host.Escalation())
      ensures host.now >= old(host.now) && host.horizon <= old(host.horizon)
      ensures r.Success? ==> host.horizon < old(host.horizon)
      ensures r.Failure? ==> host.Excuses(r.error)
    {
      r := host.Wait(0);
    }

    method RecordAll(lines: seq<Filters.Line>) returns (r: Result<(), Cause>)
      ensures r.Failure? ==> host.Excuses(r.error)
    {
      for i := 0 to |lines| {
        var _ :- RecordOutput(lines[i]);
      }
      return Success(());
    }

    /** Logs what is left in the output channel, until it closes or stays empty past one second. */
    method DrainRemainingOutput() returns (r: Result<(), Cause>)
      requires Valid()
      modifies host`now, host`horizon, host`journal, host`controls, host`closed
      ensures Valid() && host.Standing() == old(host.Standing()) && host.horizon <= old(host.horizon)
      ensures host.Core() == old(host.Core()) && host.now >= old(host.now)
      ensures host.Escalation() == old(host.Escalation())
      ensures r.Failure? ==> host.Excuses(r.error)
    {
      hide Look, Valid, Host.Valid;
      var start := host.Time();
      var deadline := start + 1000;
      while true
        invariant Valid() && host.Core() == old(host.Core())
        invariant host.Standing() == old(host.Standing()) && host.Escalation() == old(host.Escalation())
        invariant host.horizon <= old(host.horizon) && host.now >= old(host.now)
        decreases host.horizon
      {
        var _ :- Wait();
        var line: Option<Filters.Line> := *;
        var closed: bool := *;
        var now := host.Time();
        if line.Some? {
          var _ :- RecordOutput(line.value);
        } else if closed || now >= deadline {
          return Success(());
        }
      }
    }

    // ----- the event loop

    /** Waits for what comes next; nothing was left to do, and now what this calls for is. */
    method Select() returns (r: Result<Wakeup, Cause>)
      requires Live() && Settled(host.Now().due)
      modifies host`now, host`horizon, host`journal, host`controls, host`closed
      ensures host.Valid() && host.Now().overall == old(host.Now().overall) && host.horizon <= old(host.horizon)
      ensures r.Success? ==>
                && host.horizon < old(host.horizon) && ValidWhen(outputOpen && !r.value.OutputClosed?) && Unasked()
                && host.Now().due == DueFor(host.Now().current, r.value)
                && host.journal.After? && host.journal.entry == Woke(r.value)
      ensures r.Success? && r.value.ControlArrived? ==> host.controls != []
      ensures r.Success? && r.value.ControlChannelClosed? ==> host.controls == [] && host.closed
      ensures r.Success? && r.value.Protocol? ==> connected
      ensures r.Failure? ==> host.Excuses(r.error)
    {
      hide Look, Host.Valid, DueFor;
      var _ :- Wait();
      var wakeup := NextWakeup();
      return Success(wakeup);
    }

    method NextWakeup() returns (wakeup: Wakeup)
      requires Live() && Settled(host.Now().due)
      modifies host`journal
      ensures host.Valid() && host.Now().overall == old(host.Now().overall)
      ensures ValidWhen(outputOpen && !wakeup.OutputClosed?) && Unasked()
      ensures host.Now().due == DueFor(host.Now().current, wakeup)
      ensures host.journal == After(old(host.journal), Woke(wakeup))
      ensures wakeup.ControlArrived? ==> host.controls != []
      ensures wakeup.ControlChannelClosed? ==> host.controls == [] && host.closed
      ensures wakeup.Protocol? ==> connected
    {
      hide Look;
      wakeup := host.Wake(outputOpen, connected);
    }

    method CloseOutput()
      requires ValidWhen(false) && Unasked()
      modifies this`outputOpen
      ensures Live()
    {
      outputOpen := false;
    }

    /**
     * Any sequence of wakeups keeps every rule of the journal: each is seen to before the next, and a normal return means
     * that the JVM has exited.
     */
    method EventLoop() returns (r: Result<RunOutcome, Cause>)
      requires Live() && Settled(host.Now().due)
      modifies this, host
      ensures host.Valid() && host.Now().overall == old(host.Now().overall) && host.horizon <= old(host.horizon)
      ensures r.Success? ==> Over(r.value)
      ensures r.Failure? ==> host.Excuses(r.error)
    {
      hide Valid, ValidWhen, Unasked, Live, Over, Look, Host.Valid, Host.Now;
      while true
        invariant Live() && host.Now().overall == old(host.Now().overall) && host.horizon <= old(host.horizon)
        invariant Settled(host.Now().due)
        decreases host.horizon
      {
        var wakeup :- Select();
        LiveAgain(wakeup);
        var outcome: Option<RunOutcome> := None;
        match wakeup {
          case Output(lines) => outcome :- HandleOutputBatch(lines);
          case OutputClosed => CloseOutput();
          case ControlArrived =>
            var handled, _ :- HandleControl();
            outcome := handled;
          case ControlChannelClosed => outcome :- HandleControlsClosed();
          case Protocol(event) => outcome :- HandleProtocol(event);
          case Tick => outcome :- HandleTick();
        }
        if outcome.Some? {
          return Success(outcome.value);
        }
      }
    }

    lemma LiveAgain(wakeup: Wakeup)
      requires ValidWhen(outputOpen && !wakeup.OutputClosed?) && Unasked()
      ensures if wakeup.OutputClosed? then ValidWhen(false) else Live()
    {
    }
  }
}
