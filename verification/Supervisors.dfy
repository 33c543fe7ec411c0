/** The outer loop of src/supervisor.rs: launching, restart throttling, pausing and stopping. */
module Supervisors {
  import opened Prelude
  import opened Journals
  import opened Hosts
  import opened JvmRuns
  import Lifecycle

  datatype PausedOutcome = ResumeLaunching | StopPaused

  class Supervisor {
    const host: Host
    const settings: Settings

    constructor (host: Host)
      ensures this.host == host && settings == host.settings
    {
      this.host, settings := host, host.settings;
    }

    /** Between two launches: no JVM, nobody asked to stop. */
    ghost predicate Between()
      reads host
    {
      Waited(false, host.Now().overall, host.Now().inbox.resting)
    }

    /** Between two launches, or after a stop was taken from the queue. */
    ghost predicate Waited(stopped: bool, overall: Overall, resting: Option<int>)
      reads host
    {
      && host.Valid() && settings == host.settings
      && var v := host.Now();
         && v.overall == overall && !v.overall.inRun && !v.overall.finished && v.alive == {} && v.stopTaken == stopped
         && v.inbox.resting == resting && !v.inbox.looking
    }

    /**
     * Waits out a delay; true when a stop was taken meanwhile. While the clock shows less than the deadline it looks
     * into the queue, and takes what comes first; other controls than a stop are taken and ignored.
     */
    method WaitForRestart(delay: nat) returns (r: Result<bool, Cause>)
      requires Between() && host.Now().inbox.resting.None? && WillWait(settings, host.Now().overall)
      requires delay == Delay(settings, host.Now().overall)
      requires host.Now().overall.idleSince.Some? && host.now >= host.Now().overall.idleSince.value
      modifies host
      ensures host.Valid() && host.horizon <= old(host.horizon)
      ensures host.now >= old(host.now) && (r == Success(false) ==> host.now >= old(host.now) + delay)
      ensures r.Success? ==> host.Now().inbox.resting.Some? && host.Now().inbox.resting.value >= old(host.now)
      ensures r.Success? ==> Waited(r.value, old(host.Now().overall), host.Now().inbox.resting)
      ensures r == Success(false) ==> host.now >= host.Now().inbox.resting.value + delay
      ensures r.Failure? ==> r.error == Cut && host.horizon == 0
      ensures delay == 0 ==> r == Success(false)
      ensures delay == 0 ==> host.journal == After(old(host.journal), Resting(host.Now().inbox.resting.value))
    {
      hide Look, Host.Valid;
      var start := host.Time();
      var deadline := start + delay;
      NoteResting(start);
      while true
        invariant Waited(false, old(host.Now().overall), Some(start)) && host.horizon <= old(host.horizon)
        invariant host.now >= start >= old(host.now)
        invariant delay == 0 ==> host.journal == After(old(host.journal), Resting(start))
        decreases host.horizon
      {
        var now := host.Time();
        if now >= deadline {
          return Success(false);
        }
        var polled :- LookForControl(start, now);
        if polled.Hung? || (polled.Received? && IsStop(polled.control)) {
          return Success(true);
        }
      }
    }

    ghost method NoteResting(start: int)
      requires Between() && host.Now().inbox.resting.None? && WillWait(settings, host.Now().overall)
      requires host.Now().overall.idleSince.Some? && start >= host.Now().overall.idleSince.value
      modifies host`journal
      ensures Waited(false, old(host.Now().overall), Some(start))
      ensures host.journal == After(old(host.journal), Resting(start))
    {
      host.Note(Resting(start));
    }

    /** One look into the queue, at a time before the deadline: a control that waits is taken, the first one first. */
    method LookForControl(ghost start: int, ghost now: int) returns (r: Result<Polled, Cause>)
      requires Between() && host.Now().inbox.resting == Some(start)
      requires start <= now < start + Delay(settings, host.Now().overall)
      modifies host
      ensures host.Valid() && host.horizon <= old(host.horizon) && host.now >= old(host.now)
      ensures r.Failure? ==> r.error == Cut && host.horizon == 0
      ensures r.Success? ==> host.horizon < old(host.horizon)
      ensures r.Success? ==>
                Waited(r.value.Hung? || (r.value.Received? && IsStop(r.value.control)), old(host.Now().overall), Some(start))
      ensures r.Success? && old(host.controls) != [] ==> r.value == Received(old(host.controls)[0])
    {
      host.Note(Looked(now));
      r := host.PollControls();
    }

    method WaitWhilePaused() returns (r: Result<PausedOutcome, Cause>)
      requires Between() && IsPaused(settings, host.Now())
      modifies host
      ensures host.Valid() && host.horizon <= old(host.horizon)
      ensures host.now >= old(host.now)
      ensures r == Success(StopPaused) ==> Waited(true, old(host.Now().overall), None)
      ensures r == Success(ResumeLaunching) ==> Waited(false, old(host.Now().overall).(resumed := true), None)
      ensures r == Success(ResumeLaunching) ==>
                && host.journal.After? && host.journal.entry == Resumed
                && host.journal.past.After? && host.journal.past.entry == Took(Control.Resume)
      ensures r.Failure? ==> r.error == Cut && host.horizon == 0
    {
      hide Look, Host.Valid;
      while true
        invariant Waited(false, old(host.Now().overall), None) && host.horizon <= old(host.horizon)
        invariant host.now >= old(host.now)
        decreases host.horizon
      {
        var received :- host.ReceiveControl();
        if received.Hung? || IsStop(received.control) {
          return Success(StopPaused);
        }
        if received.control == Control.Resume {
          NoteResumed();
          return Success(ResumeLaunching);
        }
      }
    }

    ghost method NoteResumed()
      requires Between() && IsPaused(settings, host.Now())
      modifies host`journal
      ensures Waited(false, old(host.Now().overall).(resumed := true), None)
      ensures host.journal == After(old(host.journal), Resumed)
    {
      host.Note(Resumed);
    }

    /** Launches one JVM and sees it to its end; a normal return leaves it exited or never started. */
    method RunOnce() returns (r: Result<RunOutcome, Cause>, ghost launchedAt: int)
      requires host.Valid() && settings == host.settings
      requires host.Now().overall.inRun && !host.Now().overall.finished && host.Now().current == NOTHING_LAUNCHED
      requires host.Now().alive == {} && !host.Now().stopTaken && !host.Now().inbox.looking
      requires host.Now().due == NothingDue
      modifies host
      ensures host.Valid() && host.Now().overall == old(host.Now().overall) && host.horizon <= old(host.horizon)
      ensures r.Success? ==> host.horizon < old(host.horizon) && !host.Now().inbox.looking
      ensures r.Failure? ==> host.Excuses(r.error)
      ensures r.Success? ==>
                && host.Now().alive == {} && !Pressing(host.Now().due) && Earned(host.Now().current, r.value)
                && (host.Now().stopTaken ==> r.value == StopRun(0))
                && (r.value.RestartRun? || r.value.ExitedRun? ==>
                      r.value.elapsed == host.now - launchedAt && launchedAt >= old(host.now))
    {
      hide Look, Host.Valid;
      var started := host.Time();
      launchedAt := started;
      var _ :- host.Wait(0);
      var misconfigured := host.Refuses();
      if misconfigured {
        return Failure(Io), launchedAt;
      }
      var _ :- host.Log();
      var pid := host.Spawn();
      if pid.None? {
        var _ :- host.Log();
        var now := host.Time();
        return Success(RestartRun(now - started, true, 1)), launchedAt;
      }
      var run := new JvmRun(host, pid.value, started);
      var pidFileRefused := host.Refuses();
      if pidFileRefused {
        var _ :- run.TerminateChild();
        return Failure(Io), launchedAt;
      }
      r := run.EventLoop();
    }

    method Finish(code: int) returns (r: Result<int, Cause>)
      requires host.Valid() && settings == host.settings
      requires !host.Now().overall.inRun && !host.Now().overall.finished && host.Now().alive == {}
      requires !host.Now().inbox.looking
      requires MayFinish(settings, host.Now()) && code == ReturnCode(settings, host.Now())
      modifies host`journal
      ensures host.Valid() && host.horizon == old(host.horizon)
      ensures r.Failure? ==> host.Excuses(r.error)
      ensures r.Success? ==>
                && r.value == code && host.journal == After(old(host.journal), StoppedMarker)
                && code == ReturnCode(settings, Look(settings, host.journal.past))
    {
      var _ :- host.LogStopped();
      return Success(code);
    }

    /** A normal return: the last step is the stopped marker, and the exit code follows from the steps before it. */
    ghost predicate Returned(r: Result<int, Cause>)
      reads host
    {
      && host.Valid() && (r.Failure? ==> host.Excuses(r.error))
      && (r.Success? ==>
            && host.journal.After? && host.journal.entry == StoppedMarker
            && r.value == ReturnCode(settings, Look(settings, host.journal.past)))
    }

    ghost method NoteBegun()
      requires host.Valid() && settings == host.settings && host.journal == Empty
      modifies host`journal
      ensures Waited(false, Overall(0, 0, 0, false, None, false, false, Some(host.now)), None)
    {
      host.Note(Begun(host.now));
    }

    /**
     * A whole run of the supervisor. It returns with the stopped marker written and no JVM left: with 0 after a stop, and
     * otherwise with the code its last JVM ended with. Only the surroundings can prevent that.
     */
    method Run() returns (r: Result<int, Cause>)
      requires host.Valid() && settings == host.settings && host.journal == Empty
      modifies host
      ensures host.Valid() && (r.Failure? ==> host.Excuses(r.error))
      ensures r.Success? ==>
                && host.journal.After? && host.journal.entry == StoppedMarker && host.Now().alive == {}
                && var steps := host.journal.past;
                   r.value == if Lifecycle.StopSeen(steps) || Lifecycle.LastEnd(steps).None? then 0
                              else Lifecycle.CodeOf(Lifecycle.LastEnd(steps).value)
    {
      r := Supervise();
      if r.Success? {
        Lifecycle.TheReturnCode(settings, host.journal.past);
        Lifecycle.OneJvmAtATime(settings, host.journal);
        NobodyRunsAtTheEnd(host.journal);
      }
    }

    lemma NobodyRunsAtTheEnd(j: Journal)
      requires Accepted(settings, j) && j.After? && j.entry == StoppedMarker
      ensures !Look(settings, j).overall.inRun
    {
    }

    method Supervise() returns (r: Result<int, Cause>)
      requires host.Valid() && settings == host.settings && host.journal == Empty
      modifies host
      ensures Returned(r)
    {
      hide Look, Host.Valid;
      NoteBegun();
      host.Arrivals();
      var _ :- host.Log();
      if settings.pauseOnStartup && settings.pausable {
        var paused :- WaitWhilePaused();
        if paused.StopPaused? {
          r := Finish(0);
          return r;
        }
      }
      if settings.startupDelay > 0 {
        var stopped :- WaitForRestart(settings.startupDelay * 1000);
        if stopped {
          r := Finish(0);
          return r;
        }
      }
      r := LaunchLoop();
    }

    /** The delay before the next launch has passed. */
    ghost predicate Rested()
      reads host`journal, host`now
    {
      var o := host.Now().overall;
      var resting := host.Now().inbox.resting;
      && o.idleSince.Some? && host.now >= o.idleSince.value + Delay(settings, o)
      && (Delay(settings, o) > 0 ==> resting.Some? && host.now >= resting.value + Delay(settings, o))
    }

    ghost method NoteLaunching(jvmId: nat)
      requires Between() && MayRelaunch(settings, host.Now().overall)
      requires host.Now().overall.failures < settings.Maximum()
      requires jvmId == Min(host.Now().overall.launches + 1, U32_MAX) && Rested()
      modifies host`journal
      ensures host.Valid()
      ensures host.Now().overall == NextOverall(settings, old(host.Now().overall), Launching(jvmId, host.now))
      ensures host.Now().current == NOTHING_LAUNCHED && host.Now().alive == {} && !host.Now().stopTaken
      ensures !host.Now().inbox.looking && host.Now().due == NothingDue
    {
      host.Note(Launching(jvmId, host.now));
    }

    ghost method NoteEnded(outcome: RunOutcome)
      requires host.Valid() && settings == host.settings
      requires host.Now().overall.inRun && !host.Now().overall.finished && host.Now().alive == {}
      requires !Pressing(host.Now().due) && Earned(host.Now().current, outcome) && !host.Now().inbox.looking
      modifies host`journal
      ensures host.Valid()
      ensures host.Now().overall == NextOverall(settings, old(host.Now().overall), Ended(outcome, host.now))
      ensures host.Now().alive == {} && host.Now().stopTaken == old(host.Now().stopTaken)
      ensures host.Now().inbox.resting.None? && !host.Now().inbox.looking
    {
      host.Note(Ended(outcome, host.now));
    }

    method LaunchLoop() returns (r: Result<int, Cause>)
      requires Between() && host.Now().overall.launches == 0 && host.Now().overall.failures == 0
      requires host.Now().overall.lastOutcome.None? && Rested() && MayRelaunch(settings, host.Now().overall)
      modifies host
      ensures Returned(r)
    {
      hide Look, Host.Valid;
      var jvmId := 1;
      var failedInvocations := 0;
      while true
        invariant Between() && MayRelaunch(settings, host.Now().overall) && Rested()
        invariant jvmId == Min(host.Now().overall.launches + 1, U32_MAX)
        invariant failedInvocations == host.Now().overall.failures < settings.Maximum()
        decreases host.horizon
      {
        var _ :- host.Log();
        NoteLaunching(jvmId);
        ghost var launching := host.Now().overall;
        var outcome, _ :- RunOnce();
        NoteEnded(outcome);
        var conclusion: Option<int>;
        conclusion, failedInvocations :- AfterRun(settings.Resolve(outcome), failedInvocations, outcome, launching);
        if conclusion.Some? {
          return Success(conclusion.value);
        }
        jvmId := Min(jvmId + 1, U32_MAX);
      }
    }

    /** What the end of a run leads to: an exit code, or, once any pause or delay is over, another launch. */
    method AfterRun(outcome: RunOutcome, failed: nat, ghost ended: RunOutcome, ghost launching: Overall)
      returns (r: Result<Option<int>, Cause>, failedInvocations: nat)
      requires host.Valid() && settings == host.settings && outcome == settings.Resolve(ended)
      requires launching.inRun && !launching.finished && launching.failures == failed < settings.Maximum()
      requires host.Now().overall == NextOverall(settings, launching, Ended(ended, host.now))
      requires host.Now().alive == {} && (host.Now().stopTaken ==> outcome.StopRun?)
      requires host.Now().inbox.resting.None? && !host.Now().inbox.looking
      modifies host
      ensures host.Valid() && host.horizon <= old(host.horizon)
      ensures r.Failure? ==> host.Excuses(r.error)
      ensures r.Success? && r.value.Some? ==> Returned(Success(r.value.value))
      ensures r == Success(None) ==>
                && Between() && MayRelaunch(settings, host.Now().overall) && Rested()
                && host.Now().overall.launches == launching.launches
                && failedInvocations == host.Now().overall.failures < settings.Maximum()
    {
      hide Look, Host.Valid;
      failedInvocations := failed;
      host.Arrivals();
      match outcome {
        case StopRun(code) =>
          var stopped :- Finish(code);
          return Success(Some(stopped)), failedInvocations;
        case PauseRun =>
          failedInvocations := 0;
          var paused :- WaitWhilePaused();
          if paused.StopPaused? {
            var stopped :- Finish(0);
            return Success(Some(stopped)), failedInvocations;
          }
        case RestartRun(elapsed, automatic, code) =>
          if settings.disableRestarts || (automatic && settings.disableAutomaticRestarts) {
            var _ :- host.Log();
            var stopped :- Finish(code);
            return Success(Some(stopped)), failedInvocations;
          }
          if elapsed >= settings.successfulTime * 1000 {
            failedInvocations := 0;
          } else {
            failedInvocations := Min(failedInvocations + 1, U64_MAX);
          }
          var maximum := Max(settings.maxFailed, 1);
          if failedInvocations >= maximum {
            var _ :- host.Log();
            var stopped :- Finish(code);
            return Success(Some(stopped)), failedInvocations;
          }
          var interrupted :- WaitForRestart(settings.restartDelay * 1000);
          if interrupted {
            var stopped :- Finish(0);
            return Success(Some(stopped)), failedInvocations;
          }
      }
      return Success(None), failedInvocations;
    }
  }
}
