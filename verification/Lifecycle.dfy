/** What the rules of the supervisor's journal add up to over whole runs. */
module Lifecycle {
  import opened Prelude
  import opened Journals

  /** `j` is `p` with more steps after it. */
  ghost predicate Extends(j: Journal, p: Journal) {
    j == p || (j.After? && Extends(j.past, p))
  }

  lemma {:induction false} AcceptedPrefix(s: Settings, j: Journal, p: Journal)
    requires Accepted(s, j) && Extends(j, p)
    ensures Accepted(s, p)
  {
    if j != p {
      AcceptedPrefix(s, j.past, p);
    }
  }

  lemma LookUnfolds(s: Settings, j: Journal)
    ensures j.Empty? ==> Look(s, j).current == NOTHING_LAUNCHED
    ensures j.After? ==>
              Look(s, j).current == NextCurrent(s, Look(s, j.past).overall.inRun, Look(s, j.past).current, j.entry)
  {
  }

  // ----- one JVM at a time

  /** At most one launched JVM has not been seen to exit, and none outside a run. */
  lemma {:induction false} OneJvmAtATime(s: Settings, j: Journal)
    requires Accepted(s, j)
    ensures forall a, b :: a in Look(s, j).alive && b in Look(s, j).alive ==> a == b
    ensures !Look(s, j).overall.inRun ==> Look(s, j).alive == {}
  {
    if j.After? {
      OneJvmAtATime(s, j.past);
    }
  }

  // ----- stopping

  /** How many JVM processes have been started. */
  function Processes(j: Journal): nat {
    match j
    case Empty => 0
    case After(past, entry) => Processes(past) + if entry.Launched? then 1 else 0
  }

  predicate IsStopTaken(e: Entry) {
    e.ControlsClosed? || (e.Took? && IsStop(e.control))
  }

  predicate StopSeen(j: Journal) {
    j.After? && (IsStopTaken(j.entry) || StopSeen(j.past))
  }

  lemma {:induction false} StopsAreRemembered(s: Settings, j: Journal)
    ensures Look(s, j).stopTaken <==> StopSeen(j)
  {
    if j.After? {
      StopsAreRemembered(s, j.past);
    }
  }

  /** Once a stop has been taken, by whichever consumer, no launch is announced and no process started any more. */
  lemma {:induction false} NothingIsLaunchedAfterAStop(s: Settings, j: Journal, p: Journal)
    requires Accepted(s, j) && Extends(j, p) && StopSeen(p)
    ensures StopSeen(j) && Processes(j) == Processes(p)
    ensures Look(s, j).overall.launches == Look(s, p).overall.launches
  {
    if j != p {
      StopsAreRemembered(s, j.past);
      NothingIsLaunchedAfterAStop(s, j.past, p);
    }
  }

  function Markers(j: Journal): nat {
    match j
    case Empty => 0
    case After(past, entry) => Markers(past) + if entry.StoppedMarker? then 1 else 0
  }

  /** The stopped marker is written at most once, and then it is the last step. */
  lemma {:induction false} TheMarkerIsLast(s: Settings, j: Journal)
    requires Accepted(s, j)
    ensures Markers(j) == if j.After? && j.entry.StoppedMarker? then 1 else 0
    ensures Look(s, j).overall.finished <==> j.After? && j.entry.StoppedMarker?
  {
    if j.After? {
      TheMarkerIsLast(s, j.past);
    }
  }

  // ----- how runs end, as it is written in the journal

  /** The outcome of the last run that has ended. */
  function LastEnd(j: Journal): Option<RunOutcome> {
    match j
    case Empty => None
    case After(past, entry) => if entry.Ended? then Some(entry.outcome) else LastEnd(past)
  }

  /** What is configured for a JVM that ends by itself with this code. */
  function Action(s: Settings, code: int): ExitAction {
    if code in s.onExit then s.onExit[code] else s.onExitDefault
  }

  /** The outcome asks for another launch, directly or by way of what is configured for its exit code. */
  predicate IsRestart(s: Settings, outcome: RunOutcome) {
    match outcome
    case RestartRun(_, _, _) => true
    case ExitedRun(_, code) => Action(s, code).RestartOnExit? || (Action(s, code).PauseOnExit? && !s.pausable)
    case _ => false
  }

  /** Besides, such restarts are not disabled; one after an exit is automatic. */
  predicate AsksForRestart(s: Settings, outcome: RunOutcome) {
    && IsRestart(s, outcome)
    && !s.disableRestarts && (outcome.ExitedRun? || outcome.automatic ==> !s.disableAutomaticRestarts)
  }

  predicate EndsInPause(s: Settings, outcome: RunOutcome) {
    outcome.PauseRun? || (outcome.ExitedRun? && Action(s, outcome.code).PauseOnExit? && s.pausable)
  }

  lemma {:induction false} TheLastOutcomeIsResolved(s: Settings, j: Journal)
    ensures Look(s, j).overall.lastOutcome ==
            match LastEnd(j) case None => None case Some(outcome) => Some(s.Resolve(outcome))
  {
    if j.After? {
      TheLastOutcomeIsResolved(s, j.past);
    }
  }

  lemma WhatTheEndMeans(s: Settings, outcome: RunOutcome)
    ensures var resolved := s.Resolve(outcome);
            && (resolved.RestartRun? <==> IsRestart(s, outcome)) && (AsksForRestart(s, outcome) ==> IsRestart(s, outcome))
            && (resolved.RestartRun? ==>
                  && resolved.elapsed == outcome.elapsed && resolved.code == outcome.code
                  && (AsksForRestart(s, outcome) <==> !s.RestartsDisabled(resolved.automatic)))
            && (resolved.PauseRun? <==> EndsInPause(s, outcome))
            && (resolved.StopRun? ==> resolved.code == CodeOf(outcome))
            && !resolved.ExitedRun?
  {
  }

  /** The exit code a run has ended with; a pause has none. */
  function CodeOf(outcome: RunOutcome): int {
    match outcome
    case StopRun(code) => code
    case PauseRun => 0
    case ExitedRun(_, code) => code
    case RestartRun(_, _, code) => code
  }

  // ----- the exit code of the supervisor

  lemma LookIs(s: Settings, j: Journal)
    requires j.After?
    ensures Look(s, j) == Next(s, Look(s, j.past), j.entry)
  {
  }

  lemma {:induction false} RunsDoNotLook(s: Settings, j: Journal)
    requires Accepted(s, j)
    ensures Look(s, j).overall.inRun || Look(s, j).stopTaken ==> !Look(s, j).inbox.looking
  {
    if j.After? {
      RunsDoNotLook(s, j.past);
    }
  }

  lemma {:induction false} WhoRestsWillWait(s: Settings, j: Journal)
    requires Accepted(s, j)
    ensures Look(s, j).inbox.resting.Some? && !Look(s, j).overall.inRun ==> WillWait(s, Look(s, j).overall)
  {
    if j.After? {
      WhoRestsWillWait(s, j.past);
    }
  }

  /** What is pressing has been called for by nobody before. */
  lemma {:induction false} WhatPressesIsNew(s: Settings, j: Journal)
    requires Accepted(s, j)
    ensures IsNew(Look(s, j))
  {
    if j.After? {
      WhatPressesIsNew(s, j.past);
      LookIs(s, j);
      hide Look;
      StaysNew(s, Look(s, j.past), j.entry);
    }
  }

  predicate IsNew(v: View) {
    Pressing(v.due) || v.due.DueTick? ==>
      && v.overall.inRun && v.current.launched && !v.stopTaken
      && v.current.demand.NoDemand? && v.current.jvmStop.None?
  }

  lemma StaysNew(s: Settings, v: View, e: Entry)
    requires Permitted(s, v, e) && IsNew(v)
    ensures IsNew(Next(s, v, e))
  {
    hide BetweenRunsPermitted, WithinWindow, IsTriggered, WillWait, Listens;
  }

  /** After a stop was taken in a run, that is what the run ends in. */
  lemma {:induction false} AStopIsCalledFor(s: Settings, j: Journal)
    requires Accepted(s, j)
    ensures Look(s, j).stopTaken && Look(s, j).overall.inRun ==> Look(s, j).current.demand == ToStop
  {
    if j.After? {
      AStopIsCalledFor(s, j.past);
      WhatPressesIsNew(s, j.past);
    }
  }

  /** After a stop was taken, nothing is left for the supervisor to exit with. */
  lemma {:induction false} StopsEndInZero(s: Settings, j: Journal)
    requires Accepted(s, j)
    ensures Look(s, j).stopTaken && !Look(s, j).overall.inRun ==> ReturnCode(s, Look(s, j)) == 0
  {
    if j.After? {
      StopsEndInZero(s, j.past);
      AStopIsCalledFor(s, j.past);
      LooksAreInADelay(s, j.past);
      WhoRestsWillWait(s, j.past);
    }
  }

  lemma {:induction false} LooksAreInADelay(s: Settings, j: Journal)
    requires Accepted(s, j)
    ensures Look(s, j).inbox.looking ==>
              !Look(s, j).overall.inRun && Delay(s, Look(s, j).overall) > 0 && Look(s, j).inbox.resting.Some?
  {
    if j.After? {
      LooksAreInADelay(s, j.past);
    }
  }

  /** The supervisor exits with 0 if a stop was taken, and otherwise with the code that its last run ended with. */
  lemma TheReturnCode(s: Settings, j: Journal)
    requires Accepted(s, After(j, StoppedMarker))
    ensures ReturnCode(s, Look(s, j)) == if StopSeen(j) || LastEnd(j).None? then 0 else CodeOf(LastEnd(j).value)
  {
    StopsEndInZero(s, j);
    StopsAreRemembered(s, j);
    TheLastOutcomeIsResolved(s, j);
    if LastEnd(j).Some? {
      WhatTheEndMeans(s, LastEnd(j).value);
    }
  }

  // ----- what a launch follows, and how many there are

  /** A resume has been taken since the last JVM ended. */
  predicate ResumedSinceEnd(j: Journal) {
    j.After? && (j.entry.Resumed? || (!j.entry.Ended? && ResumedSinceEnd(j.past)))
  }

  lemma {:induction false} ResumedMeansTaken(s: Settings, j: Journal)
    ensures Look(s, j).overall.resumed <==> ResumedSinceEnd(j)
  {
    if j.After? {
      ResumedMeansTaken(s, j.past);
    }
  }

  /** How often a launch has been announced. */
  function Launches(j: Journal): nat {
    match j
    case Empty => 0
    case After(past, entry) => Launches(past) + if entry.Launching? then 1 else 0
  }

  /** How many runs in a row have been too short, each followed by a restart that is allowed. */
  function ShortInARow(s: Settings, j: Journal): nat {
    match j
    case Empty => 0
    case After(past, entry) =>
      if !entry.Ended? then ShortInARow(s, past)
      else if EndsInPause(s, entry.outcome) then 0
      else if !AsksForRestart(s, entry.outcome) then ShortInARow(s, past)
      else if entry.outcome.elapsed >= s.successfulTime * 1000 then 0
      else ShortInARow(s, past) + 1
  }

  /** How often a launch has been announced since the count of short runs began anew. */
  function LaunchesSinceReset(s: Settings, j: Journal): nat {
    match j
    case Empty => 0
    case After(past, entry) =>
      if entry.Launching? then LaunchesSinceReset(s, past) + 1
      else if entry.Ended? && (EndsInPause(s, entry.outcome)
                               || (AsksForRestart(s, entry.outcome) && entry.outcome.elapsed >= s.successfulTime * 1000))
      then 0
      else LaunchesSinceReset(s, past)
  }

  lemma {:induction false} LaunchesAreCounted(s: Settings, j: Journal)
    ensures var o := Look(s, j).overall;
            o.launches == Launches(j) && o.failures == ShortInARow(s, j) && o.sinceReset == LaunchesSinceReset(s, j)
  {
    hide EndsInPause, AsksForRestart;
    if j.After? {
      LaunchesAreCounted(s, j.past);
      if j.entry.Ended? {
        WhatTheEndMeans(s, j.entry.outcome);
      }
      hide Settings.Resolve;
    }
  }

  /**
   * Every launch but the first follows the end of a run that asked for a restart, or a resume after one that ended in a
   * pause; no stop has been taken by then, and fewer runs in a row have been short than are allowed.
   */
  lemma WhatALaunchFollows(s: Settings, j: Journal, jvmId: nat, now: int)
    requires Accepted(s, After(j, Launching(jvmId, now)))
    ensures !StopSeen(j) && jvmId == Min(Launches(j) + 1, 0xFFFF_FFFF)
    ensures match LastEnd(j)
            case None => s.pauseOnStartup && s.pausable ==> ResumedSinceEnd(j)
            case Some(outcome) => AsksForRestart(s, outcome) || (EndsInPause(s, outcome) && ResumedSinceEnd(j))
    ensures ShortInARow(s, j) < if s.maxFailed == 0 then 1 else s.maxFailed
  {
    StopsAreRemembered(s, j);
    ResumedMeansTaken(s, j);
    LaunchesAreCounted(s, j);
    TheLastOutcomeIsResolved(s, j);
    NeverLaunchedMeansNoEnd(s, j);
    if LastEnd(j).Some? {
      WhatTheEndMeans(s, LastEnd(j).value);
    }
  }

  lemma {:induction false} NeverLaunchedMeansNoEnd(s: Settings, j: Journal)
    requires Accepted(s, j)
    ensures var o := Look(s, j).overall;
            && (o.inRun ==> o.launches > 0) && (o.launches == 0 ==> o.lastOutcome.None?)
            && (o.launches > 0 && !o.inRun ==> o.lastOutcome.Some?)
            && (o.resumed && !o.inRun ==> o.launches == 0 || o.lastOutcome == Some(PauseRun))
  {
    if j.After? {
      NeverLaunchedMeansNoEnd(s, j.past);
    }
  }

  /** Launches since the count began anew never exceed the maximum. */
  lemma {:induction false} LaunchesAreThrottled(s: Settings, j: Journal)
    requires Accepted(s, j)
    ensures LaunchesSinceReset(s, j) <= if s.maxFailed == 0 then 1 else s.maxFailed
  {
    LaunchesAreCounted(s, j);
    CountsAreBalanced(s, j);
  }

  /** After this outcome the supervisor launches nothing more unless it is resumed. */
  predicate IsFinal(s: Settings, outcome: RunOutcome) {
    outcome.StopRun? || (outcome.RestartRun? && s.RestartsDisabled(outcome.automatic))
  }

  lemma {:induction false} CountsAreBalanced(s: Settings, j: Journal)
    requires Accepted(s, j)
    ensures var o := Look(s, j).overall;
            && o.sinceReset <= s.Maximum()
            && (o.inRun ==> o.failures < s.Maximum())
            && o.sinceReset == o.failures
                               + (if o.inRun || (o.lastOutcome.Some? && IsFinal(s, o.lastOutcome.value)) then 1 else 0)
  {
    if j.After? {
      CountsAreBalanced(s, j.past);
      NeverLaunchedMeansNoEnd(s, j.past);
    }
  }

  /** Every run was short and asked for a restart that is allowed. */
  predicate AlwaysShort(s: Settings, j: Journal) {
    match j
    case Empty => true
    case After(past, entry) =>
      && AlwaysShort(s, past)
      && (entry.Ended? ==> AsksForRestart(s, entry.outcome) && entry.outcome.elapsed < s.successfulTime * 1000)
  }

  lemma {:induction false} ShortRunsNeverReset(s: Settings, j: Journal)
    requires AlwaysShort(s, j)
    ensures Launches(j) == LaunchesSinceReset(s, j)
    ensures LastEnd(j).Some? ==> AsksForRestart(s, LastEnd(j).value) && !EndsInPause(s, LastEnd(j).value)
  {
    if j.After? {
      ShortRunsNeverReset(s, j.past);
    }
  }

  /**
   * If every run is short and nobody stops it, the supervisor gives up after exactly the maximum of launches,
   * with the exit code of the last one.
   */
  lemma GivesUpAfterTheMaximum(s: Settings, j: Journal)
    requires Accepted(s, j) && AlwaysShort(s, j)
    ensures var maximum := if s.maxFailed == 0 then 1 else s.maxFailed;
            && Launches(j) <= maximum
            && (j.After? && j.entry.StoppedMarker? && !StopSeen(j) ==>
                  && Launches(j) == maximum && LastEnd(j).Some?
                  && ReturnCode(s, Look(s, j.past)) == CodeOf(LastEnd(j).value))
  {
    ShortRunsNeverReset(s, j);
    LaunchesAreThrottled(s, j);
    if j.After? && j.entry.StoppedMarker? && !StopSeen(j) {
      LastRunWasOneTooMany(s, j.past);
    }
  }

  lemma LastRunWasOneTooMany(s: Settings, j: Journal)
    requires Accepted(s, After(j, StoppedMarker)) && AlwaysShort(s, j) && !StopSeen(j)
    ensures Launches(j) == if s.maxFailed == 0 then 1 else s.maxFailed
    ensures LastEnd(j).Some? && ReturnCode(s, Look(s, j)) == CodeOf(LastEnd(j).value)
  {
    TheReturnCode(s, j);
    ShortRunsNeverReset(s, j);
    LaunchesAreCounted(s, j);
    StopsAreRemembered(s, j);
    TheLastOutcomeIsResolved(s, j);
    CountsAreBalanced(s, j);
    if LastEnd(j).Some? {
      WhatTheEndMeans(s, LastEnd(j).value);
    }
  }

  /** With restarts disabled, only a resume leads to another launch. */
  lemma DisabledRestartsNeedAResume(s: Settings, j: Journal, jvmId: nat, now: int)
    requires s.disableRestarts && Accepted(s, After(j, Launching(jvmId, now)))
    requires Launches(j) > 0
    ensures ResumedSinceEnd(j)
  {
    WhatALaunchFollows(s, j, jvmId, now);
    LaunchesAreCounted(s, j);
    NeverLaunchedMeansNoEnd(s, j);
    TheLastOutcomeIsResolved(s, j);
  }

  // ----- the policy for exit codes

  ghost predicate NoLaunchSince(j: Journal, p: Journal) {
    j == p || (j.After? && !j.entry.Launching? && NoLaunchSince(j.past, p))
  }

  lemma {:induction false} NoEndWithoutALaunch(s: Settings, j: Journal, p: Journal)
    requires Accepted(s, j) && p.After? && p.entry.Ended? && NoLaunchSince(j, p)
    ensures !Look(s, j).overall.inRun && LastEnd(j) == Some(p.entry.outcome)
    ensures Launches(j) == Launches(p) && ShortInARow(s, j) == ShortInARow(s, p)
  {
    if j != p {
      NoEndWithoutALaunch(s, j.past, p);
    }
  }

  /**
   * A JVM has ended by itself with `code`. If that is to shut the wrapper down, no other launch follows, and the wrapper
   * exits with that code. If it is to pause, and a pause is possible, no launch follows without a resume. Otherwise the
   * end counts exactly as an automatic restart.
   */
  lemma TheExitPolicy(s: Settings, j: Journal, p: Journal, elapsed: int, code: int, now: int)
    requires var end := After(p, Ended(ExitedRun(elapsed, code), now)); Accepted(s, j) && NoLaunchSince(j, end)
    ensures match if code in s.onExit then s.onExit[code] else s.onExitDefault
            case ShutdownOnExit =>
              && (forall jvmId, t :: !Accepted(s, After(j, Launching(jvmId, t))))
              && (Accepted(s, After(j, StoppedMarker)) && !StopSeen(j) ==> ReturnCode(s, Look(s, j)) == code)
            case PauseOnExit =>
              s.pausable && !ResumedSinceEnd(j) ==> forall jvmId, t :: !Accepted(s, After(j, Launching(jvmId, t)))
            case RestartOnExit => true
    ensures var action := if code in s.onExit then s.onExit[code] else s.onExitDefault;
            action.RestartOnExit? || (action.PauseOnExit? && !s.pausable) ==>
              Look(s, After(p, Ended(ExitedRun(elapsed, code), now))).overall ==
              Look(s, After(p, Ended(RestartRun(elapsed, true, code), now))).overall
  {
    var end := After(p, Ended(ExitedRun(elapsed, code), now));
    NoEndWithoutALaunch(s, j, end);
    hide Look, Permitted, ReturnCode, AfterEnd, ShortInARow;
    if IsRestart(s, end.entry.outcome) {
      AsARestart(s, p, elapsed, code, now);
    }
    forall jvmId, t | Accepted(s, After(j, Launching(jvmId, t)))
      ensures AsksForRestart(s, end.entry.outcome) || (EndsInPause(s, end.entry.outcome) && ResumedSinceEnd(j))
    {
      WhatALaunchFollows(s, j, jvmId, t);
    }
    if Accepted(s, After(j, StoppedMarker)) {
      TheReturnCode(s, j);
    }
  }

  lemma AsARestart(s: Settings, p: Journal, elapsed: int, code: int, now: int)
    requires IsRestart(s, ExitedRun(elapsed, code))
    ensures Look(s, After(p, Ended(ExitedRun(elapsed, code), now))).overall ==
            Look(s, After(p, Ended(RestartRun(elapsed, true, code), now))).overall
  {
  }

  /** Where an exit code is to shut the wrapper down, it does: no launch follows, however long the journal goes on. */
  lemma {:induction false} NothingFollowsAShutdownCode(
    s: Settings, j: Journal, p: Journal, elapsed: int, code: int, now: int)
    requires Accepted(s, j) && Extends(j, After(p, Ended(ExitedRun(elapsed, code), now)))
    requires (if code in s.onExit then s.onExit[code] else s.onExitDefault) == ShutdownOnExit
    ensures NoLaunchSince(j, After(p, Ended(ExitedRun(elapsed, code), now)))
    ensures Launches(j) == Launches(p)
  {
    hide Look, Permitted;
    if j != After(p, Ended(ExitedRun(elapsed, code), now)) {
      NothingFollowsAShutdownCode(s, j.past, p, elapsed, code, now);
      TheExitPolicy(s, j.past, p, elapsed, code, now);
    }
  }

  // ----- delays

  /** When the supervisor was last left without a JVM, or began. */
  function IdleSince(j: Journal): Option<int> {
    match j
    case Empty => None
    case After(past, entry) => if entry.Begun? || entry.Ended? then Some(entry.now) else IdleSince(past)
  }

  lemma {:induction false} IdleTimesAreRecorded(s: Settings, j: Journal)
    ensures Look(s, j).overall.idleSince == IdleSince(j)
  {
    if j.After? {
      IdleTimesAreRecorded(s, j.past);
    }
  }

  /** At every launch of a run the delay that belongs to it has passed: the start-up delay, or the restart delay. */
  lemma LaunchesAreSpaced(s: Settings, j: Journal, p: Journal, jvmId: nat, now: int)
    requires Accepted(s, j) && Extends(j, After(p, Launching(jvmId, now)))
    ensures IdleSince(p).Some?
    ensures now >= IdleSince(p).value
                   + match LastEnd(p)
                     case None => s.startupDelay * 1000
                     case Some(outcome) => if IsRestart(s, outcome) then s.restartDelay * 1000 else 0
  {
    AcceptedPrefix(s, j, After(p, Launching(jvmId, now)));
    IdleTimesAreRecorded(s, p);
    TheLastOutcomeIsResolved(s, p);
    if LastEnd(p).Some? {
      WhatTheEndMeans(s, LastEnd(p).value);
    }
  }

  // ----- a stop that waits when a JVM is to be restarted

  /** The last step is the end of a run that asks for a restart, and no stop has been taken. */
  predicate RestartIsDue(s: Settings, p: Journal) {
    p.After? && p.entry.Ended? && IsRestart(s, p.entry.outcome) && !StopSeen(p)
  }

  /** What can happen between the end of a run and the next launch. */
  predicate IsDelayStep(e: Entry) {
    e.Arrived? || e.SendersLeft? || e.Resting? || e.Looked? || e.TimedOut? || e.Took? || e.ControlsClosed?
  }

  ghost predicate DelaySince(j: Journal, p: Journal) {
    j == p || (j.After? && IsDelayStep(j.entry) && DelaySince(j.past, p))
  }

  /** How often the queue was looked into between `p` and `j`, with whatever came of it. */
  ghost function Looks(j: Journal, p: Journal): nat {
    if j == p || j.Empty? then 0
    else Looks(j.past, p) + if j.entry.Took? || j.entry.TimedOut? || j.entry.ControlsClosed? then 1 else 0
  }

  function Queue(s: Settings, j: Journal): seq<Control> {
    Look(s, j).inbox.waiting
  }

  /** The first stop in a queue, with `n` other controls before it. */
  predicate StopAt(queue: seq<Control>, n: nat) {
    n < |queue| && IsStop(queue[n]) && forall i :: 0 <= i < n ==> !IsStop(queue[i])
  }

  predicate IsLookedAt(e: Entry) {
    e.Took? || e.TimedOut? || e.ControlsClosed?
  }

  /** One step between two runs. */
  lemma DelayStep(s: Settings, v: View, e: Entry)
    requires Permitted(s, v, e) && IsDelayStep(e) && !v.overall.inRun
    requires v.overall.lastOutcome.Some? && v.overall.lastOutcome.value.RestartRun?
    ensures var n := Next(s, v, e);
            && n.overall == v.overall && n.current == v.current && n.alive == v.alive
            && n.stopTaken == (v.stopTaken || IsStopTaken(e))
            && n.inbox.looking == (e.Looked? || (v.inbox.looking && !IsLookedAt(e)))
            && n.inbox.resting == (if e.Resting? then Some(e.now) else v.inbox.resting)
            && (e.Looked? ==> !v.stopTaken && v.inbox.resting.Some? && s.restartDelay > 0)
            && (e.Resting? ==> WillWait(s, v.overall))
            && (IsLookedAt(e) ==> v.inbox.looking && (e.TimedOut? || !v.stopTaken))
            && (if e.Took? then v.inbox.waiting == [e.control] + n.inbox.waiting else v.inbox.waiting <= n.inbox.waiting)
            && (e.TimedOut? || e.ControlsClosed? ==> v.inbox.waiting == [])
  {
  }

  lemma EndOfRun(s: Settings, p: Journal)
    requires Accepted(s, p) && RestartIsDue(s, p)
    ensures var v := Look(s, p);
            && !v.overall.inRun && !v.overall.finished && v.alive == {} && !v.stopTaken
            && v.overall.lastOutcome.Some? && v.overall.lastOutcome.value.RestartRun?
            && v.overall.idleSince == Some(p.entry.now) && v.inbox.resting.None? && !v.inbox.looking
            && v.overall.failures == ShortInARow(s, p)
            && (WillWait(s, v.overall) <==>
                AsksForRestart(s, p.entry.outcome) && ShortInARow(s, p) < if s.maxFailed == 0 then 1 else s.maxFailed)
  {
    WhatTheEndMeans(s, p.entry.outcome);
    LaunchesAreCounted(s, p);
    RunsDoNotLook(s, p.past);
    StopsAreRemembered(s, p);
  }

  /** A delay leaves everything but the queue as it was, and without a delay nobody looks. */
  lemma {:induction false} NothingElseInADelay(s: Settings, j: Journal, p: Journal)
    requires Accepted(s, j) && RestartIsDue(s, p) && DelaySince(j, p)
    ensures Look(s, j).overall == Look(s, p).overall && Look(s, j).current == Look(s, p).current
    ensures Look(s, j).alive == Look(s, p).alive
    ensures Looks(j, p) > 0 || Look(s, j).inbox.looking ==> s.restartDelay > 0
    ensures Look(s, j).inbox.resting.Some? ==> WillWait(s, Look(s, p).overall)
    ensures Looks(j, p) > 0 || Look(s, j).inbox.looking ==> Look(s, j).inbox.resting.Some?
    ensures Look(s, j).stopTaken ==> !Look(s, j).inbox.looking
  {
    hide Look, Permitted, Next, WillWait;
    AcceptedPrefixOfDelay(s, j, p);
    EndOfRun(s, p);
    if j != p {
      NothingElseInADelay(s, j.past, p);
      LookIs(s, j);
      DelayStep(s, Look(s, j.past), j.entry);
    }
  }

  lemma {:induction false} AcceptedPrefixOfDelay(s: Settings, j: Journal, p: Journal)
    requires Accepted(s, j) && DelaySince(j, p)
    ensures Accepted(s, p)
  {
    if j != p {
      AcceptedPrefixOfDelay(s, j.past, p);
    }
  }

  /** Each look takes the control that is first in the queue, until a stop has been taken. */
  lemma {:induction false} LooksTakeInOrder(s: Settings, j: Journal, p: Journal, n: nat)
    requires Accepted(s, j) && RestartIsDue(s, p) && DelaySince(j, p) && StopAt(Queue(s, p), n)
    ensures Looks(j, p) <= n + 1 && (StopSeen(j) <==> Looks(j, p) == n + 1)
    ensures Looks(j, p) <= n ==> Queue(s, p)[Looks(j, p)..] <= Queue(s, j)
  {
    hide Look, Permitted, Next, WillWait;
    if j == p {
      assert Queue(s, p)[0..] == Queue(s, p);
    } else {
      LooksTakeInOrder(s, j.past, p, n);
      NothingElseInADelay(s, j.past, p);
      AcceptedPrefixOfDelay(s, j, p);
      EndOfRun(s, p);
      StopsAreRemembered(s, j.past);
      LookIs(s, j);
      DelayStep(s, Look(s, j.past), j.entry);
      NextInLine(Queue(s, p), Looks(j.past, p), Queue(s, j.past), Queue(s, j));
    }
  }

  /** Taking the first of a queue that begins with `queue[k..]` leaves one that begins with `queue[k + 1..]`. */
  lemma NextInLine(queue: seq<Control>, k: nat, before: seq<Control>, after: seq<Control>)
    ensures k < |queue| && queue[k..] <= before && before <= after ==> queue[k..] <= after
    ensures k < |queue| && queue[k..] <= before && before != [] ==> before[0] == queue[k]
    ensures k < |queue| && queue[k..] <= before && before != [] && before == [before[0]] + after ==> queue[k + 1..] <= after
  {
    if k < |queue| && queue[k..] <= before {
      assert queue[k..][0] == queue[k] && queue[k..][1..] == queue[k + 1..];
      if before == [before[0]] + after {
        assert before[1..] == after && queue[k + 1..] <= before[1..];
      }
    }
  }

  /**
   * In a run, a stop that waits behind `n` other controls when a JVM is to be restarted is taken before the next launch
   * if and only if the queue is looked into more than `n` times in between; the launch goes ahead only if it is not.
   */
  lemma AWaitingStopIsTakenIff(s: Settings, j: Journal, p: Journal, n: nat, jvmId: nat, now: int)
    requires Accepted(s, j) && RestartIsDue(s, p) && DelaySince(j, p) && StopAt(Queue(s, p), n)
    ensures StopSeen(j) <==> Looks(j, p) > n
    ensures Accepted(s, After(j, Launching(jvmId, now))) ==> Looks(j, p) <= n
    ensures s.restartDelay == 0 ==> Looks(j, p) == 0
  {
    LooksTakeInOrder(s, j, p, n);
    NothingElseInADelay(s, j, p);
    StopsAreRemembered(s, j);
  }

  /** Looking `k` times at the start of the delay takes the first `k` controls. */
  lemma {:induction false} TakingThem(s: Settings, p: Journal, n: nat, k: nat) returns (j: Journal)
    requires Accepted(s, p) && RestartIsDue(s, p) && StopAt(Queue(s, p), n) && k <= n + 1
    requires s.restartDelay > 0 && WillWait(s, Look(s, p).overall)
    ensures Accepted(s, j) && DelaySince(j, p) && Looks(j, p) == k && !Look(s, j).inbox.looking
    ensures Queue(s, j) == Queue(s, p)[k..] && Look(s, j).inbox.resting == Some(p.entry.now)
  {
    hide Look, Permitted, Next, WillWait;
    var t := p.entry.now;
    EndOfRun(s, p);
    if k == 0 {
      MayRest(s, p);
      j := After(p, Resting(t));
      assert Queue(s, p)[0..] == Queue(s, p);
    } else {
      var before := TakingThem(s, p, n, k - 1);
      LooksTakeInOrder(s, before, p, n);
      NothingElseInADelay(s, before, p);
      StopsAreRemembered(s, before);
      assert Queue(s, before)[0] == Queue(s, p)[k - 1] && Queue(s, before)[1..] == Queue(s, p)[k..];
      MayLook(s, before, t);
      var looked := After(before, Looked(t));
      j := After(looked, Took(Queue(s, p)[k - 1]));
    }
  }

  lemma MayRest(s: Settings, p: Journal)
    requires Accepted(s, p) && RestartIsDue(s, p) && WillWait(s, Look(s, p).overall)
    ensures var j := After(p, Resting(p.entry.now));
            && Accepted(s, j) && Queue(s, j) == Queue(s, p)
            && !Look(s, j).inbox.looking && Look(s, j).inbox.resting == Some(p.entry.now)
  {
    EndOfRun(s, p);
  }

  lemma MayLook(s: Settings, j: Journal, t: int)
    requires Accepted(s, j) && Look(s, j).inbox.resting == Some(t) && !Look(s, j).inbox.looking && !Look(s, j).stopTaken
    requires !Look(s, j).overall.inRun && !Look(s, j).overall.finished && s.restartDelay > 0 && Queue(s, j) != []
    requires Look(s, j).overall.lastOutcome.Some? && Look(s, j).overall.lastOutcome.value.RestartRun?
    ensures var looked := After(j, Looked(t));
            var taken := After(looked, Took(Queue(s, j)[0]));
            && Accepted(s, taken) && Queue(s, taken) == Queue(s, j)[1..]
            && !Look(s, taken).inbox.looking && Look(s, taken).inbox.resting == Some(t)
  {
    MayTake(s, Look(s, j), t);
    hide Look, Permitted;
    OneStep(s, j, Looked(t));
    OneStep(s, After(j, Looked(t)), Took(Queue(s, j)[0]));
  }

  lemma MayTake(s: Settings, v: View, t: int)
    requires v.inbox.resting == Some(t) && !v.inbox.looking && !v.stopTaken && v.inbox.waiting != []
    requires !v.overall.inRun && !v.overall.finished && s.restartDelay > 0
    requires v.overall.lastOutcome.Some? && v.overall.lastOutcome.value.RestartRun?
    ensures Permitted(s, v, Looked(t)) && Permitted(s, Next(s, v, Looked(t)), Took(v.inbox.waiting[0]))
  {
  }

  /** Some course of events takes the waiting stop before the next launch. */
  ghost predicate CanBeTaken(s: Settings, p: Journal) {
    exists j :: Accepted(s, j) && DelaySince(j, p) && StopSeen(j)
  }

  /**
   * A stop that waits when a JVM is to be restarted can be taken before the next launch if and only if there will be
   * another launch at all, and the restart delay is not zero.
   */
  lemma AStopCanBeTakenIff(s: Settings, p: Journal, n: nat)
    requires Accepted(s, p) && RestartIsDue(s, p) && StopAt(Queue(s, p), n)
    ensures CanBeTaken(s, p) <==>
            && s.restartDelay > 0 && AsksForRestart(s, p.entry.outcome)
            && ShortInARow(s, p) < if s.maxFailed == 0 then 1 else s.maxFailed
  {
    hide Look, Permitted, Next, WillWait, AsksForRestart;
    EndOfRun(s, p);
    if CanBeTaken(s, p) {
      var j :| Accepted(s, j) && DelaySince(j, p) && StopSeen(j);
      LooksTakeInOrder(s, j, p, n);
      NothingElseInADelay(s, j, p);
    }
    if s.restartDelay > 0 && WillWait(s, Look(s, p).overall) {
      var j := TakingThem(s, p, n, n + 1);
      LooksTakeInOrder(s, j, p, n);
    }
  }

  /** In a whole run, a control is taken between a restart and its launch only where the delay is not zero. */
  lemma {:induction false} NothingIsTakenWithoutADelay(s: Settings, j: Journal, p: Journal, control: Control)
    requires Accepted(s, j) && Extends(j, After(p, Took(control)))
    requires !Look(s, p).overall.inRun && LastEnd(p).Some? && IsRestart(s, LastEnd(p).value)
    ensures s.restartDelay > 0
  {
    AcceptedPrefix(s, j, After(p, Took(control)));
    LooksAreInADelay(s, p);
    TheLastOutcomeIsResolved(s, p);
    WhatTheEndMeans(s, LastEnd(p).value);
  }

  /** Restarts without delay, and nothing else that matters. */
  const HASTY := Settings(false, false, false, 0, false, false, 300, 5, 0, 30, 5, 30, 30, false, 5, 60, map[],
                          ShutdownOnExit, [])

  /** A launch fails, a stop arrives, and yet another JVM is started before anybody takes the stop. */
  function StopOutlivesTheDelay(): Journal {
    var failed := After(After(After(Empty, Begun(0)), Launching(1, 0)), Ended(RestartRun(0, true, 1), 0));
    var again := After(After(After(failed, Arrived(Stop)), Resting(0)), Launching(2, 0));
    After(After(After(again, Launched(0, 0)), Woke(ControlArrived)), Took(Stop))
  }

  lemma AStopOutlivesTheDelay()
    ensures Accepted(HASTY, StopOutlivesTheDelay())
  {
    var failed := After(After(After(Empty, Begun(0)), Launching(1, 0)), Ended(RestartRun(0, true, 1), 0));
    ALaunchFails();
    var waiting := After(failed, Arrived(Stop));
    hide Look;
    TheStopArrives(failed);
    NobodyLooks(waiting);
    TheStopIsLate(After(After(waiting, Resting(0)), Launching(2, 0)));
  }

  /** The view between a failed launch and the next. */
  function RestartAhead(launches: nat, outcome: Option<RunOutcome>, resting: Option<int>): View {
    View(Overall(launches, 1, 1, false, outcome, false, false, Some(0)), NOTHING_LAUNCHED, {}, false,
         Inbox([], false, resting, false), NothingDue)
  }

  lemma ALaunchFails()
    ensures var failed := After(After(After(Empty, Begun(0)), Launching(1, 0)), Ended(RestartRun(0, true, 1), 0));
            Accepted(HASTY, failed) && Look(HASTY, failed) == RestartAhead(1, Some(RestartRun(0, true, 1)), None)
  {
    var launching := After(After(Empty, Begun(0)), Launching(1, 0));
    TheFirstLaunch();
    TheFailureIsNoted(Look(HASTY, launching));
    hide Look, Permitted, Next;
    OneStep(HASTY, launching, Ended(RestartRun(0, true, 1), 0));
  }

  lemma TheFailureIsNoted(v: View)
    requires v == View(Overall(1, 1, 0, true, None, false, false, Some(0)), NOTHING_LAUNCHED, {}, false,
                       Inbox([], false, None, false), NothingDue)
    ensures Permitted(HASTY, v, Ended(RestartRun(0, true, 1), 0))
    ensures Next(HASTY, v, Ended(RestartRun(0, true, 1), 0)) == RestartAhead(1, Some(RestartRun(0, true, 1)), None)
  {
  }

  lemma TheFirstLaunch()
    ensures var launching := After(After(Empty, Begun(0)), Launching(1, 0));
            && Accepted(HASTY, launching)
            && Look(HASTY, launching) ==
               View(Overall(1, 1, 0, true, None, false, false, Some(0)), NOTHING_LAUNCHED, {}, false,
                    Inbox([], false, None, false), NothingDue)
  {
    var begun := After(Empty, Begun(0));
    ItBegins();
    TheFirstIsPermitted(Look(HASTY, begun));
    hide Look, Permitted, Next;
    OneStep(HASTY, begun, Launching(1, 0));
  }

  lemma ItBegins()
    ensures var begun := After(Empty, Begun(0));
            && Accepted(HASTY, begun)
            && Look(HASTY, begun) == View(Overall(0, 0, 0, false, None, false, false, Some(0)), NOTHING_LAUNCHED, {}, false,
                                          Inbox([], false, None, false), NothingDue)
  {
  }

  lemma TheFirstIsPermitted(v: View)
    requires v == View(Overall(0, 0, 0, false, None, false, false, Some(0)), NOTHING_LAUNCHED, {}, false,
                       Inbox([], false, None, false), NothingDue)
    ensures Permitted(HASTY, v, Launching(1, 0))
    ensures Next(HASTY, v, Launching(1, 0)) ==
            View(Overall(1, 1, 0, true, None, false, false, Some(0)), NOTHING_LAUNCHED, {}, false,
                 Inbox([], false, None, false), NothingDue)
  {
  }

  lemma TheStopArrives(j: Journal)
    requires Accepted(HASTY, j) && Look(HASTY, j) == RestartAhead(1, Some(RestartRun(0, true, 1)), None)
    ensures var waiting := After(j, Arrived(Stop));
            && Accepted(HASTY, waiting)
            && Look(HASTY, waiting) == Look(HASTY, j).(inbox := Inbox([Stop], false, None, false))
  {
    assert [] + [Stop] == [Stop];
  }

  lemma NobodyLooks(j: Journal)
    requires Accepted(HASTY, j)
    requires Look(HASTY, j) ==
             RestartAhead(1, Some(RestartRun(0, true, 1)), None).(inbox := Inbox([Stop], false, None, false))
    ensures var again := After(After(j, Resting(0)), Launching(2, 0));
            && Accepted(HASTY, again) && Queue(HASTY, again) == [Stop] && !Look(HASTY, again).stopTaken
            && Look(HASTY, again).overall.inRun && !Look(HASTY, again).overall.finished
            && Look(HASTY, again).alive == {} && !Look(HASTY, again).current.launched && Settled(Look(HASTY, again).due)
  {
    hide Look, Permitted;
    var resting := After(j, Resting(0));
    NoTimeToLook(j);
    AnotherLaunch(Look(HASTY, resting));
    OneStep(HASTY, resting, Launching(2, 0));
  }

  lemma AnotherLaunch(v: View)
    requires v == RestartAhead(1, Some(RestartRun(0, true, 1)), None).(inbox := Inbox([Stop], false, Some(0), false))
    ensures Permitted(HASTY, v, Launching(2, 0))
  {
  }

  lemma NoTimeToLook(j: Journal)
    requires Accepted(HASTY, j)
    requires Look(HASTY, j) ==
             RestartAhead(1, Some(RestartRun(0, true, 1)), None).(inbox := Inbox([Stop], false, None, false))
    ensures Accepted(HASTY, After(j, Resting(0)))
    ensures Look(HASTY, After(j, Resting(0))) == Look(HASTY, j).(inbox := Inbox([Stop], false, Some(0), false))
  {
  }

  lemma TheStopIsLate(j: Journal)
    requires Accepted(HASTY, j) && Queue(HASTY, j) == [Stop] && !Look(HASTY, j).stopTaken
    requires Look(HASTY, j).overall.inRun && !Look(HASTY, j).overall.finished
    requires Look(HASTY, j).alive == {} && !Look(HASTY, j).current.launched
    requires Settled(Look(HASTY, j).due)
    ensures Accepted(HASTY, After(After(After(j, Launched(0, 0)), Woke(ControlArrived)), Took(Stop)))
  {
    var launched := After(j, Launched(0, 0));
    var woken := After(launched, Woke(ControlArrived));
    ItMayBeLaunched(Look(HASTY, j));
    hide Look, Permitted;
    OneStep(HASTY, j, Launched(0, 0));
    TheControlWakesIt(Look(HASTY, launched));
    OneStep(HASTY, launched, Woke(ControlArrived));
    TheStopIsTaken(Look(HASTY, woken));
    OneStep(HASTY, woken, Took(Stop));
  }

  lemma ItMayBeLaunched(v: View)
    requires !v.stopTaken && v.overall.inRun && !v.overall.finished && v.alive == {} && !v.current.launched
    ensures Permitted(HASTY, v, Launched(0, 0))
  {
  }

  lemma TheControlWakesIt(v: View)
    requires v.overall.inRun && !v.overall.finished && v.current.launched && !v.stopTaken && v.inbox.waiting == [Stop]
    requires var c := v.current; c.demand.NoDemand? && c.jvmStop.None? && c.status.None? && c.asked.None?
    requires Settled(v.due)
    ensures Permitted(HASTY, v, Woke(ControlArrived))
  {
  }

  lemma TheStopIsTaken(v: View)
    requires v.overall.inRun && !v.overall.finished && !v.stopTaken && v.inbox.waiting == [Stop] && v.due.DueControl?
    ensures Permitted(HASTY, v, Took(Stop))
  {
  }

  lemma OneStep(s: Settings, j: Journal, e: Entry)
    requires Accepted(s, j) && Permitted(s, Look(s, j), e)
    ensures Accepted(s, After(j, e)) && Look(s, After(j, e)) == Next(s, Look(s, j), e)
  {
  }
}
