/**
 * What the supervisor of src/supervisor.rs does, as a journal of observable steps, and the rules each step obeys.
 * The classes in Host, JvmRun and Supervisor produce such journals; the lemmas here say what the rules add up to.
 */
module Journals {
  import opened Prelude
  import Filters

  type U64 = n: nat | n <= U64_MAX

  const STARTED: nat := 106
  const START_PENDING: nat := 105
  const STOP: nat := 101
  const RESTART: nat := 102
  const PING: nat := 103
  const SERVICE_CONTROL: nat := 114
  const PAUSE: nat := 138
  const RESUME: nat := 139
  const GC: nat := 140

  const OUTPUT_BATCH: nat := 4096

  datatype Control = Stop | ConsoleInterrupt | ConsoleBreak | Pause | Resume | ThreadDump | HeapDump | User(code: nat)

  datatype ExitAction = ShutdownOnExit | RestartOnExit | PauseOnExit

  datatype RunOutcome =
    | StopRun(code: int)
    | PauseRun
    | ExitedRun(elapsed: int, code: int)
    | RestartRun(elapsed: int, automatic: bool, code: int)

  /** The configured values the lifecycle depends on; durations in seconds. */
  datatype Settings = Settings(
    pausable: bool, pausableStopsJvm: bool, pauseOnStartup: bool, startupDelay: U64,
    disableRestarts: bool, disableAutomaticRestarts: bool, successfulTime: U64, maxFailed: U64, restartDelay: U64,
    startupTimeout: U64, pingInterval: U64, pingTimeout: U64, shutdownTimeout: U64,
    dumpOnFailedExit: bool, dumpDelay: U64, heapDumpTimeout: U64,
    onExit: map<int, ExitAction>, onExitDefault: ExitAction, filters: seq<Filters.Filter>)
  {
    function Maximum(): nat {
      Max(maxFailed, 1)
    }

    function PingIntervalMillis(): nat {
      Max(pingInterval, 1) * 1000
    }

    function HeapDumpMillis(): nat {
      Max(heapDumpTimeout, 1) * 1000
    }

    predicate RestartsDisabled(automatic: bool) {
      disableRestarts || (automatic && disableAutomaticRestarts)
    }

    function OnExit(code: int): ExitAction {
      if code in onExit then onExit[code] else onExitDefault
    }

    /** The exit-code policy: what the end of a JVM means for the supervisor. */
    function Resolve(outcome: RunOutcome): RunOutcome {
      match outcome
      case ExitedRun(elapsed, code) =>
        (match OnExit(code)
         case ShutdownOnExit => StopRun(code)
         case RestartOnExit => RestartRun(elapsed, true, code)
         case PauseOnExit => if pausable then PauseRun else RestartRun(elapsed, true, code))
      case _ => outcome
    }

    /** A pause ends the JVM instead of asking it to pause. */
    predicate PausesByStopping() {
      pausable && pausableStopsJvm
    }

    predicate PausesFirst() {
      pauseOnStartup && pausable
    }

    predicate LongEnough(elapsed: int) {
      elapsed >= successfulTime * 1000
    }
  }

  // ----- the journal

  /** A decoded packet: its code and the number its payload spells, if it spells one. */
  datatype ProtocolEvent = Packet(code: nat, number: Option<int>) | Disconnected | ChannelClosed

  /** What the event loop can be woken by. */
  datatype Wakeup =
    | Output(lines: seq<Filters.Line>)
    | OutputClosed
    | ControlArrived
    | ControlChannelClosed
    | Protocol(event: ProtocolEvent)
    | Tick

  datatype Entry =
    | Begun(now: int)
    | Launching(jvmId: nat, now: int)
    | Launched(pid: nat, now: int)
    | StillRuns(pid: nat)
    | SawExit(pid: nat, status: Option<int>)
    | Woke(wakeup: Wakeup)
    | Read(line: Filters.Line, actions: seq<Filters.FilterAction>)
    | Acted(action: Filters.FilterAction)
    | Arrived(control: Control)
    | SendersLeft
    | Resting(now: int)
    | Looked(now: int)
    | TimedOut
    | Took(control: Control)
    | ControlsClosed
    | ListenerPolled(somebody: bool)
    | Admitted(now: int)
    | Heard(now: int, code: nat, number: Option<int>)
    | PingDue(now: int)
    | Sent(code: nat, now: int)
    | Lost
    | Killed(now: int)
    | ThreadDumpTried
    | DumpStarted
    | DumpPolled(complete: bool)
    | Ticked(now: int)
    | Expired(now: int)
    | Ended(outcome: RunOutcome, now: int)
    | Resumed
    | StoppedMarker

  datatype Journal = Empty | After(past: Journal, entry: Entry)

  /** What the journal says about all launches so far. */
  datatype Overall = Overall(launches: nat, sinceReset: nat, failures: nat, inRun: bool, lastOutcome: Option<RunOutcome>,
                             resumed: bool, finished: bool, idleSince: Option<int>)

  /** What somebody or something has called for that ends a run. */
  datatype Demand = NoDemand | ToStop | ToRestart | ToPause | ToReplace

  /** What the journal says about the current launch. */
  datatype Current = Current(launched: bool, outputOpen: bool, started: bool, everConnected: bool, connected: bool,
                             deadline: Option<int>, lastSign: int, nextPing: int, paused: bool, dumping: bool,
                             demand: Demand, asked: Option<int>, jvmStop: Option<int>, status: Option<Option<int>>)

  /** What a tick has yet to see to. */
  datatype Chore = DumpChore | ExitChore | ListenerChore | GreetingChore | PingChore

  /** What the last wakeup calls for and has not been done yet; of a batch of output, the lines and actions to come. */
  datatype Due =
    | NothingDue
    | DueLines(lines: seq<Filters.Line>, actions: seq<Filters.FilterAction>)
    | DueControl
    | DueHangup
    | DuePacket(code: nat, number: Option<int>)
    | DueLoss
    | DueTick(chores: set<Chore>)

  /**
   * What the journal says about the control queue: the controls that wait in it, in order, whether anybody is left to
   * send more, since when the supervisor waits out a delay, and whether it has just begun to look into the queue.
   */
  datatype Inbox = Inbox(waiting: seq<Control>, closed: bool, resting: Option<int>, looking: bool)

  datatype View = View(overall: Overall, current: Current, alive: set<nat>, stopTaken: bool, inbox: Inbox, due: Due)

  const NOTHING_LAUNCHED :=
    Current(false, false, false, false, false, None, 0, 0, false, false, NoDemand, None, None, None)

  predicate IsStop(control: Control) {
    control.Stop? || control.ConsoleInterrupt?
  }

  /** The count of failed launches begins anew after a pause, and after a run that was long enough. */
  predicate Resets(s: Settings, resolved: RunOutcome) {
    || resolved.PauseRun?
    || (resolved.RestartRun? && !s.RestartsDisabled(resolved.automatic) && s.LongEnough(resolved.elapsed))
  }

  predicate CountsAsFailed(s: Settings, resolved: RunOutcome) {
    resolved.RestartRun? && !s.RestartsDisabled(resolved.automatic) && !s.LongEnough(resolved.elapsed)
  }

  function AfterEnd(s: Settings, o: Overall, resolved: RunOutcome, now: int): Overall {
    Overall(
      o.launches,
      if Resets(s, resolved) then 0 else o.sinceReset,
      if Resets(s, resolved) then 0 else if CountsAsFailed(s, resolved) then o.failures + 1 else o.failures,
      false, Some(resolved), false, o.finished, Some(now))
  }

  function NextOverall(s: Settings, o: Overall, e: Entry): Overall {
    if e.Ended? then AfterEnd(s, o, s.Resolve(e.outcome), e.now)
    else Overall(
      if e.Launching? then o.launches + 1 else o.launches,
      if e.Launching? then o.sinceReset + 1 else o.sinceReset,
      o.failures,
      o.inRun || e.Launching?,
      o.lastOutcome,
      o.resumed || e.Resumed?,
      o.finished || e.StoppedMarker?,
      if e.Begun? then Some(e.now) else o.idleSince)
  }

  predicate IsHeard(e: Entry, code: nat) {
    e.Heard? && e.code == code
  }

  predicate IsSent(e: Entry, code: nat) {
    e.Sent? && e.code == code
  }

  function NextCurrent(s: Settings, inRun: bool, c: Current, e: Entry): Current {
    if e.Launching? then NOTHING_LAUNCHED
    else if e.Launched? then
      NOTHING_LAUNCHED.(launched := true, outputOpen := true, lastSign := e.now,
                        nextPing := e.now + s.PingIntervalMillis(),
                        deadline := if s.startupTimeout > 0 then Some(e.now + s.startupTimeout * 1000) else None)
    else Current(
      c.launched,
      c.outputOpen && e != Woke(OutputClosed),
      c.started || IsHeard(e, STARTED),
      c.everConnected || e.Admitted?,
      if e.Admitted? then true else if e.Lost? then false else c.connected,
      NextDeadline(s, c.deadline, e),
      if e.Heard? || e.Admitted? then e.now else c.lastSign,
      if e.PingDue? then e.now + s.PingIntervalMillis() else c.nextPing,
      if IsSent(e, PAUSE) then true else if IsSent(e, RESUME) then false else c.paused,
      if e.DumpStarted? then true else if e == DumpPolled(true) then false else c.dumping,
      if inRun && c.demand.NoDemand? then Demanded(s, c.paused, e) else c.demand,
      if IsSent(e, STOP) then Some(e.now) else c.asked,
      if IsHeard(e, STOP) && c.jvmStop.None? then Some(ExitCode(e.number)) else c.jvmStop,
      if e.SawExit? then Some(e.status) else c.status)
  }

  /** What a step calls for: a control, a packet or a filter's action, or a deadline that was missed. */
  function Demanded(s: Settings, paused: bool, e: Entry): Demand {
    match e
    case Took(control) =>
      if IsStop(control) then ToStop else if control.Pause? && s.PausesByStopping() && !paused then ToPause else NoDemand
    case ControlsClosed => ToStop
    case Acted(Shutdown) => ToStop
    case Acted(Restart) => ToRestart
    case Acted(Pause) => if s.PausesByStopping() && !paused then ToPause else NoDemand
    case Heard(_, code, _) => if code == RESTART then ToRestart else NoDemand
    case Expired(_) => ToReplace
    case _ => NoDemand
  }

  /** STARTED ends the start-up deadline, and START_PENDING sets another one where there is a timeout at all. */
  function NextDeadline(s: Settings, deadline: Option<int>, e: Entry): Option<int> {
    if IsHeard(e, STARTED) then None
    else if IsHeard(e, START_PENDING) && s.startupTimeout > 0 then Some(e.now + Max(WaitHint(s, e.number), 1))
    else deadline
  }

  /** The start-up time a JVM asks for, in milliseconds; an unreadable request counts as the configured timeout. */
  function WaitHint(s: Settings, number: Option<int>): nat {
    match number
    case Some(n) => if 0 <= n <= U64_MAX then n else Min(s.startupTimeout * 1000, U64_MAX)
    case None => Min(s.startupTimeout * 1000, U64_MAX)
  }

  function ExitCode(number: Option<int>): int {
    match number
    case Some(n) => if -0x8000_0000 <= n < 0x8000_0000 then n else 0
    case None => 0
  }

  function NextInbox(i: Inbox, e: Entry): Inbox {
    Inbox(
      if e.Arrived? then i.waiting + [e.control] else if e.Took? && i.waiting != [] then i.waiting[1..] else i.waiting,
      i.closed || e.SendersLeft?,
      if e.Resting? then Some(e.now) else if e.Launching? || e.Ended? then None else i.resting,
      if e.Looked? then true else if e.Took? || e.TimedOut? || e.ControlsClosed? then false else i.looking)
  }

  function DueFor(c: Current, wakeup: Wakeup): Due {
    match wakeup
    case Output(lines) => DueLines(lines, [])
    case OutputClosed => NothingDue
    case ControlArrived => DueControl
    case ControlChannelClosed => DueHangup
    case Protocol(Packet(code, number)) => DuePacket(code, number)
    case Protocol(_) => DueLoss
    case Tick =>
      DueTick({ExitChore} + (if c.dumping then {DumpChore} else {}) + (if c.connected then {} else {ListenerChore}))
  }

  /** What is left to do after a step. */
  function NextDue(c: Current, due: Due, e: Entry): Due {
    match e
    case Woke(wakeup) => DueFor(c, wakeup)
    case Launching(_, _) => NothingDue
    case Launched(_, _) => NothingDue
    case Ended(_, _) => NothingDue
    case Read(_, actions) => if due.DueLines? && due.lines != [] then DueLines(due.lines[1..], actions) else due
    case Acted(_) => if due.DueLines? && due.actions != [] then DueLines(due.lines, due.actions[1..]) else due
    case Took(_) => if due.DueControl? then NothingDue else due
    case ControlsClosed => if due.DueHangup? then NothingDue else due
    case Heard(_, _, _) => if due.DuePacket? then NothingDue else due
    case Lost => if due.DueLoss? then NothingDue else Without(due, PingChore)
    case Sent(code, _) => if code == PING then Without(due, PingChore) else due
    case DumpPolled(_) => Without(due, DumpChore)
    case StillRuns(_) => Without(due, ExitChore)
    case ListenerPolled(somebody) =>
      var polled := Without(due, ListenerChore);
      if somebody then With(polled, GreetingChore) else polled
    case Admitted(_) => Without(due, GreetingChore)
    case PingDue(_) => With(due, PingChore)
    case Ticked(_) => if due.DueTick? then NothingDue else due
    case Expired(_) => if due.DueTick? then NothingDue else due
    case _ => due
  }

  function With(due: Due, chore: Chore): Due {
    if due.DueTick? then DueTick(due.chores + {chore}) else due
  }

  function Without(due: Due, chore: Chore): Due {
    if due.DueTick? then DueTick(due.chores - {chore}) else due
  }

  /** Nothing is left of what the last wakeup called for. */
  predicate Settled(due: Due) {
    due == NothingDue || due == DueLines([], [])
  }

  /** A control or a packet waits to be looked at. */
  predicate Pressing(due: Due) {
    due.DueControl? || due.DueHangup? || due.DuePacket?
  }

  function Next(s: Settings, v: View, e: Entry): View {
    View(NextOverall(s, v.overall, e), NextCurrent(s, v.overall.inRun, v.current, e),
         match e
         case Launched(pid, _) => v.alive + {pid}
         case SawExit(pid, _) => v.alive - {pid}
         case _ => v.alive,
         v.stopTaken || e.ControlsClosed? || (e.Took? && IsStop(e.control)),
         NextInbox(v.inbox, e), NextDue(v.current, v.due, e))
  }

  function Look(s: Settings, j: Journal): View {
    match j
    case Empty =>
      View(Overall(0, 0, 0, false, None, false, false, None), NOTHING_LAUNCHED, {}, false, Inbox([], false, None, false),
           NothingDue)
    case After(past, entry) => Next(s, Look(s, past), entry)
  }

  // ----- the rules

  /** Why a JVM may be launched again. */
  predicate MayRelaunch(s: Settings, o: Overall) {
    || (o.launches == 0 && !s.PausesFirst())
    || o.resumed
    || (o.lastOutcome.Some? && o.lastOutcome.value.RestartRun?
        && !s.RestartsDisabled(o.lastOutcome.value.automatic))
  }

  /** How long the supervisor lets pass before it launches, in milliseconds. */
  function Delay(s: Settings, o: Overall): nat {
    match o.lastOutcome
    case None => s.startupDelay * 1000
    case Some(RestartRun(_, _, _)) => s.restartDelay * 1000
    case _ => 0
  }

  /** Whether a delay, if only of no length, is waited out before the next launch. */
  predicate WillWait(s: Settings, o: Overall) {
    match o.lastOutcome
    case None => s.startupDelay > 0 && (s.PausesFirst() ==> o.resumed)
    case Some(RestartRun(_, automatic, _)) => !s.RestartsDisabled(automatic) && o.failures < s.Maximum()
    case _ => false
  }

  /** Waiting for a resume: before the first launch, or after a run that ended in a pause. */
  predicate IsPaused(s: Settings, v: View) {
    && !v.overall.inRun && !v.overall.resumed && v.inbox.resting.None?
    && if v.overall.lastOutcome.None? then v.overall.launches == 0 && s.PausesFirst()
       else v.overall.lastOutcome == Some(PauseRun)
  }

  /** Whether a control may be taken out of the queue: in a run, while paused, or on a look during a delay. */
  predicate Listens(s: Settings, v: View) {
    v.overall.inRun || v.inbox.looking || IsPaused(s, v)
  }

  /** Why the supervisor may report that it has stopped. */
  predicate MayFinish(s: Settings, v: View) {
    || v.stopTaken
    || (v.overall.lastOutcome.Some?
        && match v.overall.lastOutcome.value
           case StopRun(_) => true
           case RestartRun(_, automatic, _) => s.RestartsDisabled(automatic) || v.overall.failures >= s.Maximum()
           case _ => false)
  }

  /** The exit code of a supervisor whose journal looks like `v` just before it reports that it has stopped. */
  function ReturnCode(s: Settings, v: View): int {
    match v.overall.lastOutcome
    case Some(StopRun(code)) => code
    case Some(RestartRun(_, automatic, code)) =>
      if s.RestartsDisabled(automatic) || v.overall.failures >= s.Maximum() then code else 0
    case _ => 0
  }

  /** The exit code of a run that ended by itself is the one the JVM announced, or else its own status. */
  predicate ExitIsTheJvms(c: Current, outcome: RunOutcome) {
    && outcome.ExitedRun?
    && match c.jvmStop
       case Some(announced) => outcome.code == announced
       case None => c.status.Some? && outcome.code == match c.status.value { case Some(code) => code case None => 1 }
  }

  predicate IsReplacement(outcome: RunOutcome) {
    outcome.RestartRun? && outcome.automatic && outcome.code == 1
  }

  /** What was called for decides how a run ends; without that, a launch has failed or the JVM has ended by itself. */
  predicate Earned(c: Current, outcome: RunOutcome) {
    match c.demand
    case ToStop => outcome == StopRun(0)
    case ToPause => outcome == PauseRun
    case ToRestart => outcome.RestartRun? && !outcome.automatic && outcome.code == 0
    case ToReplace => IsReplacement(outcome)
    case NoDemand => if c.launched then ExitIsTheJvms(c, outcome) else IsReplacement(outcome)
  }

  /** How long a JVM may stay silent, in milliseconds. */
  function Patience(s: Settings, dumping: bool): nat {
    s.pingTimeout * 1000 + s.PingIntervalMillis() + if dumping then s.HeapDumpMillis() else 0
  }

  /** A JVM is killed when it cannot be asked to stop, or has had the shutdown timeout to do so. */
  predicate MayKill(s: Settings, c: Current, now: int) {
    match c.asked
    case Some(since) => now >= since + s.shutdownTimeout * 1000
    case None => !c.connected
  }

  predicate WithinWindow(s: Settings, c: Current, now: int) {
    && (!c.started && c.deadline.Some? ==> now < c.deadline.value)
    && (s.pingTimeout > 0 && c.everConnected ==> now - c.lastSign <= Patience(s, c.dumping))
  }

  ghost predicate Permitted(s: Settings, v: View, e: Entry) {
    && !v.overall.finished
    && BetweenRunsPermitted(s, v, e) && QueuePermitted(s, v, e) && InRunPermitted(s, v, e) && PacketPermitted(s, v, e)
    && WakeupPermitted(s, v, e)
  }

  /** When a run may begin and end, and when the supervisor may. */
  predicate BetweenRunsPermitted(s: Settings, v: View, e: Entry) {
    && (e.Begun? ==> v.overall.idleSince.None? && v.overall.launches == 0)
    && (e.Launching? ==>
          && !v.overall.inRun && v.alive == {} && !v.stopTaken && !v.inbox.looking && MayRelaunch(s, v.overall)
          && v.overall.failures < s.Maximum() && e.jvmId == Min(v.overall.launches + 1, U32_MAX)
          && v.overall.idleSince.Some? && e.now >= v.overall.idleSince.value + Delay(s, v.overall)
          && (Delay(s, v.overall) > 0 ==>
                v.inbox.resting.Some? && e.now >= v.inbox.resting.value + Delay(s, v.overall)))
    && (e.Launched? ==> v.overall.inRun && !v.current.launched && v.alive == {} && !v.stopTaken)
    && (e.Ended? ==> v.overall.inRun && v.alive == {} && !Pressing(v.due) && Earned(v.current, e.outcome))
    && (e.Resumed? ==> !v.inbox.looking && !v.stopTaken && IsPaused(s, v))
    && (e.StoppedMarker? ==> !v.overall.inRun && !v.inbox.looking && v.alive == {} && MayFinish(s, v))
  }

  /** Controls are taken in the order of their arrival, and in a delay only on a look before its end. */
  predicate QueuePermitted(s: Settings, v: View, e: Entry) {
    && (e.Arrived? || e.SendersLeft? ==> !v.inbox.closed)
    && (e.Resting? ==>
          && !v.overall.inRun && !v.stopTaken && !v.inbox.looking && v.inbox.resting.None? && WillWait(s, v.overall)
          && v.overall.idleSince.Some? && e.now >= v.overall.idleSince.value)
    && (e.Looked? ==>
          && !v.overall.inRun && !v.stopTaken && !v.inbox.looking && v.inbox.resting.Some?
          && v.inbox.resting.value <= e.now < v.inbox.resting.value + Delay(s, v.overall))
    && (e.TimedOut? ==> v.inbox.looking && v.inbox.waiting == [] && !v.inbox.closed)
    && (e.Took? ==> !v.stopTaken && Listens(s, v) && v.inbox.waiting != [] && v.inbox.waiting[0] == e.control)
    && (e.ControlsClosed? ==> !v.stopTaken && Listens(s, v) && v.inbox.waiting == [] && v.inbox.closed)
  }

  /** What the watchdog, heap dumps and killing are bound to. */
  predicate InRunPermitted(s: Settings, v: View, e: Entry) {
    && (e.Killed? ==> MayKill(s, v.current, e.now))
    && (e.DumpStarted? ==> v.current.started && !v.current.dumping)
    && (e.DumpPolled? ==> v.current.dumping)
    && (e.Ticked? ==>
          && v.overall.inRun && v.current.launched && v.due == DueTick({}) && WithinWindow(s, v.current, e.now)
          && (v.current.connected ==> e.now < v.current.nextPing))
    && (e.Expired? ==>
          v.overall.inRun && v.current.launched && v.due == DueTick({}) && !WithinWindow(s, v.current, e.now))
  }

  /** Packets need a channel, and pauses alternate with resumes. */
  predicate PacketPermitted(s: Settings, v: View, e: Entry) {
    && (e.ListenerPolled? ==> v.current.launched && !v.current.connected && v.due.DueTick?)
    && (e.Admitted? ==>
          v.current.launched && !v.current.connected && v.due.DueTick? && GreetingChore in v.due.chores)
    && (e.Lost? ==> v.current.connected)
    && (e.Heard? ==> v.current.launched && v.current.connected && v.due == DuePacket(e.code, e.number))
    && (e.PingDue? ==> v.current.connected && v.due.DueTick? && e.now >= v.current.nextPing)
    && (e.Sent? ==>
          && (e.code == PING ==> v.due.DueTick? && PingChore in v.due.chores)
          && (e.code in {STOP, PING, GC, SERVICE_CONTROL, PAUSE, RESUME} ==> v.current.connected)
          && (e.code == PAUSE ==> !v.current.paused && s.pausable && !s.pausableStopsJvm)
          && (e.code == RESUME ==> v.current.paused))
  }

  /** `actions` are those of the first filter whose trigger is found in the line. */
  ghost predicate IsTriggered(filters: seq<Filters.Filter>, line: Filters.Line, actions: seq<Filters.FilterAction>) {
    if forall k :: 0 <= k < |filters| ==> !Filters.Triggers(filters[k], line) then actions == []
    else
      exists k :: 0 <= k < |filters| && Filters.Triggers(filters[k], line) && actions == filters[k].actions
               && forall j :: 0 <= j < k ==> !Filters.Triggers(filters[j], line)
  }

  /** One wakeup after the other, and what each calls for in order; once an end is called for there is no other. */
  ghost predicate WakeupPermitted(s: Settings, v: View, e: Entry) {
    && (e.Woke? ==>
          && v.overall.inRun && v.current.launched && Settled(v.due) && !v.stopTaken
          && v.current.demand.NoDemand? && v.current.jvmStop.None? && v.current.status.None? && v.current.asked.None?
          && CanWake(v, e.wakeup))
    && (e.Read? ==>
          && v.due.DueLines? && v.due.actions == [] && v.due.lines != [] && v.due.lines[0] == e.line
          && v.current.demand.NoDemand? && IsTriggered(s.filters, e.line, e.actions))
    && (e.Acted? ==>
          && v.due.DueLines? && v.due.actions != [] && v.due.actions[0] == e.action && v.current.demand.NoDemand?)
    && (e.Took? && v.overall.inRun ==> v.due.DueControl?)
    && (e.ControlsClosed? && v.overall.inRun ==> v.due.DueHangup?)
  }

  predicate CanWake(v: View, wakeup: Wakeup) {
    match wakeup
    case Output(lines) => v.current.outputOpen && 0 < |lines| <= 1 + OUTPUT_BATCH
    case OutputClosed => v.current.outputOpen
    case ControlArrived => v.inbox.waiting != []
    case ControlChannelClosed => v.inbox.waiting == [] && v.inbox.closed
    case Protocol(_) => v.current.connected
    case Tick => true
  }

  ghost predicate Accepted(s: Settings, j: Journal) {
    match j
    case Empty => true
    case After(past, entry) => Accepted(s, past) && Permitted(s, Look(s, past), entry)
  }

  /** Looking whether a process has exited is always permitted, and so is a thread dump. */
  lemma NothingForbids(s: Settings, v: View, e: Entry)
    requires !v.overall.finished && (e.SawExit? || e.StillRuns? || e.ThreadDumpTried?)
    ensures Permitted(s, v, e)
  {
  }

  // ----- what single steps come to

  lemma AdmittedStep(s: Settings, v: View, now: int)
    requires !v.overall.finished && v.current.launched && !v.current.connected
    requires v.due.DueTick? && GreetingChore in v.due.chores
    ensures Permitted(s, v, Admitted(now))
    ensures Next(s, v, Admitted(now)) ==
            v.(current := v.current.(everConnected := true, connected := true, lastSign := now),
               due := Without(v.due, GreetingChore))
  {
  }

  lemma PingDueStep(s: Settings, v: View, now: int)
    requires !v.overall.finished && v.current.connected && v.due.DueTick? && now >= v.current.nextPing
    ensures Permitted(s, v, PingDue(now))
    ensures Next(s, v, PingDue(now)) ==
            v.(current := v.current.(nextPing := now + s.PingIntervalMillis()), due := With(v.due, PingChore))
  {
  }

  lemma SentStep(s: Settings, v: View, code: nat, now: int)
    requires !v.overall.finished && v.current.connected && code != PAUSE && code != RESUME
    requires code == PING ==> v.due.DueTick? && PingChore in v.due.chores
    ensures Permitted(s, v, Sent(code, now))
    ensures Next(s, v, Sent(code, now)) ==
            v.(current := v.current.(asked := if code == STOP then Some(now) else v.current.asked),
               due := if code == PING then Without(v.due, PingChore) else v.due)
  {
  }

  lemma DumpStartedStep(s: Settings, v: View)
    requires !v.overall.finished && v.current.started && !v.current.dumping
    ensures Permitted(s, v, DumpStarted)
    ensures Next(s, v, DumpStarted) == v.(current := v.current.(dumping := true))
  {
  }

  lemma DumpPolledStep(s: Settings, v: View, complete: bool)
    requires !v.overall.finished && v.current.dumping
    ensures Permitted(s, v, DumpPolled(complete))
    ensures Next(s, v, DumpPolled(complete)) ==
            v.(current := v.current.(dumping := !complete), due := Without(v.due, DumpChore))
  {
  }
}
