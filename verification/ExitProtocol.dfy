/**
 * How a JVM ends: the control thread, the application and the shutdown hook of the Java bridge (BackendClient.java,
 * Launchers.java, SimpleApp.java), the system, and the supervisor at the other end of a channel that can be lost
 * (src/supervisor.rs), interleaved one read or write of a shared flag at a time.
 */
module ExitProtocol {
  import opened Prelude

  // ----- the JVM

  /** Why reading or writing the control socket failed. */
  datatype Failure = ClosedByHook | ChannelLost | KeyRejected | PingTimeout | HandlerFailed

  datatype ControlThread =
    | Reading
    | Starting                       // a START packet, application thread just created
    | Reported                       // STARTED sent, latch not yet released
    | StopRead(code: int)            // a STOP packet, flag not yet set
    | Stopping(code: int)            // the flag is set, exit not yet called
    | KeyRead                        // a refused key, not yet recorded
    | TimedOut | TimedOutUnstopped   // a read timeout, before its two flag checks
    | PingLate                       // the wrapper has been silent for too long, not yet recorded
    | Caught(cause: Failure)         // an IOException, before the first flag check
    | Unstopped(cause: Failure)      // no wrapper stop was seen, before the second check
    | Aborting(cause: Failure)       // neither flag was seen
    | Marked(cause: Failure)         // abnormal exit recorded, exit not yet called
    | Gone                           // returned, or blocked in System.exit

  datatype Application = NotStarted | Running | Threw | MarkedAbnormal | Finished

  datatype Hook = Dormant | Begun | ShuttingDown | SawNoStop | SawNothing | Closing | Ended

  /** Whoever calls System.exit first, the end of the last application thread, or the system begins the shutdown. */
  datatype Initiator = WrapperStop(code: int) | ControlFailure(cause: Failure) | ApplicationThrew
                     | ApplicationExit(code: int) | NaturalEnd | SystemShutdown(status: int)

  datatype Jvm = Jvm(
    hookInstalled: bool, wrapperRequestedStop: bool, abnormalExit: bool, jvmShuttingDown: bool, socketOpen: bool,
    control: ControlThread, application: Application, latch: bool, startedReports: nat,
    hook: Hook, shutdown: Option<Initiator>)

  datatype ControlAction =
    | ReadStart | ReportStarted | ReleaseLatch | ReadStop | MarkStop | ExitAfterStop
    | ReadTimesOut | TimeoutChecksStop | TimeoutChecksShutdown(pingTimedOut: bool) | RecordPingTimeout
    | ReadBadKey | RecordBadKey | IoFails(cause: Failure) | HandlerThrows
    | CatchChecksStop | CatchChecksShutdown | RecordAbnormal | ExitAfterFailure

  datatype ApplicationAction =
    | MainThrows | MarkAbnormal | ExitAfterThrow | CallExit(code: int) | MainReturns | JvmEnds | SystemEnds(status: int)

  datatype HookAction = HookBegins | SetShuttingDown | HookChecksStop | HookChecksAbnormal | HookAnnounces | HookCloses

  function Status(initiator: Initiator): int {
    match initiator
    case WrapperStop(code) => code
    case ControlFailure(_) => 1
    case ApplicationThrew => 1
    case ApplicationExit(code) => code
    case NaturalEnd => 0
    case SystemShutdown(status) => status
  }

  /** Packets are read whether or not the hook has closed the socket: they may have arrived before. */
  predicate ControlMay(j: Jvm, a: ControlAction) {
    match a
    case ReadStart => j.control == Reading && !j.wrapperRequestedStop
    case ReportStarted => j.control == Starting
    case ReleaseLatch => j.control == Reported
    case ReadStop => j.control == Reading && !j.wrapperRequestedStop
    case MarkStop => j.control.StopRead?
    case ExitAfterStop => j.control.Stopping?
    case ReadTimesOut => j.control == Reading && !j.wrapperRequestedStop
    case TimeoutChecksStop => j.control == TimedOut
    case TimeoutChecksShutdown(_) => j.control == TimedOutUnstopped
    case RecordPingTimeout => j.control == PingLate
    case ReadBadKey => j.control == Reading
    case RecordBadKey => j.control == KeyRead
    case IoFails(cause) =>
      j.control == Reading && (if j.socketOpen then cause == ChannelLost else cause == ClosedByHook)
    case HandlerThrows => j.control in {Reading, Starting, Reported} || j.control.Stopping?
    case CatchChecksStop => j.control.Caught?
    case CatchChecksShutdown => j.control.Unstopped?
    case RecordAbnormal => j.control.Aborting?
    case ExitAfterFailure => j.control.Marked?
  }

  predicate ApplicationMay(j: Jvm, a: ApplicationAction) {
    match a
    case MainThrows => j.application == Running
    case MarkAbnormal => j.application == Threw
    case ExitAfterThrow => j.application == MarkedAbnormal
    case CallExit(_) => j.application != NotStarted
    case MainReturns => j.application == Running
    case JvmEnds => j.application == Finished && j.latch
    case SystemEnds(_) => true
  }

  predicate HookMay(j: Jvm, a: HookAction) {
    match a
    case HookBegins => j.hookInstalled && j.hook == Dormant && j.shutdown.Some?
    case SetShuttingDown => j.hook == Begun
    case HookChecksStop => j.hook == ShuttingDown
    case HookChecksAbnormal => j.hook == SawNoStop
    case HookAnnounces => j.hook == SawNothing
    case HookCloses => j.hook == Closing
  }

  /** System.exit: only the first call has an effect. */
  function Exit(j: Jvm, initiator: Initiator): Jvm {
    if j.shutdown.None? then j.(shutdown := Some(initiator)) else j
  }

  /** `code` is that of the packet read, for the one step that reads a STOP. */
  function ControlDoes(j: Jvm, a: ControlAction, code: int): Jvm
    requires ControlMay(j, a)
  {
    match a
    case ReadStart => if j.application != NotStarted then j else j.(application := Running, control := Starting)
    case ReportStarted => j.(control := Reported, startedReports := j.startedReports + 1)
    case ReleaseLatch => j.(control := Reading, latch := true)
    case ReadStop => j.(control := StopRead(code))
    case MarkStop => j.(wrapperRequestedStop := true, control := Stopping(j.control.code))
    case ExitAfterStop => Exit(j, WrapperStop(j.control.code)).(control := Gone)
    case ReadTimesOut => j.(control := TimedOut)
    case TimeoutChecksStop => j.(control := if j.wrapperRequestedStop then Gone else TimedOutUnstopped)
    case TimeoutChecksShutdown(pingTimedOut) =>
      j.(control := if j.jvmShuttingDown then Gone else if pingTimedOut then PingLate else Reading)
    case RecordPingTimeout => j.(abnormalExit := true, control := Caught(PingTimeout))
    case ReadBadKey => j.(control := KeyRead)
    case RecordBadKey => j.(abnormalExit := true, control := Caught(KeyRejected))
    case IoFails(cause) => j.(control := Caught(cause))
    case HandlerThrows => j.(control := Unstopped(HandlerFailed))
    case CatchChecksStop => j.(control := if j.wrapperRequestedStop then Gone else Unstopped(j.control.cause))
    case CatchChecksShutdown => j.(control := if j.jvmShuttingDown then Gone else Aborting(j.control.cause))
    case RecordAbnormal => j.(abnormalExit := true, control := Marked(j.control.cause))
    case ExitAfterFailure => Exit(j, ControlFailure(j.control.cause)).(control := Gone)
  }

  function ApplicationDoes(j: Jvm, a: ApplicationAction): Jvm
    requires ApplicationMay(j, a)
  {
    match a
    case MainThrows => j.(application := Threw)
    case MarkAbnormal => j.(abnormalExit := true, application := MarkedAbnormal)
    case ExitAfterThrow => Exit(j, ApplicationThrew).(application := Finished)
    case CallExit(code) => Exit(j, ApplicationExit(code))
    case MainReturns => j.(application := Finished)
    case JvmEnds => Exit(j, NaturalEnd)
    case SystemEnds(status) => Exit(j, SystemShutdown(status))
  }

  function HookDoes(j: Jvm, a: HookAction): Jvm
    requires HookMay(j, a)
  {
    match a
    case HookBegins => j.(hook := Begun)
    case SetShuttingDown => j.(jvmShuttingDown := true, hook := ShuttingDown)
    case HookChecksStop => j.(hook := if j.wrapperRequestedStop then Closing else SawNoStop)
    case HookChecksAbnormal => j.(hook := if j.abnormalExit then Closing else SawNothing)
    case HookAnnounces => j.(hook := Closing)
    case HookCloses => j.(socketOpen := false, hook := Ended)
  }

  // ----- the supervisor and the channel

  /** A STOP packet on its way to the supervisor. */
  datatype Announcement = ByApplication(code: int) | ByHook

  /** What the supervisor makes of the end: the JVM's own, one it was told to bring about, or a replacement. */
  datatype Verdict = Exited(code: int) | Stopped | Replaced

  datatype Supervisor =
    | Watching
    | Asking(code: int, verdict: Verdict)   // about to send a STOP
    | Waiting(verdict: Verdict)             // the STOP was sent
    | Killing(verdict: Verdict)             // it could not be sent, or was not heeded in time
    | Decided(verdict: Verdict)

  /** How the process came to its end: by its own shutdown, by the supervisor, or from outside. */
  datatype Ending = Halted | Killed | Crashed(status: int)

  datatype State = State(
    jvm: Jvm, announced: seq<Announcement>, requests: seq<int>, taken: nat,
    linked: bool, received: nat, supervisor: Supervisor, ending: Option<Ending>)

  datatype SupervisorAction =
    | ReceiveAnnouncement | SeeExit
    | BeginStop                    // a stop taken from the control queue, or a filter's
    | BeginRestart(code: int)      // a missed deadline, a filter, or a RESTART packet
    | SendStop | FailToSend | LoseChannel | SeeExitAfterAsking | GiveUpWaiting | Kill

  datatype Action =
    | Control(control: ControlAction)
    | Application(application: ApplicationAction)
    | RequestStop(code: int)       // any thread of the application announces a stop
    | Hook(hook: HookAction)
    | Halt
    | Crash(status: int)
    | Supervisor(supervisor: SupervisorAction)

  function CodeOf(announcement: Announcement): int {
    if announcement.ByApplication? then announcement.code else 0
  }

  function ProcessStatus(s: State): int
    requires s.ending.Some? && (s.ending.value.Halted? ==> s.jvm.shutdown.Some?)
  {
    match s.ending.value
    case Halted => Status(s.jvm.shutdown.value)
    case Killed => 1
    case Crashed(status) => status
  }

  predicate SupervisorMay(s: State, a: SupervisorAction) {
    match a
    case ReceiveAnnouncement => s.supervisor == Watching && s.linked && s.received < |s.announced|
    case SeeExit => s.supervisor == Watching && s.ending.Some? && (s.ending.value.Halted? ==> s.jvm.shutdown.Some?)
    case BeginStop => s.supervisor == Watching
    case BeginRestart(_) => s.supervisor == Watching
    case SendStop => s.supervisor.Asking? && s.linked
    case FailToSend => s.supervisor.Asking?
    case LoseChannel => true
    case SeeExitAfterAsking => !s.supervisor.Watching? && !s.supervisor.Decided? && s.ending.Some?
    case GiveUpWaiting => s.supervisor.Waiting?
    case Kill => s.supervisor.Killing? && s.ending.None?
  }

  function SupervisorDoes(s: State, a: SupervisorAction): State
    requires SupervisorMay(s, a)
  {
    match a
    case ReceiveAnnouncement =>
      var code := CodeOf(s.announced[s.received]);
      s.(received := s.received + 1, supervisor := Asking(code, Exited(code)))
    case SeeExit => s.(supervisor := Decided(Exited(ProcessStatus(s))))
    case BeginStop => s.(supervisor := Asking(0, Stopped))
    case BeginRestart(code) => s.(supervisor := Asking(code, Replaced))
    case SendStop => s.(requests := s.requests + [s.supervisor.code], supervisor := Waiting(s.supervisor.verdict))
    case FailToSend => s.(linked := false, supervisor := Killing(s.supervisor.verdict))
    case LoseChannel => s.(linked := false)
    case SeeExitAfterAsking => s.(supervisor := Decided(s.supervisor.verdict))
    case GiveUpWaiting => s.(supervisor := Killing(s.supervisor.verdict))
    case Kill => s.(ending := Some(Killed))
  }

  predicate Enabled(s: State, a: Action) {
    match a
    case Control(c) => s.ending.None? && ControlMay(s.jvm, c) && (c == ReadStop ==> s.taken < |s.requests|)
    case Application(c) => s.ending.None? && ApplicationMay(s.jvm, c)
    case RequestStop(_) => s.ending.None? && s.jvm.application != NotStarted
    case Hook(c) => s.ending.None? && HookMay(s.jvm, c)
    case Halt => s.ending.None? && s.jvm.shutdown.Some? && (s.jvm.hookInstalled ==> s.jvm.hook == Ended)
    case Crash(_) => s.ending.None?
    case Supervisor(c) => SupervisorMay(s, c)
  }

  /** `sendQuietly` of a STOP packet. */
  function Announce(s: State, announcement: Announcement): State {
    if s.jvm.socketOpen then s.(announced := s.announced + [announcement]) else s
  }

  function Perform(s: State, a: Action): State
    requires Enabled(s, a)
  {
    match a
    case Control(c) =>
      if c == ReadStop then s.(jvm := ControlDoes(s.jvm, c, s.requests[s.taken]), taken := s.taken + 1)
      else s.(jvm := ControlDoes(s.jvm, c, 0))
    case Application(c) => s.(jvm := ApplicationDoes(s.jvm, c))
    case RequestStop(code) => Announce(s, ByApplication(code))
    case Hook(c) => (if c == HookAnnounces then Announce(s, ByHook) else s).(jvm := HookDoes(s.jvm, c))
    case Halt => s.(ending := Some(Halted))
    case Crash(status) => s.(ending := Some(Crashed(status)))
    case Supervisor(c) => SupervisorDoes(s, c)
  }

  // ----- interleavings

  function Initially(hookInstalled: bool): State {
    State(Jvm(hookInstalled, false, false, false, true, Reading, NotStarted, false, 0, Dormant, None),
          [], [], 0, true, 0, Watching, None)
  }

  datatype Trace = Beginning(hookInstalled: bool) | Then(past: Trace, action: Action)

  /** The state an interleaving leads to, if every action in it can happen when its turn comes. */
  function Reached(t: Trace): Option<State> {
    match t
    case Beginning(hookInstalled) => Some(Initially(hookInstalled))
    case Then(past, action) =>
      match Reached(past)
      case None => None
      case Some(s) => if Enabled(s, action) then Some(Perform(s, action)) else None
  }

  // ----- what holds in the JVM

  /** How far the hook has come. */
  predicate HookOrder(j: Jvm) {
    && (j.hook != Dormant ==> j.shutdown.Some? && j.hookInstalled)
    && (j.hook != Dormant && j.hook != Begun ==> j.jvmShuttingDown)
    && (!j.socketOpen ==> j.hook == Ended)
  }

  /** STARTED is reported at most once, and not before the application thread exists. */
  predicate StartsOnce(j: Jvm) {
    && j.startedReports <= 1
    && (j.startedReports == 1 || j.latch || j.control == Starting ==> j.application != NotStarted)
    && (j.control == Starting ==> j.startedReports == 0)
    && (j.control == Reported || j.latch ==> j.startedReports == 1)
  }

  /** A failure caused by the hook is only ever seen with the shutdown flag up, and goes no further. */
  predicate HookIsRecognised(j: Jvm) {
    && (j.control == Caught(ClosedByHook) || j.control == Unstopped(ClosedByHook) ==> j.jvmShuttingDown)
    && j.control != Aborting(ClosedByHook) && j.control != Marked(ClosedByHook)
    && j.shutdown != Some(ControlFailure(ClosedByHook))
  }

  /** Whoever begins the shutdown has recorded why. */
  predicate CauseIsRecorded(j: Jvm) {
    && (j.control.Stopping? ==> j.wrapperRequestedStop)
    && (j.control.Marked? || j.application == MarkedAbnormal ==> j.abnormalExit)
    && (j.shutdown.Some? ==>
          match j.shutdown.value
          case WrapperStop(_) => j.wrapperRequestedStop
          case ControlFailure(_) => j.abnormalExit
          case ApplicationThrew => j.abnormalExit
          case _ => true)
  }

  /** Neither the wrapper nor a failure ended the JVM: its application did, or the system. */
  predicate EndedOtherwise(j: Jvm) {
    && j.shutdown.Some?
    && !j.shutdown.value.WrapperStop? && !j.shutdown.value.ControlFailure? && !j.shutdown.value.ApplicationThrew?
  }

  /** The hook speaks only for an end that nobody else has recorded, and is silent only for a recorded cause. */
  predicate HookSpeaks(j: Jvm, spoken: bool) {
    && (j.hook == SawNoStop ==> j.shutdown.Some? && !j.shutdown.value.WrapperStop?)
    && (j.hook == SawNothing || spoken ==> EndedOtherwise(j))
    && (!j.hook.Closing? && !j.hook.Ended? ==> !spoken)
    && (j.hook.Closing? || j.hook.Ended? ==> spoken || j.wrapperRequestedStop || j.abnormalExit)
  }

  /** The JVM stops for the wrapper only when asked, and with the code it was asked for. */
  predicate Echoes(j: Jvm, asked: Option<int>) {
    && (j.control.StopRead? || j.control.Stopping? ==> asked == Some(j.control.code))
    && (j.wrapperRequestedStop ==> asked.Some?)
    && (j.shutdown.Some? && j.shutdown.value.WrapperStop? ==> asked == Some(j.shutdown.value.code))
  }

  predicate JvmConsistent(j: Jvm, spoken: bool, asked: Option<int>) {
    && HookOrder(j) && StartsOnce(j) && HookIsRecognised(j) && CauseIsRecorded(j)
    && HookSpeaks(j, spoken) && Echoes(j, asked)
  }

  /** What a step of the control thread leaves alone; it can only raise flags and begin a shutdown. */
  predicate OnlyRaises(j: Jvm, n: Jvm) {
    && n.hook == j.hook && n.hookInstalled == j.hookInstalled && n.socketOpen == j.socketOpen
    && n.jvmShuttingDown == j.jvmShuttingDown
    && (j.shutdown.Some? ==> n.shutdown == j.shutdown)
    && (j.wrapperRequestedStop ==> n.wrapperRequestedStop) && (j.abnormalExit ==> n.abnormalExit)
  }

  lemma ControlOnlyRaises(j: Jvm, a: ControlAction, code: int)
    requires ControlMay(j, a)
    ensures OnlyRaises(j, ControlDoes(j, a, code))
  {
    match a {
      case ExitAfterStop =>
      case ExitAfterFailure =>
      case TimeoutChecksShutdown(_) =>
      case MarkStop =>
      case RecordPingTimeout =>
      case RecordBadKey =>
      case RecordAbnormal =>
      case ReadStart =>
      case ReadStop =>
      case _ =>
    }
  }

  lemma ControlStartsOnce(j: Jvm, a: ControlAction, code: int)
    requires StartsOnce(j) && ControlMay(j, a)
    ensures StartsOnce(ControlDoes(j, a, code))
  {
  }

  lemma ControlKeepsRecognition(j: Jvm, a: ControlAction, code: int)
    requires HookOrder(j) && HookIsRecognised(j) && ControlMay(j, a)
    ensures HookIsRecognised(ControlDoes(j, a, code))
  {
  }

  lemma ControlKeepsCause(j: Jvm, a: ControlAction, code: int)
    requires CauseIsRecorded(j) && ControlMay(j, a)
    ensures CauseIsRecorded(ControlDoes(j, a, code))
  {
  }

  lemma ControlKeepsEcho(j: Jvm, a: ControlAction, code: int, asked: Option<int>)
    requires Echoes(j, asked) && ControlMay(j, a) && (a == ReadStop ==> asked.None?)
    ensures Echoes(ControlDoes(j, a, code), if a == ReadStop then Some(code) else asked)
  {
  }

  lemma RaisingKeepsSilence(j: Jvm, n: Jvm, spoken: bool)
    requires HookOrder(j) && HookSpeaks(j, spoken) && OnlyRaises(j, n)
    ensures HookOrder(n) && HookSpeaks(n, spoken)
  {
  }

  lemma ControlKeepsJvm(j: Jvm, a: ControlAction, code: int, spoken: bool, asked: Option<int>)
    requires JvmConsistent(j, spoken, asked) && ControlMay(j, a) && (a == ReadStop ==> asked.None?)
    ensures JvmConsistent(ControlDoes(j, a, code), spoken, if a == ReadStop then Some(code) else asked)
  {
    hide ControlDoes, ControlMay, HookOrder, StartsOnce, HookIsRecognised, CauseIsRecorded, HookSpeaks, Echoes, OnlyRaises;
    ControlOnlyRaises(j, a, code);
    ControlStartsOnce(j, a, code);
    ControlKeepsRecognition(j, a, code);
    ControlKeepsCause(j, a, code);
    ControlKeepsEcho(j, a, code, asked);
    RaisingKeepsSilence(j, ControlDoes(j, a, code), spoken);
  }

  lemma ApplicationKeepsJvm(j: Jvm, a: ApplicationAction, spoken: bool, asked: Option<int>)
    requires JvmConsistent(j, spoken, asked) && ApplicationMay(j, a)
    ensures JvmConsistent(ApplicationDoes(j, a), spoken, asked)
  {
  }

  lemma HookKeepsJvm(j: Jvm, a: HookAction, spoken: bool, asked: Option<int>)
    requires JvmConsistent(j, spoken, asked) && HookMay(j, a)
    ensures JvmConsistent(HookDoes(j, a), spoken || (a == HookAnnounces && j.socketOpen), asked)
  {
  }

  // ----- what holds of the conversation

  predicate Spoken(s: State) {
    ByHook in s.announced
  }

  /** The request that the control thread has read. */
  function Asked(s: State): Option<int> {
    if 0 < s.taken <= |s.requests| then Some(s.requests[0]) else None
  }

  predicate HasVerdict(supervisor: Supervisor) {
    !supervisor.Watching?
  }

  /** The supervisor asks at most once, and for an announced stop with the code announced. */
  predicate AsksOnce(s: State) {
    && |s.requests| <= 1 && s.taken <= |s.requests|
    && (s.supervisor.Watching? || s.supervisor.Asking? ==> s.requests == [])
    && (s.supervisor.Asking? && s.supervisor.verdict.Exited? ==> s.supervisor.verdict.code == s.supervisor.code)
    && (s.supervisor.Asking? && s.supervisor.verdict.Stopped? ==> s.supervisor.code == 0)
    && (s.requests != [] ==>
          && (s.supervisor.verdict.Exited? ==> s.requests[0] == s.supervisor.verdict.code)
          && (s.supervisor.verdict.Stopped? ==> s.requests[0] == 0))
  }

  /** An end that counts as the JVM's own was announced by it, or seen before the supervisor did anything. */
  predicate VerdictIsEarned(s: State) {
    && s.received <= 1 && s.received <= |s.announced|
    && (s.received == 1 ==>
          HasVerdict(s.supervisor) && s.supervisor.verdict == Exited(CodeOf(s.announced[0])))
    && (HasVerdict(s.supervisor) && s.supervisor.verdict.Exited? && s.received == 0 ==>
          && s.supervisor.Decided? && s.requests == [] && s.ending.Some? && !s.ending.value.Killed?
          && (s.ending.value.Halted? ==> s.jvm.shutdown.Some?) && s.supervisor.verdict.code == ProcessStatus(s))
    && (s.supervisor.Decided? ==> s.ending.Some?)
    && (s.ending == Some(Halted) ==> s.jvm.shutdown.Some?)
    && (s.ending == Some(Killed) ==> s.supervisor.Killing? || s.supervisor.Decided?)
  }

  predicate Consistent(s: State) {
    JvmConsistent(s.jvm, Spoken(s), Asked(s)) && AsksOnce(s) && VerdictIsEarned(s)
  }

  lemma JvmStepKeepsConversation(s: State, jvm: Jvm, taken: nat)
    requires AsksOnce(s) && VerdictIsEarned(s) && s.ending.None? && taken <= |s.requests|
    ensures AsksOnce(s.(jvm := jvm, taken := taken)) && VerdictIsEarned(s.(jvm := jvm, taken := taken))
  {
  }

  lemma ControlKeepsConsistency(s: State, a: ControlAction)
    requires Consistent(s) && Enabled(s, Control(a))
    ensures Consistent(Perform(s, Control(a)))
  {
    hide ControlDoes, ControlMay, JvmConsistent, VerdictIsEarned;
    if a == ReadStop {
      ControlKeepsJvm(s.jvm, a, s.requests[s.taken], Spoken(s), Asked(s));
      JvmStepKeepsConversation(s, ControlDoes(s.jvm, a, s.requests[s.taken]), s.taken + 1);
    } else {
      ControlKeepsJvm(s.jvm, a, 0, Spoken(s), Asked(s));
      JvmStepKeepsConversation(s, ControlDoes(s.jvm, a, 0), s.taken);
    }
  }

  lemma ApplicationKeepsConsistency(s: State, a: ApplicationAction)
    requires Consistent(s) && Enabled(s, Application(a))
    ensures Consistent(Perform(s, Application(a)))
  {
    hide ApplicationDoes, ApplicationMay, JvmConsistent, VerdictIsEarned;
    ApplicationKeepsJvm(s.jvm, a, Spoken(s), Asked(s));
    JvmStepKeepsConversation(s, ApplicationDoes(s.jvm, a), s.taken);
  }

  lemma AnnouncingKeepsConversation(s: State, announcement: Announcement)
    requires AsksOnce(s) && VerdictIsEarned(s)
    ensures AsksOnce(Announce(s, announcement)) && VerdictIsEarned(Announce(s, announcement))
    ensures Spoken(Announce(s, announcement)) <==> Spoken(s) || (s.jvm.socketOpen && announcement == ByHook)
  {
  }

  lemma HookKeepsConsistency(s: State, a: HookAction)
    requires Consistent(s) && Enabled(s, Hook(a))
    ensures Consistent(Perform(s, Hook(a)))
  {
    hide HookDoes, HookMay, JvmConsistent, VerdictIsEarned, AsksOnce;
    HookKeepsJvm(s.jvm, a, Spoken(s), Asked(s));
    AnnouncingKeepsConversation(s, ByHook);
    JvmStepKeepsConversation(s, HookDoes(s.jvm, a), s.taken);
    JvmStepKeepsConversation(Announce(s, ByHook), HookDoes(s.jvm, a), s.taken);
  }

  lemma SupervisorKeepsConversation(s: State, a: SupervisorAction)
    requires AsksOnce(s) && VerdictIsEarned(s) && SupervisorMay(s, a)
    ensures AsksOnce(SupervisorDoes(s, a)) && VerdictIsEarned(SupervisorDoes(s, a))
  {
  }

  lemma SupervisorKeepsConsistency(s: State, a: SupervisorAction)
    requires Consistent(s) && SupervisorMay(s, a)
    ensures Consistent(SupervisorDoes(s, a))
  {
    hide JvmConsistent;
    SupervisorKeepsConversation(s, a);
  }

  /** Every interleaving of the three threads, the system and the supervisor is consistent at every moment. */
  lemma {:induction false} AlwaysConsistent(t: Trace)
    requires Reached(t).Some?
    ensures Consistent(Reached(t).value)
  {
    if t.Then? {
      AlwaysConsistent(t.past);
      var s := Reached(t.past).value;
      match t.action {
        case Control(a) => ControlKeepsConsistency(s, a);
        case Application(a) => ApplicationKeepsConsistency(s, a);
        case RequestStop(code) =>
          hide JvmConsistent;
          AnnouncingKeepsConversation(s, ByApplication(code));
        case Hook(a) => HookKeepsConsistency(s, a);
        case Halt => hide JvmConsistent;
        case Crash(_) => hide JvmConsistent;
        case Supervisor(a) => SupervisorKeepsConsistency(s, a);
      }
    }
  }

  // ----- what this means for the wrapper

  /** Closing the socket in the hook never makes the control thread end the JVM as failed. */
  lemma TheHooksCloseIsHarmless(t: Trace)
    requires Reached(t).Some?
    ensures var j := Reached(t).value.jvm;
            j.control != Marked(ClosedByHook) && j.shutdown != Some(ControlFailure(ClosedByHook))
  {
    AlwaysConsistent(t);
  }

  /**
   * The hook announces a stop only for a JVM that neither the wrapper nor a failure ended; once it has finished, it
   * has kept silent only if a wrapper stop or an abnormal exit was recorded. Without a hook there is no announcement.
   */
  lemma TheHookSpeaksForNobodyElse(t: Trace)
    requires Reached(t).Some?
    ensures var s := Reached(t).value;
            && (Spoken(s) ==> EndedOtherwise(s.jvm))
            && (s.jvm.hook.Ended? && !Spoken(s) ==> s.jvm.wrapperRequestedStop || s.jvm.abnormalExit)
            && (!s.jvm.hookInstalled ==> !Spoken(s))
  {
    AlwaysConsistent(t);
  }

  /**
   * A JVM that ends because the wrapper told it to exits with the one code it was told. If that stop answered an
   * announcement, the code is the announced one, and so is the verdict: the code has made the round trip.
   */
  lemma TheAnnouncedCodeComesBack(t: Trace)
    requires Reached(t).Some? && Reached(t).value.jvm.shutdown.Some? && Reached(t).value.jvm.shutdown.value.WrapperStop?
    ensures var s := Reached(t).value;
            var code := s.jvm.shutdown.value.code;
            && s.requests == [code] && HasVerdict(s.supervisor)
            && (s.supervisor.verdict.Exited? ==>
                  && s.announced != [] && s.supervisor.verdict.code == code
                  && match s.announced[0]
                     case ByApplication(announced) => code == announced
                     case ByHook => code == 0)
            && (s.supervisor.verdict.Stopped? ==> code == 0)
            && (s.ending == Some(Halted) ==> ProcessStatus(s) == code)
  {
    AlwaysConsistent(t);
    var s := Reached(t).value;
    assert Asked(s) == Some(s.jvm.shutdown.value.code);
  }

  /**
   * An end that the supervisor counts as the JVM's own is over, and has the code that the JVM announced first; or it
   * has the process's own status, and then the supervisor has neither asked the JVM to stop nor killed it.
   */
  lemma TheVerdictIsTheJvms(t: Trace, code: int)
    requires Reached(t).Some? && Reached(t).value.supervisor == Decided(Exited(code))
    ensures var s := Reached(t).value;
            && s.ending.Some? && (s.ending.value.Halted? ==> s.jvm.shutdown.Some?)
            && if s.received > 0 then
                 && s.announced != []
                 && match s.announced[0]
                    case ByApplication(announced) => code == announced
                    case ByHook => code == 0
               else
                 && s.requests == []
                 && match s.ending.value
                    case Killed => false
                    case Crashed(status) => code == status
                    case Halted =>
                      match s.jvm.shutdown.value
                      case WrapperStop(_) => false
                      case ControlFailure(_) => code == 1
                      case ApplicationThrew => code == 1
                      case ApplicationExit(called) => code == called
                      case NaturalEnd => code == 0
                      case SystemShutdown(status) => code == status
  {
    AlwaysConsistent(t);
  }

  // ----- exit codes that the application does not announce

  /** The application has called `System.exit(code)`, which ended the JVM, and has announced nothing itself. */
  predicate SilentExit(s: State, code: int) {
    && s.jvm.shutdown == Some(ApplicationExit(code)) && s.ending == Some(Halted)
    && forall i :: 0 <= i < |s.announced| ==> s.announced[i] == ByHook
  }

  /** Whatever the interleaving, the end counts with this code. */
  ghost predicate AlwaysKept(hookInstalled: bool, code: int) {
    forall t: Trace, verdict :: CountsAs(t, hookInstalled, code, verdict) ==> verdict == code
  }

  /** In this interleaving the supervisor counts a silent exit with `code` as an exit with `verdict`. */
  predicate CountsAs(t: Trace, hookInstalled: bool, code: int, verdict: int) {
    && Reached(t).Some? && SilentExit(Reached(t).value, code) && Reached(t).value.jvm.hookInstalled == hookInstalled
    && Reached(t).value.supervisor == Decided(Exited(verdict))
  }

  function ExitCalled(code: int): State {
    var s := Initially(true);
    s.(jvm := s.jvm.(application := Running, latch := true, startedReports := 1, shutdown := Some(ApplicationExit(code))))
  }

  lemma ExitIsCalled(code: int) returns (t: Trace)
    ensures Reached(t) == Some(ExitCalled(code))
  {
    t := Then(Then(Beginning(true), Control(ReadStart)), Control(ReportStarted));
    t := Then(t, Control(ReleaseLatch));
    assert Reached(t) == Some(Initially(true).(jvm := Initially(true).jvm.(
      application := Running, latch := true, startedReports := 1)));
    t := Then(t, Application(CallExit(code)));
  }

  /** A JVM whose application has called `System.exit(code)` and whose hook has announced a stop. */
  function AnnouncedExit(code: int): State {
    var s := ExitCalled(code);
    s.(jvm := s.jvm.(jvmShuttingDown := true, hook := Closing), announced := [ByHook])
  }

  lemma ExitIsAnnounced(code: int) returns (t: Trace)
    ensures Reached(t) == Some(AnnouncedExit(code))
  {
    var s := ExitCalled(code);
    t := ExitIsCalled(code);
    t := Then(Then(t, Hook(HookBegins)), Hook(SetShuttingDown));
    assert Reached(t) == Some(s.(jvm := s.jvm.(jvmShuttingDown := true, hook := ShuttingDown)));
    t := Then(Then(t, Hook(HookChecksStop)), Hook(HookChecksAbnormal));
    assert Reached(t) == Some(s.(jvm := s.jvm.(jvmShuttingDown := true, hook := SawNothing)));
    t := Then(t, Hook(HookAnnounces));
    assert s.announced + [ByHook] == [ByHook];
  }

  lemma HookEnds(t: Trace, s: State) returns (u: Trace)
    requires Reached(t) == Some(s) && s.ending.None? && s.jvm.hook == Closing && s.jvm.shutdown.Some?
    ensures Reached(u) == Some(s.(jvm := s.jvm.(socketOpen := false, hook := Ended), ending := Some(Halted)))
  {
    u := Then(t, Hook(HookCloses));
    assert Reached(u) == Some(s.(jvm := s.jvm.(socketOpen := false, hook := Ended)));
    u := Then(u, Halt);
  }

  /** After `System.exit(code)` both outcomes occur: the hook's 0 and the real code. */
  lemma SystemExitCodeMayBeLost(code: int) returns (lost: Trace, kept: Trace)
    ensures CountsAs(lost, true, code, 0) && CountsAs(kept, true, code, code)
  {
    var s := AnnouncedExit(code);
    var t := ExitIsAnnounced(code);
    kept := HookEnds(t, s);
    kept := Then(kept, Supervisor(SeeExit));
    var heard := s.(received := 1, supervisor := Asking(0, Exited(0)));
    t := Then(t, Supervisor(ReceiveAnnouncement));
    assert Reached(t) == Some(heard);
    lost := HookEnds(t, heard);
    lost := Then(lost, Supervisor(SeeExitAfterAsking));
  }

  lemma SilentExitIsKept(t: Trace, code: int, verdict: int)
    requires CountsAs(t, false, code, verdict) || (code == 0 && CountsAs(t, true, code, verdict))
    ensures verdict == code
  {
    TheVerdictIsTheJvms(t, verdict);
    TheHookSpeaksForNobodyElse(t);
    var s := Reached(t).value;
    if s.received > 0 {
      assert s.announced[0] == ByHook;
    }
  }

  /**
   * The code of an unannounced `System.exit` reaches the supervisor in every interleaving if and only if it is 0 or
   * the shutdown hook is disabled.
   */
  lemma SilentExitIsKeptIff(hookInstalled: bool, code: int)
    ensures AlwaysKept(hookInstalled, code) <==> code == 0 || !hookInstalled
  {
    hide CountsAs;
    if code == 0 || !hookInstalled {
      forall t: Trace, verdict | CountsAs(t, hookInstalled, code, verdict)
        ensures verdict == code
      {
        SilentExitIsKept(t, code, verdict);
      }
    } else {
      var lost, _ := SystemExitCodeMayBeLost(code);
    }
  }
}
