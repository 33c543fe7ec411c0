/** The supervisor's surroundings: processes, clock, control queue and log. All that happens is noted in the journal. */
module Hosts {
  import opened Prelude
  import opened Journals

  /** Why a step did not return normally: the system refused it, or the observed part of the run ends there. */
  datatype Cause = Io | Cut

  /** What comes of looking into the control queue. */
  datatype Polled = Received(control: Control) | Hung | NothingCame

  class Host {
    const settings: Settings
    /** Whether the system refuses nothing it is asked for. */
    const reliable: bool
    ghost var journal: Journal
    /** Monotonic time in milliseconds. */
    var now: int
    /** How many more waits the observed part of the run contains. */
    var horizon: nat
    /** Processes started and not exited, and the statuses of those that have. */
    var running: set<nat>
    var statuses: map<nat, Option<int>>
    var nextPid: nat
    /** The control queue, and whether nobody is left to send. */
    var controls: seq<Control>
    var closed: bool

    ghost function Now(): View
      reads this`journal
    {
      Look(settings, journal)
    }

    /** What stays the same while a JVM is being stopped. */
    ghost function Standing(): (Overall, bool, Option<int>, Demand, bool)
      reads this`journal
    {
      (Now().overall, Now().stopTaken, Now().current.jvmStop, Now().current.demand, Pressing(Now().due))
    }

    /** What justifies a step that does not return normally. */
    predicate Excuses(cause: Cause)
      reads this`horizon
    {
      match cause
      case Io => !reliable
      case Cut => horizon == 0
    }

    /** Whether the JVM can be reached, and when it was asked to stop. */
    ghost function Escalation(): (bool, Option<int>)
      reads this`journal
    {
      (Now().current.connected, Now().current.asked)
    }

    /** All that does not change when a control arrives. */
    ghost function Core(): (Overall, Current, set<nat>, bool, Option<int>, bool, Due)
      reads this`journal
    {
      (Now().overall, Now().current, Now().alive, Now().stopTaken, Now().inbox.resting, Now().inbox.looking, Now().due)
    }

    /**
     * Every step so far was permitted; every live process is one the journal knows to be alive, and the queue is the
     * one the journal tells of.
     */
    ghost predicate Valid()
      reads this`journal, this`running, this`controls, this`closed
    {
      && Accepted(settings, journal) && running <= Now().alive
      && controls == Now().inbox.waiting && closed == Now().inbox.closed
    }

    constructor (settings: Settings, reliable: bool, horizon: nat)
      ensures Valid() && journal == Empty && this.settings == settings && running == {}
      ensures this.reliable == reliable && controls == [] && !closed
    {
      this.settings, this.reliable, this.horizon, now, journal := settings, reliable, horizon, 0, Empty;
      running, statuses, nextPid := {}, map[], 0;
      controls, closed := [], false;
    }

    /** Whether the system refuses what it is asked for. */
    method Refuses() returns (refused: bool)
      ensures refused ==> !reliable
    {
      var whim: bool := *;
      refused := !reliable && whim;
    }

    /** Adds a step to the journal. */
    ghost method Happen(e: Entry)
      requires Accepted(settings, journal) && Permitted(settings, Now(), e)
      modifies this`journal
      ensures Accepted(settings, journal) && journal == After(old(journal), e) && Now() == Next(settings, old(Now()), e)
    {
      journal := After(journal, e);
    }

    /** Notes a step of the supervisor; what the surroundings do is noted where it happens. */
    ghost method Note(e: Entry)
      requires Valid() && Permitted(settings, Now(), e)
      requires !e.SawExit? && !e.StillRuns? && !e.Arrived? && !e.SendersLeft? && !e.Took?
      requires !e.Woke? && !e.ListenerPolled? && !e.DumpPolled?
      modifies this`journal
      ensures Valid() && journal == After(old(journal), e) && Now() == Next(settings, old(Now()), e)
    {
      journal := After(journal, e);
    }

    method Time() returns (time: int)
      modifies this`now
      ensures now >= old(now) && time == now
    {
      var later: int := *;
      now := now + Max(later, 0);
      time := now;
    }

    /** Anybody may send controls at any time, until nobody is left to. */
    method Arrivals()
      requires Valid() && !Now().overall.finished
      modifies this`journal, this`controls, this`closed
      ensures Valid() && Core() == old(Core()) && old(controls) <= controls
      ensures old(closed) ==> closed && controls == old(controls)
    {
      hide Look, Accepted;
      var more: seq<Control> := *;
      for i := 0 to if closed then 0 else |more|
        invariant Valid() && Core() == old(Core()) && old(controls) <= controls && closed == old(closed)
        invariant closed ==> controls == old(controls)
      {
        Arrive(more[i]);
      }
      var senderLeaves: bool := *;
      if senderLeaves && !closed {
        Leave();
      }
    }

    method Leave()
      requires Valid() && !Now().overall.finished && !closed
      modifies this`journal, this`closed
      ensures Valid() && Core() == old(Core()) && closed
    {
      hide Look;
      Happen(SendersLeft);
      closed := true;
    }

    method Arrive(control: Control)
      requires Valid() && !Now().overall.finished && !closed
      modifies this`journal, this`controls
      ensures Valid() && Core() == old(Core()) && controls == old(controls) + [control]
    {
      hide Look;
      Happen(Arrived(control));
      controls := controls + [control];
    }

    /** Takes the first control out of the queue. */
    method TakeControl() returns (control: Control)
      requires Valid() && controls != [] && Permitted(settings, Now(), Took(controls[0]))
      modifies this`journal, this`controls
      ensures Valid() && control == old(controls)[0] && controls == old(controls)[1..]
      ensures journal == After(old(journal), Took(control)) && Now() == Next(settings, old(Now()), Took(control))
    {
      control := controls[0];
      journal, controls := After(journal, Took(control)), controls[1..];
    }

    /** A wait during a run: it takes time, and it may be where the observed part of the run ends. */
    method Wait(atLeast: nat) returns (r: Result<(), Cause>)
      requires Valid() && Now().overall.inRun && !Now().overall.finished
      modifies this`now, this`horizon, this`journal, this`controls, this`closed
      ensures Valid() && Core() == old(Core()) && old(controls) <= controls
      ensures r.Success? ==> horizon < old(horizon) && now >= old(now) + atLeast
      ensures r.Failure? ==> now == old(now) && horizon == old(horizon) && Excuses(r.error)
    {
      if horizon == 0 {
        return Failure(Cut);
      }
      horizon := horizon - 1;
      var later: int := *;
      now := now + atLeast + Max(later, 0);
      Arrivals();
      return Success(());
    }

    /**
     * `recv_timeout` during a delay: a control that waits is taken at once, the first one first; otherwise it takes the
     * first to arrive in time, if any does.
     */
    method PollControls() returns (r: Result<Polled, Cause>)
      requires Valid() && !Now().overall.finished && !Now().overall.inRun && Now().inbox.looking && !Now().stopTaken
      modifies this`now, this`horizon, this`journal, this`controls, this`closed
      ensures Valid() && now >= old(now) && Now().overall == old(Now().overall)
      ensures r.Failure? ==> r.error == Cut && horizon == old(horizon) == 0 && journal == old(journal)
      ensures r.Success? ==>
                && horizon < old(horizon) && !Now().inbox.looking && Now().inbox.resting == old(Now().inbox.resting)
                && Now().alive == old(Now().alive)
                && (Now().stopTaken <==> r.value.Hung? || (r.value.Received? && IsStop(r.value.control)))
      ensures r.Success? && old(controls) != [] ==> r.value == Received(old(controls)[0])
    {
      if horizon == 0 {
        return Failure(Cut);
      }
      horizon := horizon - 1;
      var later: int := *;
      now := now + Max(later, 0);
      hide Look, Permitted;
      Arrivals();
      var polled := Examine();
      return Success(polled);
    }

    /** What is in the queue at this moment. */
    method Examine() returns (polled: Polled)
      requires Valid() && !Now().overall.finished && !Now().overall.inRun && Listens(settings, Now()) && !Now().stopTaken
      modifies this`journal, this`controls
      ensures Valid() && Now().overall == old(Now().overall) && Now().alive == old(Now().alive)
      ensures Now().inbox.resting == old(Now().inbox.resting) && !Now().inbox.looking
      ensures polled == if old(controls) != [] then Received(old(controls)[0]) else if closed then Hung else NothingCame
      ensures Now().stopTaken <==> polled.Hung? || (polled.Received? && IsStop(polled.control))
      ensures polled.Received? ==> journal == After(old(journal), Took(polled.control))
      ensures polled.NothingCame? && !old(Now().inbox.looking) ==> journal == old(journal)
    {
      if controls != [] {
        var control := TakeControl();
        return Received(control);
      }
      if closed {
        Note(ControlsClosed);
        return Hung;
      }
      if Now().inbox.looking {
        Note(TimedOut);
      }
      return NothingCame;
    }

    /** `recv` while paused: waits until there is a control, or nobody who could send one. */
    method ReceiveControl() returns (r: Result<Polled, Cause>)
      requires Valid() && !Now().overall.finished && IsPaused(settings, Now()) && !Now().inbox.looking && !Now().stopTaken
      modifies this`now, this`horizon, this`journal, this`controls, this`closed
      ensures Valid() && now >= old(now) && horizon <= old(horizon) && Now().overall == old(Now().overall)
      ensures r.Failure? ==> r.error == Cut && horizon == 0
      ensures r.Success? ==>
                && horizon < old(horizon) && !r.value.NothingCame?
                && !Now().inbox.looking && Now().inbox.resting == old(Now().inbox.resting)
                && Now().alive == old(Now().alive)
                && (Now().stopTaken <==> r.value.Hung? || IsStop(r.value.control))
                && (r.value.Received? ==> journal.After? && journal.entry == Took(r.value.control))
      ensures r.Success? && old(controls) != [] ==> r.value == Received(old(controls)[0])
    {
      hide Look, Permitted;
      while true
        invariant Valid() && Core() == old(Core()) && now >= old(now) && horizon <= old(horizon)
        invariant old(controls) <= controls
        decreases horizon
      {
        if horizon == 0 {
          return Failure(Cut);
        }
        horizon := horizon - 1;
        var later: int := *;
        now := now + Max(later, 0);
        Arrivals();
        if controls != [] || closed {
          var polled := Examine();
          return Success(polled);
        }
      }
    }

    /** Writes a record other than the stopped marker; the log may be unwritable. */
    method Log() returns (r: Result<(), Cause>)
      ensures r.Failure? ==> r.error == Io && !reliable
    {
      var refused := Refuses();
      return if refused then Failure(Io) else Success(());
    }

    method LogStopped() returns (r: Result<(), Cause>)
      requires Valid() && Permitted(settings, Now(), StoppedMarker)
      modifies this`journal
      ensures Valid()
      ensures journal == if r.Success? then After(old(journal), StoppedMarker) else old(journal)
      ensures r.Failure? ==> Excuses(r.error)
    {
      var _ :- Log();
      Note(StoppedMarker);
      return Success(());
    }

    // ----- what happens to a running JVM

    /** What the event loop is woken by next; with nothing else to see to there is always a tick. */
    method Wake(outputOpen: bool, connected: bool) returns (wakeup: Wakeup)
      requires Valid() && Now().overall.inRun && !Now().overall.finished && Now().current.launched && Settled(Now().due)
      requires !Now().stopTaken && Now().current.demand.NoDemand? && Now().current.jvmStop.None?
      requires Now().current.status.None? && Now().current.asked.None?
      requires outputOpen == Now().current.outputOpen && connected == Now().current.connected
      modifies this`journal
      ensures Valid() && journal == After(old(journal), Woke(wakeup)) && CanWake(old(Now()), wakeup)
      ensures Now() == Next(settings, old(Now()), Woke(wakeup))
    {
      hide Look;
      wakeup := *;
      var possible :=
        match wakeup
        case Output(lines) => outputOpen && 0 < |lines| <= 1 + OUTPUT_BATCH
        case OutputClosed => outputOpen
        case ControlArrived => controls != []
        case ControlChannelClosed => controls == [] && closed
        case Protocol(_) => connected
        case Tick => true;
      if !possible {
        wakeup := Tick;
      }
      Happen(Woke(wakeup));
    }

    /** Whether a JVM has presented the key at the listening socket. */
    method PollListener() returns (r: Result<bool, Cause>)
      requires Valid() && !Now().overall.finished && Now().due.DueTick?
      requires Now().current.launched && !Now().current.connected
      modifies this`journal
      ensures Now() == if r.Success? then Next(settings, old(Now()), ListenerPolled(r.value)) else old(Now())
      ensures Valid() && journal == if r.Success? then After(old(journal), ListenerPolled(r.value)) else old(journal)
      ensures r.Failure? ==> Excuses(r.error)
    {
      var refused := Refuses();
      if refused {
        return Failure(Io);
      }
      var somebody: bool := *;
      journal := After(journal, ListenerPolled(somebody));
      return Success(somebody);
    }

    /** Whether the heap dump that is under way has come to its end. */
    method PollDump() returns (complete: bool)
      requires Valid() && !Now().overall.finished && Now().current.dumping
      modifies this`journal
      ensures Now() == Next(settings, old(Now()), DumpPolled(complete))
      ensures Valid() && journal == After(old(journal), DumpPolled(complete))
    {
      complete := *;
      journal := After(journal, DumpPolled(complete));
    }

    method Spawn() returns (pid: Option<nat>)
      requires Valid() && Now().overall.inRun && !Now().current.launched && Now().alive == {} && !Now().overall.finished
      requires !Now().stopTaken
      modifies this`running, this`nextPid, this`journal
      ensures Valid()
      ensures reliable ==> pid.Some?
      ensures pid.None? ==> journal == old(journal)
      ensures pid.Some? ==> journal == After(old(journal), Launched(pid.value, now))
      ensures Now().overall == old(Now().overall) && Now().inbox == old(Now().inbox) && !Now().stopTaken
      ensures Now().alive == if pid.Some? then {pid.value} else {}
    {
      var refused := Refuses();
      if refused {
        return None;
      }
      Note(Launched(nextPid, now));
      running := running + {nextPid};
      nextPid := nextPid + 1;
      return Some(nextPid - 1);
    }

    /** `try_wait`: a process may exit at any moment, and once seen its status stays. */
    method TryWait(pid: nat) returns (r: Result<Option<Option<int>>, Cause>)
      requires Valid() && !Now().overall.finished
      modifies this`running, this`statuses, this`journal
      ensures Valid()
      ensures r.Success? && r.value.Some? ==> journal == After(old(journal), SawExit(pid, r.value.value))
      ensures r.Success? && r.value.None? ==> journal == After(old(journal), StillRuns(pid))
      ensures r.Success? ==>
                Now() == Next(settings, old(Now()), if r.value.Some? then SawExit(pid, r.value.value) else StillRuns(pid))
      ensures r.Failure? ==> journal == old(journal) && Excuses(r.error)
    {
      var refused := Refuses();
      if refused {
        return Failure(Io);
      }
      hide Look, Permitted;
      if pid in running {
        var exited: bool := *;
        if !exited {
          NothingForbids(settings, Now(), StillRuns(pid));
          Happen(StillRuns(pid));
          return Success(None);
        }
        var status: Option<int> := *;
        statuses := statuses[pid := status];
      }
      var final := Reap(pid);
      return Success(Some(final));
    }

    /** The status of a process that has exited is there to be seen. */
    method Reap(pid: nat) returns (status: Option<int>)
      requires Valid() && !Now().overall.finished
      modifies this`running, this`statuses, this`journal
      ensures Valid() && journal == After(old(journal), SawExit(pid, status))
      ensures Now() == Next(settings, old(Now()), SawExit(pid, status))
    {
      hide Look, Permitted;
      if pid !in statuses {
        statuses := statuses[pid := None];
      }
      status := statuses[pid];
      NothingForbids(settings, Now(), SawExit(pid, status));
      Happen(SawExit(pid, status));
      running := running - {pid};
    }

    method Kill(pid: nat) returns (r: Result<(), Cause>)
      requires Valid() && Permitted(settings, Now(), Killed(now))
      modifies this`journal
      ensures Valid()
      ensures journal == if r.Success? then After(old(journal), Killed(now)) else old(journal)
      ensures Now() == old(Now()) && (r.Failure? ==> Excuses(r.error))
    {
      var refused := Refuses();
      if refused {
        return Failure(Io);
      }
      Note(Killed(now));
      return Success(());
    }

    /** `wait`: blocks until the process has exited. */
    method WaitFor(pid: nat) returns (r: Result<(), Cause>)
      requires Valid() && !Now().overall.finished
      modifies this`running, this`statuses, this`journal
      ensures Valid()
      ensures r.Failure? ==> journal == old(journal) && Excuses(r.error)
      ensures r.Success? ==> exists status ::
                && journal == After(old(journal), SawExit(pid, status))
                && Now() == Next(settings, old(Now()), SawExit(pid, status))
    {
      var refused := Refuses();
      if refused {
        return Failure(Io);
      }
      if pid in running {
        var status: Option<int> := *;
        statuses := statuses[pid := status];
      }
      var _ := Reap(pid);
      return Success(());
    }
  }
}
