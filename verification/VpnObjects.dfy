/** The three objects of the session and their slots, each proved to do one step of
    VpnSession. A slot returns the signal it emits; CloudObject delivers it. */
module VpnObjects {
  import opened Common
  import opened VpnSession
  import VpnRuns
  import Retry

  class ClientObject {
    var st: ClientState
    var err: ClientError
    var process: Option<Process>

    function View(): Client
      reads this
    {
      Client(st, err, process)
    }

    constructor ()
      ensures View() == INITIAL.client
    {
      st, err, process := Idle, NoClientError, None;
    }

    method Start(fallback: bool, launch: Launch) returns (attempted: bool, signal: Option<ClientError>)
      modifies this
      ensures (View(), attempted, signal) == ClientStart(old(View()), fallback, launch)
    {
      attempted, signal := false, None;
      if process.Some? {
        return;
      }
      if st != Idle && st != Configured {
        err := BadStateError;
        return false, Some(err);
      }
      attempted := true;
      match launch {
        case BadConfig =>
          err := ConfigError;
          signal := Some(err);
        case NotExecutable =>
          err := NotExecError;
          signal := Some(err);
        case Launchable =>
          process := Some(Process(Launching, fallback));
          st := Starting;
      }
    }

    method Stop()
      modifies this
      ensures View() == ClientStop(old(View()))
    {
      if st == Idle || process.None? {
        return;
      }
      process := None;
      st, err := Configured, NoClientError;
    }

    method Set(newState: ClientState)
      modifies this
      ensures View() == SetState(old(View()), newState)
    {
      if newState == st || newState == Exiting {
        return;
      }
      st := newState;
    }

    method OnStarted()
      requires process.Some?
      modifies this
      ensures View() == SetPhase(old(View()), Running).(st := Started)
    {
      process := Some(process.value.(phase := Running));
      st := Started;
    }

    method OnFailure(phase: Phase)
      requires process.Some?
      modifies this
      ensures View() == SetPhase(old(View()), phase).(err := ProcessError)
    {
      process := Some(process.value.(phase := phase));
      err := ProcessError;
    }
  }

  class ManagerObject {
    const config: Config
    var st: ManagerState
    var err: ManagerError
    var socket: Option<SocketPhase>
    var attachRetries: nat
    var attachTimers: nat
    var stateTimer: bool
    var connTimer: bool

    function View(): Manager
      reads this
    {
      Manager(st, err, socket, attachRetries, attachTimers, stateTimer, connTimer)
    }

    constructor (config: Config)
      ensures View() == INITIAL.manager && this.config == config
    {
      this.config := config;
      st, err, socket := Detached, NoManagerError, None;
      attachRetries, attachTimers, stateTimer, connTimer := 0, 0, false, false;
    }

    method DetachFromClient() returns (reset: bool)
      modifies this
      ensures View() == Detach(old(View()))
      ensures reset <==> old(st) == Attached || old(st) == Detaching
    {
      reset := false;
      if st == Detached {
        return;
      }
      stateTimer, connTimer, socket := false, false, None;
      if st != Attaching {
        attachRetries := 0;
        reset := true;
      }
      st, err := Detached, NoManagerError;
    }

    method AttachToClient()
      modifies this
      ensures View() == Attach(config, old(View()))
    {
      if st == Attached {
        return;
      }
      var _ := DetachFromClient();
      st := Attaching;
      socket := Some(Opening);
      stateTimer := true;
      if config.timeout > 0 {
        connTimer := true;
      }
    }

    method RetryAttach()
      requires attachTimers > 0
      modifies this
      ensures var m := old(View()).(attachTimers := old(attachTimers) - 1);
              View() == if m.st == Attaching then Attach(config, m) else m
    {
      attachTimers := attachTimers - 1;
      if st != Attaching {
        return;
      }
      AttachToClient();
    }

    method OnRefused() returns (signal: Signal)
      modifies this
      ensures var m := old(View()).(socket := Some(Broken));
              if m.attachRetries == config.maxAttachRetries then
                View() == m.(attachRetries := 0, err := SocketError) && signal == ManagerSignal(SocketError)
              else
                View() == m.(attachRetries := m.attachRetries + 1, attachTimers := m.attachTimers + 1) &&
                  signal == NoSignal
    {
      socket := Some(Broken);
      attachRetries := attachRetries + 1;
      if attachRetries - 1 == config.maxAttachRetries {
        attachRetries := 0;
        err := SocketError;
        return ManagerSignal(err);
      }
      attachTimers := attachTimers + 1;
      signal := NoSignal;
    }

    method OnSocketFailed() returns (signal: Signal)
      modifies this
      ensures var m := old(View());
              && err == (if m.err == NoManagerError then SocketError else m.err)
              && View() == m.(err := err, socket := if m.socket == Some(Opening) then Some(Broken) else m.socket)
              && signal == ManagerSignal(err)
    {
      if socket == Some(Opening) {
        socket := Some(Broken);
      }
      if err == NoManagerError {
        err := SocketError;
      }
      signal := ManagerSignal(err);
    }

    method OnStateLine(client: ClientObject, line: Line)
      modifies this, client
      ensures forall s: Session :: s.client == old(client.View()) && s.manager == old(View()) ==>
                ParseStateLine(config, s, line) == s.(client := client.View(), manager := View())
    {
      var previous := client.st;
      match LineTarget(line) {
        case Some(target) =>
          if target == Connected {
            connTimer := false;
          }
          client.Set(target);
        case None =>
      }
      if client.st != Connected && client.st != previous {
        if config.timeout > 0 {
          connTimer := true;
        }
      }
    }
  }

  class CloudObject {
    const config: Config
    const client: ClientObject
    const manager: ManagerObject
    const retry: Retry.Timer
    var isFallback: bool

    function View(): Session
      reads this, client, manager, retry
    {
      Session(client.View(), manager.View(), isFallback, retry.View())
    }

    ghost predicate Wired() {
      manager.config == config
    }

    constructor (config: Config)
      ensures View() == INITIAL && Wired() && this.config == config
      ensures fresh(client) && fresh(manager) && fresh(retry)
    {
      this.config := config;
      client := new ClientObject();
      manager := new ManagerObject(config);
      retry := new Retry.Timer();
      isFallback := false;
      new;
      retry.SetBackoffTo(2, Retry.BACKOFF_MAX);
    }

    method StopSession() returns (out: seq<Out>)
      modifies client, manager
      ensures (View(), out) == StopParts(old(View()))
    {
      var reset := manager.DetachFromClient();
      client.Stop();
      out := if reset then [CounterReset] else [];
    }

    method RestartSession(fallback: bool, force: bool) returns (out: seq<Out>)
      modifies this, client, manager, retry
      ensures (View(), out) == Restart(config, old(View()), fallback, force)
    {
      out := [];
      isFallback := fallback;
      if config.force || force {
        out := StopSession();
        retry.Begin();
        out := out + [RetryScheduled];
      }
    }

    method OnClientErr() returns (out: seq<Out>)
      modifies this, client, manager, retry
      ensures (View(), out) == ClientErr(config, old(View()))
    {
      if !isFallback && config.fallbackValid {
        out := RestartSession(true, true);
      } else {
        out := RestartSession(isFallback, false);
        out := [ErrorOut(ClientFailure)] + out;
      }
    }

    method OnManagerErr(err: ManagerError) returns (out: seq<Out>)
      modifies this, client, manager, retry
      ensures (View(), out) == ManagerErr(config, old(View()), err)
    {
      if err == ConnTimeout {
        if !isFallback && config.fallbackValid {
          out := RestartSession(true, true);
        } else {
          out := RestartSession(false, false);
          out := [ErrorOut(ClientTimeout)] + out;
        }
      } else {
        out := RestartSession(false, false);
        out := [ErrorOut(ManagerFailure)] + out;
      }
    }

    method DeliverSignal(signal: Signal) returns (out: seq<Out>)
      modifies this, client, manager, retry
      ensures (View(), out) == Deliver(config, old(View()), signal)
    {
      match signal {
        case NoSignal => out := [];
        case ClientSignal => out := OnClientErr();
        case ManagerSignal(err) => out := OnManagerErr(err);
      }
    }

    method LaunchClient(fallback: bool, launch: Launch) returns (out: seq<Out>, signal: Signal)
      modifies client
      ensures (View(), out, signal) == StartClient(old(View()), fallback, launch)
    {
      var attempted, error := client.Start(fallback, launch);
      out := if attempted then [Attempt(fallback)] else [];
      signal := if error.Some? then ClientSignal else NoSignal;
    }

    /** One event of the event loop: the slot it reaches, then the signal that slot emits. */
    method Dispatch(ev: Event) returns (out: seq<Out>)
      requires Wired() && Enabled(View(), ev)
      modifies this, client, manager, retry
      ensures (View(), out) == Step(config, old(View()), ev)
    {
      var signal := NoSignal;
      out := [];
      match ev {
        case CloudStart(fallback, launch) =>
          isFallback := fallback;
          out, signal := LaunchClient(fallback, launch);
        case CloudStop =>
          retry.Cancel();
          out := StopSession();
        case ProcStarted =>
          client.OnStarted();
          manager.AttachToClient();
        case ProcError =>
          client.OnFailure(if client.process.value.phase == Launching then Dead else Running);
          signal := ClientSignal;
        case ProcFinished =>
          client.OnFailure(Dead);
          signal := ClientSignal;
        case SocketConnected =>
          manager.st, manager.socket := Attached, Some(Open);
        case SocketDisconnected =>
          manager.st, manager.socket := Detaching, Some(Closed);
        case SocketRefused =>
          signal := manager.OnRefused();
          out := if signal.NoSignal? then [Refusal] else [Refusal, SocketErrorRaised];
        case SocketFailed =>
          signal := manager.OnSocketFailed();
        case StateLine(line) =>
          manager.OnStateLine(client, line);
        case MgmtFailure(err) =>
          manager.err := err;
          signal := ManagerSignal(err);
        case ConnTimerFires =>
          manager.connTimer, manager.err := false, ConnTimeout;
          signal := ManagerSignal(ConnTimeout);
        case AttachTimerFires =>
          manager.RetryAttach();
        case RetryFires(launch) =>
          retry.Expire();
          out, signal := LaunchClient(isFallback, launch);
      }
      assert (View(), out, signal) == Slot(config, old(View()), ev);
      var more := DeliverSignal(signal);
      out := out + more;
    }

    /** A run of a fresh object; an event that cannot occur is not delivered. */
    method Run(evs: seq<Event>) returns (log: seq<Out>)
      requires Wired() && View() == INITIAL
      modifies this, client, manager, retry
      ensures View() == State(config, evs) && log == Log(config, evs)
      ensures client.process.Some? <==> client.st != Idle && client.st != Configured
      ensures manager.st != Detached ==> client.process.Some?
      ensures manager.attachRetries == Refusals(config, evs) <= config.maxAttachRetries
      ensures manager.connTimer ==> client.st != Connected
      ensures config.force && VpnRuns.StartsAtRest(config, evs) && retry.pending.Some? ==>
                client.process.None? && manager.st == Detached
    {
      hide Step, Enabled;
      log := [];
      for i := 0 to |evs|
        invariant View() == State(config, evs[..i]) && log == Log(config, evs[..i])
      {
        assert evs[..i + 1][..i] == evs[..i];
        var out := [];
        if Enabled(View(), evs[i]) {
          out := Dispatch(evs[i]);
        } else {
          StepDisabled(config, View(), evs[i]);
        }
        log := log + out;
      }
      assert evs[..|evs|] == evs;
      InvHolds(config, evs);
      CounterIsRefusals(config, evs);
      if config.force && VpnRuns.StartsAtRest(config, evs) {
        VpnRuns.OneRetryPending(config, evs);
      }
    }
  }
}
