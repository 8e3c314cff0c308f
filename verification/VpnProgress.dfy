/** What the VPN session does get done: over every run, what each event brings about. */
module VpnProgress {
  import opened Common
  import opened VpnSession
  import opened VpnRuns
  import Retry

  lemma NextEvent(c: Config, evs: seq<Event>, ev: Event)
    ensures State(c, evs + [ev]) == Step(c, State(c, evs), ev).0
    ensures LastOut(c, evs + [ev]) == Step(c, State(c, evs), ev).1
  {
    hide Step;
    assert (evs + [ev])[..|evs|] == evs;
  }

  // ---- starting and attaching ----

  /** A start or a retry that finds no process launches one, of the configuration it asks for. */
  lemma StartLaunches(c: Config, evs: seq<Event>, fallback: bool)
    requires State(c, evs).client.process.None?
    ensures var s := State(c, evs + [CloudStart(fallback, Launchable)]);
            && s.client.process == Some(Process(Launching, fallback)) && s.client.st == Starting
            && s.isFallback == fallback && LastOut(c, evs + [CloudStart(fallback, Launchable)]) == [Attempt(fallback)]
    ensures State(c, evs).retry.pending.Some? ==>
              var s, mode := State(c, evs + [RetryFires(Launchable)]), State(c, evs).isFallback;
              && s.client.process == Some(Process(Launching, mode)) && s.client.st == Starting
              && LastOut(c, evs + [RetryFires(Launchable)]) == [Attempt(mode)] && s.retry.pending.None?
  {
    InvHolds(c, evs);
    NextEvent(c, evs, CloudStart(fallback, Launchable));
    NextEvent(c, evs, RetryFires(Launchable));
    hide State;
  }

  /** A process that started has the manager attaching to it, with its timers running. */
  lemma StartedAttaches(c: Config, evs: seq<Event>)
    requires Enabled(State(c, evs), ProcStarted)
    ensures var s := State(c, evs + [ProcStarted]);
            && s.client.st == Started && s.client.process.Some? && s.client.process.value.phase == Running
            && s.manager.st == Attaching && s.manager.socket == Some(Opening)
            && s.manager.stateTimer && (s.manager.connTimer <==> c.timeout > 0)
  {
    InvHolds(c, evs);
    NextEvent(c, evs, ProcStarted);
    hide State;
  }

  ghost predicate RunningIsWatched(c: Config, s: Session) {
    && (s.client.process.Some? && s.client.process.value.phase == Running ==> s.manager.st != Detached)
    && (c.timeout > 0 && s.manager.st != Detached && s.client.st != Connected && s.manager.err == NoManagerError ==>
          s.manager.connTimer)
  }

  lemma SlotKeepsWatch(c: Config, s: Session, ev: Event)
    requires Inv(c, s) && Enabled(s, ev) && RunningIsWatched(c, s)
    ensures var (s', out, signal) := Slot(c, s, ev);
            RunningIsWatched(c, s')
  {
  }

  lemma DeliverKeepsWatch(c: Config, s: Session, signal: Signal)
    requires Inv(c, s) && RunningIsWatched(c, s)
    ensures RunningIsWatched(c, Deliver(c, s, signal).0)
  {
  }

  /** In every run a running process has a manager that is not detached; and with a timeout
      set, the connection timer runs as long as the tunnel is not up and nothing has failed. */
  lemma {:induction false} RunningIsAttached(c: Config, evs: seq<Event>)
    ensures RunningIsWatched(c, State(c, evs))
  {
    if evs != [] {
      var before, ev := evs[..|evs| - 1], evs[|evs| - 1];
      RunningIsAttached(c, before);
      InvHolds(c, before);
      var s := State(c, before);
      if Enabled(s, ev) {
        SlotKeepsInv(c, s, ev);
        SlotKeepsWatch(c, s, ev);
        DeliverKeepsWatch(c, Slot(c, s, ev).0, Slot(c, s, ev).2);
        hide Slot, Deliver, Inv, RunningIsWatched, Enabled;
      }
    }
  }

  /** A refusal within the bound is tried again: it leaves a timer, and when that fires the
      manager opens a socket, unless it was taken down in the meantime. */
  lemma RefusalIsRetried(c: Config, evs: seq<Event>)
    requires Enabled(State(c, evs), SocketRefused) && State(c, evs).manager.attachRetries < c.maxAttachRetries
    ensures var s := State(c, evs + [SocketRefused]);
            s.manager.attachTimers > 0 && s.manager.attachRetries == State(c, evs).manager.attachRetries + 1 &&
            s.manager.st == Attaching && LastOut(c, evs + [SocketRefused]) == [Refusal]
    ensures State(c, evs + [SocketRefused] + [AttachTimerFires]).manager.socket == Some(Opening)
    ensures State(c, evs + [SocketRefused] + [AttachTimerFires]).manager.attachRetries ==
            State(c, evs).manager.attachRetries + 1
  {
    InvHolds(c, evs);
    NextEvent(c, evs, SocketRefused);
    NextEvent(c, evs + [SocketRefused], AttachTimerFires);
    hide State;
  }

  // ---- the management lines ----

  /** Each line of the management socket takes the client to the state it names; the line of
      an exiting process, and any other, leaves it. */
  lemma LineMoves(c: Config, evs: seq<Event>, line: Line)
    requires Enabled(State(c, evs), StateLine(line))
    ensures var before, after := State(c, evs), State(c, evs + [StateLine(line)]);
            && after.client.st ==
               (match line
                case ConnectingLine => Connecting
                case WaitLine => WaitingResponse
                case AuthLine => Authenticating
                case GetConfigLine => DownloadingConfiguration
                case AssignIpLine => AssigningIP
                case AddRoutesLine => AddingRoutes
                case ConnectedLine => Connected
                case ExitingLine => before.client.st
                case OtherLine => before.client.st)
            && after == before.(client := after.client, manager := after.manager)
            && after.client == before.client.(st := after.client.st)
            && after.manager == before.manager.(connTimer := after.manager.connTimer)
            && (after.client.st != Connected && after.client.st != before.client.st ==>
                  (after.manager.connTimer <==> before.manager.connTimer || c.timeout > 0))
            && (after.client.st == Connected ==> !after.manager.connTimer)
  {
    InvHolds(c, evs);
    InvHolds(c, evs + [StateLine(line)]);
    NextEvent(c, evs, StateLine(line));
    hide State;
  }

  /** From an opening socket, a connection and the line that says so bring the tunnel up, with
      the connection timer off. */
  lemma ReachesConnected(c: Config, evs: seq<Event>)
    requires State(c, evs).manager.socket == Some(Opening)
    ensures var s := State(c, evs + [SocketConnected] + [StateLine(ConnectedLine)]);
            && s.client.st == Connected && s.manager.st == Attached && s.manager.socket == Some(Open)
            && !s.manager.connTimer
  {
    NextEvent(c, evs, SocketConnected);
    assert State(c, evs + [SocketConnected]).manager.socket == Some(Open);
    LineMoves(c, evs + [SocketConnected], ConnectedLine);
    hide State;
  }

  // ---- stopping ----

  /** After a stop there is no process, the manager is detached with every timer of its own
      off, and no retry is pending. A session that ran is configured and free of errors; only
      the timers of earlier refusals run on. */
  lemma StopTakesDown(c: Config, evs: seq<Event>)
    ensures var s := State(c, evs + [CloudStop]);
            && s.client.process.None? && s.manager.st == Detached && s.manager.socket.None?
            && !s.manager.stateTimer && !s.manager.connTimer && s.retry.pending.None? && s.retry.backoff == 1
            && s.isFallback == State(c, evs).isFallback
            && (State(c, evs).client.process.Some? ==> s.client == Client(Configured, NoClientError, None))
            && (State(c, evs).manager.st != Detached ==> s.manager.err == NoManagerError)
            && s.manager.attachTimers == State(c, evs).manager.attachTimers
    ensures !Failed(LastOut(c, evs + [CloudStop]))
  {
    InvHolds(c, evs);
    NextEvent(c, evs, CloudStop);
    hide State;
  }

  // ---- failures ----

  /** Whether a failure is kept from the user, because a fallback is there to be tried. */
  predicate TurnsToFallback(c: Config, s: Session) {
    !s.isFallback && c.fallbackValid
  }

  // How a failure ends: in silence with a retry of the fallback, or as an error that goes out
  // with a retry of the given mode when retries are forced.
  ghost predicate Handled(c: Config, s: Session, out: seq<Out>, silent: bool, failure: Failure, mode: bool) {
    && (silent ==> s.isFallback && (forall i :: 0 <= i < |out| ==> !out[i].ErrorOut?) && RetryScheduled in out)
    && (!silent ==> s.isFallback == mode && ErrorOut(failure) in out && (RetryScheduled in out <==> c.force))
    && (RetryScheduled in out ==>
          s.retry.pending.Some? && s.client.process.None? && s.manager.st == Detached)
    && (RetryScheduled !in out ==> s.client.process.Some?)
  }

  lemma ClientErrHandled(c: Config, s: Session)
    requires Inv(c, s) && s.client.process.Some?
    ensures Handled(c, ClientErr(c, s).0, ClientErr(c, s).1, TurnsToFallback(c, s), ClientFailure, s.isFallback)
  {
    var out := ClientErr(c, s).1;
    assert RetryScheduled in out || out == [ErrorOut(ClientFailure)] by {
      assert c.force || TurnsToFallback(c, s) ==> out[|out| - 1] == RetryScheduled;
      assert !c.force && !TurnsToFallback(c, s) ==> out == [ErrorOut(ClientFailure)];
    }
    assert !TurnsToFallback(c, s) ==> out[0] == ErrorOut(ClientFailure);
  }

  lemma ManagerErrHandled(c: Config, s: Session, err: ManagerError)
    requires Inv(c, s) && s.client.process.Some?
    ensures Handled(c, ManagerErr(c, s, err).0, ManagerErr(c, s, err).1, err == ConnTimeout && TurnsToFallback(c, s),
                    if err == ConnTimeout then ClientTimeout else ManagerFailure, false)
  {
    var out, silent := ManagerErr(c, s, err).1, err == ConnTimeout && TurnsToFallback(c, s);
    var failure := if err == ConnTimeout then ClientTimeout else ManagerFailure;
    assert c.force || silent ==> out[|out| - 1] == RetryScheduled;
    assert !c.force && !silent ==> out == [ErrorOut(failure)];
    assert !silent ==> out[0] == ErrorOut(failure);
  }

  /** What is done about the failure of a process, in every run: the primary turns to a valid
      fallback in silence, anything else goes out as an error, and stays in its mode. */
  lemma ProcessFailureHandled(c: Config, evs: seq<Event>, ev: Event)
    requires (ev.ProcError? || ev.ProcFinished?) && Enabled(State(c, evs), ev)
    ensures Handled(c, State(c, evs + [ev]), LastOut(c, evs + [ev]), TurnsToFallback(c, State(c, evs)),
                    ClientFailure, State(c, evs).isFallback)
  {
    InvHolds(c, evs);
    NextEvent(c, evs, ev);
    var s := State(c, evs);
    hide State, LastOut;
    SlotKeepsInv(c, s, ev);
    var s' := Slot(c, s, ev).0;
    assert Slot(c, s, ev).1 == [] && Slot(c, s, ev).2 == ClientSignal && s'.isFallback == s.isFallback;
    ClientErrHandled(c, s');
    assert [] + ClientErr(c, s').1 == ClientErr(c, s').1;
    hide Slot, ClientErr, Inv, Handled, Enabled;
  }

  /** Unless the session is taken down, a failure ends the process only if it was about to be
      launched; a running one runs on until it finishes. */
  lemma ProcessEnds(c: Config, evs: seq<Event>, ev: Event)
    requires (ev.ProcError? || ev.ProcFinished?) && Enabled(State(c, evs), ev)
    requires !c.force && !TurnsToFallback(c, State(c, evs))
    ensures var before, after := State(c, evs), State(c, evs + [ev]);
            var process := before.client.process.value;
            var ended := if ev.ProcError? && process.phase == Running then process else process.(phase := Dead);
            after == before.(client := before.client.(err := ProcessError, process := Some(ended)))
  {
    NextEvent(c, evs, ev);
    var s := State(c, evs);
    hide State, LastOut;
    var s' := Slot(c, s, ev).0;
    assert Slot(c, s, ev).2 == ClientSignal && s'.isFallback == s.isFallback;
    assert ClientErr(c, s').0 == s';
  }

  lemma TimesOut(c: Config, s: Session)
    requires Inv(c, s) && s.manager.connTimer
    ensures var s' := Step(c, s, ConnTimerFires).0;
            && !s'.manager.connTimer
            && (!c.force && !TurnsToFallback(c, s) ==>
                  s' == s.(isFallback := false, manager := s.manager.(err := ConnTimeout, connTimer := false)))
  {
  }

  /** The same for a connection timeout: the fallback's goes out and turns to the primary. It
      fires once, and without a restart the session goes on with the error noted. */
  lemma TimeoutHandled(c: Config, evs: seq<Event>)
    requires State(c, evs).manager.connTimer
    ensures Handled(c, State(c, evs + [ConnTimerFires]), LastOut(c, evs + [ConnTimerFires]),
                    TurnsToFallback(c, State(c, evs)), ClientTimeout, false)
    ensures !State(c, evs + [ConnTimerFires]).manager.connTimer
    ensures !c.force && !TurnsToFallback(c, State(c, evs)) ==>
              var before, after := State(c, evs), State(c, evs + [ConnTimerFires]);
              after == before.(isFallback := false, manager := before.manager.(err := ConnTimeout, connTimer := false))
  {
    InvHolds(c, evs);
    NextEvent(c, evs, ConnTimerFires);
    TimesOut(c, State(c, evs));
    var s := State(c, evs);
    hide State, LastOut;
    SlotKeepsInv(c, s, ConnTimerFires);
    var s' := Slot(c, s, ConnTimerFires).0;
    assert Slot(c, s, ConnTimerFires).2 == ManagerSignal(ConnTimeout) && s'.isFallback == s.isFallback;
    ManagerErrHandled(c, s', ConnTimeout);
    assert [] + ManagerErr(c, s', ConnTimeout).1 == ManagerErr(c, s', ConnTimeout).1;
    hide Slot, ManagerErr, Inv, Handled, Enabled;
  }

  /** Without a restart a failure of the manager leaves everything but the mode, its error, and
      a socket that was opening. */
  lemma ManagerGoesOn(c: Config, evs: seq<Event>, ev: Event)
    requires (ev.SocketFailed? || ev.MgmtFailure?) && Enabled(State(c, evs), ev) && !c.force
    requires !TurnsToFallback(c, State(c, evs))
    ensures var before, after := State(c, evs), State(c, evs + [ev]);
            && after == before.(isFallback := false,
                                manager := before.manager.(err := after.manager.err, socket := after.manager.socket))
            && after.manager.socket ==
               (if ev.SocketFailed? && before.manager.socket == Some(Opening) then Some(Broken)
                else before.manager.socket)
            && after.manager.err ==
               (if ev.MgmtFailure? then ev.err
                else if before.manager.err == NoManagerError then SocketError else before.manager.err)
  {
    NextEvent(c, evs, ev);
    hide State, LastOut;
  }

  /** The same for a failure of the management socket or its protocol: it goes out at once and
      turns to the primary. A socket that fails after a timeout repeats the timeout. */
  lemma ManagerFailureHandled(c: Config, evs: seq<Event>, ev: Event)
    requires (ev.SocketFailed? || ev.MgmtFailure?) && Enabled(State(c, evs), ev)
    ensures var again := ev.SocketFailed? && State(c, evs).manager.err == ConnTimeout;
            Handled(c, State(c, evs + [ev]), LastOut(c, evs + [ev]), again && TurnsToFallback(c, State(c, evs)),
                    if again then ClientTimeout else ManagerFailure, false)
  {
    InvHolds(c, evs);
    NextEvent(c, evs, ev);
    var s := State(c, evs);
    hide State, LastOut;
    SlotKeepsInv(c, s, ev);
    var (s', out, signal) := Slot(c, s, ev);
    assert out == [] && signal.ManagerSignal? && s'.isFallback == s.isFallback;
    assert signal.err == ConnTimeout <==> ev.SocketFailed? && s.manager.err == ConnTimeout;
    ManagerErrHandled(c, s', signal.err);
    assert [] + ManagerErr(c, s', signal.err).1 == ManagerErr(c, s', signal.err).1;
    hide Slot, ManagerErr, Inv, Handled, Enabled;
  }

  /** The refusal past the bound goes out as a failure of the manager. */
  lemma LastRefusalHandled(c: Config, evs: seq<Event>)
    requires Enabled(State(c, evs), SocketRefused) && State(c, evs).manager.attachRetries == c.maxAttachRetries
    ensures Handled(c, State(c, evs + [SocketRefused]), LastOut(c, evs + [SocketRefused]), false, ManagerFailure, false)
  {
    InvHolds(c, evs);
    NextEvent(c, evs, SocketRefused);
    var s := State(c, evs);
    hide State, LastOut;
    SlotKeepsInv(c, s, SocketRefused);
    var s' := Slot(c, s, SocketRefused).0;
    var first := [Refusal, SocketErrorRaised];
    assert Slot(c, s, SocketRefused) == (s', first, ManagerSignal(SocketError));
    ManagerErrHandled(c, s', SocketError);
    MoreOut(c, first, ManagerErr(c, s', SocketError).1, ManagerErr(c, s', SocketError).0, ManagerFailure);
    hide Slot, ManagerErr, Inv, Handled, Enabled;
  }

  lemma MoreOut(c: Config, first: seq<Out>, out: seq<Out>, s: Session, failure: Failure)
    requires first == [Refusal, SocketErrorRaised] && Handled(c, s, out, false, failure, false)
    ensures Handled(c, s, first + out, false, failure, false)
  {
  }

  /** A launch that cannot be made, for want of arguments or of an executable: nothing runs,
      and it is handled like the failure of a process in the mode asked for. */
  lemma LaunchFailureHandled(c: Config, evs: seq<Event>, fallback: bool, launch: Launch)
    requires State(c, evs).client.process.None? && launch != Launchable
    ensures var ev := CloudStart(fallback, launch);
            var s, out := State(c, evs + [ev]), LastOut(c, evs + [ev]);
            && s.client.process.None? && out != [] && out[0] == Attempt(fallback)
            && (!fallback && c.fallbackValid ==>
                  s.isFallback && RetryScheduled in out && forall i :: 0 <= i < |out| ==> !out[i].ErrorOut?)
            && (fallback || !c.fallbackValid ==>
                  s.isFallback == fallback && ErrorOut(ClientFailure) in out && (RetryScheduled in out <==> c.force))
  {
    InvHolds(c, evs);
    var ev := CloudStart(fallback, launch);
    NextEvent(c, evs, ev);
    var s := State(c, evs);
    hide State, LastOut;
    var s' := Slot(c, s, ev).0;
    assert Slot(c, s, ev).1 == [Attempt(fallback)] && Slot(c, s, ev).2 == ClientSignal && s'.isFallback == fallback;
    SlotKeepsInv(c, s, ev);
    ClientErrWithoutProcess(c, s');
    assert Step(c, s, ev) == (ClientErr(c, s').0, [Attempt(fallback)] + ClientErr(c, s').1);
    hide Slot, ClientErr, Inv, Enabled, Step;
  }

  lemma ClientErrWithoutProcess(c: Config, s: Session)
    requires Inv(c, s) && s.client.process.None?
    ensures var (s', out) := ClientErr(c, s);
            && s'.client.process.None?
            && (TurnsToFallback(c, s) ==>
                  s'.isFallback && RetryScheduled in out && forall i :: 0 <= i < |out| ==> !out[i].ErrorOut?)
            && (!TurnsToFallback(c, s) ==>
                  && s'.isFallback == s.isFallback && ErrorOut(ClientFailure) in out
                  && (RetryScheduled in out <==> c.force))
  {
    var out := ClientErr(c, s).1;
    assert c.force || TurnsToFallback(c, s) ==> out[|out| - 1] == RetryScheduled;
    assert !c.force && !TurnsToFallback(c, s) ==> out == [ErrorOut(ClientFailure)];
    assert !TurnsToFallback(c, s) ==> out[0] == ErrorOut(ClientFailure);
  }

  // ---- the configuration that runs ----

  lemma SlotRunsAttempted(c: Config, s: Session, ev: Event, tried: seq<bool>)
    requires Inv(c, s) && Enabled(s, ev)
    requires s.client.process.Some? ==> tried != [] && s.client.process.value.fallback == tried[|tried| - 1]
    ensures var (s', out, signal) := Slot(c, s, ev);
            s'.client.process.Some? ==>
              tried + Tried(out) != [] &&
              s'.client.process.value.fallback == (tried + Tried(out))[|tried + Tried(out)| - 1]
  {
  }

  lemma DeliverKeepsProcess(c: Config, s: Session, signal: Signal)
    ensures var (s', out) := Deliver(c, s, signal);
            && (s'.client.process.Some? ==> s'.client.process == s.client.process)
            && Tried(out) == []
  {
  }

  /** In every run the process that exists runs the configuration of the last attempt. */
  lemma {:induction false} RunsLastAttempt(c: Config, evs: seq<Event>)
    ensures var process, tried := State(c, evs).client.process, Attempts(c, evs);
            process.Some? ==> tried != [] && process.value.fallback == tried[|tried| - 1]
  {
    if evs != [] {
      var before, ev := evs[..|evs| - 1], evs[|evs| - 1];
      RunsLastAttempt(c, before);
      InvHolds(c, before);
      StepRunsAttempted(c, State(c, before), ev, Attempts(c, before));
      hide Step, Inv, Tried;
      assert LastOut(c, evs) == Step(c, State(c, before), ev).1;
    }
  }

  lemma StepRunsAttempted(c: Config, s: Session, ev: Event, tried: seq<bool>)
    requires Inv(c, s)
    requires s.client.process.Some? ==> tried != [] && s.client.process.value.fallback == tried[|tried| - 1]
    ensures var (s', out) := Step(c, s, ev);
            s'.client.process.Some? ==>
              tried + Tried(out) != [] &&
              s'.client.process.value.fallback == (tried + Tried(out))[|tried + Tried(out)| - 1]
  {
    hide Slot, Deliver, Inv, Enabled;
    if Enabled(s, ev) {
      SlotRunsAttempted(c, s, ev, tried);
      var (s', out, signal) := Slot(c, s, ev);
      DeliverKeepsProcess(c, s', signal);
      var more := Deliver(c, s', signal).1;
      assert out == [] ==> out + more == more;
      assert Tried(out + more) == Tried(out);
    } else {
      assert tried + [] == tried;
    }
  }

  // ---- the delays of the retries ----

  // Retries scheduled since the last stop.
  function Scheduled(c: Config, evs: seq<Event>): nat {
    if evs == [] then 0
    else if evs[|evs| - 1] == CloudStop then 0
    else Scheduled(c, evs[..|evs| - 1]) + if RetryScheduled in LastOut(c, evs) then 1 else 0
  }

  lemma StepRetry(c: Config, s: Session, ev: Event)
    ensures var (s', out) := Step(c, s, ev);
            var r := if ev.RetryFires? && Enabled(s, ev) then Retry.Fired(s.retry) else s.retry;
            s'.retry == if ev.CloudStop? then Retry.Stop(s.retry)
                        else if RetryScheduled in out then Retry.Start(r) else r
  {
    hide Retry.Start, Retry.Stop, Retry.Fired;
    if Enabled(s, ev) {
      var (s', out, signal) := Slot(c, s, ev);
      var (s'', more) := Deliver(c, s', signal);
      SlotRetry(c, s, ev);
      DeliverRetry(c, s', signal);
      hide Slot, Deliver;
      assert RetryScheduled in out + more <==> RetryScheduled in more;
    }
  }

  lemma SlotRetry(c: Config, s: Session, ev: Event)
    requires Enabled(s, ev)
    ensures var (s', out, signal) := Slot(c, s, ev);
            && RetryScheduled !in out && (ev.CloudStop? ==> signal == NoSignal)
            && s'.retry == if ev.CloudStop? then Retry.Stop(s.retry)
                           else if ev.RetryFires? then Retry.Fired(s.retry) else s.retry
  {
    hide Retry.Start, Retry.Stop, Retry.Fired;
  }

  lemma DeliverRetry(c: Config, s: Session, signal: Signal)
    ensures var (s', out) := Deliver(c, s, signal);
            s'.retry == (if RetryScheduled in out then Retry.Start(s.retry) else s.retry)
            && (signal == NoSignal ==> out == [])
  {
    hide Retry.Start;
    var out := Deliver(c, s, signal).1;
    assert RetryScheduled in out <==> out != [] && out[|out| - 1] == RetryScheduled;
  }

  lemma CountsStep(r: Retry.State, k: nat)
    requires Retry.Counts(r, k) && Retry.Fits(r)
    ensures Retry.Counts(Retry.Stop(r), 0) && Retry.Fits(Retry.Stop(r))
    ensures Retry.Counts(Retry.Fired(r), k) && Retry.Fits(Retry.Fired(r))
    ensures Retry.Counts(Retry.Start(r), k + 1) && Retry.Fits(Retry.Start(r))
    ensures Retry.Start(r).max == Retry.Stop(r).max == Retry.Fired(r).max == r.max
    ensures Retry.Start(r).base == Retry.Stop(r).base == Retry.Fired(r).base == r.base
    ensures Retry.Start(r).pending == Some(Retry.Ms(1000 * Min(r.max, Retry.Pow(r.base, k + 1))))
  {
    hide Retry.Pow;
    Retry.FiredKeepsCount(r, k);
    Retry.StopRestartsCount(r);
    Retry.StartWaits(r, k);
  }

  lemma {:induction false} RetryCounts(c: Config, evs: seq<Event>)
    ensures var r := State(c, evs).retry;
            r.base == 2 && r.max == 300 && Retry.Counts(r, Scheduled(c, evs)) && Retry.Fits(r)
  {
    if evs != [] {
      var before, ev := evs[..|evs| - 1], evs[|evs| - 1];
      RetryCounts(c, before);
      StepRetry(c, State(c, before), ev);
      var r, k := State(c, before).retry, Scheduled(c, before);
      CountsStep(r, k);
      CountsStep(Retry.Fired(r), k);
      hide Step, Retry.Counts, Retry.Start, Retry.Stop, Retry.Fired, Retry.Fits;
    }
  }

  /** In every run the k-th retry that is scheduled since the last stop waits exactly
      min(300, 2^k) seconds, whether or not a connection came up in between. */
  lemma RetriesBackOff(c: Config, evs: seq<Event>, ev: Event)
    requires RetryScheduled in LastOut(c, evs + [ev])
    ensures State(c, evs + [ev]).retry.pending ==
            Some(Retry.Ms(1000 * Min(300, Retry.Pow(2, Scheduled(c, evs) + 1))))
  {
    hide Step, State, LastOut, Retry.Counts, Retry.Fits, Retry.Pow, Scheduled;
    RetryCounts(c, evs);
    NextEvent(c, evs, ev);
    StepBacksOff(c, State(c, evs), ev, Scheduled(c, evs));
  }

  lemma StepBacksOff(c: Config, s: Session, ev: Event, k: nat)
    requires s.retry.base == 2 && s.retry.max == 300 && Retry.Counts(s.retry, k) && Retry.Fits(s.retry)
    requires RetryScheduled in Step(c, s, ev).1
    ensures Step(c, s, ev).0.retry.pending == Some(Retry.Ms(1000 * Min(300, Retry.Pow(2, k + 1))))
  {
    hide Step, Retry.Counts, Retry.Start, Retry.Stop, Retry.Fired, Retry.Fits, Retry.Pow;
    StepRetry(c, s, ev);
    StopSchedulesNothing(c, s);
    CountsStep(s.retry, k);
    CountsStep(Retry.Fired(s.retry), k);
  }

  lemma StopSchedulesNothing(c: Config, s: Session)
    ensures RetryScheduled !in Step(c, s, CloudStop).1
  {
  }
}
