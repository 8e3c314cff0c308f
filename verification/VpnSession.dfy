/** The VPN session: Cloud, VpnClient and VpnManager as one state machine whose steps are
    the slots that Qt calls. A signal is delivered where it is emitted, which in these
    slots is the last thing they do. */
module VpnSession {
  import opened Common
  import Retry

  // ---- VpnClient ----

  datatype ClientState =
    | Idle | Configured | Starting | Started | Connecting | WaitingResponse | Authenticating
    | DownloadingConfiguration | AssigningIP | AddingRoutes | Connected | Exiting

  datatype ClientError = NoClientError | BadStateError | ConfigError | NotExecError | ProcessError

  // A QProcess starts at most once; Dead stands for one that failed to start or finished.
  datatype Phase = Launching | Running | Dead
  datatype Process = Process(phase: Phase, fallback: bool)

  datatype Client = Client(st: ClientState, err: ClientError, process: Option<Process>)

  // What start() finds: usable arguments and executable, or the check that fails.
  datatype Launch = Launchable | BadConfig | NotExecutable

  /** start(): the new client, whether a launch was attempted, and the error it signals. */
  function ClientStart(c: Client, fallback: bool, launch: Launch): (Client, bool, Option<ClientError>) {
    if c.process.Some? then (c, false, None)
    else if c.st != Idle && c.st != Configured then (c.(err := BadStateError), false, Some(BadStateError))
    else
      match launch
      case BadConfig => (c.(err := ConfigError), true, Some(ConfigError))
      case NotExecutable => (c.(err := NotExecError), true, Some(NotExecError))
      case Launchable => (c.(st := Starting, process := Some(Process(Launching, fallback))), true, None)
  }

  function ClientStop(c: Client): Client {
    if c.st == Idle || c.process.None? then c else Client(Configured, NoClientError, None)
  }

  // setState(): the exiting state lies past the last state that checkState() accepts.
  function SetState(c: Client, st: ClientState): Client {
    if st == Exiting then c else c.(st := st)
  }

  // ---- VpnManager ----

  datatype ManagerState = Detached | Attaching | Attached | Detaching

  datatype ManagerError = NoManagerError | MgmtError | UnhandledError | SocketError | AuthFailedError | ConnTimeout

  // Broken stands for a socket whose connection attempt failed.
  datatype SocketPhase = Opening | Broken | Open | Closed

  /** `attachTimers` counts the one-second single-shot timers still to call retryAttach();
      nothing cancels them. */
  datatype Manager = Manager(
    st: ManagerState, err: ManagerError, socket: Option<SocketPhase>,
    attachRetries: nat, attachTimers: nat, stateTimer: bool, connTimer: bool)

  function Detach(m: Manager): Manager {
    if m.st == Detached then m
    else Manager(Detached, NoManagerError, None, if m.st == Attaching then m.attachRetries else 0,
                 m.attachTimers, false, false)
  }

  function Attach(c: Config, m: Manager): Manager {
    if m.st == Attached then m
    else
      var d := Detach(m);
      d.(st := Attaching, socket := Some(Opening), stateTimer := true, connTimer := d.connTimer || c.timeout > 0)
  }

  // ---- Cloud ----

  /** `force` is autoretry or setupAgent; `fallbackValid` says that this is the client build
      and that setup supplied a valid fallback configuration; 0 stands for no timeout. */
  datatype Config = Config(force: bool, fallbackValid: bool, timeout: nat, maxAttachRetries: nat)

  datatype Session = Session(client: Client, manager: Manager, isFallback: bool, retry: Retry.State)

  const INITIAL := Session(
    Client(Idle, NoClientError, None),
    Manager(Detached, NoManagerError, None, 0, 0, false, false),
    false,
    Retry.SetBackoff(Retry.INITIAL, 2, Retry.BACKOFF_MAX))

  datatype Failure = ClientFailure | ClientTimeout | ManagerFailure

  /** What can be seen of a step: a launch, an error passed outwards, a retry scheduled, and
      how the attach counter moved. */
  datatype Out =
    | Attempt(fallback: bool)
    | ErrorOut(failure: Failure)
    | RetryScheduled
    | Refusal
    | SocketErrorRaised
    | CounterReset

  // The states a management line can ask for.
  datatype Line =
    | ConnectingLine | WaitLine | AuthLine | GetConfigLine | AssignIpLine | AddRoutesLine | ConnectedLine
    | ExitingLine | OtherLine

  datatype Event =
    | CloudStart(fallback: bool, launch: Launch)
    | CloudStop
    | ProcStarted
    | ProcError
    | ProcFinished
    | SocketConnected
    | SocketDisconnected
    | SocketRefused
    | SocketFailed
    | StateLine(line: Line)
    | MgmtFailure(err: ManagerError)
    | ConnTimerFires
    | AttachTimerFires
    | RetryFires(launch: Launch)

  function StopParts(s: Session): (Session, seq<Out>) {
    (s.(manager := Detach(s.manager), client := ClientStop(s.client)),
     if s.manager.st == Attached || s.manager.st == Detaching then [CounterReset] else [])
  }

  // _restart()
  function Restart(c: Config, s: Session, fallback: bool, force: bool): (Session, seq<Out>) {
    var s' := s.(isFallback := fallback);
    if c.force || force then
      var (s'', out) := StopParts(s');
      (s''.(retry := Retry.Start(s''.retry)), out + [RetryScheduled])
    else (s', [])
  }

  // _vpnClientErr()
  function ClientErr(c: Config, s: Session): (Session, seq<Out>) {
    if !s.isFallback && c.fallbackValid then Restart(c, s, true, true)
    else
      var (s', out) := Restart(c, s, s.isFallback, false);
      (s', [ErrorOut(ClientFailure)] + out)
  }

  // _vpnManagerErr()
  function ManagerErr(c: Config, s: Session, err: ManagerError): (Session, seq<Out>) {
    if err == ConnTimeout && !s.isFallback && c.fallbackValid then Restart(c, s, true, true)
    else
      var (s', out) := Restart(c, s, false, false);
      (s', [ErrorOut(if err == ConnTimeout then ClientTimeout else ManagerFailure)] + out)
  }

  function LineTarget(line: Line): Option<ClientState> {
    match line
    case ConnectingLine => Some(Connecting)
    case WaitLine => Some(WaitingResponse)
    case AuthLine => Some(Authenticating)
    case GetConfigLine => Some(DownloadingConfiguration)
    case AssignIpLine => Some(AssigningIP)
    case AddRoutesLine => Some(AddingRoutes)
    case ConnectedLine => Some(Connected)
    case ExitingLine => Some(Exiting)
    case OtherLine => None
  }

  // parseLineState()
  function ParseStateLine(c: Config, s: Session, line: Line): Session {
    var client := match LineTarget(line) case Some(st) => SetState(s.client, st) case None => s.client;
    var stopped := if line == ConnectedLine then false else s.manager.connTimer;
    var connTimer := stopped || (client.st != Connected && client.st != s.client.st && c.timeout > 0);
    s.(client := client, manager := s.manager.(connTimer := connTimer))
  }

  /** The events the environment can deliver in a state. */
  predicate Enabled(s: Session, ev: Event) {
    match ev
    case CloudStart(_, _) => true
    case CloudStop => true
    case ProcStarted => s.client.process.Some? && s.client.process.value.phase == Launching
    case ProcError => s.client.process.Some? && s.client.process.value.phase != Dead
    case ProcFinished => s.client.process.Some? && s.client.process.value.phase == Running
    case SocketConnected => s.manager.socket == Some(Opening)
    case SocketRefused => s.manager.socket == Some(Opening)
    case SocketDisconnected => s.manager.socket == Some(Open)
    case SocketFailed => s.manager.socket == Some(Opening) || s.manager.socket == Some(Open)
    case StateLine(_) => s.manager.socket == Some(Open)
    case MgmtFailure(err) =>
      s.manager.socket == Some(Open) && (err.MgmtError? || err.UnhandledError? || err.AuthFailedError?)
    case ConnTimerFires => s.manager.connTimer
    case AttachTimerFires => s.manager.attachTimers > 0
    case RetryFires(_) => s.retry.pending.Some?
  }

  function SetPhase(c: Client, phase: Phase): Client
    requires c.process.Some?
  {
    c.(process := Some(c.process.value.(phase := phase)))
  }

  // The signal a slot emits as its last act.
  datatype Signal = NoSignal | ClientSignal | ManagerSignal(err: ManagerError)

  function StartClient(s: Session, fallback: bool, launch: Launch): (Session, seq<Out>, Signal) {
    var (client, attempted, signal) := ClientStart(s.client, fallback, launch);
    (s.(client := client),
     if attempted then [Attempt(fallback)] else [],
     if signal.Some? then ClientSignal else NoSignal)
  }

  /** What the slot called by an event does itself, before its signal is delivered. */
  function Slot(c: Config, s: Session, ev: Event): (Session, seq<Out>, Signal)
    requires Enabled(s, ev)
  {
    match ev
    case CloudStart(fallback, launch) => StartClient(s.(isFallback := fallback), fallback, launch)
    case CloudStop =>
      var (s', out) := StopParts(s.(retry := Retry.Stop(s.retry)));
      (s', out, NoSignal)
    case ProcStarted =>
      (s.(client := SetPhase(s.client, Running).(st := Started), manager := Attach(c, s.manager)), [], NoSignal)
    case ProcError =>
      var phase := if s.client.process.value.phase == Launching then Dead else Running;
      (s.(client := SetPhase(s.client, phase).(err := ProcessError)), [], ClientSignal)
    case ProcFinished => (s.(client := SetPhase(s.client, Dead).(err := ProcessError)), [], ClientSignal)
    case SocketConnected => (s.(manager := s.manager.(st := Attached, socket := Some(Open))), [], NoSignal)
    case SocketDisconnected => (s.(manager := s.manager.(st := Detaching, socket := Some(Closed))), [], NoSignal)
    case SocketRefused =>
      var m := s.manager.(socket := Some(Broken));
      if m.attachRetries == c.maxAttachRetries then
        (s.(manager := m.(attachRetries := 0, err := SocketError)), [Refusal, SocketErrorRaised],
          ManagerSignal(SocketError))
      else
        (s.(manager := m.(attachRetries := m.attachRetries + 1, attachTimers := m.attachTimers + 1)), [Refusal],
          NoSignal)
    case SocketFailed =>
      var err := if s.manager.err == NoManagerError then SocketError else s.manager.err;
      var socket := if s.manager.socket == Some(Opening) then Some(Broken) else s.manager.socket;
      (s.(manager := s.manager.(err := err, socket := socket)), [], ManagerSignal(err))
    case StateLine(line) => (ParseStateLine(c, s, line), [], NoSignal)
    case MgmtFailure(err) => (s.(manager := s.manager.(err := err)), [], ManagerSignal(err))
    case ConnTimerFires =>
      (s.(manager := s.manager.(err := ConnTimeout, connTimer := false)), [], ManagerSignal(ConnTimeout))
    case AttachTimerFires =>
      var m := s.manager.(attachTimers := s.manager.attachTimers - 1);
      (s.(manager := if m.st == Attaching then Attach(c, m) else m), [], NoSignal)
    case RetryFires(launch) => StartClient(s.(retry := Retry.Fired(s.retry)), s.isFallback, launch)
  }

  // Cloud's slot for a signal.
  function Deliver(c: Config, s: Session, signal: Signal): (Session, seq<Out>) {
    match signal
    case NoSignal => (s, [])
    case ClientSignal => ClientErr(c, s)
    case ManagerSignal(err) => ManagerErr(c, s, err)
  }

  /** One step; an event the environment cannot deliver changes nothing. */
  function Step(c: Config, s: Session, ev: Event): (Session, seq<Out>) {
    if !Enabled(s, ev) then (s, [])
    else
      var (s', out, signal) := Slot(c, s, ev);
      var (s'', more) := Deliver(c, s', signal);
      (s'', out + more)
  }

  lemma StepDisabled(c: Config, s: Session, ev: Event)
    requires !Enabled(s, ev)
    ensures Step(c, s, ev) == (s, [])
  {
  }

  // ---- runs ----

  function State(c: Config, evs: seq<Event>): Session {
    if evs == [] then INITIAL else Step(c, State(c, evs[..|evs| - 1]), evs[|evs| - 1]).0
  }

  // What the last event of a run gave out.
  function LastOut(c: Config, evs: seq<Event>): seq<Out> {
    if evs == [] then [] else Step(c, State(c, evs[..|evs| - 1]), evs[|evs| - 1]).1
  }

  /** All that a run gave out, in order. */
  function Log(c: Config, evs: seq<Event>): seq<Out> {
    if evs == [] then [] else Log(c, evs[..|evs| - 1]) + LastOut(c, evs)
  }

  // ---- the invariant ----

  ghost predicate Inv(c: Config, s: Session) {
    && (s.client.process.Some? <==> s.client.st != Idle && s.client.st != Configured)
    && (s.manager.st != Detached ==> s.client.process.Some?)
    && s.client.st != Exiting
    && (s.client.process.Some? && s.client.process.value.phase == Launching ==>
          s.client.st == Starting && s.manager.st == Detached)
    && s.manager.attachRetries <= c.maxAttachRetries
    && (s.manager.st == Detached <==> s.manager.socket.None?)
    && (s.manager.st == Attaching ==> s.client.st == Started && s.manager.socket.value in {Opening, Broken})
    && (s.manager.st == Attached ==> s.manager.socket == Some(Open))
    && (s.manager.st == Detaching ==> s.manager.socket == Some(Closed))
    && (s.manager.stateTimer <==> s.manager.st != Detached)
    && (s.manager.connTimer ==> s.manager.st != Detached && s.client.st != Connected)
  }

  lemma StepKeepsInv(c: Config, s: Session, ev: Event)
    requires Inv(c, s)
    ensures Inv(c, Step(c, s, ev).0)
  {
    if Enabled(s, ev) {
      SlotKeepsInv(c, s, ev);
      var (s', out, signal) := Slot(c, s, ev);
      DeliverKeepsInv(c, s', signal);
    }
  }

  lemma SlotKeepsInv(c: Config, s: Session, ev: Event)
    requires Inv(c, s) && Enabled(s, ev)
    ensures Inv(c, Slot(c, s, ev).0)
  {
  }

  lemma DeliverKeepsInv(c: Config, s: Session, signal: Signal)
    requires Inv(c, s)
    ensures Inv(c, Deliver(c, s, signal).0)
  {
  }

  /** Whatever the order of events: there is a process exactly when the client is neither
      idle nor configured, a manager that is not detached has a process, the attach counter
      stays within its bound, and no connection timer runs on a connected tunnel. */
  lemma {:induction false} InvHolds(c: Config, evs: seq<Event>)
    ensures Inv(c, State(c, evs))
  {
    if evs != [] {
      InvHolds(c, evs[..|evs| - 1]);
      StepKeepsInv(c, State(c, evs[..|evs| - 1]), evs[|evs| - 1]);
    }
  }

  /** The bad-state branch of start() is never taken, and no start replaces a process. */
  lemma StartNeverInBadState(c: Config, evs: seq<Event>, fallback: bool, launch: Launch)
    ensures var client := State(c, evs).client;
            var (client', attempted, signal) := ClientStart(client, fallback, launch);
            signal != Some(BadStateError) && (attempted <==> client.process.None?) &&
            (client.process.Some? ==> client' == client)
  {
    InvHolds(c, evs);
  }

  /** No timeout is raised on a live tunnel: while connected the timer is stopped. */
  lemma NoTimeoutWhileConnected(c: Config, evs: seq<Event>)
    ensures State(c, evs).client.st == Connected ==> Step(c, State(c, evs), ConnTimerFires) == (State(c, evs), [])
  {
    InvHolds(c, evs);
  }

  // ---- the attach counter over runs ----

  // Refused connections since the counter last started again.
  function Refusals(c: Config, evs: seq<Event>): nat {
    if evs == [] then 0 else Counted(Refusals(c, evs[..|evs| - 1]), LastOut(c, evs))
  }

  // The count after outputs that add at most one refusal.
  function Counted(k: nat, out: seq<Out>): nat {
    if SocketErrorRaised in out || CounterReset in out then 0
    else if Refusal in out then k + 1
    else k
  }

  lemma DeliverCounts(c: Config, s: Session, signal: Signal)
    requires Inv(c, s)
    ensures var (s', out) := Deliver(c, s, signal);
            && Refusal !in out && SocketErrorRaised !in out
            && s'.manager.attachRetries == if CounterReset in out then 0 else s.manager.attachRetries
  {
  }

  lemma StepCounts(c: Config, s: Session, ev: Event)
    requires Inv(c, s)
    ensures Step(c, s, ev).0.manager.attachRetries == Counted(s.manager.attachRetries, Step(c, s, ev).1)
    ensures ev.SocketRefused? && Enabled(s, ev) && s.manager.attachRetries == c.maxAttachRetries ==>
              SocketErrorRaised in Step(c, s, ev).1
  {
    if Enabled(s, ev) {
      SlotKeepsInv(c, s, ev);
      var (s', out, signal) := Slot(c, s, ev);
      DeliverCounts(c, s', signal);
      hide Deliver, Inv;
    }
  }

  lemma {:induction false} CounterIsRefusals(c: Config, evs: seq<Event>)
    ensures State(c, evs).manager.attachRetries == Refusals(c, evs) <= c.maxAttachRetries
  {
    if evs != [] {
      var before := evs[..|evs| - 1];
      InvHolds(c, before);
      InvHolds(c, evs);
      CounterIsRefusals(c, before);
      StepCounts(c, State(c, before), evs[|evs| - 1]);
    }
  }

  /** In every run the refusal that follows maxAttachRetries others, with no reset between
      them, raises a socket error: detaching and attaching again in the meantime does not
      prolong the run. */
  lemma RefusalsRaise(c: Config, evs: seq<Event>)
    requires Refusals(c, evs) == c.maxAttachRetries
    requires Enabled(State(c, evs), SocketRefused)
    ensures SocketErrorRaised in LastOut(c, evs + [SocketRefused])
  {
    InvHolds(c, evs);
    CounterIsRefusals(c, evs);
    assert (evs + [SocketRefused])[..|evs|] == evs;
    StepCounts(c, State(c, evs), SocketRefused);
  }
}
