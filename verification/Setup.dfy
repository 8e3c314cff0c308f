/** The setup state machines of src/setup/qcc/qccsetup.cpp and src/setup/reg/regsetup.cpp,
    which retry a failed request with the backoff of Retry. */
module Setup {
  import opened Common
  import Retry

  datatype Variant = Qcc | Reg

  datatype Code = BadActivation | UnregActivation | Unconfigured | OtherCode(code: int)

  /** The errors the agent machine must not retry. */
  predicate Critical(e: Code) {
    e.BadActivation? || e.UnregActivation? || e.Unconfigured?
  }

  datatype Config = Config(variant: Variant, setupEnabled: bool, autoretry: bool)

  // Where the QStateMachine stands; Stopped when it is not running.
  datatype Place = Stopped | Requesting | Failed | Done

  /** `armed`: the error state has a transition on retry() back to the request. */
  datatype Machine = Machine(place: Place, isError: bool, error: Code, armed: bool, retry: Retry.State)

  datatype Event =
    | Start(confOk: bool)
    | Stop(reset: bool, close: bool)
    | MsgError(e: Code)
    | MsgProcessed
    | RetryTimer

  datatype Out =
    | Request
    | Wait(delay: Retry.Delay)
    | BackoffReset
    | ErrorOut(e: Code)
    | ConfigError
    | Completed
    | StoppedOut

  const INITIAL := Machine(Stopped, false, OtherCode(0), false, Retry.SetBackoff(Retry.INITIAL, 2, Retry.BACKOFF_MAX))

  // Entering the request state: _stateEntered, then the message's process().
  function Enter(m: Machine): (Machine, seq<Out>) {
    if m.isError then (m.(place := Requesting), [Request])
    else (m.(place := Requesting, retry := Retry.Stop(m.retry)), [BackoffReset, Request])
  }

  // _onErrorState: the agent does not retry critical errors, the app retries only if told to.
  function EnterFailed(c: Config, m: Machine): (Machine, seq<Out>) {
    var m' := m.(place := Failed, isError := true);
    if c.variant == Reg && Critical(m.error) then (m', [])
    else if c.variant == Qcc && !c.autoretry then (m'.(armed := true), [])
    else
      var r := Retry.Start(m.retry);
      (m'.(armed := true, retry := r), [Wait(r.pending.value)])
  }

  function Step(c: Config, m: Machine, ev: Event): (Machine, seq<Out>) {
    match ev
    case Start(confOk) =>
      var m' := m.(isError := false);
      if !c.setupEnabled && !confOk then (m', [ConfigError])
      else if !c.setupEnabled then (m'.(place := Done), [Completed])
      else if m.place != Stopped then (m', [])
      else Enter(m')
    case Stop(reset, close) =>
      (m.(place := Stopped, retry := Retry.Stop(m.retry)),
       [BackoffReset] + if !c.setupEnabled || (reset && !close) then [StoppedOut] else [])
    case MsgError(e) =>
      var m' := m.(error := e);
      if m.place != Requesting then (m', [ErrorOut(e)])
      else
        var (m'', out) := EnterFailed(c, m');
        (m'', [ErrorOut(e)] + out)
    case MsgProcessed =>
      (if m.place == Requesting then m.(place := Done, isError := false) else m, [Completed])
    case RetryTimer =>
      if m.retry.pending.None? then (m, [])
      else
        var m' := m.(retry := Retry.Fired(m.retry));
        if (c.variant == Reg || c.autoretry) && m.place == Failed && m.armed then Enter(m') else (m', [])
  }

  // ---- runs ----

  function Run(c: Config, m: Machine, evs: seq<Event>): (Machine, seq<Out>)
    decreases |evs|
  {
    if evs == [] then (m, [])
    else
      var (m', out) := Step(c, m, evs[0]);
      var (m'', rest) := Run(c, m', evs[1..]);
      (m'', out + rest)
  }

  // Waits since the last reset of the backoff.
  function Waits(log: seq<Out>): nat {
    if log == [] then 0
    else
      var last := log[|log| - 1];
      if last == BackoffReset then 0 else Waits(log[..|log| - 1]) + if last.Wait? then 1 else 0
  }

  ghost predicate Inv(c: Config, m: Machine) {
    && m.retry.base == 2 && m.retry.max == 300
    && Retry.Exponential(m.retry)
    && (m.retry.pending.Some? ==> m.place == Failed && m.armed && (c.variant == Reg || c.autoretry))
    && (m.place == Requesting || m.place == Failed ==> c.setupEnabled)
  }

  lemma InitialInv(c: Config)
    ensures Inv(c, INITIAL) && Retry.Counts(INITIAL.retry, 0)
  {
  }

  lemma StepKeepsInv(c: Config, m: Machine, ev: Event)
    requires Inv(c, m)
    ensures Inv(c, Step(c, m, ev).0)
  {
    Retry.StartKeepsExponential(m.retry);
  }

  // The wait after `k` others since the last reset.
  function Backoff(k: nat): Retry.Delay {
    Retry.Ms(1000 * Min(300, Retry.Pow(2, k + 1)))
  }

  /** Every wait in the log is the backoff of the waits logged since the last reset. */
  ghost predicate WaitsRight(log: seq<Out>) {
    forall i :: 0 <= i < |log| && log[i].Wait? ==> log[i].delay == Backoff(Waits(log[..i]))
  }

  function NextCount(k: nat, o: Out): nat {
    if o == BackoffReset then 0 else if o.Wait? then k + 1 else k
  }

  lemma WaitsOne(log: seq<Out>, o: Out)
    requires WaitsRight(log)
    requires o.Wait? ==> o.delay == Backoff(Waits(log))
    ensures WaitsRight(log + [o]) && Waits(log + [o]) == NextCount(Waits(log), o)
  {
    var log' := log + [o];
    forall i | 0 <= i <= |log| ensures log'[..i] == log[..i] {
    }
    assert log[..|log|] == log;
  }

  // What one step adds to the log: at most two entries, each wait of the right length.
  lemma StepWaits(c: Config, m: Machine, ev: Event, k: nat)
    requires Inv(c, m) && Retry.Counts(m.retry, k)
    ensures var (m', out) := Step(c, m, ev);
            match |out|
            case 0 => Retry.Counts(m'.retry, k)
            case 1 => OutRight(k, out[0]) && Retry.Counts(m'.retry, NextCount(k, out[0]))
            case _ =>
              && |out| == 2
              && OutRight(k, out[0]) && OutRight(NextCount(k, out[0]), out[1])
              && Retry.Counts(m'.retry, NextCount(NextCount(k, out[0]), out[1]))
  {
    hide Retry.Counts, Retry.Pow, Retry.Exponential, Retry.Millis;
    Retry.FiredKeepsCount(m.retry, k);
    Retry.FiredKeepsCount(Retry.Fired(m.retry), k);
    Retry.StopRestartsCount(m.retry);
    Retry.StopRestartsCount(Retry.Fired(m.retry));
    Retry.StartWaits(m.retry, k);
    hide Retry.Start, Retry.Fits;
  }

  predicate OutRight(k: nat, o: Out) {
    o.Wait? ==> o.delay == Backoff(k)
  }

  lemma LogStep(c: Config, m: Machine, ev: Event, log: seq<Out>)
    requires Inv(c, m) && WaitsRight(log) && Retry.Counts(m.retry, Waits(log))
    ensures WaitsRight(log + Step(c, m, ev).1)
    ensures Retry.Counts(Step(c, m, ev).0.retry, Waits(log + Step(c, m, ev).1))
  {
    hide Step, WaitsRight, Waits, Retry.Counts, Inv;
    var out := Step(c, m, ev).1;
    StepWaits(c, m, ev, Waits(log));
    LogGrows(log, out);
  }

  lemma LogGrows(log: seq<Out>, out: seq<Out>)
    requires WaitsRight(log) && |out| <= 2
    requires |out| > 0 ==> OutRight(Waits(log), out[0])
    requires |out| > 1 ==> OutRight(NextCount(Waits(log), out[0]), out[1])
    ensures WaitsRight(log + out)
    ensures |out| == 0 ==> Waits(log + out) == Waits(log)
    ensures |out| == 1 ==> Waits(log + out) == NextCount(Waits(log), out[0])
    ensures |out| == 2 ==> Waits(log + out) == NextCount(NextCount(Waits(log), out[0]), out[1])
  {
    hide WaitsRight, Waits, NextCount;
    if |out| == 0 {
      assert log + out == log;
    } else {
      WaitsOne(log, out[0]);
      if |out| == 1 {
        assert out == [out[0]];
      } else {
        WaitsOne(log + [out[0]], out[1]);
        assert log + out == log + [out[0]] + [out[1]];
      }
    }
  }

  lemma {:induction false} RunWaits(c: Config, m: Machine, evs: seq<Event>, log: seq<Out>)
    requires Inv(c, m) && WaitsRight(log) && Retry.Counts(m.retry, Waits(log))
    ensures WaitsRight(log + Run(c, m, evs).1)
    ensures Inv(c, Run(c, m, evs).0) && Retry.Counts(Run(c, m, evs).0.retry, Waits(log + Run(c, m, evs).1))
    decreases |evs|
  {
    hide Step, WaitsRight, Waits, Inv, Retry.Counts;
    if evs == [] {
      assert log + [] == log;
    } else {
      var (m', out) := Step(c, m, evs[0]);
      StepKeepsInv(c, m, evs[0]);
      LogStep(c, m, evs[0], log);
      RunWaits(c, m', evs[1..], log + out);
      assert log + out + Run(c, m', evs[1..]).1 == log + Run(c, m, evs).1;
    }
  }

  /** Over every run of either machine, the k-th failure since the last reset waits exactly
      min(300, 2^k) seconds. */
  lemma BackoffOverRuns(c: Config, evs: seq<Event>)
    ensures WaitsRight(Run(c, INITIAL, evs).1)
  {
    InitialInv(c);
    RunWaits(c, INITIAL, evs, []);
    assert [] + Run(c, INITIAL, evs).1 == Run(c, INITIAL, evs).1;
  }

  lemma RunKeepsInv(c: Config, evs: seq<Event>)
    ensures Inv(c, Run(c, INITIAL, evs).0)
  {
    InitialInv(c);
    NoWaits();
    RunWaits(c, INITIAL, evs, []);
  }

  lemma NoWaits()
    ensures WaitsRight([]) && Waits([]) == 0
  {
  }

  // ---- what resets the backoff ----

  /** Start is only called while the machine is stopped. */
  ghost predicate Disciplined(c: Config, m: Machine, evs: seq<Event>)
    decreases |evs|
  {
    evs != [] ==>
      && (evs[0].Start? ==> m.place == Stopped)
      && Disciplined(c, Step(c, m, evs[0]).0, evs[1..])
  }

  lemma {:induction false} FailedIsError(c: Config, m: Machine, evs: seq<Event>)
    requires Disciplined(c, m, evs) && (m.place == Failed ==> m.isError)
    ensures Run(c, m, evs).0.place == Failed ==> Run(c, m, evs).0.isError
    decreases |evs|
  {
    if evs != [] {
      FailedIsError(c, Step(c, m, evs[0]).0, evs[1..]);
    }
  }

  /** With Start called only on a stopped machine, a retried request goes out without
      resetting the backoff, so only a stop or a fresh start does. */
  lemma RetryKeepsCount(c: Config, evs: seq<Event>)
    requires Disciplined(c, INITIAL, evs)
    ensures var m := Run(c, INITIAL, evs).0;
            m.retry.pending.Some? ==> Step(c, m, RetryTimer).1 == [Request]
  {
    InitialInv(c);
    assert WaitsRight([]);
    RunWaits(c, INITIAL, evs, []);
    FailedIsError(c, INITIAL, evs);
  }

  // ---- critical errors in the agent ----

  /** A stop that is followed by a start. */
  ghost predicate Restarts(evs: seq<Event>) {
    exists i, j :: 0 <= i < j < |evs| && evs[i].Stop? && evs[j].Start?
  }

  ghost predicate Silent(m: Machine) {
    m.retry.pending.None? && m.place != Requesting
  }

  lemma {:induction false} SilentUntilRestart(c: Config, m: Machine, evs: seq<Event>)
    requires Silent(m) && !Restarts(evs)
    requires m.place == Stopped ==> forall i :: 0 <= i < |evs| ==> !evs[i].Start?
    ensures Request !in Run(c, m, evs).1
    decreases |evs|
  {
    if evs != [] {
      var (m', out) := Step(c, m, evs[0]);
      var rest := evs[1..];
      forall i, j | 0 <= i < j < |rest| ensures !(rest[i].Stop? && rest[j].Start?) {
        assert evs[i + 1] == rest[i] && evs[j + 1] == rest[j];
      }
      if m'.place == Stopped {
        forall i | 0 <= i < |rest| ensures !rest[i].Start? {
          assert evs[i + 1] == rest[i] && (evs[0].Stop? || m.place == Stopped);
        }
      }
      SilentUntilRestart(c, m', rest);
    }
  }

  /** When a critical error reaches the running agent machine, no request goes out until a
      stop and a start if and only if no retry was pending as the error arrived. The other
      case is real: a second, critical error can follow the first error of one request. */
  lemma CriticalSilences(c: Config, m: Machine, e: Code)
    requires c.variant == Reg && Inv(c, m) && Critical(e) && m.place != Stopped
    ensures (forall evs :: !Restarts(evs) ==> Request !in Run(c, Step(c, m, MsgError(e)).0, evs).1)
            <==> m.retry.pending.None?
  {
    var m' := Step(c, m, MsgError(e)).0;
    if m.retry.pending.None? {
      forall evs | !Restarts(evs) ensures Request !in Run(c, m', evs).1 {
        SilentUntilRestart(c, m', evs);
      }
    } else {
      var evs := [RetryTimer];
      assert evs[1..] == [] && !Restarts(evs);
      assert Run(c, m', evs).1 == Step(c, m', RetryTimer).1 + [];
      assert Request in Run(c, m', evs).1;
    }
  }

  /** The error the request itself reports finds no retry pending, so it silences. */
  lemma RequestErrorFindsNoRetry(c: Config, evs: seq<Event>)
    ensures var m := Run(c, INITIAL, evs).0; m.place == Requesting ==> m.retry.pending.None?
  {
    InitialInv(c);
    assert WaitsRight([]);
    RunWaits(c, INITIAL, evs, []);
  }

  /** Two errors of one request, the second critical: the agent asks again after the wait. */
  lemma LateCriticalErrorStillRetries()
    ensures var c := Config(Reg, true, false);
            var m := Run(c, INITIAL, [Start(true), MsgError(OtherCode(1))]).0;
            exists evs :: !Restarts(evs) && Request in Run(c, Step(c, m, MsgError(UnregActivation)).0, evs).1
  {
    var c := Config(Reg, true, false);
    var evs := [Start(true), MsgError(OtherCode(1))];
    InitialInv(c);
    assert WaitsRight([]);
    RunWaits(c, INITIAL, evs, []);
    var m := Run(c, INITIAL, evs).0;
    var m1 := Step(c, INITIAL, Start(true)).0;
    assert evs[1..] == [MsgError(OtherCode(1))] && evs[1..][1..] == [];
    assert m == Step(c, m1, MsgError(OtherCode(1))).0;
    CriticalSilences(c, m, UnregActivation);
  }

  // ---- what gets done ----

  lemma {:induction false} RunNext(c: Config, m: Machine, evs: seq<Event>, ev: Event)
    ensures var (m', out) := Run(c, m, evs);
            Run(c, m, evs + [ev]) == (Step(c, m', ev).0, out + Step(c, m', ev).1)
    decreases |evs|
  {
    hide Step;
    if evs == [] {
      assert [] + [ev] == [ev] && [ev][1..] == [];
      assert [] + Step(c, m, ev).1 == Step(c, m, ev).1 == Step(c, m, ev).1 + [];
    } else {
      var (m', out) := Step(c, m, evs[0]);
      RunNext(c, m', evs[1..], ev);
      assert (evs + [ev])[1..] == evs[1..] + [ev];
      ThreeParts(out, Run(c, m', evs[1..]).1, Step(c, Run(c, m', evs[1..]).0, ev).1);
    }
  }

  lemma Reached(c: Config, evs: seq<Event>)
    ensures var (m, log) := Run(c, INITIAL, evs);
            Inv(c, m) && WaitsRight(log) && Retry.Counts(m.retry, Waits(log))
  {
    hide Inv, Retry.Counts, WaitsRight, Waits;
    InitialInv(c);
    NoWaits();
    RunWaits(c, INITIAL, evs, []);
    assert [] + Run(c, INITIAL, evs).1 == Run(c, INITIAL, evs).1;
  }

  /** The agent retries any error but the three that need the user, the app only if told to. */
  predicate Retries(c: Config, e: Code) {
    match c.variant
    case Reg => e != BadActivation && e != UnregActivation && e != Unconfigured
    case Qcc => c.autoretry
  }

  // One failure from a state with `k` waits since the last reset, and the retry after it.
  lemma StepFails(c: Config, m: Machine, e: Code, k: nat)
    requires Inv(c, m) && Retry.Counts(m.retry, k) && m.place == Requesting
    ensures var (m', out) := Step(c, m, MsgError(e));
            && out == (if Retries(c, e) then [ErrorOut(e), Wait(Backoff(k))] else [ErrorOut(e)])
            && m'.place == Failed && m'.error == e && (m'.retry.pending.Some? <==> Retries(c, e))
            && Step(c, m', RetryTimer).1 == (if Retries(c, e) then [Request] else [])
            && Step(c, m', RetryTimer).0.place == (if Retries(c, e) then Requesting else Failed)
  {
    hide Retry.Pow;
    Retry.StartWaits(m.retry, k);
    hide Retry.Start, Retry.Counts, Retry.Exponential;
  }

  /** A request that fails, in any run: the error goes out, and if the machine retries it the
      wait that is due is logged, a retry is pending, and its timer sends the request again. */
  lemma FailureIsRetried(c: Config, evs: seq<Event>, e: Code)
    requires Run(c, INITIAL, evs).0.place == Requesting
    ensures var log, (m', log') := Run(c, INITIAL, evs).1, Run(c, INITIAL, evs + [MsgError(e)]);
            && log' == log + (if Retries(c, e) then [ErrorOut(e), Wait(Backoff(Waits(log)))] else [ErrorOut(e)])
            && m'.place == Failed && (m'.retry.pending.Some? <==> Retries(c, e))
            && Run(c, INITIAL, evs + [MsgError(e)] + [RetryTimer]).1 == log' + (if Retries(c, e) then [Request] else [])
            && Run(c, INITIAL, evs + [MsgError(e)] + [RetryTimer]).0.place ==
               (if Retries(c, e) then Requesting else Failed)
  {
    hide Run, Step, Waits, Backoff, Inv, Retry.Counts, Retries;
    Reached(c, evs);
    RunNext(c, INITIAL, evs, MsgError(e));
    RunNext(c, INITIAL, evs + [MsgError(e)], RetryTimer);
    var (m, log) := Run(c, INITIAL, evs);
    StepFails(c, m, e, Waits(log));
  }

  /** What a start gives: a request from a stopped machine, with the backoff reset; and with
      setup switched off the stored configuration, or the error that there is none. */
  lemma StartRequests(c: Config, evs: seq<Event>, confOk: bool)
    requires Run(c, INITIAL, evs).0.place == Stopped
    ensures var (m', log') := Run(c, INITIAL, evs + [Start(confOk)]);
            && log' == Run(c, INITIAL, evs).1 +
               (if c.setupEnabled then [BackoffReset, Request] else if confOk then [Completed] else [ConfigError])
            && m'.place == (if c.setupEnabled then Requesting else if confOk then Done else Stopped)
            && m'.retry.pending.None? && !m'.isError
  {
    Reached(c, evs);
    RunNext(c, INITIAL, evs, Start(confOk));
    hide Run, Retry.Counts, WaitsRight, Waits;
  }

  /** A processed message completes the setup, and ends it when it was in progress: errors
      that come later go out, and cause no retry. */
  lemma ProcessedCompletes(c: Config, evs: seq<Event>, e: Code)
    ensures var (m, log), (m', log') := Run(c, INITIAL, evs), Run(c, INITIAL, evs + [MsgProcessed]);
            && log' == log + [Completed]
            && (m.place == Requesting ==> m'.place == Done)
            && (m.place == Requesting ==>
                  var late := Run(c, INITIAL, evs + [MsgProcessed] + [MsgError(e)]);
                  late.1 == log' + [ErrorOut(e)] && late.0.place == Done && late.0.retry.pending.None?)
  {
    Reached(c, evs);
    RunNext(c, INITIAL, evs, MsgProcessed);
    RunNext(c, INITIAL, evs + [MsgProcessed], MsgError(e));
    hide Run, Retry.Counts, WaitsRight, Waits;
  }

  /** A stop ends the machine, its retry and its count of failures, and tells so unless the
      closing message or a quick restart is to follow. */
  lemma StopEnds(c: Config, evs: seq<Event>, reset: bool, close: bool)
    ensures var (m', log') := Run(c, INITIAL, evs + [Stop(reset, close)]);
            && m'.place == Stopped && m'.retry.pending.None? && m'.retry.backoff == 1
            && log' == Run(c, INITIAL, evs).1 +
               (if c.setupEnabled && (close || !reset) then [BackoffReset] else [BackoffReset, StoppedOut])
  {
    RunNext(c, INITIAL, evs, Stop(reset, close));
    hide Run;
  }

  // ---- the object ----

  class SetupMachine {
    const config: Config
    const retry: Retry.Timer
    var place: Place
    var isError: bool
    var error: Code
    var armed: bool

    function View(): Machine
      reads this, retry
    {
      Machine(place, isError, error, armed, retry.View())
    }

    constructor (config: Config)
      ensures View() == INITIAL && this.config == config && fresh(retry)
    {
      this.config := config;
      place, isError, error, armed := Stopped, false, OtherCode(0), false;
      retry := new Retry.Timer();
      new;
      retry.SetBackoffTo(2, Retry.BACKOFF_MAX);
    }

    method StateEntered() returns (out: seq<Out>)
      modifies this, retry
      ensures (View(), out) == Enter(old(View()))
    {
      out := [];
      place := Requesting;
      if !isError {
        retry.Cancel();
        out := [BackoffReset];
      }
      out := out + [Request];
      assert [] + [Request] == [Request];
      assert [BackoffReset] + [Request] == [BackoffReset, Request];
    }

    method OnErrorState() returns (out: seq<Out>)
      modifies this, retry
      ensures (View(), out) == EnterFailed(config, old(View()))
    {
      out := [];
      place, isError := Failed, true;
      if config.variant == Reg && Critical(error) {
        return;
      }
      armed := true;
      if config.variant == Reg || config.autoretry {
        retry.Begin();
        out := [Wait(retry.pending.value)];
      }
    }

    method StartMachine(confOk: bool) returns (out: seq<Out>)
      modifies this, retry
      ensures (View(), out) == Step(config, old(View()), Start(confOk))
    {
      out := [];
      isError := false;
      if !config.setupEnabled {
        if !confOk {
          return [ConfigError];
        }
        place := Done;
        out := [Completed];
      } else if place == Stopped {
        out := StateEntered();
      }
    }

    method StopMachine(reset: bool, close: bool) returns (out: seq<Out>)
      modifies this, retry
      ensures (View(), out) == Step(config, old(View()), Stop(reset, close))
    {
      retry.Cancel();
      place := Stopped;
      out := [BackoffReset];
      if !config.setupEnabled || (reset && !close) {
        out := out + [StoppedOut];
      }
      assert [BackoffReset] + [] == [BackoffReset];
    }

    method OnError(e: Code) returns (out: seq<Out>)
      modifies this, retry
      ensures (View(), out) == Step(config, old(View()), MsgError(e))
    {
      error := e;
      out := [ErrorOut(e)];
      if place == Requesting {
        isError := false;
        var more := OnErrorState();
        out := out + more;
      }
    }

    method OnProcessed() returns (out: seq<Out>)
      modifies this
      ensures (View(), out) == Step(config, old(View()), MsgProcessed)
    {
      if place == Requesting {
        place, isError := Done, false;
      }
      out := [Completed];
    }

    method OnRetryTimeout() returns (out: seq<Out>)
      requires retry.pending.Some?
      modifies this, retry
      ensures (View(), out) == Step(config, old(View()), RetryTimer)
    {
      retry.Expire();
      out := [];
      if config.variant == Reg || config.autoretry {
        if place == Failed && armed {
          out := StateEntered();
        }
      }
    }

    /** One event of the event loop. */
    method Dispatch(ev: Event) returns (out: seq<Out>)
      modifies this, retry
      ensures (View(), out) == Step(config, old(View()), ev)
    {
      match ev {
        case Start(confOk) => out := StartMachine(confOk);
        case Stop(reset, close) => out := StopMachine(reset, close);
        case MsgError(e) => out := OnError(e);
        case MsgProcessed => out := OnProcessed();
        case RetryTimer =>
          out := [];
          if retry.pending.Some? {
            out := OnRetryTimeout();
          }
      }
    }

    /** A run of a fresh machine. */
    method RunEvents(evs: seq<Event>) returns (log: seq<Out>)
      requires View() == INITIAL
      modifies this, retry
      ensures (View(), log) == Run(config, INITIAL, evs)
      ensures WaitsRight(log)
      ensures retry.pending.Some? ==> place == Failed && armed && (config.variant == Reg || config.autoretry)
      ensures place == Requesting ==> retry.pending.None?
    {
      hide Step, WaitsRight;
      log := [];
      assert evs[0..] == evs && [] + Run(config, INITIAL, evs).1 == Run(config, INITIAL, evs).1;
      for i := 0 to |evs|
        invariant var rest := Run(config, View(), evs[i..]);
                  Run(config, INITIAL, evs) == (rest.0, log + rest.1)
      {
        assert evs[i..][0] == evs[i] && evs[i..][1..] == evs[i + 1..];
        var out := Dispatch(evs[i]);
        ThreeParts(log, out, Run(config, View(), evs[i + 1..]).1);
        log := log + out;
      }
      assert evs[|evs|..] == [] && log + [] == log;
      BackoffOverRuns(config, evs);
      RunKeepsInv(config, evs);
    }
  }
}
