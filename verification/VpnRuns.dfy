/** What whole runs of the VPN session keep: one pending retry at a time, and the order in
    which the primary and the fallback configuration are tried. */
module VpnRuns {
  import opened VpnSession

  // ---- one retry at a time ----

  predicate Failed(out: seq<Out>) {
    exists i :: 0 <= i < |out| && (out[i].RetryScheduled? || out[i].ErrorOut?)
  }

  /** Every start from outside finds the session at rest. */
  ghost predicate StartsAtRest(c: Config, evs: seq<Event>) {
    evs != [] ==>
      && StartsAtRest(c, evs[..|evs| - 1])
      && (evs[|evs| - 1].CloudStart? ==> AtRest(State(c, evs[..|evs| - 1])))
  }

  ghost predicate AtRest(s: Session) {
    s.client.process.None? && s.retry.pending.None?
  }

  ghost predicate ScheduledOnce(out: seq<Out>) {
    out != [] && forall i :: 0 <= i < |out| ==> (out[i] == RetryScheduled <==> i == |out| - 1)
  }

  // How a failure ends in a forced run: everything is taken down, and one retry is set,
  // as the last thing and only once.
  ghost predicate TakenDown(s: Session, out: seq<Out>) {
    && s.client.process.None? && s.manager.st == Detached && s.retry.pending.Some?
    && ScheduledOnce(out)
  }

  lemma SignalTakesDown(c: Config, s: Session, signal: Signal)
    requires c.force && !signal.NoSignal? && Inv(c, s)
    ensures TakenDown(Deliver(c, s, signal).0, Deliver(c, s, signal).1)
  {
  }

  lemma SlotRetries(c: Config, s: Session, ev: Event)
    requires Inv(c, s) && Enabled(s, ev)
    ensures var (s', out, signal) := Slot(c, s, ev);
            && !Failed(out)
            && (s'.retry.pending.Some? ==> s.retry.pending.Some?)
            && (ev.RetryFires? ==> s'.retry.pending.None?)
            && (s'.client.process.Some? && s.client.process.None? ==> ev.CloudStart? || ev.RetryFires?)
            && (!signal.NoSignal? ==> s.client.process.Some? || ev.CloudStart? || ev.RetryFires?)
  {
  }

  /** A forced step either takes everything down, or fails in nothing and leaves a process
      and a pending retry mutually exclusive. */
  lemma StepRetries(c: Config, s: Session, ev: Event)
    requires Inv(c, s) && c.force
    requires !(s.client.process.Some? && s.retry.pending.Some?)
    requires ev.CloudStart? ==> AtRest(s)
    ensures var (s', out) := Step(c, s, ev);
            if Failed(out) then TakenDown(s', out)
            else !(s'.client.process.Some? && s'.retry.pending.Some?) &&
                 (s'.retry.pending.Some? ==> s.retry.pending.Some?)
    ensures RetryScheduled in Step(c, s, ev).1 ==> s.retry.pending.None? || ev.RetryFires?
  {
    if Enabled(s, ev) {
      SlotKeepsInv(c, s, ev);
      SlotRetries(c, s, ev);
      var (s', out, signal) := Slot(c, s, ev);
      if !signal.NoSignal? {
        SignalTakesDown(c, s', signal);
        var all := Step(c, s, ev).1;
        assert all[|all| - 1] == RetryScheduled;
      }
      hide Slot, ClientErr, ManagerErr, Inv;
    }
  }

  // A pending retry: no event but its own and a stop touches it, and its own launches.
  lemma StepPending(c: Config, s: Session, ev: Event)
    requires Inv(c, s) && s.retry.pending.Some? && s.client.process.None? && !ev.CloudStart?
    ensures var (s', out) := Step(c, s, ev);
            && (!ev.RetryFires? && !ev.CloudStop? ==> s'.retry.pending == s.retry.pending && out == [])
            && (ev.RetryFires? ==> out != [] && out[0] == Attempt(s.isFallback))
  {
    if ev.RetryFires? {
      var (s', out, signal) := Slot(c, s, ev);
      hide Slot, Deliver;
      assert Step(c, s, ev).1 == out + Deliver(c, s', signal).1;
    }
  }

  /** In automatic-retry and agent runs, absent an outside start, a failure leaves exactly
      one retry pending with no process and a detached manager. That retry stays, and nothing
      goes out, until it fires or the session is stopped; and firing launches, in the mode the
      failure chose. A retry is scheduled only when none is pending or when the pending one
      has just fired, so one dying tunnel never schedules two restarts. */
  lemma {:induction false} OneRetryPending(c: Config, evs: seq<Event>)
    requires c.force && StartsAtRest(c, evs)
    ensures var s := State(c, evs);
            s.retry.pending.Some? ==> s.client.process.None? && s.manager.st == Detached
    ensures Failed(LastOut(c, evs)) ==>
              State(c, evs).retry.pending.Some? && ScheduledOnce(LastOut(c, evs))
    ensures evs != [] && RetryScheduled in LastOut(c, evs) ==>
              State(c, evs[..|evs| - 1]).retry.pending.None? || evs[|evs| - 1].RetryFires?
    ensures evs != [] && State(c, evs[..|evs| - 1]).retry.pending.Some? ==>
              var before, ev, out := State(c, evs[..|evs| - 1]), evs[|evs| - 1], LastOut(c, evs);
              if ev.RetryFires? then out != [] && out[0] == Attempt(before.isFallback)
              else ev.CloudStop? || (State(c, evs).retry.pending == before.retry.pending && out == [])
  {
    InvHolds(c, evs);
    if evs != [] {
      var before, ev := evs[..|evs| - 1], evs[|evs| - 1];
      OneRetryPending(c, before);
      InvHolds(c, before);
      StepRetries(c, State(c, before), ev);
      if State(c, before).retry.pending.Some? {
        StepPending(c, State(c, before), ev);
      }
      hide Step, Inv;
    }
  }

  // ---- retries without force ----

  /** Retries scheduled since the last outside start, and since an error last went out. */
  function Unreported(c: Config, evs: seq<Event>): nat {
    if evs == [] then 0
    else
      var out := LastOut(c, evs);
      var told := evs[|evs| - 1].CloudStart? || exists failure: Failure :: ErrorOut(failure) in out;
      (if told then 0 else Unreported(c, evs[..|evs| - 1])) + (if RetryScheduled in out then 1 else 0)
  }

  // Without force only a turn from the primary to the fallback schedules, and only an outside
  // start or an error that goes out turns back.
  lemma StepUnforced(c: Config, s: Session, ev: Event)
    requires !c.force
    ensures var (s', out) := Step(c, s, ev);
            && (RetryScheduled in out ==>
                  && c.fallbackValid && s'.isFallback && (ev.CloudStart? || !s.isFallback)
                  && !exists f: Failure :: ErrorOut(f) in out)
            && (s.isFallback && !s'.isFallback ==> ev.CloudStart? || exists f: Failure :: ErrorOut(f) in out)
  {
    if Enabled(s, ev) {
      SlotKeepsMode(c, s, ev);
      var (s', out, signal) := Slot(c, s, ev);
      DeliverUnforced(c, s', signal);
      hide Slot, Deliver, Enabled;
      var (s'', more) := Deliver(c, s', signal);
      assert Step(c, s, ev) == (s'', out + more);
    }
  }

  lemma SlotKeepsMode(c: Config, s: Session, ev: Event)
    requires Enabled(s, ev)
    ensures var (s', out, signal) := Slot(c, s, ev);
            && s'.isFallback == (if ev.CloudStart? then ev.fallback else s.isFallback)
            && forall i :: 0 <= i < |out| ==> !out[i].RetryScheduled? && !out[i].ErrorOut?
  {
  }

  lemma DeliverUnforced(c: Config, s: Session, signal: Signal)
    requires !c.force
    ensures var (s', out) := Deliver(c, s, signal);
            && (RetryScheduled in out ==>
                  c.fallbackValid && s'.isFallback && !s.isFallback && forall i :: 0 <= i < |out| ==> !out[i].ErrorOut?)
            && (s.isFallback && !s'.isFallback ==> out != [] && out[0].ErrorOut?)
  {
  }

  /** Without force, over every run: a retry is scheduled only for a valid fallback, and at
      most one between two outside starts, unless an error has gone out in between. */
  lemma {:induction false} UnforcedRetries(c: Config, evs: seq<Event>)
    requires !c.force
    ensures Unreported(c, evs) <= 1
    ensures Unreported(c, evs) == 1 ==> State(c, evs).isFallback
    ensures RetryScheduled in LastOut(c, evs) ==> c.fallbackValid && State(c, evs).isFallback
  {
    if evs != [] {
      var before := evs[..|evs| - 1];
      UnforcedRetries(c, before);
      StepUnforced(c, State(c, before), evs[|evs| - 1]);
      hide Step;
    }
  }

  // ---- which configuration is tried ----

  /** The configurations of the launches attempted so far, in order. */
  function Attempts(c: Config, evs: seq<Event>): seq<bool> {
    if evs == [] then [] else Attempts(c, evs[..|evs| - 1]) + Tried(LastOut(c, evs))
  }

  function Tried(out: seq<Out>): seq<bool> {
    if out != [] && out[0].Attempt? then [out[0].fallback] else []
  }

  /** Outside starts ask for the primary configuration. */
  ghost predicate PrimaryStarts(evs: seq<Event>) {
    forall i :: 0 <= i < |evs| && evs[i].CloudStart? ==> !evs[i].fallback
  }

  predicate OnFallback(tried: seq<bool>) {
    tried != [] && tried[|tried| - 1]
  }

  lemma SlotTries(c: Config, s: Session, ev: Event, tried: seq<bool>)
    requires Inv(c, s) && Enabled(s, ev)
    requires ev.CloudStart? ==> !ev.fallback
    requires s.isFallback && s.client.process.Some? ==> OnFallback(tried)
    ensures var (s', out, signal) := Slot(c, s, ev);
            && (s'.isFallback && (s'.client.process.Some? || !signal.NoSignal?) ==> OnFallback(tried + Tried(out)))
            && ErrorOut(ClientFailure) !in out && ErrorOut(ClientTimeout) !in out
  {
  }

  lemma DeliverTries(c: Config, s: Session, signal: Signal, tried: seq<bool>)
    requires Inv(c, s) && c.fallbackValid
    requires s.isFallback && (s.client.process.Some? || !signal.NoSignal?) ==> OnFallback(tried)
    ensures var (s', out) := Deliver(c, s, signal);
            && (s'.isFallback && s'.client.process.Some? ==> OnFallback(tried))
            && (ErrorOut(ClientFailure) in out || ErrorOut(ClientTimeout) in out ==> OnFallback(tried))
            && Tried(out) == []
  {
    hide OnFallback;
  }

  lemma StepTries(c: Config, s: Session, ev: Event, tried: seq<bool>)
    requires Inv(c, s) && c.fallbackValid
    requires ev.CloudStart? ==> !ev.fallback
    requires s.isFallback && s.client.process.Some? ==> OnFallback(tried)
    ensures var (s', out) := Step(c, s, ev);
            && (s'.isFallback && s'.client.process.Some? ==> OnFallback(tried + Tried(out)))
            && (ErrorOut(ClientFailure) in out || ErrorOut(ClientTimeout) in out ==> OnFallback(tried + Tried(out)))
  {
    if Enabled(s, ev) {
      SlotKeepsInv(c, s, ev);
      SlotTries(c, s, ev, tried);
      var (s', out, signal) := Slot(c, s, ev);
      DeliverTries(c, s', signal, tried + Tried(out));
      var (s'', more) := Deliver(c, s', signal);
      assert Step(c, s, ev) == (s'', out + more);
      hide Slot, Deliver, Inv, Enabled, OnFallback;
      assert out == [] ==> out + more == more;
      assert Tried(out + more) == Tried(out);
    } else {
      assert tried + [] == tried;
    }
  }

  /** With a valid fallback, in every run, a client error or a connection timeout goes out as
      an error only when the launch before it, or first thing in it, was one of the fallback:
      no failure of the primary surfaces, however often the session was started. */
  lemma {:induction false} FallbackBeforeError(c: Config, evs: seq<Event>)
    requires c.fallbackValid && PrimaryStarts(evs)
    ensures State(c, evs).isFallback && State(c, evs).client.process.Some? ==> OnFallback(Attempts(c, evs))
    ensures ErrorOut(ClientFailure) in LastOut(c, evs) || ErrorOut(ClientTimeout) in LastOut(c, evs) ==>
              OnFallback(Attempts(c, evs))
  {
    if evs != [] {
      var before := evs[..|evs| - 1];
      assert PrimaryStarts(before);
      FallbackBeforeError(c, before);
      InvHolds(c, before);
      StepTries(c, State(c, before), evs[|evs| - 1], Attempts(c, before));
      hide Step, Inv, OnFallback;
    }
  }

  /** The only failures are connection timeouts. */
  predicate TimeoutsOnly(ev: Event, out: seq<Out>) {
    && !ev.ProcError? && !ev.ProcFinished? && !ev.SocketFailed? && !ev.MgmtFailure? && !ev.CloudStop?
    && SocketErrorRaised !in out
    && (ev.CloudStart? || ev.RetryFires? ==> ev.launch == Launchable)
  }

  /** The only failures are client errors. */
  predicate ClientErrorsOnly(ev: Event, out: seq<Out>) {
    !ev.SocketFailed? && !ev.MgmtFailure? && !ev.CloudStop? && !ev.ConnTimerFires? && SocketErrorRaised !in out
  }

  ghost predicate Throughout(c: Config, evs: seq<Event>, allowed: (Event, seq<Out>) -> bool) {
    evs != [] ==>
      && Throughout(c, evs[..|evs| - 1], allowed)
      && allowed(evs[|evs| - 1], LastOut(c, evs))
  }

  // How a slot launches: only a start or a retry that finds no process, in the current mode.
  lemma SlotLaunches(c: Config, s: Session, ev: Event)
    requires Inv(c, s) && Enabled(s, ev)
    ensures var (s', out, signal) := Slot(c, s, ev);
            && s'.isFallback == (if ev.CloudStart? then ev.fallback else s.isFallback)
            && Tried(out) ==
               (if s.client.process.None? && (ev.CloudStart? || ev.RetryFires?) then [s'.isFallback] else [])
            && (ev.CloudStart? || ev.RetryFires? ==>
                  (signal.NoSignal? ==> s'.client.process.Some?) && !signal.ManagerSignal?)
            && ((ev.CloudStart? || ev.RetryFires?) && ev.launch == Launchable ==> signal.NoSignal?)
            && (!ev.CloudStart? && !ev.RetryFires? && !ev.CloudStop? ==>
              s'.client.process.Some? == s.client.process.Some?)
            && (!ev.RetryFires? && !ev.CloudStop? ==> s'.retry.pending == s.retry.pending)
            && (signal.NoSignal? ==> out == Step(c, s, ev).1)
  {
  }

  lemma SignalChooses(c: Config, s: Session, signal: Signal)
    requires c.force && !signal.NoSignal?
    ensures var (s', out) := Deliver(c, s, signal);
            && Tried(out) == [] && out != []
            && s'.isFallback == (if signal.ClientSignal? then s.isFallback || c.fallbackValid
                                 else signal.err == ConnTimeout && !s.isFallback && c.fallbackValid)
  {
  }

  // Which signals the slots of a run with one kind of failure can emit.
  lemma SlotSignals(c: Config, s: Session, ev: Event)
    requires Inv(c, s) && Enabled(s, ev)
    ensures var signal := Slot(c, s, ev).2;
            && (TimeoutsOnly(ev, Step(c, s, ev).1) ==> signal.NoSignal? || signal == ManagerSignal(ConnTimeout))
            && (ClientErrorsOnly(ev, Step(c, s, ev).1) ==> !signal.ManagerSignal?)
            && (signal.NoSignal? ==> Deliver(c, Slot(c, s, ev).0, signal) == (Slot(c, s, ev).0, []))
  {
  }

  // Where the session stands among its attempts: the configuration of the current process,
  // or of the retry that is pending.
  ghost predicate Alternating(s: Session, tried: seq<bool>) {
    && (forall i :: 0 <= i < |tried| ==> tried[i] == (i % 2 == 1))
    && (s.client.process.Some? ==> tried != [] && s.isFallback == (|tried| % 2 == 0))
    && (s.retry.pending.Some? ==> tried != [] && s.isFallback == (|tried| % 2 == 1))
    && (s.client.process.None? && s.retry.pending.None? ==> tried == [])
  }

  lemma StepAlternates(c: Config, s: Session, ev: Event, tried: seq<bool>)
    requires Inv(c, s) && c.force && c.fallbackValid && Alternating(s, tried)
    requires !(s.client.process.Some? && s.retry.pending.Some?)
    requires ev.CloudStart? ==> AtRest(s) && !ev.fallback
    requires TimeoutsOnly(ev, Step(c, s, ev).1)
    ensures Alternating(Step(c, s, ev).0, tried + Tried(Step(c, s, ev).1))
  {
    StepRetries(c, s, ev);
    if Enabled(s, ev) {
      SlotKeepsInv(c, s, ev);
      SlotLaunches(c, s, ev);
      SlotSignals(c, s, ev);
      var (s', out, signal) := Slot(c, s, ev);
      if !signal.NoSignal? {
        SignalChooses(c, s', signal);
        SignalTakesDown(c, s', signal);
      }
      hide Slot, ClientErr, ManagerErr, Inv, Enabled;
    }
  }

  /** Under automatic retry, repeated timeouts alternate: primary, fallback, primary, ... */
  lemma {:induction false} TimeoutsAlternate(c: Config, evs: seq<Event>)
    requires c.force && c.fallbackValid && PrimaryStarts(evs) && StartsAtRest(c, evs)
    requires Throughout(c, evs, TimeoutsOnly)
    ensures Alternating(State(c, evs), Attempts(c, evs))
  {
    if evs != [] {
      var before := evs[..|evs| - 1];
      assert PrimaryStarts(before);
      TimeoutsAlternate(c, before);
      InvHolds(c, before);
      OneRetryPending(c, before);
      StepAlternates(c, State(c, before), evs[|evs| - 1], Attempts(c, before));
    }
  }

  ghost predicate Settling(s: Session, tried: seq<bool>) {
    && (forall i :: 0 <= i < |tried| ==> tried[i] == (i > 0))
    && (s.client.process.Some? ==> tried != [] && s.isFallback == (|tried| > 1))
    && (s.retry.pending.Some? ==> tried != [] && s.isFallback)
    && (s.client.process.None? && s.retry.pending.None? ==> tried == [])
  }

  lemma StepSettles(c: Config, s: Session, ev: Event, tried: seq<bool>)
    requires Inv(c, s) && c.force && c.fallbackValid && Settling(s, tried)
    requires !(s.client.process.Some? && s.retry.pending.Some?)
    requires ev.CloudStart? ==> AtRest(s) && !ev.fallback
    requires ClientErrorsOnly(ev, Step(c, s, ev).1)
    ensures Settling(Step(c, s, ev).0, tried + Tried(Step(c, s, ev).1))
  {
    StepRetries(c, s, ev);
    if Enabled(s, ev) {
      SlotKeepsInv(c, s, ev);
      SlotLaunches(c, s, ev);
      SlotSignals(c, s, ev);
      var (s', out, signal) := Slot(c, s, ev);
      if !signal.NoSignal? {
        SignalChooses(c, s', signal);
        SignalTakesDown(c, s', signal);
      }
      hide Slot, ClientErr, ManagerErr, Inv, Enabled;
    }
  }

  /** Under automatic retry, client errors move to the fallback once and stay there. */
  lemma {:induction false} ClientErrorsSettle(c: Config, evs: seq<Event>)
    requires c.force && c.fallbackValid && PrimaryStarts(evs) && StartsAtRest(c, evs)
    requires Throughout(c, evs, ClientErrorsOnly)
    ensures Settling(State(c, evs), Attempts(c, evs))
  {
    if evs != [] {
      var before := evs[..|evs| - 1];
      assert PrimaryStarts(before);
      ClientErrorsSettle(c, before);
      InvHolds(c, before);
      OneRetryPending(c, before);
      StepSettles(c, State(c, before), evs[|evs| - 1], Attempts(c, before));
    }
  }
}
