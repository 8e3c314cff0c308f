/** Class Retry of src/common/error.cpp: a single-shot timer with a fixed or an
    exponentially growing delay. */
module Retry {
  import opened Common

  const TIMEOUT := 5
  const BACKOFF_MAX := 300

  function Pow(base: nat, e: nat): nat {
    if e == 0 then 1 else base * Pow(base, e - 1)
  }

  const INT_MAX := 0x7FFF_FFFF

  /** What the timer is given, in milliseconds. Undefined stands for a power or a product
      that does not fit an int, where the language promises nothing. */
  datatype Delay = Ms(ms: int) | Undefined

  function Millis(secs: int): Delay {
    if -INT_MAX - 1 <= 1000 * secs <= INT_MAX then Ms(1000 * secs) else Undefined
  }

  /** The fields of a Retry; `pending` holds the delay while the timer runs. */
  datatype State = State(timeout: int, base: int, backoff: nat, max: int, pending: Option<Delay>)

  const INITIAL := State(TIMEOUT, -1, 1, BACKOFF_MAX, None)

  function SetBackoff(r: State, base: int, max: int): State {
    if base <= 1 || max < 1 then r else r.(base := base, max := max)
  }

  function Start(r: State): State {
    if r.base <= 0 then r.(pending := Some(Millis(r.timeout)))
    else if Pow(r.base, r.backoff) > INT_MAX then r.(pending := Some(Undefined))
    else
      var secs := Min(r.max, Pow(r.base, r.backoff));
      r.(backoff := if secs < r.max then r.backoff + 1 else r.backoff, pending := Some(Millis(secs)))
  }

  function Stop(r: State): State {
    r.(pending := None, backoff := 1)
  }

  function Fired(r: State): State {
    r.(pending := None)
  }

  /** The object as its caller sees it between slots. */
  class Timer {
    var timeout: int
    var base: int
    var backoff: nat
    var max: int
    var pending: Option<Delay>

    function View(): State
      reads this
    {
      State(timeout, base, backoff, max, pending)
    }

    constructor ()
      ensures View() == INITIAL
    {
      timeout, base, backoff, max, pending := TIMEOUT, -1, 1, BACKOFF_MAX, None;
    }

    method SetBackoffTo(newBase: int, newMax: int)
      modifies this
      ensures View() == SetBackoff(old(View()), newBase, newMax)
    {
      if newBase <= 1 || newMax < 1 {
        return;
      }
      base, max := newBase, newMax;
    }

    method Begin()
      modifies this
      ensures View() == Start(old(View()))
    {
      var secs;
      if base > 0 {
        var power := Pow(base, backoff);
        if power > INT_MAX {
          pending := Some(Undefined);
          return;
        }
        secs := Min(max, power);
        if secs < max {
          backoff := backoff + 1;
        }
      } else {
        secs := timeout;
      }
      pending := Some(Millis(secs));
    }

    method Cancel()
      modifies this
      ensures View() == Stop(old(View()))
    {
      pending, backoff := None, 1;
    }

    method Expire()
      modifies this
      ensures View() == Fired(old(View()))
    {
      pending := None;
    }
  }

  // ---- what the backoff keeps ----

  /** An exponential retry whose counter was raised only while the power was below the cap. */
  ghost predicate Exponential(r: State) {
    && r.base >= 2 && r.max >= 1 && r.backoff >= 1
    && (r.backoff > 1 ==> Pow(r.base, r.backoff - 1) < r.max)
  }

  lemma {:induction false} PowGrows(base: nat, d: nat, e: nat)
    requires base >= 1 && d <= e
    ensures 1 <= Pow(base, d) <= Pow(base, e)
    decreases e
  {
    if d < e {
      PowGrows(base, d, e - 1);
      assert Pow(base, e) == base * Pow(base, e - 1) >= Pow(base, e - 1);
    } else if e > 0 {
      PowGrows(base, d - 1, e - 1);
      assert base * Pow(base, e - 1) >= Pow(base, e - 1);
    }
  }

  lemma StartKeepsExponential(r: State)
    requires Exponential(r)
    ensures Exponential(Start(r)) && Exponential(Stop(r)) && Exponential(Fired(r))
  {
  }

  /** Of the parameters a caller sets: no delay and no power below the cap overflows. */
  predicate Fits(r: State) {
    r.base * r.max <= INT_MAX && 1000 * r.max <= INT_MAX
  }

  /** The power that is cast to int is below base * max, except for the very first one,
      which is the base itself. */
  lemma PowerBounded(r: State)
    requires Exponential(r)
    ensures Pow(r.base, r.backoff) == r.base || Pow(r.base, r.backoff) < r.base * r.max
  {
    PowNext(r.base, r.backoff - 1);
    PowNext(r.base, 0);
    hide Pow;
    if r.backoff > 1 {
      ScaleBelow(r.base, Pow(r.base, r.backoff - 1), r.max);
    }
  }

  lemma PowNext(base: nat, e: nat)
    ensures Pow(base, e + 1) == base * Pow(base, e) && Pow(base, 0) == 1
  {
  }

  lemma ScaleBelow(a: nat, p: int, q: int)
    requires a > 0 && p < q
    ensures a * p < a * q
  {
    assert a * q - a * p == a * (q - p);
  }

  /** `k` starts since the last stop: either the counter has followed them all, or it
      stands still where the power first reached the cap. */
  ghost predicate Counts(r: State, k: nat) {
    && Exponential(r)
    && r.backoff <= k + 1
    && (r.backoff <= k ==> Pow(r.base, r.backoff) >= r.max)
  }

  lemma StopRestartsCount(r: State)
    requires Exponential(r)
    ensures Counts(Stop(r), 0)
  {
  }

  lemma FiredKeepsCount(r: State, k: nat)
    requires Counts(r, k)
    ensures Exponential(r) && Counts(Fired(r), k)
  {
  }

  lemma AtLeastFactor(a: nat, b: int)
    requires b >= 1
    ensures a <= a * b
  {
    assert a * b == a + a * (b - 1);
  }

  lemma PowFits(r: State)
    requires Exponential(r) && Fits(r)
    ensures 0 < Pow(r.base, r.backoff) <= INT_MAX
  {
    PowerBounded(r);
    PowGrows(r.base, 0, r.backoff);
    AtLeastFactor(r.base, r.max);
  }

  /** Within parameters that fit, the start after k others waits exactly
      min(max, base^(k+1)) seconds. */
  lemma StartWaits(r: State, k: nat)
    requires Counts(r, k) && Fits(r)
    ensures Start(r).pending == Some(Ms(1000 * Min(r.max, Pow(r.base, k + 1))))
    ensures Counts(Start(r), k + 1) && Fits(Start(r))
  {
    PowFits(r);
    StartKeepsExponential(r);
    if r.backoff <= k {
      PowGrows(r.base, r.backoff, k + 1);
    }
    hide Pow;
  }

  // ---- the delays of a run of starts, for any parameters ----

  /** The delay of the j-th start from now, when nothing stops the timer in between. */
  function DelayAt(r: State, j: nat): Delay
    decreases j
  {
    if j == 0 then Start(r).pending.value else DelayAt(Start(r), j - 1)
  }

  /** The least power that reaches the cap, from exponent `e` on. */
  function Reach(base: nat, e: nat, max: int): (p: nat)
    requires base >= 2
    ensures p >= Pow(base, e) && p >= max
    decreases max - Pow(base, e)
  {
    if Pow(base, e) >= max then Pow(base, e)
    else
      PowGrows(base, 0, e);
      Reach(base, e + 1, max)
  }

  /** Both the cap in milliseconds and the power that reaches it are ints. */
  predicate InRange(r: State)
    requires r.base >= 2
  {
    1000 * r.max <= INT_MAX && Reach(r.base, r.backoff, r.max) <= INT_MAX
  }

  lemma {:induction false} DelayInRange(r: State, j: nat)
    requires r.base >= 2 && r.max >= 1 && InRange(r)
    ensures DelayAt(r, j) == Ms(1000 * Min(r.max, Pow(r.base, r.backoff + j)))
    decreases j
  {
    PowGrows(r.base, 0, r.backoff);
    if j > 0 {
      DelayInRange(Start(r), j - 1);
      PowGrows(r.base, r.backoff, r.backoff + j - 1);
      PowGrows(r.base, r.backoff, r.backoff + j);
    }
  }

  lemma {:induction false} DelayOutOfRange(r: State) returns (j: nat)
    requires r.base >= 2 && r.max >= 1 && !InRange(r)
    ensures DelayAt(r, j) == Undefined
    decreases r.max - Pow(r.base, r.backoff)
  {
    hide Pow;
    PowStrict(r.base, r.backoff, r.backoff + 1);
    if Pow(r.base, r.backoff) > INT_MAX || Pow(r.base, r.backoff) >= r.max {
      j := 0;
    } else {
      j := DelayOutOfRange(Start(r));
      j := j + 1;
    }
  }

  lemma {:induction false} PowStrict(base: nat, d: nat, e: nat)
    requires base >= 2 && d < e
    ensures Pow(base, d) < Pow(base, e)
  {
    PowGrows(base, 0, d);
    PowGrows(base, d + 1, e);
  }

  /** After k starts, whatever the counter shows: every later delay is min(max, base^(k+1))
      and so on, if and only if all of them are ints and the counter either followed the
      starts or stands where the power reaches the cap. */
  lemma ScheduleIff(r: State, k: nat)
    requires r.base >= 2 && r.max >= 1 && 1 <= r.backoff <= k + 1
    ensures (forall j: nat :: DelayAt(r, j) == Ms(1000 * Min(r.max, Pow(r.base, k + 1 + j)))) <==>
            InRange(r) && (r.backoff == k + 1 || Pow(r.base, r.backoff) >= r.max)
  {
    hide InRange, DelayAt, Millis;
    if !InRange(r) {
      var j := DelayOutOfRange(r);
      assert DelayAt(r, j) == Undefined;
    } else if r.backoff == k + 1 || Pow(r.base, r.backoff) >= r.max {
      forall j: nat ensures DelayAt(r, j) == Ms(1000 * Min(r.max, Pow(r.base, k + 1 + j))) {
        DelayInRange(r, j);
        PowGrows(r.base, r.backoff, r.backoff + j);
        PowGrows(r.base, r.backoff, k + 1 + j);
      }
    } else {
      DelayInRange(r, 0);
      PowStrict(r.base, r.backoff, k + 1);
      assert DelayAt(r, 0) != Ms(1000 * Min(r.max, Pow(r.base, k + 1 + 0)));
    }
  }

  lemma {:induction false} FitsInRange(r: State)
    requires Exponential(r) && Fits(r)
    ensures InRange(r)
    decreases r.max - Pow(r.base, r.backoff)
  {
    PowFits(r);
    if Pow(r.base, r.backoff) < r.max {
      PowStrict(r.base, r.backoff, r.backoff + 1);
      FitsInRange(r.(backoff := r.backoff + 1));
    }
    hide Pow;
  }

  /** Within parameters that fit, all delays after k starts are as they should be. */
  lemma FittingSchedule(r: State, k: nat)
    requires Counts(r, k) && Fits(r)
    ensures forall j: nat :: DelayAt(r, j) == Ms(1000 * Min(r.max, Pow(r.base, k + 1 + j)))
  {
    FitsInRange(r);
    ScheduleIff(r, k);
  }

  /** From a fresh counter the k-th start waits min(max, base^k) seconds, for all k, if and
      only if the cap in milliseconds and the least power that reaches it are ints. */
  lemma FreshSchedule(base: int, max: int)
    requires base >= 2 && max >= 1
    ensures var r := SetBackoff(INITIAL, base, max);
            (forall j: nat :: DelayAt(r, j) == Ms(1000 * Min(max, Pow(base, 1 + j)))) <==>
            1000 * max <= INT_MAX && Reach(base, 1, max) <= INT_MAX
  {
    var r := SetBackoff(INITIAL, base, max);
    ScheduleIff(r, 0);
  }

  /** New parameters between two starts: the delays go on as min(max, base^k) in the new
      parameters, k counting from the last stop, if and only if they are ints and the
      counter had not yet stood still, or stands where the new cap is reached. A rejected
      call leaves a counter of which this holds. */
  lemma SetBackoffSchedule(r: State, k: nat, base: int, max: int)
    requires Counts(r, k)
    ensures var s := SetBackoff(r, base, max);
            && (s == r ==> r.backoff == k + 1 || Pow(s.base, r.backoff) >= s.max)
            && ((forall j: nat :: DelayAt(s, j) == Ms(1000 * Min(s.max, Pow(s.base, k + 1 + j)))) <==>
                InRange(s) && (r.backoff == k + 1 || Pow(s.base, r.backoff) >= s.max))
  {
    ScheduleIff(SetBackoff(r, base, max), k);
  }

  // ---- runs that fail ----

  datatype Call = Set(base: int, max: int) | Begin | Cancel

  function Does(r: State, call: Call): State {
    match call
    case Set(base, max) => SetBackoff(r, base, max)
    case Begin => Start(r)
    case Cancel => Stop(r)
  }

  function Calls(r: State, calls: seq<Call>): State
    decreases |calls|
  {
    if calls == [] then r else Calls(Does(r, calls[0]), calls[1..])
  }

  /** Calls that set no base from 2 on with a cap from 1 on. */
  ghost predicate NeverSet(calls: seq<Call>) {
    forall i :: 0 <= i < |calls| && calls[i].Set? ==> calls[i].base <= 1 || calls[i].max <= 0
  }

  lemma {:induction false} CallsConcat(r: State, calls: seq<Call>, more: seq<Call>)
    ensures Calls(r, calls + more) == Calls(Calls(r, calls), more)
    decreases |calls|
  {
    hide Does;
    if calls == [] {
      assert [] + more == more;
    } else {
      CallsConcat(Does(r, calls[0]), calls[1..], more);
      assert (calls + more)[1..] == calls[1..] + more;
    }
  }

  lemma {:induction false} ParametersStay(r: State, calls: seq<Call>)
    requires NeverSet(calls)
    ensures var s := Calls(r, calls); s.timeout == r.timeout && s.base == r.base && s.max == r.max
    decreases |calls|
  {
    if calls != [] {
      ParametersStay(Does(r, calls[0]), calls[1..]);
    }
  }

  /** Without a backoff every start waits 5 seconds, whatever was called before. */
  lemma FixedDelay(calls: seq<Call>)
    requires NeverSet(calls)
    ensures Calls(INITIAL, calls + [Begin]).pending == Some(Ms(5000))
  {
    ParametersStay(INITIAL, calls);
    CallsConcat(INITIAL, calls, [Begin]);
  }

  /** In any run the last call that could set a base and a cap decides them. */
  lemma LastSetDecides(calls: seq<Call>, base: int, max: int, more: seq<Call>)
    requires base >= 2 && max >= 1 && NeverSet(more)
    ensures var r := Calls(INITIAL, calls + ([Set(base, max)] + more)); r.base == base && r.max == max
  {
    CallsConcat(INITIAL, calls, [Set(base, max)] + more);
    CallsConcat(Calls(INITIAL, calls), [Set(base, max)], more);
    ParametersStay(Calls(Calls(INITIAL, calls), [Set(base, max)]), more);
  }

  lemma PowSmall(base: nat)
    ensures Pow(base, 0) == 1 && Pow(base, 1) == base && Pow(base, 2) == base * base
    ensures Pow(base, 3) == base * base * base
    ensures Pow(base, 4) == base * base * base * base
    ensures Pow(base, 5) == base * base * base * base * base
  {
  }

  /** The second power of a large base is no int, though the cap is far below. */
  lemma LargeBaseOverflows()
    ensures Calls(INITIAL, [Set(50000, 60000), Begin]).pending == Some(Ms(50_000_000))
    ensures Calls(INITIAL, [Set(50000, 60000), Begin, Begin]).pending == Some(Undefined)
  {
    PowSmall(50000);
  }

  /** Raising the cap after the counter stood still: the fourth start waits 4 seconds, not
      min(300, 2^4). */
  lemma RaisedCapLags()
    ensures Calls(INITIAL, [Set(2, 4), Begin, Begin, Begin, Set(2, 300), Begin]).pending == Some(Ms(4000))
    ensures Min(300, Pow(2, 4)) == 16
  {
    PowSmall(2);
  }

  /** Raising the base after the counter grew: the parameters fit, but the power does not. */
  lemma RaisedBaseOverflows()
    ensures Fits(SetBackoff(INITIAL, 100, 300))
    ensures Calls(INITIAL, [Set(2, 300), Begin, Begin, Begin, Begin, Set(100, 300), Begin]).pending == Some(Undefined)
  {
    PowSmall(2);
    PowSmall(100);
  }
}
