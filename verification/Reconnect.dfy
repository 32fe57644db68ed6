/**
  Automatic reconnection (client/usbip-client/src/reconnect.rs) and the retry loop of
  `import_device` (client.rs:192-242). Delays are exact real numbers, in seconds, and the random
  jitter is an arbitrary choice in its range.
 */
module Reconnect {
  import opened Bytes
  import opened Arith
  import opened Usb
  import opened EndToEnd

  datatype Config = Config(maxRetries: Option<nat>, initialDelay: nat, maxDelay: nat, multiplier: real)
  {
    /** Settings for which the jitter range is never empty; sampling an empty range panics. */
    predicate Valid() {
      initialDelay >= 1 && maxDelay >= 1 && multiplier > 0.0
    }

    predicate ShouldRetry(attempt: nat) {
      maxRetries.None? || attempt < maxRetries.value
    }
  }

  const DEFAULT_CONFIG := Config(None, 1, 30, 2.0)

  // ---- Delays ----

  function Pow(x: real, n: nat): (r: real)
    requires x > 0.0
    ensures r > 0.0
  {
    if n == 0 then 1.0 else PositiveProduct(x, Pow(x, n - 1)); x * Pow(x, n - 1)
  }

  lemma PositiveProduct(x: real, y: real)
    requires x > 0.0 && y > 0.0
    ensures x * y > 0.0
  {
  }

  function RawDelay(c: Config, attempt: nat): (r: real)
    requires c.Valid()
    ensures r > 0.0
  {
    PositiveProduct(c.initialDelay as real, Pow(c.multiplier, attempt));
    c.initialDelay as real * Pow(c.multiplier, attempt)
  }

  function CappedDelay(c: Config, attempt: nat): (r: real)
    requires c.Valid()
    ensures 0.0 < r <= c.maxDelay as real
  {
    if RawDelay(c, attempt) < c.maxDelay as real then RawDelay(c, attempt) else c.maxDelay as real
  }

  /** The half-open range `-25% .. 25%` of the capped delay. */
  predicate IsJitter(c: Config, attempt: nat, jitter: real)
    requires c.Valid()
  {
    -(CappedDelay(c, attempt) * 0.25) <= jitter < CappedDelay(c, attempt) * 0.25
  }

  /** `delay_for_attempt` for a given sample of the jitter. */
  function DelayFor(c: Config, attempt: nat, jitter: real): (d: real)
    requires c.Valid() && IsJitter(c, attempt, jitter)
  {
    var total := CappedDelay(c, attempt) + jitter;
    if total > 0.1 then total else 0.1
  }

  /**
    A delay is the capped delay plus the jitter, raised to 0.1 s. So it is at least that, within a quarter
    of the capped delay, and below 1.25 times the cap.
   */
  lemma DelayBounds(c: Config, attempt: nat, jitter: real)
    requires c.Valid() && IsJitter(c, attempt, jitter)
    ensures var d := DelayFor(c, attempt, jitter);
            && d >= CappedDelay(c, attempt) + jitter && (d == CappedDelay(c, attempt) + jitter || d == 0.1)
            && 0.1 <= d < 1.25 * c.maxDelay as real
            && 0.75 * CappedDelay(c, attempt) <= d
            && (CappedDelay(c, attempt) >= 1.0 ==> d < 1.25 * CappedDelay(c, attempt))
  {
  }

  /** Uncapped, the delay starts at the configured one and grows by the multiplier; the cap is the smaller of two. */
  lemma RawDelayGrows(c: Config, attempt: nat)
    requires c.Valid()
    ensures RawDelay(c, 0) == c.initialDelay as real
    ensures RawDelay(c, attempt + 1) == c.multiplier * RawDelay(c, attempt)
    ensures CappedDelay(c, attempt) <= RawDelay(c, attempt)
    ensures CappedDelay(c, attempt) == RawDelay(c, attempt) || CappedDelay(c, attempt) == c.maxDelay as real
  {
    var i, m, p := c.initialDelay as real, c.multiplier, Pow(c.multiplier, attempt);
    assert i * (m * p) == m * (i * p);
  }

  lemma {:induction false} CappedFromFive(attempt: nat)
    requires attempt >= 5
    ensures RawDelay(DEFAULT_CONFIG, attempt) >= 32.0
  {
    RawDelayGrows(DEFAULT_CONFIG, attempt - 1);
    if attempt == 5 {
      FirstDelays();
    } else {
      CappedFromFive(attempt - 1);
    }
  }

  lemma FirstDelays()
    ensures RawDelay(DEFAULT_CONFIG, 0) == 1.0 && RawDelay(DEFAULT_CONFIG, 1) == 2.0
    ensures RawDelay(DEFAULT_CONFIG, 2) == 4.0
    ensures RawDelay(DEFAULT_CONFIG, 3) == 8.0 && RawDelay(DEFAULT_CONFIG, 4) == 16.0
  {
    RawDelayGrows(DEFAULT_CONFIG, 0);
    RawDelayGrows(DEFAULT_CONFIG, 1);
    RawDelayGrows(DEFAULT_CONFIG, 2);
    RawDelayGrows(DEFAULT_CONFIG, 3);
  }

  /** The documented default schedule before jitter: 1, 2, 4, 8, 16 and from the sixth attempt on 30 seconds. */
  lemma DefaultSchedule(attempt: nat)
    ensures CappedDelay(DEFAULT_CONFIG, attempt) ==
            if attempt == 0 then 1.0 else if attempt == 1 then 2.0 else if attempt == 2 then 4.0
            else if attempt == 3 then 8.0 else if attempt == 4 then 16.0 else 30.0
  {
    FirstDelays();
    if attempt >= 5 {
      CappedFromFive(attempt);
    }
  }

  /** Whatever the jitter, the delay of attempt `b` is longer than that of attempt `a`. */
  ghost predicate AlwaysLonger(c: Config, a: nat, b: nat)
    requires c.Valid()
  {
    forall j, k :: IsJitter(c, a, j) && IsJitter(c, b, k) ==> DelayFor(c, a, j) < DelayFor(c, b, k)
  }

  lemma {:induction false} RawDelayAtLeastInitial(c: Config, attempt: nat)
    requires c.Valid() && c.multiplier >= 1.0
    ensures RawDelay(c, attempt) >= 1.0
  {
    if attempt > 0 {
      RawDelayAtLeastInitial(c, attempt - 1);
      RawDelayGrows(c, attempt - 1);
      AtLeast(c.multiplier, RawDelay(c, attempt - 1));
    }
  }

  lemma AtLeast(m: real, x: real)
    requires m >= 1.0 && x >= 1.0
    ensures m * x >= 1.0
  {
    assert (m - 1.0) * x >= 0.0;
  }

  lemma Scale(x: real, a: real, b: real)
    requires x > 0.0
    ensures a <= b ==> a * x <= b * x
    ensures a < b ==> a * x < b * x
  {
    if a < b {
      PositiveProduct(b - a, x);
    }
  }

  lemma SteepRatio(m: real, x: real, y: real)
    requires x > 0.0 && y == m * x && 3.0 * m >= 5.0
    ensures 3.0 * y >= 5.0 * x
  {
    Scale(x, 5.0, 3.0 * m);
    assert 3.0 * y == 3.0 * m * x;
  }

  lemma LongerWhenSteep(c: Config, attempt: nat, j: real, k: real)
    requires c.Valid() && RawDelay(c, attempt) <= c.maxDelay as real && RawDelay(c, attempt + 1) <= c.maxDelay as real
    requires 3.0 * c.multiplier >= 5.0
    requires IsJitter(c, attempt, j) && IsJitter(c, attempt + 1, k)
    ensures DelayFor(c, attempt, j) < DelayFor(c, attempt + 1, k)
  {
    var x, y := CappedDelay(c, attempt), CappedDelay(c, attempt + 1);
    assert x == RawDelay(c, attempt) && y == RawDelay(c, attempt + 1);
    RawDelayGrows(c, attempt);
    RawDelayAtLeastInitial(c, attempt);
    SteepRatio(c.multiplier, x, y);
  }

  /** Two base delays in a ratio below 5/3 can be jittered past each other. */
  lemma Overlap(x: real, y: real) returns (j: real, k: real)
    requires x > 0.0 && y > 0.0 && 3.0 * y < 5.0 * x
    ensures -(x * 0.25) <= j < x * 0.25 && -(y * 0.25) <= k < y * 0.25
    ensures x + j >= y + k
  {
    var gap := 1.25 * x - 0.75 * y;
    var slack := if gap < x * 0.25 then gap else x * 0.25;
    j, k := x * 0.25 - slack, -(y * 0.25);
  }

  lemma FlatRatio(m: real, x: real, y: real)
    requires x > 0.0 && y == m * x && 3.0 * m < 5.0
    ensures 3.0 * y < 5.0 * x
  {
    Scale(x, 3.0 * m, 5.0);
    assert 3.0 * y == 3.0 * m * x;
  }

  lemma NotLongerWhenFlat(c: Config, attempt: nat)
    requires c.Valid() && RawDelay(c, attempt) <= c.maxDelay as real && RawDelay(c, attempt + 1) <= c.maxDelay as real
    requires 3.0 * c.multiplier < 5.0
    ensures !AlwaysLonger(c, attempt, attempt + 1)
  {
    var x, y := CappedDelay(c, attempt), CappedDelay(c, attempt + 1);
    assert x == RawDelay(c, attempt) && y == RawDelay(c, attempt + 1);
    RawDelayGrows(c, attempt);
    FlatRatio(c.multiplier, x, y);
    var j, k := Overlap(x, y);
    assert IsJitter(c, attempt, j) && IsJitter(c, attempt + 1, k);
    assert !(DelayFor(c, attempt, j) < DelayFor(c, attempt + 1, k));
  }

  /** Between uncapped attempts, delays increase for every jitter if and only if the multiplier is at least 5/3. */
  lemma IncreasingIff(c: Config, attempt: nat)
    requires c.Valid() && RawDelay(c, attempt) <= c.maxDelay as real && RawDelay(c, attempt + 1) <= c.maxDelay as real
    ensures AlwaysLonger(c, attempt, attempt + 1) <==> 3.0 * c.multiplier >= 5.0
  {
    var next := attempt + 1;
    if 3.0 * c.multiplier >= 5.0 {
      forall j, k | IsJitter(c, attempt, j) && IsJitter(c, next, k)
        ensures DelayFor(c, attempt, j) < DelayFor(c, next, k)
      {
        LongerWhenSteep(c, attempt, j, k);
      }
    } else {
      NotLongerWhenFlat(c, attempt);
    }
  }

  // ---- The state machine ----

  datatype State = Active | BackOff(attempt: nat, delay: real) | Stopped

  datatype Decision = RetryAfter(delay: real) | Stop

  /** How one forwarding task ended. */
  datatype Ending = Clean | Error(kind: ErrorKind)
  {
    predicate IsTransient() {
      Error? && Category(kind) == Transient
    }
  }

  /** Fresh jitter at every step, from the range of whatever attempt that step makes. */
  ghost predicate Jitters(c: Config, jitter: (nat, nat) -> real) {
    c.Valid() && forall step: nat, attempt: nat :: IsJitter(c, attempt, jitter(step, attempt))
  }

  function NextAttempt(s: State): (n: nat) {
    if s.BackOff? then s.attempt + 1 else 0
  }

  /** `on_error`. */
  function OnError(s: State, e: ErrorKind, c: Config, jitter: real): (s': State)
    requires c.Valid() && IsJitter(c, NextAttempt(s), jitter)
  {
    if Category(e) == Transient && c.ShouldRetry(NextAttempt(s))
    then BackOff(NextAttempt(s), DelayFor(c, NextAttempt(s), jitter))
    else Stopped
  }

  class ReconnectMachine {
    var state: State

    constructor ()
      ensures state == Active
    {
      state := Active;
    }

    /** `decide_reconnect`: a clean end stops without touching the state. */
    method Decide(ending: Ending, c: Config, jitter: real) returns (d: Decision)
      requires c.Valid() && IsJitter(c, NextAttempt(state), jitter)
      modifies this
      ensures ending.Clean? ==> d == Stop && state == old(state)
      ensures ending.Error? ==> state == OnError(old(state), ending.kind, c, jitter)
      ensures d.RetryAfter? <==> ending.IsTransient() && c.ShouldRetry(NextAttempt(old(state)))
      ensures d.RetryAfter? ==> state == BackOff(NextAttempt(old(state)), d.delay)
    {
      match ending
      case Clean => d := Stop;
      case Error(e) =>
        state := OnError(state, e, c, jitter);
        d := if state.BackOff? then RetryAfter(state.delay) else Stop;
    }

    /** `classify_and_backoff`: the same verdict, except that a clean end also moves to `Stopped`. */
    method ClassifyAndBackoff(ending: Ending, c: Config, jitter: real) returns (delay: Option<real>)
      requires c.Valid() && IsJitter(c, NextAttempt(state), jitter)
      modifies this
      ensures ending.Clean? ==> delay == None && state == Stopped
      ensures ending.Error? ==> state == OnError(old(state), ending.kind, c, jitter)
      ensures delay.Some? <==> ending.IsTransient() && c.ShouldRetry(NextAttempt(old(state)))
      ensures delay.Some? ==> state == BackOff(NextAttempt(old(state)), delay.value)
    {
      match ending
      case Clean =>
        state := Stopped;
        delay := None;
      case Error(e) =>
        state := OnError(state, e, c, jitter);
        delay := if state.BackOff? then Some(state.delay) else None;
    }
  }

  // ---- Runs of errors ----

  /** The machine after a list of errors. */
  function AfterErrors(s: State, c: Config, errors: seq<ErrorKind>, jitter: (nat, nat) -> real): (s': State)
    requires c.Valid() && forall step: nat, attempt: nat :: IsJitter(c, attempt, jitter(step, attempt))
    decreases |errors|
  {
    if errors == [] then s else
    var n := |errors| - 1;
    var before := AfterErrors(s, c, errors[..n], jitter);
    OnError(before, errors[n], c, jitter(n, NextAttempt(before)))
  }

  /** How many transient errors end the list. */
  function Trailing(errors: seq<ErrorKind>): (n: nat)
    ensures n <= |errors|
    decreases |errors|
  {
    if errors == [] || Category(errors[|errors| - 1]) != Transient then 0
    else Trailing(errors[..|errors| - 1]) + 1
  }

  /** Position in the current round of retries: with a limit of m a round is m retries and a stop. */
  function Position(c: Config, trailing: nat): (r: nat) {
    if c.maxRetries.None? then trailing else trailing % (c.maxRetries.value + 1)
  }

  lemma NextPosition(c: Config, trailing: nat)
    ensures var r := Position(c, trailing);
            Position(c, trailing + 1) == if c.ShouldRetry(r) then r + 1 else 0
  {
    if c.maxRetries.Some? {
      NextRemainder(trailing, c.maxRetries.value + 1);
    }
  }

  /**
    The state after any errors of any category, each with its own jitter. It is `Stopped` exactly
    when the last error is not transient or the transient errors at the end are a multiple of m + 1.
    Otherwise it backs off, with the attempt number and the delay read off the length of that run.
   */
  lemma {:induction false} RetriesThenStops(s: State, c: Config, errors: seq<ErrorKind>, jitter: (nat, nat) -> real)
    requires Jitters(c, jitter) && !s.BackOff? && errors != []
    ensures var n, r := |errors| - 1, Position(c, Trailing(errors));
            AfterErrors(s, c, errors, jitter) ==
            if r == 0 then Stopped else BackOff(r - 1, DelayFor(c, r - 1, jitter(n, r - 1)))
    decreases |errors|
  {
    var n := |errors| - 1;
    if n > 0 {
      RetriesThenStops(s, c, errors[..n], jitter);
    }
    NextPosition(c, Trailing(errors[..n]));
    assert Position(c, 0) == 0;
  }

  lemma {:induction false} TrailingAll(errors: seq<ErrorKind>)
    requires forall i :: 0 <= i < |errors| ==> Category(errors[i]) == Transient
    ensures Trailing(errors) == |errors|
    decreases |errors|
  {
    if errors != [] {
      TrailingAll(errors[..|errors| - 1]);
    }
  }

  /** The default never gives up: after n transient errors in a row it waits for its n-th attempt. */
  lemma DefaultKeepsRetrying(errors: seq<ErrorKind>, jitter: (nat, nat) -> real)
    requires Jitters(DEFAULT_CONFIG, jitter) && errors != []
    requires forall i :: 0 <= i < |errors| ==> Category(errors[i]) == Transient
    ensures var s, n := AfterErrors(Active, DEFAULT_CONFIG, errors, jitter), |errors| - 1;
            s.BackOff? && s.attempt == n && s.delay == DelayFor(DEFAULT_CONFIG, n, jitter(n, n))
  {
    TrailingAll(errors);
    RetriesThenStops(Active, DEFAULT_CONFIG, errors, jitter);
  }

  /** `Stopped` is final for a list of errors if and only if none of them is transient or no retry is allowed at all. */
  lemma StoppedIsFinalIff(c: Config, errors: seq<ErrorKind>, jitter: (nat, nat) -> real)
    requires Jitters(c, jitter)
    ensures (forall k :: 0 <= k <= |errors| ==> AfterErrors(Stopped, c, errors[..k], jitter) == Stopped) <==>
            c.maxRetries == Some(0) || forall i :: 0 <= i < |errors| ==> Category(errors[i]) != Transient
  {
    forall k | 0 < k <= |errors| ensures AfterErrors(Stopped, c, errors[..k], jitter) == Stopped <==>
                                         Position(c, Trailing(errors[..k])) == 0
    {
      RetriesThenStops(Stopped, c, errors[..k], jitter);
    }
    if c.maxRetries != Some(0) && exists i :: 0 <= i < |errors| && Category(errors[i]) == Transient {
      var i :| 0 <= i < |errors| && Category(errors[i]) == Transient;
      assert errors[..i + 1][..i] == errors[..i];
      NextPosition(c, Trailing(errors[..i]));
      assert AfterErrors(Stopped, c, errors[..i], jitter) != Stopped ||
             AfterErrors(Stopped, c, errors[..i + 1], jitter) != Stopped;
    }
  }

  // ---- The import loop ----

  /** Whether the loop goes on to a further task after the first `k` tasks have ended as listed. */
  predicate AllRetried(endings: seq<Ending>, k: nat, c: Config)
    requires k <= |endings|
  {
    forall i :: 0 <= i < k ==> endings[i].IsTransient() && c.ShouldRetry(i)
  }

  /** How many tasks the loop runs, from task `k` on; `endings` says how the successive tasks would end. */
  function TasksFrom(endings: seq<Ending>, k: nat, autoReconnect: bool, c: Config): (n: nat)
    requires k < |endings|
    ensures k < n <= |endings|
    decreases |endings| - k
  {
    if autoReconnect && endings[k].IsTransient() && c.ShouldRetry(k) && k + 1 < |endings|
    then TasksFrom(endings, k + 1, autoReconnect, c) else k + 1
  }

  function Tasks(endings: seq<Ending>, autoReconnect: bool, c: Config): (n: nat)
    requires endings != []
  {
    TasksFrom(endings, 0, autoReconnect, c)
  }

  lemma {:induction false} TasksFromIff(endings: seq<Ending>, j: nat, k: nat, autoReconnect: bool, c: Config)
    requires j <= k < |endings|
    ensures TasksFrom(endings, j, autoReconnect, c) > k <==>
            k == j || (autoReconnect && forall i :: j <= i < k ==> endings[i].IsTransient() && c.ShouldRetry(i))
    decreases |endings| - j
  {
    if j < k && autoReconnect && endings[j].IsTransient() && c.ShouldRetry(j) {
      TasksFromIff(endings, j + 1, k, autoReconnect, c);
    }
  }

  lemma TasksIff(endings: seq<Ending>, k: nat, autoReconnect: bool, c: Config)
    requires 0 < k < |endings|
    ensures Tasks(endings, autoReconnect, c) > k <==> autoReconnect && AllRetried(endings, k, c)
  {
    TasksFromIff(endings, 0, k, autoReconnect, c);
  }

  /**
    The retry loop. It gets to task k exactly when every earlier task ended with a transient error
    and its number was below the retry limit: progress made by a task never resets the count.
   */
  method ImportLoop(endings: seq<Ending>, autoReconnect: bool, c: Config, jitter: (nat, nat) -> real)
    returns (tasks: nat, delays: seq<real>)
    requires Jitters(c, jitter) && endings != []
    ensures tasks == Tasks(endings, autoReconnect, c)
    ensures 1 <= tasks <= |endings|
    ensures forall k :: 0 < k < |endings| ==> (tasks > k <==> autoReconnect && AllRetried(endings, k, c))
    ensures |delays| == tasks - 1 || |delays| == tasks == |endings|
    ensures forall k :: 0 <= k < |delays| ==> delays[k] == DelayFor(c, k, jitter(k, k))
  {
    forall k | 0 < k < |endings|
      ensures Tasks(endings, autoReconnect, c) > k <==> autoReconnect && AllRetried(endings, k, c)
    {
      TasksIff(endings, k, autoReconnect, c);
    }
    var machine := new ReconnectMachine();
    tasks, delays := 0, [];
    while tasks < |endings|
      invariant 0 <= tasks <= |endings|
      invariant tasks < |endings| ==> Tasks(endings, autoReconnect, c) == TasksFrom(endings, tasks, autoReconnect, c)
      invariant tasks == |endings| ==> Tasks(endings, autoReconnect, c) == tasks
      invariant NextAttempt(machine.state) == tasks
      invariant |delays| == tasks
      invariant forall k :: 0 <= k < |delays| ==> delays[k] == DelayFor(c, k, jitter(k, k))
    {
      var ending := endings[tasks];
      tasks := tasks + 1;
      if ending.Clean? || !autoReconnect {
        return;
      }
      var decision := machine.Decide(ending, c, jitter(tasks - 1, tasks - 1));
      if decision.Stop? {
        return;
      }
      delays := delays + [decision.delay];
    }
  }

  /** With a limit of m the loop runs at most m + 1 tasks, and that many when it may and all errors are transient. */
  lemma RetryBudget(endings: seq<Ending>, autoReconnect: bool, c: Config, m: nat)
    requires c.maxRetries == Some(m) && endings != []
    ensures Tasks(endings, autoReconnect, c) <= m + 1
    ensures autoReconnect && (forall i :: 0 <= i < |endings| ==> endings[i].IsTransient()) ==>
            Tasks(endings, autoReconnect, c) == if |endings| < m + 1 then |endings| else m + 1
  {
    if m + 1 < |endings| {
      TasksFromIff(endings, 0, m + 1, autoReconnect, c);
      assert !c.ShouldRetry(m);
    }
    var last := if |endings| < m + 1 then |endings| - 1 else m;
    TasksFromIff(endings, 0, last, autoReconnect, c);
  }

  // ---- Which task ends are retried ----

  /** One task: connecting and importing fails, or the URB loop runs on the bytes `s` until they end or it leaves. */
  datatype Task =
    | NoConnection(error: ErrorKind)
    | Forwarding(s: seq<Byte>, turns: nat -> ClientTurn, vhciError: ErrorKind)

  /** `urb_forwarding_task`; a failed VHCI call hands on its error. */
  function EndingOf(t: Task): (e: Ending) {
    match t
    case NoConnection(error) => Error(error)
    case Forwarding(s, turns, vhciError) => if Client(s, turns, 0).ok then Clean else Error(vhciError)
  }

  function EndingsOf(ts: seq<Task>): (es: seq<Ending>)
    ensures |es| == |ts|
  {
    seq(|ts|, i requires 0 <= i < |ts| => EndingOf(ts[i]))
  }

  /** Connecting failed, or the backend refused a call the task's loop got to, with a transient error. */
  ghost predicate FailsTransiently(t: Task) {
    match t
    case NoConnection(error) => Category(error) == Transient
    case Forwarding(s, turns, vhciError) =>
      Category(vhciError) == Transient && GetsRefused(s, turns, 0)
  }

  lemma TransientIff(t: Task)
    ensures EndingOf(t).IsTransient() <==> FailsTransiently(t)
  {
    if t.Forwarding? {
      OnlyVhciErrorsAreReported(t.s, t.turns, 0);
    }
  }

  /**
    The import loop gets to task k if and only if auto-reconnect is on, k retries are allowed, and
    every earlier task failed transiently: it could not connect, or the VHCI backend refused a call
    that its loop got to. Nothing that happens to an established connection counts.
   */
  lemma ReconnectsIff(ts: seq<Task>, k: nat, autoReconnect: bool, c: Config)
    requires 0 < k < |ts|
    ensures Tasks(EndingsOf(ts), autoReconnect, c) > k <==>
            autoReconnect && c.ShouldRetry(k - 1) && forall i :: 0 <= i < k ==> FailsTransiently(ts[i])
  {
    var es := EndingsOf(ts);
    TasksIff(es, k, autoReconnect, c);
    forall i | 0 <= i < k ensures es[i].IsTransient() <==> FailsTransiently(ts[i]) {
      TransientIff(ts[i]);
    }
    if forall i :: 0 <= i < k ==> FailsTransiently(ts[i]) {
      assert forall i :: 0 <= i < k ==> es[i].IsTransient();
    }
    if c.ShouldRetry(k - 1) {
      assert forall i :: 0 <= i < k ==> c.ShouldRetry(i);
    }
  }

  /**
    A second task after a forwarding task, whose connection may be dropped anywhere in the stream:
    it runs if and only if the backend refused a call the loop got to, with a transient error, and
    reconnecting is on and allowed once. So a connection that is only dropped is never retried.
   */
  lemma DroppedConnectionIsNotRetried(s: seq<Byte>, turns: nat -> ClientTurn, e: ErrorKind, later: seq<Task>,
                                      autoReconnect: bool, c: Config)
    requires later != []
    ensures Tasks(EndingsOf([Forwarding(s, turns, e)] + later), autoReconnect, c) > 1 <==>
            autoReconnect && c.ShouldRetry(0) && Category(e) == Transient && GetsRefused(s, turns, 0)
  {
    var ts := [Forwarding(s, turns, e)] + later;
    ReconnectsIff(ts, 1, autoReconnect, c);
    assert ts[0] == Forwarding(s, turns, e);
    assert FailsTransiently(ts[0]) <==> forall i :: 0 <= i < 1 ==> FailsTransiently(ts[i]);
  }
}
