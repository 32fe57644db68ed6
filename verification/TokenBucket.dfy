/**
  The bandwidth limiter (server/usbip-server/src/bandwidth.rs) in exact integers. Tokens are
  counted in units of 1e-9 byte, so a bucket of `rate` bytes per second gains `rate` units per
  nanosecond and holds at most one second's worth. Clock readings are arbitrary inputs.
 */
module TokenBucket {
  import opened Bytes
  import opened Arith

  const SECOND := 1_000_000_000
  const U64_MAX := 0xFFFF_FFFF_FFFF_FFFF

  datatype Bucket = Bucket(rate: nat, tokens: nat, lastRefill: nat)
  {
    function Capacity(): (n: nat) {
      rate * SECOND
    }

    predicate Valid() {
      tokens <= Capacity()
    }
  }

  function NewBucket(rate: nat, now: nat): (b: Bucket)
    ensures b.Valid()
  {
    Bucket(rate, rate * SECOND, now)
  }

  function Gain(b: Bucket, now: nat): (n: nat) {
    if now > b.lastRefill then b.rate * (now - b.lastRefill) else 0
  }

  /** Tokens that a refill throws away because the bucket is full. */
  function Spill(b: Bucket, now: nat): (n: nat) {
    if b.tokens + Gain(b, now) > b.Capacity() then b.tokens + Gain(b, now) - b.Capacity() else 0
  }

  function Refilled(b: Bucket, now: nat): (b': Bucket)
    requires b.Valid()
    ensures b'.Valid() && b'.rate == b.rate
    ensures b'.tokens + Spill(b, now) == b.tokens + Gain(b, now)
  {
    if now > b.lastRefill then
      b.(tokens := if b.tokens + Gain(b, now) > b.Capacity() then b.Capacity() else b.tokens + Gain(b, now),
         lastRefill := now)
    else b
  }

  datatype Call = Call(amount: nat, now: nat)

  /** How far a call overdraws the refilled bucket. */
  function Deficit(b: Bucket, c: Call): (n: nat)
    requires b.Valid()
  {
    var need := c.amount * SECOND;
    if Refilled(b, c.now).tokens >= need then 0 else need - Refilled(b, c.now).tokens
  }

  function Consumed(b: Bucket, c: Call): (b': Bucket)
    requires b.Valid()
    ensures b'.Valid() && b'.rate == b.rate
  {
    if b.rate == 0 then b else
    var r := Refilled(b, c.now);
    var need := c.amount * SECOND;
    r.(tokens := if r.tokens >= need then r.tokens - need else 0)
  }

  /** The whole nanoseconds it takes to earn `units`. */
  function Nanoseconds(units: nat, rate: nat): (d: nat)
    requires rate > 0
    ensures units == 0 ==> d == 0
  {
    units / rate
  }

  /** `as u64`. */
  function Saturated(d: nat): (r: nat)
    ensures r <= d && r <= 0xFFFF_FFFF_FFFF_FFFF
    ensures d <= 0xFFFF_FFFF_FFFF_FFFF ==> r == d
  {
    if d > U64_MAX then U64_MAX else d
  }

  /** The time it takes to earn back what a call overdraws. */
  function Owed(b: Bucket, c: Call): (d: nat)
    requires b.Valid() && b.rate > 0
  {
    Nanoseconds(Deficit(b, c), b.rate)
  }

  /** The delay handed to the caller, in nanoseconds. */
  function Delay(b: Bucket, c: Call): (d: nat)
    requires b.Valid() && b.rate > 0
  {
    Saturated(Owed(b, c))
  }

  class Limiter {
    var tokens: nat
    const rate: nat
    var lastRefill: nat

    function View(): (b: Bucket)
      reads this
    {
      Bucket(rate, tokens, lastRefill)
    }

    constructor (bytesPerSec: nat, now: nat)
      ensures View() == NewBucket(bytesPerSec, now)
    {
      rate, tokens, lastRefill := bytesPerSec, bytesPerSec * SECOND, now;
    }

    method Refill(now: nat)
      requires View().Valid()
      modifies this
      ensures View() == Refilled(old(View()), now)
    {
      if now > lastRefill {
        var filled := tokens + rate * (now - lastRefill);
        tokens := if filled > rate * SECOND then rate * SECOND else filled;
        lastRefill := now;
      }
    }

    /** `consume`: `None` for an unlimited bucket, otherwise the time to wait. */
    method Consume(amount: nat, now: nat) returns (delay: Option<nat>)
      requires View().Valid()
      modifies this
      ensures View() == Consumed(old(View()), Call(amount, now))
      ensures delay == if rate == 0 then None else Some(Delay(old(View()), Call(amount, now)))
      ensures View().Valid()
    {
      if rate == 0 { return None; }
      ghost var before := View();
      Refill(now);
      var need := amount * SECOND;
      if tokens >= need {
        tokens := tokens - need;
        delay := Some(0);
        assert Deficit(before, Call(amount, now)) == 0;
      } else {
        var deficit := need - tokens;
        tokens := 0;
        assert Deficit(before, Call(amount, now)) == deficit;
        delay := Some(Saturated(Nanoseconds(deficit, rate)));
      }
    }
  }

  // ---- Bytes and nanoseconds ----

  /** A new bucket lets `rate` bytes through at once; the rest waits a second for every further `rate` bytes. */
  lemma FirstCall(rate: nat, start: nat, amount: nat)
    requires rate > 0
    ensures var b, c := NewBucket(rate, start), Call(amount, start);
            && (Deficit(b, c) == 0 <==> amount <= rate)
            && Owed(b, c) == if amount <= rate then 0 else (amount - rate) * 1_000_000_000 / rate
  {
  }

  /** An empty bucket left alone for `t` nanoseconds lets through the bytes of that time, but never over a second's. */
  lemma AfterPause(rate: nat, start: nat, t: nat, amount: nat)
    requires rate > 0
    ensures var b, c := Bucket(rate, 0, start), Call(amount, start + t);
            Deficit(b, c) == 0 <==> amount * 1_000_000_000 <= rate * t && amount <= rate
  {
    if t > 0 {
      assert start + t - start == t;
    }
  }

  // ---- Runs ----

  function After(b: Bucket, cs: seq<Call>): (b': Bucket)
    requires b.Valid()
    ensures b'.Valid() && b'.rate == b.rate
    decreases |cs|
  {
    if cs == [] then b else Consumed(After(b, cs[..|cs| - 1]), cs[|cs| - 1])
  }

  /** Units admitted, that is 1e9 times the bytes asked for. */
  function Admitted(cs: seq<Call>): (n: nat)
    decreases |cs|
  {
    if cs == [] then 0 else Admitted(cs[..|cs| - 1]) + cs[|cs| - 1].amount * SECOND
  }

  function Spilled(b: Bucket, cs: seq<Call>): (n: nat)
    requires b.Valid()
    decreases |cs|
  {
    if cs == [] then 0 else
    Spilled(b, cs[..|cs| - 1]) + Spill(After(b, cs[..|cs| - 1]), cs[|cs| - 1].now)
  }

  /** What the clock has brought in. */
  function Gained(b: Bucket, cs: seq<Call>): (n: nat)
    requires b.Valid()
    decreases |cs|
  {
    if cs == [] then 0 else
    Gained(b, cs[..|cs| - 1]) + Gain(After(b, cs[..|cs| - 1]), cs[|cs| - 1].now)
  }

  function Overdrawn(b: Bucket, cs: seq<Call>): (n: nat)
    requires b.Valid()
    decreases |cs|
  {
    if cs == [] then 0 else
    Overdrawn(b, cs[..|cs| - 1]) + Deficit(After(b, cs[..|cs| - 1]), cs[|cs| - 1])
  }

  function TotalDelay(b: Bucket, cs: seq<Call>): (n: nat)
    requires b.Valid() && b.rate > 0
    decreases |cs|
  {
    if cs == [] then 0 else
    TotalDelay(b, cs[..|cs| - 1]) + Delay(After(b, cs[..|cs| - 1]), cs[|cs| - 1])
  }

  /** What the saturation of the delay lets callers keep for themselves. */
  function Unslept(b: Bucket, cs: seq<Call>): (n: nat)
    requires b.Valid() && b.rate > 0
    decreases |cs|
  {
    if cs == [] then 0 else
    var before, last := After(b, cs[..|cs| - 1]), cs[|cs| - 1];
    Unslept(b, cs[..|cs| - 1]) + (Owed(before, last) - Delay(before, last))
  }

  function DelayedCalls(b: Bucket, cs: seq<Call>): (n: nat)
    requires b.Valid()
    ensures n <= |cs|
    decreases |cs|
  {
    if cs == [] then 0 else
    DelayedCalls(b, cs[..|cs| - 1]) + if Deficit(After(b, cs[..|cs| - 1]), cs[|cs| - 1]) > 0 then 1 else 0
  }

  /** The time of the last refill: the latest clock reading so far. */
  function Clock(start: nat, cs: seq<Call>): (t: nat)
    ensures t >= start
    decreases |cs|
  {
    if cs == [] then start else
    var earlier, now := Clock(start, cs[..|cs| - 1]), cs[|cs| - 1].now;
    if now > earlier then now else earlier
  }

  /** The time over which a run was refilled. */
  function Elapsed(b: Bucket, cs: seq<Call>): (n: nat) {
    Clock(b.lastRefill, cs) - b.lastRefill
  }

  lemma {:induction false} ClockIsRefill(b: Bucket, cs: seq<Call>)
    requires b.Valid() && b.rate > 0
    ensures After(b, cs).lastRefill == Clock(b.lastRefill, cs)
    decreases |cs|
  {
    if cs != [] {
      ClockIsRefill(b, cs[..|cs| - 1]);
    }
  }

  lemma CallConserves(b: Bucket, c: Call)
    requires b.Valid() && b.rate > 0
    ensures c.amount * SECOND + Consumed(b, c).tokens + Spill(b, c.now) == b.tokens + Gain(b, c.now) + Deficit(b, c)
  {
  }

  lemma {:induction false} Balance(b: Bucket, cs: seq<Call>)
    requires b.Valid() && b.rate > 0
    ensures Admitted(cs) + After(b, cs).tokens + Spilled(b, cs) == b.tokens + Gained(b, cs) + Overdrawn(b, cs)
    decreases |cs|
  {
    if cs != [] {
      Balance(b, cs[..|cs| - 1]);
      CallConserves(After(b, cs[..|cs| - 1]), cs[|cs| - 1]);
    }
  }

  /** Time passes in two parts. */
  lemma Detour(rate: int, t0: int, t1: int, t2: int)
    ensures rate * (t2 - t0) == rate * (t1 - t0) + rate * (t2 - t1)
  {
    Distribute(rate, t1 - t0, t2 - t1);
  }

  /** What the clock brings in at the last call of a run. */
  lemma GainIsRate(b: Bucket, cs: seq<Call>)
    requires b.Valid() && b.rate > 0 && cs != []
    ensures var p := cs[..|cs| - 1];
            Gain(After(b, p), cs[|cs| - 1].now) == b.rate * (Clock(b.lastRefill, cs) - Clock(b.lastRefill, p))
  {
    var p := cs[..|cs| - 1];
    ClockIsRefill(b, p);
    if cs[|cs| - 1].now <= Clock(b.lastRefill, p) {
      assert b.rate * (Clock(b.lastRefill, p) - Clock(b.lastRefill, p)) == 0;
    }
  }

  lemma {:induction false} GainedIsRate(b: Bucket, cs: seq<Call>)
    requires b.Valid() && b.rate > 0
    ensures Gained(b, cs) == b.rate * Elapsed(b, cs)
    decreases |cs|
  {
    if cs != [] {
      var p := cs[..|cs| - 1];
      GainedIsRate(b, p);
      GainIsRate(b, cs);
      Detour(b.rate, b.lastRefill, Clock(b.lastRefill, p), Clock(b.lastRefill, cs));
    }
  }

  /**
    Conservation over every run of calls and clock readings: what was admitted, what is left and
    what overflowed is what the bucket started with, plus what the clock brought in, plus what the
    calls overdrew. Tokens always stay between zero and capacity.
   */
  lemma Conservation(b: Bucket, cs: seq<Call>)
    requires b.Valid() && b.rate > 0
    ensures var e := After(b, cs);
            && e.lastRefill == b.lastRefill + Elapsed(b, cs)
            && e.tokens <= b.Capacity()
            && Admitted(cs) + e.tokens + Spilled(b, cs) == b.tokens + b.rate * Elapsed(b, cs) + Overdrawn(b, cs)
  {
    Balance(b, cs);
    GainedIsRate(b, cs);
    ClockIsRefill(b, cs);
  }

  lemma OwedCoversDeficit(b: Bucket, c: Call)
    requires b.Valid() && b.rate > 0
    ensures b.rate * Owed(b, c) <= Deficit(b, c) <= b.rate * Owed(b, c) + if Deficit(b, c) > 0 then b.rate - 1 else 0
  {
    var d := Deficit(b, c);
    assert d == b.rate * (d / b.rate) + d % b.rate;
  }

  /** What the last call of a run overdraws, and the delay it owes for that. */
  lemma LastCallOwes(b: Bucket, cs: seq<Call>) returns (deficit: nat, owed: nat, late: nat)
    requires b.Valid() && b.rate > 0 && cs != []
    ensures var p := cs[..|cs| - 1];
            && Overdrawn(b, cs) == Overdrawn(b, p) + deficit
            && TotalDelay(b, cs) + Unslept(b, cs) == TotalDelay(b, p) + Unslept(b, p) + owed
            && DelayedCalls(b, cs) == DelayedCalls(b, p) + late
    ensures late <= 1 && deficit <= b.rate * owed + if late == 1 then b.rate - 1 else 0
  {
    var before, last := After(b, cs[..|cs| - 1]), cs[|cs| - 1];
    OwedCoversDeficit(before, last);
    deficit, owed, late := Deficit(before, last), Owed(before, last), if Deficit(before, last) > 0 then 1 else 0;
  }

  lemma {:induction false} OverdraftIsDelayed(b: Bucket, cs: seq<Call>)
    requires b.Valid() && b.rate > 0
    ensures Overdrawn(b, cs) <= b.rate * (TotalDelay(b, cs) + Unslept(b, cs)) + (b.rate - 1) * DelayedCalls(b, cs)
    decreases |cs|
  {
    if cs != [] {
      var p := cs[..|cs| - 1];
      OverdraftIsDelayed(b, p);
      var deficit, owed, late := LastCallOwes(b, cs);
      AddUp(b.rate, Overdrawn(b, p), deficit, TotalDelay(b, p) + Unslept(b, p), owed, DelayedCalls(b, p), late);
    }
  }

  /** No call is so large that its delay saturates. */
  predicate Moderate(rate: nat, cs: seq<Call>) {
    forall i :: 0 <= i < |cs| ==> cs[i].amount * SECOND <= rate * U64_MAX
  }

  lemma ModerateCall(b: Bucket, c: Call)
    requires b.Valid() && b.rate > 0 && c.amount * SECOND <= b.rate * U64_MAX
    ensures Owed(b, c) == Delay(b, c)
  {
    OwedCoversDeficit(b, c);
    MultiplyMonotone(b.rate, U64_MAX + 1, Owed(b, c));
  }

  lemma {:induction false} ModerateSleepsAll(b: Bucket, cs: seq<Call>)
    requires b.Valid() && b.rate > 0 && Moderate(b.rate, cs)
    ensures Unslept(b, cs) == 0
    decreases |cs|
  {
    if cs != [] {
      var k := |cs| - 1;
      assert cs[k].amount * SECOND <= b.rate * U64_MAX;
      ModerateSleepsAll(b, cs[..k]);
      ModerateCall(After(b, cs[..k]), cs[k]);
    }
  }

  lemma ModerateDropsNothing(b: Bucket, cs: seq<Call>)
    requires b.Valid() && b.rate > 0
    ensures Moderate(b.rate, cs) ==> Unslept(b, cs) == 0
  {
    if Moderate(b.rate, cs) {
      ModerateSleepsAll(b, cs);
    }
  }

  lemma AddUp(rate: nat, deficits: int, deficit: int, delays: int, delay: int, calls: int, late: int)
    requires rate > 0 && 0 <= late <= 1
    requires deficits <= rate * delays + (rate - 1) * calls
    requires deficit <= rate * delay + if late == 1 then rate - 1 else 0
    ensures deficits + deficit <= rate * (delays + delay) + (rate - 1) * (calls + late)
  {
    Distribute(rate, delays, delay);
    Distribute(rate - 1, calls, late);
  }

  lemma AdmittedAtMost(b: Bucket, cs: seq<Call>)
    requires b.Valid() && b.rate > 0
    ensures Admitted(cs) <= b.Capacity() + b.rate * Elapsed(b, cs)
                            + b.rate * (TotalDelay(b, cs) + Unslept(b, cs)) + (b.rate - 1) * DelayedCalls(b, cs)
  {
    Conservation(b, cs);
    OverdraftIsDelayed(b, cs);
  }

  /**
    The bound a caller gets, for every run: the capacity, the rate times elapsed time, the rate times
    the total delay requested and whatever its saturation drops, and less than one nanosecond's tokens
    for each delayed call. Calls of less than 584 years' worth drop nothing.
   */
  lemma AdmittedBound(b: Bucket, cs: seq<Call>)
    requires b.Valid() && b.rate > 0
    ensures Admitted(cs) <= b.Capacity() + b.rate * Elapsed(b, cs)
                            + b.rate * (TotalDelay(b, cs) + Unslept(b, cs)) + (b.rate - 1) * DelayedCalls(b, cs)
    ensures Moderate(b.rate, cs) ==> Unslept(b, cs) == 0
  {
    AdmittedAtMost(b, cs);
    ModerateDropsNothing(b, cs);
  }

  // ---- When the configured rate is respected ----

  /** The bucket as call `i` finds it, after its refill. */
  function FoundBy(b: Bucket, cs: seq<Call>, i: nat): (r: Bucket)
    requires b.Valid() && i < |cs|
    ensures r.Valid() && r.rate == b.rate
  {
    Refilled(After(b, cs[..i]), cs[i].now)
  }

  /** The guard of `consume`: call `i` finds fewer tokens than it asks for. */
  predicate Overdraws(b: Bucket, cs: seq<Call>, i: nat)
    requires b.Valid() && i < |cs|
  {
    FoundBy(b, cs, i).tokens < cs[i].amount * SECOND
  }

  /** One full bucket, and the rate times the time between the last refills of two runs. */
  function Allowance(b: Bucket, p: seq<Call>, q: seq<Call>): (n: int) {
    b.Capacity() + b.rate * (Clock(b.lastRefill, q) - Clock(b.lastRefill, p))
  }

  /** The calls from `i` to `j` are admitted no more than one full bucket and what the clock brought in between them. */
  predicate WithinRate(b: Bucket, cs: seq<Call>, i: nat, j: nat)
    requires i <= j < |cs|
  {
    Admitted(cs[..j + 1]) - Admitted(cs[..i]) <= Allowance(b, cs[..i + 1], cs[..j + 1])
  }

  lemma RefillFills(b: Bucket, now: nat)
    requires b.Valid()
    ensures Spill(b, now) > 0 || b.tokens == b.Capacity() ==> Refilled(b, now).tokens == b.Capacity()
  {
  }

  lemma CallEmpties(b: Bucket, c: Call)
    requires b.Valid() && b.rate > 0
    ensures Consumed(b, c).lastRefill == Refilled(b, c.now).lastRefill
    ensures Deficit(b, c) > 0 <==> Refilled(b, c.now).tokens < c.amount * SECOND
    ensures Deficit(b, c) > 0 ==> Consumed(b, c).tokens == 0
  {
  }

  lemma TotalsNext(b: Bucket, cs: seq<Call>, i: nat)
    requires b.Valid() && i < |cs|
    ensures var before := After(b, cs[..i]);
            && After(b, cs[..i + 1]) == Consumed(before, cs[i])
            && Spilled(b, cs[..i + 1]) == Spilled(b, cs[..i]) + Spill(before, cs[i].now)
            && Gained(b, cs[..i + 1]) == Gained(b, cs[..i]) + Gain(before, cs[i].now)
            && Overdrawn(b, cs[..i + 1]) == Overdrawn(b, cs[..i]) + Deficit(before, cs[i])
  {
    assert cs[..i + 1][..i] == cs[..i];
  }

  /** The balance of the run at the moment call `i` has refilled the bucket. */
  lemma BalanceFound(b: Bucket, cs: seq<Call>, i: nat)
    requires b.Valid() && b.rate > 0 && i < |cs|
    ensures Admitted(cs[..i]) + FoundBy(b, cs, i).tokens + Spilled(b, cs[..i + 1]) ==
            b.tokens + Gained(b, cs[..i + 1]) + Overdrawn(b, cs[..i])
  {
    Balance(b, cs[..i]);
    TotalsNext(b, cs, i);
  }

  lemma Subtract(rate: int, t0: int, t1: int, t2: int, g1: int, g2: int)
    requires g1 == rate * (t1 - t0) && g2 == rate * (t2 - t0)
    ensures g2 - g1 == rate * (t2 - t1)
  {
    Detour(rate, t0, t1, t2);
  }

  lemma AllowanceFrom(b: Bucket, p: seq<Call>, q: seq<Call>, gp: int, gq: int)
    requires gp == b.rate * Elapsed(b, p) && gq == b.rate * Elapsed(b, q)
    ensures Allowance(b, p, q) == b.Capacity() + gq - gp
  {
    Subtract(b.rate, b.lastRefill, Clock(b.lastRefill, p), Clock(b.lastRefill, q), gp, gq);
  }

  lemma AllowanceGained(b: Bucket, p: seq<Call>, q: seq<Call>)
    requires b.Valid() && b.rate > 0
    ensures Allowance(b, p, q) == b.Capacity() + Gained(b, q) - Gained(b, p)
  {
    GainedIsRate(b, p);
    GainedIsRate(b, q);
    AllowanceFrom(b, p, q, Gained(b, p), Gained(b, q));
  }

  /** The rate over a stretch of calls, in terms of what it finds, leaves, spills and overdraws. */
  lemma WithinRateByBalance(b: Bucket, cs: seq<Call>, i: nat, j: nat)
    requires b.Valid() && b.rate > 0 && i <= j < |cs|
    ensures WithinRate(b, cs, i, j) <==>
            FoundBy(b, cs, i).tokens + (Overdrawn(b, cs[..j + 1]) - Overdrawn(b, cs[..i])) <=
            b.Capacity() + After(b, cs[..j + 1]).tokens + (Spilled(b, cs[..j + 1]) - Spilled(b, cs[..i + 1]))
  {
    BalanceFound(b, cs, i);
    Balance(b, cs[..j + 1]);
    AllowanceGained(b, cs[..i + 1], cs[..j + 1]);
  }

  /** What call `i` spills. */
  lemma Spills(b: Bucket, cs: seq<Call>, i: nat)
    requires b.Valid() && i < |cs|
    ensures Spilled(b, cs[..i + 1]) >= Spilled(b, cs[..i])
    ensures FoundBy(b, cs, i).tokens != b.Capacity() ==> Spilled(b, cs[..i + 1]) == Spilled(b, cs[..i])
    ensures After(b, cs[..i]).tokens == b.Capacity() ==> FoundBy(b, cs, i).tokens == b.Capacity()
  {
    TotalsNext(b, cs, i);
    RefillFills(After(b, cs[..i]), cs[i].now);
  }

  /** What call `i` overdraws. */
  lemma Overdrafts(b: Bucket, cs: seq<Call>, i: nat)
    requires b.Valid() && b.rate > 0 && i < |cs|
    ensures Overdrawn(b, cs[..i + 1]) >= Overdrawn(b, cs[..i])
    ensures Overdraws(b, cs, i) <==> Overdrawn(b, cs[..i + 1]) > Overdrawn(b, cs[..i])
    ensures Overdraws(b, cs, i) ==> After(b, cs[..i + 1]).tokens == 0
  {
    TotalsNext(b, cs, i);
    CallEmpties(After(b, cs[..i]), cs[i]);
  }

  /** Spills only accumulate. */
  lemma {:induction false} SpillsAccumulate(b: Bucket, cs: seq<Call>, i: nat, j: nat)
    requires b.Valid() && i <= j <= |cs|
    ensures Spilled(b, cs[..i]) <= Spilled(b, cs[..j])
    decreases j
  {
    if i < j {
      SpillsAccumulate(b, cs, i, j - 1);
      Spills(b, cs, j - 1);
    }
  }

  /** So do overdrafts. */
  lemma {:induction false} OverdraftsAccumulate(b: Bucket, cs: seq<Call>, i: nat, j: nat)
    requires b.Valid() && b.rate > 0 && i <= j <= |cs|
    ensures Overdrawn(b, cs[..i]) <= Overdrawn(b, cs[..j])
    decreases j
  {
    if i < j {
      OverdraftsAccumulate(b, cs, i, j - 1);
      Overdrafts(b, cs, j - 1);
    }
  }

  /** Calls that do not overdraw add none. */
  lemma {:induction false} NoOverdraftsAdded(b: Bucket, cs: seq<Call>, i: nat, j: nat)
    requires b.Valid() && b.rate > 0 && i <= j <= |cs| && forall k :: i <= k < j ==> !Overdraws(b, cs, k)
    ensures Overdrawn(b, cs[..i]) == Overdrawn(b, cs[..j])
    decreases j
  {
    if i < j {
      NoOverdraftsAdded(b, cs, i, j - 1);
      Overdrafts(b, cs, j - 1);
    }
  }

  /** The last call up to `k` that finds a full bucket; the first call finds one when the run starts with one. */
  function LastFull(b: Bucket, cs: seq<Call>, k: nat): (f: nat)
    requires b.Valid() && k < |cs|
    ensures f <= k
  {
    if k == 0 || FoundBy(b, cs, k).tokens == b.Capacity() then k else LastFull(b, cs, k - 1)
  }

  lemma {:induction false} LastFullIsFull(b: Bucket, cs: seq<Call>, k: nat)
    requires b.tokens == b.Capacity() && k < |cs|
    ensures FoundBy(b, cs, LastFull(b, cs, k)).tokens == b.Capacity()
  {
    if k == 0 {
      assert After(b, cs[..0]) == b;
      Spills(b, cs, 0);
    } else if FoundBy(b, cs, k).tokens != b.Capacity() {
      LastFullIsFull(b, cs, k - 1);
    }
  }

  lemma {:induction false} NotFullSince(b: Bucket, cs: seq<Call>, k: nat, i: nat)
    requires b.Valid() && k < |cs| && LastFull(b, cs, k) < i <= k
    ensures FoundBy(b, cs, i).tokens != b.Capacity()
    decreases k
  {
    if i < k {
      NotFullSince(b, cs, k - 1, i);
    }
  }

  /** Calls that find a bucket with room spill nothing. */
  lemma {:induction false} NothingSpilled(b: Bucket, cs: seq<Call>, i: nat, j: nat)
    requires b.Valid() && i <= j <= |cs| && forall k :: i <= k < j ==> FoundBy(b, cs, k).tokens != b.Capacity()
    ensures Spilled(b, cs[..i]) == Spilled(b, cs[..j])
    decreases j
  {
    if i < j {
      NothingSpilled(b, cs, i, j - 1);
      Spills(b, cs, j - 1);
    }
  }

  lemma NothingSpilledSince(b: Bucket, cs: seq<Call>, k: nat)
    requires b.Valid() && k < |cs|
    ensures Spilled(b, cs[..k + 1]) == Spilled(b, cs[..LastFull(b, cs, k) + 1])
  {
    var first := LastFull(b, cs, k) + 1;
    forall i | first <= i < k + 1 ensures FoundBy(b, cs, i).tokens != b.Capacity() {
      NotFullSince(b, cs, k, i);
    }
    NothingSpilled(b, cs, first, k + 1);
  }

  lemma OverdrawnSince(b: Bucket, cs: seq<Call>, f: nat, k: nat)
    requires b.Valid() && b.rate > 0 && f <= k < |cs| && Overdraws(b, cs, k)
    ensures Overdrawn(b, cs[..k + 1]) > Overdrawn(b, cs[..f]) && After(b, cs[..k + 1]).tokens == 0
  {
    Overdrafts(b, cs, k);
    OverdraftsAccumulate(b, cs, f, k);
  }

  /** A stretch that starts with a full bucket, spills nothing and ends with an overdraft exceeds the rate. */
  lemma StretchExceeds(b: Bucket, cs: seq<Call>, f: nat, k: nat)
    requires b.Valid() && b.rate > 0 && f <= k < |cs| && Overdraws(b, cs, k)
    requires FoundBy(b, cs, f).tokens == b.Capacity() && Spilled(b, cs[..k + 1]) == Spilled(b, cs[..f + 1])
    ensures !WithinRate(b, cs, f, k)
  {
    WithinRateByBalance(b, cs, f, k);
    OverdrawnSince(b, cs, f, k);
  }

  /** An overdraft breaks the rate for the calls since the bucket was last full. */
  lemma OverdraftExceeds(b: Bucket, cs: seq<Call>, k: nat)
    requires b.rate > 0 && b.tokens == b.Capacity() && k < |cs| && Overdraws(b, cs, k)
    ensures !WithinRate(b, cs, LastFull(b, cs, k), k)
  {
    LastFullIsFull(b, cs, k);
    NothingSpilledSince(b, cs, k);
    StretchExceeds(b, cs, LastFull(b, cs, k), k);
  }

  lemma NoOverdraftWithin(b: Bucket, cs: seq<Call>, i: nat, j: nat)
    requires b.Valid() && b.rate > 0 && i <= j < |cs| && forall k :: 0 <= k < |cs| ==> !Overdraws(b, cs, k)
    ensures WithinRate(b, cs, i, j)
  {
    WithinRateByBalance(b, cs, i, j);
    NoOverdraftsAdded(b, cs, i, j + 1);
    SpillsAccumulate(b, cs, i + 1, j + 1);
  }

  /**
    For a bucket that starts full, the configured rate holds over every stretch of calls if and only
    if no call asks for more than it finds. The limiter admits every call, so overdrafts are exactly
    the calls by which the rate is exceeded.
   */
  lemma WithinRateIff(b: Bucket, cs: seq<Call>)
    requires b.rate > 0 && b.tokens == b.Capacity()
    ensures (forall i, j :: 0 <= i <= j < |cs| ==> WithinRate(b, cs, i, j)) <==>
            (forall k :: 0 <= k < |cs| ==> !Overdraws(b, cs, k))
  {
    if forall k :: 0 <= k < |cs| ==> !Overdraws(b, cs, k) {
      forall i, j | 0 <= i <= j < |cs| ensures WithinRate(b, cs, i, j) {
        NoOverdraftWithin(b, cs, i, j);
      }
    } else {
      var k :| 0 <= k < |cs| && Overdraws(b, cs, k);
      OverdraftExceeds(b, cs, k);
    }
  }

  // ---- Callers that sleep as told ----

  /** Call `i` comes no earlier than the previous one plus the delay that one was given. */
  predicate Waited(b: Bucket, cs: seq<Call>, i: nat)
    requires b.Valid() && b.rate > 0 && 0 < i < |cs|
  {
    cs[i].now >= cs[i - 1].now + Delay(After(b, cs[..i - 1]), cs[i - 1])
  }

  ghost predicate Obedient(b: Bucket, cs: seq<Call>)
    requires b.Valid() && b.rate > 0
  {
    && (cs != [] ==> cs[0].now >= b.lastRefill)
    && forall i :: 0 < i < |cs| ==> Waited(b, cs, i)
  }

  lemma WaitedPrefix(b: Bucket, cs: seq<Call>, longer: seq<Call>, i: nat)
    requires b.Valid() && b.rate > 0 && 0 < i < |cs| && cs <= longer
    ensures Waited(b, longer, i) == Waited(b, cs, i)
  {
    assert longer[..i - 1] == cs[..i - 1];
  }

  lemma ObedientPrefix(b: Bucket, cs: seq<Call>)
    requires b.Valid() && b.rate > 0 && Obedient(b, cs) && cs != []
    ensures Obedient(b, cs[..|cs| - 1])
  {
    var p := cs[..|cs| - 1];
    forall i | 0 < i < |p| ensures Waited(b, p, i) {
      WaitedPrefix(b, p, cs, i);
    }
  }

  lemma {:induction false} SleepersSleepInsideElapsed(b: Bucket, cs: seq<Call>)
    requires b.Valid() && b.rate > 0 && Obedient(b, cs) && cs != []
    ensures var k := |cs| - 1;
            && After(b, cs).lastRefill == cs[k].now
            && TotalDelay(b, cs[..k]) <= cs[k].now - b.lastRefill
    decreases |cs|
  {
    var k := |cs| - 1;
    ObedientPrefix(b, cs);
    if k > 0 {
      SleepersSleepInsideElapsed(b, cs[..k]);
      assert Waited(b, cs, k);
      assert cs[..k][..k - 1] == cs[..k - 1];
    }
  }

  lemma SleptWithinElapsed(b: Bucket, cs: seq<Call>)
    requires b.Valid() && b.rate > 0 && Obedient(b, cs) && cs != []
    ensures TotalDelay(b, cs) <= Elapsed(b, cs) + LastDelay(b, cs)
  {
    SleepersSleepInsideElapsed(b, cs);
  }

  /** The last delay of a run, which its caller may still have to sleep. */
  function LastDelay(b: Bucket, cs: seq<Call>): (d: nat)
    requires b.Valid() && b.rate > 0 && cs != []
  {
    Delay(After(b, cs[..|cs| - 1]), cs[|cs| - 1])
  }

  /** Callers that wait as told are held to twice the configured rate, not to the rate. */
  lemma TwiceTheRateBound(b: Bucket, cs: seq<Call>)
    requires b.Valid() && b.rate > 0 && Obedient(b, cs) && cs != []
    ensures Admitted(cs) <= TwiceTheRate(b, cs, LastDelay(b, cs))
    ensures Moderate(b.rate, cs) ==> Unslept(b, cs) == 0
  {
    SleptWithinElapsed(b, cs);
    SleptBound(b, cs, LastDelay(b, cs));
    ModerateDropsNothing(b, cs);
  }

  /**
    The capacity and twice the rate times the elapsed time, with the last delay, what saturated delays
    drop, and less than one nanosecond's tokens for each delayed call.
   */
  function TwiceTheRate(b: Bucket, cs: seq<Call>, last: int): (n: int)
    requires b.Valid() && b.rate > 0
  {
    b.Capacity() + 2 * (b.rate * Elapsed(b, cs)) + b.rate * (last + Unslept(b, cs)) + (b.rate - 1) * DelayedCalls(b, cs)
  }

  lemma SleptProducts(b: Bucket, cs: seq<Call>, elapsed: int, last: int)
    requires b.Valid() && b.rate > 0 && TotalDelay(b, cs) <= elapsed + last
    ensures b.rate * (TotalDelay(b, cs) + Unslept(b, cs)) <= b.rate * elapsed + b.rate * (last + Unslept(b, cs))
  {
    MultiplyMonotone(b.rate, TotalDelay(b, cs) + Unslept(b, cs), elapsed + (last + Unslept(b, cs)));
    Distribute(b.rate, elapsed, last + Unslept(b, cs));
  }

  /** The bound for callers that slept at most `elapsed` nanoseconds and one more delay. */
  lemma SleptBound(b: Bucket, cs: seq<Call>, last: int)
    requires b.Valid() && b.rate > 0 && TotalDelay(b, cs) <= Elapsed(b, cs) + last
    ensures Admitted(cs) <= TwiceTheRate(b, cs, last)
  {
    AdmittedAtMost(b, cs);
    SleptProducts(b, cs, Elapsed(b, cs), last);
  }

  /** Once a second, ask for one second's worth twice. */
  function Pairs(rate: nat, n: nat): (cs: seq<Call>)
    ensures |cs| == 2 * n
  {
    if n == 0 then [] else Pairs(rate, n - 1) + [Call(rate, (n - 1) * SECOND), Call(rate, (n - 1) * SECOND)]
  }

  lemma PairStep(b: Bucket, cs: seq<Call>, x: Call, y: Call)
    requires b.Valid() && b.rate > 0
    ensures var p, q := cs + [x], cs + [x, y];
            && After(b, q) == Consumed(Consumed(After(b, cs), x), y)
            && Admitted(q) == Admitted(cs) + x.amount * SECOND + y.amount * SECOND
            && TotalDelay(b, q) == TotalDelay(b, cs) + Delay(After(b, cs), x) + Delay(Consumed(After(b, cs), x), y)
  {
    var p, q := cs + [x], cs + [x, y];
    assert q[..|q| - 1] == p && p[..|p| - 1] == cs;
  }

  /** One pair of calls on a bucket that refills to the brim: the first is free, the second costs a second. */
  lemma PairEffect(b: Bucket, now: nat)
    requires b.Valid() && b.rate > 0 && Refilled(b, now) == Bucket(b.rate, b.rate * SECOND, now)
    ensures var c := Call(b.rate, now);
            && Consumed(b, c) == Bucket(b.rate, 0, now)
            && Delay(b, c) == 0
            && Consumed(Consumed(b, c), c) == Bucket(b.rate, 0, now)
            && Delay(Consumed(b, c), c) == SECOND
  {
    var c := Call(b.rate, now);
    var empty := Bucket(b.rate, 0, now);
    assert Consumed(b, c) == empty;
    assert Deficit(empty, c) == b.rate * SECOND;
    DivModUnique(b.rate * SECOND, b.rate, SECOND, 0);
  }

  lemma RefillsToTheBrim(rate: nat, n: nat)
    requires rate > 0 && n > 0
    ensures var b := Bucket(rate, 0, (n - 1) * SECOND);
            b.Valid() && Refilled(b, n * SECOND) == Bucket(rate, rate * SECOND, n * SECOND)
  {
    assert n * SECOND - (n - 1) * SECOND == SECOND;
  }

  lemma AdmittedPair(cs: seq<Call>, c: Call)
    ensures Admitted(cs + [c, c]) == Admitted(cs) + 2 * (c.amount * SECOND)
  {
    var p, q := cs + [c], cs + [c, c];
    assert q[..|q| - 1] == p && p[..|p| - 1] == cs;
  }

  lemma {:induction false} PairsAdmitted(rate: nat, n: nat)
    ensures Admitted(Pairs(rate, n)) == n * (2 * (rate * SECOND))
  {
    if n > 0 {
      PairsAdmitted(rate, n - 1);
      AdmittedPair(Pairs(rate, n - 1), Call(rate, (n - 1) * SECOND));
      OneMore(2 * (rate * SECOND), n);
    }
  }

  lemma OneMore(x: int, n: int)
    ensures n * x == (n - 1) * x + x
  {
  }

  /**
    The bound is reached: for every rate and every n, a caller that starts with a full bucket,
    asks twice per second and sleeps exactly as told gets twice the configured rate forever.
   */
  lemma {:induction false} TwiceTheRateReached(rate: nat, n: nat)
    requires 0 < rate
    ensures var b, cs := NewBucket(rate, 0), Pairs(rate, n);
            && Admitted(cs) == n * (2 * (rate * SECOND))
            && TotalDelay(b, cs) == n * SECOND
            && (n > 0 ==> After(b, cs) == Bucket(rate, 0, (n - 1) * SECOND))
  {
    var b := NewBucket(rate, 0);
    if n > 0 {
      TwiceTheRateReached(rate, n - 1);
      var cs, now := Pairs(rate, n - 1), (n - 1) * SECOND;
      PairStep(b, cs, Call(rate, now), Call(rate, now));
      if n > 1 {
        RefillsToTheBrim(rate, n - 1);
      }
      PairEffect(After(b, cs), now);
    }
    PairsAdmitted(rate, n);
  }

  /** What the n-th pair of calls meets: a full bucket, then an empty one. */
  lemma PairMeets(rate: nat, n: nat)
    requires 0 < rate
    ensures var b, cs, c := NewBucket(rate, 0), Pairs(rate, n), Call(rate, n * SECOND);
            && Delay(After(b, cs), c) == 0
            && Delay(After(b, cs + [c]), c) == SECOND
  {
    var b, cs, c := NewBucket(rate, 0), Pairs(rate, n), Call(rate, n * SECOND);
    TwiceTheRateReached(rate, n);
    if n > 0 {
      RefillsToTheBrim(rate, n);
    }
    PairEffect(After(b, cs), n * SECOND);
    assert (cs + [c])[..|cs|] == cs;
  }

  lemma WaitedFor(b: Bucket, before: seq<Call>, x: Call, y: Call, after: seq<Call>)
    requires b.Valid() && b.rate > 0 && y.now >= x.now + Delay(After(b, before), x)
    ensures Waited(b, before + [x, y] + after, |before| + 1)
  {
    var cs := before + [x, y] + after;
    assert cs[..|before|] == before && cs[|before|] == x && cs[|before| + 1] == y;
  }

  /** The first call of a pair waits out the delay of the previous pair, the second call has none to wait for. */
  lemma PairWaits(rate: nat, n: nat)
    requires 0 < rate && 0 < n
    ensures var b, cs := NewBucket(rate, 0), Pairs(rate, n);
            && Waited(b, cs, 2 * n - 1)
            && (n > 1 ==> Waited(b, cs, 2 * n - 2))
  {
    var b, c := NewBucket(rate, 0), Call(rate, (n - 1) * SECOND);
    var before := Pairs(rate, n - 1);
    PairMeets(rate, n - 1);
    WaitedFor(b, before, c, c, []);
    assert before + [c, c] + [] == Pairs(rate, n);
    if n > 1 {
      var d, earlier := Call(rate, (n - 2) * SECOND), Pairs(rate, n - 2);
      PairMeets(rate, n - 2);
      WaitedFor(b, earlier + [d], d, c, [c]);
      Regroup(earlier, d, c);
      assert before == earlier + [d, d];
    }
  }

  lemma Regroup<T>(s: seq<T>, d: T, c: T)
    ensures s + [d] + [d, c] + [c] == s + [d, d] + [c, c]
  {
  }

  /** That caller does sleep exactly as told. */
  lemma {:induction false} PairsAreObedient(rate: nat, n: nat)
    requires 0 < rate
    ensures Obedient(NewBucket(rate, 0), Pairs(rate, n))
  {
    if n > 0 {
      var b, cs, all := NewBucket(rate, 0), Pairs(rate, n - 1), Pairs(rate, n);
      PairsAreObedient(rate, n - 1);
      PairWaits(rate, n);
      forall i | 0 < i < |all| ensures Waited(b, all, i) {
        if i < |cs| {
          WaitedPrefix(b, cs, all, i);
        }
      }
    }
  }
}
