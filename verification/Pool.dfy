/**
  The URB buffer pool (shared/usbip-core/src/pool.rs). The queue is bounded and FIFO; a buffer
  handed out is identified by a handle until it is dropped (returned, or discarded when the
  queue is full) or taken out of the pool for good. Rates are real numbers and clock readings
  are arbitrary. `record_urb` has the pool to itself, but a buffer can be dropped by another thread
  between any two of its pushes, so each push is a step of its own.
 */
module Pool {
  import opened Bytes

  const HEADROOM := 56  // message header and CMD_SUBMIT body in front of the payload

  datatype UrbBuffer = UrbBuffer(buf: seq<Byte>, dataOffset: nat, dataCapacity: nat)

  function Zeros(n: nat): (s: seq<Byte>)
    ensures |s| == n
  {
    seq(n, i => 0)
  }

  function FreshBuffer(dataCapacity: nat): (b: UrbBuffer) {
    UrbBuffer(Zeros(HEADROOM + dataCapacity), HEADROOM, dataCapacity)
  }

  predicate AllZero(b: UrbBuffer) {
    forall i :: 0 <= i < |b.buf| ==> b.buf[i] == 0
  }

  function Reset(b: UrbBuffer): (b': UrbBuffer)
    ensures AllZero(b')
  {
    b.(buf := Zeros(|b.buf|))
  }

  /** The buffer still has the pool's layout. */
  predicate Shaped(b: UrbBuffer, dataCapacity: nat) {
    |b.buf| == 56 + dataCapacity && b.dataOffset == 56 && b.dataCapacity == dataCapacity
  }

  lemma ResetIsFreshIff(b: UrbBuffer, dataCapacity: nat)
    ensures Reset(b) == FreshBuffer(dataCapacity) <==> Shaped(b, dataCapacity)
  {
  }

  // ---- State ----

  datatype State = State(
    queue: seq<UrbBuffer>,
    outstanding: map<nat, UrbBuffer>,
    nextHandle: nat,
    created: nat, taken: nat, discarded: nat,
    dataCapacity: nat, minSize: nat, maxSize: nat,
    ewma: real, lastRecord: Option<real>, windowCount: nat,
    toAdd: nat,        // pushes that a running `record_urb` still has to make
    rates: seq<real>)  // history of the observed rates

  function MaxSize(minSize: nat): (n: nat)
    ensures n >= minSize
  {
    if minSize * 4 > 4096 then minSize * 4 else 4096
  }

  function Fill(dataCapacity: nat, n: nat): (q: seq<UrbBuffer>)
    ensures |q| == n
  {
    seq(n, i => FreshBuffer(dataCapacity))
  }

  function NewPool(dataCapacity: nat, minSize: nat): (p: State) {
    State(Fill(dataCapacity, minSize), map[], 0, minSize, 0, 0, dataCapacity, minSize, MaxSize(minSize),
          0.0, None, 0, 0, [])
  }

  datatype Op =
    | Acquire
    | Mutate(handle: nat, contents: UrbBuffer)  // through DerefMut a holder can put anything into the buffer
    | Take(handle: nat)
    | Drop(handle: nat)
    | Record(now: real)  // `record_urb` up to its growth loop
    | Grow               // one turn of that loop

  function AcquiredBuffer(p: State): (b: UrbBuffer) {
    if p.queue == [] then FreshBuffer(p.dataCapacity) else p.queue[0]
  }

  function Ceil(x: real): (n: int)
    ensures (n - 1) as real < x <= n as real
  {
    -((-x).Floor)
  }

  function Blend(ewma: real, observed: real): (r: real) {
    if ewma == 0.0 then observed else 0.125 * observed + 0.875 * ewma
  }

  function ElapsedSince(last: real, now: real): (d: real) {
    if now < last then 0.0 else now - last
  }

  predicate ClosesWindow(p: State, now: real) {
    p.lastRecord.Some? && ElapsedSince(p.lastRecord.value, now) >= 1.0
  }

  function RateOver(count: nat, elapsed: real): (r: real)
    requires count > 0 && elapsed >= 1.0
    ensures r > 0.0
  {
    count as real / elapsed
  }

  function ObservedRate(p: State, now: real): (r: real)
    requires ClosesWindow(p, now)
    ensures r > 0.0
  {
    RateOver(p.windowCount + 1, ElapsedSince(p.lastRecord.value, now))
  }

  /** Twice the rate, rounded up, within the bounds of the pool. */
  function DesiredSize(minSize: nat, maxSize: nat, ewma: real): (n: nat)
    ensures minSize <= maxSize ==> minSize <= n
    ensures n <= maxSize
  {
    var target := Ceil(ewma * 2.0);
    var floor := if target > minSize then target else minSize;
    if floor < maxSize then floor else maxSize
  }

  /** How many buffers the pool wants to have ready at a given rate. */
  function Desired(p: State, ewma: real): (n: nat)
    ensures p.minSize <= p.maxSize ==> p.minSize <= n
    ensures n <= p.maxSize
  {
    DesiredSize(p.minSize, p.maxSize, ewma)
  }

  function Recorded(p: State, now: real): (p': State) {
    if p.lastRecord.None? then p.(windowCount := p.windowCount + 1, lastRecord := Some(now))
    else if !ClosesWindow(p, now) then p.(windowCount := p.windowCount + 1)
    else
      var observed := ObservedRate(p, now);
      var ewma := Blend(p.ewma, observed);
      var missing := if Desired(p, ewma) > |p.queue| then Desired(p, ewma) - |p.queue| else 0;
      p.(toAdd := missing, ewma := ewma, windowCount := 0, lastRecord := Some(now), rates := p.rates + [observed])
  }

  /** A fresh buffer is pushed; when the queue is full it is thrown away and the growth ends. */
  function Grown(p: State): (p': State) {
    if p.toAdd == 0 then p
    else if |p.queue| < p.maxSize then
      p.(queue := p.queue + [FreshBuffer(p.dataCapacity)], created := p.created + 1, toAdd := p.toAdd - 1)
    else p.(created := p.created + 1, discarded := p.discarded + 1, toAdd := 0)
  }

  /**
    Handles are linear, and nobody acquires or records while `record_urb` runs: an operation on a
    handle that is not out, or on a pool that is lent out, cannot occur and changes nothing.
   */
  function Step(p: State, op: Op): (p': State) {
    match op
    case Acquire =>
      if p.toAdd > 0 then p else
      var b := AcquiredBuffer(p);
      p.(queue := if p.queue == [] then [] else p.queue[1..],
         created := p.created + if p.queue == [] then 1 else 0,
         outstanding := p.outstanding[p.nextHandle := b], nextHandle := p.nextHandle + 1)
    case Mutate(h, contents) =>
      if h in p.outstanding then p.(outstanding := p.outstanding[h := contents]) else p
    case Take(h) =>
      if h in p.outstanding then p.(outstanding := p.outstanding - {h}, taken := p.taken + 1) else p
    case Drop(h) =>
      if h !in p.outstanding then p
      else if |p.queue| < p.maxSize then
        p.(outstanding := p.outstanding - {h}, queue := p.queue + [Reset(p.outstanding[h])])
      else p.(outstanding := p.outstanding - {h}, discarded := p.discarded + 1)
    case Record(now) => if p.toAdd > 0 then p else Recorded(p, now)
    case Grow => Grown(p)
  }

  function Run(p: State, ops: seq<Op>): (p': State)
    decreases |ops|
  {
    if ops == [] then p else Step(Run(p, ops[..|ops| - 1]), ops[|ops| - 1])
  }

  // ---- The pool object ----

  class UrbBufferPool {
    var queue: seq<UrbBuffer>
    var outstanding: map<nat, UrbBuffer>
    var nextHandle: nat
    var ewma: real
    var lastRecord: Option<real>
    var windowCount: nat
    const dataCapacity: nat
    const minSize: nat
    const maxSize: nat
    ghost var created: nat
    ghost var taken: nat
    ghost var discarded: nat
    ghost var toAdd: nat
    ghost var rates: seq<real>

    ghost function View(): (p: State)
      reads this
    {
      State(queue, outstanding, nextHandle, created, taken, discarded, dataCapacity, minSize, maxSize,
            ewma, lastRecord, windowCount, toAdd, rates)
    }

    /** Push unless the queue is full. */
    method Push(b: UrbBuffer) returns (ok: bool)
      modifies this`queue
      ensures ok == (|old(queue)| < maxSize)
      ensures queue == if ok then old(queue) + [b] else old(queue)
    {
      ok := |queue| < maxSize;
      if ok {
        queue := queue + [b];
      }
    }

    constructor (dataCapacity: nat, minSize: nat)
      ensures View() == NewPool(dataCapacity, minSize)
    {
      this.dataCapacity, this.minSize, this.maxSize := dataCapacity, minSize, MaxSize(minSize);
      queue, outstanding, nextHandle := [], map[], 0;
      ewma, lastRecord, windowCount := 0.0, None, 0;
      created, taken, discarded, toAdd, rates := minSize, 0, 0, 0, [];
      new;
      for k := 0 to minSize
        invariant queue == Fill(dataCapacity, k)
        invariant outstanding == map[] && nextHandle == 0 && ewma == 0.0 && lastRecord == None && windowCount == 0
        invariant created == minSize && taken == 0 && discarded == 0 && toAdd == 0 && rates == []
      {
        var ok := Push(FreshBuffer(dataCapacity));
      }
    }

    method AcquireBuffer() returns (handle: nat)
      requires View().toAdd == 0
      modifies this
      ensures View() == Step(old(View()), Acquire)
      ensures handle == old(nextHandle) && outstanding[handle] == AcquiredBuffer(old(View()))
    {
      var b;
      if queue == [] {
        b := FreshBuffer(dataCapacity);
        created := created + 1;
      } else {
        b := queue[0];
        queue := queue[1..];
      }
      handle := nextHandle;
      outstanding := outstanding[handle := b];
      nextHandle := nextHandle + 1;
    }

    method DropBuffer(handle: nat)
      requires handle in outstanding
      modifies this`queue, this`outstanding, this`discarded
      ensures View() == Step(old(View()), Drop(handle))
    {
      var b := Reset(outstanding[handle]);
      outstanding := outstanding - {handle};
      var ok := Push(b);
      if !ok {
        discarded := discarded + 1;
      }
    }

    method TakeBuffer(handle: nat) returns (b: UrbBuffer)
      requires handle in outstanding
      modifies this
      ensures b == old(outstanding)[handle]
      ensures View() == Step(old(View()), Take(handle))
    {
      b := outstanding[handle];
      outstanding := outstanding - {handle};
      taken := taken + 1;
    }

    /** Other threads drop the buffers they hold, in any order. */
    method DropAll(handles: seq<nat>, ghost start: State, ghost before: seq<Op>) returns (ghost ops: seq<Op>)
      requires View() == Run(start, before)
      modifies this`queue, this`outstanding, this`discarded
      ensures before <= ops && View() == Run(start, ops) && old(queue) <= queue
      ensures forall i :: |before| <= i < |ops| ==> ops[i].Drop?
    {
      ops := before;
      for k := 0 to |handles|
        invariant before <= ops && View() == Run(start, ops) && old(queue) <= queue
        invariant forall i :: |before| <= i < |ops| ==> ops[i].Drop?
      {
        if handles[k] in outstanding {
          DropBuffer(handles[k]);
          RunMore(start, ops, Drop(handles[k]));
          ops := ops + [Drop(handles[k])];
        }
      }
    }

    /**
      `record_urb` up to its growth loop: count, and once a window of a second closes, update the average
      and say how many buffers are missing. The counters are reset here before the pushes and in the
      source after them, which nobody can observe.
     */
    method CloseWindow(now: real) returns (missing: nat)
      requires View().toAdd == 0
      modifies this
      ensures View() == Step(old(View()), Record(now)) && missing == toAdd && queue == old(queue)
    {
      ghost var before := View();
      missing := 0;
      windowCount := windowCount + 1;
      if lastRecord.None? {
        lastRecord := Some(now);
        return;
      }
      var elapsed := ElapsedSince(lastRecord.value, now);
      if elapsed >= 1.0 {
        var observed := RateOver(windowCount, elapsed);
        ewma := Blend(ewma, observed);
        rates := rates + [observed];
        windowCount, lastRecord := 0, Some(now);
        var desired := DesiredSize(minSize, maxSize, ewma);
        missing := if desired > |queue| then desired - |queue| else 0;
        toAdd := missing;
        assert ClosesWindow(before, now) && observed == ObservedRate(before, now);
      }
    }

    /**
      `record_urb`. Before its k-th push other threads drop the buffers `drops(k)`. The queue never shrinks,
      and when a window closes it ends large enough for the new average.
     */
    method RecordUrb(now: real, drops: nat -> seq<nat>) returns (ghost ops: seq<Op>)
      requires View().toAdd == 0
      modifies this
      ensures View() == Run(old(View()), ops) && toAdd == 0
      ensures ops != [] && ops[0] == Record(now)
      ensures forall i :: 0 < i < |ops| ==> ops[i].Grow? || ops[i].Drop?
      ensures old(queue) <= queue && ewma == Step(old(View()), Record(now)).ewma
      ensures ClosedBy(old(View()), now) ==> Enough(|queue|, minSize, maxSize, ewma)
    {
      ghost var before := View();
      RunMore(before, [], Record(now));
      var missing := CloseWindow(now);
      ops := GrowBy(missing, drops, before, [Record(now)]);
      if ClosedBy(before, now) {
        CloseIsEnough(before, now, |queue|);
      }
    }

    /** One turn of the growth loop. */
    method PushOnce(handles: seq<nat>, ghost start: State, ghost before: seq<Op>)
      returns (ok: bool, ghost ops: seq<Op>)
      requires View() == Run(start, before) && toAdd > 0
      modifies this`queue, this`outstanding, this`discarded, this`created, this`toAdd
      ensures before <= ops && View() == Run(start, ops) && old(queue) <= queue
      ensures forall i :: |before| <= i < |ops| ==> ops[i].Grow? || ops[i].Drop?
      ensures if ok then toAdd == old(toAdd) - 1 && |queue| > |old(queue)| else toAdd == 0 && |queue| >= maxSize
    {
      ops := DropAll(handles, start, before);
      ok := PushFresh();
      RunMore(start, ops, Grow);
      ops := ops + [Grow];
    }

    /** The growth loop, interrupted by other threads before every push. It ends early only at a full queue. */
    method GrowBy(n: nat, drops: nat -> seq<nat>, ghost start: State, ghost before: seq<Op>)
      returns (ghost ops: seq<Op>)
      requires View() == Run(start, before) && toAdd == n && before != []
      requires forall i :: 0 < i < |before| ==> before[i].Grow? || before[i].Drop?
      modifies this`queue, this`outstanding, this`discarded, this`created, this`toAdd
      ensures View() == Run(start, ops) && toAdd == 0 && before <= ops
      ensures forall i :: 0 < i < |ops| ==> ops[i].Grow? || ops[i].Drop?
      ensures old(queue) <= queue && (|old(queue)| + n <= |queue| || |queue| >= maxSize)
    {
      ops := before;
      for k := 0 to n
        invariant View() == Run(start, ops) && toAdd == n - k && before <= ops
        invariant forall i :: 0 < i < |ops| ==> ops[i].Grow? || ops[i].Drop?
        invariant old(queue) <= queue && |old(queue)| + k <= |queue|
      {
        var ok;
        ok, ops := PushOnce(drops(k), start, ops);
        if !ok {
          break;
        }
      }
    }

    method PushFresh() returns (ok: bool)
      requires toAdd > 0
      modifies this`queue, this`created, this`discarded, this`toAdd
      ensures View() == Step(old(View()), Grow)
      ensures ok ==> toAdd == old(toAdd) - 1 && old(queue) <= queue && |queue| == |old(queue)| + 1
      ensures !ok ==> toAdd == 0 && queue == old(queue) && |queue| >= maxSize
    {
      ok := Push(FreshBuffer(dataCapacity));
      created := created + 1;
      if ok {
        toAdd := toAdd - 1;
      } else {
        discarded, toAdd := discarded + 1, 0;
      }
    }
  }

  lemma RunMore(p: State, ops: seq<Op>, op: Op)
    ensures Run(p, ops + [op]) == Step(Run(p, ops), op)
    ensures Run(p, []) == p && [] + [op] == [op]
  {
    assert (ops + [op])[..|ops|] == ops;
  }

  // ---- What every run keeps ----

  function MinRate(rates: seq<real>): (r: real)
    requires rates != []
  {
    if |rates| == 1 then rates[0] else
    var earlier := MinRate(rates[..|rates| - 1]);
    if rates[|rates| - 1] < earlier then rates[|rates| - 1] else earlier
  }

  function MaxRate(rates: seq<real>): (r: real)
    requires rates != []
    ensures r >= MinRate(rates)
  {
    if |rates| == 1 then rates[0] else
    var earlier := MaxRate(rates[..|rates| - 1]);
    if rates[|rates| - 1] > earlier then rates[|rates| - 1] else earlier
  }

  /** The average is zero before the first observation, and afterwards lies between the extremes seen. */
  ghost predicate RateInRange(p: State) {
    && (p.rates == [] ==> p.ewma == 0.0)
    && (p.rates != [] ==> 0.0 < MinRate(p.rates) <= p.ewma <= MaxRate(p.rates))
  }

  ghost predicate QueueZero(q: seq<UrbBuffer>) {
    forall i :: 0 <= i < |q| ==> AllZero(q[i])
  }

  /** Every buffer created is in exactly one place, the queue is bounded, and the pool never runs below its minimum. */
  ghost predicate Accounted(p: State) {
    && p.created == |p.queue| + |p.outstanding| + p.taken + p.discarded
    && |p.queue| <= p.maxSize
    && |p.queue| + |p.outstanding| + p.taken >= p.minSize
    && p.maxSize == (if p.minSize <= 1024 then 4096 else 4 * p.minSize)
    && (forall h :: h in p.outstanding ==> h < p.nextHandle)
  }

  ghost predicate Sound(p: State) {
    Accounted(p) && QueueZero(p.queue) && RateInRange(p)
  }

  lemma RemoveOne(m: map<nat, UrbBuffer>, h: nat)
    requires h in m
    ensures |m - {h}| == |m| - 1
  {
    assert (m - {h}).Keys == m.Keys - {h};
    assert |m.Keys - {h}| == |m.Keys| - 1;
  }

  lemma AddOne(m: map<nat, UrbBuffer>, h: nat, b: UrbBuffer)
    ensures |m[h := b]| == if h in m then |m| else |m| + 1
  {
    assert m[h := b].Keys == m.Keys + {h};
    assert h in m ==> m.Keys + {h} == m.Keys;
  }

  lemma AcquireKeepsAccounts(p: State)
    requires Accounted(p)
    ensures Accounted(Step(p, Acquire))
  {
    AddOne(p.outstanding, p.nextHandle, AcquiredBuffer(p));
  }

  lemma ReturnKeepsAccounts(p: State, h: nat)
    requires Accounted(p) && h in p.outstanding
    ensures Accounted(Step(p, Take(h))) && Accounted(Step(p, Drop(h)))
  {
    RemoveOne(p.outstanding, h);
  }

  lemma RecordKeepsAccounts(p: State, now: real)
    requires Accounted(p)
    ensures Accounted(Step(p, Record(now)))
  {
  }

  lemma StepKeepsAccounts(p: State, op: Op)
    requires Accounted(p)
    ensures Accounted(Step(p, op))
  {
    match op
    case Acquire => AcquireKeepsAccounts(p);
    case Mutate(h, contents) => AddOne(p.outstanding, h, contents);
    case Take(h) =>
      if h in p.outstanding { ReturnKeepsAccounts(p, h); }
    case Drop(h) =>
      if h in p.outstanding { ReturnKeepsAccounts(p, h); }
    case Record(now) => RecordKeepsAccounts(p, now);
    case Grow =>
  }

  lemma StepKeepsZero(p: State, op: Op)
    requires QueueZero(p.queue)
    ensures QueueZero(Step(p, op).queue)
  {
  }

  lemma BlendBetween(ewma: real, observed: real, lo: real, hi: real)
    requires 0.0 < lo && lo <= ewma <= hi
    ensures var r := Blend(ewma, observed);
            (if observed < lo then observed else lo) <= r <= (if observed > hi then observed else hi)
  {
  }

  lemma CloseKeepsRate(p: State, now: real)
    requires RateInRange(p) && ClosesWindow(p, now)
    ensures RateInRange(Recorded(p, now))
  {
    var observed := ObservedRate(p, now);
    var rates := p.rates + [observed];
    assert rates[..|rates| - 1] == p.rates;
    if p.rates != [] {
      BlendBetween(p.ewma, observed, MinRate(p.rates), MaxRate(p.rates));
    }
  }

  lemma OthersKeepRate(p: State, op: Op)
    requires op.Record? ==> p.toAdd > 0 || !ClosesWindow(p, op.now)
    ensures Step(p, op).rates == p.rates && Step(p, op).ewma == p.ewma
  {
  }

  lemma StepKeepsRate(p: State, op: Op)
    requires RateInRange(p)
    ensures RateInRange(Step(p, op))
  {
    if op.Record? && p.toAdd == 0 && ClosesWindow(p, op.now) {
      CloseKeepsRate(p, op.now);
    } else {
      OthersKeepRate(p, op);
    }
  }

  lemma StepKeepsSizes(p: State, op: Op)
    ensures Step(p, op).minSize == p.minSize && Step(p, op).dataCapacity == p.dataCapacity
  {
  }

  lemma {:induction false} EveryRunIsSound(dataCapacity: nat, minSize: nat, ops: seq<Op>)
    ensures Sound(Run(NewPool(dataCapacity, minSize), ops))
    ensures Run(NewPool(dataCapacity, minSize), ops).minSize == minSize
    ensures Run(NewPool(dataCapacity, minSize), ops).dataCapacity == dataCapacity
    decreases |ops|
  {
    if ops != [] {
      var k := |ops| - 1;
      EveryRunIsSound(dataCapacity, minSize, ops[..k]);
      var p := Run(NewPool(dataCapacity, minSize), ops[..k]);
      StepKeepsAccounts(p, ops[k]);
      StepKeepsZero(p, ops[k]);
      StepKeepsRate(p, ops[k]);
      StepKeepsSizes(p, ops[k]);
    }
  }

  /** Whatever earlier holders did to it, a buffer is all zero when it is handed out. */
  lemma HandedOutZeroed(dataCapacity: nat, minSize: nat, ops: seq<Op>)
    ensures AllZero(AcquiredBuffer(Run(NewPool(dataCapacity, minSize), ops)))
  {
    EveryRunIsSound(dataCapacity, minSize, ops);
  }

  // ---- Size of the buffers handed out ----

  /** Holders write through slices only: contents change, the layout does not. */
  predicate SlicesOnly(dataCapacity: nat, ops: seq<Op>) {
    forall i :: 0 <= i < |ops| && ops[i].Mutate? ==> Shaped(ops[i].contents, dataCapacity)
  }

  ghost predicate Uniform(p: State) {
    && (forall i :: 0 <= i < |p.queue| ==> p.queue[i] == FreshBuffer(p.dataCapacity))
    && (forall h :: h in p.outstanding ==> Shaped(p.outstanding[h], p.dataCapacity))
  }

  lemma StepKeepsUniform(p: State, op: Op)
    requires Uniform(p) && (op.Mutate? ==> Shaped(op.contents, p.dataCapacity))
    ensures Uniform(Step(p, op))
  {
    if op.Drop? && op.handle in p.outstanding {
      ResetIsFreshIff(p.outstanding[op.handle], p.dataCapacity);
    }
  }

  lemma {:induction false} UniformRuns(dataCapacity: nat, minSize: nat, ops: seq<Op>)
    requires SlicesOnly(dataCapacity, ops)
    ensures var p := Run(NewPool(dataCapacity, minSize), ops); Uniform(p) && p.dataCapacity == dataCapacity
    decreases |ops|
  {
    if ops != [] {
      UniformRuns(dataCapacity, minSize, ops[..|ops| - 1]);
      StepKeepsUniform(Run(NewPool(dataCapacity, minSize), ops[..|ops| - 1]), ops[|ops| - 1]);
    }
  }

  /** With slice writes only, every buffer handed out is indistinguishable from a new one. */
  lemma HandedOutFresh(dataCapacity: nat, minSize: nat, ops: seq<Op>)
    requires SlicesOnly(dataCapacity, ops)
    ensures AcquiredBuffer(Run(NewPool(dataCapacity, minSize), ops)) == FreshBuffer(dataCapacity)
  {
    UniformRuns(dataCapacity, minSize, ops);
  }

  /** Dropping a buffer whose length was changed through `DerefMut` puts a buffer of the wrong size into the queue. */
  lemma DropPreservesUniformIff(p: State, h: nat)
    requires Uniform(p.(outstanding := p.outstanding - {h})) && h in p.outstanding && |p.queue| < p.maxSize
    ensures Uniform(Step(p, Drop(h))) <==> Shaped(p.outstanding[h], p.dataCapacity)
  {
    ResetIsFreshIff(p.outstanding[h], p.dataCapacity);
    var after := Step(p, Drop(h));
    assert after.queue[|p.queue|] == Reset(p.outstanding[h]);
  }

  // ---- Auto-sizing ----

  /** The growth of a window that has just closed: it is still going on after every proper prefix of `ops`. */
  ghost predicate GrowingThrough(p: State, ops: seq<Op>) {
    forall k :: 0 <= k < |ops| ==> Run(p, ops[..k]).toAdd > 0
  }

  lemma GrowthStep(p: State, op: Op, goal: nat)
    requires Accounted(p) && p.toAdd > 0 && goal <= |p.queue| + p.toAdd && goal <= p.maxSize
    ensures var q := Step(p, op);
            goal <= |q.queue| + q.toAdd && p.queue <= q.queue && q.maxSize == p.maxSize
  {
  }

  lemma {:induction false} GrowthKeeps(p: State, ops: seq<Op>, goal: nat)
    requires Accounted(p) && GrowingThrough(p, ops) && goal <= |p.queue| + p.toAdd && goal <= p.maxSize
    ensures var q := Run(p, ops);
            Accounted(q) && goal <= |q.queue| + q.toAdd && p.queue <= q.queue && q.maxSize == p.maxSize
    decreases |ops|
  {
    if ops != [] {
      var n := |ops| - 1;
      assert GrowingThrough(p, ops[..n]) by {
        forall k | 0 <= k < n ensures Run(p, ops[..n][..k]).toAdd > 0 {
          assert ops[..n][..k] == ops[..k];
        }
      }
      GrowthKeeps(p, ops[..n], goal);
      assert Run(p, ops[..n]).toAdd > 0;
      GrowthStep(Run(p, ops[..n]), ops[n], goal);
      StepKeepsAccounts(Run(p, ops[..n]), ops[n]);
    }
  }

  /** Ready for a rate: `n` is at least the minimum, and twice the rate unless that is more than the maximum. */
  predicate Enough(n: nat, minSize: nat, maxSize: nat, rate: real) {
    n >= minSize && (n as real >= 2.0 * rate || n >= maxSize)
  }

  /** The least such number. */
  predicate JustEnough(n: nat, minSize: nat, maxSize: nat, rate: real) {
    Enough(n, minSize, maxSize, rate) && n <= maxSize && (n == minSize || (n - 1) as real < 2.0 * rate)
  }

  lemma DesiredIsJustEnough(minSize: nat, maxSize: nat, rate: real)
    requires minSize <= maxSize
    ensures JustEnough(DesiredSize(minSize, maxSize, rate), minSize, maxSize, rate)
  {
    var target := Ceil(rate * 2.0);
    if target > maxSize {
      assert (maxSize - 1) as real <= (target - 1) as real;
    }
  }

  /** Before the first record and within a second of the last window, `record_urb` only counts. */
  lemma RecordOnlyCounts(p: State, now: real)
    requires p.toAdd == 0 && (p.lastRecord.Some? ==> now - p.lastRecord.value < 1.0)
    ensures Step(p, Record(now)) ==
            p.(windowCount := p.windowCount + 1, lastRecord := if p.lastRecord.None? then Some(now) else p.lastRecord)
  {
  }

  /** Calls of `record_urb` at the given times. */
  function Records(times: seq<real>): (ops: seq<Op>)
    ensures |ops| == |times|
  {
    seq(|times|, i requires 0 <= i < |times| => Record(times[i]))
  }

  lemma {:induction false} CountsWithinWindow(p: State, start: real, times: seq<real>)
    requires p.toAdd == 0 && p.lastRecord == Some(start) && forall t :: t in times ==> t - start < 1.0
    ensures Run(p, Records(times)) == p.(windowCount := p.windowCount + |times|)
    decreases |times|
  {
    if times != [] {
      var n := |times| - 1;
      assert forall t :: t in times[..n] ==> t in times;
      CountsWithinWindow(p, start, times[..n]);
      assert Records(times)[..n] == Records(times[..n]) && times[n] in times;
      RecordOnlyCounts(Run(p, Records(times[..n])), times[n]);
    }
  }

  /** The first average of a pool counts every call since the first one, over the time since then. */
  lemma FirstAverage(dataCapacity: nat, minSize: nat, start: real, times: seq<real>, now: real)
    requires now - start >= 1.0 && forall t :: t in times ==> t - start < 1.0
    ensures var open := Step(NewPool(dataCapacity, minSize), Record(start));
            Step(Run(open, Records(times)), Record(now)).ewma == (|times| + 2) as real / (now - start)
  {
    var open := Step(NewPool(dataCapacity, minSize), Record(start));
    CountsWithinWindow(open, start, times);
  }

  /** A second or more after the last one, `now` closes a window. */
  ghost predicate ClosedBy(p: State, now: real) {
    Accounted(p) && p.toAdd == 0 && p.lastRecord.Some? && now - p.lastRecord.value >= 1.0
  }

  lemma CloseSetsGoal(p: State, now: real)
    requires ClosedBy(p, now)
    ensures var closed := Step(p, Record(now));
            var goal := Desired(p, closed.ewma);
            && Accounted(closed) && JustEnough(goal, p.minSize, p.maxSize, closed.ewma)
            && closed.queue == p.queue && closed.maxSize == p.maxSize && closed.dataCapacity == p.dataCapacity
            && closed.toAdd == if goal > |p.queue| then goal - |p.queue| else 0
  {
    RecordKeepsAccounts(p, now);
    DesiredIsJustEnough(p.minSize, p.maxSize, Step(p, Record(now)).ewma);
  }

  lemma CloseIsEnough(p: State, now: real, n: nat)
    requires ClosedBy(p, now) && (|p.queue| + Step(p, Record(now)).toAdd <= n || n >= p.maxSize)
    ensures Enough(n, p.minSize, p.maxSize, Step(p, Record(now)).ewma)
  {
    CloseSetsGoal(p, now);
  }

  /**
    Closing a window gives the rate of the window the weight 1/8, and never shrinks the queue. Whatever
    other threads do between its pushes, the queue is large enough when the growth ends, also when a push
    finds it full.
   */
  lemma WindowCloseGrows(p: State, now: real, ops: seq<Op>)
    requires ClosedBy(p, now) && GrowingThrough(Step(p, Record(now)), ops)
    ensures var closed := Step(p, Record(now));
            var rate := (p.windowCount + 1) as real / (now - p.lastRecord.value);
            var q := Run(closed, ops);
            && closed.windowCount == 0 && closed.lastRecord == Some(now)
            && closed.ewma == (if p.ewma == 0.0 then rate else rate / 8.0 + 7.0 * p.ewma / 8.0)
            && p.queue <= q.queue && |q.queue| <= p.maxSize
            && (q.toAdd == 0 ==> Enough(|q.queue|, p.minSize, p.maxSize, closed.ewma))
  {
    var closed := Step(p, Record(now));
    CloseSetsGoal(p, now);
    GrowthKeeps(closed, ops, Desired(p, closed.ewma));
  }

  function Grows(ops: seq<Op>): (n: nat) {
    if ops == [] then 0 else Grows(ops[..|ops| - 1]) + if ops[|ops| - 1].Grow? then 1 else 0
  }

  /** The growth ends: every push brings it nearer to its end, whatever happens between them. */
  lemma {:induction false} GrowthEnds(p: State, ops: seq<Op>)
    requires forall i :: 0 <= i < |ops| ==> !ops[i].Record?
    ensures Run(p, ops).toAdd == 0 || Run(p, ops).toAdd + Grows(ops) <= p.toAdd
    decreases |ops|
  {
    if ops != [] {
      GrowthEnds(p, ops[..|ops| - 1]);
    }
  }

  /** Undisturbed, the growth adds exactly the missing buffers, all fresh. */
  lemma {:induction false} UndisturbedGrowth(p: State, n: nat)
    requires n <= p.toAdd && |p.queue| + p.toAdd <= p.maxSize
    ensures Run(p, seq(n, i => Grow)) ==
            p.(queue := p.queue + Fill(p.dataCapacity, n), created := p.created + n, toAdd := p.toAdd - n)
  {
    if n == 0 {
      assert p.queue + Fill(p.dataCapacity, 0) == p.queue;
    } else {
      UndisturbedGrowth(p, n - 1);
      var ops := seq(n, i => Grow);
      assert ops[..n - 1] == seq(n - 1, i => Grow);
      assert Fill(p.dataCapacity, n) == Fill(p.dataCapacity, n - 1) + [FreshBuffer(p.dataCapacity)];
      Associative(p.queue, Fill(p.dataCapacity, n - 1), [FreshBuffer(p.dataCapacity)]);
    }
  }

  /** Undisturbed, it adds nothing to a queue that is large enough, and otherwise no more than needed. */
  lemma UndisturbedClose(p: State, now: real)
    requires ClosedBy(p, now)
    ensures var closed := Step(p, Record(now));
            var q := Run(closed, seq(closed.toAdd, i => Grow));
            && q.toAdd == 0 && q.queue == p.queue + Fill(p.dataCapacity, closed.toAdd)
            && if Enough(|p.queue|, p.minSize, p.maxSize, closed.ewma) then q.queue == p.queue
               else JustEnough(|q.queue|, p.minSize, p.maxSize, closed.ewma)
  {
    var closed := Step(p, Record(now));
    CloseSetsGoal(p, now);
    UndisturbedGrowth(closed, closed.toAdd);
    if closed.toAdd == 0 {
      assert p.queue + Fill(p.dataCapacity, 0) == p.queue;
    }
  }

  // ---- Order and privacy ----

  /** Buffers are handed out in the order of the queue, each under a handle of its own. */
  lemma {:induction false} AcquiredInOrder(p: State, n: nat)
    requires p.toAdd == 0 && n <= |p.queue|
    ensures var q := Run(p, seq(n, i => Acquire));
            && q.queue == p.queue[n..] && q.nextHandle == p.nextHandle + n && q.toAdd == 0
            && forall h :: p.nextHandle <= h < p.nextHandle + n ==>
                 h in q.outstanding && q.outstanding[h] == p.queue[h - p.nextHandle]
  {
    if n > 0 {
      AcquiredInOrder(p, n - 1);
      assert seq(n, i => Acquire)[..n - 1] == seq(n - 1, i => Acquire);
    }
  }

  /** A buffer dropped behind `n` others is what the n+1st acquire gets, zeroed and in its old layout. */
  lemma DroppedComesBack(p: State, h: nat)
    requires p.toAdd == 0 && h in p.outstanding && |p.queue| < p.maxSize
    ensures var q := Run(Step(p, Drop(h)), seq(|p.queue| + 1, i => Acquire));
            var again := p.nextHandle + |p.queue|;
            && q.queue == [] && again in q.outstanding && AllZero(q.outstanding[again])
            && Shaped(q.outstanding[again], p.dataCapacity) == Shaped(p.outstanding[h], p.dataCapacity)
  {
    AcquiredInOrder(Step(p, Drop(h)), |p.queue| + 1);
  }

  /** Operations by others: nobody else has the handle. */
  predicate LeavesAlone(op: Op, h: nat) {
    (op.Mutate? || op.Take? || op.Drop?) ==> op.handle != h
  }

  /** What a holder has written stays as it is until the holder itself does something with the buffer. */
  lemma {:induction false} HeldBufferIsPrivate(p: State, ops: seq<Op>, h: nat)
    requires Accounted(p) && h in p.outstanding
    requires forall i :: 0 <= i < |ops| ==> LeavesAlone(ops[i], h)
    ensures var q := Run(p, ops); Accounted(q) && h in q.outstanding && q.outstanding[h] == p.outstanding[h]
    decreases |ops|
  {
    if ops != [] {
      var n := |ops| - 1;
      HeldBufferIsPrivate(p, ops[..n], h);
      StepKeepsAccounts(Run(p, ops[..n]), ops[n]);
      assert LeavesAlone(ops[n], h);
    }
  }
}
