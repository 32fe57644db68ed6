/**
  The reply batcher (server/usbip-server/src/batcher.rs) and the two ways to drive
  it: the server loop as written, which never offers a refused reply again, and the
  flush-then-push-again discipline that the comments in `push` describe.
  Clock readings are arbitrary inputs, in nanoseconds.
 */
module Batcher {
  import opened Bytes
  import opened Arith
  import opened Urb
  import opened Usb

  const DEFAULT_BATCH_SIZE := 8
  const DEFAULT_BATCH_TIMEOUT := 200_000
  const MAX_BATCH_CAPACITY := 65536

  /** The abstract value of a batcher. */
  datatype Batch = Batch(
    maxBatch: nat, timeout: nat,
    buffer: seq<Byte>, count: nat, lastSeqnum: Option<U32>, startedAt: Option<nat>)

  datatype Refusal = SequenceGap | BatchFull | TimerExpired | OverCapacity

  /** One offered reply with the clock readings `push` takes: for the timer check, and for a new batch. */
  datatype Offer = Offer(reply: UrbReply, checkedAt: nat, startedAt: nat)

  function Empty(maxBatch: nat, timeout: nat): (b: Batch) {
    Batch(maxBatch, timeout, [], 0, None, None)
  }

  /** `wrapping_add(1)`. */
  function Succ(seqnum: U32): (r: U32) {
    if seqnum + 1 < 0x1_0000_0000 then seqnum + 1 else 0
  }

  /** `Instant::elapsed` saturates at zero when the clock reads earlier than the start. */
  function Elapsed(start: nat, now: nat): (d: nat) {
    if now < start then 0 else now - start
  }

  /** Why `push` leaves a reply out; the tests come in the order of the source. */
  function Refused(b: Batch, o: Offer): (why: Option<Refusal>) {
    if b.lastSeqnum.Some? && o.reply.cmd.seqnum != Succ(b.lastSeqnum.value) && b.buffer != [] then Some(SequenceGap)
    else if b.count >= b.maxBatch && b.buffer != [] then Some(BatchFull)
    else if b.startedAt.Some? && Elapsed(b.startedAt.value, o.checkedAt) >= b.timeout && b.buffer != []
    then Some(TimerExpired)
    else if |b.buffer| + |Serialize(o.reply)| > MAX_BATCH_CAPACITY then Some(OverCapacity)
    else None
  }

  // The theorems below do not use `Succ` and `Elapsed`; they say the same in plain arithmetic.

  /** The sequence number after `prev` is one more, or 0 after the largest. */
  predicate Follows(prev: U32, next: U32) {
    next == prev + 1 || (prev == 0xFFFF_FFFF && next == 0)
  }

  /** Less than `timeout` has passed since `start`. With a timeout of zero that is never so. */
  predicate InTime(start: nat, now: nat, timeout: nat) {
    0 < timeout && now < start + timeout
  }

  /** The offer follows the last reply in sequence, and the batch is not full. */
  predicate Continues(b: Batch, o: Offer) {
    (b.lastSeqnum.Some? ==> Follows(b.lastSeqnum.value, o.reply.cmd.seqnum)) && b.count < b.maxBatch
  }

  function Insert(b: Batch, o: Offer): (b': Batch) {
    b.(buffer := b.buffer + Serialize(o.reply),
       count := b.count + 1,
       lastSeqnum := Some(o.reply.cmd.seqnum),
       startedAt := if b.startedAt.None? then Some(o.startedAt) else b.startedAt)
  }

  function Pushed(b: Batch, o: Offer): (b': Batch) {
    if Refused(b, o).Some? then b else Insert(b, o)
  }

  /** `push` returns true both for "refused" and for "inserted, and now full". */
  predicate MustFlush(b: Batch, o: Offer) {
    Refused(b, o).Some? || Pushed(b, o).count >= b.maxBatch
  }

  /** The state after a flush; `lastSeqnum` is kept across batches. */
  function Flushed(b: Batch): (b': Batch) {
    b.(buffer := [], count := 0, startedAt := None)
  }

  class UrbBatcher {
    var buffer: seq<Byte>
    const maxBatch: nat
    const timeout: nat
    var batchStart: Option<nat>
    var lastSeqnum: Option<U32>
    var count: nat

    function View(): (b: Batch)
      reads this
    {
      Batch(maxBatch, timeout, buffer, count, lastSeqnum, batchStart)
    }

    constructor WithConfig(maxBatch: nat, timeout: nat)
      ensures View() == Empty(maxBatch, timeout)
    {
      this.maxBatch, this.timeout := maxBatch, timeout;
      buffer, batchStart, lastSeqnum, count := [], None, None, 0;
    }

    /** The tests of `push`, in its order. */
    method Refuses(o: Offer, reply: seq<Byte>) returns (refused: bool)
      requires reply == Serialize(o.reply)
      ensures refused == Refused(View(), o).Some?
    {
      if lastSeqnum.Some? {
        if o.reply.cmd.seqnum != Succ(lastSeqnum.value) && buffer != [] { return true; }
      }
      if count >= maxBatch && buffer != [] { return true; }
      if batchStart.Some? {
        if Elapsed(batchStart.value, o.checkedAt) >= timeout && buffer != [] { return true; }
      }
      refused := |buffer| + |reply| > MAX_BATCH_CAPACITY;
    }

    method Push(o: Offer) returns (flush: bool)
      modifies this
      ensures View() == Pushed(old(View()), o)
      ensures flush == MustFlush(old(View()), o)
    {
      var reply := SerializeReply(o.reply);
      var refused := Refuses(o, reply);
      if refused { return true; }
      buffer := buffer + reply;
      count := count + 1;
      lastSeqnum := Some(o.reply.cmd.seqnum);
      if batchStart.None? { batchStart := Some(o.startedAt); }
      flush := count >= maxBatch;
    }

    method Flush() returns (data: seq<Byte>)
      modifies this
      ensures data == old(buffer)
      ensures View() == Flushed(old(View()))
    {
      data := buffer;
      buffer := [];
      batchStart := None;
      count := 0;
    }

    /** Whether the timer has run out: it says beforehand what `push` would answer at that clock reading. */
    method ShouldTimeout(now: nat) returns (expired: bool)
      ensures expired ==> forall o: Offer :: o.checkedAt == now ==> Refused(View(), o).Some?
      ensures expired ==>
                forall o: Offer :: o.checkedAt == now && Continues(View(), o) ==>
                  Refused(View(), o) == Some(TimerExpired)
      ensures !expired ==> forall o: Offer :: o.checkedAt == now ==> Refused(View(), o) != Some(TimerExpired)
    {
      expired := batchStart.Some? && Elapsed(batchStart.value, now) >= timeout && buffer != [];
    }
  }

  // ---- What every batch holds ----

  function Serializer(): (f: UrbReply -> seq<Byte>) {
    (r: UrbReply) => Serialize(r)
  }

  function SerializeEach(rs: seq<UrbReply>): (bs: seq<seq<Byte>>)
    ensures |bs| == |rs|
  {
    Map(Serializer(), rs)
  }

  function OnWire(rs: seq<UrbReply>): (b: seq<Byte>) {
    Concat(SerializeEach(rs))
  }

  predicate Consecutive(rs: seq<UrbReply>) {
    forall i :: 0 < i < |rs| ==> Follows(rs[i - 1].cmd.seqnum, rs[i].cmd.seqnum)
  }

  function Limit(b: Batch): (n: nat) {
    if b.maxBatch == 0 then 1 else b.maxBatch
  }

  /** The batch is exactly the replies `rs`: content, order, count, sequence numbers, sizes, timer. */
  ghost predicate Holds(b: Batch, rs: seq<UrbReply>) {
    && b.buffer == OnWire(rs)
    && b.count == |rs| <= Limit(b)
    && |b.buffer| <= 65536
    && Consecutive(rs)
    && (rs == [] <==> b.buffer == [])
    && (rs == [] <==> b.startedAt == None)
    && (rs != [] ==> b.lastSeqnum == Some(rs[|rs| - 1].cmd.seqnum))
  }

  lemma WireAppend(rs: seq<UrbReply>, ss: seq<UrbReply>)
    ensures OnWire(rs + ss) == OnWire(rs) + OnWire(ss)
  {
    MapAppend(Serializer(), rs, ss);
    ConcatAppend(SerializeEach(rs), SerializeEach(ss));
  }

  lemma WireSnoc(rs: seq<UrbReply>, r: UrbReply)
    ensures OnWire(rs + [r]) == OnWire(rs) + Serialize(r)
  {
    WireAppend(rs, [r]);
    assert SerializeEach([r]) == [Serialize(r)];
    ConcatOne(Serialize(r));
  }

  lemma NothingOnWire()
    ensures OnWire([]) == []
  {
  }

  lemma EmptyHolds(maxBatch: nat, timeout: nat)
    ensures Holds(Empty(maxBatch, timeout), [])
  {
    NothingOnWire();
  }

  lemma FlushedHolds(b: Batch)
    ensures Holds(Flushed(b), [])
  {
    NothingOnWire();
  }

  lemma PushKeeps(b: Batch, rs: seq<UrbReply>, o: Offer)
    requires Holds(b, rs)
    ensures Holds(Pushed(b, o), if Refused(b, o).Some? then rs else rs + [o.reply])
  {
    WireSnoc(rs, o.reply);
  }

  datatype BatchOp = PushOp(offer: Offer) | FlushOp

  function RunOps(b: Batch, ops: seq<BatchOp>): (b': Batch)
    decreases |ops|
  {
    if ops == [] then b else
    var before := RunOps(b, ops[..|ops| - 1]);
    match ops[|ops| - 1]
    case PushOp(o) => Pushed(before, o)
    case FlushOp => Flushed(before)
  }

  /** The replies inserted since the last flush. */
  function Pending(b: Batch, ops: seq<BatchOp>): (rs: seq<UrbReply>)
    decreases |ops|
  {
    if ops == [] then [] else
    var k := |ops| - 1;
    match ops[k]
    case PushOp(o) =>
      if Refused(RunOps(b, ops[..k]), o).Some? then Pending(b, ops[..k]) else Pending(b, ops[..k]) + [o.reply]
    case FlushOp => []
  }

  /** In every reachable batcher state the buffer is exactly the pending replies, in order. */
  lemma {:induction false} ReachableBatches(maxBatch: nat, timeout: nat, ops: seq<BatchOp>)
    ensures var b := Empty(maxBatch, timeout);
            Holds(RunOps(b, ops), Pending(b, ops)) && RunOps(b, ops).maxBatch == maxBatch
    decreases |ops|
  {
    var b := Empty(maxBatch, timeout);
    if ops == [] {
      EmptyHolds(maxBatch, timeout);
    } else {
      var k := |ops| - 1;
      ReachableBatches(maxBatch, timeout, ops[..k]);
      match ops[k]
      case PushOp(o) => PushKeeps(RunOps(b, ops[..k]), Pending(b, ops[..k]), o);
      case FlushOp => FlushedHolds(RunOps(b, ops[..k]));
    }
  }

  // ---- The server loop's use of the batcher (server.rs:437-455) ----

  /** One turn: push, and flush whenever `push` said true. */
  function LoopTurn(b: Batch, o: Offer): (b': Batch) {
    if MustFlush(b, o) then Flushed(Pushed(b, o)) else Pushed(b, o)
  }

  /** The bytes a turn writes to the wire. */
  function TurnWrites(b: Batch, o: Offer): (s: seq<Byte>) {
    if MustFlush(b, o) then Pushed(b, o).buffer else []
  }

  function LoopBatch(b: Batch, os: seq<Offer>): (b': Batch)
    decreases |os|
  {
    if os == [] then b else LoopTurn(LoopBatch(b, os[..|os| - 1]), os[|os| - 1])
  }

  /** Everything written during the turns, before the final flush. */
  function LoopWrites(b: Batch, os: seq<Offer>): (s: seq<Byte>)
    decreases |os|
  {
    if os == [] then [] else
    var k := |os| - 1;
    LoopWrites(b, os[..k]) + TurnWrites(LoopBatch(b, os[..k]), os[k])
  }

  /** The verdict of `push` on the i-th offer of a run. */
  function Verdict(b: Batch, os: seq<Offer>, i: nat): (why: Option<Refusal>)
    requires i < |os|
  {
    Refused(LoopBatch(b, os[..i]), os[i])
  }

  /** The replies `push` inserted, in order. */
  function Accepted(b: Batch, os: seq<Offer>): (rs: seq<UrbReply>)
    ensures |rs| <= |os|
    decreases |os|
  {
    if os == [] then [] else
    var k := |os| - 1;
    Accepted(b, os[..k]) + if Verdict(b, os, k).Some? then [] else [os[k].reply]
  }

  /** A turn neither loses nor invents bytes: what it writes and keeps is what it had plus what it took. */
  lemma TurnConserves(b: Batch, o: Offer)
    ensures TurnWrites(b, o) + LoopTurn(b, o).buffer ==
            b.buffer + if Refused(b, o).Some? then [] else Serialize(o.reply)
  {
  }

  function RepliesOf(os: seq<Offer>): (rs: seq<UrbReply>)
    ensures |rs| == |os|
  {
    seq(|os|, i requires 0 <= i < |os| => os[i].reply)
  }

  /** The offers accepted since the last flush: their replies wait in the batch. */
  function Waiting(b: Batch, os: seq<Offer>): (w: seq<Offer>)
    ensures |w| <= |os|
    decreases |os|
  {
    if os == [] then [] else
    var k := |os| - 1;
    if MustFlush(LoopBatch(b, os[..k]), os[k]) then [] else Waiting(b, os[..k]) + [os[k]]
  }

  lemma RepliesSnoc(w: seq<Offer>, o: Offer)
    ensures RepliesOf([]) == []
    ensures RepliesOf(w + [o]) == RepliesOf(w) + [o.reply]
  {
  }

  /** The batch holds the replies of the offers `w`, its timer is that of the first, and it is not full. */
  ghost predicate HoldsWaiting(b: Batch, w: seq<Offer>) {
    && Holds(b, RepliesOf(w))
    && (w != [] ==> b.count < b.maxBatch && b.startedAt == Some(w[0].startedAt))
  }

  lemma TurnKeepsWaiting(b: Batch, w: seq<Offer>, o: Offer)
    requires HoldsWaiting(b, w)
    ensures HoldsWaiting(LoopTurn(b, o), if MustFlush(b, o) then [] else w + [o])
  {
    RepliesSnoc(w, o);
    if MustFlush(b, o) {
      FlushedHolds(Pushed(b, o));
    } else {
      PushKeeps(b, RepliesOf(w), o);
    }
  }

  /** Between two turns the batch holds the waiting replies. */
  lemma {:induction false} LoopInvariant(maxBatch: nat, timeout: nat, os: seq<Offer>)
    ensures var b := Empty(maxBatch, timeout);
            && LoopBatch(b, os).maxBatch == maxBatch && LoopBatch(b, os).timeout == timeout
            && HoldsWaiting(LoopBatch(b, os), Waiting(b, os))
    decreases |os|
  {
    var b := Empty(maxBatch, timeout);
    if os == [] {
      EmptyHolds(maxBatch, timeout);
      assert RepliesOf([]) == [];
    } else {
      var k := |os| - 1;
      LoopInvariant(maxBatch, timeout, os[..k]);
      TurnKeepsWaiting(LoopBatch(b, os[..k]), Waiting(b, os[..k]), os[k]);
    }
  }

  lemma TurnSends(written: seq<Byte>, b: Batch, o: Offer, rs: seq<UrbReply>)
    requires written + b.buffer == OnWire(rs)
    ensures written + TurnWrites(b, o) + LoopTurn(b, o).buffer ==
            OnWire(rs + if Refused(b, o).Some? then [] else [o.reply])
  {
    TurnConserves(b, o);
    Associative(written, TurnWrites(b, o), LoopTurn(b, o).buffer);
    if Refused(b, o).Some? {
      assert b.buffer + [] == b.buffer && rs + [] == rs;
    } else {
      Associative(written, b.buffer, Serialize(o.reply));
      WireSnoc(rs, o.reply);
    }
  }

  /**
    The server loop as written: the bytes sent during the turns together with the
    final flush are the accepted replies, in order, and nothing else.
   */
  lemma {:induction false} LoopSendsAccepted(b: Batch, os: seq<Offer>)
    requires b.buffer == []
    ensures LoopWrites(b, os) + LoopBatch(b, os).buffer == OnWire(Accepted(b, os))
    decreases |os|
  {
    if os == [] {
      NothingOnWire();
    } else {
      var k := |os| - 1;
      LoopSendsAccepted(b, os[..k]);
      TurnSends(LoopWrites(b, os[..k]), LoopBatch(b, os[..k]), os[k], Accepted(b, os[..k]));
    }
  }

  lemma RefusedWaiting(b: Batch, w: seq<Offer>, o: Offer)
    requires HoldsWaiting(b, w)
    ensures var gap := w != [] && !Follows(w[|w| - 1].reply.cmd.seqnum, o.reply.cmd.seqnum);
            var late := w != [] && !InTime(w[0].startedAt, o.checkedAt, b.timeout);
            Refused(b, o) ==
            if gap then Some(SequenceGap) else if late then Some(TimerExpired)
            else if |OnWire(RepliesOf(w))| + |Serialize(o.reply)| > 65536 then Some(OverCapacity) else None
  {
  }

  /**
    Why the loop loses a reply, in terms of the replies that wait: it does not follow the last of them
    in sequence; it does, but comes when the timer of the first has run out; or neither is the case and
    it does not fit into 64 KiB with them. The full-batch refusal never happens.
   */
  lemma LoopRefusals(maxBatch: nat, timeout: nat, os: seq<Offer>, i: nat)
    requires i < |os|
    ensures var b := Empty(maxBatch, timeout);
            var w, o, why := Waiting(b, os[..i]), os[i], Verdict(b, os, i);
            var gap := w != [] && !Follows(w[|w| - 1].reply.cmd.seqnum, o.reply.cmd.seqnum);
            var late := w != [] && !InTime(w[0].startedAt, o.checkedAt, timeout);
            && why != Some(BatchFull)
            && (why == Some(SequenceGap) <==> gap)
            && (why == Some(TimerExpired) <==> !gap && late)
            && (why == Some(OverCapacity) <==>
                !gap && !late && |OnWire(RepliesOf(w))| + |Serialize(o.reply)| > 65536)
  {
    var b := Empty(maxBatch, timeout);
    LoopInvariant(maxBatch, timeout, os[..i]);
    RefusedWaiting(LoopBatch(b, os[..i]), Waiting(b, os[..i]), os[i]);
  }

  // ---- What has been written while the stream is still open ----

  ghost predicate EndsWith(rs: seq<UrbReply>, w: seq<Offer>) {
    |w| <= |rs| && rs[|rs| - |w|..] == RepliesOf(w)
  }

  lemma EndsWithMore(rs: seq<UrbReply>, w: seq<Offer>, o: Offer)
    requires EndsWith(rs, w)
    ensures EndsWith(rs + [o.reply], w + [o])
  {
    RepliesSnoc(w, o);
    SuffixSnoc(rs, |w|, o.reply);
  }

  /** The accepted replies end with the waiting ones. */
  lemma {:induction false} WaitingIsLast(b: Batch, os: seq<Offer>)
    ensures EndsWith(Accepted(b, os), Waiting(b, os))
    decreases |os|
  {
    if os != [] {
      var k := |os| - 1;
      WaitingIsLast(b, os[..k]);
      EndsWithMore(Accepted(b, os[..k]), Waiting(b, os[..k]), os[k]);
    }
  }

  /**
    Before the final flush, what the loop has written is the accepted replies without the waiting
    ones, which stay in the batch until a further command arrives or the stream ends: the timer is
    looked at only inside `push`.
   */
  lemma WrittenSoFar(maxBatch: nat, timeout: nat, os: seq<Offer>)
    ensures var b := Empty(maxBatch, timeout);
            var rs, w := Accepted(b, os), Waiting(b, os);
            && |w| <= |rs|
            && LoopWrites(b, os) == OnWire(rs[..|rs| - |w|])
            && (LoopWrites(b, os) == OnWire(rs) <==> w == [])
  {
    var b := Empty(maxBatch, timeout);
    var rs, w := Accepted(b, os), Waiting(b, os);
    WaitingIsLast(b, os);
    LoopSendsAccepted(b, os);
    LoopInvariant(maxBatch, timeout, os);
    var sent := rs[..|rs| - |w|];
    assert rs == sent + RepliesOf(w);
    WireAppend(sent, RepliesOf(w));
    SameEnd(LoopWrites(b, os), OnWire(sent), OnWire(RepliesOf(w)));
  }

  lemma SameEnd(x: seq<Byte>, y: seq<Byte>, z: seq<Byte>)
    requires x + z == y + z
    ensures x == y
  {
    assert |x + z| == |y + z|;
    assert (x + z)[..|x|] == x && (y + z)[..|y|] == y;
  }

  // ---- When the loop loses nothing ----

  /** Total size of the serialised replies of the offers in [lo, hi). */
  function SizeBetween(os: seq<Offer>, lo: nat, hi: nat): (n: nat)
    requires lo <= hi <= |os|
    decreases hi
  {
    if lo == hi then 0 else SizeBetween(os, lo, hi - 1) + |Serialize(os[hi - 1].reply)|
  }

  /** The start of the group of `size` offers that position `i` belongs to. */
  function GroupFirst(i: nat, size: nat): (first: nat)
    requires size > 0
    ensures first <= i < first + size
  {
    i - i % size
  }

  /**
    A condition on the offers alone. Cut them into groups of `size` (the batch limit).
    Inside its group, each offer continues the sequence number of the one before, comes
    before the group's timer runs out, and keeps the group within 64 KiB.
   */
  predicate FitsGroup(os: seq<Offer>, size: nat, timeout: nat, i: nat)
    requires size > 0 && i < |os|
  {
    var first := GroupFirst(i, size);
    && SizeBetween(os, first, i + 1) <= 65536
    && (i != first ==>
          && Follows(os[i - 1].reply.cmd.seqnum, os[i].reply.cmd.seqnum)
          && InTime(os[first].startedAt, os[i].checkedAt, timeout))
  }

  predicate AllFit(os: seq<Offer>, size: nat, timeout: nat)
    requires size > 0
  {
    forall i :: 0 <= i < |os| ==> FitsGroup(os, size, timeout, i)
  }

  predicate NoneRefused(b: Batch, os: seq<Offer>)
    decreases |os|
  {
    os != [] ==> NoneRefused(b, os[..|os| - 1]) && Verdict(b, os, |os| - 1) == None
  }

  lemma RepliesOfLast(os: seq<Offer>)
    requires os != []
    ensures RepliesOf(os) == RepliesOf(os[..|os| - 1]) + [os[|os| - 1].reply]
  {
    RepliesSnoc(os[..|os| - 1], os[|os| - 1]);
    TakeNext(os, |os| - 1);
    TakeAll(os);
  }

  lemma {:induction false} NoneRefusedCount(b: Batch, os: seq<Offer>)
    ensures NoneRefused(b, os) <==> |Accepted(b, os)| == |os|
    decreases |os|
  {
    if os != [] {
      NoneRefusedCount(b, os[..|os| - 1]);
    }
  }

  lemma {:induction false} NoneRefusedContents(b: Batch, os: seq<Offer>)
    requires NoneRefused(b, os)
    ensures Accepted(b, os) == RepliesOf(os)
    decreases |os|
  {
    if os != [] {
      NoneRefusedContents(b, os[..|os| - 1]);
      RepliesOfLast(os);
    }
  }

  lemma NoneRefusedMeansAll(b: Batch, os: seq<Offer>)
    ensures NoneRefused(b, os) <==> |Accepted(b, os)| == |os|
    ensures NoneRefused(b, os) <==> Accepted(b, os) == RepliesOf(os)
  {
    NoneRefusedCount(b, os);
    if NoneRefused(b, os) {
      NoneRefusedContents(b, os);
    }
  }

  /** The offers `os` have all been inserted, and the batch holds those from `first` on. */
  ghost predicate InStep(b: Batch, os: seq<Offer>, first: nat) {
    var n := |os|;
    && first <= n
    && b.count == n - first
    && |b.buffer| == SizeBetween(os, first, n)
    && (b.buffer == [] <==> n == first)
    && (n > first ==> b.lastSeqnum == Some(os[n - 1].reply.cmd.seqnum) && b.startedAt == Some(os[first].startedAt))
    && (n == first ==> b.startedAt == None)
  }

  lemma SizePrefix(os: seq<Offer>, lo: nat, hi: nat, k: nat)
    requires lo <= hi <= k <= |os|
    ensures SizeBetween(os[..k], lo, hi) == SizeBetween(os, lo, hi)
  {
  }

  /** In step and not full, the next offer is accepted exactly when it fits its group. */
  lemma AcceptedIffFits(b: Batch, os: seq<Offer>, first: nat)
    requires os != [] && first <= |os| - 1
    requires InStep(b, os[..|os| - 1], first)
    requires b.buffer != [] ==> b.count < b.maxBatch
    ensures var i := |os| - 1;
            Refused(b, os[i]) == None <==>
              && SizeBetween(os, first, i + 1) <= 65536
              && (i != first ==> Follows(os[i - 1].reply.cmd.seqnum, os[i].reply.cmd.seqnum)
                                 && InTime(os[first].startedAt, os[i].checkedAt, b.timeout))
  {
    var i := |os| - 1;
    SizePrefix(os, first, i, i);
  }

  /** Accepting an offer keeps the run in step; a batch that fills up starts a new group. */
  lemma StepInGroup(b: Batch, os: seq<Offer>, first: nat)
    requires os != [] && first <= |os| - 1
    requires InStep(b, os[..|os| - 1], first)
    requires Refused(b, os[|os| - 1]) == None
    ensures InStep(LoopTurn(b, os[|os| - 1]), os, if b.count + 1 >= b.maxBatch then |os| else first)
  {
    var i := |os| - 1;
    SizePrefix(os, first, i, i);
    assert |Pushed(b, os[i]).buffer| > 0;
  }

  lemma FitsPrefixAt(os: seq<Offer>, size: nat, timeout: nat, n: nat, i: nat)
    requires size > 0 && i < n <= |os|
    ensures FitsGroup(os[..n], size, timeout, i) <==> FitsGroup(os, size, timeout, i)
  {
    SizePrefix(os, GroupFirst(i, size), i + 1, n);
  }

  lemma FitsPrefix(os: seq<Offer>, size: nat, timeout: nat)
    requires size > 0 && os != []
    ensures AllFit(os, size, timeout) <==>
            AllFit(os[..|os| - 1], size, timeout) && FitsGroup(os, size, timeout, |os| - 1)
  {
    var n := |os| - 1;
    forall i | 0 <= i < n ensures FitsGroup(os[..n], size, timeout, i) <==> FitsGroup(os, size, timeout, i) {
      FitsPrefixAt(os, size, timeout, n, i);
    }
  }

  /** In step, an offer is accepted exactly when it fits its group, and the run stays in step. */
  lemma GroupStep(b: Batch, os: seq<Offer>)
    requires os != [] && InStep(b, os[..|os| - 1], GroupFirst(|os| - 1, Limit(b)))
    requires b.buffer != [] ==> b.count < b.maxBatch
    ensures Refused(b, os[|os| - 1]) == None <==> FitsGroup(os, Limit(b), b.timeout, |os| - 1)
    ensures Refused(b, os[|os| - 1]) == None ==> InStep(LoopTurn(b, os[|os| - 1]), os, GroupFirst(|os|, Limit(b)))
  {
    var n := |os| - 1;
    var first := GroupFirst(n, Limit(b));
    AcceptedIffFits(b, os, first);
    NextRemainder(n, Limit(b));
    if Refused(b, os[n]) == None {
      StepInGroup(b, os, first);
    }
  }

  /** One more offer after a run without refusals. */
  lemma NoneRefusedStep(maxBatch: nat, timeout: nat, os: seq<Offer>)
    requires os != []
    requires var b, p := Empty(maxBatch, timeout), os[..|os| - 1];
             InStep(LoopBatch(b, p), p, GroupFirst(|p|, Limit(b)))
    ensures var b, n := Empty(maxBatch, timeout), |os| - 1;
            && (Verdict(b, os, n) == None <==> FitsGroup(os, Limit(b), timeout, n))
            && (Verdict(b, os, n) == None ==> InStep(LoopBatch(b, os), os, GroupFirst(|os|, Limit(b))))
  {
    var b, p := Empty(maxBatch, timeout), os[..|os| - 1];
    LoopInvariant(maxBatch, timeout, p);
    GroupStep(LoopBatch(b, p), os);
  }

  lemma NothingInStep(maxBatch: nat, timeout: nat)
    ensures var b := Empty(maxBatch, timeout); InStep(LoopBatch(b, []), [], GroupFirst(0, Limit(b)))
  {
    assert GroupFirst(0, Limit(Empty(maxBatch, timeout))) == 0;
  }

  lemma {:induction false} NoneRefusedIff(maxBatch: nat, timeout: nat, os: seq<Offer>)
    ensures var b := Empty(maxBatch, timeout);
            && (NoneRefused(b, os) <==> AllFit(os, Limit(b), timeout))
            && (NoneRefused(b, os) ==> InStep(LoopBatch(b, os), os, GroupFirst(|os|, Limit(b))))
    decreases |os|
  {
    var b := Empty(maxBatch, timeout);
    if os == [] {
      NothingInStep(maxBatch, timeout);
    } else {
      var p := os[..|os| - 1];
      NoneRefusedIff(maxBatch, timeout, p);
      FitsPrefix(os, Limit(b), timeout);
      if NoneRefused(b, p) {
        NoneRefusedStep(maxBatch, timeout, os);
      }
    }
  }

  /**
    The loop delivers every reply if and only if every offer fits its group: a condition on
    sequence numbers, clock readings and sizes that can be evaluated without running the batcher.
   */
  lemma LosslessIff(maxBatch: nat, timeout: nat, os: seq<Offer>)
    ensures var b := Empty(maxBatch, timeout);
            Accepted(b, os) == RepliesOf(os) <==> AllFit(os, Limit(b), timeout)
  {
    NoneRefusedIff(maxBatch, timeout, os);
    NoneRefusedMeansAll(Empty(maxBatch, timeout), os);
  }

  lemma WaitingInGroup(maxBatch: nat, timeout: nat, os: seq<Offer>)
    requires AllFit(os, Limit(Empty(maxBatch, timeout)), timeout)
    ensures var b := Empty(maxBatch, timeout);
            Accepted(b, os) == RepliesOf(os) && |Waiting(b, os)| == |os| % Limit(b)
  {
    var b := Empty(maxBatch, timeout);
    NoneRefusedIff(maxBatch, timeout, os);
    NoneRefusedMeansAll(b, os);
    LoopInvariant(maxBatch, timeout, os);
  }

  /**
    When nothing is lost, the loop has written exactly the complete groups: the replies to the last
    |os| modulo the batch size commands wait, however much time passes, so all replies are on the wire
    if and only if the number of commands is a multiple of it.
   */
  lemma WrittenInGroups(maxBatch: nat, timeout: nat, os: seq<Offer>)
    requires AllFit(os, Limit(Empty(maxBatch, timeout)), timeout)
    ensures var b := Empty(maxBatch, timeout);
            && LoopWrites(b, os) == OnWire(RepliesOf(os)[..GroupFirst(|os|, Limit(b))])
            && (LoopWrites(b, os) == OnWire(RepliesOf(os)) <==> |os| % Limit(b) == 0)
  {
    WaitingInGroup(maxBatch, timeout, os);
    WrittenSoFar(maxBatch, timeout, os);
  }

  /** A client that waits for each reply before its next command never gets the first one. */
  lemma FirstReplyWaits(maxBatch: nat, timeout: nat, o: Offer)
    requires maxBatch > 1
    ensures LoopWrites(Empty(maxBatch, timeout), [o]) == []
  {
    var b := Empty(maxBatch, timeout);
    assert [o][..0] == [];
  }

  /**
    Offers as a well-behaved client causes them: sequence numbers n, n + 1 and so on modulo 2^32, small
    replies, and every one checked within the timeout of the first of its group.
   */
  predicate Steady(os: seq<Offer>, n: U32, size: nat, timeout: nat)
    requires size > 0
  {
    forall i :: 0 <= i < |os| ==>
      && os[i].reply.cmd.seqnum == (n + i) % 0x1_0000_0000
      && size * |Serialize(os[i].reply)| <= 65536
      && os[i].checkedAt < os[GroupFirst(i, size)].startedAt + timeout
  }

  lemma {:induction false} SteadySize(os: seq<Offer>, size: nat, lo: nat, hi: nat)
    requires lo <= hi <= |os| && forall i :: lo <= i < hi ==> size * |Serialize(os[i].reply)| <= 65536
    ensures size * SizeBetween(os, lo, hi) <= (hi - lo) * 65536
    decreases hi
  {
    if lo < hi {
      SteadySize(os, size, lo, hi - 1);
      Distribute(size, SizeBetween(os, lo, hi - 1), |Serialize(os[hi - 1].reply)|);
    }
  }

  lemma SmallerFactor(size: nat, x: nat, k: nat)
    requires size > 0 && k <= size && size * x <= k * 65536
    ensures x <= 65536
  {
    MultiplyMonotone(65536, k, size);
    if x > 65536 {
      MultiplyMonotone(size, 65537, x);
    }
  }

  lemma NextSeqnum(n: U32, i: nat)
    requires i > 0
    ensures Follows((n + (i - 1)) % 0x1_0000_0000, (n + i) % 0x1_0000_0000)
  {
    NextRemainder(n + (i - 1), 0x1_0000_0000);
  }

  lemma SteadyFits(os: seq<Offer>, n: U32, size: nat, timeout: nat, i: nat)
    requires size > 0 && timeout > 0 && Steady(os, n, size, timeout) && i < |os|
    ensures FitsGroup(os, size, timeout, i)
  {
    var first := GroupFirst(i, size);
    SteadySize(os, size, first, i + 1);
    SmallerFactor(size, SizeBetween(os, first, i + 1), i + 1 - first);
    if i != first {
      NextSeqnum(n, i);
    }
  }

  /** All replies to such a client are delivered, in order, however many there are. */
  lemma SteadyIsLossless(maxBatch: nat, timeout: nat, os: seq<Offer>, n: U32)
    requires timeout > 0 && Steady(os, n, Limit(Empty(maxBatch, timeout)), timeout)
    ensures var b := Empty(maxBatch, timeout);
            && Accepted(b, os) == RepliesOf(os)
            && LoopWrites(b, os) + LoopBatch(b, os).buffer == OnWire(RepliesOf(os))
  {
    var b := Empty(maxBatch, timeout);
    forall i | 0 <= i < |os| ensures FitsGroup(os, Limit(b), timeout, i) {
      SteadyFits(os, n, Limit(b), timeout, i);
    }
    LosslessIff(maxBatch, timeout, os);
    LoopSendsAccepted(b, os);
  }

  /** Batching is not invisible to the reader: with sequence numbers 1 and 5 the second reply never arrives. */
  lemma LoopCanLoseReplies(cmd: CmdSubmit, timeout: nat)
    ensures var quiet := UrbResult(0, 0, []);
            var os := [Offer(UrbReply(cmd.(seqnum := 1), quiet), 0, 0),
                       Offer(UrbReply(cmd.(seqnum := 5), quiet), 0, 0)];
            Accepted(Empty(8, timeout), os) != RepliesOf(os)
  {
    var quiet := UrbResult(0, 0, []);
    var os := [Offer(UrbReply(cmd.(seqnum := 1), quiet), 0, 0), Offer(UrbReply(cmd.(seqnum := 5), quiet), 0, 0)];
    LosslessIff(8, timeout, os);
    assert !FitsGroup(os, 8, timeout, 1);
  }

  // ---- Flush, then push again (the discipline of batcher.rs:68-82) ----

  /** A reply with the clock readings of its first push and of the push after a flush. */
  datatype Attempt = Attempt(first: Offer, checkedAgainAt: nat, startedAgainAt: nat)
  {
    function Again(): (o: Offer) {
      Offer(first.reply, checkedAgainAt, startedAgainAt)
    }

    predicate Small() {
      |Serialize(first.reply)| <= 65536
    }
  }

  function RetryTurn(b: Batch, a: Attempt): (b': Batch) {
    if Refused(b, a.first).Some? then LoopTurn(Flushed(b), a.Again()) else LoopTurn(b, a.first)
  }

  function RetryTurnWrites(b: Batch, a: Attempt): (s: seq<Byte>) {
    if Refused(b, a.first).Some? then b.buffer + TurnWrites(Flushed(b), a.Again()) else TurnWrites(b, a.first)
  }

  function RetryBatch(b: Batch, tries: seq<Attempt>): (b': Batch)
    decreases |tries|
  {
    if tries == [] then b else RetryTurn(RetryBatch(b, tries[..|tries| - 1]), tries[|tries| - 1])
  }

  function RetryWrites(b: Batch, tries: seq<Attempt>): (s: seq<Byte>)
    decreases |tries|
  {
    if tries == [] then [] else
    var k := |tries| - 1;
    RetryWrites(b, tries[..k]) + RetryTurnWrites(RetryBatch(b, tries[..k]), tries[k])
  }

  /** The replies that fit into an empty batch at all, in submission order. */
  function SmallReplies(tries: seq<Attempt>): (rs: seq<UrbReply>)
    ensures |rs| == |tries| <==> forall i :: 0 <= i < |tries| ==> tries[i].Small()
    ensures |rs| <= |tries|
    ensures |rs| == |tries| ==> forall i :: 0 <= i < |tries| ==> rs[i] == tries[i].first.reply
    decreases |tries|
  {
    if tries == [] then [] else
    var k := |tries| - 1;
    SmallReplies(tries[..k]) + if tries[k].Small() then [tries[k].first.reply] else []
  }

  /** After a flush, a push is refused only for a reply that exceeds 64 KiB by itself: one retry is enough. */
  lemma OneRetryIsEnough(b: Batch, o: Offer)
    ensures Refused(Flushed(b), o) == None <==> |Serialize(o.reply)| <= 65536
  {
  }

  lemma RetryTurnConserves(b: Batch, a: Attempt)
    ensures RetryTurnWrites(b, a) + RetryTurn(b, a).buffer ==
            b.buffer + if a.Small() then Serialize(a.first.reply) else []
  {
    if Refused(b, a.first).Some? {
      var added := if a.Small() then Serialize(a.first.reply) else [];
      OneRetryIsEnough(b, a.Again());
      TurnConserves(Flushed(b), a.Again());
      assert [] + added == added;
      Associative(b.buffer, TurnWrites(Flushed(b), a.Again()), LoopTurn(Flushed(b), a.Again()).buffer);
    } else {
      TurnConserves(b, a.first);
    }
  }

  lemma RetryTurnSends(written: seq<Byte>, b: Batch, a: Attempt, rs: seq<UrbReply>)
    requires written + b.buffer == OnWire(rs)
    ensures written + RetryTurnWrites(b, a) + RetryTurn(b, a).buffer ==
            OnWire(rs + if a.Small() then [a.first.reply] else [])
  {
    RetryTurnConserves(b, a);
    Associative(written, RetryTurnWrites(b, a), RetryTurn(b, a).buffer);
    if a.Small() {
      Associative(written, b.buffer, Serialize(a.first.reply));
      WireSnoc(rs, a.first.reply);
    } else {
      assert b.buffer + [] == b.buffer && rs + [] == rs;
    }
  }

  /**
    With one retry per refusal the bytes flushed, whatever the sequence numbers and the clock, are
    the serialised replies in submission order, except those larger than a whole batch.
   */
  lemma {:induction false} RetryLosesNothing(b: Batch, tries: seq<Attempt>)
    requires b.buffer == []
    ensures RetryWrites(b, tries) + RetryBatch(b, tries).buffer == OnWire(SmallReplies(tries))
    decreases |tries|
  {
    if tries == [] {
      NothingOnWire();
    } else {
      var k := |tries| - 1;
      RetryLosesNothing(b, tries[..k]);
      RetryTurnSends(RetryWrites(b, tries[..k]), RetryBatch(b, tries[..k]), tries[k], SmallReplies(tries[..k]));
    }
  }
}
