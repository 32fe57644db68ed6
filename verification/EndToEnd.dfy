/**
  The client's URB loop (client.rs, `urb_forwarding_loop`) and what arrives at it when
  the server's loop is the writer. `select!` between the socket and ctrl-C, and the answers
  of the VHCI backend, are arbitrary inputs.
 */
module EndToEnd {
  import opened Bytes
  import opened Urb
  import opened Wire
  import opened Usb
  import opened Batcher
  import opened UrbLoops

  datatype VhciCall =
    | Complete(seqnum: U32, devid: U32, status: I32, actualLength: U32, data: seq<Byte>)
    | Cancel(seqnum: U32, devid: U32)

  /** One iteration's inputs: whether ctrl-C wins the select, and whether a VHCI call succeeds. */
  datatype ClientTurn = ClientTurn(interrupted: bool, backendOk: bool)

  /** How a run ends: the VHCI calls made, whether the loop returned Ok, and the bytes it left unread. */
  datatype ClientRun = ClientRun(calls: seq<VhciCall>, ok: bool, unread: seq<Byte>)

  /** The VHCI call a frame causes, if any. */
  function CallFor(f: seq<Byte>): (c: Option<VhciCall>)
    requires IsFrame(f)
  {
    match Decode(f).body
    case Reply(ret, data) => Some(Complete(ret.seqnum, ret.devid, AsI32(ret.status), ret.actualLength, data))
    case Unlink(unlink) => Some(Cancel(unlink.seqnum, unlink.devid))
    case _ => None
  }

  function Client(s: seq<Byte>, turns: nat -> ClientTurn, n: nat): (r: ClientRun)
    decreases |s|
  {
    var next := NextFrame(s);
    if turns(n).interrupted || next.None? then ClientRun([], true, s) else
    var f := next.value;
    CutFrame(s);
    var call := CallFor(f);
    if call.None? then Client(s[|f|..], turns, n + 1)
    else if !turns(n).backendOk then ClientRun([call.value], false, s[|f|..])
    else
      var later := Client(s[|f|..], turns, n + 1);
      ClientRun([call.value] + later.calls, later.ok, later.unread)
  }

  class Vhci {
    var calls: seq<VhciCall>

    constructor ()
      ensures calls == []
    {
      calls := [];
    }

    method Record(c: VhciCall)
      modifies this
      ensures calls == old(calls) + [c]
    {
      calls := calls + [c];
    }
  }

  /** The RET_SUBMIT and RET_UNLINK arms: read the body and call the backend. */
  method Dispatch(vhci: Vhci, f: seq<Byte>) returns (called: bool)
    requires IsFrame(f)
    modifies vhci
    ensures called == CallFor(f).Some?
    ensures called ==> vhci.calls == old(vhci.calls) + [CallFor(f).value]
    ensures !called ==> vhci.calls == old(vhci.calls)
  {
    var command, payload := ReadHeader(f).command, f[HEADER_SIZE..];
    called := false;
    if command == RET_SUBMIT {
      ReplyFrame(f);
      var ret := ReadRet(payload[..RET_BODY_SIZE]);
      ReadsPrefix(payload[..RET_BODY_SIZE], payload);
      var inData := if ret.HasData() then payload[RET_BODY_SIZE..] else [];
      assert inData == payload[RET_BODY_SIZE..];
      vhci.Record(Complete(ret.seqnum, ret.devid, AsI32(ret.status), ret.actualLength, inData));
      called := true;
    } else if command == RET_UNLINK {
      ReadsPrefix(payload[..UNLINK_BODY_SIZE], payload);
      var unlink := ReadUnlink(payload[..UNLINK_BODY_SIZE]);
      vhci.Record(Cancel(unlink.seqnum, unlink.devid));
      called := true;
    }
  }

  /** The calls made so far and those still to come are the calls of the whole run. */
  ghost predicate Underway(run: ClientRun, done: seq<VhciCall>, unread: seq<Byte>, turns: nat -> ClientTurn, n: nat) {
    run.calls == done + Client(unread, turns, n).calls && run.ok == Client(unread, turns, n).ok
  }

  lemma UnderwayMore(run: ClientRun, done: seq<VhciCall>, s: seq<Byte>, turns: nat -> ClientTurn, n: nat)
    requires Underway(run, done, s, turns, n)
    requires !turns(n).interrupted && NextFrame(s).Some?
    ensures var f := NextFrame(s).value;
            && IsFrame(f)
            && (CallFor(f).None? ==> Underway(run, done, s[|f|..], turns, n + 1))
            && (CallFor(f).Some? && !turns(n).backendOk ==> run.calls == done + [CallFor(f).value] && !run.ok)
            && (CallFor(f).Some? && turns(n).backendOk ==>
                  Underway(run, done + [CallFor(f).value], s[|f|..], turns, n + 1))
  {
    CutFrame(s);
    var f := NextFrame(s).value;
    if CallFor(f).Some? {
      Associative(done, [CallFor(f).value], Client(s[|f|..], turns, n + 1).calls);
    }
  }

  lemma UnderwayStops(run: ClientRun, done: seq<VhciCall>, s: seq<Byte>, turns: nat -> ClientTurn, n: nat)
    requires Underway(run, done, s, turns, n)
    requires turns(n).interrupted || NextFrame(s).None?
    ensures run.calls == done && run.ok
  {
    assert done + [] == done;
  }

  /** `urb_forwarding_loop`. */
  method UrbForwardingLoop(stream: ByteStream, vhci: Vhci, turns: nat -> ClientTurn) returns (ok: bool)
    modifies stream`unread, vhci
    ensures ok == Client(old(stream.unread), turns, 0).ok
    ensures vhci.calls == old(vhci.calls) + Client(old(stream.unread), turns, 0).calls
  {
    ghost var run, done := Client(stream.unread, turns, 0), [];
    var n := 0;
    assert done + run.calls == run.calls && vhci.calls + done == vhci.calls;
    while true
      invariant vhci.calls == old(vhci.calls) + done
      invariant Underway(run, done, stream.unread, turns, n)
      decreases |stream.unread|
    {
      ghost var s := stream.unread;
      if turns(n).interrupted {
        UnderwayStops(run, done, s, turns, n);
        break;
      }
      var frame := ReadMessage(stream);
      if frame.None? {
        UnderwayStops(run, done, s, turns, n);
        break;
      }
      UnderwayMore(run, done, s, turns, n);
      var called := Dispatch(vhci, frame.value);
      if called {
        ghost var call := CallFor(frame.value).value;
        Associative(old(vhci.calls), done, [call]);
        done := done + [call];
        if !turns(n).backendOk { return false; }
      }
      n := n + 1;
    }
    ok := true;
  }

  // ---- What the loop's result says ----

  ghost predicate Quiet(turns: nat -> ClientTurn) {
    forall k: nat :: !turns(k).interrupted && turns(k).backendOk
  }

  /** What a turn does with the frame it meets. */
  datatype Outcome =
    | CutShort     // ctrl-C wins the select
    | CallRefused  // the frame causes a call, and the backend refuses it
    | Passed       // the frame causes no call, or the backend accepts it

  function OutcomeOf(f: seq<Byte>, turn: ClientTurn): (o: Outcome)
    requires IsFrame(f)
  {
    if turn.interrupted then CutShort else if CallFor(f).Some? && !turn.backendOk then CallRefused else Passed
  }

  /** What the turns from `n` on would do with the frames, one by one. */
  function Outcomes(frames: seq<seq<Byte>>, turns: nat -> ClientTurn, n: nat): (os: seq<Outcome>)
    requires AllFrames(frames)
    ensures |os| == |frames|
  {
    if frames == [] then [] else [OutcomeOf(frames[0], turns(n))] + Outcomes(frames[1..], turns, n + 1)
  }

  /** The backend refuses the call of frame `i`, and every frame before it passes. */
  predicate FailsAt(os: seq<Outcome>, i: nat) {
    i < |os| && os[i] == CallRefused && forall j :: 0 <= j < i ==> os[j] == Passed
  }

  /** Somewhere in the stream the backend refuses a call that the loop gets to. */
  ghost predicate GetsRefused(s: seq<Byte>, turns: nat -> ClientTurn, n: nat) {
    FailsSomewhere(Outcomes(ReadAll(s).0, turns, n))
  }

  ghost predicate FailsSomewhere(os: seq<Outcome>) {
    exists i: nat :: FailsAt(os, i)
  }

  function CallsOf(frames: seq<seq<Byte>>): (cs: seq<VhciCall>)
    requires AllFrames(frames)
  {
    if frames == [] then [] else
    (if CallFor(frames[0]).Some? then [CallFor(frames[0]).value] else []) + CallsOf(frames[1..])
  }

  lemma FailsLater(o: Outcome, rest: seq<Outcome>, i: nat)
    ensures FailsAt([o] + rest, i) <==> if i == 0 then o == CallRefused else o == Passed && FailsAt(rest, i - 1)
  {
    var all := [o] + rest;
    assert forall j :: 0 <= j < |rest| ==> rest[j] == all[j + 1];
    assert all[0] == o;
  }

  lemma CallsOfCons(f: seq<Byte>, rest: seq<seq<Byte>>, i: nat)
    requires IsFrame(f) && AllFrames(rest) && i <= |rest|
    ensures CallsOf(([f] + rest)[..i + 1]) == (if CallFor(f).Some? then [CallFor(f).value] else []) + CallsOf(rest[..i])
  {
    var front := ([f] + rest)[..i + 1];
    assert front[0] == f && front[1..] == rest[..i];
  }

  /** One turn of the loop, seen from the list of frames. */
  lemma OutcomesOfStream(s: seq<Byte>, turns: nat -> ClientTurn, n: nat)
    requires NextFrame(s).Some?
    ensures var f := NextFrame(s).value;
            && IsFrame(f)
            && Outcomes(ReadAll(s).0, turns, n) ==
               [OutcomeOf(f, turns(n))] + Outcomes(ReadAll(s[|f|..]).0, turns, n + 1)
  {
    CutFrame(s);
    var f := NextFrame(s).value;
    var frames, rest := ReadAll(s).0, ReadAll(s[|f|..]).0;
    assert frames[0] == f && frames[1..] == rest;
  }

  /**
    The loop ends with an error if and only if the backend refuses a call that the loop gets to:
    every frame before it passes. A connection that is dropped, even in the middle of a frame, ends
    it with Ok.
   */
  lemma {:induction false} OnlyVhciErrorsAreReported(s: seq<Byte>, turns: nat -> ClientTurn, n: nat)
    ensures !Client(s, turns, n).ok <==> GetsRefused(s, turns, n)
    decreases |s|
  {
    if NextFrame(s).Some? {
      var f := NextFrame(s).value;
      var later := Outcomes(ReadAll(s[|f|..]).0, turns, n + 1);
      OnlyVhciErrorsAreReported(s[|f|..], turns, n + 1);
      OutcomesOfStream(s, turns, n);
      FailsNowOrLater(OutcomeOf(f, turns(n)), later);
    }
  }

  lemma FailsNowOrLater(o: Outcome, rest: seq<Outcome>)
    ensures FailsSomewhere([o] + rest) <==> o == CallRefused || (o == Passed && FailsSomewhere(rest))
  {
    FailsLater(o, rest, 0);
    forall i: nat ensures FailsAt([o] + rest, i + 1) <==> o == Passed && FailsAt(rest, i) {
      FailsLater(o, rest, i + 1);
    }
    if i: nat :| FailsAt([o] + rest, i) {
      FailsLater(o, rest, i);
    }
    if i: nat :| o == Passed && FailsAt(rest, i) {
      assert FailsAt([o] + rest, i + 1);
    }
  }

  /** A failed run has made exactly the calls of the frames up to the one the backend refused. */
  lemma {:induction false} CallsUpToRefusal(s: seq<Byte>, turns: nat -> ClientTurn, n: nat, i: nat)
    requires FailsAt(Outcomes(ReadAll(s).0, turns, n), i)
    ensures Client(s, turns, n).calls == CallsOf(ReadAll(s).0[..i + 1])
    decreases |s|
  {
    var f := NextFrame(s).value;
    var rest := s[|f|..];
    OutcomesOfStream(s, turns, n);
    FailsLater(OutcomeOf(f, turns(n)), Outcomes(ReadAll(rest).0, turns, n + 1), i);
    CallsOfCons(f, ReadAll(rest).0, i);
    if i == 0 {
      assert ReadAll(rest).0[..0] == [];
    } else {
      CallsUpToRefusal(rest, turns, n + 1, i - 1);
      assert i - 1 + 1 == i;
    }
  }

  // ---- End to end ----

  /** The completion a reply should cause: every field as the server produced it. */
  function Completion(r: UrbReply): (c: VhciCall) {
    Complete(r.cmd.seqnum, r.cmd.devid, r.result.status, r.result.actualLength, r.result.data)
  }

  function Completions(rs: seq<UrbReply>): (cs: seq<VhciCall>)
    ensures |cs| == |rs|
  {
    seq(|rs|, i requires 0 <= i < |rs| => Completion(rs[i]))
  }

  predicate AllWellFormed(rs: seq<UrbReply>) {
    forall i :: 0 <= i < |rs| ==> rs[i].WellFormed()
  }

  lemma OnWireCons(rs: seq<UrbReply>)
    requires rs != []
    ensures OnWire(rs) == Serialize(rs[0]) + OnWire(rs[1..])
    ensures Completions(rs) == [Completion(rs[0])] + Completions(rs[1..])
    ensures AllWellFormed(rs) <==> rs[0].WellFormed() && AllWellFormed(rs[1..])
  {
    MapTail(Serializer(), rs);
  }

  /** A well-formed reply at the front of the stream is exactly the next frame and the next call. */
  lemma FrontReply(r: UrbReply, rest: seq<Byte>)
    requires r.WellFormed()
    ensures NextFrame(Serialize(r) + rest) == Some(Serialize(r))
    ensures IsFrame(Serialize(r)) && CallFor(Serialize(r)) == Some(Completion(r))
    ensures (Serialize(r) + rest)[|Serialize(r)|..] == rest
  {
    ReplyFrameIff(r);
    FrameAlone(Serialize(r), rest);
  }

  /** A reply frame completes with all the data that follows its body. */
  lemma ReplyCompletes(f: seq<Byte>)
    requires IsFrame(f) && ReadHeader(f).command == RET_SUBMIT
    ensures CallFor(f).Some? && CallFor(f).value.Complete?
    ensures |CallFor(f).value.data| == |f| - HEADER_SIZE - RET_BODY_SIZE
  {
    ReplyFrame(f);
  }

  /** A frame at the front of a serialised reply is a reply of the announced length. */
  lemma FrontIsReply(r: UrbReply, rest: seq<Byte>)
    ensures var next := NextFrame(Serialize(r) + rest);
            next.Some? ==>
              && IsFrame(next.value) && ReadHeader(next.value).command == RET_SUBMIT
              && |next.value| == HEADER_SIZE + RET_BODY_SIZE + r.Ret().InLength()
  {
    var s := Serialize(r) + rest;
    ReplyFrameIff(r);
    LengthIsStable(Serialize(r), s);
    if NextFrame(s).Some? {
      CutFrame(s);
      HeaderRoundTrip(s, REPLY_HEADER);
      ReadsPrefix(NextFrame(s).value, s);
    }
  }

  /** A malformed one either never completes or completes with data of another length. */
  lemma FrontMalformed(r: UrbReply, rest: seq<Byte>)
    requires !r.WellFormed()
    ensures var next := NextFrame(Serialize(r) + rest);
            next.Some? ==>
              IsFrame(next.value) && CallFor(next.value).Some? && CallFor(next.value) != Some(Completion(r))
  {
    FrontIsReply(r, rest);
    var next := NextFrame(Serialize(r) + rest);
    if next.Some? {
      ReplyCompletes(next.value);
    }
  }

  lemma ClientAfterReply(r: UrbReply, rest: seq<Byte>, turns: nat -> ClientTurn, n: nat)
    requires r.WellFormed() && !turns(n).interrupted && turns(n).backendOk
    ensures var later := Client(rest, turns, n + 1);
            Client(Serialize(r) + rest, turns, n) == ClientRun([Completion(r)] + later.calls, later.ok, later.unread)
  {
    FrontReply(r, rest);
  }

  lemma ClientAtMalformed(r: UrbReply, rest: seq<Byte>, turns: nat -> ClientTurn, n: nat)
    requires !r.WellFormed()
    ensures var calls := Client(Serialize(r) + rest, turns, n).calls;
            calls == [] || calls[0] != Completion(r)
  {
    FrontMalformed(r, rest);
  }

  /**
    The client turns a stream of replies into exactly their completions, with nothing left over,
    if and only if every reply is well formed.
   */
  lemma {:induction false} ClientCompletesIff(rs: seq<UrbReply>, turns: nat -> ClientTurn, n: nat)
    requires Quiet(turns)
    ensures Client(OnWire(rs), turns, n).calls == Completions(rs) <==> AllWellFormed(rs)
    ensures AllWellFormed(rs) ==> Client(OnWire(rs), turns, n) == ClientRun(Completions(rs), true, [])
    decreases |rs|
  {
    if rs == [] {
      assert NextFrame(OnWire(rs)) == None;
    } else {
      OnWireCons(rs);
      var rest := OnWire(rs[1..]);
      assert !turns(n).interrupted && turns(n).backendOk;
      if rs[0].WellFormed() {
        ClientCompletesIff(rs[1..], turns, n + 1);
        ClientAfterReply(rs[0], rest, turns, n);
        SameTail(Completion(rs[0]), Client(rest, turns, n + 1).calls, Completions(rs[1..]));
      } else {
        ClientAtMalformed(rs[0], rest, turns, n);
      }
    }
  }

  lemma SameTail<T>(x: T, a: seq<T>, b: seq<T>)
    ensures [x] + a == [x] + b <==> a == b
  {
    assert ([x] + a)[1..] == a && ([x] + b)[1..] == b;
  }

  /** A stream of replies that is cut inside its first reply yields no frame. */
  lemma CutInsideReply(r: UrbReply, s: seq<Byte>)
    requires r.WellFormed() && s <= Serialize(r) && s != Serialize(r)
    ensures NextFrame(s) == None
  {
    ReplyFrameIff(r);
    LengthIsStable(s, Serialize(r));
  }

  lemma CutStream(rs: seq<UrbReply>, s: seq<Byte>)
    requires rs != [] && s <= OnWire(rs)
    ensures var f := Serialize(rs[0]);
            if |s| < |f| then s <= f && s != f else s == f + s[|f|..] && s[|f|..] <= OnWire(rs[1..])
  {
    OnWireCons(rs);
    var f, rest := Serialize(rs[0]), OnWire(rs[1..]);
    assert s == (f + rest)[..|s|];
    if |s| >= |f| {
      assert s[|f|..] == rest[..|s| - |f|];
    }
  }

  /** However the stream is cut, and with interrupts or VHCI failures, the calls are a prefix of the completions. */
  lemma {:induction false} ClientCompletesPrefix(rs: seq<UrbReply>, s: seq<Byte>, turns: nat -> ClientTurn, n: nat)
    requires AllWellFormed(rs) && s <= OnWire(rs)
    ensures Client(s, turns, n).calls <= Completions(rs)
    decreases |rs|
  {
    if rs == [] {
      assert NextFrame(s) == None;
    } else {
      OnWireCons(rs);
      CutStream(rs, s);
      var f := Serialize(rs[0]);
      if |s| < |f| {
        CutInsideReply(rs[0], s);
      } else {
        FrontReply(rs[0], s[|f|..]);
        ClientCompletesPrefix(rs[1..], s[|f|..], turns, n + 1);
      }
    }
  }

  /**
    End to end: for every input stream, backend and clock, the client's completions are exactly the
    replies the server delivered, in order and field by field, and no byte is left over, if and only
    if every delivered reply is well formed.
   */
  lemma EndToEndIff(s: seq<Byte>, claimed: bool, turns: nat -> Turn, clientTurns: nat -> ClientTurn)
    requires Quiet(clientTurns)
    ensures var rs := Delivered(s, claimed, turns);
            && (Client(OnWire(rs), clientTurns, 0) == ClientRun(Completions(rs), true, []) <==> AllWellFormed(rs))
            && (Client(OnWire(rs), clientTurns, 0).calls == Completions(rs) <==> AllWellFormed(rs))
  {
    ClientCompletesIff(Delivered(s, claimed, turns), clientTurns, 0);
  }

  /** The same for the libusb backend: agreement of the two direction markers is enough. */
  lemma EndToEndLibusb(s: seq<Byte>, claimed: bool, turns: nat -> Turn, clientTurns: nat -> ClientTurn)
    requires Quiet(clientTurns) && Libusb(turns)
    requires forall i :: 0 <= i < |Commands(s)| ==> Commands(s)[i].cmd.DirectionsAgree()
    ensures var rs := Delivered(s, claimed, turns);
            Client(OnWire(rs), clientTurns, 0) == ClientRun(Completions(rs), true, [])
  {
    LibusbDeliversWellFormed(s, claimed, turns);
    EndToEndIff(s, claimed, turns, clientTurns);
  }

  // The next theorems speak of the commands of a stream, the answers of the backend and the clock only.

  /** What the server answers to a command. */
  function AnswerTo(c: Command, claimed: bool, turn: Turn): (r: UrbResult) {
    if claimed then ResultOf(turn.backend(c.cmd, c.outData)) else UrbResult(-19, 0, [])
  }

  /** The call that completes it at the client. */
  function CompletionOf(c: Command, claimed: bool, turn: Turn): (call: VhciCall) {
    var r := AnswerTo(c, claimed, turn);
    Complete(c.cmd.seqnum, c.cmd.devid, r.status, r.actualLength, r.data)
  }

  function CompletionsOf(cs: seq<Command>, claimed: bool, turns: nat -> Turn): (calls: seq<VhciCall>)
    ensures |calls| == |cs|
  {
    seq(|cs|, i requires 0 <= i < |cs| => CompletionOf(cs[i], claimed, turns(i)))
  }

  /** The answer has as much data as a client expects from it. */
  predicate Announces(c: Command, r: UrbResult) {
    |r.data| == if r.status == 0 && c.cmd.direction != 0 then r.actualLength else 0
  }

  predicate AllAnnounce(cs: seq<Command>, claimed: bool, turns: nat -> Turn) {
    forall i :: 0 <= i < |cs| ==> Announces(cs[i], AnswerTo(cs[i], claimed, turns(i)))
  }

  /** Bytes of the replies to the commands in [lo, hi): 52 and the data for each. */
  function ReplyBytes(cs: seq<Command>, claimed: bool, turns: nat -> Turn, lo: nat, hi: nat): (n: nat)
    requires lo <= hi <= |cs|
    decreases hi
  {
    if lo == hi then 0 else
    ReplyBytes(cs, claimed, turns, lo, hi - 1) + 52 + |AnswerTo(cs[hi - 1], claimed, turns(hi - 1)).data|
  }

  /**
    Cut the commands into groups of eight. The replies to the group so far have at most 64 KiB; and unless it
    is the first of its group, the command has the next sequence number, modulo 2^32, and its reply is ready
    less than 200 microseconds after the first of the group.
   */
  predicate CommandFits(cs: seq<Command>, claimed: bool, turns: nat -> Turn, i: nat)
    requires i < |cs|
  {
    && ReplyBytes(cs, claimed, turns, i - i % 8, i + 1) <= 65536
    && (i % 8 != 0 ==>
          && (cs[i].cmd.seqnum - cs[i - 1].cmd.seqnum == 1 || cs[i].cmd.seqnum - cs[i - 1].cmd.seqnum == -0xFFFF_FFFF)
          && turns(i).checkedAt - turns(i - i % 8).startedAt < 200_000)
  }

  lemma OfferAnswers(c: Command, claimed: bool, turn: Turn)
    ensures OfferFor(c, claimed, turn) ==
            Offer(UrbReply(c.cmd, AnswerTo(c, claimed, turn)), turn.checkedAt, turn.startedAt)
    ensures OfferFor(c, claimed, turn).reply.WellFormed() <==> Announces(c, AnswerTo(c, claimed, turn))
    ensures Completion(OfferFor(c, claimed, turn).reply) == CompletionOf(c, claimed, turn)
  {
  }

  lemma OfferAt(cs: seq<Command>, claimed: bool, turns: nat -> Turn, k: nat)
    requires k < |cs|
    ensures var o := Offers(cs, claimed, turns)[k];
            && o.reply.cmd.seqnum == cs[k].cmd.seqnum
            && o.checkedAt == turns(k).checkedAt && o.startedAt == turns(k).startedAt
            && |Serialize(o.reply)| == 52 + |AnswerTo(cs[k], claimed, turns(k)).data|
  {
    OfferAnswers(cs[k], claimed, turns(k));
  }

  lemma {:induction false} SizesAgree(cs: seq<Command>, claimed: bool, turns: nat -> Turn, lo: nat, hi: nat)
    requires lo <= hi <= |cs|
    ensures SizeBetween(Offers(cs, claimed, turns), lo, hi) == ReplyBytes(cs, claimed, turns, lo, hi)
    decreases hi
  {
    if lo < hi {
      SizesAgree(cs, claimed, turns, lo, hi - 1);
      OfferAt(cs, claimed, turns, hi - 1);
    }
  }

  lemma FitsFrom(cs: seq<Command>, claimed: bool, turns: nat -> Turn, i: nat, first: nat)
    requires first < i < |cs|
    ensures var os, next, last := Offers(cs, claimed, turns), cs[i].cmd.seqnum, cs[i - 1].cmd.seqnum;
            && (Follows(os[i - 1].reply.cmd.seqnum, os[i].reply.cmd.seqnum) <==>
                  next - last == 1 || next - last == -0xFFFF_FFFF)
            && (InTime(os[first].startedAt, os[i].checkedAt, 200_000) <==>
                  turns(i).checkedAt - turns(first).startedAt < 200_000)
  {
    OfferAt(cs, claimed, turns, i - 1);
    OfferAt(cs, claimed, turns, i);
    OfferAt(cs, claimed, turns, first);
  }

  lemma CommandFitsIff(cs: seq<Command>, claimed: bool, turns: nat -> Turn, i: nat)
    requires i < |cs|
    ensures FitsGroup(Offers(cs, claimed, turns), 8, 200_000, i) <==> CommandFits(cs, claimed, turns, i)
  {
    var first := GroupFirst(i, 8);
    assert first == i - i % 8;
    SizesAgree(cs, claimed, turns, first, i + 1);
    if first < i {
      FitsFrom(cs, claimed, turns, i, first);
    }
  }

  lemma AllFitIff(cs: seq<Command>, claimed: bool, turns: nat -> Turn)
    ensures AllFit(Offers(cs, claimed, turns), 8, 200_000) <==>
            forall i :: 0 <= i < |cs| ==> CommandFits(cs, claimed, turns, i)
  {
    forall i | 0 <= i < |cs|
      ensures FitsGroup(Offers(cs, claimed, turns), 8, 200_000, i) <==> CommandFits(cs, claimed, turns, i)
    {
      CommandFitsIff(cs, claimed, turns, i);
    }
  }

  lemma OffersAnnounce(cs: seq<Command>, claimed: bool, turns: nat -> Turn)
    requires AllAnnounce(cs, claimed, turns)
    ensures AllWellFormed(RepliesOf(Offers(cs, claimed, turns)))
    ensures Completions(RepliesOf(Offers(cs, claimed, turns))) == CompletionsOf(cs, claimed, turns)
  {
    forall i | 0 <= i < |cs|
      ensures RepliesOf(Offers(cs, claimed, turns))[i].WellFormed()
      ensures Completions(RepliesOf(Offers(cs, claimed, turns)))[i] == CompletionsOf(cs, claimed, turns)[i]
    {
      OfferAnswers(cs[i], claimed, turns(i));
    }
  }

  lemma CompletesIffFits(s: seq<Byte>, claimed: bool, turns: nat -> Turn, clientTurns: nat -> ClientTurn)
    requires Quiet(clientTurns)
    requires AllWellFormed(RepliesOf(Offers(Commands(s), claimed, turns)))
    ensures var os := Offers(Commands(s), claimed, turns);
            Client(OnWire(Delivered(s, claimed, turns)), clientTurns, 0).calls == Completions(RepliesOf(os)) <==>
            AllFit(os, 8, 200_000)
  {
    var os := Offers(Commands(s), claimed, turns);
    var rs := Delivered(s, claimed, turns);
    forall i | 0 <= i < |os| ensures os[i].reply.WellFormed() {
      assert RepliesOf(os)[i].WellFormed();
    }
    AcceptedAreWellFormed(FRESH, os);
    EndToEndIff(s, claimed, turns, clientTurns);
    LosslessIff(8, 200_000, os);
    NoneRefusedMeansAll(FRESH, os);
    if Completions(rs) == Completions(RepliesOf(os)) {
      assert |rs| == |os|;
    }
  }

  /**
    Every submitted command is completed at the client with the backend's answer, exactly once and in order,
    by the time the server has seen the end of the stream and flushed, if and only if the commands fit their
    groups of eight: a condition on the sequence numbers, the reply sizes and the clock.
   */
  lemma EverySubmissionCompletesIff(s: seq<Byte>, claimed: bool, turns: nat -> Turn, clientTurns: nat -> ClientTurn)
    requires Quiet(clientTurns) && AllAnnounce(Commands(s), claimed, turns)
    ensures var cs := Commands(s);
            Client(OnWire(Delivered(s, claimed, turns)), clientTurns, 0).calls == CompletionsOf(cs, claimed, turns) <==>
            forall i :: 0 <= i < |cs| ==> CommandFits(cs, claimed, turns, i)
  {
    OffersAnnounce(Commands(s), claimed, turns);
    CompletesIffFits(s, claimed, turns, clientTurns);
    AllFitIff(Commands(s), claimed, turns);
  }

  /**
    Whatever fails, nothing is invented or reordered: with any outcome of the server's writes, with
    ctrl-C and with VHCI failures, the client's completions are a prefix of the accepted replies.
   */
  lemma BrokenRunsComplete(s: seq<Byte>, claimed: bool, turns: nat -> Turn, last: Write, clientTurns: nat -> ClientTurn)
    requires AllWellFormed(Delivered(s, claimed, turns))
    ensures var os := Offers(Commands(s), claimed, turns);
            Client(ServerWrites(os, turns, last), clientTurns, 0).calls <= Completions(Delivered(s, claimed, turns))
  {
    var os := Offers(Commands(s), claimed, turns);
    ServerWritesPrefix(os, turns, last);
    ClientCompletesPrefix(Delivered(s, claimed, turns), ServerWrites(os, turns, last), clientTurns, 0);
  }

  /** The largest multiple of eight up to `n`. */
  function WholeGroups(n: nat): (k: nat)
    ensures k <= n < k + 8
  {
    n - n % 8
  }

  /**
    What the client has completed while the stream is still open and no further command arrives: when
    nothing is lost, exactly the commands of the complete groups of eight. The replies to the others
    are held back for as long as the stream stays open.
   */
  lemma CompletedWhileOpen(s: seq<Byte>, claimed: bool, turns: nat -> Turn, clientTurns: nat -> ClientTurn)
    requires Quiet(clientTurns) && AllAnnounce(Commands(s), claimed, turns)
    requires forall i :: 0 <= i < |Commands(s)| ==> CommandFits(Commands(s), claimed, turns, i)
    ensures var cs := Commands(s);
            Client(LoopWrites(FRESH, Offers(cs, claimed, turns)), clientTurns, 0).calls ==
            CompletionsOf(cs, claimed, turns)[..WholeGroups(|cs|)]
  {
    var cs := Commands(s);
    OffersAnnounce(cs, claimed, turns);
    AllFitIff(cs, claimed, turns);
    WrittenCompletes(Offers(cs, claimed, turns), clientTurns);
  }

  lemma RepliesPrefix(rs: seq<UrbReply>, k: nat)
    requires AllWellFormed(rs) && k <= |rs|
    ensures AllWellFormed(rs[..k]) && Completions(rs[..k]) == Completions(rs)[..k]
  {
  }

  lemma FreshLimit()
    ensures FRESH == Empty(8, 200_000) && Limit(FRESH) == 8
  {
  }

  lemma WrittenBytes(os: seq<Offer>)
    requires AllFit(os, 8, 200_000)
    ensures LoopWrites(FRESH, os) == OnWire(RepliesOf(os)[..WholeGroups(|os|)])
  {
    FreshLimit();
    WrittenInGroups(8, 200_000, os);
  }

  lemma WrittenCompletes(os: seq<Offer>, clientTurns: nat -> ClientTurn)
    requires Quiet(clientTurns) && AllWellFormed(RepliesOf(os)) && AllFit(os, 8, 200_000)
    ensures Client(LoopWrites(FRESH, os), clientTurns, 0).calls == Completions(RepliesOf(os))[..WholeGroups(|os|)]
  {
    WrittenBytes(os);
    RepliesPrefix(RepliesOf(os), WholeGroups(|os|));
    ClientCompletesIff(RepliesOf(os)[..WholeGroups(|os|)], clientTurns, 0);
  }

  // ---- What the client makes of any messages ----

  /** The call a message asks for, from its fields. */
  function CallsIn(m: Message): (cs: seq<VhciCall>) {
    match m.body
    case Reply(ret, data) =>
      [Complete(ret.seqnum, ret.devid, if ret.status < 0x8000_0000 then ret.status else ret.status - 0x1_0000_0000,
                ret.actualLength, data)]
    case Unlink(unlink) => [Cancel(unlink.seqnum, unlink.devid)]
    case _ => []
  }

  lemma CallForMessage(m: Message)
    requires m.WellFormed()
    ensures IsFrame(Encode(m))
    ensures CallsIn(m) == match CallFor(Encode(m)) { case None => [] case Some(c) => [c] }
  {
    EncodeIsFrame(m);
  }

  function AllCallsIn(ms: seq<Message>): (cs: seq<VhciCall>) {
    if ms == [] then [] else CallsIn(ms[0]) + AllCallsIn(ms[1..])
  }

  lemma ClientAfterFrame(f: seq<Byte>, rest: seq<Byte>, turns: nat -> ClientTurn, n: nat)
    requires IsFrame(f) && !turns(n).interrupted && turns(n).backendOk
    ensures var later := Client(rest, turns, n + 1);
            var calls := match CallFor(f) { case None => [] case Some(c) => [c] };
            Client(f + rest, turns, n) == ClientRun(calls + later.calls, later.ok, later.unread)
  {
    FrameAlone(f, rest);
    assert (f + rest)[|f|..] == rest;
    var later := Client(rest, turns, n + 1).calls;
    assert [] + later == later;
  }

  lemma ClientAfterMessage(m: Message, rest: seq<Byte>, turns: nat -> ClientTurn, n: nat)
    requires m.WellFormed() && !turns(n).interrupted && turns(n).backendOk
    ensures var later := Client(rest, turns, n + 1);
            Client(Encode(m) + rest, turns, n) == ClientRun(CallsIn(m) + later.calls, later.ok, later.unread)
  {
    CallForMessage(m);
    ClientAfterFrame(Encode(m), rest, turns, n);
  }

  /**
    On the encoding of any well-formed messages an undisturbed client makes, in order, the completion of each
    reply and the cancellation of each unlink, with the fields of the message, and nothing for any other.
   */
  lemma {:induction false} ClientOfMessages(ms: seq<Message>, turns: nat -> ClientTurn, n: nat)
    requires Quiet(turns) && forall i :: 0 <= i < |ms| ==> ms[i].WellFormed()
    ensures Client(Concat(EncodeEach(ms)), turns, n) == ClientRun(AllCallsIn(ms), true, [])
    decreases |ms|
  {
    if ms == [] {
      assert NextFrame(Concat(EncodeEach(ms))) == None;
    } else {
      ClientOfMessages(ms[1..], turns, n + 1);
      EncodedCons(ms);
      ClientAfterMessage(ms[0], Concat(EncodeEach(ms[1..])), turns, n);
    }
  }

  lemma RepliesAreFrames(rs: seq<UrbReply>, i: nat)
    requires AllWellFormed(rs) && i < |rs|
    ensures IsFrame(SerializeEach(rs)[i]) && Decode(SerializeEach(rs)[i]) == AsMessage(rs[i])
  {
    ReplyFrameIff(rs[i]);
  }

  lemma RepliesReadBack(rs: seq<UrbReply>)
    requires AllWellFormed(rs)
    ensures ReadAll(OnWire(rs)) == (SerializeEach(rs), [])
    ensures forall i :: 0 <= i < |rs| ==>
              IsFrame(SerializeEach(rs)[i]) && Decode(SerializeEach(rs)[i]) == AsMessage(rs[i])
  {
    forall i | 0 <= i < |rs|
      ensures IsFrame(SerializeEach(rs)[i]) && Decode(SerializeEach(rs)[i]) == AsMessage(rs[i])
    {
      RepliesAreFrames(rs, i);
    }
    FramesReadBack(SerializeEach(rs));
  }

  /** From every reachable batcher state, a flush of well-formed replies decodes to consecutive sequence numbers. */
  lemma FlushDecodesConsecutively(maxBatch: nat, timeout: nat, ops: seq<BatchOp>)
    requires AllWellFormed(Pending(Empty(maxBatch, timeout), ops))
    ensures var rs, buffer := Pending(Empty(maxBatch, timeout), ops), RunOps(Empty(maxBatch, timeout), ops).buffer;
            && ReadAll(buffer) == (SerializeEach(rs), [])
            && Consecutive(rs)
            && forall i :: 0 <= i < |rs| ==>
                 IsFrame(SerializeEach(rs)[i]) && Decode(SerializeEach(rs)[i]) == AsMessage(rs[i])
  {
    ReachableBatches(maxBatch, timeout, ops);
    RepliesReadBack(Pending(Empty(maxBatch, timeout), ops));
  }
}
