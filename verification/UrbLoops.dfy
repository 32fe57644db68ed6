/**
  The server's URB loop on the plain wire (server.rs, `handle_urb_loop`): it reads commands, executes
  them, batches the replies and writes the batches. Backend answers, clock readings and the outcome
  of every write are arbitrary inputs.
 */
module UrbLoops {
  import opened Bytes
  import opened Urb
  import opened Wire
  import opened Usb
  import opened Batcher

  /** What the environment supplies for one command: the backend, two clock readings and the outcome of a write. */
  datatype Turn = Turn(backend: (CmdSubmit, seq<Byte>) -> Transfer, checkedAt: nat, startedAt: nat, write: Write)

  /** A CMD_SUBMIT as the server sees it: the command and the OUT data that came with it. */
  datatype Command = Command(cmd: CmdSubmit, outData: seq<Byte>)

  predicate IsSubmit(f: seq<Byte>)
    requires IsFrame(f)
  {
    ReadHeader(f).command == CMD_SUBMIT
  }

  function CommandIn(f: seq<Byte>): (c: Command)
    requires IsFrame(f) && IsSubmit(f)
  {
    Command(Decode(f).body.cmd, Decode(f).body.outData)
  }

  /** The commands of a stream, in order; other frames are skipped. */
  function Commands(s: seq<Byte>): (cs: seq<Command>)
    decreases |s|
  {
    var next := NextFrame(s);
    if next.None? then [] else
    CutFrame(s);
    (if IsSubmit(next.value) then [CommandIn(next.value)] else []) + Commands(s[|next.value|..])
  }

  /** The reply the server offers to the batcher for a command. */
  function OfferFor(c: Command, claimed: bool, turn: Turn): (o: Offer) {
    var transfer := if claimed then turn.backend(c.cmd, c.outData) else Failed(DeviceNotFound);
    Offer(UrbReply(c.cmd, ResultOf(transfer)), turn.checkedAt, turn.startedAt)
  }

  /** The n-th command meets `turns(n)`. */
  function Offers(cs: seq<Command>, claimed: bool, turns: nat -> Turn): (os: seq<Offer>)
    ensures |os| == |cs|
  {
    seq(|cs|, i requires 0 <= i < |cs| => OfferFor(cs[i], claimed, turns(i)))
  }

  const FRESH := Empty(DEFAULT_BATCH_SIZE, DEFAULT_BATCH_TIMEOUT)

  /** The replies that reach the wire for a whole input stream when no write fails. */
  function Delivered(s: seq<Byte>, claimed: bool, turns: nat -> Turn): (rs: seq<UrbReply>) {
    Accepted(FRESH, Offers(Commands(s), claimed, turns))
  }

  // ---- Failing writes ----

  /** The loop between two turns: the batch, what has been put on the wire, and whether a write has failed. */
  datatype Serving = Serving(batch: Batch, written: seq<Byte>, broken: bool)

  /** One turn: push, and flush whenever `push` said true; a failed write ends the loop. */
  function ServeTurn(v: Serving, o: Offer, w: Write): (v': Serving) {
    Serving(LoopTurn(v.batch, o), v.written + Transmitted(TurnWrites(v.batch, o), w), MustFlush(v.batch, o) && w.Broke?)
  }

  function Serve(os: seq<Offer>, turns: nat -> Turn): (v: Serving)
    decreases |os|
  {
    if os == [] then Serving(FRESH, [], false) else
    var n := |os| - 1;
    var before := Serve(os[..n], turns);
    if before.broken then before else ServeTurn(before, os[n], turns(n).write)
  }

  /** Everything put on the wire; `last` is the outcome of the flush that follows a loop without failed write. */
  function ServerWrites(os: seq<Offer>, turns: nat -> Turn, last: Write): (s: seq<Byte>) {
    var v := Serve(os, turns);
    if v.broken then v.written else v.written + Transmitted(v.batch.buffer, last)
  }

  lemma {:induction false} UnbrokenServe(os: seq<Offer>, turns: nat -> Turn)
    requires !Serve(os, turns).broken
    ensures Serve(os, turns) == Serving(LoopBatch(FRESH, os), LoopWrites(FRESH, os), false)
    decreases |os|
  {
    if os != [] {
      UnbrokenServe(os[..|os| - 1], turns);
    }
  }

  lemma WirePrefix(rs: seq<UrbReply>, all: seq<UrbReply>)
    requires rs <= all
    ensures OnWire(rs) <= OnWire(all)
  {
    assert all == rs + all[|rs|..];
    WireAppend(rs, all[|rs|..]);
  }

  lemma {:induction false} ServedIsPrefix(os: seq<Offer>, turns: nat -> Turn)
    ensures Serve(os, turns).written <= OnWire(Accepted(FRESH, os))
    decreases |os|
  {
    LoopSendsAccepted(FRESH, os);
    if !Serve(os, turns).broken {
      UnbrokenServe(os, turns);
    } else {
      var n := |os| - 1;
      if Serve(os[..n], turns).broken {
        ServedIsPrefix(os[..n], turns);
        WirePrefix(Accepted(FRESH, os[..n]), Accepted(FRESH, os));
      } else {
        UnbrokenServe(os[..n], turns);
      }
    }
  }

  /**
    Whatever breaks, the bytes on the wire are a prefix of the accepted replies; they are all of
    them when no write fails.
   */
  lemma ServerWritesPrefix(os: seq<Offer>, turns: nat -> Turn, last: Write)
    ensures ServerWrites(os, turns, last) <= OnWire(Accepted(FRESH, os))
    ensures !Serve(os, turns).broken && last.Sent? ==> ServerWrites(os, turns, last) == OnWire(Accepted(FRESH, os))
  {
    if Serve(os, turns).broken {
      ServedIsPrefix(os, turns);
    } else {
      UnbrokenServe(os, turns);
      LoopSendsAccepted(FRESH, os);
    }
  }

  lemma {:induction false} BrokenStays(os: seq<Offer>, all: seq<Offer>, turns: nat -> Turn)
    requires os <= all && Serve(os, turns).broken
    ensures Serve(all, turns) == Serve(os, turns)
    decreases |all|
  {
    if os != all {
      assert all[..|os|] == os && |os| < |all|;
      BrokenStays(os, all[..|all| - 1], turns);
    }
  }

  /** Turn `i` flushes, and its write fails. */
  predicate FailsAt(os: seq<Offer>, turns: nat -> Turn, i: nat)
    requires i < |os|
  {
    turns(i).write.Broke? && MustFlush(LoopBatch(FRESH, os[..i]), os[i])
  }

  ghost predicate SomeWriteFails(os: seq<Offer>, turns: nat -> Turn) {
    exists i :: 0 <= i < |os| && FailsAt(os, turns, i)
  }

  lemma SomeFailsNext(os: seq<Offer>, turns: nat -> Turn)
    requires os != []
    ensures var n := |os| - 1; SomeWriteFails(os, turns) <==> SomeWriteFails(os[..n], turns) || FailsAt(os, turns, n)
  {
    var n := |os| - 1;
    forall i | 0 <= i < n ensures FailsAt(os[..n], turns, i) <==> FailsAt(os, turns, i) {
      FailsInPrefix(os, turns, n, i);
    }
  }

  lemma FailsInPrefix(os: seq<Offer>, turns: nat -> Turn, n: nat, i: nat)
    requires i < n <= |os|
    ensures FailsAt(os[..n], turns, i) <==> FailsAt(os, turns, i)
  {
    assert os[..n][..i] == os[..i];
  }

  lemma BrokenNext(os: seq<Offer>, turns: nat -> Turn)
    requires os != []
    ensures var n := |os| - 1;
            Serve(os, turns).broken <==> Serve(os[..n], turns).broken || FailsAt(os, turns, n)
  {
    var n := |os| - 1;
    if !Serve(os[..n], turns).broken {
      UnbrokenServe(os[..n], turns);
    }
  }

  /** The loop ends with a failed write if and only if some turn that flushes has its write fail. */
  lemma {:induction false} BrokenIff(os: seq<Offer>, turns: nat -> Turn)
    ensures Serve(os, turns).broken <==> SomeWriteFails(os, turns)
    decreases |os|
  {
    if os != [] {
      BrokenIff(os[..|os| - 1], turns);
      SomeFailsNext(os, turns);
      BrokenNext(os, turns);
    }
  }

  class ExportTable {
    var owners: map<string, nat>

    constructor ()
      ensures owners == map[]
    {
      owners := map[];
    }

    /** The lock region of `handle_import`: refuse a busid that is already exported, or insert it. */
    method TryReserve(busid: string, client: nat) returns (reserved: bool)
      modifies this
      ensures reserved == (busid !in old(owners))
      ensures owners == if reserved then old(owners)[busid := client] else old(owners)
    {
      reserved := busid !in owners;
      if reserved {
        owners := owners[busid := client];
      }
    }

    method Remove(busid: string)
      modifies this
      ensures owners == old(owners) - {busid}
    {
      owners := owners - {busid};
    }
  }

  /** The out data of a command inside its frame, as the loop slices it. */
  lemma LoopSlice(f: seq<Byte>)
    requires IsFrame(f) && IsSubmit(f)
    ensures var payload := f[HEADER_SIZE..];
            && |payload| >= CMD_BODY_SIZE
            && var cmd := ReadCmd(payload[..CMD_BODY_SIZE]);
            && |payload| == CMD_BODY_SIZE + cmd.OutLength()
            && Decode(f).body == Submit(cmd, payload[CMD_STRUCT_SIZE..CMD_BODY_SIZE], payload[CMD_BODY_SIZE..])
  {
    SubmitFrame(f);
    var payload := f[HEADER_SIZE..];
    ReadsPrefix(payload[..CMD_BODY_SIZE], payload);
  }

  /** Push one reply, and flush to the wire when the batcher says so. */
  method TakeTurn(stream: ByteStream, batcher: UrbBatcher, o: Offer, write: Write, ghost v: Serving)
    returns (ok: bool)
    requires batcher.View() == v.batch
    modifies stream`written, batcher
    ensures batcher.View() == ServeTurn(v, o, write).batch
    ensures ok == !ServeTurn(v, o, write).broken
    ensures stream.written == old(stream.written) + Transmitted(TurnWrites(v.batch, o), write)
  {
    var flush := batcher.Push(o);
    ok := true;
    if flush {
      var batch := batcher.Flush();
      ok := stream.TryWrite(batch, write);
    }
  }

  /** The CMD_SUBMIT arm: slice the command and its data out of the frame, and execute it. */
  method Execute(usb: UsbDeviceManager, busid: string, f: seq<Byte>, turn: Turn) returns (o: Offer)
    requires IsFrame(f) && IsSubmit(f)
    ensures o == OfferFor(CommandIn(f), busid in usb.handles, turn)
  {
    LoopSlice(f);
    var payload := f[HEADER_SIZE..];
    var cmd := ReadCmd(payload[..CMD_BODY_SIZE]);
    var data := if !cmd.IsIn() && cmd.transferBufferLength > 0
                then payload[CMD_BODY_SIZE..CMD_BODY_SIZE + cmd.transferBufferLength] else [];
    assert data == payload[CMD_BODY_SIZE..];
    var result := usb.SubmitUrb(busid, turn.backend(cmd, data));
    o := Offer(UrbReply(cmd, result), turn.checkedAt, turn.startedAt);
  }

  lemma CommandsMore(s: seq<Byte>, done: seq<Command>)
    requires NextFrame(s).Some?
    ensures var f := NextFrame(s).value;
            && IsFrame(f)
            && (!IsSubmit(f) ==> Commands(s) == Commands(s[|f|..]))
            && (IsSubmit(f) ==> done + Commands(s) == (done + [CommandIn(f)]) + Commands(s[|f|..]))
  {
    CutFrame(s);
    var f := NextFrame(s).value;
    if IsSubmit(f) {
      Associative(done, [CommandIn(f)], Commands(s[|f|..]));
    }
  }

  lemma OffersMore(done: seq<Command>, c: Command, claimed: bool, turns: nat -> Turn)
    ensures Offers(done + [c], claimed, turns) == Offers(done, claimed, turns) + [OfferFor(c, claimed, turns(|done|))]
  {
  }

  lemma OffersPrefix(done: seq<Command>, rest: seq<Command>, claimed: bool, turns: nat -> Turn)
    ensures Offers(done, claimed, turns) <= Offers(done + rest, claimed, turns)
  {
  }

  /** The command `c` after the commands `done`; when its write fails, the rest of the input does not matter. */
  lemma ServedMore(done: seq<Command>, c: Command, rest: seq<Command>, claimed: bool, turns: nat -> Turn, o: Offer)
    requires o == OfferFor(c, claimed, turns(|done|)) && !Serve(Offers(done, claimed, turns), turns).broken
    ensures var next := Serve(Offers(done + [c], claimed, turns), turns);
            && next == ServeTurn(Serve(Offers(done, claimed, turns), turns), o, turns(|done|).write)
            && (next.broken ==> Serve(Offers(done + [c] + rest, claimed, turns), turns) == next)
  {
    var os, more := Offers(done, claimed, turns), Offers(done + [c], claimed, turns);
    OffersMore(done, c, claimed, turns);
    assert more[..|os|] == os && more[|os|] == o;
    if Serve(more, turns).broken {
      OffersPrefix(done + [c], rest, claimed, turns);
      BrokenStays(more, Offers(done + [c] + rest, claimed, turns), turns);
    }
  }

  /** The loop has served the commands `done`, and no write has failed. */
  ghost predicate HasServed(v: Serving, done: seq<Command>, claimed: bool, turns: nat -> Turn) {
    v == Serve(Offers(done, claimed, turns), turns) && !v.broken
  }

  /** The CMD_SUBMIT arm as a whole, for the command after `done`; `rest` are the commands that follow it. */
  method ServeOne(stream: ByteStream, usb: UsbDeviceManager, busid: string, batcher: UrbBatcher, f: seq<Byte>,
                  turns: nat -> Turn, n: nat, ghost v: Serving, ghost done: seq<Command>, ghost rest: seq<Command>,
                  ghost start: seq<Byte>)
    returns (ok: bool, ghost next: Serving)
    requires IsFrame(f) && IsSubmit(f) && n == |done| && HasServed(v, done, busid in usb.handles, turns)
    requires batcher.View() == v.batch && stream.written == start + v.written
    modifies stream`written, batcher
    ensures batcher.View() == next.batch && ok == !next.broken && stream.written == start + next.written
    ensures ok ==> HasServed(next, done + [CommandIn(f)], busid in usb.handles, turns)
    ensures !ok ==> next == Serve(Offers(done + [CommandIn(f)] + rest, busid in usb.handles, turns), turns)
  {
    var o := Execute(usb, busid, f, turns(n));
    ok := TakeTurn(stream, batcher, o, turns(n).write, v);
    next := ServeTurn(v, o, turns(n).write);
    Associative(start, v.written, Transmitted(TurnWrites(v.batch, o), turns(n).write));
    ServedMore(done, CommandIn(f), rest, busid in usb.handles, turns, o);
  }

  /** Read the next frame of an input whose commands so far are `done`. */
  method ReadFrame(stream: ByteStream, ghost input: seq<Byte>, ghost done: seq<Command>)
    returns (frame: Option<seq<Byte>>)
    requires Commands(input) == done + Commands(stream.unread)
    modifies stream`unread
    ensures frame.None? ==> Commands(input) == done
    ensures frame.Some? ==>
              && IsFrame(frame.value) && |stream.unread| < |old(stream.unread)|
              && Commands(input) ==
                 done + (if IsSubmit(frame.value) then [CommandIn(frame.value)] else []) + Commands(stream.unread)
  {
    ghost var s := stream.unread;
    frame := ReadMessage(stream);
    assert done + [] == done;
    if frame.Some? {
      CommandsMore(s, done);
    }
  }

  /** The loop has served the commands `done` of the input, and `unread` is still to come. */
  ghost predicate Midway(v: Serving, done: seq<Command>, claimed: bool, turns: nat -> Turn,
                         input: seq<Byte>, unread: seq<Byte>)
  {
    Commands(input) == done + Commands(unread) && HasServed(v, done, claimed, turns)
  }

  /** One turn of the loop: read a frame, and serve it if it is a command. */
  method ServeNext(stream: ByteStream, usb: UsbDeviceManager, busid: string, batcher: UrbBatcher,
                   turns: nat -> Turn, n: nat, ghost v: Serving, ghost done: seq<Command>,
                   ghost input: seq<Byte>, ghost start: seq<Byte>)
    returns (more: bool, ok: bool, m: nat, ghost next: Serving, ghost served: seq<Command>)
    requires Midway(v, done, busid in usb.handles, turns, input, stream.unread) && n == |done|
    requires batcher.View() == v.batch && stream.written == start + v.written
    modifies stream, batcher
    ensures batcher.View() == next.batch && stream.written == start + next.written && ok == !next.broken
    ensures more ==> Midway(next, served, busid in usb.handles, turns, input, stream.unread) && m == |served|
    ensures more ==> |stream.unread| < |old(stream.unread)|
    ensures !more ==> next == Serve(Offers(Commands(input), busid in usb.handles, turns), turns)
  {
    var frame := ReadFrame(stream, input, done);
    more, ok, m, next, served := frame.Some?, true, n, v, done;
    if more {
      assert done + [] == done;
      if ReadHeader(frame.value).command == CMD_SUBMIT {
        ghost var rest := Commands(stream.unread);
        more, next := ServeOne(stream, usb, busid, batcher, frame.value, turns, n, v, done, rest, start);
        ok, m, served := more, n + 1, done + [CommandIn(frame.value)];
      }
    }
  }

  /** The read-execute-batch loop, up to the first failed read or write. */
  method ServeCommands(stream: ByteStream, usb: UsbDeviceManager, busid: string, turns: nat -> Turn)
    returns (batcher: UrbBatcher, ok: bool, ghost v: Serving)
    modifies stream
    ensures fresh(batcher)
    ensures v == Serve(Offers(Commands(old(stream.unread)), busid in usb.handles, turns), turns)
    ensures batcher.View() == v.batch && ok == !v.broken && stream.written == old(stream.written) + v.written
  {
    ghost var input, done: seq<Command> := stream.unread, [];
    v := Serving(FRESH, [], false);
    batcher := new UrbBatcher.WithConfig(DEFAULT_BATCH_SIZE, DEFAULT_BATCH_TIMEOUT);
    var n, more := 0, true;
    ok := true;
    assert done + Commands(input) == Commands(input) && stream.written + [] == stream.written;
    while more
      invariant fresh(batcher)
      invariant more ==> Midway(v, done, busid in usb.handles, turns, input, stream.unread) && n == |done|
      invariant !more ==> v == Serve(Offers(Commands(input), busid in usb.handles, turns), turns)
      invariant batcher.View() == v.batch && ok == !v.broken && stream.written == old(stream.written) + v.written
      decreases more, |stream.unread|
    {
      more, ok, n, v, done := ServeNext(stream, usb, busid, batcher, turns, n, v, done, input, old(stream.written));
    }
  }

  /** The batch left after the loop is written too; a failure of that write is ignored. */
  method FinalFlush(stream: ByteStream, batcher: UrbBatcher, last: Write, ghost os: seq<Offer>)
    requires batcher.View() == LoopBatch(FRESH, os)
    modifies stream`written, batcher
    ensures stream.written == old(stream.written) + Transmitted(LoopBatch(FRESH, os).buffer, last)
  {
    LoopInvariant(DEFAULT_BATCH_SIZE, DEFAULT_BATCH_TIMEOUT, os);
    assert stream.written + [] == stream.written;
    if batcher.count != 0 {
      var batch := batcher.Flush();
      var ignored := stream.TryWrite(batch, last);
    }
  }

  /** `handle_urb_loop`, from the first read to the release of the device and of the export. */
  method HandleUrbLoop(stream: ByteStream, usb: UsbDeviceManager, exports: ExportTable, busid: string,
                       turns: nat -> Turn, last: Write, releaseOk: bool)
    returns (ok: bool)
    modifies stream, usb, exports
    ensures var os := Offers(Commands(old(stream.unread)), busid in old(usb.handles), turns);
            var broken := Serve(os, turns).broken;
            && stream.written == old(stream.written) + ServerWrites(os, turns, last)
            && (!broken && last.Sent? ==>
                  stream.written == old(stream.written) +
                    OnWire(Delivered(old(stream.unread), busid in old(usb.handles), turns)))
            && ok == (!broken && releaseOk)
            && usb.handles == (if broken then old(usb.handles) else old(usb.handles) - {busid})
    ensures exports.owners == if ok then old(exports.owners) - {busid} else old(exports.owners)
  {
    ghost var os := Offers(Commands(stream.unread), busid in usb.handles, turns);
    ghost var v;
    var batcher, served;
    batcher, served, v := ServeCommands(stream, usb, busid, turns);
    ServerWritesPrefix(os, turns, last);
    if !served {
      return false;
    }
    UnbrokenServe(os, turns);
    FinalFlush(stream, batcher, last, os);
    Associative(old(stream.written), LoopWrites(FRESH, os), Transmitted(LoopBatch(FRESH, os).buffer, last));
    ok := usb.ReleaseDevice(busid, releaseOk);
    if ok {
      exports.Remove(busid);
    }
  }

  // ---- What the server sees of a client's messages ----

  /** The commands among a list of messages. */
  function Submitted(ms: seq<Message>): (cs: seq<Command>) {
    if ms == [] then [] else
    (if ms[0].body.Submit? then [Command(ms[0].body.cmd, ms[0].body.outData)] else []) + Submitted(ms[1..])
  }

  lemma CommandsFront(f: seq<Byte>, rest: seq<Byte>)
    requires IsFrame(f)
    ensures Commands(f + rest) == (if IsSubmit(f) then [CommandIn(f)] else []) + Commands(rest)
  {
    FrameAlone(f, rest);
    assert (f + rest)[|f|..] == rest;
  }

  lemma MessageFront(m: Message, rest: seq<Byte>)
    requires m.WellFormed()
    ensures Commands(Encode(m) + rest) ==
            (if m.body.Submit? then [Command(m.body.cmd, m.body.outData)] else []) + Commands(rest)
  {
    EncodeIsFrame(m);
    CommandsFront(Encode(m), rest);
  }

  /** The server executes exactly the submitted commands, each with its data, and skips everything else. */
  lemma {:induction false} CommandsOfMessages(ms: seq<Message>)
    requires forall i :: 0 <= i < |ms| ==> ms[i].WellFormed()
    ensures Commands(Concat(EncodeEach(ms))) == Submitted(ms)
  {
    if ms == [] {
      assert NextFrame(Concat(EncodeEach(ms))) == None;
    } else {
      EncodedCons(ms);
      MessageFront(ms[0], Concat(EncodeEach(ms[1..])));
      CommandsOfMessages(ms[1..]);
    }
  }

  // ---- Replies of the libusb backend ----

  /** Every answer of the backend is one libusb could give. */
  ghost predicate Libusb(turns: nat -> Turn) {
    forall k: nat, c: CmdSubmit, d: seq<Byte> :: IsLibusbAnswer(turns(k).backend(c, d), c, d)
  }

  ghost predicate IsLibusbAnswer(t: Transfer, c: CmdSubmit, d: seq<Byte>) {
    exists answer :: t == LibusbExecute(c, d, answer)
  }

  lemma {:induction false} AcceptedAreWellFormed(b: Batch, os: seq<Offer>)
    requires forall i :: 0 <= i < |os| ==> os[i].reply.WellFormed()
    ensures forall i :: 0 <= i < |Accepted(b, os)| ==> Accepted(b, os)[i].WellFormed()
    decreases |os|
  {
    if os != [] {
      AcceptedAreWellFormed(b, os[..|os| - 1]);
    }
  }

  lemma {:induction false} CommandDataFits(s: seq<Byte>)
    ensures forall i :: 0 <= i < |Commands(s)| ==> |Commands(s)[i].outData| == Commands(s)[i].cmd.OutLength()
    decreases |s|
  {
    if NextFrame(s).Some? {
      CutFrame(s);
      FrameIsMessage(NextFrame(s).value);
      CommandDataFits(s[|NextFrame(s).value|..]);
    }
  }

  lemma LibusbOfferWellFormed(c: Command, claimed: bool, turn: Turn)
    requires |c.outData| == c.cmd.OutLength() && c.cmd.DirectionsAgree()
    requires IsLibusbAnswer(turn.backend(c.cmd, c.outData), c.cmd, c.outData)
    ensures OfferFor(c, claimed, turn).reply.WellFormed()
  {
    if claimed {
      var answer :| turn.backend(c.cmd, c.outData) == LibusbExecute(c.cmd, c.outData, answer);
      LibusbReplyIff(c.cmd, c.outData, answer);
    } else {
      FailuresAreWellFormed(c.cmd, DeviceNotFound);
    }
  }

  /** Commands whose two direction markers agree get only well-formed replies from libusb. */
  lemma LibusbDeliversWellFormed(s: seq<Byte>, claimed: bool, turns: nat -> Turn)
    requires Libusb(turns)
    requires forall i :: 0 <= i < |Commands(s)| ==> Commands(s)[i].cmd.DirectionsAgree()
    ensures forall i :: 0 <= i < |Delivered(s, claimed, turns)| ==> Delivered(s, claimed, turns)[i].WellFormed()
  {
    var cs := Commands(s);
    var os := Offers(cs, claimed, turns);
    CommandDataFits(s);
    forall i | 0 <= i < |os| ensures os[i].reply.WellFormed() {
      LibusbOfferWellFormed(cs[i], claimed, turns(i));
    }
    AcceptedAreWellFormed(FRESH, os);
  }
}
