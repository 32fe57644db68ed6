/**
  The server's URB loop over the encrypted wire (server.rs:397-455 with `Wire::Encrypted`): each flush
  of the batcher is one tunnel message, and each tunnel message is taken for one frame, with the length
  checks that the plain wire makes superfluous.
 */
module SecureLoop {
  import opened Bytes
  import opened Urb
  import opened Wire
  import opened Usb
  import opened Batcher
  import opened Tunnel
  import opened UrbLoops

  /** The messages written during the turns, one per flush. */
  function Flushes(b: Batch, os: seq<Offer>): (fs: seq<seq<Byte>>)
    decreases |os|
  {
    if os == [] then [] else
    var k := |os| - 1;
    var before := LoopBatch(b, os[..k]);
    Flushes(b, os[..k]) + if MustFlush(before, os[k]) then [TurnWrites(before, os[k])] else []
  }

  /** All messages of a run, with the final flush that follows unless the batch is empty. */
  function AllFlushes(b: Batch, os: seq<Offer>): (fs: seq<seq<Byte>>) {
    Flushes(b, os) + if LoopBatch(b, os).count != 0 then [LoopBatch(b, os).buffer] else []
  }

  lemma {:induction false} FlushesConcatenate(b: Batch, os: seq<Offer>)
    ensures Concat(Flushes(b, os)) == LoopWrites(b, os)
    decreases |os|
  {
    if os != [] {
      var k := |os| - 1;
      var before := LoopBatch(b, os[..k]);
      FlushesConcatenate(b, os[..k]);
      if MustFlush(before, os[k]) {
        ConcatAppend(Flushes(b, os[..k]), [TurnWrites(before, os[k])]);
        ConcatOne(TurnWrites(before, os[k]));
      } else {
        assert Flushes(b, os) == Flushes(b, os[..k]);
        assert LoopWrites(b, os) == LoopWrites(b, os[..k]);
      }
    }
  }

  lemma {:induction false} FlushesFit(maxBatch: nat, timeout: nat, os: seq<Offer>)
    ensures forall i :: 0 <= i < |Flushes(Empty(maxBatch, timeout), os)| ==>
              |Flushes(Empty(maxBatch, timeout), os)[i]| <= 65536
    decreases |os|
  {
    if os != [] {
      var k := |os| - 1;
      FlushesFit(maxBatch, timeout, os[..k]);
      var b := Empty(maxBatch, timeout);
      LoopInvariant(maxBatch, timeout, os[..k]);
      PushKeeps(LoopBatch(b, os[..k]), RepliesOf(Waiting(b, os[..k])), os[k]);
    }
  }

  /**
    Over the tunnel the peer reads exactly the flushes, in order, with nothing left over, and their
    concatenation is the accepted replies: no flush exceeds what the reader accepts.
   */
  lemma TunnelCarriesTheLoop(a: Aead, k: Key, nonces: nat -> Nonce, maxBatch: nat, timeout: nat, os: seq<Offer>)
    requires Lawful(a)
    ensures var b := Empty(maxBatch, timeout);
            && ReceiveAll(a, k, Frames(a, k, AllFlushes(b, os), nonces)) == (AllFlushes(b, os), [])
            && Concat(AllFlushes(b, os)) == OnWire(Accepted(b, os))
  {
    var b := Empty(maxBatch, timeout);
    FlushesFit(maxBatch, timeout, os);
    LoopInvariant(maxBatch, timeout, os);
    TunnelRoundTrip(a, k, AllFlushes(b, os), nonces);
    LoopSendsAccepted(b, os);
    FlushesConcatenate(b, os);
    var last := LoopBatch(b, os);
    if last.count != 0 {
      ConcatAppend(Flushes(b, os), [last.buffer]);
      ConcatOne(last.buffer);
    } else {
      assert Flushes(b, os) + [] == Flushes(b, os);
      assert LoopWrites(b, os) + [] == LoopWrites(b, os);
    }
  }

  /**
    A turn writes an empty message exactly when the reply alone exceeds 64 KiB and nothing was
    waiting. On the plain wire that is invisible; in the tunnel the peer receives a zero-byte message.
   */
  lemma EmptyMessageIff(maxBatch: nat, timeout: nat, os: seq<Offer>, o: Offer)
    ensures var before := LoopBatch(Empty(maxBatch, timeout), os);
            MustFlush(before, o) && TurnWrites(before, o) == [] <==>
            before.buffer == [] && |Serialize(o.reply)| > 65536
  {
    LoopInvariant(maxBatch, timeout, os);
  }

  // ---- Commands that arrive through the tunnel ----

  /** What the loop does with one message: it stops, skips the message, or runs a command. */
  datatype Taken = Stops | Skips | Runs(command: Command)

  lemma FrontIsSubmit(m: seq<Byte>)
    requires NextFrame(m).Some? && ReadHeader(m).command == CMD_SUBMIT
    ensures IsFrame(NextFrame(m).value) && IsSubmit(NextFrame(m).value)
  {
    CutFrame(m);
    ReadsPrefix(NextFrame(m).value, m);
  }

  /** In terms of the plain framing: a command runs when the message starts with its whole frame. */
  function Taking(m: seq<Byte>): (t: Taken) {
    if |m| >= HEADER_SIZE && ReadHeader(m).command != CMD_SUBMIT then Skips
    else if NextFrame(m).None? then Stops
    else
      FrontIsSubmit(m);
      Runs(CommandIn(NextFrame(m).value))
  }

  /** The frame of a command at the front of a message, from the checks the loop makes. */
  lemma CheckedFrame(m: seq<Byte>)
    requires |m| >= HEADER_SIZE + CMD_BODY_SIZE && ReadHeader(m).command == CMD_SUBMIT
    ensures var cmd := ReadCmd(m[HEADER_SIZE..HEADER_SIZE + CMD_BODY_SIZE]);
            var n := HEADER_SIZE + CMD_BODY_SIZE + cmd.OutLength();
            NextFrame(m) == if n <= |m| then Some(m[..n]) else None
  {
  }

  lemma CheckedCommand(m: seq<Byte>, n: nat)
    requires HEADER_SIZE + CMD_BODY_SIZE <= n <= |m|
    requires ReadHeader(m).command == CMD_SUBMIT && NextFrame(m) == Some(m[..n])
    requires n == HEADER_SIZE + CMD_BODY_SIZE + ReadCmd(m[HEADER_SIZE..HEADER_SIZE + CMD_BODY_SIZE]).OutLength()
    ensures IsFrame(m[..n]) && IsSubmit(m[..n])
    ensures CommandIn(m[..n]) ==
            Command(ReadCmd(m[HEADER_SIZE..HEADER_SIZE + CMD_BODY_SIZE]), m[HEADER_SIZE + CMD_BODY_SIZE..n])
  {
    FrontIsSubmit(m);
    var f := m[..n];
    LoopSlice(f);
    assert f[HEADER_SIZE..][..CMD_BODY_SIZE] == m[HEADER_SIZE..HEADER_SIZE + CMD_BODY_SIZE];
    assert f[HEADER_SIZE..][CMD_BODY_SIZE..] == m[HEADER_SIZE + CMD_BODY_SIZE..n];
  }

  /** The loop's own checks: they take exactly the messages that start with a whole frame. */
  method TakeMessage(m: seq<Byte>) returns (t: Taken)
    ensures t == Taking(m)
  {
    if |m| < HEADER_SIZE { return Stops; }
    if ReadHeader(m).command != CMD_SUBMIT { return Skips; }
    var payload := m[HEADER_SIZE..];
    if |payload| < CMD_BODY_SIZE { return Stops; }
    var cmd := ReadCmd(payload[..CMD_BODY_SIZE]);
    assert payload[..CMD_BODY_SIZE] == m[HEADER_SIZE..HEADER_SIZE + CMD_BODY_SIZE];
    CheckedFrame(m);
    var data: seq<Byte> := [];
    if !cmd.IsIn() && cmd.transferBufferLength > 0 {
      if |payload| < CMD_BODY_SIZE + cmd.transferBufferLength { return Stops; }
      data := payload[CMD_BODY_SIZE..CMD_BODY_SIZE + cmd.transferBufferLength];
    }
    ghost var n := HEADER_SIZE + CMD_BODY_SIZE + cmd.OutLength();
    CheckedCommand(m, n);
    assert data == m[HEADER_SIZE + CMD_BODY_SIZE..n];
    t := Runs(Command(cmd, data));
  }

  /** The commands the loop runs for a sequence of messages. */
  function TunnelCommands(ms: seq<seq<Byte>>): (cs: seq<Command>) {
    if ms == [] then [] else
    match Taking(ms[0])
    case Stops => []
    case Skips => TunnelCommands(ms[1..])
    case Runs(c) => [c] + TunnelCommands(ms[1..])
  }

  lemma FrameTaken(f: seq<Byte>, rest: seq<Byte>)
    requires IsFrame(f)
    ensures Taking(f + rest) == if IsSubmit(f) then Runs(CommandIn(f)) else Skips
  {
    FrameAlone(f, rest);
    ReadsPrefix(f, f + rest);
  }

  /** With one frame per message the tunnel runs the same commands as the plain wire. */
  lemma {:induction false} SameAsPlain(fs: seq<seq<Byte>>)
    requires AllFrames(fs)
    ensures TunnelCommands(fs) == Commands(Concat(fs))
  {
    if fs == [] {
      assert NextFrame(Concat(fs)) == None;
    } else {
      FrameTaken(fs[0], []);
      assert fs[0] + [] == fs[0];
      CommandsFront(fs[0], Concat(fs[1..]));
      SameAsPlain(fs[1..]);
    }
  }

  /** A command that is cut short ends the loop, wherever it is cut. */
  lemma ShortMessageStops(f: seq<Byte>, k: nat)
    requires IsFrame(f) && IsSubmit(f) && k < |f|
    ensures Taking(f[..k]) == Stops
  {
    LengthIsStable(f[..k], f);
    if k >= HEADER_SIZE {
      ReadsPrefix(f[..k], f);
    }
  }

  lemma StopsRun(m: seq<Byte>, later: seq<seq<Byte>>)
    requires Taking(m) == Stops
    ensures TunnelCommands([m] + later) == []
  {
    assert ([m] + later)[0] == m;
  }

  lemma TunnelFront(f: seq<Byte>, later: seq<seq<Byte>>)
    requires IsFrame(f)
    ensures TunnelCommands([f] + later) == (if IsSubmit(f) then [CommandIn(f)] else []) + TunnelCommands(later)
  {
    FrameTaken(f, []);
    assert f + [] == f && ([f] + later)[0] == f && ([f] + later)[1..] == later;
  }

  lemma {:induction false} TunnelAppend(fs: seq<seq<Byte>>, tail: seq<seq<Byte>>)
    requires AllFrames(fs)
    ensures TunnelCommands(fs + tail) == TunnelCommands(fs) + TunnelCommands(tail)
    decreases |fs|
  {
    if fs == [] {
      assert fs + tail == tail;
    } else {
      var first := if IsSubmit(fs[0]) then [CommandIn(fs[0])] else [];
      TunnelAppend(fs[1..], tail);
      HeadTail(fs);
      Associative([fs[0]], fs[1..], tail);
      TunnelFront(fs[0], fs[1..]);
      TunnelFront(fs[0], fs[1..] + tail);
      Associative(first, TunnelCommands(fs[1..]), TunnelCommands(tail));
    }
  }

  /** After whole frames and a command that is cut short, the commands of the whole frames have run and no other. */
  lemma CutCommandEndsRun(fs: seq<seq<Byte>>, f: seq<Byte>, k: nat, later: seq<seq<Byte>>)
    requires AllFrames(fs) && IsFrame(f) && IsSubmit(f) && k < |f|
    ensures TunnelCommands(fs + ([f[..k]] + later)) == Commands(Concat(fs))
  {
    ShortMessageStops(f, k);
    StopsRun(f[..k], later);
    TunnelAppend(fs, [f[..k]] + later);
    SameAsPlain(fs);
  }

  lemma OneMessage(m: seq<Byte>)
    ensures TunnelCommands([m]) == if Taking(m).Runs? then [Taking(m).command] else []
  {
    assert [m][1..] == [];
  }

  lemma TwoCommands(f: seq<Byte>, g: seq<Byte>)
    requires IsFrame(f) && IsSubmit(f) && IsFrame(g) && IsSubmit(g)
    ensures Commands(f + g) == [CommandIn(f), CommandIn(g)]
  {
    CommandsFront(f, g);
    CommandsFront(g, []);
    assert g + [] == g;
    assert Commands([]) == [];
    assert [CommandIn(f)] + ([CommandIn(g)] + []) == [CommandIn(f), CommandIn(g)];
  }

  /** Bytes behind the frame of a command are dropped, and with them a second frame that the plain wire would run. */
  lemma SecondFrameLost(f: seq<Byte>, g: seq<Byte>)
    requires IsFrame(f) && IsSubmit(f) && IsFrame(g) && IsSubmit(g)
    ensures TunnelCommands([f + g]) == [CommandIn(f)]
    ensures Commands(f + g) == [CommandIn(f), CommandIn(g)]
  {
    FrameTaken(f, g);
    OneMessage(f + g);
    TwoCommands(f, g);
  }

  /** A client that sends each message by itself gets exactly its commands run, whatever the nonces. */
  lemma TunnelRunsSubmitted(a: Aead, k: Key, nonces: nat -> Nonce, ms: seq<Message>)
    requires Lawful(a)
    requires forall i :: 0 <= i < |ms| ==> ms[i].WellFormed() && |Encode(ms[i])| <= 1_048_568
    ensures TunnelCommands(ReceiveAll(a, k, Frames(a, k, EncodeEach(ms), nonces)).0) == Submitted(ms)
  {
    TunnelRoundTrip(a, k, EncodeEach(ms), nonces);
    MessagesReadBack(ms);
    SameAsPlain(EncodeEach(ms));
    CommandsOfMessages(ms);
  }
}
