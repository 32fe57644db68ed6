/**
  `handle_import` followed by `handle_urb_loop` for one client on the plain wire (server.rs:307-461),
  and its place in the session state machine: its effect on `exports` and on the handles is that of
  the session's own steps, whatever other sessions exist.
 */
module ImportSession {
  import opened Bytes
  import opened Urb
  import opened Wire
  import opened Usb
  import opened Batcher
  import opened UrbLoops
  import Sessions

  const OP_REP_IMPORT: U16 := 0x0007
  const STATUS_ST_DEV_BUSY: I32 := 2
  const STATUS_ST_NODEV: I32 := 4

  /** The answers of the fallible calls of one session; the device entry and the descriptor tree are opaque bytes. */
  datatype Answers = Answers(
    entry: Option<seq<Byte>>,  // get_device_entry
    refusal: Write,            // of the header that refuses the import
    claimOk: bool,
    tree: Option<seq<Byte>>,   // get_descriptor_tree
    announced: Write,          // of the reply that grants it
    last: Write,               // of the flush after the loop
    releaseOk: bool)
  {
    predicate AnnounceOk() {
      tree.Some? && announced.Sent?
    }
  }

  /** The session's steps; those after an early return are not enabled and change nothing. */
  function StepsOf(id: nat, busid: string, a: Answers, broken: bool): (steps: seq<Sessions.Step>) {
    [Sessions.Connect(id, busid), Sessions.Lookup(id, a.entry.Some?), Sessions.Reserve(id),
     Sessions.Claim(id, a.claimOk), Sessions.Announce(id, a.AnnounceOk()),
     if broken then Sessions.AbortLoop(id) else Sessions.Release(id, a.releaseOk), Sessions.Remove(id)]
  }

  function After(s: Sessions.Server, step: Sessions.Step): (s': Sessions.Server) {
    if Sessions.Enabled(s, step) then Sessions.Next(s, step) else s
  }

  lemma RunSnoc(s: Sessions.Server, steps: seq<Sessions.Step>, k: nat)
    requires k < |steps|
    ensures Sessions.Run(s, steps[..k + 1]) == After(Sessions.Run(s, steps[..k]), steps[k])
  {
    assert steps[..k + 1][..k] == steps[..k];
  }

  /** How the session ends, and what it leaves in the two tables. */
  datatype End = End(phase: Sessions.Phase, exports: map<string, nat>, handles: set<string>)

  /** The end of a session that has reserved its busid. */
  function EndOfServing(reserved: map<string, nat>, handles: set<string>, busid: string, a: Answers, broken: bool)
    : (e: End)
  {
    if !a.claimOk then End(Sessions.Lost(false), reserved, handles)
    else if a.tree.None? || a.announced.Broke? || broken then End(Sessions.Lost(true), reserved, handles + {busid})
    else if !a.releaseOk then End(Sessions.Lost(false), reserved, handles + {busid} - {busid})
    else End(Sessions.Finished, reserved - {busid}, handles + {busid} - {busid})
  }

  function EndOf(exports: map<string, nat>, handles: set<string>, id: nat, busid: string, a: Answers, broken: bool)
    : (e: End)
  {
    if a.entry.None? || busid in exports then End(Sessions.Finished, exports, handles)
    else EndOfServing(exports[busid := id], handles, busid, a, broken)
  }

  /** The steps up to the reservation. */
  lemma RequestSteps(s: Sessions.Server, id: nat, busid: string, a: Answers, broken: bool)
    requires id !in s.sessions
    ensures var granted := a.entry.Some? && busid !in s.exports;
            var phase := if granted then Sessions.Reserved else Sessions.Finished;
            Sessions.Run(s, StepsOf(id, busid, a, broken)[..3]) ==
            Sessions.Server(if granted then s.exports[busid := id] else s.exports, s.handles,
                            s.sessions[id := Sessions.Session(busid, phase)])
  {
    var steps := StepsOf(id, busid, a, broken);
    assert Sessions.Run(s, steps[..0]) == s;
    RunSnoc(s, steps, 0);
    RunSnoc(s, steps, 1);
    RunSnoc(s, steps, 2);
    var s1 := After(s, steps[0]);
    assert s1.sessions == s.sessions[id := Sessions.Session(busid, Sessions.Requested)];
    var s2 := After(s1, steps[1]);
    var looked := if a.entry.Some? then Sessions.Found else Sessions.Finished;
    assert s2.sessions == s.sessions[id := Sessions.Session(busid, looked)];
    var s3 := After(s2, steps[2]);
    var phase := if a.entry.Some? && busid !in s.exports then Sessions.Reserved else Sessions.Finished;
    assert s3.sessions == s.sessions[id := Sessions.Session(busid, phase)];
  }

  /** The steps from the reservation on. */
  lemma ServeSteps(s3: Sessions.Server, id: nat, busid: string, a: Answers, broken: bool)
    requires id in s3.sessions && s3.sessions[id] == Sessions.Session(busid, Sessions.Reserved)
    ensures var steps := StepsOf(id, busid, a, broken);
            var s := After(After(After(After(s3, steps[3]), steps[4]), steps[5]), steps[6]);
            && id in s.sessions
            && End(s.sessions[id].phase, s.exports, s.handles) == EndOfServing(s3.exports, s3.handles, busid, a, broken)
  {
    var steps := StepsOf(id, busid, a, broken);
    var s4 := After(s3, steps[3]);
    assert s4.sessions[id] == Sessions.Session(busid, if a.claimOk then Sessions.Claimed else Sessions.Lost(false));
    var s5 := After(s4, steps[4]);
    var s6 := After(s5, steps[5]);
  }

  lemma LastFour(s: Sessions.Server, steps: seq<Sessions.Step>)
    requires |steps| == 7
    ensures Sessions.Run(s, steps) ==
            After(After(After(After(Sessions.Run(s, steps[..3]), steps[3]), steps[4]), steps[5]), steps[6])
  {
    RunSnoc(s, steps, 3);
    RunSnoc(s, steps, 4);
    RunSnoc(s, steps, 5);
    RunSnoc(s, steps, 6);
    TakeAll(steps);
  }

  /** A session that has finished takes no further step. */
  lemma FinishedStays(s: Sessions.Server, id: nat, busid: string, a: Answers, broken: bool)
    requires id in s.sessions && s.sessions[id].phase.Finished?
    ensures var steps := StepsOf(id, busid, a, broken);
            After(After(After(After(s, steps[3]), steps[4]), steps[5]), steps[6]) == s
  {
  }

  /** Among any other sessions, the summary of a session agrees with the run of its steps in the state machine. */
  lemma SessionFollowsSteps(s: Sessions.Server, id: nat, busid: string, a: Answers, broken: bool)
    requires id !in s.sessions
    ensures var after := Sessions.Run(s, StepsOf(id, busid, a, broken));
            && id in after.sessions
            && EndOf(s.exports, s.handles, id, busid, a, broken) ==
               End(after.sessions[id].phase, after.exports, after.handles)
  {
    var steps := StepsOf(id, busid, a, broken);
    RequestSteps(s, id, busid, a, broken);
    LastFour(s, steps);
    var s3 := Sessions.Run(s, steps[..3]);
    if a.entry.Some? && busid !in s.exports {
      ServeSteps(s3, id, busid, a, broken);
    } else {
      FinishedStays(s3, id, busid, a, broken);
    }
  }

  function ReplyHeader(status: I32): (h: seq<Byte>) {
    HeaderBytes(Header(USBIP_VERSION, OP_REP_IMPORT, status))
  }

  /** What a session that has reserved its busid writes: the reply that grants the import, then the loop's batches. */
  function ServingWrites(a: Answers, os: seq<Offer>, turns: nat -> Turn): (s: seq<Byte>)
    requires a.entry.Some?
  {
    if !a.claimOk || a.tree.None? then [] else
    var granted := Transmitted(ReplyHeader(0) + a.entry.value + a.tree.value, a.announced);
    if a.announced.Sent? then granted + ServerWrites(os, turns, a.last) else granted
  }

  function ImportWrites(exports: map<string, nat>, busid: string, a: Answers, os: seq<Offer>, turns: nat -> Turn)
    : (s: seq<Byte>)
  {
    if a.entry.None? then Transmitted(ReplyHeader(STATUS_ST_NODEV), a.refusal)
    else if busid in exports then Transmitted(ReplyHeader(STATUS_ST_DEV_BUSY), a.refusal)
    else ServingWrites(a, os, turns)
  }

  /** The bytes of an answer: no such device, busy, or granted with everything that follows. */
  lemma ImportAnswers(exports: map<string, nat>, busid: string, a: Answers, os: seq<Offer>, turns: nat -> Turn)
    ensures ImportWrites(exports, busid, a, os, turns) ==
            if a.entry.None? then Transmitted([0x01, 0x11, 0x00, 0x07, 0x00, 0x00, 0x00, 0x04], a.refusal)
            else if busid in exports then Transmitted([0x01, 0x11, 0x00, 0x07, 0x00, 0x00, 0x00, 0x02], a.refusal)
            else if !a.claimOk || a.tree.None? then []
            else
              var granted := [0x01, 0x11, 0x00, 0x07, 0x00, 0x00, 0x00, 0x00] + a.entry.value + a.tree.value;
              if a.announced.Broke? then Transmitted(granted, a.announced)
              else granted + ServerWrites(os, turns, a.last)
  {
    assert ReplyHeader(4) == [0x01, 0x11, 0x00, 0x07, 0x00, 0x00, 0x00, 0x04];
    assert ReplyHeader(2) == [0x01, 0x11, 0x00, 0x07, 0x00, 0x00, 0x00, 0x02];
    assert ReplyHeader(0) == [0x01, 0x11, 0x00, 0x07, 0x00, 0x00, 0x00, 0x00];
  }

  /** Claim the device and send the reply that grants the import. */
  method Announce(stream: ByteStream, usb: UsbDeviceManager, busid: string, a: Answers) returns (phase: Sessions.Phase)
    requires a.entry.Some?
    modifies stream`written, usb
    ensures phase == if !a.claimOk then Sessions.Lost(false)
                     else if !a.AnnounceOk() then Sessions.Lost(true) else Sessions.Looping
    ensures usb.handles == if a.claimOk then old(usb.handles)[busid := true] else old(usb.handles)
    ensures stream.written == old(stream.written) +
            if !a.claimOk || a.tree.None? then []
            else Transmitted(ReplyHeader(0) + a.entry.value + a.tree.value, a.announced)
  {
    assert stream.written + [] == stream.written;
    var claimed := usb.ClaimDevice(busid, a.claimOk);
    if !claimed {
      return Sessions.Lost(false);
    }
    if a.tree.None? {
      return Sessions.Lost(true);
    }
    var sent := stream.TryWrite(ReplyHeader(0) + a.entry.value + a.tree.value, a.announced);
    phase := if sent then Sessions.Looping else Sessions.Lost(true);
  }

  lemma HandleKeys(handles: map<string, bool>, busid: string)
    ensures handles[busid := true].Keys == handles.Keys + {busid}
    ensures (handles[busid := true] - {busid}).Keys == handles.Keys + {busid} - {busid}
  {
  }

  /** The URB loop of a session that has been announced, and how it leaves the tables. */
  method Loop(stream: ByteStream, usb: UsbDeviceManager, exports: ExportTable, busid: string,
              a: Answers, turns: nat -> Turn)
    returns (phase: Sessions.Phase)
    requires busid in usb.handles
    modifies stream, usb, exports
    ensures var os := Offers(Commands(old(stream.unread)), true, turns);
            var broken := Serve(os, turns).broken;
            && phase == (if broken then Sessions.Lost(true)
                         else if a.releaseOk then Sessions.Finished else Sessions.Lost(false))
            && usb.handles == (if broken then old(usb.handles) else old(usb.handles) - {busid})
            && stream.written == old(stream.written) + ServerWrites(os, turns, a.last)
    ensures exports.owners == if phase.Finished? then old(exports.owners) - {busid} else old(exports.owners)
  {
    var ok := HandleUrbLoop(stream, usb, exports, busid, turns, a.last, a.releaseOk);
    phase := if ok then Sessions.Finished else Sessions.Lost(busid in usb.handles);
  }

  /** From the claim of the device to the end of the URB loop. */
  method ServeImport(stream: ByteStream, usb: UsbDeviceManager, exports: ExportTable, busid: string,
                     a: Answers, turns: nat -> Turn)
    returns (phase: Sessions.Phase)
    requires a.entry.Some?
    modifies stream, usb, exports
    ensures var os := Offers(Commands(old(stream.unread)), true, turns);
            && EndOfServing(old(exports.owners), old(usb.handles).Keys, busid, a, Serve(os, turns).broken) ==
               End(phase, exports.owners, usb.handles.Keys)
            && stream.written == old(stream.written) + ServingWrites(a, os, turns)
  {
    HandleKeys(usb.handles, busid);
    phase := Announce(stream, usb, busid, a);
    if phase.Looping? {
      ghost var os := Offers(Commands(stream.unread), true, turns);
      ghost var granted := ReplyHeader(0) + a.entry.value + a.tree.value;
      Associative(old(stream.written), granted, ServerWrites(os, turns, a.last));
      phase := Loop(stream, usb, exports, busid, a, turns);
    }
  }

  /** One client, from its import request to the end of its URB loop. */
  method HandleImport(stream: ByteStream, usb: UsbDeviceManager, exports: ExportTable, id: nat, busid: string,
                      a: Answers, turns: nat -> Turn)
    returns (phase: Sessions.Phase)
    modifies stream, usb, exports
    ensures var os := Offers(Commands(old(stream.unread)), true, turns);
            && EndOf(old(exports.owners), old(usb.handles).Keys, id, busid, a, Serve(os, turns).broken) ==
               End(phase, exports.owners, usb.handles.Keys)
            && stream.written == old(stream.written) + ImportWrites(old(exports.owners), busid, a, os, turns)
  {
    if a.entry.None? {
      var sent := stream.TryWrite(ReplyHeader(STATUS_ST_NODEV), a.refusal);
      return Sessions.Finished;
    }
    var reserved := exports.TryReserve(busid, id);
    if !reserved {
      var sent := stream.TryWrite(ReplyHeader(STATUS_ST_DEV_BUSY), a.refusal);
      return Sessions.Finished;
    }
    phase := ServeImport(stream, usb, exports, busid, a, turns);
  }
}
