/**
  Plain URB framing (shared/usbip-core/src/wire.rs). There is no length prefix:
  the command code fixes the size of the body, and the body's own fields say how
  many data bytes follow. A TCP connection is the finite sequence of bytes it will
  still deliver before end of stream.
 */
module Wire {
  import opened Bytes
  import opened Urb

  // ---- Streams ----

  /** How a write ends: everything is sent, or the connection breaks after some bytes. */
  datatype Write = Sent | Broke(after: nat)

  function Transmitted(msg: seq<Byte>, w: Write): (s: seq<Byte>)
    ensures s <= msg
  {
    if w.Broke? && w.after < |msg| then msg[..w.after] else msg
  }

  class ByteStream {
    var unread: seq<Byte>   // still to be delivered by the peer
    var written: seq<Byte>  // handed to the peer so far

    constructor (input: seq<Byte>)
      ensures unread == input && written == []
    {
      unread, written := input, [];
    }

    /** `read_exact`: all `n` bytes, or an error once the stream ends early. */
    method ReadExact(n: nat) returns (r: Option<seq<Byte>>)
      modifies this`unread
      ensures n <= |old(unread)| ==> r == Some(old(unread)[..n]) && unread == old(unread)[n..]
      ensures n > |old(unread)| ==> r == None && unread == []
    {
      if n <= |unread| {
        r, unread := Some(unread[..n]), unread[n..];
      } else {
        r, unread := None, [];
      }
    }

    /** `write_message`: write everything, then flush. */
    method WriteMessage(msg: seq<Byte>)
      modifies this`written
      ensures written == old(written) + msg
    {
      written := written + msg;
    }

    /** The same on a connection that may break. */
    method TryWrite(msg: seq<Byte>, w: Write) returns (ok: bool)
      modifies this`written
      ensures ok == w.Sent?
      ensures written == old(written) + Transmitted(msg, w)
    {
      written := written + Transmitted(msg, w);
      ok := w.Sent?;
    }
  }

  // ---- What one read consumes ----

  /** Size of the fixed body that follows the header of a command. */
  function BodySize(command: U16): (n: nat) {
    if command == CMD_SUBMIT then CMD_BODY_SIZE
    else if command == RET_SUBMIT then RET_BODY_SIZE
    else if command == RET_UNLINK then UNLINK_BODY_SIZE
    else 0
  }

  /** Number of data bytes a body announces. */
  function DataLength(command: U16, body: seq<Byte>): (n: nat)
    requires |body| == BodySize(command)
  {
    if command == CMD_SUBMIT then ReadCmd(body).OutLength()
    else if command == RET_SUBMIT then ReadRet(body).InLength()
    else 0
  }

  /** Length of the message at the front of `s`, once its body has arrived. */
  function MessageLength(s: seq<Byte>): (n: Option<nat>)
    ensures n.Some? ==> n.value >= HEADER_SIZE
  {
    if |s| < HEADER_SIZE then None else
    var command := ReadHeader(s).command;
    var bodyEnd := HEADER_SIZE + BodySize(command);
    if |s| < bodyEnd then None else Some(bodyEnd + DataLength(command, s[HEADER_SIZE..bodyEnd]))
  }

  /** A byte string that is one message, no more and no less. */
  predicate IsFrame(f: seq<Byte>) {
    MessageLength(f) == Some(|f|)
  }

  /** The frame one `read_message` returns from a stream holding `s`, if it is complete. */
  function NextFrame(s: seq<Byte>): (f: Option<seq<Byte>>)
    ensures f.Some? ==> HEADER_SIZE <= |f.value| <= |s| && f.value == s[..|f.value|]
  {
    var n := MessageLength(s);
    if n.Some? && n.value <= |s| then Some(s[..n.value]) else None
  }

  /** The tail of a message: `n` data bytes when there are any. */
  method ReadData(stream: ByteStream, buf: seq<Byte>, n: nat) returns (r: Option<seq<Byte>>)
    modifies stream`unread
    ensures n <= |old(stream.unread)| ==>
              r == Some(buf + old(stream.unread)[..n]) && stream.unread == old(stream.unread)[n..]
    ensures n > |old(stream.unread)| ==> r == None && stream.unread == []
  {
    r := Some(buf);
    assert buf + stream.unread[..0] == buf;
    if n > 0 {
      var data := stream.ReadExact(n);
      r := if data == None then None else Some(buf + data.value);
    }
  }

  /** The body of a command, and the number of data bytes it announces. */
  method ReadBody(stream: ByteStream, command: U16) returns (r: Option<seq<Byte>>, dataLength: nat)
    modifies stream`unread
    ensures var n := BodySize(command);
            if n <= |old(stream.unread)|
            then r == Some(old(stream.unread)[..n]) && stream.unread == old(stream.unread)[n..]
            else r == None && stream.unread == []
    ensures r.Some? ==> dataLength == DataLength(command, r.value)
  {
    r, dataLength := Some([]), 0;
    if command == CMD_SUBMIT {
      r := stream.ReadExact(CMD_BODY_SIZE);
      if r.Some? {
        var cmd := ReadCmd(r.value);
        if !cmd.IsIn() && cmd.transferBufferLength > 0 { dataLength := cmd.transferBufferLength; }
      }
    } else if command == RET_SUBMIT {
      r := stream.ReadExact(RET_BODY_SIZE);
      if r.Some? {
        var ret := ReadRet(r.value);
        if ret.HasData() { dataLength := ret.actualLength; }
      }
    } else if command == RET_UNLINK {
      r := stream.ReadExact(UNLINK_BODY_SIZE);
    }
  }

  /** `read_message`: reads header, body and data one after the other, growing `buf`. */
  method ReadMessage(stream: ByteStream) returns (r: Option<seq<Byte>>)
    modifies stream`unread
    ensures r == NextFrame(old(stream.unread))
    ensures r.Some? ==> stream.unread == old(stream.unread)[|r.value|..]
    ensures |stream.unread| <= |old(stream.unread)|
  {
    ghost var s := stream.unread;
    var head := stream.ReadExact(HEADER_SIZE);
    if head == None { return None; }
    var buf := head.value;
    ReadsPrefix(buf, s);
    var body, dataLength := ReadBody(stream, ReadHeader(buf).command);
    if body == None { return None; }
    BodyInView(s, body.value);
    JoinSlices(s, 0, HEADER_SIZE, HEADER_SIZE + |body.value|);
    r := ReadData(stream, buf + body.value, dataLength);
    DataInView(s, HEADER_SIZE + |body.value|, dataLength);
  }

  lemma BodyInView(s: seq<Byte>, body: seq<Byte>)
    requires |s| >= HEADER_SIZE && |body| == BodySize(ReadHeader(s).command)
    requires body <= s[HEADER_SIZE..]
    ensures s[..HEADER_SIZE] + body == s[..HEADER_SIZE + |body|]
    ensures MessageLength(s) == Some(HEADER_SIZE + |body| + DataLength(ReadHeader(s).command, body))
  {
    assert body == s[HEADER_SIZE..HEADER_SIZE + |body|];
  }

  /** The message once header and body have been read: the next `n` bytes, if they arrive. */
  lemma DataInView(s: seq<Byte>, bodyEnd: nat, n: nat)
    requires bodyEnd <= |s| && MessageLength(s) == Some(bodyEnd + n)
    ensures NextFrame(s) == if n <= |s[bodyEnd..]| then Some(s[..bodyEnd] + s[bodyEnd..][..n]) else None
    ensures n <= |s[bodyEnd..]| ==> s[bodyEnd..][n..] == s[bodyEnd + n..]
  {
    if n <= |s[bodyEnd..]| {
      JoinSlices(s, 0, bodyEnd, bodyEnd + n);
    }
  }

  // ---- Frame lengths in bytes ----

  /**
    The length of a message, from its bytes alone. A command 1 takes 56 bytes, and as many more as the word
    at 0x14 of its body says unless the direction flag is set. A command 3 takes 52, and as many more as the
    word at 0x14 says when its status word is zero and its direction word is not. A command 2 takes 20, and
    any other is a bare header.
   */
  lemma FrameLengths(s: seq<Byte>)
    ensures MessageLength(s) ==
            if |s| < 8 then None
            else if s[2] == 0 && s[3] == 1 then
              if |s| < 56 then None else Some(56 + if s[26] / 2 % 2 == 1 then 0 else Be32At(s, 28))
            else if s[2] == 0 && s[3] == 3 then
              if |s| < 52 then None
              else Some(52 + if Be32At(s, 24) == 0 && Be32At(s, 16) != 0 then Be32At(s, 28) else 0)
            else if s[2] == 0 && s[3] == 2 then
              if |s| < 20 then None else Some(20)
            else Some(8)
  {
    if |s| >= 8 {
      ByteOrders(s, 2);
      if |s| >= 56 && s[2] == 0 && s[3] == 1 {
        SubmitLength(s);
      } else if |s| >= 52 && s[2] == 0 && s[3] == 3 {
        ReplyLength(s);
      }
    }
  }

  lemma SubmitLength(s: seq<Byte>)
    requires |s| >= 56
    ensures DataLength(CMD_SUBMIT, s[8..56]) == if s[26] / 2 % 2 == 1 then 0 else Be32At(s, 28)
  {
    DirectionBit(s[8..56]);
  }

  lemma ReplyLength(s: seq<Byte>)
    requires |s| >= 52
    ensures DataLength(RET_SUBMIT, s[8..52]) == if Be32At(s, 24) == 0 && Be32At(s, 16) != 0 then Be32At(s, 28) else 0
  {
  }

  // ---- Messages ----

  /** What a frame says. The 4 padding bytes of a CMD_SUBMIT are kept, not interpreted. */
  datatype Body =
    | Submit(cmd: CmdSubmit, padding: seq<Byte>, outData: seq<Byte>)
    | Reply(ret: RetSubmit, inData: seq<Byte>)
    | Unlink(unlink: RetUnlink)
    | Unknown

  datatype Message = Message(header: Header, body: Body)
  {
    /** The command code names the body, and the data has the announced length. */
    predicate WellFormed() {
      match body
      case Submit(cmd, padding, data) =>
        header.command == CMD_SUBMIT && |padding| == CMD_BODY_SIZE - CMD_STRUCT_SIZE && |data| == cmd.OutLength()
      case Reply(ret, data) => header.command == RET_SUBMIT && |data| == ret.InLength()
      case Unlink(_) => header.command == RET_UNLINK
      case Unknown => header.command !in {CMD_SUBMIT, RET_SUBMIT, RET_UNLINK}
    }
  }

  function Encode(m: Message): (f: seq<Byte>)
    ensures |f| >= HEADER_SIZE
  {
    HeaderBytes(m.header) +
    match m.body
    case Submit(cmd, padding, data) => CmdBytes(cmd) + padding + data
    case Reply(ret, data) => RetBytes(ret) + data
    case Unlink(unlink) => UnlinkBytes(unlink)
    case Unknown => []
  }

  /** The reading of a whole frame. */
  function Decode(f: seq<Byte>): (m: Message)
    requires IsFrame(f)
  {
    var header := ReadHeader(f);
    var rest := f[HEADER_SIZE..];
    if header.command == CMD_SUBMIT then
      Message(header, Submit(ReadCmd(rest), rest[CMD_STRUCT_SIZE..CMD_BODY_SIZE], rest[CMD_BODY_SIZE..]))
    else if header.command == RET_SUBMIT then
      Message(header, Reply(ReadRet(rest), rest[RET_BODY_SIZE..]))
    else if header.command == RET_UNLINK then
      Message(header, Unlink(ReadUnlink(rest)))
    else
      Message(header, Unknown)
  }

  // ---- Framing is self-delimiting ----

  /** Bytes that arrive later never change the length of a message already in view. */
  lemma LengthIsStable(s: seq<Byte>, t: seq<Byte>)
    requires s <= t
    ensures MessageLength(s).Some? ==> MessageLength(t) == MessageLength(s)
  {
    if MessageLength(s).Some? {
      assert ReadHeader(s) == ReadHeader(t);
      var bodyEnd := HEADER_SIZE + BodySize(ReadHeader(s).command);
      assert s[HEADER_SIZE..bodyEnd] == t[HEADER_SIZE..bodyEnd];
    }
  }

  /** A frame that has been cut out of a stream reads as itself, whatever follows it. */
  lemma FrameAlone(f: seq<Byte>, rest: seq<Byte>)
    requires IsFrame(f)
    ensures NextFrame(f + rest) == Some(f)
  {
    LengthIsStable(f, f + rest);
  }

  lemma CutFrame(s: seq<Byte>)
    requires NextFrame(s).Some?
    ensures IsFrame(NextFrame(s).value)
  {
    var f := NextFrame(s).value;
    var bodyEnd := HEADER_SIZE + BodySize(ReadHeader(s).command);
    assert ReadHeader(f) == ReadHeader(s);
    assert bodyEnd <= |f| && f == s[..|f|];
    assert f[HEADER_SIZE..bodyEnd] == s[HEADER_SIZE..bodyEnd];
  }

  lemma SubmitIsFrame(h: Header, cmd: CmdSubmit, padding: seq<Byte>, data: seq<Byte>)
    requires Message(h, Submit(cmd, padding, data)).WellFormed()
    ensures var f := HeaderBytes(h) + (CmdBytes(cmd) + padding + data);
            IsFrame(f) && Decode(f) == Message(h, Submit(cmd, padding, data))
  {
    var rest := CmdBytes(cmd) + padding + data;
    var f := HeaderBytes(h) + rest;
    HeaderRoundTrip(f, h);
    assert f[HEADER_SIZE..] == rest && rest[..CMD_STRUCT_SIZE] == CmdBytes(cmd);
    CmdRoundTrip(rest, cmd);
    var body := f[HEADER_SIZE..HEADER_SIZE + CMD_BODY_SIZE];
    assert body <= rest;
    ReadsPrefix(body, rest);
    assert rest[CMD_STRUCT_SIZE..CMD_BODY_SIZE] == padding && rest[CMD_BODY_SIZE..] == data;
  }

  lemma ReplyIsFrame(h: Header, ret: RetSubmit, data: seq<Byte>)
    requires Message(h, Reply(ret, data)).WellFormed()
    ensures var f := HeaderBytes(h) + (RetBytes(ret) + data);
            IsFrame(f) && Decode(f) == Message(h, Reply(ret, data))
  {
    var rest := RetBytes(ret) + data;
    var f := HeaderBytes(h) + rest;
    HeaderRoundTrip(f, h);
    assert f[HEADER_SIZE..] == rest && rest[..RET_BODY_SIZE] == RetBytes(ret);
    RetRoundTrip(rest, ret);
    var body := f[HEADER_SIZE..HEADER_SIZE + RET_BODY_SIZE];
    assert body <= rest;
    ReadsPrefix(body, rest);
    assert rest[RET_BODY_SIZE..] == data;
  }

  /** The encoding of a well-formed message is one frame, and decodes to that message. */
  lemma EncodeIsFrame(m: Message)
    requires m.WellFormed()
    ensures IsFrame(Encode(m))
    ensures Decode(Encode(m)) == m
  {
    match m.body
    case Submit(cmd, padding, data) => SubmitIsFrame(m.header, cmd, padding, data);
    case Reply(ret, data) => ReplyIsFrame(m.header, ret, data);
    case Unlink(unlink) =>
      var f := Encode(m);
      HeaderRoundTrip(f, m.header);
      assert f[HEADER_SIZE..] == UnlinkBytes(unlink);
      UnlinkRoundTrip(f[HEADER_SIZE..], unlink);
    case Unknown =>
      HeaderRoundTrip(Encode(m), m.header);
  }

  lemma SubmitFrame(f: seq<Byte>)
    requires IsFrame(f) && ReadHeader(f).command == CMD_SUBMIT
    ensures var rest := f[HEADER_SIZE..];
            && |rest| == CMD_BODY_SIZE + ReadCmd(rest).OutLength()
            && rest == CmdBytes(ReadCmd(rest)) + rest[CMD_STRUCT_SIZE..CMD_BODY_SIZE] + rest[CMD_BODY_SIZE..]
  {
    var rest := f[HEADER_SIZE..];
    var body := f[HEADER_SIZE..HEADER_SIZE + CMD_BODY_SIZE];
    assert body <= rest;
    ReadsPrefix(body, rest);
    CmdRoundTrip(rest, ReadCmd(rest));
    assert rest == rest[..CMD_STRUCT_SIZE] + rest[CMD_STRUCT_SIZE..CMD_BODY_SIZE] + rest[CMD_BODY_SIZE..];
  }

  lemma ReplyFrame(f: seq<Byte>)
    requires IsFrame(f) && ReadHeader(f).command == RET_SUBMIT
    ensures var rest := f[HEADER_SIZE..];
            && |rest| == RET_BODY_SIZE + ReadRet(rest).InLength()
            && rest == RetBytes(ReadRet(rest)) + rest[RET_BODY_SIZE..]
  {
    var rest := f[HEADER_SIZE..];
    var body := f[HEADER_SIZE..HEADER_SIZE + RET_BODY_SIZE];
    assert body <= rest;
    ReadsPrefix(body, rest);
    RetRoundTrip(rest, ReadRet(rest));
    assert rest == rest[..RET_BODY_SIZE] + rest[RET_BODY_SIZE..];
  }

  /** Every frame the reader accepts is the encoding of exactly the message it decodes to. */
  lemma FrameIsMessage(f: seq<Byte>)
    requires IsFrame(f)
    ensures Decode(f).WellFormed()
    ensures Encode(Decode(f)) == f
  {
    var m := Decode(f);
    var rest := f[HEADER_SIZE..];
    HeaderRoundTrip(f, m.header);
    assert f == f[..HEADER_SIZE] + rest;
    match m.body
    case Submit(_, _, _) => SubmitFrame(f);
    case Reply(_, _) => ReplyFrame(f);
    case Unlink(unlink) =>
      assert |rest| == UNLINK_BODY_SIZE;
      UnlinkRoundTrip(rest, unlink);
      assert rest == rest[..UNLINK_BODY_SIZE];
    case Unknown =>
  }

  lemma ReadsEncoded(m: Message, s: seq<Byte>)
    requires m.WellFormed() && Encode(m) <= s
    ensures NextFrame(s) == Some(Encode(m))
  {
    EncodeIsFrame(m);
    FrameAlone(Encode(m), s[|Encode(m)|..]);
    assert s == Encode(m) + s[|Encode(m)|..];
  }

  /** A read succeeds exactly when the stream starts with a well-formed message. */
  lemma ReadsExactlyMessages(s: seq<Byte>)
    ensures NextFrame(s).Some? <==> exists m: Message :: m.WellFormed() && Encode(m) <= s
    ensures forall m: Message :: m.WellFormed() && Encode(m) <= s ==> NextFrame(s) == Some(Encode(m))
  {
    if NextFrame(s).Some? {
      CutFrame(s);
      FrameIsMessage(NextFrame(s).value);
      assert Decode(NextFrame(s).value).WellFormed() && Encode(Decode(NextFrame(s).value)) <= s;
    }
    forall m: Message | m.WellFormed() && Encode(m) <= s ensures NextFrame(s) == Some(Encode(m)) {
      ReadsEncoded(m, s);
    }
  }

  /** Prefix-freedom: two messages that can start the same stream are the same message. */
  lemma PrefixFree(a: Message, b: Message, s: seq<Byte>)
    requires a.WellFormed() && b.WellFormed()
    requires Encode(a) <= s && Encode(b) <= s
    ensures a == b
  {
    ReadsExactlyMessages(s);
    EncodeIsFrame(a);
    EncodeIsFrame(b);
  }

  /** No proper prefix of a message can be mistaken for a message. */
  lemma NoProperPrefixReads(m: Message, k: nat)
    requires m.WellFormed() && k < |Encode(m)|
    ensures NextFrame(Encode(m)[..k]) == None
  {
    var f := Encode(m);
    EncodeIsFrame(m);
    LengthIsStable(f[..k], f);
  }

  // ---- Streams of messages ----

  predicate AllFrames(fs: seq<seq<Byte>>) {
    forall i :: 0 <= i < |fs| ==> IsFrame(fs[i])
  }

  /** All frames of a stream, and the bytes left when no further frame is complete. */
  function ReadAll(s: seq<Byte>): (r: (seq<seq<Byte>>, seq<Byte>))
    ensures AllFrames(r.0)
    decreases |s|
  {
    match NextFrame(s)
    case None => ([], s)
    case Some(f) =>
      CutFrame(s);
      var (frames, rest) := ReadAll(s[|f|..]);
      ([f] + frames, rest)
  }

  /** Nothing is lost or invented: the frames and the leftover are the stream. */
  lemma {:induction false} ReadAllPartitions(s: seq<Byte>)
    ensures Concat(ReadAll(s).0) + ReadAll(s).1 == s
    ensures NextFrame(ReadAll(s).1) == None
    decreases |s|
  {
    if NextFrame(s).Some? {
      var f := NextFrame(s).value;
      var (frames, rest) := ReadAll(s[|f|..]);
      ReadAllPartitions(s[|f|..]);
      assert ([f] + frames)[0] == f && ([f] + frames)[1..] == frames;
      Associative(f, Concat(frames), rest);
      assert s == f + s[|f|..];
    }
  }

  /** Reading back any concatenation of frames returns those frames and stops at the end. */
  lemma {:induction false} FramesReadBack(fs: seq<seq<Byte>>)
    requires AllFrames(fs)
    ensures ReadAll(Concat(fs)) == (fs, [])
  {
    if fs != [] {
      assert IsFrame(fs[0]);
      var rest := Concat(fs[1..]);
      FrameAlone(fs[0], rest);
      FramesReadBack(fs[1..]);
      assert (fs[0] + rest)[|fs[0]|..] == rest;
      assert [fs[0]] + fs[1..] == fs;
    }
  }

  function EncodeEach(ms: seq<Message>): (fs: seq<seq<Byte>>)
    ensures |fs| == |ms|
  {
    seq(|ms|, i requires 0 <= i < |ms| => Encode(ms[i]))
  }

  lemma EncodedCons(ms: seq<Message>)
    requires ms != []
    ensures Concat(EncodeEach(ms)) == Encode(ms[0]) + Concat(EncodeEach(ms[1..]))
  {
    assert EncodeEach(ms)[1..] == EncodeEach(ms[1..]);
  }

  /** The list form of the framing law, for messages rather than frames. */
  lemma MessagesReadBack(ms: seq<Message>)
    requires forall i :: 0 <= i < |ms| ==> ms[i].WellFormed()
    ensures ReadAll(Concat(EncodeEach(ms))) == (EncodeEach(ms), [])
    ensures AllFrames(EncodeEach(ms))
    ensures forall i :: 0 <= i < |ms| ==> Decode(EncodeEach(ms)[i]) == ms[i]
  {
    forall i | 0 <= i < |ms| ensures IsFrame(Encode(ms[i])) && Decode(Encode(ms[i])) == ms[i] {
      EncodeIsFrame(ms[i]);
    }
    FramesReadBack(EncodeEach(ms));
  }
}
