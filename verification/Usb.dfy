/**
  Errors, the device manager and the replies it produces: the outcome of a URB
  is always mapped to a reply that can be serialised. The libusb calls are an
  input: each call either moves some bytes or fails with a code.
 */
module Usb {
  import opened Bytes
  import opened Urb
  import opened Wire

  // ---- Errors (shared/usbip-core/src/error.rs) ----

  datatype UsbErrorCode =
    | Io | InvalidParam | Access | NoDevice | NotFound | Busy | Timeout | Overflow
    | Pipe | Interrupted | NoMem | NotSupported | BadDescriptor | Other

  datatype ErrorKind =
    | IoError(retryable: bool)  // whether the I/O kind is one of the nine network kinds
    | UsbError(code: UsbErrorCode)
    | Protocol | InvalidMessage | ConnectionClosed | DeviceNotFound | DeviceBusy | UrbFailed
    | TimedOut | Unsupported | Encryption | Serialization

  datatype ErrorCategory = Transient | Permanent | Fatal

  function Category(e: ErrorKind): (c: ErrorCategory) {
    match e
    case TimedOut | ConnectionClosed => Transient
    case IoError(retryable) => if retryable then Transient else Permanent
    case UsbError(code) => if code in {Timeout, Busy} then Transient else Permanent
    case DeviceNotFound | DeviceBusy | Unsupported | Protocol | InvalidMessage => Permanent
    case UrbFailed | Encryption | Serialization => Fatal
  }

  function UsbErrorStatus(code: UsbErrorCode): (status: I32) {
    match code
    case Io => -5
    case InvalidParam => -22
    case Access => -1
    case NoDevice => -19
    case NotFound => -2
    case Busy => -16
    case Timeout => -62
    case Overflow => -75
    case Pipe => -32
    case Interrupted => -4
    case NoMem => -12
    case NotSupported => -95
    case BadDescriptor => -5
    case Other => -5
  }

  // ---- Transfers ----

  datatype UrbResult = UrbResult(status: I32, actualLength: U32, data: seq<Byte>)

  datatype Transfer = Done(result: UrbResult) | Failed(error: ErrorKind)

  /** What the hardware does with one request: some bytes move, or libusb reports a code. */
  datatype DeviceAnswer = Moved(bytes: seq<Byte>) | Fails(code: UsbErrorCode)

  /** The most bytes a command lets the device move. */
  function TransferCapacity(cmd: CmdSubmit, outData: seq<Byte>): (n: nat) {
    if !cmd.IsIn() then |outData|
    else if cmd.IsControl() then Le16At(cmd.setup, 6)
    else if cmd.transferBufferLength > 512 then cmd.transferBufferLength else 512
  }

  /** `LibusbBackend::execute_urb` on a claimed device. */
  function LibusbExecute(cmd: CmdSubmit, outData: seq<Byte>, answer: DeviceAnswer): (t: Transfer) {
    match answer
    case Fails(code) => Failed(UsbError(code))
    case Moved(bytes) =>
      var capacity := TransferCapacity(cmd, outData);
      var moved := if |bytes| > capacity then bytes[..capacity] else bytes;
      Done(UrbResult(0, |moved| % 0x1_0000_0000, if cmd.IsIn() then moved else []))
  }

  /** `submit_urb`: every outcome becomes a status, a length and data. */
  function ResultOf(t: Transfer): (r: UrbResult) {
    match t
    case Done(result) => result
    case Failed(e) =>
      var status: I32 := match e
                         case UsbError(code) => UsbErrorStatus(code)
                         case DeviceNotFound => -19
                         case TimedOut => -62
                         case _ => -5;
      UrbResult(status, 0, [])
  }

  class UsbDeviceManager {
    var handles: map<string, bool>

    constructor ()
      ensures handles == map[]
    {
      handles := map[];
    }

    /** `backendOk` is the answer of the backend's own claim. */
    method ClaimDevice(busid: string, backendOk: bool) returns (ok: bool)
      modifies this
      ensures ok == backendOk
      ensures handles == if ok then old(handles)[busid := true] else old(handles)
    {
      ok := backendOk;
      if ok {
        handles := handles[busid := true];
      }
    }

    /** The handle goes first, so it is gone even when the backend reports an error. */
    method ReleaseDevice(busid: string, backendOk: bool) returns (ok: bool)
      modifies this
      ensures ok == backendOk
      ensures handles == old(handles) - {busid}
    {
      handles := handles - {busid};
      ok := backendOk;
    }

    /** `submit_urb` over `execute_urb`; `backend` is what the backend would answer. */
    method SubmitUrb(busid: string, backend: Transfer) returns (r: UrbResult)
      ensures r == ResultOf(if busid in handles then backend else Failed(DeviceNotFound))
      ensures busid !in handles ==> r == UrbResult(-19, 0, [])
    {
      if busid !in handles {
        r := ResultOf(Failed(DeviceNotFound));
      } else {
        r := ResultOf(backend);
      }
    }
  }

  // ---- Replies (shared/usbip-core/src/reply.rs) ----

  datatype UrbReply = UrbReply(cmd: CmdSubmit, result: UrbResult)
  {
    function Ret(): (r: RetSubmit) {
      RetSubmit(cmd.seqnum, cmd.devid, cmd.direction, cmd.ep, AsU32(result.status), result.actualLength,
                cmd.startFrame, cmd.numberOfPackets, if result.status == 0 then 0 else 1, cmd.setup)
    }

    /** The payload is exactly what the reply's own fields announce. */
    predicate WellFormed() {
      |result.data| == Ret().InLength()
    }
  }

  const REPLY_HEADER := Header(USBIP_VERSION, RET_SUBMIT, 0)

  /** A reply on the wire: header, RET_SUBMIT body, and whatever data the backend returned. */
  function Serialize(r: UrbReply): (b: seq<Byte>)
    ensures |b| == HEADER_SIZE + RET_BODY_SIZE + |r.result.data|
  {
    HeaderBytes(REPLY_HEADER) + (RetBytes(r.Ret()) + r.result.data)
  }

  /** `serialize_reply_into`: append to the caller's buffer, return the number of bytes added. */
  method SerializeReplyInto(buf: ByteVec, r: UrbReply) returns (n: nat)
    modifies buf
    ensures buf.data == old(buf.data) + Serialize(r)
    ensures n == |Serialize(r)|
  {
    var start := |buf.data|;
    buf.Extend(HeaderBytes(REPLY_HEADER));
    buf.Extend(RetBytes(r.Ret()));
    buf.Extend(r.result.data);
    n := |buf.data| - start;
    assert buf.data == old(buf.data) + Serialize(r);
  }

  /** `serialize_reply`: the allocating variant. */
  method SerializeReply(r: UrbReply) returns (b: seq<Byte>)
    ensures b == Serialize(r)
  {
    var buf := new ByteVec();
    var n := SerializeReplyInto(buf, r);
    b := buf.data;
  }

  function AsMessage(r: UrbReply): (m: Message) {
    Message(REPLY_HEADER, Reply(r.Ret(), r.result.data))
  }

  /** A serialised reply is one frame exactly when it is well formed, and then it reads back field by field. */
  lemma ReplyFrameIff(r: UrbReply)
    ensures IsFrame(Serialize(r)) <==> r.WellFormed()
    ensures r.WellFormed() ==> Decode(Serialize(r)) == AsMessage(r)
    ensures MessageLength(Serialize(r)) == Some(HEADER_SIZE + RET_BODY_SIZE + r.Ret().InLength())
  {
    var rest := RetBytes(r.Ret()) + r.result.data;
    var f := Serialize(r);
    HeaderRoundTrip(f, REPLY_HEADER);
    assert f[HEADER_SIZE..] == rest && rest[..RET_BODY_SIZE] == RetBytes(r.Ret());
    RetRoundTrip(rest, r.Ret());
    var body := f[HEADER_SIZE..HEADER_SIZE + RET_BODY_SIZE];
    assert body <= rest;
    ReadsPrefix(body, rest);
    if r.WellFormed() {
      ReplyIsFrame(REPLY_HEADER, r.Ret(), r.result.data);
    }
  }

  /** The bytes of a reply, field by field, from the command and the result it answers. */
  lemma ReplyLayout(r: UrbReply)
    ensures var b := Serialize(r);
            && b[..8] == [0x01, 0x11, 0x00, 0x03, 0x00, 0x00, 0x00, 0x00]
            && Be32At(b, 8) == r.cmd.seqnum && Be32At(b, 12) == r.cmd.devid && Be32At(b, 16) == r.cmd.direction
            && Be32At(b, 20) == r.cmd.ep && AsI32(Be32At(b, 24)) == r.result.status
            && Be32At(b, 28) == r.result.actualLength && Be32At(b, 32) == r.cmd.startFrame
            && Be32At(b, 36) == r.cmd.numberOfPackets && Be32At(b, 40) == (if r.result.status == 0 then 0 else 1)
            && b[44..52] == r.cmd.setup && b[52..] == r.result.data
  {
    var b, body := Serialize(r), RetBytes(r.Ret());
    RetLayout(r.Ret());
    assert b[..8] == HeaderBytes(REPLY_HEADER);
    assert forall i :: 0 <= i < RET_BODY_SIZE ==> b[8 + i] == body[i];
    assert b[44..52] == body[36..44];
  }

  /** Every error becomes a non-zero status with no data, hence a well-formed reply for any command. */
  lemma FailuresAreWellFormed(cmd: CmdSubmit, e: ErrorKind)
    ensures ResultOf(Failed(e)).status < 0
    ensures UrbReply(cmd, ResultOf(Failed(e))).WellFormed()
  {
  }

  /** The errno that each error kind is answered with. */
  lemma StatusTable(code: UsbErrorCode, e: ErrorKind)
    ensures ResultOf(Failed(UsbError(code))).status ==
            if code == Access then -1 else if code == NotFound then -2 else if code == Interrupted then -4
            else if code == NoMem then -12 else if code == Busy then -16 else if code == NoDevice then -19
            else if code == InvalidParam then -22 else if code == Pipe then -32 else if code == Timeout then -62
            else if code == Overflow then -75 else if code == NotSupported then -95 else -5
    ensures !e.UsbError? ==>
              ResultOf(Failed(e)) ==
              UrbResult(if e == DeviceNotFound then -19 else if e == TimedOut then -62 else -5, 0, [])
  {
  }

  /** Which errors are worth a retry, and which are beyond repair. */
  lemma Categories(e: ErrorKind)
    ensures Category(e) == Transient <==>
            e in {TimedOut, ConnectionClosed, IoError(true), UsbError(Timeout), UsbError(Busy)}
    ensures Category(e) == Fatal <==> e in {UrbFailed, Encryption, Serialization}
  {
  }

  function Smaller(a: nat, b: nat): (n: nat) {
    if a < b then a else b
  }

  /**
    What libusb makes of a transfer that moves `bytes`: an IN transfer returns those that fit, into the
    length of the setup packet (its last two bytes, little-endian) or into the larger of 512 and the buffer
    length; an OUT transfer reports how many of its own bytes went out and returns none.
   */
  lemma TransferLimits(cmd: CmdSubmit, outData: seq<Byte>, bytes: seq<Byte>)
    requires |outData| <= 0xFFFF_FFFF
    ensures var r := ResultOf(LibusbExecute(cmd, outData, Moved(bytes)));
            var control := exists i :: 0 <= i < 8 && cmd.setup[i] != 0;
            var room := if !cmd.IsIn() then |outData|
                        else if control then cmd.setup[6] + 0x100 * cmd.setup[7]
                        else if cmd.transferBufferLength <= 512 then 512 else cmd.transferBufferLength;
            && r.status == 0 && r.actualLength == Smaller(|bytes|, room)
            && r.data == if cmd.IsIn() then bytes[..r.actualLength] else []
  {
    var zeros: seq<Byte> := [0, 0, 0, 0, 0, 0, 0, 0];
    if cmd.setup != zeros {
      assert exists i :: 0 <= i < 8 && cmd.setup[i] != zeros[i];
    }
    assert bytes[..|bytes|] == bytes;
  }

  /** One libusb outcome makes a well-formed reply unless the directions differ and bytes moved. */
  lemma LibusbReplyIff(cmd: CmdSubmit, outData: seq<Byte>, answer: DeviceAnswer)
    requires |outData| == cmd.OutLength()
    ensures UrbReply(cmd, ResultOf(LibusbExecute(cmd, outData, answer))).WellFormed() <==>
            cmd.DirectionsAgree() || ResultOf(LibusbExecute(cmd, outData, answer)).actualLength == 0
  {
    if answer.Fails? {
      FailuresAreWellFormed(cmd, UsbError(answer.code));
    }
  }

  /**
    A command whose replies are well formed whatever the device does: exactly one
    whose direction field agrees with its URB_DIR_IN flag, or one that leaves no
    room for a single byte.
   */
  lemma WellFormedForEveryAnswer(cmd: CmdSubmit, outData: seq<Byte>)
    requires |outData| == cmd.OutLength()
    ensures (forall answer :: UrbReply(cmd, ResultOf(LibusbExecute(cmd, outData, answer))).WellFormed()) <==>
            cmd.DirectionsAgree() || TransferCapacity(cmd, outData) == 0
  {
    forall answer
      ensures UrbReply(cmd, ResultOf(LibusbExecute(cmd, outData, answer))).WellFormed() <==>
              cmd.DirectionsAgree() || ResultOf(LibusbExecute(cmd, outData, answer)).actualLength == 0
    {
      LibusbReplyIff(cmd, outData, answer);
    }
    if TransferCapacity(cmd, outData) > 0 && !cmd.DirectionsAgree() {
      assert ResultOf(LibusbExecute(cmd, outData, Moved([0]))).actualLength == 1;
    }
  }
}
