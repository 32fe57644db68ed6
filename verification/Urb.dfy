/**
  The packed big-endian structs of the URB phase: the common 8-byte header and
  the CMD_SUBMIT, RET_SUBMIT and RET_UNLINK bodies. `read_from_prefix` fails only
  on a slice shorter than the struct, so each reader here requires that length
  and the callers check it where the source does.
 */
module Urb {
  import opened Bytes

  const USBIP_VERSION: U16 := 0x0111
  const CMD_SUBMIT: U16 := 0x0001
  const RET_UNLINK: U16 := 0x0002
  const RET_SUBMIT: U16 := 0x0003

  const HEADER_SIZE := 8
  const CMD_STRUCT_SIZE := 44  // what `read_from_prefix` needs
  const CMD_BODY_SIZE := 48    // what the wire carries: the struct and 4 bytes of padding
  const RET_BODY_SIZE := 44
  const UNLINK_BODY_SIZE := 12

  type Setup = s: seq<Byte> | |s| == 8 witness [0, 0, 0, 0, 0, 0, 0, 0]

  datatype Header = Header(version: U16, command: U16, status: I32)

  datatype CmdSubmit = CmdSubmit(
    seqnum: U32, devid: U32, direction: U32, ep: U32, transferFlags: U32, transferBufferLength: U32,
    startFrame: U32, numberOfPackets: U32, interval: U32, setup: Setup)
  {
    /** URB_DIR_IN is bit 9 (0x0200) of the transfer flags. */
    predicate IsIn() {
      transferFlags / 0x200 % 2 == 1
    }

    predicate IsControl() {
      setup != [0, 0, 0, 0, 0, 0, 0, 0]
    }

    /** The two direction markers of a command say the same thing. */
    predicate DirectionsAgree() {
      (direction != 0) == IsIn()
    }

    /** Bytes of OUT data that follow the body on the wire. */
    function OutLength(): (n: nat) {
      if IsIn() then 0 else transferBufferLength
    }
  }

  datatype RetSubmit = RetSubmit(
    seqnum: U32, devid: U32, direction: U32, ep: U32, status: U32, actualLength: U32,
    startFrame: U32, numberOfPackets: U32, errorCount: U32, setup: Setup)
  {
    predicate HasData() {
      status == 0 && direction != 0 && actualLength > 0
    }

    /** Bytes of IN data that follow the body on the wire. */
    function InLength(): (n: nat) {
      if HasData() then actualLength else 0
    }
  }

  datatype RetUnlink = RetUnlink(seqnum: U32, devid: U32, status: U32)

  function HeaderBytes(h: Header): (b: seq<Byte>)
    ensures |b| == HEADER_SIZE
  {
    Be16(h.version) + Be16(h.command) + Be32(AsU32(h.status))
  }

  function ReadHeader(s: seq<Byte>): (h: Header)
    requires |s| >= HEADER_SIZE
  {
    Header(Be16At(s, 0), Be16At(s, 2), AsI32(Be32At(s, 4)))
  }

  function CmdWords(c: CmdSubmit): (ws: seq<U32>) {
    [c.seqnum, c.devid, c.direction, c.ep, c.transferFlags, c.transferBufferLength,
     c.startFrame, c.numberOfPackets, c.interval]
  }

  function CmdBytes(c: CmdSubmit): (b: seq<Byte>)
    ensures |b| == CMD_STRUCT_SIZE
  {
    Words(CmdWords(c)) + c.setup
  }

  function ReadCmd(s: seq<Byte>): (c: CmdSubmit)
    requires |s| >= CMD_STRUCT_SIZE
  {
    CmdSubmit(Be32At(s, 0), Be32At(s, 4), Be32At(s, 8), Be32At(s, 12), Be32At(s, 16), Be32At(s, 20),
              Be32At(s, 24), Be32At(s, 28), Be32At(s, 32), s[36..44])
  }

  function RetWords(r: RetSubmit): (ws: seq<U32>) {
    [r.seqnum, r.devid, r.direction, r.ep, r.status, r.actualLength,
     r.startFrame, r.numberOfPackets, r.errorCount]
  }

  function RetBytes(r: RetSubmit): (b: seq<Byte>)
    ensures |b| == RET_BODY_SIZE
  {
    Words(RetWords(r)) + r.setup
  }

  function ReadRet(s: seq<Byte>): (r: RetSubmit)
    requires |s| >= RET_BODY_SIZE
  {
    RetSubmit(Be32At(s, 0), Be32At(s, 4), Be32At(s, 8), Be32At(s, 12), Be32At(s, 16), Be32At(s, 20),
              Be32At(s, 24), Be32At(s, 28), Be32At(s, 32), s[36..44])
  }

  function UnlinkBytes(u: RetUnlink): (b: seq<Byte>)
    ensures |b| == UNLINK_BODY_SIZE
  {
    Words([u.seqnum, u.devid, u.status])
  }

  function ReadUnlink(s: seq<Byte>): (u: RetUnlink)
    requires |s| >= UNLINK_BODY_SIZE
  {
    RetUnlink(Be32At(s, 0), Be32At(s, 4), Be32At(s, 8))
  }

  /** Nine consecutive fields, spelled out so that the two 44-byte structs share the work. */
  lemma NineWords(s: seq<Byte>, ws: seq<U32>)
    requires |ws| == 9 && |s| >= 36
    ensures s[..36] == Words(ws) <==>
            && Be32At(s, 0) == ws[0] && Be32At(s, 4) == ws[1] && Be32At(s, 8) == ws[2]
            && Be32At(s, 12) == ws[3] && Be32At(s, 16) == ws[4] && Be32At(s, 20) == ws[5]
            && Be32At(s, 24) == ws[6] && Be32At(s, 28) == ws[7] && Be32At(s, 32) == ws[8]
  {
    WordsRoundTrip(s, ws);
    assert 4 * 1 == 4 && 4 * 2 == 8 && 4 * 3 == 12 && 4 * 4 == 16;
    if s[..36] == Words(ws) {
      assert Be32At(s, 4 * 0) == ws[0] && Be32At(s, 4 * 1) == ws[1] && Be32At(s, 4 * 2) == ws[2];
      assert Be32At(s, 4 * 3) == ws[3] && Be32At(s, 4 * 4) == ws[4] && Be32At(s, 4 * 5) == ws[5];
      assert Be32At(s, 4 * 6) == ws[6] && Be32At(s, 4 * 7) == ws[7] && Be32At(s, 4 * 8) == ws[8];
    }
  }

  // Each struct is read back exactly: a prefix of `s` is the encoding of a value
  // if and only if the reader returns that value.

  lemma HeaderRoundTrip(s: seq<Byte>, h: Header)
    requires |s| >= HEADER_SIZE
    ensures s[..HEADER_SIZE] == HeaderBytes(h) <==> ReadHeader(s) == h
  {
    Be16RoundTrip(s, 0, h.version);
    Be16RoundTrip(s, 2, h.command);
    Be32RoundTrip(s, 4, AsU32(h.status));
    var p, b := s[..HEADER_SIZE], HeaderBytes(h);
    assert p == s[0..2] + s[2..4] + s[4..8];
    assert p[0..2] == s[0..2] && p[2..4] == s[2..4] && p[4..8] == s[4..8];
    assert b[0..2] == Be16(h.version) && b[2..4] == Be16(h.command) && b[4..8] == Be32(AsU32(h.status));
  }

  lemma CmdRoundTrip(s: seq<Byte>, c: CmdSubmit)
    requires |s| >= CMD_STRUCT_SIZE
    ensures s[..CMD_STRUCT_SIZE] == CmdBytes(c) <==> ReadCmd(s) == c
  {
    NineWords(s, CmdWords(c));
    var p, b := s[..CMD_STRUCT_SIZE], CmdBytes(c);
    assert p == s[..36] + s[36..44] && p[..36] == s[..36] && p[36..] == s[36..44];
    assert b[..36] == Words(CmdWords(c)) && b[36..] == c.setup;
  }

  lemma RetRoundTrip(s: seq<Byte>, r: RetSubmit)
    requires |s| >= RET_BODY_SIZE
    ensures s[..RET_BODY_SIZE] == RetBytes(r) <==> ReadRet(s) == r
  {
    NineWords(s, RetWords(r));
    var p, b := s[..RET_BODY_SIZE], RetBytes(r);
    assert p == s[..36] + s[36..44] && p[..36] == s[..36] && p[36..] == s[36..44];
    assert b[..36] == Words(RetWords(r)) && b[36..] == r.setup;
  }

  lemma UnlinkRoundTrip(s: seq<Byte>, u: RetUnlink)
    requires |s| >= UNLINK_BODY_SIZE
    ensures s[..UNLINK_BODY_SIZE] == UnlinkBytes(u) <==> ReadUnlink(s) == u
  {
    var ws := [u.seqnum, u.devid, u.status];
    WordsRoundTrip(s, ws);
    if s[..UNLINK_BODY_SIZE] == UnlinkBytes(u) {
      assert Be32At(s, 4 * 0) == ws[0] && Be32At(s, 4 * 1) == ws[1] && Be32At(s, 4 * 2) == ws[2];
    }
  }

  // Field offsets as sections 2 and 5 of PROTOCOL.md tabulate them.

  lemma HeaderLayout(h: Header)
    ensures var b := HeaderBytes(h);
            Be16At(b, 0x00) == h.version && Be16At(b, 0x02) == h.command && AsI32(Be32At(b, 0x04)) == h.status
  {
    assert HeaderBytes(h)[..HEADER_SIZE] == HeaderBytes(h);
    HeaderRoundTrip(HeaderBytes(h), h);
  }

  lemma CmdLayout(c: CmdSubmit)
    ensures var b := CmdBytes(c);
            && Be32At(b, 0x00) == c.seqnum && Be32At(b, 0x04) == c.devid && Be32At(b, 0x08) == c.direction
            && Be32At(b, 0x0C) == c.ep && Be32At(b, 0x10) == c.transferFlags
            && Be32At(b, 0x14) == c.transferBufferLength
            && Be32At(b, 0x18) == c.startFrame && Be32At(b, 0x1C) == c.numberOfPackets && Be32At(b, 0x20) == c.interval
            && b[0x24..0x2C] == c.setup
  {
    assert CmdBytes(c)[..CMD_STRUCT_SIZE] == CmdBytes(c);
    CmdRoundTrip(CmdBytes(c), c);
  }

  lemma RetLayout(r: RetSubmit)
    ensures var b := RetBytes(r);
            && Be32At(b, 0x00) == r.seqnum && Be32At(b, 0x04) == r.devid && Be32At(b, 0x08) == r.direction
            && Be32At(b, 0x0C) == r.ep && Be32At(b, 0x10) == r.status && Be32At(b, 0x14) == r.actualLength
            && Be32At(b, 0x18) == r.startFrame && Be32At(b, 0x1C) == r.numberOfPackets
            && Be32At(b, 0x20) == r.errorCount
            && b[0x24..0x2C] == r.setup
  {
    assert RetBytes(r)[..RET_BODY_SIZE] == RetBytes(r);
    RetRoundTrip(RetBytes(r), r);
  }

  lemma UnlinkLayout(u: RetUnlink)
    ensures var b := UnlinkBytes(u);
            Be32At(b, 0x00) == u.seqnum && Be32At(b, 0x04) == u.devid && Be32At(b, 0x08) == u.status
  {
    assert UnlinkBytes(u)[..UNLINK_BODY_SIZE] == UnlinkBytes(u);
    UnlinkRoundTrip(UnlinkBytes(u), u);
  }

  /** The direction flag is bit 1 of the third byte of the transfer flags, 18 bytes into the command. */
  lemma DirectionBit(s: seq<Byte>)
    requires |s| >= CMD_STRUCT_SIZE
    ensures ReadCmd(s).IsIn() <==> s[0x12] / 2 % 2 == 1
  {
    ByteOrders(s, 0x10);
    FlagBit(s[0x10], s[0x11], s[0x12], s[0x13]);
  }

  /** It is the only bit that counts. */
  lemma OnlyDirectionBit(c: CmdSubmit)
    ensures c.(transferFlags := 0x0000_0200).IsIn() && !c.(transferFlags := 0xFFFF_FDFF).IsIn()
  {
  }

  lemma FlagBit(b0: int, b1: int, b2: int, b3: int)
    requires 0 <= b3 < 0x100
    ensures (0x100_0000 * b0 + 0x1_0000 * b1 + 0x100 * b2 + b3) / 0x200 % 2 == b2 / 2 % 2
  {
    var high, q, r := 0x4000 * b0 + 0x40 * b1, b2 / 2, b2 % 2;
    assert b2 == 2 * q + r;
    Quotient(2 * high + q, 0x100 * r + b3);
    Parity(high, q);
    assert 0x100_0000 * b0 + 0x1_0000 * b1 + 0x100 * b2 + b3 == 0x200 * (2 * high + q) + (0x100 * r + b3);
  }

  lemma Quotient(q: int, r: int)
    requires 0 <= r < 0x200
    ensures (0x200 * q + r) / 0x200 == q
  {
  }

  lemma Parity(h: int, q: int)
    ensures (2 * h + q) % 2 == q % 2
  {
  }

  // The readers look at no byte beyond their struct.

  lemma ReadsPrefix(s: seq<Byte>, t: seq<Byte>)
    requires s <= t
    ensures |s| >= HEADER_SIZE ==> ReadHeader(t) == ReadHeader(s)
    ensures |s| >= CMD_STRUCT_SIZE ==> ReadCmd(t) == ReadCmd(s)
    ensures |s| >= RET_BODY_SIZE ==> ReadRet(t) == ReadRet(s)
    ensures |s| >= UNLINK_BODY_SIZE ==> ReadUnlink(t) == ReadUnlink(s)
  {
    if |s| >= CMD_STRUCT_SIZE {
      assert s[36..44] == t[36..44];
    }
  }
}
