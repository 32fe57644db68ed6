/**
  The encrypted tunnel (crypto_stream.rs:131-163 over crypto.rs:130-265): messages are sealed with a
  12-byte nonce and framed with a 4-byte length. The cipher is an abstract pair of functions with the
  laws of an AEAD; nonces are inputs.
 */
module Tunnel {
  import opened Bytes
  import opened Wire

  const MAX_MESSAGE_SIZE := 1_048_576
  const ENCRYPTED_MAX := MAX_MESSAGE_SIZE + 20 + 4
  const TAG_SIZE := 16
  const ENVELOPE := 16  // nonce length field and nonce, in front of the ciphertext

  type Key = seq<Byte>
  type Nonce = n: seq<Byte> | |n| == 12 witness [0, 0, 0, 0, 0, 0, 0, 0, 0, 0, 0, 0]

  datatype Aead = Aead(
    seal: (Key, Nonce, seq<Byte>) -> seq<Byte>,
    open: (Key, Nonce, seq<Byte>) -> Option<seq<Byte>>)

  /** Opening inverts sealing, and a tag adds exactly 16 bytes. */
  ghost predicate Lawful(a: Aead) {
    && (forall k: Key, n: Nonce, p: seq<Byte> ::
          |a.seal(k, n, p)| == |p| + 16 && a.open(k, n, a.seal(k, n, p)) == Some(p))
    && (forall k: Key, n: Nonce, c: seq<Byte> ::
          a.open(k, n, c).Some? ==> |c| >= 16 && |a.open(k, n, c).value| == |c| - 16)
  }

  /** The laws can be met: a cipher that only appends a zero tag and checks it. */
  lemma LawsAreSatisfiable()
    ensures exists a :: Lawful(a)
  {
    var tag: seq<Byte> := [0, 0, 0, 0, 0, 0, 0, 0, 0, 0, 0, 0, 0, 0, 0, 0];
    var a := Aead((k: Key, n: Nonce, p: seq<Byte>) => p + tag,
                  (k: Key, n: Nonce, c: seq<Byte>) =>
                    if |c| >= 16 && c[|c| - 16..] == tag then Some(c[..|c| - 16]) else None);
    forall k: Key, n: Nonce, p: seq<Byte>
      ensures |a.seal(k, n, p)| == |p| + 16 && a.open(k, n, a.seal(k, n, p)) == Some(p)
    {
      assert (p + tag)[|p|..] == tag && (p + tag)[..|p|] == p;
    }
    assert Lawful(a);
  }

  // ---- Envelopes ----

  datatype Opened = Plain(bytes: seq<Byte>) | Decryption | InvalidNonce

  /** `encrypt_with_nonce`. */
  function Encrypt(a: Aead, k: Key, plaintext: seq<Byte>, nonce: Nonce): (w: seq<Byte>) {
    Be32(12) + nonce + a.seal(k, nonce, plaintext)
  }

  /** `decrypt`. */
  function Decrypt(a: Aead, k: Key, w: seq<Byte>): (r: Opened) {
    if |w| < ENVELOPE + TAG_SIZE then Decryption
    else if Be32At(w, 0) != 12 then InvalidNonce
    else
      match a.open(k, w[4..16], w[16..])
      case None => Decryption
      case Some(p) => Plain(p)
  }

  lemma DecryptInvertsEncrypt(a: Aead, k: Key, p: seq<Byte>, nonce: Nonce)
    requires Lawful(a)
    ensures |Encrypt(a, k, p, nonce)| == |p| + 32
    ensures Decrypt(a, k, Encrypt(a, k, p, nonce)) == Plain(p)
  {
    var w := Encrypt(a, k, p, nonce);
    assert w[0..4] == Be32(12) && w[4..16] == nonce && w[16..] == a.seal(k, nonce, p);
    Be32RoundTrip(w, 0, 12);
  }

  /**
    `open_in_place` on the tail of a buffer: on success the plaintext replaces the front of the
    ciphertext and 16 zero bytes follow; on failure the tail holds unspecified bytes.
   */
  method OpenInPlace(a: Aead, k: Key, nonce: Nonce, buf: ByteVec, scratch: seq<Byte>) returns (length: Option<nat>)
    requires Lawful(a) && |buf.data| >= ENVELOPE + TAG_SIZE && |scratch| == |buf.data| - ENVELOPE
    modifies buf
    ensures |buf.data| == |old(buf.data)| && buf.data[..ENVELOPE] == old(buf.data)[..ENVELOPE]
    ensures var p := a.open(k, nonce, old(buf.data)[ENVELOPE..]);
            if p.None? then length == None
            else length == Some(|p.value|) && ENVELOPE + |p.value| <= |buf.data|
                 && buf.data[ENVELOPE..ENVELOPE + |p.value|] == p.value
  {
    var p := a.open(k, nonce, buf.data[ENVELOPE..]);
    if p.None? {
      buf.data := buf.data[..ENVELOPE] + scratch;
      length := None;
    } else {
      buf.data := buf.data[..ENVELOPE] + p.value + [0, 0, 0, 0, 0, 0, 0, 0, 0, 0, 0, 0, 0, 0, 0, 0];
      length := Some(|p.value|);
    }
  }

  /** `decrypt_in_place`: same answer as `decrypt` on every input, leaving exactly the plaintext after the envelope. */
  method DecryptInPlace(a: Aead, k: Key, buf: ByteVec, scratch: seq<Byte>) returns (r: Opened)
    requires Lawful(a)
    requires |buf.data| >= ENVELOPE ==> |scratch| == |buf.data| - ENVELOPE
    modifies buf
    ensures r == Decrypt(a, k, old(buf.data))
    ensures r.Plain? ==> buf.data == old(buf.data)[..ENVELOPE] + r.bytes
    ensures !r.Plain? ==> |buf.data| == |old(buf.data)|
  {
    if |buf.data| < ENVELOPE + TAG_SIZE {
      return Decryption;
    }
    if Be32At(buf.data, 0) != 12 {
      return InvalidNonce;
    }
    var length := OpenInPlace(a, k, buf.data[4..16], buf, scratch);
    if length.None? {
      return Decryption;
    }
    buf.data := buf.data[..ENVELOPE + length.value];
    r := Plain(buf.data[ENVELOPE..]);
    assert buf.data == old(buf.data)[..ENVELOPE] + r.bytes;
  }

  // ---- Frames ----

  /** `write_message`; the length is cast to 32 bits. */
  function Frame(a: Aead, k: Key, p: seq<Byte>, nonce: Nonce): (f: seq<Byte>) {
    var w := Encrypt(a, k, p, nonce);
    Be32(|w| % 0x1_0000_0000) + w
  }

  datatype Received = Received(bytes: seq<Byte>, rest: seq<Byte>) | EndOfStream | BadLength | BadEnvelope

  /** `read_message`. */
  function Receive(a: Aead, k: Key, s: seq<Byte>): (r: Received) {
    if |s| < 4 then EndOfStream else
    var n := Be32At(s, 0);
    if n == 0 || n > ENCRYPTED_MAX then BadLength
    else if |s| < 4 + n then EndOfStream
    else
      match Decrypt(a, k, s[4..4 + n])
      case Plain(p) => Received(p, s[4 + n..])
      case _ => BadEnvelope
  }

  class CryptoStream {
    const stream: ByteStream
    const aead: Aead
    const key: Key

    constructor (stream: ByteStream, aead: Aead, key: Key)
      ensures this.stream == stream && this.aead == aead && this.key == key
    {
      this.stream, this.aead, this.key := stream, aead, key;
    }

    method WriteMessage(plaintext: seq<Byte>, nonce: Nonce)
      modifies stream`written
      ensures stream.written == old(stream.written) + Frame(aead, key, plaintext, nonce)
    {
      var w := Encrypt(aead, key, plaintext, nonce);
      stream.WriteMessage(Be32(|w| % 0x1_0000_0000) + w);
    }

    method ReadMessage(scratch: nat -> seq<Byte>) returns (r: Received)
      requires Lawful(aead) && forall n: nat :: |scratch(n)| == n
      modifies stream`unread
      ensures var e := Receive(aead, key, old(stream.unread));
              r == e && (e.Received? ==> stream.unread == e.rest)
    {
      ghost var s := stream.unread;
      var head := stream.ReadExact(4);
      if head.None? { return EndOfStream; }
      Be32RoundTrip(s, 0, Be32At(head.value, 0));
      Be32RoundTrip(head.value, 0, Be32At(head.value, 0));
      var n := Be32At(head.value, 0);
      assert n == Be32At(s, 0);
      if n == 0 || n > ENCRYPTED_MAX { return BadLength; }
      var body := stream.ReadExact(n);
      if body.None? { return EndOfStream; }
      assert body.value == s[4..4 + n];
      var buf := new ByteVec();
      buf.Extend(body.value);
      assert buf.data == body.value;
      var result := DecryptInPlace(aead, key, buf, scratch(if n >= ENVELOPE then n - ENVELOPE else 0));
      r := if result.Plain? then Received(result.bytes, stream.unread) else BadEnvelope;
    }
  }

  /** What `read_message` makes of any bytes, byte by byte. */
  lemma ReceiveFromBytes(a: Aead, k: Key, s: seq<Byte>)
    ensures |s| < 4 ==> Receive(a, k, s) == EndOfStream
    ensures |s| >= 4 ==>
              var b0: int, b1: int, b2: int, b3: int := s[0], s[1], s[2], s[3];
              var n := 0x100_0000 * b0 + 0x1_0000 * b1 + 0x100 * b2 + b3;
              Receive(a, k, s) ==
              if n == 0 || n > 1_048_600 then BadLength
              else if |s| < 4 + n then EndOfStream
              else if n < 32 || s[4..8] != [0, 0, 0, 12] || a.open(k, s[8..20], s[20..4 + n]).None? then BadEnvelope
              else Received(a.open(k, s[8..20], s[20..4 + n]).value, s[4 + n..])
  {
    if |s| >= 4 {
      ByteOrders(s, 0);
      var n := Be32At(s, 0);
      if 32 <= n <= |s| - 4 {
        EnvelopeAt(s, n);
      }
    }
  }

  /** The parts of an envelope that stands behind a length. */
  lemma EnvelopeAt(s: seq<Byte>, n: nat)
    requires 32 <= n && 4 + n <= |s|
    ensures var w := s[4..4 + n];
            && (Be32At(w, 0) == 12 <==> s[4..8] == [0, 0, 0, 12])
            && w[4..16] == s[8..20] && w[16..] == s[20..4 + n]
  {
    var w := s[4..4 + n];
    SliceOfSlice(s, 4, 4 + n, 0, 4);
    SliceOfSlice(s, 4, 4 + n, 4, 16);
    SliceOfSlice(s, 4, 4 + n, 16, n);
    Be32RoundTrip(w, 0, 12);
    assert Be32(12) == [0, 0, 0, 12];
  }

  /** The bytes of a frame: the length, the nonce length, the nonce and the sealed message. */
  lemma FrameLayout(a: Aead, k: Key, p: seq<Byte>, nonce: Nonce)
    requires Lawful(a) && |p| < 0x1_0000_0000 - 32
    ensures var f := Frame(a, k, p, nonce);
            && |f| == |p| + 36 && f[4..8] == [0, 0, 0, 12] && f[8..20] == nonce && f[20..] == a.seal(k, nonce, p)
            && var b0: int, b1: int, b2: int, b3: int := f[0], f[1], f[2], f[3];
               0x100_0000 * b0 + 0x1_0000 * b1 + 0x100 * b2 + b3 == |p| + 32
  {
    FrameParts(a, k, p, nonce, []);
    var w, f := Encrypt(a, k, p, nonce), Frame(a, k, p, nonce);
    assert f + [] == f && |w| % 0x1_0000_0000 == |w|;
    ByteOrders(f, 0);
    assert Be32(12) == [0, 0, 0, 12];
    assert w[..4] == Be32(12) && w[4..16] == nonce && w[16..] == a.seal(k, nonce, p);
    assert f[4..8] == w[..4] && f[8..20] == w[4..16] && f[20..] == w[16..];
  }

  lemma FrameParts(a: Aead, k: Key, p: seq<Byte>, nonce: Nonce, rest: seq<Byte>)
    requires Lawful(a)
    ensures var w, s := Encrypt(a, k, p, nonce), Frame(a, k, p, nonce) + rest;
            && |w| == |p| + 32
            && |s| >= 4 + |w|
            && Be32At(s, 0) == |w| % 0x1_0000_0000
            && s[4..4 + |w|] == w && s[4 + |w|..] == rest
  {
    var w := Encrypt(a, k, p, nonce);
    DecryptInvertsEncrypt(a, k, p, nonce);
    var s := Frame(a, k, p, nonce) + rest;
    assert s[0..4] == Be32(|w| % 0x1_0000_0000);
    Be32RoundTrip(s, 0, |w| % 0x1_0000_0000);
  }

  /**
    A message is read back exactly, with the rest of the stream untouched, if and only if it is at
    most 1,048,568 bytes, eight less than MAX_MESSAGE_SIZE. A longer one is refused for its length,
    unless it is so long that the 32-bit length wraps, and then what is read is never the message.
   */
  lemma FrameReadsBackIff(a: Aead, k: Key, p: seq<Byte>, nonce: Nonce, rest: seq<Byte>)
    requires Lawful(a)
    ensures Receive(a, k, Frame(a, k, p, nonce) + rest) == Received(p, rest) <==> |p| <= 1_048_568
    ensures 1_048_568 < |p| < 0x1_0000_0000 - 32 ==>
              Receive(a, k, Frame(a, k, p, nonce) + rest) == BadLength
  {
    FrameParts(a, k, p, nonce, rest);
    DecryptInvertsEncrypt(a, k, p, nonce);
    var w, s := Encrypt(a, k, p, nonce), Frame(a, k, p, nonce) + rest;
    if |w| < 0x1_0000_0000 {
      assert |w| % 0x1_0000_0000 == |w|;
    }
  }

  function Frames(a: Aead, k: Key, ps: seq<seq<Byte>>, nonces: nat -> Nonce): (s: seq<Byte>)
    decreases |ps|
  {
    if ps == [] then [] else Frame(a, k, ps[0], nonces(|ps|)) + Frames(a, k, ps[1..], nonces)
  }

  /** All messages up to the first failed read, and what is left then. */
  function ReceiveAll(a: Aead, k: Key, s: seq<Byte>): (r: (seq<seq<Byte>>, seq<Byte>))
    decreases |s|
  {
    match Receive(a, k, s)
    case Received(p, rest) =>
      if |rest| >= |s| then ([], s) else
      var (ps, left) := ReceiveAll(a, k, rest);
      ([p] + ps, left)
    case _ => ([], s)
  }

  /** Any sequence of messages within the limit is read back exactly, in order, whatever the nonces. */
  lemma {:induction false} TunnelRoundTrip(a: Aead, k: Key, ps: seq<seq<Byte>>, nonces: nat -> Nonce)
    requires Lawful(a)
    requires forall i :: 0 <= i < |ps| ==> |ps[i]| <= 1_048_568
    ensures ReceiveAll(a, k, Frames(a, k, ps, nonces)) == (ps, [])
    decreases |ps|
  {
    if ps != [] {
      var rest := Frames(a, k, ps[1..], nonces);
      assert |ps[0]| <= 1_048_568;
      FrameReadsBackIff(a, k, ps[0], nonces(|ps|), rest);
      TunnelRoundTrip(a, k, ps[1..], nonces);
      assert [ps[0]] + ps[1..] == ps;
    }
  }
}
