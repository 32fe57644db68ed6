/**
  The key exchange of `server_side` and `client_side` (crypto_stream.rs:55-129) over two FIFO byte
  streams. Both sides run the same program: write 4 + 32 bytes, read 4 bytes, read 32 bytes. A
  write may reach the peer in pieces, and the two sides interleave in any order. Key agreement is
  an abstract function with the law of section 6.1 of RFC 7748: both parties compute the same secret.
 */
module KeyExchange {
  import opened Bytes
  import opened Wire

  const KEY_SIZE := 32
  const HELLO_SIZE := 36

  datatype Agreement = Agreement(
    publicKey: seq<Byte> -> seq<Byte>,
    agree: (seq<Byte>, seq<Byte>) -> Option<seq<Byte>>,  // None: the library rejects the peer's key
    derive: seq<Byte> -> seq<Byte>)

  ghost predicate Commutes(g: Agreement) {
    && (forall x :: |g.publicKey(x)| == KEY_SIZE)
    && (forall x, y :: g.agree(x, g.publicKey(y)) == g.agree(y, g.publicKey(x)))
  }

  /** The laws can be met: public keys of 32 bytes, and a secret that adds the two public keys up byte by byte. */
  lemma LawsAreSatisfiable()
    ensures exists g :: Commutes(g)
  {
    var zeros: seq<Byte> := seq(KEY_SIZE, i => 0);
    var public := (x: seq<Byte>) => if |x| == KEY_SIZE then x else zeros;
    var g := Agreement(public, (x: seq<Byte>, p: seq<Byte>) => Some(AddBytes(public(x), p)), s => s);
    forall x, y ensures g.agree(x, g.publicKey(y)) == g.agree(y, g.publicKey(x)) {
      AddBytesCommutes(public(x), public(y));
    }
    assert Commutes(g);
  }

  function AddByte(x: int, y: int): (z: Byte) {
    (x + y) % 0x100
  }

  function AddBytes(x: seq<Byte>, y: seq<Byte>): (z: seq<Byte>) {
    if |x| != |y| then [] else seq(|x|, i requires 0 <= i < |x| => AddByte(x[i], y[i]))
  }

  lemma AddBytesCommutes(x: seq<Byte>, y: seq<Byte>)
    ensures AddBytes(x, y) == AddBytes(y, x)
  {
  }

  datatype Stage = Sending | WantLength | WantKey | Established(key: seq<Byte>) | Failed

  /** One endpoint: bytes it still has to write, bytes delivered to it and not read, and its position. */
  datatype Side = Side(privateKey: seq<Byte>, pending: seq<Byte>, inbox: seq<Byte>, stage: Stage)

  /** Side 0 is the server, side 1 the client. */
  type Net = n: seq<Side> | |n| == 2 witness [Side([], [], [], Failed), Side([], [], [], Failed)]
  type Who = w: nat | w < 2

  function Other(w: Who): (o: Who) {
    1 - w
  }

  function Hello(g: Agreement, privateKey: seq<Byte>): (s: seq<Byte>) {
    Be32(32) + g.publicKey(privateKey)
  }

  function Begin(g: Agreement, serverKey: seq<Byte>, clientKey: seq<Byte>): (n: Net) {
    [Side(serverKey, Hello(g, serverKey), [], Sending), Side(clientKey, Hello(g, clientKey), [], Sending)]
  }

  datatype Step =
    | Deliver(who: Who, count: nat)  // some bytes of a write reach the peer
    | ReadLength(who: Who)
    | ReadKey(who: Who)

  predicate Enabled(n: Net, step: Step) {
    match step
    case Deliver(w, count) => 0 < count <= |n[w].pending|
    case ReadLength(w) => n[w].stage.WantLength? && |n[w].inbox| >= 4
    case ReadKey(w) => n[w].stage.WantKey? && |n[w].inbox| >= KEY_SIZE
  }

  /** The sender of a piece of a write, after it. */
  function Sent(me: Side, count: nat): (me': Side)
    requires count <= |me.pending|
  {
    me.(pending := me.pending[count..],
        stage := if count == |me.pending| && me.stage.Sending? then WantLength else me.stage)
  }

  /** The receiver of a piece of a write, after it. */
  function Received(peer: Side, bytes: seq<Byte>): (peer': Side) {
    peer.(inbox := peer.inbox + bytes)
  }

  function Next(g: Agreement, n: Net, step: Step): (n': Net)
    requires Enabled(n, step)
  {
    match step
    case Deliver(w, count) =>
      n[w := Sent(n[w], count)][Other(w) := Received(n[Other(w)], n[w].pending[..count])]
    case ReadLength(w) =>
      var s := n[w];
      n[w := s.(inbox := s.inbox[4..], stage := if Be32At(s.inbox, 0) == 32 then WantKey else Failed)]
    case ReadKey(w) =>
      var s := n[w];
      var shared := g.agree(s.privateKey, s.inbox[..KEY_SIZE]);
      n[w := s.(inbox := s.inbox[KEY_SIZE..],
                stage := if shared.Some? then Established(g.derive(shared.value)) else Failed)]
  }

  function Run(g: Agreement, n: Net, steps: seq<Step>): (n': Net)
    decreases |steps|
  {
    if steps == [] then n else
    var before := Run(g, n, steps[..|steps| - 1]);
    if Enabled(before, steps[|steps| - 1]) then Next(g, before, steps[|steps| - 1]) else before
  }

  /** Every step is enabled when it happens. */
  predicate IsRun(g: Agreement, n: Net, steps: seq<Step>)
    decreases |steps|
  {
    steps == [] || (IsRun(g, n, steps[..|steps| - 1]) && Enabled(Run(g, n, steps[..|steps| - 1]), steps[|steps| - 1]))
  }

  // ---- Invariant ----

  /** Bytes of the peer's greeting a side has consumed at each stage. */
  function Consumed(stage: Stage): (k: nat) {
    match stage
    case Sending => 0
    case WantLength => 0
    case WantKey => 4
    case _ => HELLO_SIZE
  }

  /** The outcome the mathematics of the agreement dictates. */
  function Outcome(g: Agreement, mine: seq<Byte>, theirs: seq<Byte>): (s: Stage) {
    match g.agree(mine, g.publicKey(theirs))
    case None => Failed
    case Some(shared) => Established(g.derive(shared))
  }

  /** One side against the peer's greeting: the inbox is the delivered and unread part of it. */
  ghost predicate SideOk(g: Agreement, me: Side, peer: Side) {
    var hello := Hello(g, peer.privateKey);
    var sent := HELLO_SIZE - |peer.pending|;
    && |hello| == HELLO_SIZE
    && 0 <= Consumed(me.stage) <= sent
    && peer.pending == hello[sent..]
    && me.inbox == hello[Consumed(me.stage)..sent]
    && (me.stage.Sending? <==> me.pending != [])
    && (me.stage.Established? || me.stage.Failed? ==> me.stage == Outcome(g, me.privateKey, peer.privateKey))
  }

  ghost predicate InStep(g: Agreement, n: Net, keys: (seq<Byte>, seq<Byte>)) {
    && n[0].privateKey == keys.0 && n[1].privateKey == keys.1
    && |n[0].pending| <= HELLO_SIZE && |n[1].pending| <= HELLO_SIZE
    && SideOk(g, n[0], n[1]) && SideOk(g, n[1], n[0])
  }

  lemma HelloSize(g: Agreement, privateKey: seq<Byte>)
    requires Commutes(g)
    ensures |Hello(g, privateKey)| == HELLO_SIZE
    ensures Hello(g, privateKey)[..4] == Be32(32) && Hello(g, privateKey)[4..] == g.publicKey(privateKey)
    ensures Be32At(Hello(g, privateKey), 0) == 32
  {
    var h := Hello(g, privateKey);
    assert |g.publicKey(privateKey)| == KEY_SIZE;
    assert h[0..4] == Be32(32);
    Be32RoundTrip(h, 0, 32);
  }

  lemma SenderStaysOk(g: Agreement, me: Side, peer: Side, count: nat)
    requires SideOk(g, me, peer) && 0 < count <= |me.pending|
    ensures SideOk(g, Sent(me, count), Received(peer, me.pending[..count]))
  {
  }

  lemma ReceiverStaysOk(g: Agreement, me: Side, peer: Side, count: nat)
    requires SideOk(g, peer, me) && 0 < count <= |me.pending| <= HELLO_SIZE
    ensures SideOk(g, Received(peer, me.pending[..count]), Sent(me, count))
  {
    var sent := HELLO_SIZE - |me.pending|;
    JoinSlices(Hello(g, me.privateKey), Consumed(peer.stage), sent, sent + count);
  }

  lemma DeliverKeeps(g: Agreement, n: Net, keys: (seq<Byte>, seq<Byte>), w: Who, count: nat)
    requires InStep(g, n, keys) && 0 < count <= |n[w].pending|
    ensures InStep(g, Next(g, n, Deliver(w, count)), keys)
  {
    var me, peer := n[w], n[Other(w)];
    SenderStaysOk(g, me, peer, count);
    ReceiverStaysOk(g, me, peer, count);
    var n' := Next(g, n, Deliver(w, count));
    assert n'[w] == Sent(me, count) && n'[Other(w)] == Received(peer, me.pending[..count]);
  }

  /** A read changes one side only, and nothing its peer depends on. */
  lemma ReadKeeps(g: Agreement, n: Net, keys: (seq<Byte>, seq<Byte>), w: Who, inbox: seq<Byte>, stage: Stage)
    requires InStep(g, n, keys) && SideOk(g, n[w].(inbox := inbox, stage := stage), n[Other(w)])
    ensures InStep(g, n[w := n[w].(inbox := inbox, stage := stage)], keys)
  {
  }

  lemma ReadLengthSide(g: Agreement, me: Side, peer: Side)
    requires Commutes(g) && SideOk(g, me, peer) && me.stage.WantLength? && |me.inbox| >= 4
    ensures Be32At(me.inbox, 0) == 32
    ensures SideOk(g, me.(inbox := me.inbox[4..], stage := WantKey), peer)
  {
    var hello := Hello(g, peer.privateKey);
    HelloSize(g, peer.privateKey);
    assert me.inbox[0..4] == hello[..4];
    Be32RoundTrip(me.inbox, 0, 32);
  }

  lemma ReadLengthKeeps(g: Agreement, n: Net, keys: (seq<Byte>, seq<Byte>), w: Who)
    requires Commutes(g) && InStep(g, n, keys) && Enabled(n, ReadLength(w))
    ensures InStep(g, Next(g, n, ReadLength(w)), keys)
    ensures Next(g, n, ReadLength(w))[w].stage == WantKey
  {
    ReadLengthSide(g, n[w], n[Other(w)]);
    ReadKeeps(g, n, keys, w, n[w].inbox[4..], WantKey);
  }

  lemma ReadKeySide(g: Agreement, me: Side, peer: Side)
    requires Commutes(g) && SideOk(g, me, peer) && me.stage.WantKey? && |me.inbox| >= KEY_SIZE
    ensures me.inbox[..KEY_SIZE] == g.publicKey(peer.privateKey)
    ensures SideOk(g, me.(inbox := me.inbox[KEY_SIZE..], stage := Outcome(g, me.privateKey, peer.privateKey)), peer)
  {
    var hello := Hello(g, peer.privateKey);
    HelloSize(g, peer.privateKey);
    assert me.inbox == hello[4..];
    assert me.inbox[..KEY_SIZE] == hello[4..];
  }

  lemma ReadKeyKeeps(g: Agreement, n: Net, keys: (seq<Byte>, seq<Byte>), w: Who)
    requires Commutes(g) && InStep(g, n, keys) && Enabled(n, ReadKey(w))
    ensures InStep(g, Next(g, n, ReadKey(w)), keys)
  {
    ReadKeySide(g, n[w], n[Other(w)]);
    ReadKeeps(g, n, keys, w, n[w].inbox[KEY_SIZE..], Outcome(g, n[w].privateKey, n[Other(w)].privateKey));
  }

  lemma StepKeeps(g: Agreement, n: Net, keys: (seq<Byte>, seq<Byte>), step: Step)
    requires Commutes(g) && InStep(g, n, keys) && Enabled(n, step)
    ensures InStep(g, Next(g, n, step), keys)
  {
    match step
    case Deliver(w, count) => DeliverKeeps(g, n, keys, w, count);
    case ReadLength(w) => ReadLengthKeeps(g, n, keys, w);
    case ReadKey(w) => ReadKeyKeeps(g, n, keys, w);
  }

  lemma {:induction false} EveryRunInStep(g: Agreement, keys: (seq<Byte>, seq<Byte>), steps: seq<Step>)
    requires Commutes(g) && IsRun(g, Begin(g, keys.0, keys.1), steps)
    ensures InStep(g, Run(g, Begin(g, keys.0, keys.1), steps), keys)
    decreases |steps|
  {
    var n := Begin(g, keys.0, keys.1);
    if steps == [] {
      HelloSize(g, keys.0);
      HelloSize(g, keys.1);
    } else {
      EveryRunInStep(g, keys, steps[..|steps| - 1]);
      StepKeeps(g, Run(g, n, steps[..|steps| - 1]), keys, steps[|steps| - 1]);
    }
  }

  lemma ReadableSide(g: Agreement, me: Side, peer: Side)
    requires SideOk(g, me, peer)
    ensures me.stage.WantLength? ==> |me.inbox| == 36 - |peer.pending|
    ensures me.stage.WantKey? ==> |me.inbox| == 32 - |peer.pending|
  {
  }

  /** A side reads the length once four bytes of its peer's greeting are delivered, and the key once all 36 are. */
  lemma ReadsWhenDelivered(g: Agreement, keys: (seq<Byte>, seq<Byte>), steps: seq<Step>, w: Who)
    requires Commutes(g) && IsRun(g, Begin(g, keys.0, keys.1), steps)
    ensures var n := Run(g, Begin(g, keys.0, keys.1), steps);
            var delivered := 36 - |n[Other(w)].pending|;
            && (n[w].stage.WantLength? ==> (Enabled(n, ReadLength(w)) <==> delivered >= 4))
            && (n[w].stage.WantKey? ==> (Enabled(n, ReadKey(w)) <==> delivered == 36))
  {
    EveryRunInStep(g, keys, steps);
    var n := Run(g, Begin(g, keys.0, keys.1), steps);
    ReadableSide(g, n[w], n[Other(w)]);
  }

  // ---- Deadlock freedom, termination, agreement ----

  predicate Ended(s: Side) {
    s.stage.Established? || s.stage.Failed?
  }

  /** A side that is not finished can act, or its peer still has bytes to send. */
  lemma NotStuck(g: Agreement, n: Net, keys: (seq<Byte>, seq<Byte>), w: Who)
    requires Commutes(g) && InStep(g, n, keys) && !Ended(n[w])
    ensures exists step :: Enabled(n, step)
  {
    var me, peer := n[w], n[Other(w)];
    HelloSize(g, peer.privateKey);
    assert SideOk(g, me, peer);
    if me.pending != [] {
      assert Enabled(n, Deliver(w, |me.pending|));
    } else if peer.pending != [] {
      assert Enabled(n, Deliver(Other(w), |peer.pending|));
    } else if me.stage.WantLength? {
      assert Enabled(n, ReadLength(w));
    } else {
      assert Enabled(n, ReadKey(w));
    }
  }

  function Remaining(s: Side): (k: nat) {
    |s.pending| + match s.stage
                  case Sending => 2
                  case WantLength => 2
                  case WantKey => 1
                  case _ => 0
  }

  lemma StepMakesProgress(g: Agreement, n: Net, keys: (seq<Byte>, seq<Byte>), step: Step)
    requires Commutes(g) && InStep(g, n, keys) && Enabled(n, step)
    ensures var n' := Next(g, n, step); Remaining(n'[0]) + Remaining(n'[1]) < Remaining(n[0]) + Remaining(n[1])
  {
    match step
    case Deliver(w, count) =>
    case ReadLength(w) => ReadLengthSide(g, n[w], n[Other(w)]);
    case ReadKey(w) =>
  }

  lemma {:induction false} RunsAreShort(g: Agreement, keys: (seq<Byte>, seq<Byte>), steps: seq<Step>)
    requires Commutes(g) && IsRun(g, Begin(g, keys.0, keys.1), steps)
    ensures var n := Run(g, Begin(g, keys.0, keys.1), steps);
            |steps| + Remaining(n[0]) + Remaining(n[1]) <= 2 * (HELLO_SIZE + 2)
    decreases |steps|
  {
    var n := Begin(g, keys.0, keys.1);
    if steps == [] {
      HelloSize(g, keys.0);
      HelloSize(g, keys.1);
    } else {
      RunsAreShort(g, keys, steps[..|steps| - 1]);
      EveryRunInStep(g, keys, steps[..|steps| - 1]);
      StepMakesProgress(g, Run(g, n, steps[..|steps| - 1]), keys, steps[|steps| - 1]);
    }
  }

  /** When both sides have ended nothing is in flight and they agree. */
  lemma EndedTogether(g: Agreement, n: Net, keys: (seq<Byte>, seq<Byte>))
    requires Commutes(g) && InStep(g, n, keys) && Ended(n[0]) && Ended(n[1])
    ensures n[0].pending == n[1].pending == n[0].inbox == n[1].inbox == []
    ensures n[0].stage == n[1].stage == Outcome(g, keys.0, keys.1)
  {
    assert g.agree(keys.0, g.publicKey(keys.1)) == g.agree(keys.1, g.publicKey(keys.0));
  }

  lemma EndedIffNoStep(g: Agreement, n: Net, keys: (seq<Byte>, seq<Byte>))
    requires Commutes(g) && InStep(g, n, keys)
    ensures Ended(n[0]) && Ended(n[1]) <==> !exists step :: Enabled(n, step)
  {
    if !Ended(n[0]) {
      NotStuck(g, n, keys, 0);
    } else if !Ended(n[1]) {
      NotStuck(g, n, keys, 1);
    } else {
      EndedTogether(g, n, keys);
    }
  }

  /**
    For every interleaving and every fragmentation of the writes: a run has at most 76 steps, it
    can be extended until both sides have ended, and when they have, each has consumed exactly the
    peer's 36 bytes and both hold the same result: the same session key, or failure on both.
   */
  lemma ExchangeCompletes(g: Agreement, keys: (seq<Byte>, seq<Byte>), steps: seq<Step>)
    requires Commutes(g) && IsRun(g, Begin(g, keys.0, keys.1), steps)
    ensures |steps| <= 76
    ensures var n := Run(g, Begin(g, keys.0, keys.1), steps);
            && (Ended(n[0]) && Ended(n[1]) <==> !exists step :: Enabled(n, step))
            && (Ended(n[0]) && Ended(n[1]) ==>
                  && n[0].pending == n[1].pending == n[0].inbox == n[1].inbox == []
                  && n[0].stage == n[1].stage == Outcome(g, keys.0, keys.1))
  {
    var n := Run(g, Begin(g, keys.0, keys.1), steps);
    RunsAreShort(g, keys, steps);
    EveryRunInStep(g, keys, steps);
    EndedIffNoStep(g, n, keys);
    if Ended(n[0]) && Ended(n[1]) {
      EndedTogether(g, n, keys);
    }
  }

  // ---- One side as the source writes it, against an arbitrary peer ----

  datatype Handshake = Agreed(key: seq<Byte>) | ConnectionLost | WrongLength | Rejected

  /** What a side makes of the bytes it receives. */
  function HandshakeResult(g: Agreement, privateKey: seq<Byte>, input: seq<Byte>): (h: Handshake) {
    if |input| < 4 then ConnectionLost
    else if Be32At(input, 0) != 32 then WrongLength
    else if |input| < HELLO_SIZE then ConnectionLost
    else
      match g.agree(privateKey, input[4..HELLO_SIZE])
      case None => Rejected
      case Some(shared) => Agreed(g.derive(shared))
  }

  /** The same byte by byte: the length must read 32, and the 32 bytes behind it are the peer's key. */
  lemma HandshakeFromBytes(g: Agreement, privateKey: seq<Byte>, input: seq<Byte>)
    ensures Hello(g, privateKey) == [0, 0, 0, 32] + g.publicKey(privateKey)
    ensures HandshakeResult(g, privateKey, input) ==
            if |input| < 4 then ConnectionLost
            else if input[..4] != [0, 0, 0, 32] then WrongLength
            else if |input| < 36 then ConnectionLost
            else if g.agree(privateKey, input[4..36]).None? then Rejected
            else Agreed(g.derive(g.agree(privateKey, input[4..36]).value))
  {
    assert Be32(32) == [0, 0, 0, 32];
    if |input| >= 4 {
      Be32RoundTrip(input, 0, 32);
      assert input[0..4] == input[..4];
    }
  }

  /** `server_side` and `client_side`: write the public key first, then read the peer's. */
  method Establish(g: Agreement, stream: ByteStream, privateKey: seq<Byte>) returns (h: Handshake)
    modifies stream
    ensures h == HandshakeResult(g, privateKey, old(stream.unread))
    ensures stream.written == old(stream.written) + Hello(g, privateKey)
    ensures h.Agreed? || h.Rejected? ==> stream.unread == old(stream.unread)[HELLO_SIZE..]
  {
    ghost var s := stream.unread;
    var out := Be32(32);
    out := out + g.publicKey(privateKey);
    stream.WriteMessage(out);
    var length := stream.ReadExact(4);
    if length.None? { return ConnectionLost; }
    Be32RoundTrip(s, 0, Be32At(length.value, 0));
    Be32RoundTrip(length.value, 0, Be32At(length.value, 0));
    if Be32At(length.value, 0) != 32 { return WrongLength; }
    var peerKey := stream.ReadExact(32);
    if peerKey.None? { return ConnectionLost; }
    assert peerKey.value == s[4..HELLO_SIZE];
    var shared := g.agree(privateKey, peerKey.value);
    if shared.None? { return Rejected; }
    h := Agreed(g.derive(shared.value));
  }

  /** Facing an honest peer, a side takes exactly the greeting and reaches the outcome of the exchange. */
  lemma HonestPeer(g: Agreement, mine: seq<Byte>, theirs: seq<Byte>, rest: seq<Byte>)
    requires Commutes(g)
    ensures var h := HandshakeResult(g, mine, Hello(g, theirs) + rest);
            && (h.Agreed? || h.Rejected?)
            && Outcome(g, mine, theirs) == if h.Agreed? then Established(h.key) else Failed
    ensures HandshakeResult(g, mine, Hello(g, theirs) + rest) == HandshakeResult(g, theirs, Hello(g, mine) + rest)
  {
    HelloSize(g, theirs);
    HelloSize(g, mine);
    var s, t := Hello(g, theirs) + rest, Hello(g, mine) + rest;
    Be32RoundTrip(s, 0, 32);
    Be32RoundTrip(t, 0, 32);
    assert s[0..4] == Be32(32) && t[0..4] == Be32(32);
    assert s[4..HELLO_SIZE] == g.publicKey(theirs) && t[4..HELLO_SIZE] == g.publicKey(mine);
  }
}
