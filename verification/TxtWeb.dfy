/** The key-value branch of `scanServers` (api.ts:59-87) and its round trip with the printer. */
module TxtWeb {
  import opened Bytes
  import opened Txt

  /** Length of the longest prefix of hexadecimal digits. */
  function HexRun(s: string): (n: nat)
    ensures n <= |s|
  {
    if s != "" && IsHex(s[0]) then 1 + HexRun(s[1..]) else 0
  }

  lemma {:induction false} HexRunIsHex(s: string)
    ensures Number(s[..HexRun(s)], 16).Some?
    ensures (forall c :: c in s ==> IsHex(c)) ==> HexRun(s) == |s|
  {
    HexRunPrefix(s, HexRun(s));
    if (forall c :: c in s ==> IsHex(c)) && s != "" {
      assert s[0] in s;
      HexRunIsHex(s[1..]);
    }
  }

  lemma {:induction false} HexRunPrefix(s: string, k: nat)
    requires k <= HexRun(s)
    ensures Number(s[..k], 16).Some?
    decreases k
  {
    if k > 0 {
      HexRunPrefix(s, k - 1);
      HexRunAt(s, k - 1);
      assert s[..k][..k - 1] == s[..k - 1];
    }
  }

  lemma {:induction false} HexRunAt(s: string, i: nat)
    requires i < HexRun(s)
    ensures IsHex(s[i])
  {
    if i > 0 {
      HexRunAt(s[1..], i - 1);
    }
  }

  /** `parseInt(s, 16) || 0`: blanks, sign and one more "0x" are skipped; trailing junk is ignored; NaN counts as 0. */
  function ParseHex(s: string, blank: char -> bool): (n: int) {
    var t := TrimStart(s, blank);
    var m := HexPrefix(Unprefixed(Unsigned(t)));
    if t != "" && t[0] == '-' then 0 - m else m
  }

  function Unsigned(t: string): (u: string) {
    if t != "" && t[0] in {'+', '-'} then t[1..] else t
  }

  function Unprefixed(u: string): (d: string) {
    if "0x" <= u || "0X" <= u then u[2..] else u
  }

  /** The value of the digits a string starts with. */
  function HexPrefix(d: string): (m: nat) {
    match Number(d[..HexRun(d)], 16)
    case None => 0
    case Some(m) => m
  }

  lemma {:induction false} TrimStartAll(pad: string, s: string, blank: char -> bool)
    requires (forall c :: c in pad ==> blank(c)) && (s != "" ==> !blank(s[0]))
    ensures TrimStart(pad + s, blank) == s
  {
    if pad == "" {
      assert pad + s == s;
    } else {
      assert pad[0] in pad && (pad + s)[1..] == pad[1..] + s;
      TrimStartAll(pad[1..], s, blank);
    }
  }

  lemma {:induction false} HexRunStops(digits: string, junk: string)
    requires (forall c :: c in digits ==> IsHex(c)) && (junk != "" ==> !IsHex(junk[0]))
    ensures HexRun(digits + junk) == |digits|
  {
    if digits == "" {
      assert digits + junk == junk;
    } else {
      assert digits[0] in digits && (digits + junk)[1..] == digits[1..] + junk;
      HexRunStops(digits[1..], junk);
    }
  }

  /**
    What is read from blanks, a sign, a prefix, hexadecimal digits and whatever follows them: the signed
    value of the digits. Without digits that is 0.
   */
  lemma ParseHexForm(pad: string, sign: string, prefix: string, digits: string, junk: string, blank: char -> bool)
    returns (m: nat)
    requires (sign == "" || sign == "+" || sign == "-") && (prefix == "0x" || prefix == "0X")
    requires (forall c :: c in pad ==> blank(c)) && !blank('+') && !blank('-') && !blank('0')
    requires (forall c :: c in digits ==> IsHex(c)) && (junk != "" ==> !IsHex(junk[0]))
    ensures Number(digits, 16) == Some(m)
    ensures ParseHex(pad + (sign + (prefix + (digits + junk))), blank) == if sign == "-" then 0 - m else m
  {
    m := HexPrefixIs(digits, junk);
    UnprefixedIs(prefix, digits + junk);
    SignedValue(pad, sign, prefix + (digits + junk), m, blank);
  }

  lemma SignedValue(pad: string, sign: string, u: string, m: nat, blank: char -> bool)
    requires (sign == "" || sign == "+" || sign == "-") && u != "" && u[0] == '0' && HexPrefix(Unprefixed(u)) == m
    requires (forall c :: c in pad ==> blank(c)) && !blank('+') && !blank('-') && !blank('0')
    ensures ParseHex(pad + (sign + u), blank) == if sign == "-" then 0 - m else m
  {
    UnsignedIs(sign, u);
    TrimStartAll(pad, sign + u, blank);
  }

  lemma HexPrefixIs(digits: string, junk: string) returns (m: nat)
    requires (forall c :: c in digits ==> IsHex(c)) && (junk != "" ==> !IsHex(junk[0]))
    ensures Number(digits, 16) == Some(m) && HexPrefix(digits + junk) == m
  {
    var d := digits + junk;
    m := HexPrefix(d);
    HexRunStops(digits, junk);
    assert d[..|digits|] == digits;
    HexRunIsHex(d);
  }

  lemma UnprefixedIs(prefix: string, d: string)
    requires prefix == "0x" || prefix == "0X"
    ensures Unprefixed(prefix + d) == d && (prefix + d)[0] == '0'
  {
    assert (prefix + d)[..2] == prefix && (prefix + d)[2..] == d;
  }

  lemma UnsignedIs(sign: string, u: string)
    requires (sign == "" || sign == "+" || sign == "-") && u != "" && u[0] == '0'
    ensures var t := sign + u;
            && Unsigned(t) == u && t[0] in {'0', '+', '-'} && (t[0] == '-' <==> sign == "-")
  {
    var t := sign + u;
    if sign == "" {
      assert t == u;
    } else {
      assert t[0] == sign[0] && t[1..] == u;
    }
  }

  /** A missing or empty value reads as 0. */
  function IdValue(v: Option<string>, blank: char -> bool): (n: int) {
    var s := if v.None? then "" else if "0x" <= v.value then v.value[2..] else v.value;
    ParseHex(if s == "" then "0" else s, blank)
  }

  function OrDefault(v: Option<string>, default: string): (s: string) {
    if v.None? || v.value == "" then default else v.value
  }

  /** `token.split('=')` with every piece trimmed; only the first two pieces are used. */
  function Key(token: string, blank: char -> bool): (k: string) {
    Trim(Split(token, '=')[0], blank)
  }

  function Value(token: string, blank: char -> bool): (v: Option<string>) {
    if |Split(token, '=')| < 2 then None else Some(Trim(Split(token, '=')[1], blank))
  }

  // ---- The loop over tokens ----

  datatype State = State(list: seq<Remote>, vid: int, pid: int, bus: string, name: string)
  {
    predicate Complete() {
      vid != 0 && pid != 0
    }

    function Flush(): (rs: seq<Remote>) {
      if Complete() then list + [Remote(name, bus, vid, pid)] else list
    }
  }

  const START := State([], 0, 0, DEFAULT_BUS, DEFAULT_NAME)

  /** What a pair does to the state; `id` is its value read as an id. */
  function StepWith(st: State, k: string, v: Option<string>, id: int): (st': State) {
    if k == "vid" then
      State(st.Flush(), id, st.pid,
            if st.Complete() then DEFAULT_BUS else st.bus, if st.Complete() then DEFAULT_NAME else st.name)
    else if k == "pid" then st.(pid := id)
    else if k == "bus" then st.(bus := OrDefault(v, DEFAULT_BUS))
    else if k == "n" then st.(name := OrDefault(v, DEFAULT_NAME))
    else st
  }

  function StepOf(st: State, k: string, v: Option<string>, blank: char -> bool): (st': State) {
    StepWith(st, k, v, IdValue(v, blank))
  }

  function Step(st: State, token: string, blank: char -> bool): (st': State) {
    StepOf(st, Key(token, blank), Value(token, blank), blank)
  }

  function Stepper(blank: char -> bool): (step: (State, string) -> State) {
    (st: State, token: string) => Step(st, token, blank)
  }

  /** The devices this branch pushes for one server. */
  function Parse(s: string, blank: char -> bool): (rs: seq<Remote>) {
    Fold(START, Split(s, ','), Stepper(blank)).Flush()
  }

  method ScanDevices(devStr: string, blank: char -> bool) returns (devices: seq<Remote>)
    ensures devices == Parse(devStr, blank)
  {
    devices := [];
    var tokens := Split(devStr, ',');
    var curVid, curPid, curBus, curName := 0, 0, DEFAULT_BUS, DEFAULT_NAME;
    for i := 0 to |tokens|
      invariant Fold(START, tokens, Stepper(blank)) ==
                Fold(State(devices, curVid, curPid, curBus, curName), tokens[i..], Stepper(blank))
    {
      ghost var before := State(devices, curVid, curPid, curBus, curName);
      FoldNext(before, tokens, i, Stepper(blank));
      var k, v := Key(tokens[i], blank), Value(tokens[i], blank);
      if k == "vid" {
        if curVid != 0 && curPid != 0 {
          devices := devices + [Remote(curName, curBus, curVid, curPid)];
          curBus := DEFAULT_BUS;
          curName := DEFAULT_NAME;
        }
        curVid := IdValue(v, blank);
      } else if k == "pid" {
        curPid := IdValue(v, blank);
      } else if k == "bus" {
        curBus := OrDefault(v, DEFAULT_BUS);
      } else if k == "n" {
        curName := OrDefault(v, DEFAULT_NAME);
      }
      assert State(devices, curVid, curPid, curBus, curName) == StepOf(before, k, v, blank);
    }
    if curVid != 0 && curPid != 0 {
      devices := devices + [Remote(curName, curBus, curVid, curPid)];
    }
  }

  // ---- Round trip ----

  /** No character the printer writes by itself counts as blank. */
  ghost predicate Sane(blank: char -> bool) {
    forall c :: IsHex(c) || c in {'v', 'p', 's', 'n'} ==> !blank(c)
  }

  /** A bus id this parser can return. */
  ghost predicate Returnable(busid: string, blank: char -> bool) {
    busid != "" && ',' !in busid && '=' !in busid && Tight(busid, blank)
  }

  ghost predicate DeviceReturnable(d: Device, blank: char -> bool) {
    d.vid != 0 && d.pid != 0 && Returnable(d.busid, blank)
  }

  lemma ParseHexPlain(h: string, blank: char -> bool)
    requires Sane(blank) && h != "" && forall c :: c in h ==> IsHex(c)
    ensures Number(h, 16).Some? && ParseHex(h, blank) == Number(h, 16).value
  {
    PlainDigits(h);
    var m := HexPrefixIs(h, "");
    assert h + "" == h && IsHex(h[0]);
    assert TrimStart(h, blank) == h;
  }

  /** Digits alone have neither sign nor prefix. */
  lemma PlainDigits(h: string)
    requires h != "" && forall c :: c in h ==> IsHex(c)
    ensures Unsigned(h) == Unprefixed(h) == h && h[0] != '-' && IsHex(h[0])
  {
    assert h[0] in h;
    assert |h| > 1 ==> h[1] in h;
  }

  /** A device without an id, or with an empty one, has the id 0. */
  lemma MissingId(blank: char -> bool)
    requires Sane(blank)
    ensures IdValue(None, blank) == IdValue(Some(""), blank) == IdValue(Some("0x"), blank) == 0
  {
    assert "0x"[2..] == "";
    OneDigit('0', blank);
  }

  lemma OneDigit(c: char, blank: char -> bool)
    requires Sane(blank) && IsHex(c)
    ensures ParseHex([c], blank) == DigitOf(c, 16).value
  {
    assert "" + [c] == [c];
    NumberSnoc("", c, 16);
    ParseHexPlain([c], blank);
  }

  lemma HexField(x: U16, blank: char -> bool)
    requires Sane(blank)
    ensures IdValue(Some("0x" + Hex4(x)), blank) == x
  {
    var h, v := Hex4(x), "0x" + Hex4(x);
    Hex4Denotes(x);
    assert "0x" <= v && v[2..] == h;
    ParseHexPlain(h, blank);
  }

  lemma HexTight(x: U16, blank: char -> bool)
    requires Sane(blank)
    ensures Tight("0x" + Hex4(x), blank) && '=' !in "0x" + Hex4(x)
  {
    var h, v := Hex4(x), "0x" + Hex4(x);
    Hex4Denotes(x);
    assert h[3] in h;
    assert IsHex('0');
    assert v[0] == '0' && v[5] == h[3];
  }

  lemma SplitPair(key: string, v: string)
    requires '=' !in key && '=' !in v
    ensures Split(key + "=" + v, '=') == [key, v]
  {
    assert "=" == ['='];
    SplitFirst(key, v, '=');
    SplitOne(v, '=');
    assert [key] + [v] == [key, v];
  }

  lemma PairToken(key: string, v: string, blank: char -> bool)
    requires '=' !in key && '=' !in v && Tight(key, blank) && Tight(v, blank)
    ensures Key(key + "=" + v, blank) == key && Value(key + "=" + v, blank) == Some(v)
  {
    SplitPair(key, v);
    TrimTight(key, blank);
    TrimTight(v, blank);
  }

  /** The step of a token that is the pair of `key` and `v`. */
  lemma PairStep(st: State, token: string, key: string, v: string, blank: char -> bool)
    requires token == key + "=" + v && '=' !in key && '=' !in v && Tight(key, blank) && Tight(v, blank)
    ensures Step(st, token, blank) == StepWith(st, key, Some(v), IdValue(Some(v), blank))
  {
    PairToken(key, v, blank);
  }

  /** The same for a key whose value is not read as an id. */
  lemma TextStep(st: State, token: string, key: string, v: string, blank: char -> bool) returns (id: int)
    requires token == key + "=" + v && '=' !in key && '=' !in v && Tight(key, blank) && Tight(v, blank)
    ensures Step(st, token, blank) == StepWith(st, key, Some(v), id)
  {
    PairStep(st, token, key, v, blank);
    id := IdValue(Some(v), blank);
  }

  /** The step of a token that carries an id. */
  lemma IdStep(st: State, token: string, key: string, x: U16, blank: char -> bool)
    requires Sane(blank) && token == key + "=" + ("0x" + Hex4(x)) && '=' !in key && Tight(key, blank)
    ensures Step(st, token, blank) == StepWith(st, key, Some("0x" + Hex4(x)), x)
  {
    HexField(x, blank);
    HexTight(x, blank);
    PairStep(st, token, key, "0x" + Hex4(x), blank);
  }

  lemma IdKeysTight(blank: char -> bool)
    requires Sane(blank)
    ensures Tight("vid", blank) && Tight("pid", blank)
  {
    assert IsHex('d');
  }

  lemma VidStep(st: State, d: Device, blank: char -> bool)
    requires Sane(blank)
    ensures Step(st, Tokens(d)[0], blank) ==
            State(st.Flush(), d.vid, st.pid,
                  if st.Complete() then DEFAULT_BUS else st.bus, if st.Complete() then DEFAULT_NAME else st.name)
  {
    IdKeysTight(blank);
    TokensAsPairs(d);
    IdStep(st, Tokens(d)[0], "vid", d.vid, blank);
  }

  lemma PidStep(st: State, d: Device, blank: char -> bool)
    requires Sane(blank)
    ensures Step(st, Tokens(d)[1], blank) == st.(pid := d.pid)
  {
    IdKeysTight(blank);
    TokensAsPairs(d);
    IdStep(st, Tokens(d)[1], "pid", d.pid, blank);
  }

  lemma BusStep(st: State, d: Device, blank: char -> bool)
    requires Sane(blank) && Returnable(d.busid, blank)
    ensures Step(st, Tokens(d)[2], blank) == st.(bus := d.busid)
  {
    assert IsHex('b') && Tight("bus", blank);
    TokensAsPairs(d);
    var id := TextStep(st, Tokens(d)[2], "bus", d.busid, blank);
  }

  lemma NameTight(d: Device, blank: char -> bool)
    requires Sane(blank)
    ensures NameOf(d) != "" && Tight(NameOf(d), blank) && '=' !in NameOf(d)
  {
    Hex4Denotes(d.vid);
    Hex4Denotes(d.pid);
    assert Hex4(d.vid)[0] in Hex4(d.vid) && Hex4(d.pid)[3] in Hex4(d.pid);
  }

  lemma NameStep(st: State, d: Device, blank: char -> bool)
    requires Sane(blank)
    ensures Step(st, Tokens(d)[3], blank) == st.(name := NameOf(d))
  {
    NameTight(d, blank);
    TokensAsPairs(d);
    var id := TextStep(st, Tokens(d)[3], "n", NameOf(d), blank);
  }

  /** The state after the four tokens of a device. */
  function AfterDevice(st: State, d: Device): (st': State) {
    State(st.Flush(), d.vid, d.pid, d.busid, NameOf(d))
  }

  lemma DeviceSteps(st: State, d: Device, rest: seq<string>, blank: char -> bool)
    requires Sane(blank) && Returnable(d.busid, blank)
    ensures Fold(st, Tokens(d) + rest, Stepper(blank)) == Fold(AfterDevice(st, d), rest, Stepper(blank))
  {
    var ts := Tokens(d);
    FoldFour(st, ts, rest, Stepper(blank));
    VidStep(st, d, blank);
    var s1 := Step(st, ts[0], blank);
    PidStep(s1, d, blank);
    var s2 := Step(s1, ts[1], blank);
    BusStep(s2, d, blank);
    var s3 := Step(s2, ts[2], blank);
    NameStep(s3, d, blank);
  }

  function AfterEach(): (after: (State, Device) -> State) {
    (st: State, d: Device) => AfterDevice(st, d)
  }

  function Flusher(): (flush: State -> seq<Remote>) {
    (st: State) => st.Flush()
  }

  ghost function Accepts(blank: char -> bool): (ok: Device -> bool) {
    (d: Device) => DeviceReturnable(d, blank)
  }

  lemma TakesEach(blank: char -> bool)
    requires Sane(blank)
    ensures TakesDevices(Stepper(blank), AfterEach(), Accepts(blank))
  {
    forall st: State, d: Device, rest: seq<string> | Accepts(blank)(d)
      ensures Fold(st, Tokens(d) + rest, Stepper(blank)) == Fold(AfterEach()(st, d), rest, Stepper(blank))
    {
      DeviceSteps(st, d, rest, blank);
    }
  }

  lemma AddsEach(blank: char -> bool)
    ensures AddsDevices(Flusher(), AfterEach(), Accepts(blank))
  {
  }

  lemma DevicesTaken(ds: seq<Device>, blank: char -> bool)
    requires Sane(blank) && forall i :: 0 <= i < |ds| ==> Accepts(blank)(ds[i])
    ensures Flusher()(Fold(START, AllTokens(ds), Stepper(blank))) == Flusher()(START) + Remotes(ds)
  {
    TakesEach(blank);
    AddsEach(blank);
    FoldDevices(START, ds, Stepper(blank), Flusher(), AfterEach(), Accepts(blank));
  }

  lemma DevicesFold(ds: seq<Device>, blank: char -> bool)
    requires Sane(blank) && forall i :: 0 <= i < |ds| ==> DeviceReturnable(ds[i], blank)
    ensures Fold(START, AllTokens(ds), Stepper(blank)).Flush() == Remotes(ds)
  {
    DevicesTaken(ds, blank);
    assert [] + Remotes(ds) == Remotes(ds);
  }

  /** A device that names neither bus nor name gets the defaults, and a lone id is no device. */
  lemma DefaultsFilledIn(x: U16, y: U16, blank: char -> bool)
    requires Sane(blank) && x != 0 && y != 0
    ensures Parse("vid=0x" + Hex4(x) + "," + ("pid=0x" + Hex4(y)), blank) == [Remote("USB Device", "1-1", x, y)]
    ensures Parse("vid=0x" + Hex4(x), blank) == [] && Parse("pid=0x" + Hex4(y), blank) == []
  {
    var vid, pid := "vid=0x" + Hex4(x), "pid=0x" + Hex4(y);
    IdTokensSplit(x, y);
    IdSteps(x, y, blank);
    FoldTwo(START, vid, pid, Stepper(blank));
    FoldLast(START, vid, Stepper(blank));
    FoldLast(START, pid, Stepper(blank));
  }

  lemma IdSteps(x: U16, y: U16, blank: char -> bool)
    requires Sane(blank)
    ensures var vid, pid, step := "vid=0x" + Hex4(x), "pid=0x" + Hex4(y), Stepper(blank);
            && step(START, vid) == State([], x, 0, "1-1", "USB Device")
            && step(START, pid) == State([], 0, y, "1-1", "USB Device")
            && step(step(START, vid), pid) == State([], x, y, "1-1", "USB Device")
  {
    var d := Device(x, y, "");
    VidStep(START, d, blank);
    PidStep(START, d, blank);
    PidStep(Step(START, Tokens(d)[0], blank), d, blank);
  }

  // ---- What the parser can return ----

  ghost predicate AllReturnable(rs: seq<Remote>, blank: char -> bool) {
    forall i :: 0 <= i < |rs| ==> rs[i].vid != 0 && rs[i].pid != 0 && Returnable(rs[i].busId, blank)
  }

  ghost predicate Sound(st: State, blank: char -> bool) {
    Returnable(st.bus, blank) && AllReturnable(st.list, blank)
  }

  lemma FlushSound(st: State, blank: char -> bool)
    requires Sound(st, blank)
    ensures AllReturnable(st.Flush(), blank)
  {
  }

  lemma ValueReturnable(token: string, blank: char -> bool)
    requires Sane(blank) && ',' !in token
    ensures Returnable(OrDefault(Value(token, blank), DEFAULT_BUS), blank)
  {
    assert IsHex('1');
    var parts := Split(token, '=');
    SplitAvoids(token, '=', '=');
    SplitAvoids(token, '=', ',');
    if |parts| >= 2 {
      TrimTight(parts[1], blank);
    }
  }

  lemma StepWithSound(st: State, k: string, v: Option<string>, id: int, blank: char -> bool)
    requires Sane(blank) && Sound(st, blank) && Returnable(OrDefault(v, DEFAULT_BUS), blank)
    ensures Sound(StepWith(st, k, v, id), blank)
  {
    assert IsHex('1');
    FlushSound(st, blank);
  }

  lemma StepSound(st: State, token: string, blank: char -> bool)
    requires Sane(blank) && Sound(st, blank) && ',' !in token
    ensures Sound(Step(st, token, blank), blank)
  {
    ValueReturnable(token, blank);
    var v := Value(token, blank);
    StepWithSound(st, Key(token, blank), v, IdValue(v, blank), blank);
  }

  /** On any input, the devices pushed have non-zero ids and a non-empty, trimmed bus id without ',' or '='. */
  lemma ParseSound(s: string, blank: char -> bool)
    requires Sane(blank)
    ensures AllReturnable(Parse(s, blank), blank)
  {
    SplitAvoids(s, ',', ',');
    assert IsHex('1');
    forall st: State, t: string | Sound(st, blank) && ',' !in t ensures Sound(Stepper(blank)(st, t), blank) {
      StepSound(st, t, blank);
    }
    FoldKeeps(START, Split(s, ','), Stepper(blank), st => Sound(st, blank), t => ',' !in t);
    FlushSound(Fold(START, Split(s, ','), Stepper(blank)), blank);
  }

  /**
    The parser returns every device, in order, if and only if no vid or pid is zero and every bus id
    is non-empty, free of ',' and '=', and without surrounding blanks.
   */
  lemma RoundTripIff(ds: seq<Device>, blank: char -> bool)
    requires Sane(blank) && ds != []
    ensures Parse(EncodeDevices(ds), blank) == Remotes(ds) <==>
            forall i :: 0 <= i < |ds| ==> DeviceReturnable(ds[i], blank)
  {
    ParseSound(EncodeDevices(ds), blank);
    if Parse(EncodeDevices(ds), blank) == Remotes(ds) {
      forall i | 0 <= i < |ds| ensures DeviceReturnable(ds[i], blank) {
        assert Remotes(ds)[i] == AsRemote(ds[i]);
      }
    }
    if forall i :: 0 <= i < |ds| ==> DeviceReturnable(ds[i], blank) {
      DevicesAreTokens(ds);
      TokensHoldNoComma(ds);
      SplitJoin(AllTokens(ds));
      DevicesFold(ds, blank);
    }
  }
}
