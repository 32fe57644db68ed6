/** The key-value branch of `parseDevices` (ServerDiscovery.kt:242-272) and its round trip with the printer. */
module TxtKotlin {
  import opened Bytes
  import opened Txt

  const I32_MAX := 0x7FFF_FFFF

  /** `String.toIntOrNull(radix)`: optional sign, digits only, and the result must fit an Int. */
  function ToIntOrNull(s: string, radix: nat): (n: Option<int>) {
    if s == "" || (s[0] < '0' && (|s| == 1 || (s[0] != '-' && s[0] != '+'))) then None else
    var negative := s[0] == '-';
    match Number(if s[0] < '0' then s[1..] else s, radix)
    case None => None
    case Some(m) =>
      if m > (if negative then I32_MAX + 1 else I32_MAX) then None else Some(if negative then 0 - m else m)
  }

  /** Digits with and without a sign, at both ends of the Int range. A sign alone is no number. */
  lemma SignedNumbers(digits: string, radix: nat)
    requires digits != "" && digits[0] >= '0' && Number(digits, radix).Some?
    ensures var m := Number(digits, radix).value;
            && ToIntOrNull(digits, radix) == (if m < 0x8000_0000 then Some(m) else None)
            && ToIntOrNull("+" + digits, radix) == (if m < 0x8000_0000 then Some(m) else None)
            && ToIntOrNull("-" + digits, radix) == if m <= 0x8000_0000 then Some(0 - m) else None
    ensures ToIntOrNull("-", radix) == ToIntOrNull("+", radix) == ToIntOrNull("", radix) == None
  {
    var m := Number(digits, radix).value;
    SignedDigits('+', digits, radix, m);
    SignedDigits('-', digits, radix, m);
    assert "+" + digits == ['+'] + digits && "-" + digits == ['-'] + digits;
  }

  lemma SignedDigits(sign: char, digits: string, radix: nat, m: nat)
    requires (sign == '+' || sign == '-') && digits != "" && Number(digits, radix) == Some(m)
    ensures ToIntOrNull([sign] + digits, radix) ==
            if sign == '+' then (if m < 0x8000_0000 then Some(m) else None)
            else if m <= 0x8000_0000 then Some(0 - m) else None
  {
    assert ([sign] + digits)[1..] == digits;
  }

  function RemovePrefix(s: string): (t: string) {
    if "0x" <= s then s[2..] else s
  }

  /** Hexadecimal first, decimal as a fallback. */
  function IdValue(v: string): (n: Option<int>) {
    var hex := ToIntOrNull(RemovePrefix(v), 16);
    if hex.Some? then hex else ToIntOrNull(v, 10)
  }

  /**
    An id without a prefix is read as hexadecimal even when all its digits are decimal. It is read as
    decimal only when its hexadecimal value does not fit an Int.
   */
  lemma HexBeforeDecimal(digits: string)
    requires digits != "" && digits[0] >= '0' && !("0x" <= digits)
    requires Number(digits, 16).Some? && Number(digits, 10).Some?
    ensures var h, m := Number(digits, 16).value, Number(digits, 10).value;
            && IdValue("0x" + digits) == (if h < 0x8000_0000 then Some(h) else None)
            && IdValue(digits) == if h < 0x8000_0000 then Some(h) else if m < 0x8000_0000 then Some(m) else None
  {
    SignedNumbers(digits, 16);
    SignedNumbers(digits, 10);
    assert ("0x" + digits)[2..] == digits;
    PrefixIsNoDecimal(digits);
  }

  /** "0x" is not the start of a decimal number. */
  lemma PrefixIsNoDecimal(t: string)
    ensures ToIntOrNull("0x" + t, 10) == None
  {
    NoNumber("0x" + t, 1, 10);
  }

  lemma {:induction false} NoNumber(s: string, i: nat, radix: nat)
    requires i < |s| && DigitOf(s[i], radix).None?
    ensures Number(s, radix) == None
    decreases |s|
  {
    if i < |s| - 1 {
      NoNumber(s[..|s| - 1], i, radix);
    }
  }

  /** `split("=", limit = 2)`: the key and everything after the first '='. */
  function KeyValue(s: string): (kv: Option<(string, string)>)
    ensures kv.Some? ==> s == kv.value.0 + "=" + kv.value.1
  {
    if s == "" then None
    else if s[0] == '=' then Some(("", s[1..]))
    else
      match KeyValue(s[1..])
      case None => None
      case Some((k, v)) => Some(([s[0]] + k, v))
  }

  lemma {:induction false} KeyValueOf(k: string, v: string)
    requires '=' !in k
    ensures KeyValue(k + "=" + v) == Some((k, v))
  {
    var s := k + "=" + v;
    if k == "" {
      assert s[1..] == v;
    } else {
      KeyValueOf(k[1..], v);
      assert s[1..] == k[1..] + "=" + v;
      assert [k[0]] + k[1..] == k;
    }
  }

  // ---- The loop over tokens ----

  datatype State = State(list: seq<Remote>, vid: Option<int>, pid: Option<int>, bus: string, name: string)
  {
    predicate Complete() {
      vid.Some? && pid.Some?
    }

    /** The list with the device under construction added, if it is complete. */
    function Flush(): (rs: seq<Remote>) {
      if Complete() then list + [Remote(name, bus, vid.value, pid.value)] else list
    }
  }

  const START := State([], None, None, DEFAULT_BUS, DEFAULT_NAME)

  /** What a pair does to the state; `id` is its value read as an id. */
  function StepWith(st: State, key: string, v: string, id: Option<int>): (st': State) {
    if key == "vid" then
      State(st.Flush(), id, st.pid,
            if st.Complete() then DEFAULT_BUS else st.bus, if st.Complete() then DEFAULT_NAME else st.name)
    else if key == "pid" then st.(pid := id)
    else if key == "bus" then st.(bus := v)
    else if key == "n" then st.(name := v)
    else st
  }

  function StepOf(st: State, key: string, v: string): (st': State) {
    StepWith(st, key, v, IdValue(v))
  }

  function Step(st: State, token: string, blank: char -> bool): (st': State) {
    match KeyValue(Trim(token, blank))
    case None => st
    case Some((key, v)) => StepOf(st, key, v)
  }

  function Stepper(blank: char -> bool): (step: (State, string) -> State) {
    (st: State, token: string) => Step(st, token, blank)
  }

  function Parse(s: string, blank: char -> bool): (rs: seq<Remote>) {
    Fold(START, Split(s, ','), Stepper(blank)).Flush()
  }

  method ParseDevices(devicesStr: string, blank: char -> bool) returns (list: seq<Remote>)
    ensures list == Parse(devicesStr, blank)
  {
    list := [];
    var tokens := Split(devicesStr, ',');
    var currentVid: Option<int>, currentPid: Option<int> := None, None;
    var currentBus, currentName := DEFAULT_BUS, DEFAULT_NAME;
    for i := 0 to |tokens|
      invariant Fold(START, tokens, Stepper(blank)) ==
                Fold(State(list, currentVid, currentPid, currentBus, currentName), tokens[i..], Stepper(blank))
    {
      ghost var before := State(list, currentVid, currentPid, currentBus, currentName);
      FoldNext(before, tokens, i, Stepper(blank));
      var pair := KeyValue(Trim(tokens[i], blank));
      if pair.Some? {
        var (key, v) := pair.value;
        if key == "vid" {
          if currentVid.Some? && currentPid.Some? {
            list := list + [Remote(currentName, currentBus, currentVid.value, currentPid.value)];
            currentBus := DEFAULT_BUS;
            currentName := DEFAULT_NAME;
          }
          currentVid := IdValue(v);
        } else if key == "pid" {
          currentPid := IdValue(v);
        } else if key == "bus" {
          currentBus := v;
        } else if key == "n" {
          currentName := v;
        }
        assert State(list, currentVid, currentPid, currentBus, currentName) == StepOf(before, key, v);
      }
    }
    if currentVid.Some? && currentPid.Some? {
      list := list + [Remote(currentName, currentBus, currentVid.value, currentPid.value)];
    }
  }

  // ---- Round trip ----

  /** No character the printer writes by itself counts as blank. */
  ghost predicate Sane(blank: char -> bool) {
    forall c :: IsHex(c) || c in {'v', 'p', 'n', '='} ==> !blank(c)
  }

  /** A bus id this parser can return. */
  ghost predicate Returnable(busid: string, blank: char -> bool) {
    ',' !in busid && (busid != "" ==> !blank(busid[|busid| - 1]))
  }

  lemma HexField(x: U16)
    ensures IdValue("0x" + Hex4(x)) == Some(x)
  {
    Hex4Denotes(x);
    var v := "0x" + Hex4(x);
    assert v[2..] == Hex4(x);
    assert Hex4(x)[0] in Hex4(x);
  }

  lemma TightToken(key: string, v: string, blank: char -> bool)
    requires key != "" && '=' !in key && !blank(key[0]) && !blank('=') && (v != "" ==> !blank(v[|v| - 1]))
    ensures KeyValue(Trim(key + "=" + v, blank)) == Some((key, v))
  {
    var t := key + "=" + v;
    assert t[0] == key[0] && t[|t| - 1] == (if v == "" then '=' else v[|v| - 1]);
    TrimTight(t, blank);
    KeyValueOf(key, v);
  }

  lemma HexEnds(s: string, x: U16, blank: char -> bool)
    requires Sane(blank)
    ensures !blank((s + Hex4(x))[|s| + 3])
  {
    Hex4Denotes(x);
    assert Hex4(x)[3] in Hex4(x);
  }

  // What each token of a device does to any state.

  lemma PairStep(st: State, token: string, key: string, v: string, blank: char -> bool)
    requires token == key + "=" + v
    requires key != "" && '=' !in key && !blank(key[0]) && !blank('=') && (v != "" ==> !blank(v[|v| - 1]))
    ensures Step(st, token, blank) == StepOf(st, key, v)
  {
    TightToken(key, v, blank);
  }

  /** The same for a key whose value is not read as an id. */
  lemma TextStep(st: State, token: string, key: string, v: string, blank: char -> bool) returns (id: Option<int>)
    requires token == key + "=" + v
    requires key != "" && '=' !in key && !blank(key[0]) && !blank('=') && (v != "" ==> !blank(v[|v| - 1]))
    ensures Step(st, token, blank) == StepWith(st, key, v, id)
  {
    PairStep(st, token, key, v, blank);
    id := IdValue(v);
  }

  lemma IdStep(st: State, token: string, key: string, x: U16, blank: char -> bool)
    requires Sane(blank) && token == key + "=" + ("0x" + Hex4(x)) && key != "" && '=' !in key && !blank(key[0])
    ensures Step(st, token, blank) == StepWith(st, key, "0x" + Hex4(x), Some(x))
  {
    HexEnds("0x", x, blank);
    HexField(x);
    PairStep(st, token, key, "0x" + Hex4(x), blank);
  }

  lemma VidStep(st: State, d: Device, blank: char -> bool)
    requires Sane(blank)
    ensures Step(st, Tokens(d)[0], blank) ==
            State(st.Flush(), Some(d.vid), st.pid,
                  if st.Complete() then DEFAULT_BUS else st.bus, if st.Complete() then DEFAULT_NAME else st.name)
  {
    TokensAsPairs(d);
    IdStep(st, Tokens(d)[0], "vid", d.vid, blank);
  }

  lemma PidStep(st: State, d: Device, blank: char -> bool)
    requires Sane(blank)
    ensures Step(st, Tokens(d)[1], blank) == st.(pid := Some(d.pid))
  {
    TokensAsPairs(d);
    IdStep(st, Tokens(d)[1], "pid", d.pid, blank);
  }

  lemma StepWithBus(st: State, v: string, id: Option<int>)
    ensures StepWith(st, "bus", v, id) == st.(bus := v)
  {
  }

  /** The token of a bus id. */
  lemma BusToken(st: State, token: string, busid: string, blank: char -> bool)
    requires token == "bus" + "=" + busid && Sane(blank) && Returnable(busid, blank)
    ensures Step(st, token, blank) == st.(bus := busid)
  {
    assert IsHex('b');
    var id := TextStep(st, token, "bus", busid, blank);
    StepWithBus(st, busid, id);
  }

  lemma BusStep(st: State, d: Device, blank: char -> bool)
    requires Sane(blank) && Returnable(d.busid, blank)
    ensures Step(st, Tokens(d)[2], blank) == st.(bus := d.busid)
  {
    TokensAsPairs(d);
    BusToken(st, Tokens(d)[2], d.busid, blank);
  }

  lemma NameStep(st: State, d: Device, blank: char -> bool)
    requires Sane(blank)
    ensures Step(st, Tokens(d)[3], blank) == st.(name := NameOf(d))
  {
    HexEnds(Hex4(d.vid) + ":", d.pid, blank);
    TokensAsPairs(d);
    var id := TextStep(st, Tokens(d)[3], "n", NameOf(d), blank);
  }

  /** The state after the four tokens of a device. */
  function AfterDevice(st: State, d: Device): (st': State) {
    State(st.Flush(), Some(d.vid), Some(d.pid), d.busid, NameOf(d))
  }

  lemma DeviceSteps(st: State, d: Device, rest: seq<string>, blank: char -> bool)
    requires Sane(blank) && Returnable(d.busid, blank)
    ensures Fold(st, Tokens(d) + rest, Stepper(blank)) == Fold(AfterDevice(st, d), rest, Stepper(blank))
  {
    var ts := Tokens(d);
    FoldFour(st, ts, rest, Stepper(blank));
    VidStep(st, d, blank);
    var s1 := Step(st, ts[0], blank);
    PidStep(s1, d, blank);
    var s2 := Step(s1, ts[1], blank);
    BusStep(s2, d, blank);
    var s3 := Step(s2, ts[2], blank);
    NameStep(s3, d, blank);
  }

  function AfterEach(): (after: (State, Device) -> State) {
    (st: State, d: Device) => AfterDevice(st, d)
  }

  function Flusher(): (flush: State -> seq<Remote>) {
    (st: State) => st.Flush()
  }

  ghost function Accepts(blank: char -> bool): (ok: Device -> bool) {
    (d: Device) => Returnable(d.busid, blank)
  }

  lemma TakesEach(blank: char -> bool)
    requires Sane(blank)
    ensures TakesDevices(Stepper(blank), AfterEach(), Accepts(blank))
  {
    forall st: State, d: Device, rest: seq<string> | Accepts(blank)(d)
      ensures Fold(st, Tokens(d) + rest, Stepper(blank)) == Fold(AfterEach()(st, d), rest, Stepper(blank))
    {
      DeviceSteps(st, d, rest, blank);
    }
  }

  lemma AddsEach(blank: char -> bool)
    ensures AddsDevices(Flusher(), AfterEach(), Accepts(blank))
  {
  }

  lemma DevicesTaken(ds: seq<Device>, blank: char -> bool)
    requires Sane(blank) && forall i :: 0 <= i < |ds| ==> Accepts(blank)(ds[i])
    ensures Flusher()(Fold(START, AllTokens(ds), Stepper(blank))) == Flusher()(START) + Remotes(ds)
  {
    TakesEach(blank);
    AddsEach(blank);
    FoldDevices(START, ds, Stepper(blank), Flusher(), AfterEach(), Accepts(blank));
  }

  lemma DevicesFold(ds: seq<Device>, blank: char -> bool)
    requires Sane(blank) && forall i :: 0 <= i < |ds| ==> Returnable(ds[i].busid, blank)
    ensures Fold(START, AllTokens(ds), Stepper(blank)).Flush() == Remotes(ds)
  {
    DevicesTaken(ds, blank);
    assert [] + Remotes(ds) == Remotes(ds);
  }

  /** A device that names neither bus nor name gets the defaults, and a lone id is no device. */
  lemma DefaultsFilledIn(x: U16, y: U16, blank: char -> bool)
    requires Sane(blank)
    ensures Parse("vid=0x" + Hex4(x) + "," + ("pid=0x" + Hex4(y)), blank) == [Remote("USB Device", "1-1", x, y)]
    ensures Parse("vid=0x" + Hex4(x), blank) == [] && Parse("pid=0x" + Hex4(y), blank) == []
  {
    var vid, pid := "vid=0x" + Hex4(x), "pid=0x" + Hex4(y);
    IdTokensSplit(x, y);
    IdSteps(x, y, blank);
    FoldTwo(START, vid, pid, Stepper(blank));
    FoldLast(START, vid, Stepper(blank));
    FoldLast(START, pid, Stepper(blank));
  }

  lemma IdSteps(x: U16, y: U16, blank: char -> bool)
    requires Sane(blank)
    ensures var vid, pid, step := "vid=0x" + Hex4(x), "pid=0x" + Hex4(y), Stepper(blank);
            && step(START, vid) == State([], Some(x), None, "1-1", "USB Device")
            && step(START, pid) == State([], None, Some(y), "1-1", "USB Device")
            && step(step(START, vid), pid) == State([], Some(x), Some(y), "1-1", "USB Device")
  {
    var d := Device(x, y, "");
    VidStep(START, d, blank);
    PidStep(START, d, blank);
    PidStep(Step(START, Tokens(d)[0], blank), d, blank);
  }

  // ---- What the parser can return ----

  ghost predicate AllReturnable(rs: seq<Remote>, blank: char -> bool) {
    forall i :: 0 <= i < |rs| ==> Returnable(rs[i].busId, blank)
  }

  ghost predicate Sound(st: State, blank: char -> bool) {
    Returnable(st.bus, blank) && AllReturnable(st.list, blank)
  }

  lemma FlushSound(st: State, blank: char -> bool)
    requires Sound(st, blank)
    ensures AllReturnable(st.Flush(), blank)
  {
  }

  /** The value part of a trimmed token. */
  lemma ValueReturnable(token: string, blank: char -> bool)
    requires ',' !in token && KeyValue(Trim(token, blank)).Some?
    ensures Returnable(KeyValue(Trim(token, blank)).value.1, blank)
  {
    var t := Trim(token, blank);
    TrimTight(token, blank);
    var (k, v) := KeyValue(t).value;
    assert forall c :: c in v ==> c in k + "=" + v;
    if v != "" {
      assert (k + "=" + v)[|t| - 1] == v[|v| - 1];
    }
  }

  lemma StepWithSound(st: State, key: string, v: string, id: Option<int>, blank: char -> bool)
    requires Sane(blank) && Sound(st, blank) && Returnable(v, blank)
    ensures Sound(StepWith(st, key, v, id), blank)
  {
    assert IsHex('1');
    FlushSound(st, blank);
  }

  lemma StepSound(st: State, token: string, blank: char -> bool)
    requires Sane(blank) && Sound(st, blank) && ',' !in token
    ensures Sound(Step(st, token, blank), blank)
  {
    var pair := KeyValue(Trim(token, blank));
    if pair.Some? {
      ValueReturnable(token, blank);
      StepWithSound(st, pair.value.0, pair.value.1, IdValue(pair.value.1), blank);
    }
  }

  /** On any input at all, no returned bus id holds a comma or ends in a blank. */
  lemma ParseSound(s: string, blank: char -> bool)
    requires Sane(blank)
    ensures AllReturnable(Parse(s, blank), blank)
  {
    SplitAvoids(s, ',', ',');
    assert IsHex('1');
    forall st: State, t: string | Sound(st, blank) && ',' !in t ensures Sound(Stepper(blank)(st, t), blank) {
      StepSound(st, t, blank);
    }
    FoldKeeps(START, Split(s, ','), Stepper(blank), st => Sound(st, blank), t => ',' !in t);
    FlushSound(Fold(START, Split(s, ','), Stepper(blank)), blank);
  }

  /**
    The parser returns vid, pid, bus id and name of every device, in order, if and only if no bus
    id holds a comma or ends in a blank. Leading blanks, '=' and empty bus ids survive.
   */
  lemma RoundTripIff(ds: seq<Device>, blank: char -> bool)
    requires Sane(blank) && ds != []
    ensures Parse(EncodeDevices(ds), blank) == Remotes(ds) <==>
            forall i :: 0 <= i < |ds| ==> Returnable(ds[i].busid, blank)
  {
    ParseSound(EncodeDevices(ds), blank);
    if Parse(EncodeDevices(ds), blank) == Remotes(ds) {
      forall i | 0 <= i < |ds| ensures Returnable(ds[i].busid, blank) {
        assert Remotes(ds)[i].busId == ds[i].busid;
      }
    }
    if forall i :: 0 <= i < |ds| ==> Returnable(ds[i].busid, blank) {
      DevicesAreTokens(ds);
      TokensHoldNoComma(ds);
      SplitJoin(AllTokens(ds));
      DevicesFold(ds, blank);
    }
  }
}
