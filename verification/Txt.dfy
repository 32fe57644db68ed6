/**
  The `devices` TXT value of the mDNS advertisement: the printer (discovery.rs, `encode_devices_txt`)
  and the key-value branches of its two parsers, the Kotlin one of the Android client
  (ServerDiscovery.kt, `parseDevices`) and the TypeScript one of the web UI (api.ts, `scanServers`).
  Which characters count as blank differs between the two languages, so it is a parameter.
 */
module Txt {
  import opened Bytes

  datatype Device = Device(vid: U16, pid: U16, busid: string)
  datatype Remote = Remote(name: string, busId: string, vid: int, pid: int)

  // What both parsers fill in for a device that names neither.
  const DEFAULT_BUS := "1-1"
  const DEFAULT_NAME := "USB Device"

  // ---- Strings ----

  function Join(ts: seq<string>): (s: string) {
    if ts == [] then "" else if |ts| == 1 then ts[0] else ts[0] + "," + Join(ts[1..])
  }

  function Split(s: string, sep: char): (ts: seq<string>)
    ensures |ts| >= 1
  {
    if s == "" then [""]
    else if s[0] == sep then [""] + Split(s[1..], sep)
    else var rest := Split(s[1..], sep); [[s[0]] + rest[0]] + rest[1..]
  }

  lemma {:induction false} SplitOne(t: string, sep: char)
    requires sep !in t
    ensures Split(t, sep) == [t]
  {
    if t != "" {
      SplitOne(t[1..], sep);
      assert [t[0]] + t[1..] == t;
    }
  }

  lemma {:induction false} SplitFirst(t: string, rest: string, sep: char)
    requires sep !in t
    ensures Split(t + [sep] + rest, sep) == [t] + Split(rest, sep)
  {
    var s := t + [sep] + rest;
    if t == "" {
      assert s[0] == sep && s[1..] == rest;
    } else {
      SplitFirst(t[1..], rest, sep);
      assert s[1..] == t[1..] + [sep] + rest;
      assert [t[0]] + t[1..] == t;
      assert ([t[1..]] + Split(rest, sep))[1..] == Split(rest, sep);
    }
  }

  lemma {:induction false} SplitJoin(ts: seq<string>)
    requires ts != [] && forall i :: 0 <= i < |ts| ==> ',' !in ts[i]
    ensures Split(Join(ts), ',') == ts
  {
    if |ts| == 1 {
      SplitOne(ts[0], ',');
    } else {
      SplitJoin(ts[1..]);
      SplitFirst(ts[0], Join(ts[1..]), ',');
      assert [ts[0]] + ts[1..] == ts;
    }
  }

  lemma {:induction false} JoinAppend(a: seq<string>, b: seq<string>)
    requires a != [] && b != []
    ensures Join(a + b) == Join(a) + "," + Join(b)
  {
    if |a| == 1 {
      assert (a + b)[1..] == b;
    } else {
      JoinAppend(a[1..], b);
      assert (a + b)[1..] == a[1..] + b;
    }
  }

  /** Pieces hold no separator, and no other character that the string does not hold. */
  lemma {:induction false} SplitAvoids(s: string, sep: char, x: char)
    requires x == sep || x !in s
    ensures forall i :: 0 <= i < |Split(s, sep)| ==> x !in Split(s, sep)[i]
  {
    if s != "" {
      SplitAvoids(s[1..], sep, x);
    }
  }

  function TrimStart(s: string, blank: char -> bool): (t: string)
    ensures t == "" || !blank(t[0])
    ensures |t| <= |s| && t == s[|s| - |t|..]
  {
    if s != "" && blank(s[0]) then TrimStart(s[1..], blank) else s
  }

  function TrimEnd(s: string, blank: char -> bool): (t: string)
    ensures t == "" || !blank(t[|t| - 1])
    ensures |t| <= |s| && t == s[..|t|]
  {
    if s != "" && blank(s[|s| - 1]) then TrimEnd(s[..|s| - 1], blank) else s
  }

  function Trim(s: string, blank: char -> bool): (t: string) {
    TrimEnd(TrimStart(s, blank), blank)
  }

  /** Nothing to trim at the ends. */
  predicate Tight(s: string, blank: char -> bool) {
    s != "" ==> !blank(s[0]) && !blank(s[|s| - 1])
  }

  lemma TrimTight(s: string, blank: char -> bool)
    ensures Tight(s, blank) ==> Trim(s, blank) == s
    ensures Tight(Trim(s, blank), blank)
    ensures forall c :: c in Trim(s, blank) ==> c in s
  {
    var t := TrimStart(s, blank);
    assert forall c :: c in TrimEnd(t, blank) ==> c in t;
    assert forall c :: c in t ==> c in s;
  }

  // ---- Numbers ----

  function HexDigit(d: nat): (c: char)
    requires d < 16
  {
    if d < 10 then ('0' as int + d) as char else ('a' as int + d - 10) as char
  }

  function Hex4(x: U16): (s: string)
    ensures |s| == 4
  {
    [HexDigit(x / 0x1000), HexDigit(x / 0x100 % 0x10), HexDigit(x / 0x10 % 0x10), HexDigit(x % 0x10)]
  }

  /** The value of a digit in a radix of at most 16. */
  function DigitOf(c: char, radix: nat): (d: Option<nat>) {
    var v := if '0' <= c <= '9' then c as int - '0' as int
             else if 'a' <= c <= 'f' then c as int - 'a' as int + 10
             else if 'A' <= c <= 'F' then c as int - 'A' as int + 10
             else 99;
    if v < radix then Some(v) else None
  }

  predicate IsHex(c: char) {
    DigitOf(c, 16).Some?
  }

  /** The printer writes lower-case digits; both cases are read. */
  lemma HexDigits(d: nat)
    requires d < 16
    ensures HexDigit(d) == "0123456789abcdef"[d] && DigitOf(HexDigit(d), 16) == Some(d)
    ensures DigitOf("0123456789ABCDEF"[d], 16) == Some(d)
  {
  }

  /** No other character is a digit. */
  lemma OnlyDigits(c: char)
    ensures IsHex(c) <==> '0' <= c <= '9' || 'a' <= c <= 'f' || 'A' <= c <= 'F'
    ensures DigitOf(c, 10) == if '0' <= c <= '9' then DigitOf(c, 16) else None
  {
  }

  /** The number a digit string denotes, or nothing when some character is not a digit. */
  function Number(s: string, radix: nat): (n: Option<nat>)
    decreases |s|
  {
    if s == "" then Some(0) else
    var high, low := Number(s[..|s| - 1], radix), DigitOf(s[|s| - 1], radix);
    if high.None? || low.None? then None else Some(high.value * radix + low.value)
  }

  lemma FourDigits(a: nat, b: nat, c: nat, d: nat)
    requires a < 16 && b < 16 && c < 16 && d < 16
    ensures Number([HexDigit(a), HexDigit(b), HexDigit(c), HexDigit(d)], 16) == Some(((a * 16 + b) * 16 + c) * 16 + d)
  {
    var p, q, r, s := HexDigit(a), HexDigit(b), HexDigit(c), HexDigit(d);
    NumberSnoc("", p, 16);
    assert "" + [p] == [p];
    NumberSnoc([p], q, 16);
    assert [p] + [q] == [p, q];
    NumberSnoc([p, q], r, 16);
    assert [p, q] + [r] == [p, q, r];
    NumberSnoc([p, q, r], s, 16);
    assert [p, q, r] + [s] == [p, q, r, s];
  }

  lemma Hex4Denotes(x: U16)
    ensures Number(Hex4(x), 16) == Some(x)
    ensures forall c :: c in Hex4(x) ==> IsHex(c)
  {
    FourDigits(x / 0x1000, x / 0x100 % 0x10, x / 0x10 % 0x10, x % 0x10);
    HexValue(x);
  }

  lemma HexValue(x: U16)
    ensures ((x / 0x1000 * 16 + x / 0x100 % 0x10) * 16 + x / 0x10 % 0x10) * 16 + x % 0x10 == x
  {
    assert x / 0x100 == x / 0x1000 * 16 + x / 0x100 % 0x10;
    assert x / 0x10 == x / 0x100 * 16 + x / 0x10 % 0x10;
  }

  lemma NumberSnoc(s: string, c: char, radix: nat)
    requires Number(s, radix).Some? && DigitOf(c, radix).Some?
    ensures Number(s + [c], radix) == Some(Number(s, radix).value * radix + DigitOf(c, radix).value)
  {
    assert (s + [c])[..|s|] == s;
  }

  // ---- The printer ----

  function NameOf(d: Device): (s: string) {
    Hex4(d.vid) + ":" + Hex4(d.pid)
  }

  function Tokens(d: Device): (ts: seq<string>)
    ensures |ts| == 4
  {
    ["vid=0x" + Hex4(d.vid), "pid=0x" + Hex4(d.pid), "bus=" + d.busid, "n=" + NameOf(d)]
  }

  function AllTokens(ds: seq<Device>): (ts: seq<string>) {
    if ds == [] then [] else Tokens(ds[0]) + AllTokens(ds[1..])
  }

  /** One device: `vid=0xVVVV,pid=0xPPPP,bus=B,n=VVVV:PPPP`. */
  function EncodeDevice(d: Device): (s: string) {
    "vid=0x" + Hex4(d.vid) + ",pid=0x" + Hex4(d.pid) + ",bus=" + d.busid + ",n=" + Hex4(d.vid) + ":" + Hex4(d.pid)
  }

  function EncodeEach(ds: seq<Device>): (ss: seq<string>)
    ensures |ss| == |ds|
  {
    seq(|ds|, i requires 0 <= i < |ds| => EncodeDevice(ds[i]))
  }

  /** `encode_devices_txt`. */
  function EncodeDevices(ds: seq<Device>): (s: string) {
    Join(EncodeEach(ds))
  }

  lemma DeviceIsTokens(d: Device)
    ensures EncodeDevice(d) == Join(Tokens(d))
  {
    var ts := Tokens(d);
    assert Join(ts[1..][1..][1..]) == ts[3];
    assert Join(ts[1..][1..]) == ts[2] + "," + ts[3];
    assert Join(ts[1..]) == ts[1] + "," + (ts[2] + "," + ts[3]);
    assert Join(ts) == ts[0] + "," + (ts[1] + "," + (ts[2] + "," + ts[3]));
  }

  /** A device list is one flat list of tokens joined by commas. */
  lemma {:induction false} DevicesAreTokens(ds: seq<Device>)
    requires ds != []
    ensures EncodeDevices(ds) == Join(AllTokens(ds))
  {
    DeviceIsTokens(ds[0]);
    if |ds| == 1 {
      assert ds[1..] == [] && Tokens(ds[0]) + [] == Tokens(ds[0]);
      assert EncodeEach(ds) == [EncodeDevice(ds[0])];
    } else {
      DevicesAreTokens(ds[1..]);
      assert EncodeEach(ds)[1..] == EncodeEach(ds[1..]);
      JoinAppend(Tokens(ds[0]), AllTokens(ds[1..]));
    }
  }

  /** A device as a parser should return it. */
  function AsRemote(d: Device): (r: Remote) {
    Remote(NameOf(d), d.busid, d.vid, d.pid)
  }

  function Remotes(ds: seq<Device>): (rs: seq<Remote>)
    ensures |rs| == |ds|
  {
    seq(|ds|, i requires 0 <= i < |ds| => AsRemote(ds[i]))
  }

  lemma RemotesCons(ds: seq<Device>)
    requires ds != []
    ensures Remotes(ds) == [AsRemote(ds[0])] + Remotes(ds[1..])
  {
  }

  lemma {:induction false} TokensHoldNoComma(ds: seq<Device>)
    requires forall i :: 0 <= i < |ds| ==> ',' !in ds[i].busid
    ensures forall i :: 0 <= i < |AllTokens(ds)| ==> ',' !in AllTokens(ds)[i]
  {
    if ds != [] {
      Hex4Denotes(ds[0].vid);
      Hex4Denotes(ds[0].pid);
      TokensHoldNoComma(ds[1..]);
    }
  }

  lemma IdText(key: string, h: string)
    ensures key + "=0x" + h == key + "=" + ("0x" + h)
  {
  }

  /** The tokens of a device as key, '=' and value. */
  lemma TokensAsPairs(d: Device)
    ensures Tokens(d)[0] == "vid" + "=" + ("0x" + Hex4(d.vid))
    ensures Tokens(d)[1] == "pid" + "=" + ("0x" + Hex4(d.pid))
    ensures Tokens(d)[2] == "bus" + "=" + d.busid
    ensures Tokens(d)[3] == "n" + "=" + NameOf(d)
  {
    IdText("vid", Hex4(d.vid));
    IdText("pid", Hex4(d.pid));
    assert "vid" + "=0x" == "vid=0x" && "pid" + "=0x" == "pid=0x";
    assert "bus" + "=" == "bus=" && "n" + "=" == "n=";
  }

  /** The id tokens of a device, alone and joined, split into themselves. */
  lemma IdTokensSplit(x: U16, y: U16)
    ensures var vid, pid := "vid=0x" + Hex4(x), "pid=0x" + Hex4(y);
            Split(vid + "," + pid, ',') == [vid, pid] && Split(vid, ',') == [vid] && Split(pid, ',') == [pid]
  {
    var vid, pid := "vid=0x" + Hex4(x), "pid=0x" + Hex4(y);
    Hex4Denotes(x);
    Hex4Denotes(y);
    assert "," == [','];
    SplitOne(vid, ',');
    SplitOne(pid, ',');
    SplitFirst(vid, pid, ',');
  }

  // ---- Token loops ----

  /** A loop over the tokens, as both parsers write it. */
  function Fold<S>(st: S, tokens: seq<string>, step: (S, string) -> S): (st': S)
    decreases |tokens|
  {
    if tokens == [] then st else Fold(step(st, tokens[0]), tokens[1..], step)
  }

  /** What every step keeps, the loop keeps. */
  lemma {:induction false} FoldKeeps<S(!new)>(st: S, tokens: seq<string>, step: (S, string) -> S,
                                              good: S -> bool, allowed: string -> bool)
    requires good(st) && forall i :: 0 <= i < |tokens| ==> allowed(tokens[i])
    requires forall s: S, t: string :: good(s) && allowed(t) ==> good(step(s, t))
    ensures good(Fold(st, tokens, step))
    decreases |tokens|
  {
    if tokens != [] {
      FoldKeeps(step(st, tokens[0]), tokens[1..], step, good, allowed);
    }
  }

  lemma FoldOne<S>(st: S, t: string, rest: seq<string>, step: (S, string) -> S)
    ensures Fold(st, [t] + rest, step) == Fold(step(st, t), rest, step)
  {
    assert ([t] + rest)[0] == t && ([t] + rest)[1..] == rest;
  }

  lemma FoldLast<S>(st: S, t: string, step: (S, string) -> S)
    ensures Fold(st, [t], step) == step(st, t)
  {
    assert [t] == [t] + [];
    FoldOne(st, t, [], step);
  }

  lemma FoldTwo<S>(st: S, t: string, u: string, step: (S, string) -> S)
    ensures Fold(st, [t, u], step) == step(step(st, t), u)
  {
    assert [t, u] == [t] + [u];
    FoldOne(st, t, [u], step);
    FoldLast(step(st, t), u, step);
  }

  /** One turn of the loop. */
  lemma FoldNext<S>(st: S, tokens: seq<string>, i: nat, step: (S, string) -> S)
    requires i < |tokens|
    ensures Fold(st, tokens[i..], step) == Fold(step(st, tokens[i]), tokens[i + 1..], step)
  {
    assert tokens[i..] == [tokens[i]] + tokens[i + 1..];
    FoldOne(st, tokens[i], tokens[i + 1..], step);
  }

  /** The four tokens of a device are four steps. */
  lemma FoldFour<S>(st: S, ts: seq<string>, rest: seq<string>, step: (S, string) -> S)
    requires |ts| == 4
    ensures Fold(st, ts + rest, step) == Fold(step(step(step(step(st, ts[0]), ts[1]), ts[2]), ts[3]), rest, step)
  {
    var r3 := [ts[3]] + rest;
    var r2 := [ts[2]] + r3;
    var r1 := [ts[1]] + r2;
    assert ts + rest == [ts[0]] + r1;
    var s1 := step(st, ts[0]);
    var s2 := step(s1, ts[1]);
    var s3 := step(s2, ts[2]);
    FoldOne(st, ts[0], r1, step);
    FoldOne(s1, ts[1], r2, step);
    FoldOne(s2, ts[2], r3, step);
    FoldOne(s3, ts[3], rest, step);
  }

  /** The tokens of an acceptable device take the loop from one state to another, whatever follows them. */
  ghost predicate TakesDevices<S(!new)>(step: (S, string) -> S, after: (S, Device) -> S, ok: Device -> bool) {
    forall st: S, d: Device, rest: seq<string> ::
      ok(d) ==> Fold(st, Tokens(d) + rest, step) == Fold(after(st, d), rest, step)
  }

  /** Such a state holds one device more. */
  ghost predicate AddsDevices<S(!new)>(flush: S -> seq<Remote>, after: (S, Device) -> S, ok: Device -> bool) {
    forall st: S, d: Device :: ok(d) ==> flush(after(st, d)) == flush(st) + [AsRemote(d)]
  }

  /** A loop that takes devices one by one returns them all, in order. */
  lemma {:induction false} FoldDevices<S(!new)>(st: S, ds: seq<Device>, step: (S, string) -> S, flush: S -> seq<Remote>,
                                                after: (S, Device) -> S, ok: Device -> bool)
    requires TakesDevices(step, after, ok) && AddsDevices(flush, after, ok) && forall i :: 0 <= i < |ds| ==> ok(ds[i])
    ensures flush(Fold(st, AllTokens(ds), step)) == flush(st) + Remotes(ds)
    decreases |ds|
  {
    if ds == [] {
      assert flush(st) + Remotes(ds) == flush(st);
    } else {
      var d, rest := ds[0], ds[1..];
      assert Fold(st, Tokens(d) + AllTokens(rest), step) == Fold(after(st, d), AllTokens(rest), step);
      FoldDevices(after(st, d), rest, step, flush, after, ok);
      RemotesCons(ds);
      Associative(flush(st), [AsRemote(d)], Remotes(rest));
    }
  }
}
