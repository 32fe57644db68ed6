/**
  `parse_descriptor_tree` and `serialize_descriptor_tree` (descriptor.rs:317-411). Besides a
  tree and `None`, the parser has two other ends on malformed input, and both are modelled:
  an index outside the buffer, which panics, and a configuration of total length zero, on
  which the outer loop repeats forever. `b_num_endpoints + 1` is the wrapping addition of a
  release build.
 */
module DescriptorTree {
  import opened Bytes
  import opened Descriptor

  datatype ParseResult =
    | Parsed(info: DeviceInfo)
    | Rejected    // `None`
    | OutOfRange  // index or slice outside the buffer: panic
    | NoProgress  // the outer loop repeats with the same offset

  /** How many endpoint and HID descriptors the parser takes after an interface. */
  function Slots(i: InterfaceDescriptor): (n: nat) {
    (i.numEndpoints + 1) % 0x100
  }

  // ---- The parser, loop by loop ----

  datatype Items = Items(next: nat, endpoints: seq<EndpointDescriptor>, hid: Option<HidDescriptor>) | ItemsOutOfRange

  /** The `for` loop over the endpoint and HID descriptors of one interface. */
  function ParseItems(raw: seq<Byte>, offset: nat, end: nat, slots: nat,
                      endpoints: seq<EndpointDescriptor>, hid: Option<HidDescriptor>): (r: Items)
    ensures r.Items? ==> r.next >= offset
    decreases slots
  {
    if slots == 0 || offset + 2 > end then Items(offset, endpoints, hid)
    else if offset + 1 >= |raw| then ItemsOutOfRange
    else if raw[offset + 1] == ENDPOINT_TYPE && offset + 7 <= |raw| then
      ParseItems(raw, offset + 7, end, slots - 1, endpoints + [ReadEndpoint(raw, offset)], hid)
    else if raw[offset + 1] == HID_TYPE && offset + 9 <= |raw| then
      ParseItems(raw, offset + 9, end, slots - 1, endpoints, Some(ReadHid(raw, offset)))
    else Items(offset, endpoints, hid)
  }

  datatype Interfaces = Interfaces(list: seq<InterfaceInfo>) | InterfaceRejected | InterfaceOutOfRange

  function Prepend(before: seq<InterfaceInfo>, r: Interfaces): (r': Interfaces) {
    match r
    case Interfaces(list) => Interfaces(before + list)
    case _ => r
  }

  /** The `while` loop over the interfaces of one configuration. */
  function ParseInterfaces(raw: seq<Byte>, offset: nat, end: nat): (r: Interfaces)
    decreases end - offset
  {
    if offset + 9 > end then Interfaces([])
    else if offset > |raw| then InterfaceOutOfRange
    else if offset + 9 > |raw| || raw[offset + 1] != INTERFACE_TYPE then InterfaceRejected
    else
      var iface := ReadInterface(raw, offset);
      match ParseItems(raw, offset + 9, end, Slots(iface), [], None)
      case ItemsOutOfRange => InterfaceOutOfRange
      case Items(next, endpoints, hid) =>
        Prepend([InterfaceInfo(iface, endpoints, hid)],
                if next >= end then Interfaces([]) else ParseInterfaces(raw, next, end))
  }

  datatype Iteration = Continue(offset: nat, configs: seq<ConfigInfo>) | Finish(result: ParseResult)

  /** One iteration of the outer `while` loop. */
  function Iterate(raw: seq<Byte>, offset: nat, configs: seq<ConfigInfo>): (r: Iteration)
    requires 18 <= |raw|
  {
    if offset >= |raw| then Finish(Parsed(DeviceInfo(ReadDevice(raw), configs)))
    else if offset + 1 >= |raw| then Finish(OutOfRange)
    else if raw[offset + 1] == CONFIG_TYPE then
      if offset + 9 > |raw| then Finish(Rejected) else
      var config := ReadConfig(raw, offset);
      var end := offset + if config.totalLength < |raw| then config.totalLength else |raw|;
      match ParseInterfaces(raw, offset + 9, end)
      case InterfaceRejected => Finish(Rejected)
      case InterfaceOutOfRange => Finish(OutOfRange)
      case Interfaces(list) => Continue(end, configs + [ConfigInfo(config, list)])
    else if raw[offset] == 0 || offset + raw[offset] > |raw| then
      Finish(Parsed(DeviceInfo(ReadDevice(raw), configs)))
    else Continue(offset + raw[offset], configs)
  }

  function ParseFrom(raw: seq<Byte>, offset: nat, configs: seq<ConfigInfo>): (r: ParseResult)
    requires 18 <= |raw|
    decreases if offset < |raw| then |raw| - offset else 0
  {
    match Iterate(raw, offset, configs)
    case Finish(r) => r
    case Continue(next, longer) => if next <= offset then NoProgress else ParseFrom(raw, next, longer)
  }

  function ParseTree(raw: seq<Byte>): (r: ParseResult) {
    if |raw| < 18 then Rejected else ParseFrom(raw, 18, [])
  }

  // ---- The same parser as the source writes it: three nested loops over offsets ----

  method ScanItems(raw: seq<Byte>, start: nat, end: nat, slots: nat) returns (r: Items)
    ensures r == ParseItems(raw, start, end, slots, [], None)
  {
    var offset: nat, endpoints, hid := start, [], None;
    var k := 0;
    while k < slots
      invariant k <= slots
      invariant ParseItems(raw, start, end, slots, [], None) == ParseItems(raw, offset, end, slots - k, endpoints, hid)
    {
      if offset + 2 > end { break; }
      if offset + 1 >= |raw| { return ItemsOutOfRange; }
      var subType := raw[offset + 1];
      if subType == ENDPOINT_TYPE && offset + 7 <= |raw| {
        endpoints := endpoints + [ReadEndpoint(raw, offset)];
        offset := offset + 7;
      } else if subType == HID_TYPE && offset + 9 <= |raw| {
        hid := Some(ReadHid(raw, offset));
        offset := offset + 9;
      } else {
        break;
      }
      k := k + 1;
    }
    r := Items(offset, endpoints, hid);
  }

  lemma PrependTwice(a: seq<InterfaceInfo>, b: seq<InterfaceInfo>, r: Interfaces)
    ensures Prepend(a, Prepend(b, r)) == Prepend(a + b, r)
  {
    if r.Interfaces? {
      Associative(a, b, r.list);
    }
  }

  method ScanInterfaces(raw: seq<Byte>, start: nat, end: nat) returns (r: Interfaces)
    ensures r == ParseInterfaces(raw, start, end)
  {
    var offset: nat, list: seq<InterfaceInfo> := start, [];
    ghost var whole := ParseInterfaces(raw, start, end);
    assert whole.Interfaces? ==> list + whole.list == whole.list;
    while offset + 9 <= end
      invariant whole == Prepend(list, ParseInterfaces(raw, offset, end))
      decreases end - offset
    {
      if offset > |raw| { return InterfaceOutOfRange; }
      if offset + 9 > |raw| || raw[offset + 1] != INTERFACE_TYPE { return InterfaceRejected; }
      var iface := ReadInterface(raw, offset);
      var items := ScanItems(raw, offset + 9, end, Slots(iface));
      if items.ItemsOutOfRange? { return InterfaceOutOfRange; }
      var found := [InterfaceInfo(iface, items.endpoints, items.hid)];
      PrependTwice(list, found, if items.next >= end then Interfaces([]) else ParseInterfaces(raw, items.next, end));
      list := list + found;
      offset := items.next;
      if offset >= end { break; }
    }
    r := Interfaces(list);
    assert list + [] == list;
  }

  /** The body of the outer loop. */
  method IterateOnce(raw: seq<Byte>, offset: nat, configs: seq<ConfigInfo>) returns (r: Iteration)
    requires 18 <= |raw| && offset < |raw|
    ensures r == Iterate(raw, offset, configs)
  {
    if offset + 1 >= |raw| { return Finish(OutOfRange); }
    var length := raw[offset];
    if raw[offset + 1] == CONFIG_TYPE {
      if offset + 9 > |raw| { return Finish(Rejected); }
      var config := ReadConfig(raw, offset);
      var end := offset + if config.totalLength < |raw| then config.totalLength else |raw|;
      var interfaces := ScanInterfaces(raw, offset + 9, end);
      if interfaces.InterfaceRejected? { return Finish(Rejected); }
      if interfaces.InterfaceOutOfRange? { return Finish(OutOfRange); }
      r := Continue(end, configs + [ConfigInfo(config, interfaces.list)]);
    } else if length == 0 || offset + length > |raw| {
      r := Finish(Parsed(DeviceInfo(ReadDevice(raw), configs)));
    } else {
      r := Continue(offset + length, configs);
    }
  }

  lemma ParseFromStep(raw: seq<Byte>, offset: nat, configs: seq<ConfigInfo>, step: Iteration)
    requires 18 <= |raw| && step == Iterate(raw, offset, configs)
    ensures ParseFrom(raw, offset, configs) ==
            if step.Finish? then step.result
            else if step.offset <= offset then NoProgress else ParseFrom(raw, step.offset, step.configs)
  {
  }

  method ParseDescriptorTree(raw: seq<Byte>) returns (r: ParseResult)
    ensures r == ParseTree(raw)
  {
    if |raw| < 18 { return Rejected; }
    var offset, configs := 18, [];
    while offset < |raw|
      invariant ParseTree(raw) == ParseFrom(raw, offset, configs)
      decreases |raw| - offset
    {
      var step := IterateOnce(raw, offset, configs);
      ParseFromStep(raw, offset, configs, step);
      if step.Finish? { return step.result; }
      if step.offset <= offset { return NoProgress; }
      offset, configs := step.offset, step.configs;
    }
    r := Parsed(DeviceInfo(ReadDevice(raw), configs));
  }

  // ---- The printer ----

  function EndpointsBytes(es: seq<EndpointDescriptor>): (b: seq<Byte>)
    ensures |b| == 7 * |es|
  {
    if es == [] then [] else EndpointBytes(es[0]) + EndpointsBytes(es[1..])
  }

  function HidPart(h: Option<HidDescriptor>): (b: seq<Byte>) {
    if h.None? then [] else HidBytes(h.value)
  }

  function InterfaceSection(i: InterfaceInfo): (b: seq<Byte>)
    ensures |b| >= 9
  {
    InterfaceBytes(i.interface) + (HidPart(i.hid) + EndpointsBytes(i.endpoints))
  }

  function InterfacesBytes(list: seq<InterfaceInfo>): (b: seq<Byte>) {
    if list == [] then [] else InterfaceSection(list[0]) + InterfacesBytes(list[1..])
  }

  function ConfigSection(c: ConfigInfo): (b: seq<Byte>)
    ensures |b| >= 9
  {
    ConfigBytes(c.config) + InterfacesBytes(c.interfaces)
  }

  function ConfigsBytes(cs: seq<ConfigInfo>): (b: seq<Byte>) {
    if cs == [] then [] else ConfigSection(cs[0]) + ConfigsBytes(cs[1..])
  }

  function PrintTree(d: DeviceInfo): (b: seq<Byte>) {
    DeviceBytes(d.device) + ConfigsBytes(d.configs)
  }

  lemma {:induction false} EndpointsSnoc(es: seq<EndpointDescriptor>, e: EndpointDescriptor)
    ensures EndpointsBytes(es + [e]) == EndpointsBytes(es) + EndpointBytes(e)
  {
    if es == [] {
      assert es + [e] == [e];
    } else {
      assert (es + [e])[1..] == es[1..] + [e];
      EndpointsSnoc(es[1..], e);
      Associative(EndpointBytes(es[0]), EndpointsBytes(es[1..]), EndpointBytes(e));
    }
  }

  lemma {:induction false} InterfacesSnoc(list: seq<InterfaceInfo>, i: InterfaceInfo)
    ensures InterfacesBytes(list + [i]) == InterfacesBytes(list) + InterfaceSection(i)
  {
    if list == [] {
      assert list + [i] == [i];
    } else {
      assert (list + [i])[1..] == list[1..] + [i];
      InterfacesSnoc(list[1..], i);
      Associative(InterfaceSection(list[0]), InterfacesBytes(list[1..]), InterfaceSection(i));
    }
  }

  lemma {:induction false} ConfigsSplit(cs: seq<ConfigInfo>, ds: seq<ConfigInfo>)
    ensures ConfigsBytes(cs + ds) == ConfigsBytes(cs) + ConfigsBytes(ds)
  {
    if cs == [] {
      assert cs + ds == ds;
    } else {
      assert (cs + ds)[1..] == cs[1..] + ds;
      ConfigsSplit(cs[1..], ds);
      Associative(ConfigSection(cs[0]), ConfigsBytes(cs[1..]), ConfigsBytes(ds));
    }
  }

  lemma ConfigsSnoc(cs: seq<ConfigInfo>, c: ConfigInfo)
    ensures ConfigsBytes(cs + [c]) == ConfigsBytes(cs) + ConfigSection(c)
  {
    ConfigsSplit(cs, [c]);
    assert ConfigsBytes([c]) == ConfigSection(c) + ConfigsBytes([]);
  }

  /** The innermost part of the printer: interface, then HID, then endpoints. */
  method PrintInterface(tree: seq<Byte>, i: InterfaceInfo) returns (longer: seq<Byte>)
    ensures longer == tree + InterfaceSection(i)
  {
    longer := tree + InterfaceBytes(i.interface);
    if i.hid.Some? {
      longer := longer + HidBytes(i.hid.value);
    }
    var base := longer;
    assert base == tree + (InterfaceBytes(i.interface) + HidPart(i.hid));
    for k := 0 to |i.endpoints|
      invariant longer == base + EndpointsBytes(i.endpoints[..k])
    {
      longer := longer + EndpointBytes(i.endpoints[k]);
      EndpointsSnoc(i.endpoints[..k], i.endpoints[k]);
      TakeNext(i.endpoints, k);
      Associative(base, EndpointsBytes(i.endpoints[..k]), EndpointBytes(i.endpoints[k]));
    }
    TakeAll(i.endpoints);
    Associative(InterfaceBytes(i.interface), HidPart(i.hid), EndpointsBytes(i.endpoints));
    Associative(tree, InterfaceBytes(i.interface) + HidPart(i.hid), EndpointsBytes(i.endpoints));
  }

  method PrintConfig(tree: seq<Byte>, c: ConfigInfo) returns (longer: seq<Byte>)
    ensures longer == tree + ConfigSection(c)
  {
    longer := tree + ConfigBytes(c.config);
    var base := longer;
    for k := 0 to |c.interfaces|
      invariant longer == base + InterfacesBytes(c.interfaces[..k])
    {
      longer := PrintInterface(longer, c.interfaces[k]);
      InterfacesSnoc(c.interfaces[..k], c.interfaces[k]);
      TakeNext(c.interfaces, k);
      Associative(base, InterfacesBytes(c.interfaces[..k]), InterfaceSection(c.interfaces[k]));
    }
    TakeAll(c.interfaces);
    Associative(tree, ConfigBytes(c.config), InterfacesBytes(c.interfaces));
  }

  method SerializeDescriptorTree(d: DeviceInfo) returns (tree: seq<Byte>)
    ensures tree == PrintTree(d)
  {
    tree := DeviceBytes(d.device);
    var base := tree;
    for k := 0 to |d.configs|
      invariant tree == base + ConfigsBytes(d.configs[..k])
    {
      tree := PrintConfig(tree, d.configs[k]);
      ConfigsSnoc(d.configs[..k], d.configs[k]);
      TakeNext(d.configs, k);
      Associative(base, ConfigsBytes(d.configs[..k]), ConfigSection(d.configs[k]));
    }
    TakeAll(d.configs);
  }

  // ---- Round trip ----

  // From here on the type bytes and the room for items are written out, not taken from the parser.

  /** An interface has room for one item more than its bNumEndpoints says, and for none when that is 255. */
  function Room(numEndpoints: Byte): (n: nat) {
    if numEndpoints == 255 then 0 else numEndpoints + 1
  }

  ghost predicate EndpointsTyped(es: seq<EndpointDescriptor>) {
    forall k :: 0 <= k < |es| ==> es[k].descriptorType == 0x05
  }

  /** Type bytes are the standard ones, and the interface announces room for its items. */
  ghost predicate InterfaceTyped(i: InterfaceInfo) {
    && i.interface.descriptorType == 0x04
    && EndpointsTyped(i.endpoints)
    && (i.hid.Some? ==> i.hid.value.descriptorType == 0x21)
    && |i.endpoints| + (if i.hid.Some? then 1 else 0) <= Room(i.interface.numEndpoints)
  }

  ghost predicate InterfacesTyped(list: seq<InterfaceInfo>) {
    forall k :: 0 <= k < |list| ==> InterfaceTyped(list[k])
  }

  ghost predicate ConfigTyped(c: ConfigInfo) {
    c.config.descriptorType == 0x02 && InterfacesTyped(c.interfaces)
  }

  ghost predicate Typed(cs: seq<ConfigInfo>) {
    forall k :: 0 <= k < |cs| ==> ConfigTyped(cs[k])
  }

  /** Each wTotalLength is the size of its section. */
  ghost predicate TotalsMatch(cs: seq<ConfigInfo>) {
    forall k :: 0 <= k < |cs| ==> cs[k].config.totalLength == |ConfigSection(cs[k])|
  }

  /** Where the items of an interface stop: at the end of the section, or at the next interface. */
  ghost predicate ItemsStop(raw: seq<Byte>, offset: nat, end: nat) {
    offset == end || (offset + 1 < |raw| && raw[offset + 1] == 0x04)
  }

  lemma EndpointTurn(raw: seq<Byte>, offset: nat, end: nat, slots: nat, before: seq<EndpointDescriptor>,
                     hid: Option<HidDescriptor>, e: EndpointDescriptor)
    requires slots > 0 && offset + 7 <= end <= |raw|
    requires At(raw, offset, EndpointBytes(e)) && e.descriptorType == 0x05
    ensures ParseItems(raw, offset, end, slots, before, hid) ==
            ParseItems(raw, offset + 7, end, slots - 1, before + [e], hid)
  {
    EndpointReadBack(raw, offset, e);
    assert raw[offset + 1] == 0x05;
  }

  lemma {:induction false} EndpointsParse(raw: seq<Byte>, offset: nat, end: nat, slots: nat,
                                          before: seq<EndpointDescriptor>, hid: Option<HidDescriptor>,
                                          es: seq<EndpointDescriptor>, next: nat)
    requires At(raw, offset, EndpointsBytes(es)) && EndpointsTyped(es) && |es| <= slots
    requires next == offset + 7 * |es| <= end <= |raw| && ItemsStop(raw, next, end)
    ensures ParseItems(raw, offset, end, slots, before, hid) == Items(next, before + es, hid)
    decreases |es|
  {
    if es == [] {
      assert before + es == before;
    } else {
      AtParts(raw, offset, EndpointBytes(es[0]), EndpointsBytes(es[1..]));
      EndpointTurn(raw, offset, end, slots, before, hid, es[0]);
      EndpointsParse(raw, offset + 7, end, slots - 1, before + [es[0]], hid, es[1..], next);
      MoveOne(before, es);
    }
  }

  lemma HidTurn(raw: seq<Byte>, offset: nat, end: nat, slots: nat, before: seq<EndpointDescriptor>,
                hid: Option<HidDescriptor>, h: HidDescriptor)
    requires slots > 0 && offset + 9 <= end <= |raw| && At(raw, offset, HidBytes(h)) && h.descriptorType == 0x21
    ensures ParseItems(raw, offset, end, slots, before, hid) ==
            ParseItems(raw, offset + 9, end, slots - 1, before, Some(h))
  {
    HidReadBack(raw, offset, h);
    assert raw[offset + 1] == 0x21;
  }

  /** Endpoint and HID descriptors as a device may mix them. */
  datatype Item = EndpointItem(endpoint: EndpointDescriptor) | HidItem(hid: HidDescriptor)

  function ItemBytes(i: Item): (b: seq<Byte>)
    ensures |b| == if i.EndpointItem? then 7 else 9
  {
    if i.EndpointItem? then EndpointBytes(i.endpoint) else HidBytes(i.hid)
  }

  predicate ItemTyped(i: Item) {
    if i.EndpointItem? then i.endpoint.descriptorType == 0x05 else i.hid.descriptorType == 0x21
  }

  function ItemsBytes(list: seq<Item>): (b: seq<Byte>) {
    if list == [] then [] else ItemBytes(list[0]) + ItemsBytes(list[1..])
  }

  function EndpointIn(i: Item): (es: seq<EndpointDescriptor>) {
    if i.EndpointItem? then [i.endpoint] else []
  }

  function EndpointsIn(list: seq<Item>): (es: seq<EndpointDescriptor>) {
    if list == [] then [] else EndpointIn(list[0]) + EndpointsIn(list[1..])
  }

  function LaterHid(i: Item, hid: Option<HidDescriptor>): (h: Option<HidDescriptor>) {
    if i.HidItem? then Some(i.hid) else hid
  }

  /** The last HID descriptor of a list, or `hid` when it has none. */
  function LastHid(list: seq<Item>, hid: Option<HidDescriptor>): (h: Option<HidDescriptor>) {
    if list == [] then hid else LastHid(list[1..], LaterHid(list[0], hid))
  }

  /** Typed items stand from `offset` to `next`. */
  ghost predicate ItemsStand(raw: seq<Byte>, offset: nat, list: seq<Item>, next: nat) {
    && At(raw, offset, ItemsBytes(list)) && next == offset + |ItemsBytes(list)|
    && forall k :: 0 <= k < |list| ==> ItemTyped(list[k])
  }

  lemma ItemsCons(raw: seq<Byte>, offset: nat, list: seq<Item>, next: nat)
    requires list != [] && ItemsStand(raw, offset, list, next)
    ensures At(raw, offset, ItemBytes(list[0])) && ItemTyped(list[0])
    ensures offset + |ItemBytes(list[0])| <= next
    ensures ItemsStand(raw, offset + |ItemBytes(list[0])|, list[1..], next)
  {
    AtParts(raw, offset, ItemBytes(list[0]), ItemsBytes(list[1..]));
  }

  /** The item loop as a function of the offset, the room left and what was found so far. */
  type ItemLoop = (nat, nat, seq<EndpointDescriptor>, Option<HidDescriptor>) -> Items

  ghost predicate IsItemLoop(f: ItemLoop, raw: seq<Byte>, end: nat) {
    forall o: nat, n: nat, es, hid {:trigger ParseItems(raw, o, end, n, es, hid)} ::
      f(o, n, es, hid) == ParseItems(raw, o, end, n, es, hid)
  }

  lemma ItemTurn(f: ItemLoop, raw: seq<Byte>, offset: nat, end: nat, slots: nat, before: seq<EndpointDescriptor>,
                 hid: Option<HidDescriptor>, i: Item, next: nat)
    requires IsItemLoop(f, raw, end) && slots > 0 && ItemTyped(i)
    requires At(raw, offset, ItemBytes(i)) && next == offset + |ItemBytes(i)| <= end <= |raw|
    ensures f(offset, slots, before, hid) == f(next, slots - 1, before + EndpointIn(i), LaterHid(i, hid))
  {
    match i
    case EndpointItem(e) => EndpointTurn(raw, offset, end, slots, before, hid, e);
    case HidItem(h) =>
      HidTurn(raw, offset, end, slots, before, hid, h);
      assert before + [] == before;
  }

  lemma ItemsEnd(f: ItemLoop, raw: seq<Byte>, offset: nat, end: nat, slots: nat, before: seq<EndpointDescriptor>,
                 hid: Option<HidDescriptor>)
    requires IsItemLoop(f, raw, end) && end <= |raw| && (slots == 0 || ItemsStop(raw, offset, end))
    ensures f(offset, slots, before, hid) == Items(offset, before, hid)
  {
    assert ParseItems(raw, offset, end, slots, before, hid) == Items(offset, before, hid);
  }

  /** What the loop makes of the items behind the first, it makes of all. */
  lemma ItemsTurn(f: ItemLoop, raw: seq<Byte>, offset: nat, end: nat, slots: nat, before: seq<EndpointDescriptor>,
                  hid: Option<HidDescriptor>, list: seq<Item>, next: nat) returns (o: nat)
    requires IsItemLoop(f, raw, end) && list != [] && ItemsStand(raw, offset, list, next)
    requires slots > 0 && next <= end <= |raw|
    ensures ItemsStand(raw, o, list[1..], next)
    ensures f(offset, slots, before, hid) == f(o, slots - 1, before + EndpointIn(list[0]), LaterHid(list[0], hid))
  {
    o := offset + |ItemBytes(list[0])|;
    ItemsCons(raw, offset, list, next);
    ItemTurn(f, raw, offset, end, slots, before, hid, list[0], o);
  }

  /** What is found in a list, added to what was found before. */
  function FoundIn(next: nat, before: seq<EndpointDescriptor>, hid: Option<HidDescriptor>, list: seq<Item>)
    : (r: Items)
  {
    Items(next, before + EndpointsIn(list), LastHid(list, hid))
  }

  lemma FoundCons(next: nat, before: seq<EndpointDescriptor>, hid: Option<HidDescriptor>, list: seq<Item>)
    ensures list == [] ==> FoundIn(next, before, hid, list) == Items(next, before, hid)
    ensures list != [] ==> FoundIn(next, before, hid, list) ==
                           FoundIn(next, before + EndpointIn(list[0]), LaterHid(list[0], hid), list[1..])
  {
    if list == [] {
      assert before + EndpointsIn(list) == before;
    } else {
      Associative(before, EndpointIn(list[0]), EndpointsIn(list[1..]));
    }
  }

  lemma {:induction false} LoopFindsItems(f: ItemLoop, raw: seq<Byte>, offset: nat, end: nat, slots: nat,
                                          before: seq<EndpointDescriptor>, hid: Option<HidDescriptor>,
                                          list: seq<Item>, next: nat)
    requires IsItemLoop(f, raw, end) && ItemsStand(raw, offset, list, next) && next <= end <= |raw|
    requires |list| == slots || (|list| < slots && ItemsStop(raw, next, end))
    ensures f(offset, slots, before, hid) == FoundIn(next, before, hid, list)
    decreases |list|
  {
    FoundCons(next, before, hid, list);
    if list == [] {
      ItemsEnd(f, raw, offset, end, slots, before, hid);
    } else {
      var o := ItemsTurn(f, raw, offset, end, slots, before, hid, list, next);
      LoopFindsItems(f, raw, o, end, slots - 1, before + EndpointIn(list[0]), LaterHid(list[0], hid), list[1..], next);
    }
  }

  function TheItemLoop(raw: seq<Byte>, end: nat): (f: ItemLoop)
    ensures IsItemLoop(f, raw, end)
  {
    (o: nat, n: nat, es: seq<EndpointDescriptor>, hid: Option<HidDescriptor>) => ParseItems(raw, o, end, n, es, hid)
  }

  /**
    Items in any order, as many as there is room for: the endpoints are found in order, and the last HID
    descriptor wins. The loop stops when the room is used up, whatever follows.
   */
  lemma ItemsInAnyOrder(raw: seq<Byte>, offset: nat, end: nat, slots: nat, list: seq<Item>, next: nat)
    requires ItemsStand(raw, offset, list, next) && next <= end <= |raw|
    requires |list| == slots || (|list| < slots && ItemsStop(raw, next, end))
    ensures ParseItems(raw, offset, end, slots, [], None) == Items(next, EndpointsIn(list), LastHid(list, None))
  {
    LoopFindsItems(TheItemLoop(raw, end), raw, offset, end, slots, [], None, list, next);
    assert [] + EndpointsIn(list) == EndpointsIn(list);
  }

  lemma HidThenEndpoints(raw: seq<Byte>, offset: nat, end: nat, slots: nat, h: HidDescriptor,
                         es: seq<EndpointDescriptor>, next: nat)
    requires At(raw, offset, HidBytes(h) + EndpointsBytes(es)) && h.descriptorType == 0x21 && EndpointsTyped(es)
    requires 1 + |es| <= slots && next == offset + 9 + 7 * |es| <= end <= |raw| && ItemsStop(raw, next, end)
    ensures ParseItems(raw, offset, end, slots, [], None) == Items(next, es, Some(h))
  {
    AtParts(raw, offset, HidBytes(h), EndpointsBytes(es));
    HidTurn(raw, offset, end, slots, [], None, h);
    EndpointsParse(raw, offset + 9, end, slots - 1, [], Some(h), es, next);
    assert [] + es == es;
  }

  lemma ItemsParse(raw: seq<Byte>, offset: nat, end: nat, i: InterfaceInfo, next: nat)
    requires InterfaceTyped(i) && At(raw, offset, HidPart(i.hid) + EndpointsBytes(i.endpoints))
    requires next == offset + |HidPart(i.hid)| + 7 * |i.endpoints| <= end <= |raw| && ItemsStop(raw, next, end)
    ensures ParseItems(raw, offset, end, Slots(i.interface), [], None) == Items(next, i.endpoints, i.hid)
  {
    var slots, es := Slots(i.interface), i.endpoints;
    if i.hid.None? {
      assert [] + EndpointsBytes(es) == EndpointsBytes(es) && [] + es == es;
      EndpointsParse(raw, offset, end, slots, [], None, es, next);
    } else {
      HidThenEndpoints(raw, offset, end, slots, i.hid.value, es, next);
    }
  }

  /** The section of an interface is followed by the end of the configuration or by another interface. */
  lemma SectionStops(raw: seq<Byte>, next: nat, rest: seq<InterfaceInfo>)
    requires At(raw, next, InterfacesBytes(rest)) && InterfacesTyped(rest)
    ensures ItemsStop(raw, next, next + |InterfacesBytes(rest)|)
  {
    if rest != [] {
      assert InterfaceTyped(rest[0]);
      AtIndex(raw, next, InterfacesBytes(rest));
      assert InterfacesBytes(rest)[1] == InterfaceBytes(rest[0].interface)[1];
    }
  }

  /** One turn of the interface loop that finds an interface, its items, and more interfaces after them. */
  lemma InterfaceTurn(raw: seq<Byte>, offset: nat, end: nat, i: InterfaceInfo, next: nat, rest: seq<InterfaceInfo>)
    requires offset + 9 <= end && offset + 9 <= |raw| && raw[offset + 1] == 0x04
    requires ReadInterface(raw, offset) == i.interface && offset < next <= end
    requires ParseItems(raw, offset + 9, end, Slots(i.interface), [], None) == Items(next, i.endpoints, i.hid)
    requires ParseInterfaces(raw, next, end) == Interfaces(rest)
    ensures ParseInterfaces(raw, offset, end) == Interfaces([i] + rest)
  {
    if next == end {
      assert ParseInterfaces(raw, next, end) == Interfaces([]);
    }
  }

  lemma InterfaceStep(raw: seq<Byte>, offset: nat, end: nat, next: nat, i: InterfaceInfo, rest: seq<InterfaceInfo>)
    requires InterfaceTyped(i) && At(raw, offset, InterfaceSection(i)) && next == offset + |InterfaceSection(i)|
    requires next <= end <= |raw| && ItemsStop(raw, next, end) && ParseInterfaces(raw, next, end) == Interfaces(rest)
    ensures ParseInterfaces(raw, offset, end) == Interfaces([i] + rest)
  {
    AtParts(raw, offset, InterfaceBytes(i.interface), HidPart(i.hid) + EndpointsBytes(i.endpoints));
    InterfaceReadBack(raw, offset, i.interface);
    ItemsParse(raw, offset + 9, end, i, next);
    InterfaceTurn(raw, offset, end, i, next, rest);
  }

  lemma TypedTail(list: seq<InterfaceInfo>)
    requires InterfacesTyped(list) && list != []
    ensures InterfaceTyped(list[0]) && InterfacesTyped(list[1..])
  {
    forall k | 0 <= k < |list[1..]| ensures InterfaceTyped(list[1..][k]) {
      assert list[1..][k] == list[k + 1];
    }
  }

  /** Well-formed interfaces stand from `offset` to `end`. */
  ghost predicate Stand(raw: seq<Byte>, offset: nat, end: nat, list: seq<InterfaceInfo>) {
    At(raw, offset, InterfacesBytes(list)) && InterfacesTyped(list) && end == offset + |InterfacesBytes(list)|
  }

  lemma InterfaceBytesCons(raw: seq<Byte>, offset: nat, list: seq<InterfaceInfo>, next: nat)
    requires list != [] && At(raw, offset, InterfacesBytes(list)) && next == offset + |InterfaceSection(list[0])|
    ensures At(raw, offset, InterfaceSection(list[0])) && At(raw, next, InterfacesBytes(list[1..]))
    ensures offset + |InterfacesBytes(list)| == next + |InterfacesBytes(list[1..])|
  {
    AtParts(raw, offset, InterfaceSection(list[0]), InterfacesBytes(list[1..]));
  }

  /** The first interface of a list, and where the others stand. */
  lemma InterfacesCons(raw: seq<Byte>, offset: nat, end: nat, list: seq<InterfaceInfo>) returns (next: nat)
    requires list != [] && Stand(raw, offset, end, list)
    ensures next == offset + |InterfaceSection(list[0])| <= end <= |raw|
    ensures At(raw, offset, InterfaceSection(list[0])) && InterfaceTyped(list[0])
    ensures Stand(raw, next, end, list[1..])
  {
    next := offset + |InterfaceSection(list[0])|;
    InterfaceBytesCons(raw, offset, list, next);
    TypedTail(list);
  }

  /** The interface loop as a function of the offset only. */
  ghost predicate IsInterfaceLoop(f: nat -> Interfaces, raw: seq<Byte>, end: nat) {
    forall o: nat {:trigger ParseInterfaces(raw, o, end)} :: f(o) == ParseInterfaces(raw, o, end)
  }

  lemma LoopAtEnd(f: nat -> Interfaces, raw: seq<Byte>, end: nat)
    requires IsInterfaceLoop(f, raw, end)
    ensures f(end) == Interfaces([])
  {
    assert ParseInterfaces(raw, end, end) == Interfaces([]);
  }

  lemma LoopStep(f: nat -> Interfaces, raw: seq<Byte>, offset: nat, end: nat, next: nat,
                 i: InterfaceInfo, rest: seq<InterfaceInfo>, list: seq<InterfaceInfo>)
    requires IsInterfaceLoop(f, raw, end) && [i] + rest == list
    requires InterfaceTyped(i) && At(raw, offset, InterfaceSection(i)) && next == offset + |InterfaceSection(i)|
    requires next <= end <= |raw| && ItemsStop(raw, next, end) && f(next) == Interfaces(rest)
    ensures f(offset) == Interfaces(list)
  {
    assert ParseInterfaces(raw, next, end) == Interfaces(rest);
    InterfaceStep(raw, offset, end, next, i, rest);
  }

  /** What the loop makes of a list of interfaces, from what it makes of those behind the first. */
  lemma LoopCons(f: nat -> Interfaces, raw: seq<Byte>, offset: nat, end: nat, list: seq<InterfaceInfo>)
    returns (next: nat)
    requires IsInterfaceLoop(f, raw, end) && list != [] && Stand(raw, offset, end, list)
    ensures Stand(raw, next, end, list[1..])
    ensures f(next) == Interfaces(list[1..]) ==> f(offset) == Interfaces(list)
  {
    next := InterfacesCons(raw, offset, end, list);
    SectionStops(raw, next, list[1..]);
    HeadTail(list);
    if f(next) == Interfaces(list[1..]) {
      LoopStep(f, raw, offset, end, next, list[0], list[1..], list);
    }
  }

  lemma {:induction false} LoopFinds(f: nat -> Interfaces, raw: seq<Byte>, offset: nat, end: nat,
                                     list: seq<InterfaceInfo>)
    requires IsInterfaceLoop(f, raw, end) && Stand(raw, offset, end, list)
    ensures f(offset) == Interfaces(list)
    decreases |list|
  {
    if list == [] {
      LoopAtEnd(f, raw, end);
    } else {
      var next := LoopCons(f, raw, offset, end, list);
      LoopFinds(f, raw, next, end, list[1..]);
    }
  }

  lemma InterfacesParse(raw: seq<Byte>, offset: nat, end: nat, list: seq<InterfaceInfo>)
    requires Stand(raw, offset, end, list)
    ensures ParseInterfaces(raw, offset, end) == Interfaces(list)
  {
    var f := (o: nat) => ParseInterfaces(raw, o, end);
    LoopFinds(f, raw, offset, end, list);
  }

  /** Top-level content of a descriptor buffer: a configuration section, or a block the parser skips. */
  datatype Block = Section(config: ConfigInfo) | Unknown(bytes: seq<Byte>)

  function BlockBytes(b: Block): (s: seq<Byte>) {
    match b
    case Section(c) => ConfigSection(c)
    case Unknown(bytes) => bytes
  }

  /** The configurations a block adds. */
  function Found(b: Block): (cs: seq<ConfigInfo>) {
    if b.Section? then [b.config] else []
  }

  /** Some bytes, and the configurations a parser finds in them. */
  datatype Piece = Piece(bytes: seq<Byte>, found: seq<ConfigInfo>)

  function PiecesBytes(ps: seq<Piece>): (s: seq<Byte>) {
    if ps == [] then [] else ps[0].bytes + PiecesBytes(ps[1..])
  }

  function PiecesFound(ps: seq<Piece>): (cs: seq<ConfigInfo>) {
    if ps == [] then [] else ps[0].found + PiecesFound(ps[1..])
  }

  function AsPieces(bs: seq<Block>): (ps: seq<Piece>)
    ensures |ps| == |bs|
  {
    seq(|bs|, i requires 0 <= i < |bs| => Piece(BlockBytes(bs[i]), Found(bs[i])))
  }

  function BlocksBytes(bs: seq<Block>): (s: seq<Byte>) {
    PiecesBytes(AsPieces(bs))
  }

  function ConfigsIn(bs: seq<Block>): (cs: seq<ConfigInfo>) {
    PiecesFound(AsPieces(bs))
  }

  ghost predicate BlockOk(b: Block) {
    match b
    case Section(c) => ConfigTyped(c) && c.config.totalLength == |ConfigSection(c)|
    case Unknown(bytes) => |bytes| >= 2 && bytes[0] == |bytes| && bytes[1] != 0x02
  }

  ghost predicate BlocksOk(bs: seq<Block>) {
    forall k :: 0 <= k < |bs| ==> BlockOk(bs[k])
  }

  // The outer loop is a function of the offset and of the configurations found so far. The lemmas on
  // blocks speak of any function that agrees with it.

  type Parser = (nat, seq<ConfigInfo>) -> ParseResult

  ghost predicate IsParser(f: Parser, raw: seq<Byte>)
    requires 18 <= |raw|
  {
    forall o: nat, c: seq<ConfigInfo> {:trigger ParseFrom(raw, o, c)} :: f(o, c) == ParseFrom(raw, o, c)
  }

  /** An iteration that finds a configuration and can parse its interfaces. */
  lemma ConfigIteration(f: Parser, raw: seq<Byte>, offset: nat, end: nat, before: seq<ConfigInfo>, c: ConfigInfo)
    requires 18 <= |raw| && IsParser(f, raw)
    requires offset + 9 <= |raw| && raw[offset + 1] == 0x02 && ReadConfig(raw, offset) == c.config
    requires offset < end == offset + c.config.totalLength <= |raw|
    requires ParseInterfaces(raw, offset + 9, end) == Interfaces(c.interfaces)
    ensures f(offset, before) == f(end, before + [c])
  {
    assert Iterate(raw, offset, before) == Continue(end, before + [c]);
    assert ParseFrom(raw, offset, before) == ParseFrom(raw, end, before + [c]);
  }

  lemma SectionParses(f: Parser, raw: seq<Byte>, offset: nat, before: seq<ConfigInfo>, c: ConfigInfo, end: nat)
    requires 18 <= |raw| && IsParser(f, raw)
    requires BlockOk(Section(c)) && At(raw, offset, ConfigSection(c)) && end == offset + |ConfigSection(c)|
    ensures f(offset, before) == f(end, before + [c])
  {
    AtParts(raw, offset, ConfigBytes(c.config), InterfacesBytes(c.interfaces));
    ConfigReadBack(raw, offset, c.config);
    assert raw[offset + 1] == 0x02;
    InterfacesParse(raw, offset + 9, end, c.interfaces);
    ConfigIteration(f, raw, offset, end, before, c);
  }

  /** An iteration that skips an unknown block. */
  lemma SkipIteration(f: Parser, raw: seq<Byte>, offset: nat, end: nat, before: seq<ConfigInfo>)
    requires 18 <= |raw| && IsParser(f, raw)
    requires offset + 1 < |raw| && raw[offset + 1] != 0x02 && offset < end == offset + raw[offset] <= |raw|
    ensures f(offset, before) == f(end, before)
  {
    assert Iterate(raw, offset, before) == Continue(end, before);
    assert ParseFrom(raw, offset, before) == ParseFrom(raw, end, before);
  }

  lemma UnknownParses(f: Parser, raw: seq<Byte>, offset: nat, before: seq<ConfigInfo>, bytes: seq<Byte>, end: nat)
    requires 18 <= |raw| && IsParser(f, raw)
    requires BlockOk(Unknown(bytes)) && At(raw, offset, bytes) && end == offset + |bytes|
    ensures f(offset, before) == f(end, before)
  {
    AtIndex(raw, offset, bytes);
    assert raw[offset + 0] == bytes[0] && raw[offset + 1] == bytes[1];
    SkipIteration(f, raw, offset, end, before);
  }

  /** A parser that steps over a piece wherever it stands. */
  ghost predicate StepsOver(f: Parser, raw: seq<Byte>, p: Piece) {
    forall o: nat, c: seq<ConfigInfo> :: At(raw, o, p.bytes) ==> f(o, c) == f(o + |p.bytes|, c + p.found)
  }

  lemma {:induction false} StepsOverAll(f: Parser, raw: seq<Byte>, ps: seq<Piece>, o: nat, c: seq<ConfigInfo>)
    requires forall k :: 0 <= k < |ps| ==> StepsOver(f, raw, ps[k])
    requires At(raw, o, PiecesBytes(ps))
    ensures f(o, c) == f(o + |PiecesBytes(ps)|, c + PiecesFound(ps))
    decreases |ps|
  {
    if ps == [] {
      assert c + PiecesFound(ps) == c;
    } else {
      var p, rest := ps[0], ps[1..];
      AtParts(raw, o, p.bytes, PiecesBytes(rest));
      assert StepsOver(f, raw, p);
      StepsOverAll(f, raw, rest, o + |p.bytes|, c + p.found);
      Associative(c, p.found, PiecesFound(rest));
    }
  }

  lemma SectionStepsOver(f: Parser, raw: seq<Byte>, c: ConfigInfo)
    requires 18 <= |raw| && IsParser(f, raw) && BlockOk(Section(c))
    ensures StepsOver(f, raw, Piece(ConfigSection(c), [c]))
  {
    var bytes := ConfigSection(c);
    forall o: nat, before: seq<ConfigInfo> | At(raw, o, bytes) ensures f(o, before) == f(o + |bytes|, before + [c]) {
      SectionParses(f, raw, o, before, c, o + |bytes|);
    }
  }

  lemma UnknownStepsOver(f: Parser, raw: seq<Byte>, bytes: seq<Byte>)
    requires 18 <= |raw| && IsParser(f, raw) && BlockOk(Unknown(bytes))
    ensures StepsOver(f, raw, Piece(bytes, []))
  {
    forall o: nat, before: seq<ConfigInfo> | At(raw, o, bytes) ensures f(o, before) == f(o + |bytes|, before + []) {
      UnknownParses(f, raw, o, before, bytes, o + |bytes|);
      assert before + [] == before;
    }
  }

  lemma BlockStepsOver(f: Parser, raw: seq<Byte>, b: Block)
    requires 18 <= |raw| && IsParser(f, raw) && BlockOk(b)
    ensures StepsOver(f, raw, Piece(BlockBytes(b), Found(b)))
  {
    match b
    case Section(c) => SectionStepsOver(f, raw, c);
    case Unknown(bytes) => UnknownStepsOver(f, raw, bytes);
  }

  lemma BlocksStepOver(f: Parser, raw: seq<Byte>, bs: seq<Block>, k: nat)
    requires 18 <= |raw| && IsParser(f, raw) && BlocksOk(bs) && k < |bs|
    ensures StepsOver(f, raw, AsPieces(bs)[k])
  {
    BlockStepsOver(f, raw, bs[k]);
  }

  /** Well-formed blocks move the outer loop to the byte behind them and add their configurations. */
  lemma BlocksParse(f: Parser, raw: seq<Byte>, bs: seq<Block>, end: nat)
    requires 18 <= |raw| && IsParser(f, raw)
    requires BlocksOk(bs) && At(raw, 18, BlocksBytes(bs)) && end == 18 + |BlocksBytes(bs)|
    ensures f(18, []) == f(end, ConfigsIn(bs))
  {
    var ps := AsPieces(bs);
    forall k | 0 <= k < |ps| ensures StepsOver(f, raw, ps[k]) {
      BlocksStepOver(f, raw, bs, k);
    }
    StepsOverAll(f, raw, ps, 18, []);
    assert [] + PiecesFound(ps) == PiecesFound(ps);
  }

  /** There is such a function, and it starts with the parse of the whole buffer. */
  lemma TheParser(raw: seq<Byte>) returns (f: Parser)
    requires 18 <= |raw|
    ensures IsParser(f, raw) && f(18, []) == ParseTree(raw)
  {
    f := (o: nat, c: seq<ConfigInfo>) => ParseFrom(raw, o, c);
  }

  lemma BytesBehindDevice(device: DeviceDescriptor, bytes: seq<Byte>)
    ensures var raw := DeviceBytes(device) + bytes;
            At(raw, 18, bytes) && ReadDevice(raw) == device
  {
    var raw := DeviceBytes(device) + bytes;
    assert At(raw, 0, raw);
    AtParts(raw, 0, DeviceBytes(device), bytes);
    DeviceReadBack(raw, device);
  }

  lemma ParsedAtEnd(f: Parser, raw: seq<Byte>, configs: seq<ConfigInfo>)
    requires 18 <= |raw| && IsParser(f, raw)
    ensures f(|raw|, configs) == Parsed(DeviceInfo(ReadDevice(raw), configs))
  {
    assert ParseFrom(raw, |raw|, configs) == Parsed(DeviceInfo(ReadDevice(raw), configs));
  }

  /**
    Any buffer that holds a device descriptor and then well-formed configuration sections with
    unknown blocks before, between and after them parses to exactly those configurations.
   */
  lemma UnknownBlocksAreSkipped(device: DeviceDescriptor, bs: seq<Block>)
    requires BlocksOk(bs)
    ensures ParseTree(DeviceBytes(device) + BlocksBytes(bs)) == Parsed(DeviceInfo(device, ConfigsIn(bs)))
  {
    var raw := DeviceBytes(device) + BlocksBytes(bs);
    var f := TheParser(raw);
    BytesBehindDevice(device, BlocksBytes(bs));
    BlocksParse(f, raw, bs, |raw|);
    ParsedAtEnd(f, raw, ConfigsIn(bs));
  }

  /** A block of length zero, or one that goes on behind the buffer, ends the parse with what was found before it. */
  lemma StopIteration(f: Parser, raw: seq<Byte>, offset: nat, configs: seq<ConfigInfo>)
    requires 18 <= |raw| && IsParser(f, raw)
    requires offset + 1 < |raw| && raw[offset + 1] != 0x02 && (raw[offset] == 0 || offset + raw[offset] > |raw|)
    ensures f(offset, configs) == Parsed(DeviceInfo(ReadDevice(raw), configs))
  {
    assert ParseFrom(raw, offset, configs) == Parsed(DeviceInfo(ReadDevice(raw), configs));
  }

  lemma BlocksThenBytes(device: DeviceDescriptor, bs: seq<Block>, rest: seq<Byte>)
    ensures var raw := DeviceBytes(device) + (BlocksBytes(bs) + rest);
            && At(raw, 18, BlocksBytes(bs)) && At(raw, 18 + |BlocksBytes(bs)|, rest) && ReadDevice(raw) == device
  {
    BytesBehindDevice(device, BlocksBytes(bs) + rest);
    AtParts(DeviceBytes(device) + (BlocksBytes(bs) + rest), 18, BlocksBytes(bs), rest);
  }

  /** Such a block, and everything behind it, is ignored. */
  lemma TrailingBytesAreIgnored(device: DeviceDescriptor, bs: seq<Block>, rest: seq<Byte>)
    requires BlocksOk(bs) && |rest| >= 2 && rest[1] != 0x02 && (rest[0] == 0 || rest[0] > |rest|)
    ensures ParseTree(DeviceBytes(device) + (BlocksBytes(bs) + rest)) == Parsed(DeviceInfo(device, ConfigsIn(bs)))
  {
    var raw := DeviceBytes(device) + (BlocksBytes(bs) + rest);
    var end := 18 + |BlocksBytes(bs)|;
    BlocksThenBytes(device, bs, rest);
    AtIndex(raw, end, rest);
    assert raw[end + 0] == rest[0] && raw[end + 1] == rest[1];
    var f := TheParser(raw);
    BlocksParse(f, raw, bs, end);
    StopIteration(f, raw, end, ConfigsIn(bs));
  }

  function AsBlocks(cs: seq<ConfigInfo>): (bs: seq<Block>) {
    seq(|cs|, i requires 0 <= i < |cs| => Section(cs[i]))
  }

  lemma SectionsTail(cs: seq<ConfigInfo>)
    requires cs != []
    ensures var ps := AsPieces(AsBlocks(cs));
            ps[0] == Piece(ConfigSection(cs[0]), [cs[0]]) && ps[1..] == AsPieces(AsBlocks(cs[1..]))
  {
  }

  lemma {:induction false} SectionsBytes(cs: seq<ConfigInfo>)
    ensures BlocksBytes(AsBlocks(cs)) == ConfigsBytes(cs)
  {
    if cs != [] {
      SectionsTail(cs);
      SectionsBytes(cs[1..]);
    }
  }

  lemma {:induction false} SectionsConfigs(cs: seq<ConfigInfo>)
    ensures ConfigsIn(AsBlocks(cs)) == cs
  {
    if cs != [] {
      SectionsTail(cs);
      SectionsConfigs(cs[1..]);
      assert [cs[0]] + cs[1..] == cs;
    }
  }

  lemma SectionsOk(cs: seq<ConfigInfo>)
    requires Typed(cs) && TotalsMatch(cs)
    ensures BlocksOk(AsBlocks(cs))
  {
  }

  // ---- What the parser can return ----

  lemma {:induction false} ItemsSound(raw: seq<Byte>, offset: nat, end: nat, slots: nat,
                                      endpoints: seq<EndpointDescriptor>, hid: Option<HidDescriptor>)
    requires EndpointsTyped(endpoints) && (hid.Some? ==> hid.value.descriptorType == 0x21)
    ensures var r := ParseItems(raw, offset, end, slots, endpoints, hid);
            r.Items? ==>
              && EndpointsTyped(r.endpoints)
              && (r.hid.Some? ==> r.hid.value.descriptorType == 0x21)
              && |r.endpoints| + (if r.hid.Some? then 1 else 0) <= |endpoints| + (if hid.Some? then 1 else 0) + slots
    decreases slots
  {
    if slots > 0 && offset + 2 <= end && offset + 1 < |raw| {
      if raw[offset + 1] == 0x05 && offset + 7 <= |raw| {
        ItemsSound(raw, offset + 7, end, slots - 1, endpoints + [ReadEndpoint(raw, offset)], hid);
      } else if raw[offset + 1] == 0x21 && offset + 9 <= |raw| {
        ItemsSound(raw, offset + 9, end, slots - 1, endpoints, Some(ReadHid(raw, offset)));
      }
    }
  }

  lemma {:induction false} InterfacesSound(raw: seq<Byte>, offset: nat, end: nat)
    ensures var r := ParseInterfaces(raw, offset, end); r.Interfaces? ==> InterfacesTyped(r.list)
    decreases end - offset
  {
    if offset + 9 <= end && offset + 9 <= |raw| && raw[offset + 1] == 0x04 {
      var iface := ReadInterface(raw, offset);
      ItemsSound(raw, offset + 9, end, Slots(iface), [], None);
      var items := ParseItems(raw, offset + 9, end, Slots(iface), [], None);
      if items.Items? && items.next < end {
        InterfacesSound(raw, items.next, end);
      }
    }
  }

  lemma {:induction false} ConfigsSound(raw: seq<Byte>, offset: nat, configs: seq<ConfigInfo>)
    requires 18 <= |raw| && Typed(configs)
    ensures var r := ParseFrom(raw, offset, configs); r.Parsed? ==> Typed(r.info.configs)
    decreases if offset < |raw| then |raw| - offset else 0
  {
    if offset + 9 <= |raw| && raw[offset + 1] == 0x02 {
      var config := ReadConfig(raw, offset);
      InterfacesSound(raw, offset + 9, offset + if config.totalLength < |raw| then config.totalLength else |raw|);
    }
    var step := Iterate(raw, offset, configs);
    if step.Continue? && step.offset > offset {
      assert Typed(step.configs);
      ConfigsSound(raw, step.offset, step.configs);
    }
  }

  /** Every tree the parser returns, on any input, has the standard type bytes and fits its slots. */
  lemma ParserOutputsTyped(raw: seq<Byte>)
    ensures ParseTree(raw).Parsed? ==> Typed(ParseTree(raw).info.configs)
  {
    if |raw| >= 18 {
      ConfigsSound(raw, 18, []);
    }
  }

  /**
    Parsing what the printer wrote gives back the same tree, for any numbers of configurations,
    interfaces, HID blocks and endpoints, if and only if the type bytes are the standard ones and
    every interface announces room for its items.
   */
  lemma RoundTripIff(d: DeviceInfo)
    requires TotalsMatch(d.configs)
    ensures ParseTree(PrintTree(d)) == Parsed(d) <==> Typed(d.configs)
  {
    ParserOutputsTyped(PrintTree(d));
    if Typed(d.configs) {
      SectionsBytes(d.configs);
      SectionsConfigs(d.configs);
      SectionsOk(d.configs);
      UnknownBlocksAreSkipped(d.device, AsBlocks(d.configs));
    }
  }

  /** A tree as devices have it: standard type bytes, and each interface carries the endpoints it announces. */
  ghost predicate Ordinary(d: DeviceInfo) {
    forall c :: c in d.configs ==>
      && c.config.descriptorType == 0x02
      && forall i :: i in c.interfaces ==>
           && i.interface.descriptorType == 0x04 && |i.endpoints| == i.interface.numEndpoints
           && (forall e :: e in i.endpoints ==> e.descriptorType == 0x05)
           && (i.hid.Some? ==> i.hid.value.descriptorType == 0x21)
  }

  lemma OrdinaryConfig(d: DeviceInfo, c: ConfigInfo)
    requires Ordinary(d) && c in d.configs
    ensures ConfigTyped(c) <==> forall i :: i in c.interfaces ==> |i.endpoints| <= 254
  {
    forall i | i in c.interfaces ensures InterfaceTyped(i) <==> |i.endpoints| <= 254 {
      assert EndpointsTyped(i.endpoints);
    }
  }

  /** With or without HID descriptors, such a tree comes back unless an interface has 255 endpoints. */
  lemma OrdinaryTreesIff(d: DeviceInfo)
    requires TotalsMatch(d.configs) && Ordinary(d)
    ensures ParseTree(PrintTree(d)) == Parsed(d) <==>
            forall c, i :: c in d.configs && i in c.interfaces ==> |i.endpoints| <= 254
  {
    RoundTripIff(d);
    forall c | c in d.configs ensures ConfigTyped(c) <==> forall i :: i in c.interfaces ==> |i.endpoints| <= 254 {
      OrdinaryConfig(d, c);
    }
  }

  lemma PrinterIsInjective(a: DeviceInfo, b: DeviceInfo)
    requires TotalsMatch(a.configs) && Typed(a.configs) && TotalsMatch(b.configs) && Typed(b.configs)
    requires PrintTree(a) == PrintTree(b)
    ensures a == b
  {
    RoundTripIff(a);
    RoundTripIff(b);
  }

  function TotalOfTotals(cs: seq<ConfigInfo>): (n: nat) {
    if cs == [] then 0 else cs[0].config.totalLength + TotalOfTotals(cs[1..])
  }

  lemma {:induction false} PrintedLength(d: DeviceInfo)
    requires TotalsMatch(d.configs)
    ensures |PrintTree(d)| == 18 + TotalOfTotals(d.configs)
    decreases |d.configs|
  {
    if d.configs != [] {
      PrintedLength(DeviceInfo(d.device, d.configs[1..]));
    }
  }

  // ---- When the outer loop ends ----

  type LoopBody = (nat, seq<ConfigInfo>) -> Iteration

  /** A loop body repeated until it finishes. */
  function Times(body: LoopBody, offset: nat, configs: seq<ConfigInfo>, k: nat): (r: Iteration) {
    if k == 0 then Continue(offset, configs) else
    match Times(body, offset, configs, k - 1)
    case Finish(result) => Finish(result)
    case Continue(o, cs) => body(o, cs)
  }

  function BodyOf(raw: seq<Byte>): (body: LoopBody)
    requires 18 <= |raw|
  {
    (o: nat, cs: seq<ConfigInfo>) => Iterate(raw, o, cs)
  }

  function IterateTimes(raw: seq<Byte>, offset: nat, configs: seq<ConfigInfo>, k: nat): (r: Iteration)
    requires 18 <= |raw|
  {
    Times(BodyOf(raw), offset, configs, k)
  }

  lemma {:induction false} TimesMore(body: LoopBody, offset: nat, configs: seq<ConfigInfo>, j: nat, k: nat)
    ensures var r := Times(body, offset, configs, j);
            Times(body, offset, configs, j + k) == if r.Finish? then r else Times(body, r.offset, r.configs, k)
  {
    if k > 0 {
      TimesMore(body, offset, configs, j, k - 1);
      assert j + k - 1 == j + (k - 1);
    }
  }

  /** The body leaves the loop at offset `o`. */
  ghost predicate Stuck(body: LoopBody, o: nat) {
    forall cs :: body(o, cs).Continue? && body(o, cs).offset == o && |body(o, cs).configs| == |cs| + 1
  }

  lemma {:induction false} StuckTimes(body: LoopBody, o: nat, configs: seq<ConfigInfo>, k: nat)
    requires Stuck(body, o)
    ensures var r := Times(body, o, configs, k);
            r.Continue? && r.offset == o && |r.configs| == |configs| + k
  {
    if k > 0 {
      StuckTimes(body, o, configs, k - 1);
    }
  }

  /** A loop that finishes has one result and is never stuck. */
  lemma FinishIsFinal(body: LoopBody, offset: nat, j: nat, k: nat)
    requires Times(body, offset, [], j).Finish?
    ensures var r := Times(body, offset, [], k);
            if r.Finish? then r == Times(body, offset, [], j) else !Stuck(body, r.offset)
  {
    if j <= k {
      TimesMore(body, offset, [], j, k - j);
    } else {
      TimesMore(body, offset, [], k, j - k);
      var r := Times(body, offset, [], k);
      if r.Continue? && Stuck(body, r.offset) {
        StuckTimes(body, r.offset, r.configs, j - k);
      }
    }
  }

  /** A loop that finishes does so from some offset it stands at. */
  lemma {:induction false} FinishedFrom(body: LoopBody, offset: nat, k: nat) returns (j: nat)
    requires Times(body, offset, [], k).Finish?
    ensures var r := Times(body, offset, [], j);
            r.Continue? && body(r.offset, r.configs) == Times(body, offset, [], k)
  {
    if Times(body, offset, [], k - 1).Finish? {
      j := FinishedFrom(body, offset, k - 1);
    } else {
      j := k - 1;
    }
  }

  lemma TimesFirst(body: LoopBody, offset: nat, configs: seq<ConfigInfo>)
    ensures Times(body, offset, configs, 0) == Continue(offset, configs)
    ensures Times(body, offset, configs, 1) == body(offset, configs)
  {
    assert Times(body, offset, configs, 1 - 1) == Continue(offset, configs);
  }

  /** After some number of iterations the outer loop stands at offset `o`. */
  ghost predicate Reaches(raw: seq<Byte>, o: nat)
    requires 18 <= |raw|
  {
    exists k: nat :: StandsAt(IterateTimes(raw, 18, [], k), o)
  }

  predicate StandsAt(r: Iteration, o: nat) {
    r.Continue? && r.offset == o
  }

  /** A configuration descriptor with wTotalLength 0 stands at offset `o`. */
  predicate ZeroTotalAt(raw: seq<Byte>, o: nat) {
    o + 9 <= |raw| && raw[o + 1] == 0x02 && ReadConfig(raw, o).totalLength == 0
  }

  /** Every iteration that continues moves forward, except on a configuration of total length zero. */
  lemma OuterLoopProgress(raw: seq<Byte>, offset: nat, configs: seq<ConfigInfo>)
    requires 18 <= |raw|
    ensures var step := Iterate(raw, offset, configs);
            if ZeroTotalAt(raw, offset)
            then step.Continue? && step.offset == offset && |step.configs| == |configs| + 1
            else step.Continue? ==> step.offset > offset
  {
  }

  lemma StuckIff(raw: seq<Byte>, o: nat)
    requires 18 <= |raw|
    ensures Stuck(BodyOf(raw), o) <==> ZeroTotalAt(raw, o)
  {
    OuterLoopProgress(raw, o, []);
    assert BodyOf(raw)(o, []) == Iterate(raw, o, []);
    if ZeroTotalAt(raw, o) {
      forall cs ensures BodyOf(raw)(o, cs) == Iterate(raw, o, cs) && BodyOf(raw)(o, cs).Continue?
                        && BodyOf(raw)(o, cs).offset == o && |BodyOf(raw)(o, cs).configs| == |cs| + 1
      {
        OuterLoopProgress(raw, o, cs);
      }
    }
  }

  /** On such a configuration the loop is still running, at the same offset, after any number of iterations. */
  lemma StuckForever(raw: seq<Byte>, offset: nat, configs: seq<ConfigInfo>, k: nat)
    requires 18 <= |raw| && ZeroTotalAt(raw, offset)
    ensures var r := IterateTimes(raw, offset, configs, k);
            r.Continue? && r.offset == offset && |r.configs| == |configs| + k
  {
    StuckIff(raw, offset);
    StuckTimes(BodyOf(raw), offset, configs, k);
  }

  /** After `k` iterations the loop has finished with the parse, or stands at a zero total if that makes no progress. */
  ghost predicate EndsAfter(raw: seq<Byte>, offset: nat, configs: seq<ConfigInfo>, k: nat)
    requires 18 <= |raw|
  {
    var r, p := Times(BodyOf(raw), offset, configs, k), ParseFrom(raw, offset, configs);
    if p == NoProgress then r.Continue? && ZeroTotalAt(raw, r.offset) else r == Finish(p)
  }

  lemma EndsNow(raw: seq<Byte>, offset: nat, configs: seq<ConfigInfo>)
    requires 18 <= |raw|
    ensures var step := Iterate(raw, offset, configs);
            && (step.Finish? ==> EndsAfter(raw, offset, configs, 1))
            && (step.Continue? && step.offset <= offset ==> EndsAfter(raw, offset, configs, 0))
  {
    OuterLoopProgress(raw, offset, configs);
    TimesFirst(BodyOf(raw), offset, configs);
  }

  lemma EndsLater(raw: seq<Byte>, offset: nat, configs: seq<ConfigInfo>, next: nat, longer: seq<ConfigInfo>, k: nat)
    requires 18 <= |raw| && Iterate(raw, offset, configs) == Continue(next, longer) && next > offset
    requires EndsAfter(raw, next, longer, k)
    ensures EndsAfter(raw, offset, configs, 1 + k)
  {
    TimesFirst(BodyOf(raw), offset, configs);
    TimesMore(BodyOf(raw), offset, configs, 1, k);
    assert ParseFrom(raw, offset, configs) == ParseFrom(raw, next, longer);
  }

  lemma {:induction false} LoopEnds(raw: seq<Byte>, offset: nat, configs: seq<ConfigInfo>) returns (k: nat)
    requires 18 <= |raw|
    ensures EndsAfter(raw, offset, configs, k)
    ensures k <= 1 + if offset < |raw| then |raw| - offset else 0
    decreases if offset < |raw| then |raw| - offset else 0
  {
    var step := Iterate(raw, offset, configs);
    EndsNow(raw, offset, configs);
    if step.Finish? {
      k := 1;
    } else if step.offset <= offset {
      k := 0;
    } else {
      k := LoopEnds(raw, step.offset, step.configs);
      EndsLater(raw, offset, configs, step.offset, step.configs, k);
      k := 1 + k;
    }
  }

  /**
    For every input: the outer loop ends if and only if it reaches no configuration with
    wTotalLength 0, and `NoProgress` stands for exactly the other inputs. A loop that ends does so
    within one iteration per byte, and its result is that of the recursive parse.
   */
  lemma EndsIff(raw: seq<Byte>)
    requires 18 <= |raw|
    ensures (exists k: nat :: IterateTimes(raw, 18, [], k).Finish?) <==>
            !exists o: nat :: Reaches(raw, o) && ZeroTotalAt(raw, o)
    ensures ParseTree(raw) == NoProgress <==> exists o: nat :: Reaches(raw, o) && ZeroTotalAt(raw, o)
    ensures ParseTree(raw) != NoProgress ==> IterateTimes(raw, 18, [], |raw|) == Finish(ParseTree(raw))
  {
    var k := LoopEnds(raw, 18, []);
    if ParseTree(raw) == NoProgress {
      var r := IterateTimes(raw, 18, [], k);
      assert StandsAt(r, r.offset);
      forall j: nat ensures !IterateTimes(raw, 18, [], j).Finish? {
        StandsStill(raw, j, k);
      }
    } else {
      assert IterateTimes(raw, 18, [], k).Finish?;
      forall o: nat | Reaches(raw, o) ensures !ZeroTotalAt(raw, o) {
        var j: nat :| StandsAt(IterateTimes(raw, 18, [], j), o);
        StandsStill(raw, k, j);
      }
      TimesMore(BodyOf(raw), 18, [], k, |raw| - k);
    }
  }

  /** A loop that finishes never stands at a zero total. */
  lemma StandsStill(raw: seq<Byte>, j: nat, k: nat)
    requires 18 <= |raw|
    ensures var r, s := IterateTimes(raw, 18, [], j), IterateTimes(raw, 18, [], k);
            r.Finish? && s.Continue? ==> !ZeroTotalAt(raw, s.offset)
  {
    if IterateTimes(raw, 18, [], j).Finish? && IterateTimes(raw, 18, [], k).Continue? {
      FinishIsFinal(BodyOf(raw), 18, j, k);
      StuckIff(raw, IterateTimes(raw, 18, [], k).offset);
    }
  }

  lemma BlocksThenConfig(device: DeviceDescriptor, bs: seq<Block>, c: ConfigDescriptor, rest: seq<Byte>)
    ensures var raw := DeviceBytes(device) + (BlocksBytes(bs) + (ConfigBytes(c) + rest));
            var o := 18 + |BlocksBytes(bs)|;
            && At(raw, 18, BlocksBytes(bs))
            && o + 9 <= |raw| && ReadConfig(raw, o) == c
  {
    var tail := ConfigBytes(c) + rest;
    var raw := DeviceBytes(device) + (BlocksBytes(bs) + tail);
    assert At(raw, 0, raw);
    AtParts(raw, 0, DeviceBytes(device), BlocksBytes(bs) + tail);
    AtParts(raw, 18, BlocksBytes(bs), tail);
    AtParts(raw, 18 + |BlocksBytes(bs)|, ConfigBytes(c), rest);
    ConfigReadBack(raw, 18 + |BlocksBytes(bs)|, c);
  }

  lemma ZeroTotalIsNoProgress(f: Parser, raw: seq<Byte>, o: nat, configs: seq<ConfigInfo>)
    requires 18 <= |raw| && IsParser(f, raw) && ZeroTotalAt(raw, o)
    ensures f(o, configs) == NoProgress
  {
    OuterLoopProgress(raw, o, configs);
    assert ParseFrom(raw, o, configs) == NoProgress;
  }

  /**
    The parser never finishes on a buffer with well-formed blocks and then a configuration of total
    length zero, whatever follows it: in particular on the printed form of a tree with such a
    configuration behind well-formed ones.
   */
  lemma ZeroTotalDiverges(device: DeviceDescriptor, bs: seq<Block>, c: ConfigDescriptor, rest: seq<Byte>, k: nat)
    requires BlocksOk(bs) && c.descriptorType == 0x02 && c.totalLength == 0
    ensures var raw := DeviceBytes(device) + (BlocksBytes(bs) + (ConfigBytes(c) + rest));
            IterateTimes(raw, 18, [], k).Continue? && ParseTree(raw) == NoProgress
  {
    var raw := DeviceBytes(device) + (BlocksBytes(bs) + (ConfigBytes(c) + rest));
    var end := 18 + |BlocksBytes(bs)|;
    BlocksThenConfig(device, bs, c, rest);
    var f := TheParser(raw);
    BlocksParse(f, raw, bs, end);
    ZeroTotalIsNoProgress(f, raw, end, ConfigsIn(bs));
    EndsIff(raw);
  }

  /** A tree with such a configuration behind well-formed ones never comes back from its printed form. */
  lemma PrintedZeroTotalDiverges(d: DeviceInfo, n: nat, k: nat)
    requires n < |d.configs| && Typed(d.configs[..n]) && TotalsMatch(d.configs[..n])
    requires d.configs[n].config.descriptorType == 0x02 && d.configs[n].config.totalLength == 0
    ensures IterateTimes(PrintTree(d), 18, [], k).Continue? && ParseTree(PrintTree(d)) == NoProgress
  {
    var before, c := d.configs[..n], d.configs[n];
    PrintedAs(d, n);
    SectionsOk(before);
    ZeroTotalDiverges(d.device, AsBlocks(before), c.config,
                      InterfacesBytes(c.interfaces) + ConfigsBytes(d.configs[n + 1..]), k);
  }

  lemma ConfigsAt(cs: seq<ConfigInfo>, n: nat)
    requires n < |cs|
    ensures ConfigsBytes(cs) == ConfigsBytes(cs[..n]) + (ConfigSection(cs[n]) + ConfigsBytes(cs[n + 1..]))
  {
    SplitAt(cs, n);
    ConfigsSplit(cs[..n], cs[n..]);
  }

  /** The printed form of a tree, seen from its n-th configuration. */
  lemma PrintedAs(d: DeviceInfo, n: nat)
    requires n < |d.configs|
    ensures var c, rest := d.configs[n], ConfigsBytes(d.configs[n + 1..]);
            PrintTree(d) == DeviceBytes(d.device) +
              (BlocksBytes(AsBlocks(d.configs[..n])) + (ConfigBytes(c.config) + (InterfacesBytes(c.interfaces) + rest)))
  {
    var c := d.configs[n];
    SectionsBytes(d.configs[..n]);
    ConfigsAt(d.configs, n);
    Associative(ConfigBytes(c.config), InterfacesBytes(c.interfaces), ConfigsBytes(d.configs[n + 1..]));
  }

  // ---- When the parser indexes outside the buffer ----

  /** Where the item loop goes on behind the endpoint or HID descriptor at `offset`, if one is there. */
  function NextItem(raw: seq<Byte>, offset: nat, end: nat): (next: Option<nat>) {
    if offset + 2 > end || offset + 1 >= |raw| then None
    else if raw[offset + 1] == 0x05 && offset + 7 <= |raw| then Some(offset + 7)
    else if raw[offset + 1] == 0x21 && offset + 9 <= |raw| then Some(offset + 9)
    else None
  }

  /** Where the item loop stands after `n` items, if it finds that many. */
  function ItemCursor(raw: seq<Byte>, offset: nat, end: nat, n: nat): (c: Option<nat>)
    decreases n
  {
    if n == 0 then Some(offset) else
    match NextItem(raw, offset, end)
    case None => None
    case Some(next) => ItemCursor(raw, next, end, n - 1)
  }

  /** The cursor stands within a byte of the end of the buffer, or behind it, where the configuration still goes on. */
  predicate OffEnd(raw: seq<Byte>, end: nat, c: Option<nat>) {
    c.Some? && c.value + 2 <= end && c.value + 1 >= |raw|
  }

  /** With a slot left, the item loop gets to such a place. */
  ghost predicate ItemsRunOff(raw: seq<Byte>, offset: nat, end: nat, slots: nat) {
    exists n: nat :: n < slots && OffEnd(raw, end, ItemCursor(raw, offset, end, n))
  }

  lemma ItemsRunOffLater(raw: seq<Byte>, offset: nat, end: nat, slots: nat)
    ensures ItemsRunOff(raw, offset, end, slots) <==>
            slots > 0 && (OffEnd(raw, end, Some(offset)) ||
                          (NextItem(raw, offset, end).Some? &&
                           ItemsRunOff(raw, NextItem(raw, offset, end).value, end, slots - 1)))
  {
    var next := NextItem(raw, offset, end);
    if n: nat :| n < slots && OffEnd(raw, end, ItemCursor(raw, offset, end, n)) {
      if n > 0 {
        assert OffEnd(raw, end, ItemCursor(raw, next.value, end, n - 1));
      }
    }
    if slots > 0 && OffEnd(raw, end, Some(offset)) {
      assert OffEnd(raw, end, ItemCursor(raw, offset, end, 0));
    }
    if slots > 0 && next.Some? && ItemsRunOff(raw, next.value, end, slots - 1) {
      var n: nat :| n < slots - 1 && OffEnd(raw, end, ItemCursor(raw, next.value, end, n));
      assert OffEnd(raw, end, ItemCursor(raw, offset, end, n + 1));
    }
  }

  lemma {:induction false} ItemsOutOfRangeIff(raw: seq<Byte>, offset: nat, end: nat, slots: nat,
                                              endpoints: seq<EndpointDescriptor>, hid: Option<HidDescriptor>)
    ensures ParseItems(raw, offset, end, slots, endpoints, hid).ItemsOutOfRange? <==>
            ItemsRunOff(raw, offset, end, slots)
    decreases slots
  {
    ItemsRunOffLater(raw, offset, end, slots);
    if slots > 0 && NextItem(raw, offset, end).Some? {
      if raw[offset + 1] == 0x05 && offset + 7 <= |raw| {
        ItemsOutOfRangeIff(raw, offset + 7, end, slots - 1, endpoints + [ReadEndpoint(raw, offset)], hid);
      } else {
        ItemsOutOfRangeIff(raw, offset + 9, end, slots - 1, endpoints, Some(ReadHid(raw, offset)));
      }
    }
  }

  /** An interface descriptor that the interface loop takes stands at `offset`. */
  predicate InterfaceAt(raw: seq<Byte>, offset: nat, end: nat) {
    offset + 9 <= end && offset + 9 <= |raw| && raw[offset + 1] == 0x04
  }

  /** Where the interface loop goes on behind the interface at `offset` and its items, if it does. */
  function NextInterface(raw: seq<Byte>, offset: nat, end: nat): (next: Option<nat>)
    ensures next.Some? ==> offset < next.value < end
  {
    if !InterfaceAt(raw, offset, end) then None else
    match ParseItems(raw, offset + 9, end, Slots(ReadInterface(raw, offset)), [], None)
    case ItemsOutOfRange => None
    case Items(next, _, _) => if next >= end then None else Some(next)
  }

  function InterfaceCursor(raw: seq<Byte>, offset: nat, end: nat, m: nat): (c: Option<nat>)
    decreases m
  {
    if m == 0 then Some(offset) else
    match NextInterface(raw, offset, end)
    case None => None
    case Some(next) => InterfaceCursor(raw, next, end, m - 1)
  }

  /** The items of the interface at `c` run off the end of the buffer. */
  ghost predicate InterfaceRunsOff(raw: seq<Byte>, end: nat, c: Option<nat>) {
    && c.Some? && InterfaceAt(raw, c.value, end)
    && ItemsRunOff(raw, c.value + 9, end, Room(raw[c.value + 4]))
  }

  ghost predicate InterfacesRunOff(raw: seq<Byte>, offset: nat, end: nat) {
    exists m: nat :: InterfaceRunsOff(raw, end, InterfaceCursor(raw, offset, end, m))
  }

  lemma InterfacesRunOffLater(raw: seq<Byte>, offset: nat, end: nat)
    ensures InterfacesRunOff(raw, offset, end) <==>
            InterfaceRunsOff(raw, end, Some(offset)) ||
            (NextInterface(raw, offset, end).Some? && InterfacesRunOff(raw, NextInterface(raw, offset, end).value, end))
  {
    var next := NextInterface(raw, offset, end);
    if m: nat :| InterfaceRunsOff(raw, end, InterfaceCursor(raw, offset, end, m)) {
      if m > 0 {
        assert InterfaceRunsOff(raw, end, InterfaceCursor(raw, next.value, end, m - 1));
      }
    }
    if InterfaceRunsOff(raw, end, Some(offset)) {
      assert InterfaceRunsOff(raw, end, InterfaceCursor(raw, offset, end, 0));
    }
    if next.Some? && InterfacesRunOff(raw, next.value, end) {
      var m: nat :| InterfaceRunsOff(raw, end, InterfaceCursor(raw, next.value, end, m));
      assert InterfaceRunsOff(raw, end, InterfaceCursor(raw, offset, end, m + 1));
    }
  }

  /** The cursors never get behind the end of the buffer. */
  lemma {:induction false} ItemsStayInside(raw: seq<Byte>, offset: nat, end: nat, slots: nat,
                                           endpoints: seq<EndpointDescriptor>, hid: Option<HidDescriptor>)
    requires offset <= |raw|
    ensures var r := ParseItems(raw, offset, end, slots, endpoints, hid); r.Items? ==> r.next <= |raw|
    decreases slots
  {
    if slots > 0 && NextItem(raw, offset, end).Some? {
      if raw[offset + 1] == 0x05 && offset + 7 <= |raw| {
        ItemsStayInside(raw, offset + 7, end, slots - 1, endpoints + [ReadEndpoint(raw, offset)], hid);
      } else {
        ItemsStayInside(raw, offset + 9, end, slots - 1, endpoints, Some(ReadHid(raw, offset)));
      }
    }
  }

  lemma {:induction false} InterfacesOutOfRangeIff(raw: seq<Byte>, offset: nat, end: nat)
    requires offset <= |raw|
    ensures ParseInterfaces(raw, offset, end).InterfaceOutOfRange? <==> InterfacesRunOff(raw, offset, end)
    decreases end - offset
  {
    InterfacesRunOffLater(raw, offset, end);
    if InterfaceAt(raw, offset, end) {
      var slots := Slots(ReadInterface(raw, offset));
      ItemsOutOfRangeIff(raw, offset + 9, end, slots, [], None);
      ItemsStayInside(raw, offset + 9, end, slots, [], None);
      if NextInterface(raw, offset, end).Some? {
        InterfacesOutOfRangeIff(raw, NextInterface(raw, offset, end).value, end);
      }
    }
  }

  /** Where the parser takes the configuration at `o` to end. */
  function ConfigEnd(raw: seq<Byte>, o: nat): (end: nat)
    requires o + 9 <= |raw|
  {
    o + if ReadConfig(raw, o).totalLength < |raw| then ReadConfig(raw, o).totalLength else |raw|
  }

  /** The outer loop indexes outside the buffer at `o`: at its last byte, or among the items of a configuration. */
  ghost predicate RunsOffAt(raw: seq<Byte>, o: nat) {
    || o + 1 == |raw|
    || (o + 9 <= |raw| && raw[o + 1] == 0x02 && InterfacesRunOff(raw, o + 9, ConfigEnd(raw, o)))
  }

  lemma IterationOutOfRangeIff(raw: seq<Byte>, o: nat, configs: seq<ConfigInfo>)
    requires 18 <= |raw|
    ensures Iterate(raw, o, configs) == Finish(OutOfRange) <==> RunsOffAt(raw, o)
  {
    if o + 9 <= |raw| && raw[o + 1] == 0x02 {
      InterfacesOutOfRangeIff(raw, o + 9, ConfigEnd(raw, o));
    }
  }

  /** The result of a loop that has finished is that of the recursive parse. */
  lemma FinishesWith(raw: seq<Byte>, k: nat)
    requires 18 <= |raw| && IterateTimes(raw, 18, [], k).Finish?
    ensures IterateTimes(raw, 18, [], k) == Finish(ParseTree(raw))
  {
    EndsIff(raw);
    FinishIsFinal(BodyOf(raw), 18, k, |raw|);
  }

  /** The parse ends with `result` when the loop reaches an offset whose iteration does. */
  lemma ReachedResult(raw: seq<Byte>, result: ParseResult, o: nat)
    requires 18 <= |raw| && Reaches(raw, o) && forall c :: Iterate(raw, o, c) == Finish(result)
    ensures ParseTree(raw) == result
  {
    var j: nat :| StandsAt(IterateTimes(raw, 18, [], j), o);
    FinishesWith(raw, j + 1);
  }

  /** And it reaches such an offset when it ends so. */
  lemma ResultReached(raw: seq<Byte>) returns (o: nat, configs: seq<ConfigInfo>)
    requires 18 <= |raw| && ParseTree(raw) != NoProgress
    ensures Reaches(raw, o) && Iterate(raw, o, configs) == Finish(ParseTree(raw))
  {
    EndsIff(raw);
    var j := FinishedFrom(BodyOf(raw), 18, |raw|);
    var r := IterateTimes(raw, 18, [], j);
    assert StandsAt(r, r.offset);
    o, configs := r.offset, r.configs;
  }

  /**
    For every input, the parser indexes outside the buffer if and only if the outer loop reaches its
    last byte, or reaches a configuration that goes on behind the buffer and among whose items a
    cursor, with a slot left, comes within a byte of the buffer's end.
   */
  lemma OutOfRangeIff(raw: seq<Byte>)
    requires 18 <= |raw|
    ensures ParseTree(raw) == OutOfRange <==> exists o: nat :: Reaches(raw, o) && RunsOffAt(raw, o)
  {
    if ParseTree(raw) == OutOfRange {
      var o, configs := ResultReached(raw);
      IterationOutOfRangeIff(raw, o, configs);
    }
    forall o: nat | Reaches(raw, o) && RunsOffAt(raw, o) ensures ParseTree(raw) == OutOfRange {
      forall c ensures Iterate(raw, o, c) == Finish(OutOfRange) {
        IterationOutOfRangeIff(raw, o, c);
      }
      ReachedResult(raw, OutOfRange, o);
    }
  }

  // ---- When the parser rejects its input ----

  /** The interface loop wants an interface at `c`, and none stands there. */
  predicate InterfaceRejects(raw: seq<Byte>, end: nat, c: Option<nat>) {
    c.Some? && c.value + 9 <= end && !InterfaceAt(raw, c.value, end)
  }

  ghost predicate InterfacesReject(raw: seq<Byte>, offset: nat, end: nat) {
    exists m: nat :: InterfaceRejects(raw, end, InterfaceCursor(raw, offset, end, m))
  }

  lemma InterfacesRejectLater(raw: seq<Byte>, offset: nat, end: nat)
    ensures InterfacesReject(raw, offset, end) <==>
            InterfaceRejects(raw, end, Some(offset)) ||
            (NextInterface(raw, offset, end).Some? && InterfacesReject(raw, NextInterface(raw, offset, end).value, end))
  {
    var next := NextInterface(raw, offset, end);
    if m: nat :| InterfaceRejects(raw, end, InterfaceCursor(raw, offset, end, m)) {
      if m > 0 {
        assert InterfaceRejects(raw, end, InterfaceCursor(raw, next.value, end, m - 1));
      }
    }
    if InterfaceRejects(raw, end, Some(offset)) {
      assert InterfaceRejects(raw, end, InterfaceCursor(raw, offset, end, 0));
    }
    if next.Some? && InterfacesReject(raw, next.value, end) {
      var m: nat :| InterfaceRejects(raw, end, InterfaceCursor(raw, next.value, end, m));
      assert InterfaceRejects(raw, end, InterfaceCursor(raw, offset, end, m + 1));
    }
  }

  lemma {:induction false} InterfacesRejectedIff(raw: seq<Byte>, offset: nat, end: nat)
    requires offset <= |raw|
    ensures ParseInterfaces(raw, offset, end).InterfaceRejected? <==> InterfacesReject(raw, offset, end)
    decreases end - offset
  {
    InterfacesRejectLater(raw, offset, end);
    if InterfaceAt(raw, offset, end) {
      ItemsStayInside(raw, offset + 9, end, Slots(ReadInterface(raw, offset)), [], None);
      if NextInterface(raw, offset, end).Some? {
        InterfacesRejectedIff(raw, NextInterface(raw, offset, end).value, end);
      }
    }
  }

  /** A configuration at `o` is cut short, or something other than an interface stands where one is due. */
  ghost predicate RejectsAt(raw: seq<Byte>, o: nat) {
    o + 1 < |raw| && raw[o + 1] == 0x02 && (o + 9 > |raw| || InterfacesReject(raw, o + 9, ConfigEnd(raw, o)))
  }

  lemma IterationRejectedIff(raw: seq<Byte>, o: nat, configs: seq<ConfigInfo>)
    requires 18 <= |raw|
    ensures Iterate(raw, o, configs) == Finish(Rejected) <==> RejectsAt(raw, o)
  {
    if o + 9 <= |raw| && raw[o + 1] == 0x02 {
      InterfacesRejectedIff(raw, o + 9, ConfigEnd(raw, o));
    }
  }

  /** For every input: `None` if and only if the input is too short or the outer loop reaches such a place. */
  lemma RejectedIff(raw: seq<Byte>)
    ensures ParseTree(raw) == Rejected <==> |raw| < 18 || exists o: nat :: Reaches(raw, o) && RejectsAt(raw, o)
  {
    if |raw| >= 18 && ParseTree(raw) == Rejected {
      var o, configs := ResultReached(raw);
      IterationRejectedIff(raw, o, configs);
    }
    if |raw| >= 18 {
      forall o: nat | Reaches(raw, o) && RejectsAt(raw, o) ensures ParseTree(raw) == Rejected {
        forall c ensures Iterate(raw, o, c) == Finish(Rejected) {
          IterationRejectedIff(raw, o, c);
        }
        ReachedResult(raw, Rejected, o);
      }
    }
  }

  /** A single byte behind the device descriptor is enough. */
  lemma OneByteTooMany(raw: seq<Byte>)
    requires |raw| == 19
    ensures ParseTree(raw) == OutOfRange
  {
  }

  /** Offset `o` is not the last byte, and a configuration there ends inside the buffer. */
  ghost predicate EndsInside(raw: seq<Byte>, o: nat) {
    o + 1 != |raw| && (o + 9 <= |raw| && raw[o + 1] == 0x02 ==> ConfigEnd(raw, o) <= |raw|)
  }

  /** So it never happens when every reached configuration ends inside the buffer and no reached offset is the last. */
  lemma StaysInRange(raw: seq<Byte>)
    requires 18 <= |raw| && forall o: nat :: Reaches(raw, o) ==> EndsInside(raw, o)
    ensures ParseTree(raw) != OutOfRange
  {
    OutOfRangeIff(raw);
    forall o: nat | Reaches(raw, o) ensures !RunsOffAt(raw, o) {
      assert EndsInside(raw, o);
    }
  }
}
