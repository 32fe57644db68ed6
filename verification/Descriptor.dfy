/**
  USB descriptors (shared/usbip-core/src/descriptor.rs): the five fixed-size descriptors of
  sections 9.6.1, 9.6.3, 9.6.5 and 9.6.6 of USB 2.0 and section 6.2.1 of HID 1.11, each with its
  reader and its printer.
 */
module Descriptor {
  import opened Bytes

  const CONFIG_TYPE: Byte := 0x02
  const INTERFACE_TYPE: Byte := 0x04
  const ENDPOINT_TYPE: Byte := 0x05
  const HID_TYPE: Byte := 0x21

  datatype DeviceDescriptor = DeviceDescriptor(
    length: Byte, descriptorType: Byte, bcdUsb: U16, deviceClass: Byte, deviceSubClass: Byte, deviceProtocol: Byte,
    maxPacketSize0: Byte, idVendor: U16, idProduct: U16, bcdDevice: U16, iManufacturer: Byte, iProduct: Byte,
    iSerialNumber: Byte, numConfigurations: Byte)

  datatype ConfigDescriptor = ConfigDescriptor(
    length: Byte, descriptorType: Byte, totalLength: U16, numInterfaces: Byte, configurationValue: Byte,
    iConfiguration: Byte, attributes: Byte, maxPower: Byte)

  datatype InterfaceDescriptor = InterfaceDescriptor(
    length: Byte, descriptorType: Byte, interfaceNumber: Byte, alternateSetting: Byte, numEndpoints: Byte,
    interfaceClass: Byte, interfaceSubClass: Byte, interfaceProtocol: Byte, iInterface: Byte)

  datatype EndpointDescriptor = EndpointDescriptor(
    length: Byte, descriptorType: Byte, endpointAddress: Byte, attributes: Byte, maxPacketSize: U16, interval: Byte)

  datatype HidDescriptor = HidDescriptor(
    length: Byte, descriptorType: Byte, bcdHid: U16, countryCode: Byte, numDescriptors: Byte,
    reportDescriptorType: Byte, reportDescriptorLength: U16)

  datatype InterfaceInfo = InterfaceInfo(
    interface: InterfaceDescriptor, endpoints: seq<EndpointDescriptor>, hid: Option<HidDescriptor>)

  datatype ConfigInfo = ConfigInfo(config: ConfigDescriptor, interfaces: seq<InterfaceInfo>)

  datatype DeviceInfo = DeviceInfo(device: DeviceDescriptor, configs: seq<ConfigInfo>)

  // ---- Single descriptors ----

  function DeviceBytes(d: DeviceDescriptor): (b: seq<Byte>)
    ensures |b| == 18
  {
    [d.length, d.descriptorType] + Le16(d.bcdUsb) +
    [d.deviceClass, d.deviceSubClass, d.deviceProtocol, d.maxPacketSize0] +
    Le16(d.idVendor) + Le16(d.idProduct) + Le16(d.bcdDevice) +
    [d.iManufacturer, d.iProduct, d.iSerialNumber, d.numConfigurations]
  }

  function ReadDevice(raw: seq<Byte>): (d: DeviceDescriptor)
    requires |raw| >= 18
  {
    DeviceDescriptor(raw[0], raw[1], Le16At(raw, 2), raw[4], raw[5], raw[6], raw[7], Le16At(raw, 8), Le16At(raw, 10),
                     Le16At(raw, 12), raw[14], raw[15], raw[16], raw[17])
  }

  function ConfigBytes(c: ConfigDescriptor): (b: seq<Byte>)
    ensures |b| == 9
  {
    [c.length, c.descriptorType] + Le16(c.totalLength) +
    [c.numInterfaces, c.configurationValue, c.iConfiguration, c.attributes, c.maxPower]
  }

  function ReadConfig(raw: seq<Byte>, i: nat): (c: ConfigDescriptor)
    requires i + 9 <= |raw|
  {
    ConfigDescriptor(raw[i], raw[i + 1], Le16At(raw, i + 2), raw[i + 4], raw[i + 5], raw[i + 6], raw[i + 7], raw[i + 8])
  }

  function InterfaceBytes(d: InterfaceDescriptor): (b: seq<Byte>)
    ensures |b| == 9
  {
    [d.length, d.descriptorType, d.interfaceNumber, d.alternateSetting, d.numEndpoints,
     d.interfaceClass, d.interfaceSubClass, d.interfaceProtocol, d.iInterface]
  }

  function ReadInterface(raw: seq<Byte>, i: nat): (d: InterfaceDescriptor)
    requires i + 9 <= |raw|
  {
    InterfaceDescriptor(raw[i], raw[i + 1], raw[i + 2], raw[i + 3], raw[i + 4],
                        raw[i + 5], raw[i + 6], raw[i + 7], raw[i + 8])
  }

  function EndpointBytes(e: EndpointDescriptor): (b: seq<Byte>)
    ensures |b| == 7
  {
    [e.length, e.descriptorType, e.endpointAddress, e.attributes] + Le16(e.maxPacketSize) + [e.interval]
  }

  function ReadEndpoint(raw: seq<Byte>, i: nat): (e: EndpointDescriptor)
    requires i + 7 <= |raw|
  {
    EndpointDescriptor(raw[i], raw[i + 1], raw[i + 2], raw[i + 3], Le16At(raw, i + 4), raw[i + 6])
  }

  function HidBytes(h: HidDescriptor): (b: seq<Byte>)
    ensures |b| == 9
  {
    [h.length, h.descriptorType] + Le16(h.bcdHid) + [h.countryCode, h.numDescriptors, h.reportDescriptorType] +
    Le16(h.reportDescriptorLength)
  }

  function ReadHid(raw: seq<Byte>, i: nat): (h: HidDescriptor)
    requires i + 9 <= |raw|
  {
    HidDescriptor(raw[i], raw[i + 1], Le16At(raw, i + 2), raw[i + 4], raw[i + 5], raw[i + 6], Le16At(raw, i + 7))
  }

  /** `x` stands at position `i` of `raw`. */
  ghost predicate At(raw: seq<Byte>, i: nat, x: seq<Byte>) {
    i + |x| <= |raw| && raw[i..i + |x|] == x
  }

  lemma AtParts(raw: seq<Byte>, i: nat, x: seq<Byte>, y: seq<Byte>)
    requires At(raw, i, x + y)
    ensures At(raw, i, x) && At(raw, i + |x|, y)
  {
    var z := raw[i..i + |x + y|];
    assert z[..|x|] == x && z[|x|..] == y;
    assert raw[i..i + |x|] == z[..|x|] && raw[i + |x|..i + |x| + |y|] == z[|x|..];
  }

  lemma AtIndex(raw: seq<Byte>, i: nat, x: seq<Byte>)
    requires At(raw, i, x)
    ensures forall k :: 0 <= k < |x| ==> raw[i + k] == x[k]
  {
    forall k | 0 <= k < |x| ensures raw[i + k] == x[k] {
      assert raw[i..i + |x|][k] == raw[i + k];
    }
  }

  // Each reader inverts its printer, anywhere in a buffer.

  lemma DeviceReadBack(raw: seq<Byte>, d: DeviceDescriptor)
    requires At(raw, 0, DeviceBytes(d))
    ensures ReadDevice(raw) == d
  {
    var b := DeviceBytes(d);
    AtIndex(raw, 0, b);
    assert b[2] == Le16(d.bcdUsb)[0] && b[3] == Le16(d.bcdUsb)[1];
    assert b[8] == Le16(d.idVendor)[0] && b[9] == Le16(d.idVendor)[1];
    assert b[10] == Le16(d.idProduct)[0] && b[11] == Le16(d.idProduct)[1];
    assert b[12] == Le16(d.bcdDevice)[0] && b[13] == Le16(d.bcdDevice)[1];
  }

  lemma ConfigReadBack(raw: seq<Byte>, i: nat, c: ConfigDescriptor)
    requires At(raw, i, ConfigBytes(c))
    ensures ReadConfig(raw, i) == c
  {
    AtIndex(raw, i, ConfigBytes(c));
  }

  lemma InterfaceReadBack(raw: seq<Byte>, i: nat, d: InterfaceDescriptor)
    requires At(raw, i, InterfaceBytes(d))
    ensures ReadInterface(raw, i) == d
  {
    AtIndex(raw, i, InterfaceBytes(d));
  }

  lemma EndpointReadBack(raw: seq<Byte>, i: nat, e: EndpointDescriptor)
    requires At(raw, i, EndpointBytes(e))
    ensures ReadEndpoint(raw, i) == e
  {
    AtIndex(raw, i, EndpointBytes(e));
  }

  lemma HidReadBack(raw: seq<Byte>, i: nat, h: HidDescriptor)
    requires At(raw, i, HidBytes(h))
    ensures ReadHid(raw, i) == h
  {
    AtIndex(raw, i, HidBytes(h));
  }

  // Field offsets as the USB 2.0 and HID 1.11 tables give them.

  lemma DeviceLayout(d: DeviceDescriptor)
    ensures var b := DeviceBytes(d);
            && b[0] == d.length && b[1] == d.descriptorType && Le16At(b, 2) == d.bcdUsb && b[4] == d.deviceClass
            && b[5] == d.deviceSubClass && b[6] == d.deviceProtocol && b[7] == d.maxPacketSize0
            && Le16At(b, 8) == d.idVendor
            && Le16At(b, 10) == d.idProduct && Le16At(b, 12) == d.bcdDevice && b[14] == d.iManufacturer
            && b[15] == d.iProduct && b[16] == d.iSerialNumber && b[17] == d.numConfigurations
  {
    DeviceReadBack(DeviceBytes(d), d);
  }

  lemma ConfigLayout(c: ConfigDescriptor)
    ensures var b := ConfigBytes(c);
            && b[0] == c.length && b[1] == c.descriptorType && Le16At(b, 2) == c.totalLength && b[4] == c.numInterfaces
            && b[5] == c.configurationValue && b[6] == c.iConfiguration && b[7] == c.attributes && b[8] == c.maxPower
  {
    ConfigReadBack(ConfigBytes(c), 0, c);
  }

  lemma SectionLayouts(i: InterfaceDescriptor, e: EndpointDescriptor, h: HidDescriptor)
    ensures var b := InterfaceBytes(i);
            && b[0] == i.length && b[1] == i.descriptorType && b[2] == i.interfaceNumber && b[3] == i.alternateSetting
            && b[4] == i.numEndpoints && b[5] == i.interfaceClass && b[6] == i.interfaceSubClass
            && b[7] == i.interfaceProtocol && b[8] == i.iInterface
    ensures var b := EndpointBytes(e);
            && b[0] == e.length && b[1] == e.descriptorType && b[2] == e.endpointAddress && b[3] == e.attributes
            && Le16At(b, 4) == e.maxPacketSize && b[6] == e.interval
    ensures var b := HidBytes(h);
            && b[0] == h.length && b[1] == h.descriptorType && Le16At(b, 2) == h.bcdHid && b[4] == h.countryCode
            && b[5] == h.numDescriptors && b[6] == h.reportDescriptorType && Le16At(b, 7) == h.reportDescriptorLength
  {
    EndpointReadBack(EndpointBytes(e), 0, e);
    HidReadBack(HidBytes(h), 0, h);
  }
}
