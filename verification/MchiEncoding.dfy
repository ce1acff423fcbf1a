/** An encoder for host interface structures, and what the decoder of Mchi.dfy makes of its output. */
module MchiEncoding {
  import opened Common
  import opened Buffer
  import opened Mchi
  import Redfish

  // ----- device descriptions -----

  function WordBytes(v: nat): (b: seq<byte>)
    requires v < 0x1_0000
    ensures |b| == 2 && Word(b[0], b[1]) == v
  {
    [v % 256, v / 256]
  }

  /** Characters as UTF-16LE. */
  function Utf16(s: seq<byte>): (d: seq<byte>)
    ensures |d| == 2 * |s|
  {
    if |s| == 0 then [] else [s[0], 0] + Utf16(s[1..])
  }

  predicate Printable(s: seq<byte>) {
    forall i :: 0 <= i < |s| ==> 0x20 <= s[i] < 0x7f
  }

  /** A description that fits its structure; `index` names the serial string of a version 2 USB device. */
  predicate Describable(spec: Spec, strings: seq<seq<byte>>, index: byte) {
    match spec
    case Pci(vendor, device, subVendor, subDevice) =>
      vendor < 0x1_0000 && device < 0x1_0000 && subVendor < 0x1_0000 && subDevice < 0x1_0000
    case Usb(kind, vendor, product, serial, mac) =>
      && vendor < 0x1_0000 && product < 0x1_0000
      && if kind == USB_V1 then
           mac.None? && (serial.Some? ==> 0 < |serial.value| < 127 && Printable(serial.value))
         else
           && kind == USB_V2 && mac.Some? && |mac.value| == 6
           && serial == if 0 < index <= |strings| then Some(strings[index - 1]) else None
  }

  function EncodeSerial(serial: Option<seq<byte>>): seq<byte>
    requires serial.Some? ==> |serial.value| < 127
  {
    if serial.None? then [2] else [2 + 2 * |serial.value|, 3] + Utf16(serial.value)
  }

  function EncodeSpec(spec: Spec, strings: seq<seq<byte>>, index: byte): (d: seq<byte>)
    requires Describable(spec, strings, index)
    ensures 0 < |d|
  {
    match spec
    case Pci(vendor, device, subVendor, subDevice) =>
      [PCI_V1] + (WordBytes(vendor) + WordBytes(device) + WordBytes(subVendor) + WordBytes(subDevice))
    case Usb(kind, vendor, product, serial, mac) =>
      if kind == USB_V1 then [USB_V1] + (WordBytes(vendor) + WordBytes(product) + EncodeSerial(serial))
      else [USB_V2] + ([13] + WordBytes(vendor) + WordBytes(product) + [index] + mac.value)
  }

  lemma {:induction false} AsciiOfUtf16(s: seq<byte>)
    requires Printable(s)
    ensures Ascii(Utf16(s)) == Some(s)
    decreases |s|
  {
    if |s| > 0 {
      AsciiOfUtf16(s[1..]);
      assert Utf16(s)[2..] == Utf16(s[1..]);
      assert [s[0]] + s[1..] == s;
    }
  }

  lemma SerialOfEncoded(s: seq<byte>)
    requires 0 < |s| && Printable(s)
    ensures Serial(Utf16(s)) == Some(s)
  {
    AsciiOfUtf16(s);
  }

  lemma Usb1OfEncoded(vendor: nat, product: nat, serial: Option<seq<byte>>)
    requires vendor < 0x1_0000 && product < 0x1_0000
    requires serial.Some? ==> 0 < |serial.value| < 127 && Printable(serial.value)
    ensures DescribeUsb1(WordBytes(vendor) + WordBytes(product) + EncodeSerial(serial)) ==
            Some(Usb(USB_V1, vendor, product, serial, None))
  {
    var v, p := WordBytes(vendor), WordBytes(product);
    var r := v + p + EncodeSerial(serial);
    assert r[0] == v[0] && r[1] == v[1] && r[2] == p[0] && r[3] == p[1];
    match serial {
      case None => assert r[4] == 2;
      case Some(s) =>
        assert r[4] == 2 + 2 * |s| && r[5] == 3;
        assert r[6..] == Utf16(s);
        SerialOfEncoded(s);
    }
  }

  /** Decoding a description undoes encoding it. */
  lemma DescribeOfEncoded(spec: Spec, strings: seq<seq<byte>>, index: byte)
    requires Describable(spec, strings, index)
    ensures Describe(EncodeSpec(spec, strings, index), strings) == Some(spec)
  {
    var d := EncodeSpec(spec, strings, index);
    match spec {
      case Pci(vendor, device, subVendor, subDevice) =>
        assert d[1..] == WordBytes(vendor) + WordBytes(device) + WordBytes(subVendor) + WordBytes(subDevice);
      case Usb(kind, vendor, product, serial, mac) =>
        if kind == USB_V1 {
          assert d[1..] == WordBytes(vendor) + WordBytes(product) + EncodeSerial(serial);
          Usb1OfEncoded(vendor, product, serial);
        } else {
          var r := [13] + WordBytes(vendor) + WordBytes(product) + [index] + mac.value;
          assert d[1..] == r && r[6..12] == mac.value;
        }
    }
  }

  /** Where the fields of a decoded description are on the wire. */
  lemma SpecOnTheWire(d: seq<byte>, strings: seq<seq<byte>>)
    requires Describe(d, strings).Some?
    ensures var spec := Describe(d, strings).value;
            && |d| >= 6
            && (spec.Pci? <==> d[0] == 3)
            && (spec.Pci? ==> && |d| >= 9 && spec.vendor == Word(d[1], d[2]) && spec.device == Word(d[3], d[4])
                              && spec.subVendor == Word(d[5], d[6]) && spec.subDevice == Word(d[7], d[8]))
            && (spec.Usb? ==> spec.kind == d[0] && d[0] in {2, 4})
            && (d[0] == 2 ==> spec.vendor == Word(d[1], d[2]) && spec.product == Word(d[3], d[4]) && spec.mac.None?)
            && (d[0] == 2 && spec.serial.Some? ==>
                  |d| >= 7 && d[5] > 2 && d[5] % 2 == 0 && d[6] == 3 && spec.serial == Ascii(d[7..]))
            && (d[0] == 4 ==> && |d| >= 13 && spec.vendor == Word(d[2], d[3]) && spec.product == Word(d[4], d[5])
                              && spec.mac == Some(d[7..13]))
  {
    if d[0] == 4 { assert d[1..][6..12] == d[7..13]; }
    if d[0] == 2 && |d| >= 7 { assert d[1..][6..] == d[7..]; }
  }

  /** Which descriptions are accepted: known types that are long enough. */
  lemma DescribedIff(d: seq<byte>, strings: seq<seq<byte>>)
    ensures Describe(d, strings).Some? <==>
              && |d| > 0
              && (|| (d[0] == 2 && |d| >= 6 && (d[5] > 2 && d[5] % 2 == 0 ==> |d| >= 7))
                  || (d[0] == 4 && |d| >= 13)
                  || (d[0] == 3 && |d| >= 9))
  {
  }

  predicate PlainCharacter(d: seq<byte>, i: nat)
    requires 2 * i + 1 < |d|
  {
    d[2 * i + 1] == 0 && 0x20 <= d[2 * i] < 0x7f
  }

  /** A serial number is taken only if all its characters are plain, and then character by character. */
  lemma {:induction false} AsciiIff(d: seq<byte>)
    ensures Ascii(d).Some? <==> forall i: nat :: 2 * i + 1 < |d| ==> PlainCharacter(d, i)
    ensures Ascii(d).Some? ==>
              |Ascii(d).value| == |d| / 2 && forall i :: 0 <= i < |d| / 2 ==> Ascii(d).value[i] == d[2 * i]
    decreases |d|
  {
    if |d| >= 2 {
      var rest := d[2..];
      AsciiIff(rest);
      forall i: nat | 2 * i + 1 < |rest| ensures PlainCharacter(rest, i) == PlainCharacter(d, i + 1) { }
      assert PlainCharacter(d, 0) <==> 0x20 <= Word(d[0], d[1]) < 0x7f;
      if forall i: nat :: 2 * i + 1 < |d| ==> PlainCharacter(d, i) {
        forall i: nat | 2 * i + 1 < |rest| ensures PlainCharacter(rest, i) { assert PlainCharacter(d, i + 1); }
      }
      if Ascii(d).Some? {
        forall i: nat | 2 * i + 1 < |d| ensures PlainCharacter(d, i) {
          if i > 0 { assert PlainCharacter(rest, i - 1); }
        }
      }
    }
  }

  /** Which structures describe a device: network interfaces with a complete and accepted description. */
  lemma SpecOfIff(body: seq<byte>, strings: seq<seq<byte>>)
    ensures SpecOf(body, strings).Some? <==>
              && |body| >= 6 && body[4] == 0x40 && body[5] > 0 && |body| - 6 >= body[5]
              && Describe(body[6..][..body[5]], strings).Some?
  {
  }

  // ----- protocol records -----

  datatype Protocol = OverIp(record: Redfish.Record) | OtherProtocol(kind: byte, data: seq<byte>)

  predicate Encodable(p: Protocol) {
    match p
    case OverIp(r) => Redfish.WellFormed(r) && |Redfish.Encode(r)| < 256
    case OtherProtocol(kind, data) => kind != PROTOCOL_REDFISH && |data| < 256
  }

  predicate AllEncodable(ps: seq<Protocol>) {
    forall i :: 0 <= i < |ps| ==> Encodable(ps[i])
  }

  function Payload(p: Protocol): seq<byte>
    requires Encodable(p)
  {
    match p
    case OverIp(r) => Redfish.Encode(r)
    case OtherProtocol(_, data) => data
  }

  function EncodeProtocol(p: Protocol): seq<byte>
    requires Encodable(p)
  {
    [if p.OverIp? then PROTOCOL_REDFISH else p.kind, |Payload(p)|] + Payload(p)
  }

  function EncodeProtocols(ps: seq<Protocol>): seq<byte>
    requires AllEncodable(ps)
  {
    if |ps| == 0 then [] else EncodeProtocol(ps[0]) + EncodeProtocols(ps[1..])
  }

  function RecordOf(p: Protocol): seq<Redfish.Record> {
    if p.OverIp? then [p.record] else []
  }

  /** The Redfish records, in order. */
  function RecordsIn(ps: seq<Protocol>): seq<Redfish.Record> {
    if |ps| == 0 then [] else RecordOf(ps[0]) + RecordsIn(ps[1..])
  }

  lemma FrameLayout(kind: byte, data: seq<byte>, tail: seq<byte>)
    requires |data| < 256
    ensures var d := [kind, |data|] + data + tail;
            && |d| >= 2 && |d| - 2 >= |data| && d[0] == kind && d[1] == |data|
            && d[2..][..|data|] == data && d[2..][|data|..] == tail
  {
  }

  lemma RedfishAlone(r: Redfish.Record)
    requires Redfish.WellFormed(r)
    ensures Redfish.Decode(Redfish.Encode(r)) == Some(r)
  {
    var d := Redfish.Encode(r);
    Redfish.RoundTrip(r, []);
    assert d + [] == d;
  }

  /** One framed record: its payload decides, and the bytes behind it are left. */
  lemma FrameMeans(kind: byte, data: seq<byte>, tail: seq<byte>)
    requires |data| < 256
    ensures var r := Mchi.Protocol([kind, |data|] + data + tail);
            if kind != PROTOCOL_REDFISH then r == Some(([], tail))
            else r == match Redfish.Decode(data) { case None => None case Some(x) => Some(([x], tail)) }
  {
    FrameLayout(kind, data, tail);
  }

  /** A record that is cut off fails. */
  lemma ShortFrame(d: seq<byte>, n: nat)
    requires n > 0 && (|d| < 2 || |d| - 2 < d[1])
    ensures Protocols(d, n) == None
  {
  }

  lemma ProtocolOfEncoded(p: Protocol, tail: seq<byte>)
    requires Encodable(p)
    ensures Mchi.Protocol(EncodeProtocol(p) + tail) == Some((RecordOf(p), tail))
  {
    match p {
      case OverIp(r) =>
        RedfishAlone(r);
        FrameMeans(PROTOCOL_REDFISH, Redfish.Encode(r), tail);
      case OtherProtocol(kind, data) => FrameMeans(kind, data, tail);
    }
  }

  /** Exactly the Redfish records come out, whatever other protocols are between them. */
  lemma {:induction false} ProtocolsOfEncoded(ps: seq<Protocol>, tail: seq<byte>)
    requires AllEncodable(ps)
    ensures Protocols(EncodeProtocols(ps) + tail, |ps|) == Some(RecordsIn(ps))
    decreases |ps|
  {
    if |ps| > 0 {
      var behind := EncodeProtocols(ps[1..]) + tail;
      assert EncodeProtocols(ps) + tail == EncodeProtocol(ps[0]) + behind;
      ProtocolOfEncoded(ps[0], behind);
      ProtocolsOfEncoded(ps[1..], tail);
    }
  }

  // ----- whole structures -----

  /** A structure: its header, the type and length of the device description, the description and the rest. */
  function Framed(header: seq<byte>, spec: seq<byte>, rest: seq<byte>): seq<byte>
    requires |header| == 4 && |spec| < 256
  {
    header + [TYPE_NET, |spec|] + spec + rest
  }

  function Counted(ps: seq<Protocol>): seq<byte>
    requires AllEncodable(ps) && |ps| < 256
  {
    [|ps|] + EncodeProtocols(ps)
  }

  lemma BodyLayout(header: seq<byte>, spec: seq<byte>, rest: seq<byte>)
    requires |header| == 4 && |spec| < 256
    ensures var body := Framed(header, spec, rest);
            && |body| == 6 + |spec| + |rest| && body[4] == TYPE_NET && body[5] == |spec|
            && body[6..][..|spec|] == spec && body[6..][|spec|..] == rest
  {
  }

  lemma BodyMeans(header: seq<byte>, spec: seq<byte>, rest: seq<byte>, strings: seq<seq<byte>>)
    requires |header| == 4 && 0 < |spec| < 256
    ensures SpecOf(Framed(header, spec, rest), strings) == Describe(spec, strings)
    ensures RecordsOf(Framed(header, spec, rest)) == RecordsAt(rest)
  {
    BodyLayout(header, spec, rest);
  }

  lemma RecordsOfEncoded(ps: seq<Protocol>)
    requires AllEncodable(ps) && |ps| < 256
    ensures RecordsAt(Counted(ps)) == Some(RecordsIn(ps))
  {
    assert Counted(ps)[1..] == EncodeProtocols(ps) + [];
    ProtocolsOfEncoded(ps, []);
  }

  /** Decoding a host interface structure undoes encoding it, from the description `d` of a device on. */
  lemma BodyOfEncoded(header: seq<byte>, d: seq<byte>, spec: Spec, strings: seq<seq<byte>>, index: byte,
                      ps: seq<Protocol>)
    requires Describable(spec, strings, index) && d == EncodeSpec(spec, strings, index)
    requires |header| == 4 && |d| < 256 && AllEncodable(ps) && |ps| < 256
    ensures SpecOf(Framed(header, d, Counted(ps)), strings) == Some(spec)
    ensures RecordsOf(Framed(header, d, Counted(ps))) == Some(RecordsIn(ps))
  {
    DescribeOfEncoded(spec, strings, index);
    BodyMeans(header, d, Counted(ps), strings);
    RecordsOfEncoded(ps);
  }
}
