/** The Redfish-over-IP protocol record that client/redfish.c decodes, and a matching encoder. */
module Redfish {
  import opened Common
  import opened Buffer
  import Netmask

  const FAMILY_IPV4: byte := 1
  const FAMILY_IPV6: byte := 2

  datatype Endpoint = Endpoint(setup: byte, family: byte, addr: seq<byte>, plen: nat)

  datatype Record = Record(uuid: seq<byte>, host: Endpoint, service: Endpoint, port: nat, vlan: nat,
                           hostname: seq<byte>)

  // ----- fields -----

  /** The first half of the UUID is stored with little-endian fields. */
  function SwapUuid(u: seq<byte>): (r: seq<byte>)
    requires |u| == 16
    ensures |r| == 16
  {
    [u[3], u[2], u[1], u[0], u[5], u[4], u[7], u[6]] + u[8..16]
  }

  lemma SwapUuidTwice(u: seq<byte>)
    requires |u| == 16
    ensures SwapUuid(SwapUuid(u)) == u
  {
    var s := SwapUuid(u);
    assert s[8..16] == u[8..16];
    assert SwapUuid(s) == [s[3], s[2], s[1], s[0], s[5], s[4], s[7], s[6]] + u[8..16];
    assert u == [u[0], u[1], u[2], u[3], u[4], u[5], u[6], u[7]] + u[8..16];
  }

  function ToBits(d: seq<byte>): (m: seq<bv8>)
    ensures |m| == |d|
  {
    seq(|d|, i requires 0 <= i < |d| => d[i] as bv8)
  }

  function FromBits(m: seq<bv8>): (d: seq<byte>)
    ensures |d| == |m|
  {
    seq(|m|, i requires 0 <= i < |m| => m[i] as byte)
  }

  lemma OctetTrip(x: bv8)
    ensures (x as byte) as bv8 == x
  {
  }

  lemma BitsTrip(m: seq<bv8>)
    ensures ToBits(FromBits(m)) == m
  {
    forall i | 0 <= i < |m| ensures ToBits(FromBits(m))[i] == m[i] { OctetTrip(m[i]); }
  }

  /** IPv4 addresses and masks use the first 4 of 16 bytes. */
  function Width(family: byte): nat {
    if family == FAMILY_IPV4 then 4 else 16
  }

  predicate Supported(family: byte) {
    family == FAMILY_IPV4 || family == FAMILY_IPV6
  }

  /** The endpoint at the start of `d`: setup, family, address and mask. */
  function EndpointAt(d: seq<byte>): Endpoint
    requires |d| >= 34
  {
    var w := Width(d[1]);
    Endpoint(d[0], d[1], d[2..2 + w], Netmask.Count(ToBits(d[18..18 + w])))
  }

  /** Port, VLAN and host name at the start of `d`. */
  function RestAt(d: seq<byte>): Option<(nat, nat, seq<byte>)> {
    if |d| < 7 || |d| - 7 < d[6] then None
    else Some((Word(d[0], d[1]), Value(d[2..6]), d[7..][..d[6]]))
  }

  function Decode(d: seq<byte>): Option<Record> {
    if |d| < 84 || !Supported(d[17]) || !Supported(d[51]) then None
    else
      match RestAt(d[84..])
      case None => None
      case Some((port, vlan, hostname)) =>
        Some(Record(SwapUuid(d[..16]), EndpointAt(d[16..]), EndpointAt(d[50..]), port, vlan, hostname))
  }

  // ----- the decoder -----

  /** One endpoint; `None` when bytes are missing or the family is not supported. */
  method DecodeEndpoint(buf: Reader) returns (e: Option<Endpoint>)
    requires buf.Valid()
    modifies buf
    ensures buf.Valid()
    ensures var d := old(buf.Rest());
            if |d| >= 34 && Supported(d[1]) then e == Some(EndpointAt(d)) && buf.Rest() == d[34..]
            else e == None
  {
    ghost var d := buf.Rest();
    var setup := buf.Pull(1);
    if setup.None? { return None; }
    var family := buf.Pull(1);
    if family.None? { return None; }
    assert family.value[0] == d[1];
    if !Supported(family.value[0]) { return None; }
    var addr := buf.Pull(16);
    if addr.None? { return None; }
    var mask := buf.Pull(16);
    if mask.None? { return None; }
    var w := Width(family.value[0]);
    assert addr.value[..w] == d[2..2 + w] && mask.value[..w] == d[18..18 + w];
    return Some(Endpoint(setup.value[0], family.value[0], addr.value[..w], Netmask.Count(ToBits(mask.value[..w]))));
  }

  method DecodeRest(buf: Reader) returns (r: Option<(nat, nat, seq<byte>)>)
    requires buf.Valid()
    modifies buf
    ensures r == RestAt(old(buf.Rest()))
  {
    ghost var d := buf.Rest();
    var port := buf.Pull(2);
    if port.None? { return None; }
    var vlan := buf.Pull(4);
    if vlan.None? { return None; }
    assert vlan.value == d[2..6];
    var hlen := buf.Pull(1);
    if hlen.None? { return None; }
    assert hlen.value[0] == d[6] && buf.Rest() == d[7..];
    var hostname := buf.Pull(hlen.value[0]);
    if hostname.None? { return None; }
    return Some((Word(port.value[0], port.value[1]), Value(vlan.value), hostname.value));
  }

  method DecodeRecord(buf: Reader) returns (r: Option<Record>)
    requires buf.Valid()
    modifies buf
    ensures r == Decode(old(buf.Rest()))
  {
    ghost var d := buf.Rest();
    var uuid := buf.Pull(16);
    if uuid.None? { return None; }
    assert buf.Rest() == d[16..];
    var host := DecodeEndpoint(buf);
    if host.None? { return None; }
    assert buf.Rest() == d[50..];
    var service := DecodeEndpoint(buf);
    if service.None? { return None; }
    assert buf.Rest() == d[84..];
    var rest := DecodeRest(buf);
    if rest.None? { return None; }
    return Some(Record(SwapUuid(uuid.value), host.value, service.value, rest.value.0, rest.value.1, rest.value.2));
  }

  // ----- fields on the wire -----

  /** The value of bytes in network order, most significant first. */
  function NetworkValue(b: seq<byte>): nat {
    if |b| == 0 then 0 else 256 * NetworkValue(b[..|b| - 1]) + b[|b| - 1]
  }

  /** Reversed bytes have the same value read from the other end. */
  lemma {:induction false} ReversedValue(a: seq<byte>, b: seq<byte>)
    requires |a| == |b| && forall i :: 0 <= i < |a| ==> a[i] == b[|a| - 1 - i]
    ensures NetworkValue(a) == Value(b)
    decreases |a|
  {
    if |a| > 0 { ReversedValue(a[..|a| - 1], b[1..]); }
  }

  /**
   The first three fields of the UUID are little-endian numbers on the wire and in the network
   order of RFC 4122 in the record; the other eight octets are taken as they are.
   */
  lemma UuidInNetworkOrder(d: seq<byte>)
    requires Decode(d).Some?
    ensures var u := Decode(d).value.uuid;
            && |u| == 16 && |d| >= 16
            && NetworkValue(u[0..4]) == Value(d[0..4])
            && NetworkValue(u[4..6]) == Value(d[4..6])
            && NetworkValue(u[6..8]) == Value(d[6..8])
            && u[8..16] == d[8..16]
  {
    var u := Decode(d).value.uuid;
    ReversedValue(u[0..4], d[0..4]);
    ReversedValue(u[4..6], d[4..6]);
    ReversedValue(u[6..8], d[6..8]);
    assert u[8..16] == d[8..16];
  }

  lemma WordValue(b: seq<byte>)
    requires |b| == 2
    ensures Value(b) == Word(b[0], b[1])
  {
    var rest := b[1..];
    assert rest[1..] == [];
    assert Value(rest) == rest[0];
  }

  lemma EndpointOnTheWire(d: seq<byte>, k: nat)
    requires k + 34 <= |d| && Supported(d[k + 1])
    ensures var e := EndpointAt(d[k..]);
            && e.setup == d[k] && e.family == d[k + 1]
            && e.addr == d[k + 2..k + 2 + if d[k + 1] == 1 then 4 else 16]
            && e.plen == Netmask.Count(ToBits(d[k + 18..k + 18 + if d[k + 1] == 1 then 4 else 16]))
  {
    var w := Width(d[k + 1]);
    assert d[k..][2..2 + w] == d[k + 2..k + 2 + w];
    assert d[k..][18..18 + w] == d[k + 18..k + 18 + w];
  }

  lemma RestOnTheWire(d: seq<byte>)
    requires |d| >= 84 && RestAt(d[84..]).Some?
    ensures |d| >= 91 && |d| - 91 >= d[90]
    ensures RestAt(d[84..]).value == (Value(d[84..86]), Value(d[86..90]), d[91..][..d[90]])
  {
    assert d[84..][2..6] == d[86..90] && d[84..][7..] == d[91..];
    WordValue(d[84..86]);
  }

  /** Where the other fields of a decoded record are on the wire: host, service, port, VLAN and host name. */
  lemma FieldsOnTheWire(d: seq<byte>)
    requires Decode(d).Some?
    ensures |d| >= 91 && |d| - 91 >= d[90] && d[17] in {1, 2} && d[51] in {1, 2}
    ensures var r := Decode(d).value;
            && r.host.setup == d[16] && r.host.family == d[17]
            && r.host.addr == d[18..18 + if d[17] == 1 then 4 else 16]
            && r.service.setup == d[50] && r.service.family == d[51]
            && r.service.addr == d[52..52 + if d[51] == 1 then 4 else 16]
            && r.port == Value(d[84..86]) && r.vlan == Value(d[86..90]) && r.hostname == d[91..][..d[90]]
  {
    EndpointOnTheWire(d, 16);
    EndpointOnTheWire(d, 50);
    RestOnTheWire(d);
  }

  /** Exactly which bytes are a record: two endpoints of known families and a complete host name. */
  lemma AcceptedIff(d: seq<byte>)
    ensures Decode(d).Some? <==> |d| >= 91 && d[17] in {1, 2} && d[51] in {1, 2} && |d| - 91 >= d[90]
  {
    if |d| >= 84 { assert |d[84..]| == |d| - 84; }
  }

  // ----- encoding -----

  predicate EndpointFits(e: Endpoint) {
    Supported(e.family) && |e.addr| == Width(e.family) && e.plen <= 8 * |e.addr|
  }

  predicate WellFormed(r: Record) {
    && |r.uuid| == 16 && EndpointFits(r.host) && EndpointFits(r.service)
    && r.port < 0x1_0000 && r.vlan < Power256(4) && |r.hostname| < 256
  }

  function Padded(d: seq<byte>): (r: seq<byte>)
    requires |d| <= 16
    ensures |r| == 16
  {
    d + seq(16 - |d|, _ => 0)
  }

  function EncodeEndpoint(e: Endpoint): (d: seq<byte>)
    requires EndpointFits(e)
    ensures |d| == 34
  {
    [e.setup, e.family] + Padded(e.addr) + Padded(FromBits(Netmask.Mask(|e.addr|, e.plen)))
  }

  function EncodeRest(r: Record): seq<byte>
    requires WellFormed(r)
  {
    [r.port % 256, r.port / 256] + Bytes(r.vlan, 4) + [|r.hostname|] + r.hostname
  }

  function Encode(r: Record): seq<byte>
    requires WellFormed(r)
  {
    SwapUuid(r.uuid) + EncodeEndpoint(r.host) + EncodeEndpoint(r.service) + EncodeRest(r)
  }

  lemma EndpointTrip(e: Endpoint, tail: seq<byte>)
    requires EndpointFits(e)
    ensures EndpointAt(EncodeEndpoint(e) + tail) == e
  {
    var d, w := EncodeEndpoint(e) + tail, |e.addr|;
    var mask := Netmask.Mask(w, e.plen);
    assert d[2..2 + w] == e.addr;
    assert d[18..18 + w] == FromBits(mask);
    BitsTrip(mask);
    Netmask.CountOfMask(w, e.plen, Netmask.Count(mask));
  }

  lemma RestTrip(r: Record, tail: seq<byte>)
    requires WellFormed(r)
    ensures RestAt(EncodeRest(r) + tail) == Some((r.port, r.vlan, r.hostname))
  {
    var d := EncodeRest(r) + tail;
    assert d[2..6] == Bytes(r.vlan, 4) && d[7..] == r.hostname + tail;
    ValueOfBytes(r.vlan, 4);
  }

  lemma Layout(a: seq<byte>, b: seq<byte>, c: seq<byte>, e: seq<byte>, tail: seq<byte>)
    requires |a| == 16 && |b| == |c| == 34
    ensures var d := a + b + c + e + tail;
            && |d| >= 84 && d[..16] == a && d[16..] == b + (c + e + tail)
            && d[50..] == c + (e + tail) && d[84..] == e + tail
            && d[17] == b[1] && d[51] == c[1]
  {
  }

  /** Decoding undoes encoding, byte-swapped UUID and netmasks included. */
  lemma RoundTrip(r: Record, tail: seq<byte>)
    requires WellFormed(r)
    ensures Decode(Encode(r) + tail) == Some(r)
  {
    var host, service, rest := EncodeEndpoint(r.host), EncodeEndpoint(r.service), EncodeRest(r);
    Layout(SwapUuid(r.uuid), host, service, rest, tail);
    SwapUuidTwice(r.uuid);
    EndpointTrip(r.host, service + rest + tail);
    EndpointTrip(r.service, rest + tail);
    RestTrip(r, tail);
  }
}
