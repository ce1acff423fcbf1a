/**
 The host interface decoder of client/redfish.c: entries that share reference-counted
 network devices. Searching sysfs for a device is an oracle.
 */
module Mchi {
  import opened Common
  import opened Buffer
  import Redfish

  const TYPE_NET: byte := 0x40
  const USB_V1: byte := 2
  const PCI_V1: byte := 3
  const USB_V2: byte := 4
  const PROTOCOL_REDFISH: byte := 4

  /** What identifies a network device. */
  datatype Spec =
    | Usb(kind: byte, vendor: nat, product: nat, serial: Option<seq<byte>>, mac: Option<seq<byte>>)
    | Pci(vendor: nat, device: nat, subVendor: nat, subDevice: nat)

  // ----- parsing -----

  /** The characters of a UTF-16LE string, if all of them are printable ASCII. */
  function Ascii(d: seq<byte>): Option<seq<byte>> {
    if |d| < 2 then Some([])
    else if Word(d[0], d[1]) < 0x20 || Word(d[0], d[1]) >= 0x7f then None
    else
      match Ascii(d[2..])
      case None => None
      case Some(s) => Some([d[0]] + s)
  }

  function Serial(d: seq<byte>): Option<seq<byte>> {
    if Ascii(d) == Some([]) then None else Ascii(d)
  }

  function DescribeUsb1(r: seq<byte>): Option<Spec> {
    if |r| < 5 then None
    else if r[4] > 2 && r[4] % 2 == 0 then
      if |r| < 6 then None
      else Some(Usb(USB_V1, Word(r[0], r[1]), Word(r[2], r[3]), if r[5] == 3 then Serial(r[6..]) else None, None))
    else Some(Usb(USB_V1, Word(r[0], r[1]), Word(r[2], r[3]), None, None))
  }

  function DescribeUsb2(r: seq<byte>, strings: seq<seq<byte>>): Option<Spec> {
    if |r| < 12 then None
    else
      var serial := if 0 < r[5] <= |strings| then Some(strings[r[5] - 1]) else None;
      Some(Usb(USB_V2, Word(r[1], r[2]), Word(r[3], r[4]), serial, Some(r[6..12])))
  }

  function DescribePci(r: seq<byte>): Option<Spec> {
    if |r| < 8 then None
    else Some(Pci(Word(r[0], r[1]), Word(r[2], r[3]), Word(r[4], r[5]), Word(r[6], r[7])))
  }

  function Describe(d: seq<byte>, strings: seq<seq<byte>>): Option<Spec> {
    if |d| == 0 then None
    else if d[0] == USB_V1 then DescribeUsb1(d[1..])
    else if d[0] == USB_V2 then DescribeUsb2(d[1..], strings)
    else if d[0] == PCI_V1 then DescribePci(d[1..])
    else None
  }

  /** One protocol record: the Redfish record in it, if it is one, and the bytes behind it. */
  function Protocol(d: seq<byte>): Option<(seq<Redfish.Record>, seq<byte>)> {
    if |d| < 2 || |d| - 2 < d[1] then None
    else if d[0] != PROTOCOL_REDFISH then Some(([], d[2..][d[1]..]))
    else
      match Redfish.Decode(d[2..][..d[1]])
      case None => None
      case Some(r) => Some(([r], d[2..][d[1]..]))
  }

  function Prepend(rs: seq<Redfish.Record>, rest: Option<seq<Redfish.Record>>): Option<seq<Redfish.Record>> {
    if rest.None? then None else Some(rs + rest.value)
  }

  /** The Redfish records among `n` protocol records; others are skipped. */
  function Protocols(d: seq<byte>, n: nat): Option<seq<Redfish.Record>> {
    if n == 0 then Some([])
    else
      match Protocol(d)
      case None => None
      case Some((rs, rest)) => Prepend(rs, Protocols(rest, n - 1))
  }

  method DecodeProtocol(buffer: Reader) returns (r: Option<seq<Redfish.Record>>)
    requires buffer.Valid()
    modifies buffer
    ensures buffer.Valid()
    ensures match Protocol(old(buffer.Rest()))
            case None => r == None
            case Some((rs, rest)) => r == Some(rs) && buffer.Rest() == rest
  {
    ghost var d := buffer.Rest();
    var kind := buffer.Pull(1);
    if kind.None? { return None; }
    var length := buffer.Pull(1);
    if length.None? { return None; }
    assert kind.value[0] == d[0] && length.value[0] == d[1] && buffer.Rest() == d[2..];
    var data := buffer.Pull(length.value[0]);
    if data.None? { return None; }
    if kind.value[0] != PROTOCOL_REDFISH { return Some([]); }
    var pbuf := new Reader(data.value);
    var record := Redfish.DecodeRecord(pbuf);
    return if record.None? then None else Some([record.value]);
  }

  lemma PrependProtocol(records: seq<Redfish.Record>, d: seq<byte>, n: nat)
    requires n > 0
    ensures match Protocol(d)
            case None => Prepend(records, Protocols(d, n)) == None
            case Some((rs, rest)) => Prepend(records, Protocols(d, n)) == Prepend(records + rs, Protocols(rest, n - 1))
  {
    var turn := Protocol(d);
    if turn.Some? {
      var rest := Protocols(turn.value.1, n - 1);
      assert rest.Some? ==> records + (turn.value.0 + rest.value) == records + turn.value.0 + rest.value;
    }
  }

  method DecodeProtocols(buffer: Reader, n: nat) returns (r: Option<seq<Redfish.Record>>)
    requires buffer.Valid()
    modifies buffer
    ensures r == Protocols(old(buffer.Rest()), n)
  {
    var records: seq<Redfish.Record> := [];
    PrependNothing(Protocols(buffer.Rest(), n));
    for i := 0 to n
      invariant buffer.Valid()
      invariant Prepend(records, Protocols(buffer.Rest(), n - i)) == Protocols(old(buffer.Rest()), n)
    {
      PrependProtocol(records, buffer.Rest(), n - i);
      var one := DecodeProtocol(buffer);
      if one.None? { return None; }
      records := records + one.value;
    }
    assert records + [] == records;
    return Some(records);
  }

  lemma PrependNothing(t: Option<seq<Redfish.Record>>)
    ensures Prepend([], t) == t
  {
    if t.Some? { assert [] + t.value == t.value; }
  }

  /** The device description of a host interface structure. */
  function SpecOf(body: seq<byte>, strings: seq<seq<byte>>): Option<Spec> {
    if |body| < 6 || body[4] != TYPE_NET || body[5] == 0 || |body| - 6 < body[5] then None
    else Describe(body[6..][..body[5]], strings)
  }

  /** A count of protocol records, and the records. */
  function RecordsAt(d: seq<byte>): Option<seq<Redfish.Record>> {
    if |d| == 0 then None else Protocols(d[1..], d[0])
  }

  /** The Redfish records behind the device description. */
  function RecordsOf(body: seq<byte>): Option<seq<Redfish.Record>> {
    if |body| < 6 || |body| - 6 < body[5] then None else RecordsAt(body[6..][body[5]..])
  }

  method DecodeSpec(body: seq<byte>, strings: seq<seq<byte>>) returns (spec: Option<Spec>, buffer: Reader)
    ensures spec == SpecOf(body, strings)
    ensures fresh(buffer) && buffer.Valid() && (spec.Some? ==> RecordsOf(body) == RecordsAt(buffer.Rest()))
  {
    buffer := new Reader(body);
    var header := buffer.Pull(4);
    if header.None? { return None, buffer; }
    var kind := buffer.Pull(1);
    if kind.None? { return None, buffer; }
    var length := buffer.Pull(1);
    if length.None? { return None, buffer; }
    assert kind.value[0] == body[4] && length.value[0] == body[5] && buffer.Rest() == body[6..];
    if kind.value[0] != TYPE_NET || length.value[0] == 0 { return None, buffer; }
    var data := buffer.Pull(length.value[0]);
    if data.None? { return None, buffer; }
    spec := Describe(data.value, strings);
  }

  method DecodeRecords(buffer: Reader) returns (r: Option<seq<Redfish.Record>>)
    requires buffer.Valid()
    modifies buffer
    ensures r == RecordsAt(old(buffer.Rest()))
  {
    var count := buffer.Pull(1);
    if count.None? { return None; }
    r := DecodeProtocols(buffer, count.value[0]);
  }

  // ----- devices and entries -----

  class NetDev {
    const spec: Spec
    var refcount: nat

    constructor (spec: Spec)
      ensures this.spec == spec && refcount == 1
    {
      this.spec, refcount := spec, 1;
    }
  }

  datatype MchiEntry = MchiEntry(handle: nat, dev: NetDev, records: seq<Redfish.Record>)

  /** How many of the entries hold the device. */
  function Holders(entries: seq<MchiEntry>, d: NetDev): nat {
    if |entries| == 0 then 0
    else Holders(entries[..|entries| - 1], d) + if entries[|entries| - 1].dev == d then 1 else 0
  }

  ghost predicate Listed(entries: seq<MchiEntry>, live: set<NetDev>) {
    forall i :: 0 <= i < |entries| ==> entries[i].dev in live
  }

  /** No two devices have the same description. */
  ghost predicate Distinguished(live: set<NetDev>) {
    forall d, e :: d in live && e in live && d.spec == e.spec ==> d == e
  }

  lemma DistinguishedWith(live: set<NetDev>, dev: NetDev)
    requires Distinguished(live) && forall d :: d in live ==> d.spec != dev.spec
    ensures Distinguished(live + {dev})
  {
  }

  /** Some entry's device has the description. */
  ghost predicate Known(entries: seq<MchiEntry>, spec: Spec) {
    exists i :: 0 <= i < |entries| && entries[i].dev.spec == spec
  }

  class Decoder {
    var entries: seq<MchiEntry>
    /** Devices that were created and not freed, and how often each device was freed. */
    ghost var live: set<NetDev>
    ghost var freed: multiset<NetDev>

    /**
     Every reference is one of an entry, or `extra`'s, which is about to become one.
     */
    ghost predicate Counted(extra: NetDev?)
      reads this, live
    {
      && Listed(entries, live) && Distinguished(live)
      && (extra != null ==> extra in live)
      && (forall d :: d in live ==> d.refcount > 0 && freed[d] == 0 &&
                                    d.refcount == Holders(entries, d) + if d == extra then 1 else 0)
      && (forall d :: d in freed ==> freed[d] == 1)
    }

    ghost predicate Valid()
      reads this, live
    {
      Counted(null)
    }

    constructor ()
      ensures Valid() && entries == [] && live == {} && freed == multiset{}
    {
      entries, live, freed := [], {}, multiset{};
    }

    /** Drops one reference; the last one frees the device. */
    method Free(dev: NetDev)
      requires Counted(dev)
      modifies this`live, this`freed, dev`refcount
      ensures Valid()
      ensures dev.refcount == old(dev.refcount) - 1
      ensures if dev.refcount == 0 then live == old(live) - {dev} && freed == old(freed) + multiset{dev}
              else live == old(live) && freed == old(freed)
    {
      dev.refcount := dev.refcount - 1;
      if dev.refcount == 0 {
        live := live - {dev};
        freed := freed + multiset{dev};
        HeldNowhere(entries, dev);
      }
    }

    /** A reference to a listed device with this description, or to a new one that sysfs knows. */
    method Lookup(spec: Spec, present: bool) returns (dev: NetDev?)
      requires Valid()
      modifies this`live, live`refcount
      ensures Counted(dev)
      ensures dev == null <==> !present && !Known(entries, spec)
      ensures dev != null ==> dev.spec == spec
      ensures dev != null && dev !in old(live) ==> fresh(dev) && dev.refcount == 1 && live == old(live) + {dev}
      ensures dev == null || dev in old(live) ==> live == old(live)
      ensures forall d :: d in old(live) ==> d.refcount == old(d.refcount) + if d == dev then 1 else 0
    {
      for i := 0 to |entries|
        invariant Valid() && live == old(live)
        invariant forall d :: d in live ==> d.refcount == old(d.refcount)
        invariant forall j :: 0 <= j < i ==> entries[j].dev.spec != spec
      {
        if entries[i].dev.spec == spec {
          dev := entries[i].dev;
          dev.refcount := dev.refcount + 1;
          return;
        }
      }
      if !present { return null; }
      forall d | d in live ensures d.spec != spec { HeldSomewhere(entries, d); }
      dev := new NetDev(spec);
      DistinguishedWith(live, dev);
      live := live + {dev};
      NotHeld(entries, dev);
    }

    /** Everything is as it was: entries, references, and which devices exist. */
    twostate predicate Untouched()
      reads this, live
    {
      && entries == old(entries) && live == old(live)
      && forall d :: d in old(live) ==> d.refcount == old(d.refcount)
    }

    /** The parts behind the device description; a failure gives the reference back. */
    method Finish(handle: nat, dev: NetDev, records: Option<seq<Redfish.Record>>) returns (ok: bool)
      requires Counted(dev)
      modifies this, dev`refcount
      ensures Valid()
      ensures ok == (records.Some? && |records.value| > 0)
      ensures ok ==> entries == old(entries) + [MchiEntry(handle, dev, records.value)] && live == old(live) &&
                     freed == old(freed) && dev.refcount == old(dev.refcount)
      ensures !ok ==> entries == old(entries) && dev.refcount == old(dev.refcount) - 1 &&
                      live == (if dev.refcount == 0 then old(live) - {dev} else old(live))
    {
      if records.None? || |records.value| == 0 {
        Free(dev);
        return false;
      }
      var entry := MchiEntry(handle, dev, records.value);
      assert (entries + [entry])[..|entries|] == entries;
      entries := entries + [entry];
      return true;
    }

    /** Decodes a host interface structure; `present` says whether sysfs knows the device. */
    method DecodeMchi(handle: nat, body: seq<byte>, strings: seq<seq<byte>>, present: bool) returns (ok: bool)
      requires Valid()
      modifies this, live`refcount
      ensures Valid()
      ensures ok <==> && SpecOf(body, strings).Some? && RecordsOf(body).Some? && |RecordsOf(body).value| > 0
                      && (present || Known(old(entries), SpecOf(body, strings).value))
      ensures ok ==> exists dev :: entries == old(entries) + [MchiEntry(handle, dev, RecordsOf(body).value)] &&
                                   dev.spec == SpecOf(body, strings).value
      ensures !ok ==> Untouched()
    {
      var spec, buffer := DecodeSpec(body, strings);
      if spec.None? { return false; }
      var dev := Lookup(spec.value, present);
      if dev == null { return false; }
      var records := DecodeRecords(buffer);
      ok := Finish(handle, dev, records);
    }

    /** Destroying the list frees every device exactly once. */
    method Destroy()
      requires Valid()
      modifies this, live`refcount
      ensures Valid() && entries == [] && live == {}
      ensures freed == old(freed) + multiset(old(live))
    {
      while |entries| > 0
        invariant Valid()
        invariant live <= old(live)
        invariant freed + multiset(live) == old(freed) + multiset(old(live))
        decreases |entries|
      {
        var dev := entries[0].dev;
        HoldersWithoutFirst(entries);
        entries := entries[1..];
        Free(dev);
      }
      assert forall d :: d in live ==> Holders(entries, d) == 0;
    }
  }

  lemma {:induction false} HoldersWithoutFirst(entries: seq<MchiEntry>)
    requires |entries| > 0
    ensures forall d :: Holders(entries, d) == Holders(entries[1..], d) + if entries[0].dev == d then 1 else 0
    decreases |entries|
  {
    if |entries| > 1 {
      var init := entries[..|entries| - 1];
      HoldersWithoutFirst(init);
      assert init[1..] == entries[1..][..|entries| - 2];
    }
  }

  lemma {:induction false} HeldSomewhere(entries: seq<MchiEntry>, d: NetDev)
    requires Holders(entries, d) > 0
    ensures exists i :: 0 <= i < |entries| && entries[i].dev == d
    decreases |entries|
  {
    if entries[|entries| - 1].dev != d { HeldSomewhere(entries[..|entries| - 1], d); }
  }

  lemma {:induction false} HeldNowhere(entries: seq<MchiEntry>, d: NetDev)
    requires Holders(entries, d) == 0
    ensures forall i :: 0 <= i < |entries| ==> entries[i].dev != d
    decreases |entries|
  {
    if |entries| > 0 { HeldNowhere(entries[..|entries| - 1], d); }
  }

  lemma {:induction false} NotHeld(entries: seq<MchiEntry>, d: NetDev)
    requires forall i :: 0 <= i < |entries| ==> entries[i].dev != d
    ensures Holders(entries, d) == 0
    decreases |entries|
  {
    if |entries| > 0 { NotHeld(entries[..|entries| - 1], d); }
  }
}
