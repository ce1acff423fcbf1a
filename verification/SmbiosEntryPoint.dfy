/** The 64-bit SMBIOS entry point (clause 5.2.2 of DMTF DSP0134) as client/redfish.c decodes it. */
module SmbiosEntryPoint {
  import opened Common
  import opened Buffer

  const ENTRY_POINT_LENGTH: nat := 24
  const SIGNATURE: seq<byte> := [0x5f, 0x53, 0x4d, 0x33, 0x5f]
  const VERSION_MAJOR: nat := 0x03_0000
  const REVISION: byte := 1

  datatype EntryPoint = EntryPoint(version: nat, revision: byte, maxLength: nat, offset: nat)

  function Sum(d: seq<byte>): nat {
    if |d| == 0 then 0 else Sum(d[..|d| - 1]) + d[|d| - 1]
  }

  /** Bytes add up to 0 in 8-bit arithmetic. */
  method Checksum(d: seq<byte>) returns (fine: bool)
    ensures fine == (Sum(d) % 256 == 0)
  {
    var sum: int := 0;
    for i := 0 to |d|
      invariant sum == Sum(d[..i]) % 256
    {
      assert d[..i + 1][..i] == d[..i];
      sum := (sum + d[i]) % 256;
    }
    assert d[..|d|] == d;
    return sum == 0;
  }

  function VersionNumber(major: int, minor: int, patch: int): int {
    0x1_0000 * major + 0x100 * minor + patch
  }

  function Version(d: seq<byte>): nat
    requires |d| >= ENTRY_POINT_LENGTH
  {
    VersionNumber(d[7], d[8], d[9])
  }

  /** A file offset that the system can seek to; `wide` says that its offsets have 64 bits. */
  predicate Seekable(offset: nat, wide: bool) {
    wide || offset < 0x1_0000_0000
  }

  function Decode(d: seq<byte>, wide: bool): Option<EntryPoint> {
    if |d| < ENTRY_POINT_LENGTH || d[..5] != SIGNATURE then None
    else if d[6] > |d| || Sum(d[..d[6]]) % 256 != 0 then None
    else if Version(d) < VERSION_MAJOR || d[10] != REVISION || !Seekable(Value(d[16..24]), wide) then None
    else Some(EntryPoint(Version(d), d[10], Value(d[12..16]), Value(d[16..24])))
  }

  /** The fields behind the length byte, read in order. */
  method DecodeFields(buf: Reader, wide: bool) returns (epi: Option<EntryPoint>)
    requires buf.Valid() && |buf.Rest()| >= 17
    modifies buf
    ensures var d := old(buf.Rest());
            epi == if VersionNumber(d[0], d[1], d[2]) < VERSION_MAJOR || d[3] != REVISION then None
                   else if !Seekable(Value(d[9..17]), wide) then None
                   else Some(EntryPoint(VersionNumber(d[0], d[1], d[2]), d[3], Value(d[5..9]), Value(d[9..17])))
  {
    ghost var d := buf.Rest();
    var version := buf.Pull(3);
    var revision := buf.Pull(1);
    var number := VersionNumber(version.value[0], version.value[1], version.value[2]);
    if number < VERSION_MAJOR || revision.value[0] != REVISION { return None; }
    var _ := buf.Pull(1);
    var maxLength := buf.Pull(4);
    assert maxLength.value == d[5..9];
    var offset := buf.Pull(8);
    assert offset.value == d[9..17];
    if !Seekable(Value(offset.value), wide) { return None; }
    return Some(EntryPoint(number, revision.value[0], Value(maxLength.value), Value(offset.value)));
  }

  /** The decoder with its two cursors: `eps` is pulled past the checksummed bytes. */
  method DecodeEntryPoint(eps: Reader, wide: bool) returns (epi: Option<EntryPoint>)
    requires eps.Valid()
    modifies eps
    ensures epi == Decode(old(eps.Rest()), wide)
    ensures eps.Valid() && (epi.Some? ==> eps.Rest() == old(eps.Rest())[old(eps.Rest())[6]..])
  {
    ghost var d := eps.Rest();
    if |eps.data| - eps.head < ENTRY_POINT_LENGTH { return None; }
    var buf := new Reader(eps.data[eps.head..]);
    var signature := eps.Peek(5);
    if signature != Some(SIGNATURE) { return None; }
    var _ := buf.Pull(6);
    var length := buf.Pull(1);
    assert length.value[0] == d[6];
    var summed := eps.Pull(length.value[0]);
    if summed.None? { return None; }
    var fine := Checksum(summed.value);
    if !fine { return None; }
    assert buf.Rest() == d[7..];
    assert d[7..][5..9] == d[12..16] && d[7..][9..17] == d[16..24];
    epi := DecodeFields(buf, wide);
  }

  // ----- encoding -----

  predicate WellFormed(e: EntryPoint) {
    && VERSION_MAJOR <= e.version < 0x100_0000 && e.revision == REVISION
    && e.maxLength < Power256(4) && e.offset < Power256(8)
  }

  function Unsummed(e: EntryPoint, checksum: byte): (d: seq<byte>)
    requires WellFormed(e)
    ensures |d| == 24
  {
    SIGNATURE + [checksum, 24, e.version / 0x1_0000, e.version / 0x100 % 0x100, e.version % 0x100, e.revision, 0]
    + Bytes(e.maxLength, 4) + Bytes(e.offset, 8)
  }

  function Encode(e: EntryPoint): (d: seq<byte>)
    requires WellFormed(e)
    ensures |d| == 24
  {
    Unsummed(e, (256 - Sum(Unsummed(e, 0)) % 256) % 256)
  }

  /** Replacing one byte changes the sum by the difference. */
  lemma {:induction false} SumUpdate(d: seq<byte>, i: nat, x: byte)
    requires i < |d|
    ensures Sum(d[i := x]) == Sum(d) - d[i] + x
    decreases |d|
  {
    var init := d[..|d| - 1];
    if i < |d| - 1 {
      SumUpdate(init, i, x);
      assert d[i := x][..|d| - 1] == init[i := x];
    } else {
      assert d[i := x][..|d| - 1] == init;
    }
  }

  lemma EncodedSum(e: EntryPoint)
    requires WellFormed(e)
    ensures Sum(Encode(e)) % 256 == 0
  {
    var d := Unsummed(e, 0);
    var x := (256 - Sum(d) % 256) % 256;
    assert Unsummed(e, x) == d[5 := x];
    SumUpdate(d, 5, x);
  }

  lemma VersionParts(v: nat)
    requires v < 0x100_0000
    ensures VersionNumber(v / 0x1_0000, v / 0x100 % 0x100, v % 0x100) == v
  {
  }

  /** Decoding undoes encoding, whatever bytes follow, unless the offset is out of reach. */
  lemma RoundTrip(e: EntryPoint, tail: seq<byte>, wide: bool)
    requires WellFormed(e)
    ensures Decode(Encode(e) + tail, wide) == if Seekable(e.offset, wide) then Some(e) else None
  {
    var d := Encode(e) + tail;
    EncodedSum(e);
    assert d[..5] == SIGNATURE && d[6] == 24 && d[..24] == Encode(e);
    VersionParts(e.version);
    ValueOfBytes(e.maxLength, 4);
    ValueOfBytes(e.offset, 8);
    assert d[12..16] == Bytes(e.maxLength, 4);
    assert d[16..24] == Bytes(e.offset, 8);
  }

  lemma {:induction false} ZeroValue(b: seq<byte>)
    ensures Value(b) == 0 <==> forall i :: 0 <= i < |b| ==> b[i] == 0
    decreases |b|
  {
    if |b| > 0 { ZeroValue(b[1..]); }
  }

  /** A number fits into its low bytes exactly when the others are 0. */
  lemma {:induction false} LowBytes(b: seq<byte>, n: nat)
    requires n <= |b|
    ensures Value(b) < Power256(n) <==> forall i :: n <= i < |b| ==> b[i] == 0
    decreases n
  {
    if n == 0 {
      ZeroValue(b);
    } else {
      LowBytes(b[1..], n - 1);
      assert (forall i :: n <= i < |b| ==> b[i] == 0) <==> (forall i :: n - 1 <= i < |b| - 1 ==> b[1..][i] == 0) by {
        forall i | n <= i < |b| ensures b[i] == b[1..][i - 1] { }
      }
    }
  }

  /** Exactly which bytes are accepted, from table 2 of DMTF DSP0134. */
  lemma AcceptedIff(d: seq<byte>, wide: bool)
    ensures Decode(d, wide).Some? <==>
              && |d| >= 24 && d[..5] == [0x5f, 0x53, 0x4d, 0x33, 0x5f]
              && d[6] <= |d| && Sum(d[..d[6]]) % 256 == 0
              && d[7] >= 3 && d[10] == 1
              && (wide || d[20..24] == [0, 0, 0, 0])
  {
    if |d| >= 24 {
      LowBytes(d[16..24], 4);
      assert Power256(4) == 0x1_0000_0000 by { assert Power256(2) == 0x1_0000; }
      assert d[16..24][4..8] == d[20..24];
    }
  }

  // ----- altered bytes -----

  /** No single altered byte inside the checksummed length is accepted, other than the length byte. */
  lemma AlteredByteRejected(d: seq<byte>, i: nat, x: byte, wide: bool)
    requires Decode(d, wide).Some? && i < d[6] && i != 6 && x != d[i]
    ensures Decode(d[i := x], wide) == None
  {
    var n := d[6];
    assert d[i := x][..n] == d[..n][i := x];
    SumUpdate(d[..n], i, x);
  }

  /** An altered length byte is accepted exactly when the bytes it now covers add up to 0. */
  lemma AlteredLengthAcceptedIff(d: seq<byte>, x: byte, wide: bool)
    requires Decode(d, wide).Some?
    ensures Decode(d[6 := x], wide).Some? <==> x <= |d| && Sum(d[6 := x][..x]) % 256 == 0
    ensures Decode(d[6 := x], wide).Some? ==> Decode(d[6 := x], wide) == Decode(d, wide)
  {
    assert d[6 := x][..5] == d[..5];
    assert d[6 := x][12..16] == d[12..16] && d[6 := x][16..24] == d[16..24];
  }

  /** A length of 0 switches the checksum off: it is accepted in every entry point that is accepted. */
  lemma ZeroLengthAccepted(d: seq<byte>, wide: bool)
    requires Decode(d, wide).Some?
    ensures Decode(d[6 := 0], wide) == Decode(d, wide)
  {
    AlteredLengthAcceptedIff(d, 0, wide);
    assert d[6 := 0][..0] == [];
  }

  /** A longer length is accepted too: 24 altered to 25 passes when the next byte is 255. */
  lemma AlteredLengthAccepted(e: EntryPoint, tail: seq<byte>, wide: bool)
    requires WellFormed(e) && Seekable(e.offset, wide)
    ensures var d := Encode(e) + [255] + tail; Decode(d, wide) == Decode(d[6 := 25], wide) == Some(e)
  {
    var d := Encode(e) + [255] + tail;
    assert d == Encode(e) + ([255] + tail);
    RoundTrip(e, [255] + tail, wide);
    EncodedSum(e);
    SumUpdate(Encode(e), 6, 25);
    var covered := d[6 := 25][..25];
    assert covered[..24] == Encode(e)[6 := 25] && covered[24] == 255;
    assert Sum(covered) == Sum(Encode(e)) + 256;
    AlteredLengthAcceptedIff(d, 25, wide);
  }
}
