/** The SMBIOS structure table decoder of client/redfish.c, and a matching encoder. */
module SmbiosTables {
  import opened Common
  import opened Buffer
  import opened SmbiosStrings

  const HEADER_LENGTH: nat := 4
  const END_OF_TABLE: byte := 0x7f

  /** What a handler is given: the header, the structure including it, and the strings. */
  datatype Entry = Entry(kind: byte, handle: nat, body: seq<byte>, strings: seq<seq<byte>>)

  /** Whether the table was sound up to its end, and the entries handed over. */
  datatype Table = Table(ok: bool, entries: seq<Entry>)

  function Header(d: seq<byte>, strings: seq<seq<byte>>): Entry
    requires |d| >= 4 && d[1] <= |d|
  {
    Entry(d[0], Word(d[2], d[3]), d[..d[1]], strings)
  }

  /** The table stops before this structure: end marker or entry count reached. */
  predicate AtEnd(d: seq<byte>, entNum: nat, num: nat)
    requires |d| >= 4
  {
    d[0] == END_OF_TABLE || (entNum != 0 && num + 1 > entNum)
  }

  /** One turn of the decoder: stop, or hand over an entry and go on behind it. */
  datatype Turn = Stop(ok: bool) | Give(entry: Entry, rest: seq<byte>)

  function Take(d: seq<byte>, entNum: nat, num: nat): (t: Turn)
    ensures t.Give? ==> |t.rest| < |d| && (entNum == 0 || num < entNum)
  {
    if |d| < HEADER_LENGTH then Stop(true)
    else if d[1] < HEADER_LENGTH then Stop(false)
    else if AtEnd(d, entNum, num) then Stop(true)
    else if |d| < d[1] then Stop(false)
    else
      match ScanStrings(d[d[1]..])
      case None => Stop(false)
      case Some((strings, n)) => Give(Header(d, strings), d[d[1] + n..])
  }

  function Counted(entNum: nat, num: nat): nat {
    if entNum != 0 then num + 1 else num
  }

  function Decode(d: seq<byte>, entNum: nat, num: nat): Table
    decreases |d|
  {
    match Take(d, entNum, num)
    case Stop(ok) => Table(ok, [])
    case Give(entry, rest) =>
      var t := Decode(rest, entNum, Counted(entNum, num));
      Table(t.ok, [entry] + t.entries)
  }

  /** The body of the decoding loop; the entry count is only kept when it is not 0. */
  method TakeEntry(tab: Reader, entNum: nat, num: nat) returns (t: Option<Entry>, ok: bool)
    requires tab.Valid()
    modifies tab
    ensures tab.Valid()
    ensures match Take(old(tab.Rest()), entNum, num)
            case Stop(fine) => t == None && ok == fine
            case Give(entry, rest) => t == Some(entry) && tab.Rest() == rest
  {
    ghost var d := tab.Rest();
    var header := tab.Peek(HEADER_LENGTH);
    if header.None? { return None, true; }
    var kind, length := header.value[0], header.value[1];
    if length < HEADER_LENGTH { return None, false; }
    if kind == END_OF_TABLE || (entNum != 0 && num + 1 > entNum) { return None, true; }
    var body := tab.Pull(length);
    if body.None? { return None, false; }
    var fine, strings := DecodeStrings(tab);
    if !fine { return None, false; }
    ghost var n := ScanStrings(d[length..]).value.1;
    assert d[length..][n..] == d[length + n..];
    return Some(Entry(kind, Word(header.value[2], header.value[3]), body.value, strings)), true;
  }

  function Prepend(entries: seq<Entry>, t: Table): Table {
    Table(t.ok, entries + t.entries)
  }

  lemma PrependTurn(handed: seq<Entry>, d: seq<byte>, entNum: nat, num: nat)
    ensures match Take(d, entNum, num)
            case Stop(ok) => Prepend(handed, Decode(d, entNum, num)) == Table(ok, handed)
            case Give(e, rest) =>
              Prepend(handed, Decode(d, entNum, num)) ==
                Prepend(handed + [e], Decode(rest, entNum, Counted(entNum, num)))
  {
    var turn := Take(d, entNum, num);
    if turn.Give? {
      var t := Decode(turn.rest, entNum, Counted(entNum, num));
      assert handed + ([turn.entry] + t.entries) == handed + [turn.entry] + t.entries;
    }
  }

  method DecodeTables(tab: Reader, entNum: nat) returns (ok: bool, handed: seq<Entry>)
    requires tab.Valid()
    modifies tab
    ensures Decode(old(tab.Rest()), entNum, 0) == Table(ok, handed)
  {
    var num := 0;
    handed := [];
    while true
      invariant tab.Valid()
      invariant Prepend(handed, Decode(tab.Rest(), entNum, num)) == Decode(old(tab.Rest()), entNum, 0)
      decreases |tab.data| - tab.head
    {
      PrependTurn(handed, tab.Rest(), entNum, num);
      var entry;
      entry, ok := TakeEntry(tab, entNum, num);
      if entry.None? { return; }
      handed := handed + [entry.value];
      if entNum != 0 { num := num + 1; }
    }
  }

  // ----- encoding -----

  datatype Structure = Structure(kind: byte, handle: nat, payload: seq<byte>, strings: seq<seq<byte>>)

  predicate WellFormed(s: Structure) {
    s.kind != END_OF_TABLE && s.handle < 0x1_0000 && HEADER_LENGTH + |s.payload| < 256 && Encodable(s.strings)
  }

  function Body(s: Structure): seq<byte>
    requires WellFormed(s)
  {
    [s.kind, HEADER_LENGTH + |s.payload|, s.handle % 256, s.handle / 256] + s.payload
  }

  function Encode(s: Structure): seq<byte>
    requires WellFormed(s)
  {
    Body(s) + EncodeStrings(s.strings)
  }

  function EntryOf(s: Structure): Entry
    requires WellFormed(s)
  {
    Entry(s.kind, s.handle, Body(s), s.strings)
  }

  predicate AllWellFormed(ss: seq<Structure>) {
    forall i :: 0 <= i < |ss| ==> WellFormed(ss[i])
  }

  function EncodeAll(ss: seq<Structure>): seq<byte>
    requires AllWellFormed(ss)
  {
    if |ss| == 0 then [] else Encode(ss[0]) + EncodeAll(ss[1..])
  }

  function EntriesOf(ss: seq<Structure>): seq<Entry>
    requires AllWellFormed(ss)
  {
    if |ss| == 0 then [] else [EntryOf(ss[0])] + EntriesOf(ss[1..])
  }

  lemma BodyParts(s: Structure, tail: seq<byte>)
    requires WellFormed(s)
    ensures var d := Body(s) + tail;
            && |Body(s)| == HEADER_LENGTH + |s.payload| == d[1]
            && d[0] == s.kind && Word(d[2], d[3]) == s.handle
            && d[..d[1]] == Body(s) && d[d[1]..] == tail
  {
  }

  lemma TakeEncoded(s: Structure, tail: seq<byte>, entNum: nat, num: nat)
    requires WellFormed(s) && (entNum == 0 || num < entNum)
    ensures Take(Encode(s) + tail, entNum, num) == Give(EntryOf(s), tail)
  {
    var strings := EncodeStrings(s.strings);
    var d := Encode(s) + tail;
    assert d == Body(s) + (strings + tail);
    BodyParts(s, strings + tail);
    ScanOfEncoded(s.strings, tail);
    assert d[d[1] + |strings|..] == tail;
  }

  /** From `d`, the turns of the decoder hand over `es` and reach `tail`. */
  ghost predicate Hands(d: seq<byte>, es: seq<Entry>, tail: seq<byte>, entNum: nat, num: nat)
    decreases |es|
  {
    if |es| == 0 then d == tail
    else
      var t := Take(d, entNum, num);
      t.Give? && t.entry == es[0] && Hands(t.rest, es[1..], tail, entNum, Counted(entNum, num))
  }

  function CountedBy(entNum: nat, num: nat, n: nat): nat {
    if entNum != 0 then num + n else num
  }

  lemma DecodeGives(d: seq<byte>, entNum: nat, num: nat, es: seq<Entry>, rest: seq<byte>, t: Table)
    requires |es| > 0 && Take(d, entNum, num) == Give(es[0], rest)
    requires Decode(rest, entNum, Counted(entNum, num)) == Prepend(es[1..], t)
    ensures Decode(d, entNum, num) == Prepend(es, t)
  {
    assert [es[0]] + (es[1..] + t.entries) == es + t.entries;
  }

  lemma {:induction false} HandsDecode(d: seq<byte>, es: seq<Entry>, tail: seq<byte>, entNum: nat, num: nat)
    requires Hands(d, es, tail, entNum, num)
    ensures Decode(d, entNum, num) == Prepend(es, Decode(tail, entNum, CountedBy(entNum, num, |es|)))
    decreases |es|
  {
    if |es| > 0 {
      var rest := Take(d, entNum, num).rest;
      HandsDecode(rest, es[1..], tail, entNum, Counted(entNum, num));
      DecodeGives(d, entNum, num, es, rest, Decode(tail, entNum, CountedBy(entNum, num, |es|)));
    }
  }

  lemma {:induction false} EncodedHands(ss: seq<Structure>, tail: seq<byte>, entNum: nat, num: nat)
    requires AllWellFormed(ss) && (entNum == 0 || num + |ss| <= entNum)
    ensures Hands(EncodeAll(ss) + tail, EntriesOf(ss), tail, entNum, num)
    decreases |ss|
  {
    if |ss| == 0 {
      assert EncodeAll(ss) + tail == tail;
    } else {
      var behind := EncodeAll(ss[1..]) + tail;
      EncodedHands(ss[1..], tail, entNum, Counted(entNum, num));
      Associate(Encode(ss[0]), EncodeAll(ss[1..]), tail);
      TakeEncoded(ss[0], behind, entNum, num);
      assert EntriesOf(ss)[1..] == EntriesOf(ss[1..]);
    }
  }

  lemma Associate(a: seq<byte>, b: seq<byte>, c: seq<byte>)
    ensures (a + b) + c == a + (b + c)
  {
  }

  /**
   Decoding the encoding of any structures hands over exactly those structures, in order,
   and then whatever the bytes behind them decode to.
   */
  lemma DecodeOfEncoded(ss: seq<Structure>, tail: seq<byte>, entNum: nat)
    requires AllWellFormed(ss) && (entNum == 0 || |ss| <= entNum)
    ensures Decode(EncodeAll(ss) + tail, entNum, 0) ==
            Prepend(EntriesOf(ss), Decode(tail, entNum, CountedBy(entNum, 0, |ss|)))
  {
    EncodedHands(ss, tail, entNum, 0);
    HandsDecode(EncodeAll(ss) + tail, EntriesOf(ss), tail, entNum, 0);
    EntriesOfLength(ss);
  }

  lemma {:induction false} EntriesOfLength(ss: seq<Structure>)
    requires AllWellFormed(ss)
    ensures |EntriesOf(ss)| == |ss|
  {
    if |ss| > 0 { EntriesOfLength(ss[1..]); }
  }

  /** Nothing behind the structures is an entry: too short, an end marker, or the count is reached. */
  predicate Ends(tail: seq<byte>, entNum: nat, count: nat) {
    |tail| < HEADER_LENGTH || (tail[1] >= HEADER_LENGTH && AtEnd(tail, entNum, CountedBy(entNum, 0, count)))
  }

  /** The round trip, with or without an end marker and with any entry count that is 0 or large enough. */
  lemma RoundTrip(ss: seq<Structure>, tail: seq<byte>, entNum: nat)
    requires AllWellFormed(ss) && (entNum == 0 || |ss| <= entNum) && Ends(tail, entNum, |ss|)
    ensures Decode(EncodeAll(ss) + tail, entNum, 0) == Table(true, EntriesOf(ss))
  {
    DecodeOfEncoded(ss, tail, entNum);
    assert EntriesOf(ss) + [] == EntriesOf(ss);
  }

  // ----- the verdict -----

  /** Two NUL bytes meet somewhere in `d`. */
  ghost predicate HasPair(d: seq<byte>) {
    exists j: nat :: j + 1 < |d| && PairAt(d, j)
  }

  /** A structure starts here and is not the end of the table, but is too short or not complete. */
  ghost predicate Malformed(d: seq<byte>, entNum: nat, num: nat) {
    && |d| >= 4
    && (d[1] < 4 || (d[0] != 0x7f && (entNum == 0 || num < entNum) && (|d| < d[1] || !HasPair(d[d[1]..]))))
  }

  lemma StopMeans(d: seq<byte>, entNum: nat, num: nat)
    ensures Take(d, entNum, num) == Stop(false) <==> Malformed(d, entNum, num)
  {
    if |d| >= 4 && 4 <= d[1] <= |d| { ScanStopsAtFirstPair(d[d[1]..]); }
  }

  /** On any bytes, the table is sound unless what is behind the entries handed over is malformed. */
  lemma {:induction false} Verdict(d: seq<byte>, entNum: nat, num: nat) returns (rest: seq<byte>)
    ensures var t := Decode(d, entNum, num);
            && Hands(d, t.entries, rest, entNum, num)
            && (!t.ok <==> Malformed(rest, entNum, CountedBy(entNum, num, |t.entries|)))
    decreases |d|
  {
    StopMeans(d, entNum, num);
    match Take(d, entNum, num) {
      case Stop(_) => rest := d;
      case Give(entry, behind) =>
        rest := Verdict(behind, entNum, Counted(entNum, num));
        var t := Decode(behind, entNum, Counted(entNum, num));
        assert Decode(d, entNum, num).entries[1..] == t.entries;
    }
  }

  lemma CutMalformed(s: Structure, k: nat, entNum: nat, num: nat)
    requires WellFormed(s) && 4 <= k < |Encode(s)| && (entNum == 0 || num < entNum)
    ensures Malformed(Encode(s)[..k], entNum, num)
  {
    var d, strings := Encode(s)[..k], EncodeStrings(s.strings);
    BodyParts(s, strings);
    assert d[0] == s.kind && d[1] == |Body(s)|;
    if |d| >= d[1] {
      ScanOfEncoded(s.strings, []);
      assert strings + [] == strings;
      ScanStopsAtFirstPair(strings);
      var cut := d[d[1]..];
      assert cut == strings[..k - |Body(s)|];
      forall j: nat | j + 1 < |cut| ensures !PairAt(cut, j) { assert PairAt(cut, j) == PairAt(strings, j); }
    }
  }

  /** A table that is cut off inside a structure hands over the ones before it, and is not sound. */
  lemma TruncatedFails(ss: seq<Structure>, s: Structure, k: nat, entNum: nat)
    requires AllWellFormed(ss) && WellFormed(s) && 4 <= k < |Encode(s)| && (entNum == 0 || |ss| < entNum)
    ensures Decode(EncodeAll(ss) + Encode(s)[..k], entNum, 0) == Table(false, EntriesOf(ss))
  {
    var tail, num := Encode(s)[..k], CountedBy(entNum, 0, |ss|);
    DecodeOfEncoded(ss, tail, entNum);
    CutMalformed(s, k, entNum, num);
    StopMeans(tail, entNum, num);
    assert EntriesOf(ss) + [] == EntriesOf(ss);
  }

  /** On any bytes, no more entries are handed over than a count that is not 0 announces. */
  lemma {:induction false} CountIsALimit(d: seq<byte>, entNum: nat, num: nat)
    requires entNum != 0 && num <= entNum
    ensures num + |Decode(d, entNum, num).entries| <= entNum
    decreases |d|
  {
    match Take(d, entNum, num) {
      case Stop(_) =>
      case Give(_, rest) => CountIsALimit(rest, entNum, num + 1);
    }
  }

  /** An entry that agrees with its own header and could have been encoded. */
  predicate Sound(e: Entry) {
    && e.kind != END_OF_TABLE && HEADER_LENGTH <= |e.body| < 256
    && e.body[0] == e.kind && e.body[1] == |e.body| && Word(e.body[2], e.body[3]) == e.handle
    && Encodable(e.strings)
  }

  lemma TakenIsSound(d: seq<byte>, entNum: nat, num: nat)
    requires Take(d, entNum, num).Give?
    ensures Sound(Take(d, entNum, num).entry)
  {
    WordsAreEncodable(d[d[1]..], ScanStrings(d[d[1]..]).value.1 - 1);
  }

  /** On any bytes, whatever is handed over is sound. */
  lemma {:induction false} HandedOverIsSound(d: seq<byte>, entNum: nat, num: nat, i: nat)
    requires i < |Decode(d, entNum, num).entries|
    ensures Sound(Decode(d, entNum, num).entries[i])
    decreases |d|
  {
    TakenIsSound(d, entNum, num);
    if i > 0 { HandedOverIsSound(Take(d, entNum, num).rest, entNum, Counted(entNum, num), i - 1); }
  }
}
