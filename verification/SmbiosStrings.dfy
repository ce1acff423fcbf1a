/** The string set that follows every SMBIOS structure (client/redfish.c). */
module SmbiosStrings {
  import opened Common
  import opened Buffer

  // ----- specification -----

  predicate PairAt(d: seq<byte>, j: nat)
    requires j + 1 < |d|
  {
    d[j] == 0 && d[j + 1] == 0
  }

  /** The first index from `i` on at which two NUL bytes meet, or `|d|`. */
  function FindPair(d: seq<byte>, i: nat): (p: nat)
    requires i <= |d|
    ensures i <= p <= |d|
    ensures p < |d| ==> p + 1 < |d| && PairAt(d, p)
    ensures forall j: nat :: i <= j < p && j + 1 < |d| ==> !PairAt(d, j)
    decreases |d| - i
  {
    if i + 1 >= |d| then |d| else if PairAt(d, i) then i else FindPair(d, i + 1)
  }

  /** The words that ended among the first `n` bytes, and the one that has not. */
  function Words(d: seq<byte>, n: nat): (seq<seq<byte>>, seq<byte>)
    requires n <= |d|
  {
    if n == 0 then ([], [])
    else
      var (words, word) := Words(d, n - 1);
      if d[n - 1] != 0 then (words, word + [d[n - 1]])
      else if word != [] then (words + [word], [])
      else (words, [])
  }

  /** The strings of a set and its size: the set ends with the first pair of NUL bytes. */
  function ScanStrings(d: seq<byte>): Option<(seq<seq<byte>>, nat)> {
    var p := FindPair(d, 0);
    if p == |d| then None else Some((Words(d, p + 1).0, p + 2))
  }

  // ----- the scanner -----

  /** `d` with `e` as the byte just read and `beg` as the start of the word before it. */
  ghost predicate Scanning(d: seq<byte>, beg: nat, e: nat, strings: seq<seq<byte>>) {
    && beg < e < |d|
    && (d[beg] == 0 <==> d[e - 1] == 0)
    && (forall j: nat :: j < e - 1 ==> !PairAt(d, j))
    && Words(d, e) == (strings, if d[beg] == 0 then [] else d[beg..e])
  }

  lemma WordEnds(d: seq<byte>, beg: nat, e: nat, strings: seq<seq<byte>>)
    requires Scanning(d, beg, e, strings) && d[beg] != 0 && d[e] == 0 && e + 1 < |d|
    ensures Scanning(d, e, e + 1, strings + [d[beg..e]])
  {
    assert Words(d, e + 1) == (strings + [d[beg..e]], []);
  }

  lemma WordStarts(d: seq<byte>, beg: nat, e: nat, strings: seq<seq<byte>>)
    requires Scanning(d, beg, e, strings) && d[beg] == 0 && d[e] != 0 && e + 1 < |d|
    ensures Scanning(d, e, e + 1, strings)
  {
    assert Words(d, e + 1) == (strings, [] + [d[e]]);
    assert [] + [d[e]] == d[e..e + 1];
  }

  lemma WordGrows(d: seq<byte>, beg: nat, e: nat, strings: seq<seq<byte>>)
    requires Scanning(d, beg, e, strings) && d[beg] != 0 && d[e] != 0 && e + 1 < |d|
    ensures Scanning(d, beg, e + 1, strings)
  {
    assert Words(d, e + 1) == (strings, d[beg..e] + [d[e]]);
    assert d[beg..e] + [d[e]] == d[beg..e + 1];
  }

  /** Where the scanner starts: one byte is the whole first word or none. */
  lemma ScanStart(d: seq<byte>)
    requires |d| >= 2
    ensures Scanning(d, 0, 1, [])
  {
    assert Words(d, 0) == ([], []);
    assert [] + [d[0]] == d[0..1];
  }

  lemma PairIsFirst(d: seq<byte>, p: nat)
    requires p + 1 < |d| && PairAt(d, p)
    requires forall j: nat :: j < p ==> !PairAt(d, j)
    ensures FindPair(d, 0) == p
  {
  }

  lemma NoPair(d: seq<byte>)
    requires forall j: nat :: j < |d| - 1 ==> !PairAt(d, j)
    ensures FindPair(d, 0) == |d|
  {
  }

  lemma ScanEnds(d: seq<byte>, beg: nat, e: nat, strings: seq<seq<byte>>)
    requires Scanning(d, beg, e, strings) && d[beg] == 0 && d[e] == 0
    ensures ScanStrings(d) == Some((strings, e + 1))
  {
    PairIsFirst(d, e - 1);
  }

  lemma ScanFails(d: seq<byte>, beg: nat, e: nat, strings: seq<seq<byte>>)
    requires Scanning(d, beg, e, strings) && (d[beg] != 0 || d[e] != 0) && e + 1 == |d|
    ensures ScanStrings(d) == None
  {
    NoPair(d);
  }

  /** The scanning loop, over the bytes ahead; `n` of them are pulled. */
  method Scan(d: seq<byte>) returns (ok: bool, strings: seq<seq<byte>>, n: nat)
    ensures ok == ScanStrings(d).Some?
    ensures ok ==> ScanStrings(d).value == (strings, n)
    ensures n <= |d| && (!ok ==> n == |d|)
  {
    strings := [];
    if |d| < 2 { return false, [], |d|; }
    var beg, end := 0, 1;
    ScanStart(d);
    while d[beg] != 0 || d[end] != 0
      invariant Scanning(d, beg, end, strings)
      decreases |d| - end
    {
      if end + 1 == |d| {
        ScanFails(d, beg, end, strings);
        return false, strings, |d|;
      }
      if d[end] == 0 && d[beg] != 0 {
        WordEnds(d, beg, end, strings);
        strings := strings + [d[beg..end]];
        beg := end;
      } else if d[beg] == 0 {
        WordStarts(d, beg, end, strings);
        beg := end;
      } else {
        WordGrows(d, beg, end, strings);
      }
      end := end + 1;
    }
    ScanEnds(d, beg, end, strings);
    return true, strings, end + 1;
  }

  method DecodeStrings(bp: Reader) returns (ok: bool, strings: seq<seq<byte>>)
    requires bp.Valid()
    modifies bp
    ensures bp.Valid()
    ensures var scan := ScanStrings(old(bp.Rest()));
            && ok == scan.Some?
            && (ok ==> strings == scan.value.0 && scan.value.1 <= |old(bp.Rest())| &&
                       bp.Rest() == old(bp.Rest())[scan.value.1..])
  {
    var n;
    ok, strings, n := Scan(bp.data[bp.head..]);
    var _ := bp.Pull(n);
  }

  // ----- encoding -----

  function Join(strings: seq<seq<byte>>): seq<byte> {
    if |strings| == 0 then [] else Join(strings[..|strings| - 1]) + strings[|strings| - 1] + [0]
  }

  function EncodeStrings(strings: seq<seq<byte>>): seq<byte> {
    if |strings| == 0 then [0, 0] else Join(strings) + [0]
  }

  predicate Encodable(strings: seq<seq<byte>>) {
    forall i :: 0 <= i < |strings| ==> |strings[i]| > 0 && 0 !in strings[i]
  }

  lemma {:induction false} WordsOfNonzero(d: seq<byte>, i: nat, n: nat)
    requires i <= n <= |d| && Words(d, i).1 == [] && forall k :: i <= k < n ==> d[k] != 0
    ensures Words(d, n) == (Words(d, i).0, d[i..n])
    decreases n
  {
    if i < n {
      WordsOfNonzero(d, i, n - 1);
      assert d[i..n - 1] + [d[n - 1]] == d[i..n];
    }
  }

  /** Every word of `d` that `strings` lists ends with its terminator, and no pair occurs before. */
  lemma {:induction false} WordsOfJoin(strings: seq<seq<byte>>, d: seq<byte>)
    requires Encodable(strings) && Join(strings) <= d
    ensures Words(d, |Join(strings)|) == (strings, [])
    ensures |strings| > 0 ==> |Join(strings)| >= 2 && d[|Join(strings)| - 1] == 0
    ensures forall j: nat :: j + 1 < |Join(strings)| ==> !PairAt(d, j)
    decreases |strings|
  {
    if |strings| > 0 {
      var init, last := strings[..|strings| - 1], strings[|strings| - 1];
      var i, n := |Join(init)|, |Join(strings)| - 1;
      assert Join(strings) == Join(init) + last + [0];
      assert Join(init) <= d;
      WordsOfJoin(init, d);
      assert d[i..n] == last;
      forall k | i <= k < n ensures d[k] != 0 { assert d[k] == last[k - i]; }
      WordsOfNonzero(d, i, n);
      assert d[n] == 0 && strings == init + [last];
      forall j: nat | j + 1 < n + 1 ensures !PairAt(d, j) {
        if j + 1 == i { assert d[i] != 0; }
      }
    }
  }

  /** Scanning undoes encoding, whatever bytes follow. */
  lemma ScanOfEncoded(strings: seq<seq<byte>>, tail: seq<byte>)
    requires Encodable(strings)
    ensures ScanStrings(EncodeStrings(strings) + tail) == Some((strings, |EncodeStrings(strings)|))
  {
    var d := EncodeStrings(strings) + tail;
    if |strings| == 0 {
      PairIsFirst(d, 0);
      assert Words(d, 1) == ([], []) by { assert Words(d, 0) == ([], []); }
    } else {
      assert Join(strings) <= d;
      WordsOfJoin(strings, d);
      PairIsFirst(d, |Join(strings)| - 1);
    }
  }

  /** The scanner succeeds exactly when two NUL bytes meet, and stops right after the first such pair. */
  lemma ScanStopsAtFirstPair(d: seq<byte>)
    ensures ScanStrings(d).Some? <==> exists j: nat :: j + 1 < |d| && PairAt(d, j)
    ensures ScanStrings(d).Some? ==>
              var n := ScanStrings(d).value.1;
              2 <= n <= |d| && PairAt(d, n - 2) && forall j: nat :: j < n - 2 ==> !PairAt(d, j)
  {
  }

  /** Whatever is scanned could have been encoded: no string is empty or holds a NUL byte. */
  lemma {:induction false} WordsAreEncodable(d: seq<byte>, n: nat)
    requires n <= |d|
    ensures Encodable(Words(d, n).0) && 0 !in Words(d, n).1
  {
    if n > 0 { WordsAreEncodable(d, n - 1); }
  }
}
