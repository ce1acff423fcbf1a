/** Netmasks of src/address.c: building them, counting them and what they mean. */
module Netmask {
  import opened Address

  /** `0xFF00 >> k`, spelled out so that every shift is by a constant. */
  function ShiftedOnes(k: nat): bv16
    requires k <= 8
  {
    var ones: bv16 := 0xFF00;
    if k == 0 then ones else if k == 1 then ones >> 1 else if k == 2 then ones >> 2 else if k == 3 then ones >> 3
    else if k == 4 then ones >> 4 else if k == 5 then ones >> 5 else if k == 6 then ones >> 6
    else if k == 7 then ones >> 7 else ones >> 8
  }

  /** The same, stored in one octet. */
  function MaskOctet(k: nat): bv8
    requires k <= 8
  {
    (ShiftedOnes(k) & 0xFF) as bv8
  }

  lemma MaskOctetBits(k: nat, j: nat)
    requires k <= 8 && j < 8
    ensures Bit(MaskOctet(k), j) <==> j < k
  {
  }

  /** How many bits of a prefix fall into octet `i`. */
  function OctetBits(prefix: nat, i: nat): nat {
    if prefix <= 8 * i then 0 else Min(prefix - 8 * i, 8)
  }

  function Mask(len: nat, prefix: nat): (m: seq<bv8>)
    ensures |m| == len
  {
    seq(len, i requires 0 <= i < len => MaskOctet(OctetBits(prefix, i)))
  }

  /** Bit by bit, a netmask is the prefix. */
  lemma MaskBits(len: nat, prefix: nat, i: nat)
    requires i < 8 * len
    ensures BitAt(Mask(len, prefix), i) <==> i < prefix
  {
    MaskOctetBits(OctetBits(prefix, i / 8), i % 8);
  }

  method BuildNetmask(family: Family, prefix: nat, mask: array<bv8>) returns (ret: int)
    requires mask.Length == Length(family)
    modifies mask
    ensures mask[..] == Mask(Length(family), prefix)
    ensures ret == if HasData(family) && prefix <= 8 * Length(family) then 0 else -1
  {
    for i := 0 to mask.Length
      invariant forall j :: 0 <= j < i ==> mask[j] == 0
    {
      mask[i] := 0;
    }
    if !HasData(family) {
      assert mask[..] == [] == Mask(0, prefix);
      return -1;
    }
    var left, i := prefix, 0;
    while i < mask.Length && left != 0
      invariant 0 <= i <= mask.Length
      invariant left == if prefix <= 8 * i then 0 else prefix - 8 * i
      invariant forall j :: 0 <= j < i ==> mask[j] == MaskOctet(OctetBits(prefix, j))
      invariant forall j :: i <= j < mask.Length ==> mask[j] == 0
    {
      var bits := if left < 8 then left else 8;
      mask[i] := MaskOctet(bits);
      left := left - bits;
      i := i + 1;
    }
    return if left != 0 then -1 else 0;
  }

  // ----- counting -----

  /** `n` is the length of the leading run of one bits. */
  ghost predicate LeadingRun(m: seq<bv8>, n: nat) {
    && n <= 8 * |m|
    && (forall i: nat :: i < n ==> BitAt(m, i))
    && (n < 8 * |m| ==> !BitAt(m, n))
  }

  lemma LeadingRunUnique(m: seq<bv8>, a: nat, b: nat)
    requires LeadingRun(m, a) && LeadingRun(m, b)
    ensures a == b
  {
  }

  lemma LeadingRunUniqueForAll(m: seq<bv8>)
    ensures forall a, b :: LeadingRun(m, a) && LeadingRun(m, b) ==> a == b
  {
    forall a, b | LeadingRun(m, a) && LeadingRun(m, b) ensures a == b { LeadingRunUnique(m, a, b); }
  }

  function RunFrom(m: seq<bv8>, i: nat): (n: nat)
    requires i <= 8 * |m|
    ensures i <= n <= 8 * |m|
    ensures forall k: nat :: i <= k < n ==> BitAt(m, k)
    ensures n < 8 * |m| ==> !BitAt(m, n)
    decreases 8 * |m| - i
  {
    if i < 8 * |m| && BitAt(m, i) then RunFrom(m, i + 1) else i
  }

  /** The number of leading one bits of a mask. */
  function Count(m: seq<bv8>): (n: nat)
    ensures LeadingRun(m, n)
  {
    RunFrom(m, 0)
  }

  function ShiftOctet(x: bv8, k: nat): bv8
    requires k <= 8
  {
    if k == 0 then x else if k == 1 then x << 1 else if k == 2 then x << 2 else if k == 3 then x << 3
    else if k == 4 then x << 4 else if k == 5 then x << 5 else if k == 6 then x << 6
    else if k == 7 then x << 7 else 0
  }

  lemma ShiftOctetStep(x: bv8, k: nat)
    requires k < 8
    ensures ShiftOctet(x, k) << 1 == ShiftOctet(x, k + 1)
    ensures ShiftOctet(x, k) & 0x80 != 0 <==> Bit(x, k)
  {
    if k == 0 { } else if k == 1 { } else if k == 2 { } else if k == 3 { }
    else if k == 4 { } else if k == 5 { } else if k == 6 { } else { }
  }

  lemma AllOnes(x: bv8)
    ensures x == 0xFF <==> forall j: nat :: j < 8 ==> Bit(x, j)
  {
    forall j: nat | j < 8 ensures Bit(0xFF, j) { MaskOctetBits(8, j); }
    if forall j: nat :: j < 8 ==> Bit(x, j) { SameOctet(x, 0xFF); }
  }

  /** The inner loop of the source: the leading ones of one octet. */
  method OctetRun(octet: bv8) returns (bits: nat)
    requires octet != 0xFF
    ensures bits < 8 && !Bit(octet, bits) && forall j: nat :: j < bits ==> Bit(octet, j)
  {
    AllOnes(octet);
    var cc := octet;
    bits := 0;
    while cc & 0x80 != 0
      invariant bits <= 8 && cc == ShiftOctet(octet, bits)
      invariant forall j: nat :: j < bits ==> Bit(octet, j)
      decreases 8 - bits
    {
      if bits < 8 { ShiftOctetStep(octet, bits); }
      bits := bits + 1;
      cc := cc << 1;
    }
    if bits < 8 { ShiftOctetStep(octet, bits); }
  }

  method NetmaskBits(mask: Sockaddr) returns (bits: nat)
    ensures LeadingRun(mask.data, bits) && bits == Count(mask.data)
  {
    var m := mask.data;
    bits := 0;
    if !HasData(mask.family) { return; }
    LeadingRunUniqueForAll(m);
    var i := 0;
    while i < |m|
      invariant 0 <= i <= |m| && bits == 8 * i
      invariant forall k: nat :: k < 8 * i ==> BitAt(m, k)
    {
      if m[i] == 0xFF {
        AllOnes(m[i]);
        bits := bits + 8;
      } else {
        var run := OctetRun(m[i]);
        assert BitAt(m, 8 * i + run) == Bit(m[i], run);
        forall k: nat | k < 8 * i + run ensures BitAt(m, k) {
          if k >= 8 * i { assert k / 8 == i && k % 8 == k - 8 * i; }
        }
        bits := bits + run;
        return;
      }
      i := i + 1;
    }
  }

  /** Counting a built mask returns the prefix. */
  lemma CountOfMask(len: nat, prefix: nat, n: nat)
    requires LeadingRun(Mask(len, prefix), n)
    ensures n == Min(prefix, 8 * len)
  {
    forall i: nat | i < 8 * len ensures BitAt(Mask(len, prefix), i) <==> i < prefix { MaskBits(len, prefix, i); }
    LeadingRunUnique(Mask(len, prefix), n, Min(prefix, 8 * len));
  }

  /** No one bit follows a zero bit. */
  ghost predicate Contiguous(m: seq<bv8>) {
    forall i: nat, j: nat :: i < j < 8 * |m| && BitAt(m, j) ==> BitAt(m, i)
  }

  /** Rebuilding a mask from its count returns it exactly when it is contiguous. */
  lemma RebuildIffContiguous(m: seq<bv8>, n: nat)
    requires LeadingRun(m, n)
    ensures Mask(|m|, n) == m <==> Contiguous(m)
  {
    forall i: nat | i < 8 * |m| ensures BitAt(Mask(|m|, n), i) <==> i < n { MaskBits(|m|, n, i); }
    if Contiguous(m) { SameBits(Mask(|m|, n), m); }
  }

  // ----- masking -----

  function Masked(a: seq<bv8>, m: seq<bv8>): (r: seq<bv8>)
    requires |a| == |m|
    ensures |r| == |a|
  {
    seq(|a|, i requires 0 <= i < |a| => a[i] & m[i])
  }

  lemma AndOneBit(x: bv8, y: bv8, w: bv8)
    requires w != 0 && w & (w - 1) == 0
    ensures (x & y) & w != 0 <==> x & w != 0 && y & w != 0
  {
  }

  lemma AndBit(x: bv8, y: bv8, k: nat)
    requires k < 8
    ensures Bit(x & y, k) <==> Bit(x, k) && Bit(y, k)
  {
    AndOneBit(x, y, Weight(k));
  }

  lemma MaskedBits(a: seq<bv8>, prefix: nat, i: nat)
    requires i < 8 * |a|
    ensures BitAt(Masked(a, Mask(|a|, prefix)), i) <==> BitAt(a, i) && i < prefix
  {
    AndBit(a[i / 8], Mask(|a|, prefix)[i / 8], i % 8);
    MaskBits(|a|, prefix, i);
  }

  lemma MaskedAgreement(a: seq<bv8>, b: seq<bv8>, prefix: nat)
    requires |a| == |b| && prefix <= 8 * |a|
    ensures Masked(a, Mask(|a|, prefix)) == Masked(b, Mask(|b|, prefix)) <==> AgreeOn(a, b, prefix)
  {
    var x, y := Masked(a, Mask(|a|, prefix)), Masked(b, Mask(|b|, prefix));
    forall i: nat | i < 8 * |a|
      ensures BitAt(x, i) <==> BitAt(a, i) && i < prefix
      ensures BitAt(y, i) <==> BitAt(b, i) && i < prefix
    {
      MaskedBits(a, prefix, i);
      MaskedBits(b, prefix, i);
    }
    if AgreeOn(a, b, prefix) {
      assert AgreeOn(x, y, 8 * |a|);
      SameBits(x, y);
    }
    if x == y {
      forall i: nat | i < prefix ensures BitAt(a, i) == BitAt(b, i) {
        assert BitAt(x, i) == BitAt(y, i);
      }
    }
  }

  /** Two addresses match on a prefix exactly when they agree after masking with its netmask. */
  lemma PrefixMatchIsMasking(prefix: nat, a: Sockaddr, b: Sockaddr)
    ensures PrefixMatch(prefix, a, b) <==>
              && a.family == b.family && HasData(a.family)
              && var m := Mask(|a.data|, Min(prefix, 8 * |a.data|)); Masked(a.data, m) == Masked(b.data, m)
  {
    PrefixMatchIsAgreement(prefix, a, b);
    if a.family == b.family { MaskedAgreement(a.data, b.data, Min(prefix, 8 * |a.data|)); }
  }
}
